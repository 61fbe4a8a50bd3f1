// What alloc_vm does with an index left at 512. lib/kernel/memory/pagination/PageTable.cpp:73,80,85-92
module BareCarry {
  import opened AllocVm
  import opened FirstFit
  import opened MapRange
  import opened Options
  import opened PageEntry
  import opened PageTable
  import opened PageWalk
  import opened Words

  // ---------- Addresses ----------

  function NextPage(va: bv64): bv64
  {
    va + PAGE_SIZE
  }

  /** e is the index after d. */
  predicate Follows(d: bv64, e: bv64)
  {
    d < 511 && e == d + 1
  }

  predicate IsLast(d: bv64, e: bv64)
  {
    d == 511 && e == 0
  }

  lemma NextInTable(a: bv64, b: bv64, c: bv64, d: bv64, e: bv64)
    requires IsIndex(a) && IsIndex(b) && IsIndex(c) && Follows(d, e)
    ensures NextPage(Convert(a, b, c, d)) == Convert(a, b, c, e)
  {
  }

  lemma NextTable(a: bv64, b: bv64, c: bv64, d: bv64, l: bv64, o: bv64)
    requires IsIndex(a) && IsIndex(b) && Follows(c, d) && IsLast(l, o)
    ensures NextPage(Convert(a, b, c, l)) == Convert(a, b, d, o)
  {
  }

  lemma NextDirectory(a: bv64, b: bv64, c: bv64, l: bv64, o: bv64)
    requires IsIndex(a) && Follows(b, c) && IsLast(l, o)
    ensures NextPage(Convert(a, b, l, l)) == Convert(a, c, o, o)
  {
  }

  lemma WordFollows(n: nat)
    requires n < TABLE - 1
    ensures Follows(Word(n), Word(n + 1))
  {
    hide Word, IsIndex;
    WordNext(n);
    WordIsIndex(n);
    WordIsIndex(n + 1);
    NextIsBelow(Word(n), Word(n + 1));
  }

  lemma NextIsBelow(d: bv64, e: bv64)
    requires e == d + 1 && IsIndex(d) && IsIndex(e)
    ensures Follows(d, e)
  {
  }

  lemma Word511()
    ensures IsLast(Word(511), Word(0))
  {
    Word512();
    WordZero();
  }

  /** Entry 512 of a table is the first of the page behind it. */
  lemma SpillIsPage(a: bv64, b: bv64, c: bv64, d: bv64)
    ensures EntryVa(a, b, c, d, 512) == NextPage(Convert(a, b, c, d))
  {
    hide Convert;
    assert (512 as bv64) * 8 == PAGE_SIZE;
  }

  lemma ZeroEntry(a: bv64, b: bv64, c: bv64, d: bv64)
    ensures EntryVa(a, b, c, d, 0) == Convert(a, b, c, d)
  {
  }

  lemma SpillsOver(b: bv64, c: bv64, d: bv64, e: bv64)
    requires IsIndex(b) && IsIndex(c) && Follows(d, e)
    ensures EntryVa(SELF, b, c, d, 512) == EntryVa(SELF, b, c, e, 0)
  {
    assert IsIndex(SELF);
    hide IsIndex, EntryVa, Convert, NextPage, Follows;
    SpillIsPage(SELF, b, c, d);
    NextInTable(SELF, b, c, d, e);
    ZeroEntry(SELF, b, c, e);
  }

  lemma SpillsOverTable(b: bv64, c: bv64, d: bv64, l: bv64, o: bv64)
    requires IsIndex(b) && Follows(c, d) && IsLast(l, o)
    ensures EntryVa(SELF, b, c, l, 512) == EntryVa(SELF, b, d, o, 0)
  {
    assert IsIndex(SELF);
    hide IsIndex, EntryVa, Convert, NextPage, Follows, IsLast;
    SpillIsPage(SELF, b, c, l);
    NextTable(SELF, b, c, d, l, o);
    ZeroEntry(SELF, b, d, o);
  }

  function SetLow(w: bv64): bv64
  {
    w | 1
  }

  /** In the macro an index of 512 sets the lowest bit of the index before it. */
  lemma SetsLowBit(a: bv64, b: bv64, c: bv64, d: bv64)
    requires IsIndex(d)
    ensures Convert(a, b, c, 512) == Convert(a, b, SetLow(c), 0)
    ensures Convert(a, b, 512, d) == Convert(a, SetLow(b), 0, d)
    ensures Convert(a, b, 512, 512) == Convert(a, SetLow(b), 1, 0)
  {
  }

  /** n if it is odd, else n + 1. */
  function OddFrom(n: nat): nat
  {
    if n % 2 == 1 then n else n + 1
  }

  lemma SetLowTwice(u: bv64)
    ensures SetLow(Twice(u, false)) == Twice(u, true) && SetLow(Twice(u, true)) == Twice(u, true)
  {
  }

  lemma {:induction false} SetLowIs(n: nat)
    ensures SetLow(Word(n)) == Word(OddFrom(n))
  {
    hide Word, OddFrom, SetLow, Twice;
    var h, odd := Halves(n);
    OddFromIs(h, odd);
    WordEven(h);
    WordOdd(h);
    SetLowTwice(Word(h));
  }

  lemma OddFromIs(h: nat, odd: bool)
    ensures OddFrom(if odd then 2 * h + 1 else 2 * h) == 2 * h + 1
  {
  }

  // ---------- What the probe reads ----------

  /** The entry of page p, read through its own address: a fault without its table. */
  function Read(mem: Mem, root: bv64, base: bv64, p: nat): Looked
  {
    if Walk(mem, root, PathAt(base, p)[..3]) == None then Fault
    else if Walk(mem, root, PathAt(base, p)) == None then Null
    else Entry(EntryAddressOf(PathAt(base, p), 0))
  }

  lemma PathIsIndices(base: bv64, p: nat)
    requires IsIndex(base) && p < PAGES
    ensures Indices(PathAt(base, p))
  {
    hide Word, IsIndex;
    WordIsIndex(p / DIRECTORY);
    WordIsIndex(p / TABLE % TABLE);
    WordIsIndex(p % TABLE);
  }

  /** A lookup reads the entries of three levels and then, if all are present, the page's own. */
  lemma {:induction false} LookupParts(mem: Mem, root: bv64, path: seq<bv64>)
    requires |path| == 4
    ensures Lookup(mem, root, path, 3, 0) ==
      match Lookup(mem, root, path, 3, 1) case Entry(_) => Lookup(mem, root, path, 0, 0) case other => other
    ensures Lookup(mem, root, path, 3, 1) ==
      match Lookup(mem, root, path, 3, 2) case Entry(_) => Lookup(mem, root, path, 1, 1) case other => other
  {
    hide EntryAddressOf, Deref, IsPresent;
  }

  /** What is read at the address of page p's entry. */
  lemma ReadsPage(mem: Mem, root: bv64, base: bv64, p: nat, path: seq<bv64>)
    requires SelfMapped(mem, root) && IsIndex(base) && p < PAGES
    requires |path| == 4 && EntryAddressOf(path, 0) == EntryAddressOf(PathAt(base, p), 0)
    ensures Lookup(mem, root, path, 0, 0) == Read(mem, root, base, p)
  {
    hide SelfMapped, EntryAddress, IsIndex, Walk, IsPresent, FrameOf, Deref, PathAt;
    PathIsIndices(base, p);
    var path' := PathAt(base, p);
    RecursiveMapping(mem, root, path', 0);
    WalkOneMore(mem, root, path', 3);
    assert path'[..4] == path';
  }

  /** Page p under L4 entry `base`, counted on into the next entry. */
  function ReadOn(mem: Mem, root: bv64, base: bv64, next: bv64, p: nat): Looked
  {
    if p < PAGES then Read(mem, root, base, p) else Read(mem, root, next, p - PAGES)
  }

  /** x at 512 under table y: the three checks look at that table, but the entry read is the first of the next
      one, behind the last table that of the next L4 entry, and without that table the probe faults. */
  lemma ProbeX512(mem: Mem, root: bv64, base: bv64, next: bv64, y: nat, z: nat)
    requires SelfMapped(mem, root) && IsIndex(base) && y < TABLE && z < TABLE
    requires Linear(TABLE, y, z) < PAGES || Follows(base, next)
    ensures Probe(mem, root, base, z, y, TABLE) ==
      if Walk(mem, root, [base, Word(z), Word(y)]) == None then Null
      else ReadOn(mem, root, base, next, Linear(TABLE, y, z))
  {
    hide Lookup, Walk, Read, Word, SelfMapped, EntryAddressOf;
    var path, low := [base, Word(z), Word(y), Word(TABLE)], [base, Word(z), Word(y), Word(0)];
    LookupParts(mem, root, path);
    TopOf(mem, root, path, low);
    LowIndices(base, z, y);
    LookupIs(mem, root, low, 1);
    assert low[..3] == [base, Word(z), Word(y)];
    if Linear(TABLE, y, z) < PAGES {
      SpillAddress(base, y, z);
      ReadsPage(mem, root, base, Linear(TABLE, y, z), path);
    } else {
      LastTable(y, z);
      SpillEntry(base, next);
      ReadsPage(mem, root, next, 0, path);
    }
  }

  lemma LastTable(y: nat, z: nat)
    requires y < TABLE && z < TABLE && Linear(TABLE, y, z) >= PAGES
    ensures y == z == TABLE - 1 && Linear(TABLE, y, z) == PAGES
  {
  }

  /** Behind the last entry of an L4 entry lies the first of the next. */
  lemma {:induction false} SpillEntry(base: bv64, next: bv64)
    requires IsIndex(base) && Follows(base, next)
    ensures IsIndex(next)
    ensures EntryAddressOf([base, Word(511), Word(511), Word(TABLE)], 0) == EntryAddressOf(PathAt(next, 0), 0)
  {
    SelfIsIndex();
    assert PathAt(next, 0) == [next, Word(0), Word(0), Word(0)];
    hide Word, Convert, IsLast, PathAt, EntryVa, NextPage;
    Word512();
    WordZero();
    Word511();
    SpillIsPage(SELF, base, 511, 511);
    NextDirectory(SELF, base, next, 511, 0);
    ZeroEntry(SELF, next, 0, 0);
  }

  lemma LowIndices(base: bv64, z: nat, y: nat)
    requires IsIndex(base) && z < TABLE && y < TABLE
    ensures Indices([base, Word(z), Word(y), Word(0)])
  {
    hide Word, IsIndex;
    WordIsIndex(z);
    WordIsIndex(y);
    WordIsIndex(0);
  }

  lemma TopOf(mem: Mem, root: bv64, path: seq<bv64>, low: seq<bv64>)
    requires |path| == |low| == 4 && path[0] == low[0] && path[1] == low[1] && path[2] == low[2]
    ensures Lookup(mem, root, path, 3, 1) == Lookup(mem, root, low, 3, 1)
  {
    hide EntryVa, Deref, IsPresent;
  }

  lemma {:induction false} PathOfParts(base: bv64, x: nat, y: nat, z: nat)
    requires x < TABLE && y < TABLE
    ensures PathAt(base, Linear(x, y, z)) == [base, Word(z), Word(y), Word(x)]
  {
    hide Word, Linear;
    Parts(x, y, z);
  }

  /** The page behind the last of table y of directory z. */
  lemma PastTable(y: nat, z: nat)
    requires y < TABLE && z < TABLE && Linear(TABLE, y, z) < PAGES
    ensures y < TABLE - 1 ==> Linear(TABLE, y, z) == Linear(0, y + 1, z)
    ensures y == TABLE - 1 ==> z < TABLE - 1 && Linear(TABLE, y, z) == Linear(0, 0, z + 1)
  {
  }

  lemma {:induction false} SpillAddress(base: bv64, y: nat, z: nat)
    requires IsIndex(base) && y < TABLE && z < TABLE && Linear(TABLE, y, z) < PAGES
    ensures EntryAddressOf([base, Word(z), Word(y), Word(TABLE)], 0) ==
      EntryAddressOf(PathAt(base, Linear(TABLE, y, z)), 0)
  {
    hide Word, EntryVa, IsIndex, Follows, IsLast, Linear, PathAt;
    PastTable(y, z);
    Word512();
    WordIsIndex(z);
    if y < TABLE - 1 {
      PathOfParts(base, 0, y + 1, z);
      WordFollows(y);
      WordZero();
      SpillsOver(base, Word(z), Word(y), Word(y + 1));
    } else {
      PathOfParts(base, 0, 0, z + 1);
      WordFollows(z);
      Word511();
      SpillsOverTable(base, Word(z), Word(z + 1), Word(511), Word(0));
    }
  }

  /** The directory behind directory z, in the next L4 entry if z is the last. */
  function Behind(base: bv64, next: bv64, z: nat): (bv64, nat)
  {
    if z == TABLE - 1 then (next, 0) else (base, z + 1)
  }

  /** y at 512 in directory z: the first check looks at that directory, the second at the first table of the next
      one, and the entry read is one of the next directory for an even z, but of the same one for an odd z. */
  lemma ProbeY512(mem: Mem, root: bv64, base: bv64, next: bv64, x: nat, z: nat)
    requires SelfMapped(mem, root) && IsIndex(base) && x <= TABLE && z < TABLE
    requires z < TABLE - 1 || Follows(base, next)
    ensures var (b, w) := Behind(base, next, z);
      Probe(mem, root, base, z, TABLE, x) ==
      if Walk(mem, root, [base, Word(z)]) == None then Null
      else if Walk(mem, root, [b, Word(w)]) == None then Fault
      else if Walk(mem, root, [b, Word(w), Word(0)]) == None then Null
      else Read(mem, root, base, Linear(x, 0, OddFrom(z)))
  {
    hide Lookup, Walk, Read, Word, SelfMapped, EntryAddressOf, OddFrom, Behind, Follows;
    var path := [base, Word(z), Word(TABLE), Word(x)];
    LookupParts(mem, root, path);
    TopOfDirectory(mem, root, base, z, Word(TABLE), Word(x));
    SecondCheck(mem, root, base, next, z, x);
    SpillAddressY(base, x, z);
    ReadsPage(mem, root, base, Linear(x, 0, OddFrom(z)), path);
  }

  lemma TopOfDirectory(mem: Mem, root: bv64, base: bv64, z: nat, y: bv64, x: bv64)
    requires SelfMapped(mem, root) && IsIndex(base) && z < TABLE
    ensures match Lookup(mem, root, [base, Word(z), y, x], 3, 2)
      case Entry(_) => Walk(mem, root, [base, Word(z)]) != None
      case Null => Walk(mem, root, [base, Word(z)]) == None
      case Fault => false
  {
    hide Walk, Word, SelfMapped, Deref, IsPresent, EntryVa;
    var low := [base, Word(z), Word(0), Word(0)];
    assert Lookup(mem, root, [base, Word(z), y, x], 3, 2) == Lookup(mem, root, low, 3, 2);
    hide Lookup;
    LowIndices(base, z, 0);
    LookupIs(mem, root, low, 2);
    assert low[..2] == [base, Word(z)];
  }

  lemma SecondCheck(mem: Mem, root: bv64, base: bv64, next: bv64, z: nat, x: nat)
    requires SelfMapped(mem, root) && IsIndex(base) && z < TABLE && (z < TABLE - 1 || Follows(base, next))
    ensures var (b, w) := Behind(base, next, z);
      match Lookup(mem, root, [base, Word(z), Word(TABLE), Word(x)], 1, 1)
      case Entry(_) => Walk(mem, root, [b, Word(w)]) != None && Walk(mem, root, [b, Word(w), Word(0)]) != None
      case Null => Walk(mem, root, [b, Word(w)]) != None && Walk(mem, root, [b, Word(w), Word(0)]) == None
      case Fault => Walk(mem, root, [b, Word(w)]) == None
  {
    hide Walk, Word, SelfMapped, Deref, IsPresent, EntryVa, Follows, IsIndex, FrameOf, Behind;
    var (b, w) := Behind(base, next, z);
    var path, low := [base, Word(z), Word(TABLE), Word(x)], [b, Word(w), Word(0), Word(0)];
    BehindAddress(base, next, z, Word(x));
    RecursiveMapping(mem, root, low, 1);
    WalkOneMore(mem, root, low, 2);
    assert low[..2] == [b, Word(w)] && low[..3] == [b, Word(w), Word(0)];
  }

  /** The second check reads the first entry of the directory behind. */
  lemma BehindAddress(base: bv64, next: bv64, z: nat, x: bv64)
    requires IsIndex(base) && z < TABLE && (z < TABLE - 1 || Follows(base, next))
    ensures var (b, w) := Behind(base, next, z);
      && Indices([b, Word(w), Word(0), Word(0)])
      && EntryAddressOf([base, Word(z), Word(TABLE), x], 1) == EntryAddressOf([b, Word(w), Word(0), Word(0)], 1)
  {
    hide Word, EntryAddressOf, Follows, IsIndex, Indices;
    if z < TABLE - 1 {
      LowIndices(base, z + 1, 0);
      BehindInside(base, z, x);
    } else {
      FollowsIndex(base, next);
      LowIndices(next, 0, 0);
      BehindLast(base, next, x);
    }
  }

  lemma BehindInside(base: bv64, z: nat, x: bv64)
    requires IsIndex(base) && z < TABLE - 1
    ensures EntryAddressOf([base, Word(z), Word(TABLE), x], 1) ==
      EntryAddressOf([base, Word(z + 1), Word(0), Word(0)], 1)
  {
    SelfIsIndex();
    hide Word, EntryVa, Follows, IsIndex;
    Word512();
    WordZero();
    WordFollows(z);
    SpillsOver(SELF, base, Word(z), Word(z + 1));
  }

  lemma {:induction false} BehindLast(base: bv64, next: bv64, x: bv64)
    requires IsIndex(base) && Follows(base, next)
    ensures EntryAddressOf([base, Word(511), Word(TABLE), x], 1) ==
      EntryAddressOf([next, Word(0), Word(0), Word(0)], 1)
  {
    SelfIsIndex();
    hide Word, EntryVa, Follows, IsIndex, IsLast;
    Word512();
    WordZero();
    Word511();
    SpillsOverTable(SELF, base, next, Word(511), Word(0));
  }

  lemma FollowsIndex(d: bv64, e: bv64)
    requires Follows(d, e)
    ensures IsIndex(e)
  {
  }

  lemma SelfIsIndex()
    ensures IsIndex(SELF)
  {
  }

  lemma {:induction false} SpillAddressY(base: bv64, x: nat, z: nat)
    requires IsIndex(base) && x <= TABLE && z < TABLE
    ensures Linear(x, 0, OddFrom(z)) < PAGES
    ensures EntryAddressOf([base, Word(z), Word(TABLE), Word(x)], 0) ==
      EntryAddressOf(PathAt(base, Linear(x, 0, OddFrom(z))), 0)
  {
    OddBounds(x, z);
    hide Word, EntryVa, IsIndex, Linear, PathAt, OddFrom, SetLow;
    Word512();
    SetLowIs(z);
    WordZero();
    EntryOfSpill(base, Word(z), Word(x));
    FirstTables(base, x, OddFrom(z));
  }

  lemma {:induction false} FirstTables(base: bv64, x: nat, w: nat)
    requires IsIndex(base) && x <= TABLE && w < TABLE
    ensures EntryAddressOf(PathAt(base, Linear(x, 0, w)), 0) == EntryVa(SELF, base, Word(w), Word(0), Word(x))
  {
    hide Word, EntryVa, IsIndex, PathAt, Follows, Linear;
    if x < TABLE {
      PathOfParts(base, x, 0, w);
    } else {
      PathOfParts(base, 0, 1, w);
      Word512();
      WordIsIndex(w);
      WordFollows(0);
      WordZero();
      SpillsOver(base, Word(w), Word(0), Word(1));
      assert Linear(TABLE, 0, w) == Linear(0, 1, w) by { TwoWays(w); }
    }
  }

  lemma TwoWays(w: nat)
    ensures Linear(TABLE, 0, w) == Linear(0, 1, w)
  {
  }

  lemma OddBounds(x: nat, z: nat)
    requires x <= TABLE && z < TABLE
    ensures OddFrom(z) < TABLE && Linear(x, 0, OddFrom(z)) < PAGES
  {
  }

  lemma EntryOfSpill(base: bv64, z: bv64, x: bv64)
    ensures EntryVa(SELF, base, z, 512, x) == EntryVa(SELF, base, SetLow(z), 0, x)
  {
    assert IsIndex(0);
    hide Convert, SetLow, IsIndex, EntryIn;
    SetsLowBit(SELF, base, z, 0);
  }

  // ---------- Which page the address formed is ----------

  lemma PathOfAddress(base: bv64, p: nat)
    requires IsIndex(base) && p < PAGES
    ensures PathOf(AddressAt(base, p)) == PathAt(base, p)
  {
    var x, y, z := p % TABLE, p / TABLE % TABLE, p / DIRECTORY;
    WordIsIndex(x);
    WordIsIndex(y);
    WordIsIndex(z);
    assert IsIndex(0);
    ZeroEntry(base, Word(z), Word(y), Word(x));
    hide Word, Convert, Index, IsIndex, EntryVa, Offset, Canonical;
    EntryVaIndices(base, Word(z), Word(y), Word(x), 0);
  }

  lemma PathsDiffer(base: bv64, p: nat, q: nat)
    requires p < PAGES && q < PAGES && PathAt(base, p) == PathAt(base, q)
    ensures p == q
  {
    hide Word;
    assert PathAt(base, p)[1] == PathAt(base, q)[1] && PathAt(base, p)[2] == PathAt(base, q)[2];
    assert PathAt(base, p)[3] == PathAt(base, q)[3];
    WordsDiffer(p / DIRECTORY, q / DIRECTORY);
    WordsDiffer(p / TABLE % TABLE, q / TABLE % TABLE);
    WordsDiffer(p % TABLE, q % TABLE);
    PartsOf(p);
    PartsOf(q);
  }

  /** The page whose address the macro forms from indices of up to 512. */
  function Formed(x: nat, y: nat, z: nat): nat
  {
    if y == TABLE then Linear(x, 0, OddFrom(z))
    else if x == TABLE then Linear(0, OddFrom(y), z)
    else Linear(x, y, z)
  }

  lemma FormedBounds(x: nat, y: nat, z: nat)
    requires x <= TABLE && y <= TABLE && Linear(x, y, z) < PAGES
    ensures Formed(x, y, z) < PAGES && z < TABLE && (y == TABLE ==> z < TABLE - 1)
    ensures Formed(x, y, z) == Linear(x, y, z) <==>
      (y == TABLE ==> z % 2 == 0) && (y < TABLE && x == TABLE ==> y % 2 == 0)
  {
  }

  lemma AddressIsFormed(base: bv64, x: nat, y: nat, z: nat)
    requires IsIndex(base) && x <= TABLE && y <= TABLE && Linear(x, y, z) < PAGES
    ensures Formed(x, y, z) < PAGES && AddressOf(base, z, y, x) == AddressAt(base, Formed(x, y, z))
  {
    hide Word, Convert, SetLow, IsIndex, AddressOf;
    FormedBounds(x, y, z);
    Word512();
    if y == TABLE {
      AddressAtY(base, x, z);
    } else if x == TABLE {
      AddressAtX(base, y, z);
    } else {
      Parts(x, y, z);
    }
  }

  lemma AddressAtX(base: bv64, y: nat, z: nat)
    requires y < TABLE && z < TABLE
    ensures AddressOf(base, z, y, TABLE) == AddressAt(base, Linear(0, OddFrom(y), z))
  {
    assert OddFrom(y) < TABLE;
    assert IsIndex(0);
    hide Word, Convert, SetLow, IsIndex, OddFrom, Linear;
    Word512();
    WordZero();
    SetLowIs(y);
    SetsLowBit(base, Word(z), Word(y), 0);
    Parts(0, OddFrom(y), z);
  }

  lemma AddressAtY(base: bv64, x: nat, z: nat)
    requires x <= TABLE && z < TABLE - 1
    ensures AddressOf(base, z, TABLE, x) == AddressAt(base, Linear(x, 0, OddFrom(z)))
  {
    assert OddFrom(z) < TABLE;
    hide Word, Convert, SetLow, IsIndex, OddFrom, Linear;
    Word512();
    WordZero();
    SetLowIs(z);
    if x < TABLE {
      WordIsIndex(x);
      SetsLowBit(base, Word(z), 0, Word(x));
      Parts(x, 0, OddFrom(z));
    } else {
      assert IsIndex(0) by { ZeroIsIndex(); }
      SetsLowBit(base, Word(z), 0, 0);
      TwoWays(OddFrom(z));
      Parts(0, 1, OddFrom(z));
    }
  }

  lemma ZeroIsIndex()
    ensures IsIndex(0)
  {
  }

  /** The address formed is the one of the page meant exactly if the index in front of the 512 is even. */
  lemma AddressExactly(base: bv64, x: nat, y: nat, z: nat)
    requires IsIndex(base) && x <= TABLE && y <= TABLE && Linear(x, y, z) < PAGES
    ensures AddressOf(base, z, y, x) == AddressAt(base, Linear(x, y, z)) <==>
      (y == TABLE ==> z % 2 == 0) && (y < TABLE && x == TABLE ==> y % 2 == 0)
  {
    AddressIsFormed(base, x, y, z);
    FormedBounds(x, y, z);
    hide Linear, Formed, AddressOf, AddressAt, PathAt, PathOf, IsIndex;
    if AddressOf(base, z, y, x) == AddressAt(base, Linear(x, y, z)) {
      PathOfAddress(base, Formed(x, y, z));
      PathOfAddress(base, Linear(x, y, z));
      PathsDiffer(base, Formed(x, y, z), Linear(x, y, z));
    }
  }

  // ---------- A round that ends the search ----------

  /** If the first probe says the page is free, and the request fits there, that is where the search stops. */
  lemma RoomBehind(mem: Mem, root: bv64, base: bv64, pages: nat, x: nat, y: nat, z: nat)
    requires SelfMapped(mem, root) && IsIndex(base) && x <= TABLE && y <= TABLE && Going(y, z)
    ensures Probe(mem, root, base, z, y, x) == Fault ==> Search(mem, root, base, pages, x, y, z) == Crash
    ensures Probe(mem, root, base, z, y, x) == Null && FitsInside(mem, root, base, Linear(x, y, z), pages) ==>
      Search(mem, root, base, pages, x, y, z) == Found(x, y, z)
  {
    hide Taken, SelfMapped, IsIndex, Linear, Advance, Probe, Ahead;
    if Linear(x, y, z) + Need(pages) <= PAGES {
      AheadSees(mem, root, base, pages, x, y, z, 1);
    }
  }

  lemma LastOfTable(y: nat, z: nat, b: nat)
    requires Linear(TABLE, y, z) == b + 1 < PAGES
    ensures z < TABLE && b == Linear(511, y, z)
  {
  }
}
