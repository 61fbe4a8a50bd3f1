// When alloc_vm is first fit. lib/kernel/memory/pagination/PageTable.cpp:70-96
module FirstFit {
  import opened AllocVm
  import opened Options
  import opened PageEntry
  import opened PageTable
  import opened PageWalk
  import opened Words

  const PAGES := 0x800_0000        // pages under one L4 entry: 512 * 512 * 512

  // ---------- Pages under one L4 entry ----------

  /** The indices of the p-th page under L4 entry `base`. */
  function PathAt(base: bv64, p: nat): (path: seq<bv64>)
    ensures |path| == 4 && path[0] == base
  {
    [base, Word(p / DIRECTORY), Word(p / TABLE % TABLE), Word(p % TABLE)]
  }

  /** Its address. */
  function AddressAt(base: bv64, p: nat): bv64
  {
    AddressOf(base, p / DIRECTORY, p / TABLE % TABLE, p % TABLE)
  }

  ghost predicate Taken(mem: Mem, root: bv64, base: bv64, p: nat)
  {
    Walk(mem, root, PathAt(base, p)) != None
  }

  /** A request for 0 pages still looks at one. */
  function Need(pages: nat): nat
  {
    if pages == 0 then 1 else pages
  }

  ghost predicate Fits(mem: Mem, root: bv64, base: bv64, p: nat, pages: nat)
  {
    forall k :: p <= k < p + Need(pages) ==> !Taken(mem, root, base, k)
  }

  /** No place below f fits, and all of those lie inside the L4 entry. */
  ghost predicate NoneBelow(mem: Mem, root: bv64, base: bv64, f: nat, pages: nat)
  {
    f + Need(pages) <= PAGES + 1 && forall s :: 0 <= s < f ==> !Fits(mem, root, base, s, pages)
  }

  ghost predicate FitsInside(mem: Mem, root: bv64, base: bv64, p: nat, pages: nat)
  {
    p + Need(pages) <= PAGES && Fits(mem, root, base, p, pages)
  }

  /** f is the lowest place with room for the request, and lies inside the L4 entry. */
  ghost predicate IsFirstFit(mem: Mem, root: bv64, base: bv64, f: nat, pages: nat)
  {
    NoneBelow(mem, root, base, f, pages) && FitsInside(mem, root, base, f, pages)
  }

  // ---------- Positions ----------

  /** The index arithmetic of the inner loop, carries complete. */
  lemma OffsetParts(x: nat, y: nat, z: nat, i: nat)
    ensures var p := Linear(x, y, z) + i;
      && p % TABLE == (x + i) % TABLE && p / TABLE % TABLE == (y + (x + i) / TABLE) % TABLE
      && p / DIRECTORY == z + (y + (x + i) / TABLE) / TABLE
  {
    var p := Linear(x, y, z) + i;
    var a, b := (x + i) % TABLE, y + (x + i) / TABLE;
    assert p == a + TABLE * (b + TABLE * z);
    LowPart(a, b + TABLE * z);
    LowPart(b % TABLE, z + b / TABLE);
    assert p / DIRECTORY == p / TABLE / TABLE;
  }

  lemma LowPart(a: nat, b: nat)
    requires a < TABLE
    ensures (a + TABLE * b) % TABLE == a && (a + TABLE * b) / TABLE == b
  {
  }

  lemma Parts(x: nat, y: nat, z: nat)
    requires x < TABLE && y < TABLE
    ensures var p := Linear(x, y, z); p % TABLE == x && p / TABLE % TABLE == y && p / DIRECTORY == z
  {
    OffsetParts(x, y, z, 0);
  }

  lemma PartsOf(p: nat)
    ensures p == Linear(p % TABLE, p / TABLE % TABLE, p / DIRECTORY)
  {
  }

  /** What a probe with carried indices says about page p. */
  function ProbePage(mem: Mem, root: bv64, base: bv64, p: nat): Looked
  {
    Probe(mem, root, base, p / DIRECTORY, p / TABLE % TABLE, p % TABLE)
  }

  /** Inside the L4 entry it says what there is, and never faults. */
  lemma ProbePageIs(mem: Mem, root: bv64, base: bv64, p: nat)
    requires SelfMapped(mem, root) && IsIndex(base) && p < PAGES
    ensures !ProbePage(mem, root, base, p).Fault?
    ensures ProbePage(mem, root, base, p) == Null <==> !Taken(mem, root, base, p)
  {
    var path := PathAt(base, p);
    WordIsIndex(p / DIRECTORY);
    WordIsIndex(p / TABLE % TABLE);
    WordIsIndex(p % TABLE);
    hide IsIndex, SelfMapped, Walk, Word, Lookup;
    assert Indices(path);
    LookupIs(mem, root, path, 0);
    assert path[..4] == path;
  }

  /** The inner loop stops at the first page behind p for which the probe is not NULL. */
  lemma {:induction false} AheadIs(mem: Mem, root: bv64, base: bv64, pages: nat, x: nat, y: nat, z: nat, i: nat)
    ensures var p := Linear(x, y, z);
      match Ahead(mem, root, base, pages, x, y, z, i)
      case Room => forall k :: p + i <= k < p + pages ==> ProbePage(mem, root, base, k) == Null
      case Blocked(j) =>
        && i < j <= pages && ProbePage(mem, root, base, p + j - 1).Entry?
        && forall k :: p + i <= k < p + j - 1 ==> ProbePage(mem, root, base, k) == Null
      case Faulted => exists k :: p + i <= k < p + pages && ProbePage(mem, root, base, k) == Fault
    decreases pages - i
  {
    hide Probe, Linear;
    if i < pages {
      OffsetParts(x, y, z, i);
      assert ProbePage(mem, root, base, Linear(x, y, z) + i) ==
        Probe(mem, root, base, z + (y + (x + i) / TABLE) / TABLE, (y + (x + i) / TABLE) % TABLE, (x + i) % TABLE);
      AheadIs(mem, root, base, pages, x, y, z, i + 1);
    }
  }

  /** The same in terms of what is there, as long as the request stays inside the L4 entry. */
  lemma AheadSees(mem: Mem, root: bv64, base: bv64, pages: nat, x: nat, y: nat, z: nat, i: nat)
    requires SelfMapped(mem, root) && IsIndex(base) && Linear(x, y, z) + pages <= PAGES
    ensures var p := Linear(x, y, z);
      match Ahead(mem, root, base, pages, x, y, z, i)
      case Room => forall k :: p + i <= k < p + pages ==> !Taken(mem, root, base, k)
      case Blocked(j) =>
        && i < j <= pages && Taken(mem, root, base, p + j - 1)
        && forall k :: p + i <= k < p + j - 1 ==> !Taken(mem, root, base, k)
      case Faulted => false
  {
    hide ProbePage, Linear, Taken, SelfMapped, IsIndex, Ahead;
    AheadIs(mem, root, base, pages, x, y, z, i);
    forall k | 0 <= k < PAGES
      ensures !ProbePage(mem, root, base, k).Fault?
      ensures ProbePage(mem, root, base, k) == Null <==> !Taken(mem, root, base, k)
    {
      ProbePageIs(mem, root, base, k);
    }
  }

  /** A round that starts with indices in range sees what is there. */
  lemma RoundSees(mem: Mem, root: bv64, base: bv64, pages: nat, x: nat, y: nat, z: nat)
    requires SelfMapped(mem, root) && IsIndex(base) && Linear(x, y, z) + Need(pages) <= PAGES
    requires x < TABLE && y < TABLE
    ensures var p := Linear(x, y, z);
      match Round(mem, root, base, pages, x, y, z)
      case Room => Fits(mem, root, base, p, pages)
      case Blocked(j) =>
        && j <= Need(pages) && Taken(mem, root, base, p + j - 1)
        && forall k :: p <= k < p + j - 1 ==> !Taken(mem, root, base, k)
      case Faulted => false
  {
    hide Linear, Taken, SelfMapped, IsIndex, Ahead, Probe;
    Parts(x, y, z);
    assert ProbePage(mem, root, base, Linear(x, y, z)) == Probe(mem, root, base, z, y, x);
    ProbePageIs(mem, root, base, Linear(x, y, z));
    AheadSees(mem, root, base, pages, x, y, z, 1);
  }

  // ---------- Skips ----------

  /** The search goes on behind b if it has looked from s and b is the first page taken. */
  ghost predicate Skips(mem: Mem, root: bv64, base: bv64, s: nat, b: nat)
  {
    && s <= b && (s == 0 || Taken(mem, root, base, s - 1)) && Taken(mem, root, base, b)
    && forall k :: s <= k < b ==> !Taken(mem, root, base, k)
  }

  /** Going on at t from s leaves an index at exactly 512: the code carries only above 512. */
  predicate Bare(s: nat, t: nat)
  {
    || (t % TABLE == 0 && t / TABLE == s / TABLE + 1)
    || (t / TABLE % TABLE == 0 && t / DIRECTORY == s / DIRECTORY + 1)
  }

  /** No skip over a page in [from, to) leaves an index at 512. */
  ghost predicate NoBareSkip(mem: Mem, root: bv64, base: bv64, from: nat, to: nat)
  {
    forall s, b :: from <= s <= b < to && Skips(mem, root, base, s, b) ==> !Bare(s, b + 1)
  }

  /** The carries leave the indices in range exactly when the skip is not a bare one. */
  lemma AdvanceExactly(x: nat, y: nat, z: nat, i: nat)
    requires x < TABLE && y < TABLE
    ensures var (x', y', z') := Advance(x, y, z, i); var p := Linear(x, y, z);
      x' < TABLE && y' < TABLE <==> !Bare(p, p + i)
  {
    hide Linear, Bare;
    BareIs(x, y, z, i);
  }

  /** A skip is bare if x, or y after its carry, comes to exactly 512. */
  lemma BareIs(x: nat, y: nat, z: nat, i: nat)
    requires x < TABLE && y < TABLE
    ensures var p := Linear(x, y, z); Bare(p, p + i) <==> x + i == TABLE || y + (x + i) / TABLE == TABLE
  {
    var p, b := Linear(x, y, z), y + (x + i) / TABLE;
    OffsetParts(x, y, z, 0);
    OffsetParts(x, y, z, i);
    TableOf(p);
    TableOf(p + i);
    hide Linear;
    assert (p + i) / TABLE == b + TABLE * z && p / TABLE == y + TABLE * z;
  }

  lemma TableOf(n: nat)
    ensures n / TABLE == n / TABLE % TABLE + TABLE * (n / DIRECTORY)
  {
  }

  // ---------- As long as no skip is bare ----------

  /** A round at p, below a place that is not the last to be looked at, goes on behind the first page taken. */
  lemma RoundSkips(mem: Mem, root: bv64, base: bv64, pages: nat, x: nat, y: nat, z: nat, s: nat)
    requires SelfMapped(mem, root) && IsIndex(base) && NoneBelow(mem, root, base, s, pages)
    requires x < TABLE && y < TABLE && Linear(x, y, z) < s
    requires Linear(x, y, z) == 0 || Taken(mem, root, base, Linear(x, y, z) - 1)
    ensures var p, r := Linear(x, y, z), Round(mem, root, base, pages, x, y, z);
      && r.Blocked? && Going(y, z) && Skips(mem, root, base, p, p + r.i - 1)
      && (s == 0 || Taken(mem, root, base, s - 1) ==> p + r.i <= s)
  {
    hide Taken, SelfMapped, IsIndex, Round;
    RoundSees(mem, root, base, pages, x, y, z);
    Parts(x, y, z);
  }

  lemma Zero()
    ensures Linear(0, 0, 0) == 0
  {
  }

  /** The page before the first fit is taken, else it would fit there already. */
  lemma BehindTaken(mem: Mem, root: bv64, base: bv64, pages: nat, f: nat)
    requires IsFirstFit(mem, root, base, f, pages)
    ensures f == 0 || Taken(mem, root, base, f - 1)
  {
    hide Taken;
    assert f > 0 ==> !Fits(mem, root, base, f - 1, pages);
  }

  /** From (x, y, z) on, no index is at 512 at the head of the loop. */
  ghost predicate InRange(mem: Mem, root: bv64, base: bv64, pages: nat, x: nat, y: nat, z: nat)
    requires x <= TABLE && y <= TABLE
    decreases Linear(TABLE, TABLE, TABLE) - Linear(x, y, z)
  {
    x < TABLE && y < TABLE &&
    if Going(y, z) && Round(mem, root, base, pages, x, y, z).Blocked? then
      var i := Round(mem, root, base, pages, x, y, z).i;
      AdvanceIs(x, y, z, i);
      var (x', y', z') := Advance(x, y, z, i);
      InRange(mem, root, base, pages, x', y', z')
    else true
  }

  lemma {:induction false} InRangeFrom(mem: Mem, root: bv64, base: bv64, pages: nat, x: nat, y: nat, z: nat, f: nat)
    requires SelfMapped(mem, root) && IsIndex(base) && IsFirstFit(mem, root, base, f, pages)
    requires x < TABLE && y < TABLE && Linear(x, y, z) <= f
    requires Linear(x, y, z) == 0 || Taken(mem, root, base, Linear(x, y, z) - 1)
    ensures InRange(mem, root, base, pages, x, y, z) <==> NoBareSkip(mem, root, base, Linear(x, y, z), f)
    decreases f - Linear(x, y, z)
  {
    hide Taken, SelfMapped, IsIndex, Round, Linear, Advance, Bare, Skips;
    var p := Linear(x, y, z);
    BehindTaken(mem, root, base, pages, f);
    if p < f {
      RoundSkips(mem, root, base, pages, x, y, z, f);
      var i := Round(mem, root, base, pages, x, y, z).i;
      AdvanceIs(x, y, z, i);
      AdvanceExactly(x, y, z, i);
      OneSkip(mem, root, base, p, p + i - 1, f);
      var (x', y', z') := Advance(x, y, z, i);
      if !Bare(p, p + i) {
        InRangeFrom(mem, root, base, pages, x', y', z', f);
      }
    } else {
      RoundSees(mem, root, base, pages, x, y, z);
    }
  }

  /** From s on the search skips over b and then looks from b + 1 on. */
  lemma OneSkip(mem: Mem, root: bv64, base: bv64, s: nat, b: nat, f: nat)
    requires Skips(mem, root, base, s, b) && b < f
    ensures Taken(mem, root, base, b)
    ensures NoBareSkip(mem, root, base, s, f) <==> !Bare(s, b + 1) && NoBareSkip(mem, root, base, b + 1, f)
  {
    hide Taken, Bare;
    if !Bare(s, b + 1) && NoBareSkip(mem, root, base, b + 1, f) {
      forall s', b' | s <= s' <= b' < f && Skips(mem, root, base, s', b') ensures !Bare(s', b' + 1) {
        if s' == s {
          assert b' == b;
        }
      }
    }
  }

  /** The indices stay in range along the whole search exactly if no skip on the way to the first fit is bare. */
  lemma InRangeExactly(mem: Mem, root: bv64, base: bv64, pages: nat, f: nat)
    requires SelfMapped(mem, root) && IsIndex(base) && IsFirstFit(mem, root, base, f, pages)
    ensures InRange(mem, root, base, pages, 0, 0, 0) <==> NoBareSkip(mem, root, base, 0, f)
  {
    hide InRange, IsFirstFit, NoBareSkip, Taken;
    Zero();
    InRangeFrom(mem, root, base, pages, 0, 0, 0, f);
  }

  // ---------- Exactly when the first fit is returned ----------

  /** The search stopped at f and formed the address of that page. */
  predicate Returns(r: Outcome, base: bv64, f: nat)
  {
    r.Found? && Linear(r.x, r.y, r.z) == f && AddressOf(base, r.z, r.y, r.x) == AddressAt(base, f)
  }

  /** What the first probe of a round, the only one with indices not carried, must say: before the first fit it
      does not fault, and if it says the page is free some page behind it blocks the request; at the first fit
      it says the page is free, and the indices form its address. */
  ghost predicate Harmless(mem: Mem, root: bv64, base: bv64, pages: nat, x: nat, y: nat, z: nat, f: nat)
  {
    var p, seen := Linear(x, y, z), Probe(mem, root, base, z, y, x);
    if p < f then seen != Fault && (seen == Null ==> exists k :: p < k < p + pages && Taken(mem, root, base, k))
    else seen == Null && AddressOf(base, z, y, x) == AddressAt(base, f)
  }

  /** All rounds from (x, y, z) up to the first fit. */
  ghost predicate AllHarmless(mem: Mem, root: bv64, base: bv64, pages: nat, x: nat, y: nat, z: nat, f: nat)
    requires x <= TABLE && y <= TABLE
    decreases f - Linear(x, y, z)
  {
    Harmless(mem, root, base, pages, x, y, z, f) &&
    if Linear(x, y, z) < f && Round(mem, root, base, pages, x, y, z).Blocked? then
      var i := Round(mem, root, base, pages, x, y, z).i;
      AdvanceIs(x, y, z, i);
      var (x', y', z') := Advance(x, y, z, i);
      AllHarmless(mem, root, base, pages, x', y', z', f)
    else true
  }

  lemma {:induction false} SearchGoesOn(mem: Mem, root: bv64, base: bv64, pages: nat, x: nat, y: nat, z: nat)
    requires x <= TABLE && y <= TABLE
    ensures var r := Search(mem, root, base, pages, x, y, z); r.Found? ==> Linear(x, y, z) <= Linear(r.x, r.y, r.z)
    decreases Linear(TABLE, TABLE, TABLE) - Linear(x, y, z)
  {
    hide Round, Advance;
    if Going(y, z) && Round(mem, root, base, pages, x, y, z).Blocked? {
      var i := Round(mem, root, base, pages, x, y, z).i;
      AdvanceIs(x, y, z, i);
      var (x', y', z') := Advance(x, y, z, i);
      SearchGoesOn(mem, root, base, pages, x', y', z');
    }
  }

  lemma StillGoing(x: nat, y: nat, z: nat)
    requires x <= TABLE && y <= TABLE && Linear(x, y, z) < PAGES
    ensures Going(y, z)
  {
  }

  /** A round before the first fit: harmless ones go on, and not beyond it; others end the search in a fault
      or in front of it. */
  lemma RoundBefore(mem: Mem, root: bv64, base: bv64, pages: nat, x: nat, y: nat, z: nat, f: nat)
    requires SelfMapped(mem, root) && IsIndex(base) && IsFirstFit(mem, root, base, f, pages)
    requires Linear(x, y, z) < f
    ensures var p, r := Linear(x, y, z), Round(mem, root, base, pages, x, y, z);
      && (Harmless(mem, root, base, pages, x, y, z, f) <==> r.Blocked?)
      && (r.Blocked? ==> p + r.i <= f)
  {
    hide Linear, Taken, SelfMapped, IsIndex, Ahead, Probe, AddressOf, AddressAt, NoneBelow;
    AheadSees(mem, root, base, pages, x, y, z, 1);
  }

  /** A round at the first fit: a harmless one stops the search there. */
  lemma RoundAt(mem: Mem, root: bv64, base: bv64, pages: nat, x: nat, y: nat, z: nat, f: nat)
    requires SelfMapped(mem, root) && IsIndex(base) && IsFirstFit(mem, root, base, f, pages)
    requires Linear(x, y, z) == f && x <= TABLE && y <= TABLE
    ensures Harmless(mem, root, base, pages, x, y, z, f) <==> Returns(Search(mem, root, base, pages, x, y, z), base, f)
  {
    hide Linear, Taken, SelfMapped, IsIndex, Ahead, Probe, AddressOf, AddressAt, NoneBelow, Advance;
    StillGoing(x, y, z);
    AheadSees(mem, root, base, pages, x, y, z, 1);
    var r := Round(mem, root, base, pages, x, y, z);
    if r.Blocked? {
      AdvanceIs(x, y, z, r.i);
      var (x', y', z') := Advance(x, y, z, r.i);
      SearchGoesOn(mem, root, base, pages, x', y', z');
    }
  }

  lemma {:induction false} ReturnsFrom(mem: Mem, root: bv64, base: bv64, pages: nat, x: nat, y: nat, z: nat, f: nat)
    requires SelfMapped(mem, root) && IsIndex(base) && IsFirstFit(mem, root, base, f, pages)
    requires x <= TABLE && y <= TABLE && Linear(x, y, z) <= f
    ensures Returns(Search(mem, root, base, pages, x, y, z), base, f) <==>
      AllHarmless(mem, root, base, pages, x, y, z, f)
    decreases f - Linear(x, y, z)
  {
    hide Linear, Taken, SelfMapped, IsIndex, Round, AddressOf, AddressAt, Advance, Harmless, NoneBelow, Fits;
    if Linear(x, y, z) < f {
      RoundBefore(mem, root, base, pages, x, y, z, f);
      StillGoing(x, y, z);
      var r := Round(mem, root, base, pages, x, y, z);
      if r.Blocked? {
        AdvanceIs(x, y, z, r.i);
        var (x', y', z') := Advance(x, y, z, r.i);
        ReturnsFrom(mem, root, base, pages, x', y', z', f);
      }
    } else {
      RoundAt(mem, root, base, pages, x, y, z, f);
    }
  }

  /** A round that starts with indices in range is always harmless. */
  lemma InRangeIsHarmless(mem: Mem, root: bv64, base: bv64, pages: nat, x: nat, y: nat, z: nat, f: nat)
    requires SelfMapped(mem, root) && IsIndex(base) && IsFirstFit(mem, root, base, f, pages)
    requires x < TABLE && y < TABLE && Linear(x, y, z) <= f
    ensures Harmless(mem, root, base, pages, x, y, z, f)
  {
    hide Linear, Taken, SelfMapped, IsIndex, Probe, AddressOf;
    var p := Linear(x, y, z);
    Parts(x, y, z);
    assert ProbePage(mem, root, base, p) == Probe(mem, root, base, z, y, x);
    ProbePageIs(mem, root, base, p);
    assert p < f ==> !Fits(mem, root, base, p, pages);
  }

  /** alloc_vm returns the first fit exactly if every round on the way is harmless. */
  lemma FirstFitExactly(mem: Mem, root: bv64, base: bv64, pages: nat, f: nat)
    requires SelfMapped(mem, root) && IsIndex(base) && IsFirstFit(mem, root, base, f, pages)
    ensures Returns(Search(mem, root, base, pages, 0, 0, 0), base, f) <==>
      AllHarmless(mem, root, base, pages, 0, 0, 0, f)
  {
    hide IsFirstFit, Returns, AllHarmless, SelfMapped;
    Zero();
    ReturnsFrom(mem, root, base, pages, 0, 0, 0, f);
  }
}
