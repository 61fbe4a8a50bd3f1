// Where alloc_vm fails: behind a full page table, and at the end of its L4 entry.
// lib/kernel/memory/pagination/PageTable.cpp:70-96
module AllocLimits {
  import opened AllocVm
  import opened BareCarry
  import opened FirstFit
  import opened Options
  import opened PageEntry
  import opened PageScan
  import opened PageTable
  import opened PageWalk
  import opened Words

  // ---------- A full page table ----------

  lemma NoneInFullTable(mem: Mem, root: bv64, base: bv64, pages: nat)
    requires pages < 0x1_0000 && forall p :: 0 <= p < TABLE ==> Taken(mem, root, base, p)
    ensures NoneBelow(mem, root, base, TABLE, pages)
  {
    hide Taken;
    forall p | 0 <= p < TABLE ensures !Fits(mem, root, base, p, pages) {
      assert Taken(mem, root, base, p);
    }
  }

  /** Once the first page table is full and there is no second one, every request ends in a page fault. */
  lemma FullTableCrashes(mem: Mem, root: bv64, base: bv64, pages: nat)
    requires SelfMapped(mem, root) && IsIndex(base) && FullBelow(mem, root, base, TABLE)
    requires !TableThere(mem, root, base, TABLE)
    ensures Search(mem, root, base, pages, 0, 0, 0) == Crash
  {
    hide Taken, SelfMapped, IsIndex, TableThere, Search, View, Read;
    var h := Filled(TABLE);
    FilledUpTo(mem, root, base, pages, TABLE);
    assert Taken(mem, root, base, h.page - 1);
    ThereBefore(mem, root, base, h.page - 1);
    ViewOfLeft(mem, root, base, h);
    ReadIs(mem, root, base, h.page);
    FaultCrashes(mem, root, base, pages, h);
  }

  /** A memory like that: the root at 0x1000 maps itself, and under L4 entry 509, the kernel's, there is one page
      table with all its entries present. */
  function FullTable(): Mem
  {
    (s: Slot) =>
      if s == Slot(0x1000, 510) then 0x1003
      else if s == Slot(0x1000, 509) then 0x2003
      else if s == Slot(0x2000, 0) then 0x3003
      else if s == Slot(0x3000, 0) then 0x4003
      else if s.frame == 0x4000 then 0x5003
      else 0
  }

  /** There page 512 is free, and so are all behind it, yet a request for one page faults. */
  lemma OnePageCrashes()
    ensures SelfMapped(FullTable(), 0x1000) && IsFirstFit(FullTable(), 0x1000, 509, TABLE, 1)
    ensures Search(FullTable(), 0x1000, 509, 1, 0, 0, 0) == Crash
  {
    var mem := FullTable();
    FullTableEntries();
    FullTableIs();
    hide FullTable, Taken, Walk, Word, IsPresent, FrameOf, PathAt, Search;
    NoneInFullTable(mem, 0x1000, 509, 1);
    FullTableCrashes(mem, 0x1000, 509, 1);
  }

  lemma FullTableEntries()
    ensures SelfMapped(FullTable(), 0x1000) && IsIndex(509)
  {
  }

  lemma FullTableIs()
    ensures forall p :: 0 <= p < TABLE ==> Taken(FullTable(), 0x1000, 509, p)
    ensures !Taken(FullTable(), 0x1000, 509, TABLE)
    ensures Walk(FullTable(), 0x1000, PathAt(509, TABLE)[..3]) == None
  {
    WordZero();
    hide Word;
    forall p | 0 <= p < TABLE ensures Taken(FullTable(), 0x1000, 509, p) {
      assert PathAt(509, p) == [509, 0, 0, Word(p % TABLE)];
      FullTableWalk(Word(p % TABLE));
    }
    assert PathAt(509, TABLE) == [509, 0, 1, 0];
    assert PathAt(509, TABLE)[..3] == [509, 0, 1];
    SecondTableMissing();
  }

  lemma FullTableWalk(x: bv64)
    ensures Walk(FullTable(), 0x1000, [509, 0, 0, x]) != None
  {
    assert [509, 0, 0, x][1..] == [0, 0, x] && [0, 0, x][1..] == [0, x] && [0, x][1..] == [x];
    assert Walk(FullTable(), 0x4000, [x]) == Some(0x5000);
    assert Walk(FullTable(), 0x2000, [0, 0, x]) == Walk(FullTable(), 0x3000, [0, x]) == Walk(FullTable(), 0x4000, [x]);
  }

  lemma SecondTableMissing()
    ensures Walk(FullTable(), 0x1000, [509, 0, 1]) == None && Walk(FullTable(), 0x1000, [509, 0, 1, 0]) == None
  {
  }

  // ---------- The end of the L4 entry ----------

  /** `base` is the kernel's L4 entry (lib/kernel/memory/liballoc/liballoc_interface.cpp:25), and entry 0 has been
      taken away in the hand-over. */
  ghost predicate KernelEntry(mem: Mem, root: bv64, base: bv64)
  {
    SelfMapped(mem, root) && base == 509 && !IsPresent(mem(Slot(root, 0)))
  }

  /** Behind L4 entry 509 comes 510, the recursive one, where the lookup finds the root's entry 0: not there
      since the hand-over, so that every page seems free. */
  lemma PastEnd(mem: Mem, root: bv64, base: bv64, p: nat)
    requires KernelEntry(mem, root, base) && PAGES <= p < PAGES + DIRECTORY
    ensures ProbePage(mem, root, base, p) == Null
  {
    assert p / DIRECTORY == TABLE;
    Word512();
    PastEndLookup(mem, root, Word(p / TABLE % TABLE), Word(p % TABLE));
  }

  lemma PastEndLookup(mem: Mem, root: bv64, y: bv64, x: bv64)
    requires KernelEntry(mem, root, 509)
    ensures Lookup(mem, root, [509, 512, y, x], 3, 0) == Null
  {
    FixedIndices();
    hide IsPresent, FrameOf, SelfMapped, EntryVa, IsIndex, Follows, Deref;
    var path, next: seq<bv64> := [509, 512, y, x], [SELF, 0, 0, 0];
    var low := [509, 0, 0, 0];
    SpillsOver(SELF, SELF, 509, SELF);
    assert EntryAddressOf(path, 3) == EntryAddressOf(low, 3) && EntryAddressOf(path, 2) == EntryAddressOf(next, 2);
    RecursiveMapping(mem, root, low, 3);
    RecursiveMapping(mem, root, next, 2);
    WalkNothing(mem, root);
    assert low[..0] == [] && next[..1] == [SELF] == Selves(1) + [];
    WalkSelves(mem, root, 1, []);
  }

  lemma FixedIndices()
    ensures Indices([509, 0, 0, 0]) && Indices([SELF, 0, 0, 0])
    ensures IsIndex(SELF) && IsIndex(509) && Follows(509, SELF)
  {
  }

  /** A probe up to the end, and a little beyond, sees what there is in the entry, and nothing behind it. */
  lemma NearEnd(mem: Mem, root: bv64, base: bv64, k: nat)
    requires KernelEntry(mem, root, base) && k < PAGES + DIRECTORY
    ensures !ProbePage(mem, root, base, k).Fault?
    ensures ProbePage(mem, root, base, k) == Null <==> PAGES <= k || !Taken(mem, root, base, k)
  {
    FixedIndices();
    hide SelfMapped, IsPresent, IsIndex, Taken, ProbePage, Follows, Indices;
    if k < PAGES {
      ProbePageIs(mem, root, base, k);
    } else {
      PastEnd(mem, root, base, k);
    }
  }

  lemma AheadNearEnd(mem: Mem, root: bv64, base: bv64, pages: nat, x: nat, y: nat, z: nat)
    requires KernelEntry(mem, root, base) && pages < 0x1_0000
    requires Linear(x, y, z) <= PAGES
    ensures var p := Linear(x, y, z);
      match Ahead(mem, root, base, pages, x, y, z, 1)
      case Room => forall k :: p < k < p + pages && k < PAGES ==> !Taken(mem, root, base, k)
      case Blocked(j) =>
        && 1 < j <= pages && p + j - 1 < PAGES && Taken(mem, root, base, p + j - 1)
        && forall k :: p < k < p + j - 1 ==> !Taken(mem, root, base, k)
      case Faulted => false
  {
    hide ProbePage, KernelEntry, Taken, Linear, Ahead;
    AheadIs(mem, root, base, pages, x, y, z, 1);
    forall k | 0 <= k < PAGES + DIRECTORY
      ensures !ProbePage(mem, root, base, k).Fault?
      ensures ProbePage(mem, root, base, k) == Null <==> PAGES <= k || !Taken(mem, root, base, k)
    {
      NearEnd(mem, root, base, k);
    }
  }

  /** From p on a round stops at the first page taken, and if there is none in the entry finds room. */
  ghost predicate StopsNearEnd(mem: Mem, root: bv64, base: bv64, pages: nat, p: nat, seen: Seen)
  {
    match seen
    case Room => forall k :: p <= k < p + Need(pages) && k < PAGES ==> !Taken(mem, root, base, k)
    case Blocked(j) =>
      && 0 < j < 0x1_0000 && p + j - 1 < PAGES && Taken(mem, root, base, p + j - 1)
      && forall k :: p <= k < p + j - 1 ==> !Taken(mem, root, base, k)
    case Faulted => false
  }

  lemma RoundNearEnd(mem: Mem, root: bv64, base: bv64, pages: nat, x: nat, y: nat, z: nat)
    requires KernelEntry(mem, root, base) && pages < 0x1_0000
    requires x < TABLE && y < TABLE && Linear(x, y, z) <= PAGES
    ensures StopsNearEnd(mem, root, base, pages, Linear(x, y, z), Round(mem, root, base, pages, x, y, z))
  {
    hide KernelEntry, Taken, Linear, Ahead, Probe, Walk;
    Parts(x, y, z);
    assert Probe(mem, root, base, z, y, x) == ProbePage(mem, root, base, Linear(x, y, z));
    hide ProbePage;
    NearEnd(mem, root, base, Linear(x, y, z));
    AheadNearEnd(mem, root, base, pages, x, y, z);
  }

  // ---------- NULL is never returned ----------

  lemma RecursiveFirst(mem: Mem, root: bv64)
    requires KernelEntry(mem, root, 509)
    ensures Walk(mem, root, [SELF, 0]) == None && Walk(mem, root, PathAt(SELF, 0)[..3]) == None
  {
    hide IsPresent, FrameOf;
    WordZero();
    assert PathAt(SELF, 0)[..3] == [SELF, 0, 0];
    assert [SELF, 0][1..] == [0] && [SELF, 0, 0][1..] == [0, 0];
  }

  /** x at 512 behind the last table: a fault, unless that table is missing. */
  lemma {:induction false} LastX512(mem: Mem, root: bv64)
    requires KernelEntry(mem, root, 509)
    ensures Probe(mem, root, 509, 511, 511, TABLE) ==
      if Walk(mem, root, [509, Word(511), Word(511)]) == None then Null else Fault
  {
    FixedIndices();
    hide Walk, Word, KernelEntry, Probe, IsIndex, Follows, PathAt;
    assert SelfMapped(mem, root) by { KernelSelf(mem, root); }
    RecursiveFirst(mem, root);
    ProbeX512(mem, root, 509, SELF, 511, 511);
  }

  /** y at 512 behind the last directory: a fault, unless that directory is missing. */
  lemma {:induction false} LastY512(mem: Mem, root: bv64)
    requires KernelEntry(mem, root, 509)
    ensures Probe(mem, root, 509, 511, TABLE, 0) ==
      if Walk(mem, root, [509, Word(511)]) == None then Null else Fault
  {
    FixedIndices();
    WordZero();
    hide Walk, Word, KernelEntry, Probe, IsIndex, Follows, PathAt, Read;
    assert SelfMapped(mem, root) by { KernelSelf(mem, root); }
    RecursiveFirst(mem, root);
    ProbeY512(mem, root, 509, SELF, 0, 511);
  }

  lemma KernelSelf(mem: Mem, root: bv64)
    requires KernelEntry(mem, root, 509)
    ensures SelfMapped(mem, root)
  {
  }

  lemma EndCases(x: nat, y: nat, z: nat)
    requires x <= TABLE && y <= TABLE && Linear(x, y, z) == PAGES
    ensures Going(y, z)
    ensures (x, y, z) == (0, 0, 512) || (x, y, z) == (TABLE, 511, 511) || (x, y, z) == (0, TABLE, 511)
  {
  }

  /** Behind its last page no probe finds an entry. */
  lemma NothingAtEnd(mem: Mem, root: bv64, x: nat, y: nat, z: nat)
    requires KernelEntry(mem, root, 509) && x <= TABLE && y <= TABLE && Linear(x, y, z) == PAGES
    ensures Going(y, z) && !Probe(mem, root, 509, z, y, x).Entry?
  {
    hide Walk, Word, KernelEntry, Probe, Linear;
    EndCases(x, y, z);
    if z == TABLE {
      assert ProbePage(mem, root, 509, PAGES) == Probe(mem, root, 509, 512, 0, 0);
      PastEnd(mem, root, 509, PAGES);
    } else if x == TABLE {
      LastX512(mem, root);
    } else {
      LastY512(mem, root);
    }
  }

  lemma RoundBlockedInside(mem: Mem, root: bv64, pages: nat, x: nat, y: nat, z: nat)
    requires KernelEntry(mem, root, 509) && pages < 0x1_0000 && x <= TABLE && y <= TABLE
    requires Linear(x, y, z) <= PAGES
    ensures var r := Round(mem, root, 509, pages, x, y, z);
      Going(y, z) && (r.Blocked? ==> Linear(x, y, z) + r.i <= PAGES)
  {
    hide KernelEntry, Probe, Ahead, Linear, Taken, Going;
    AheadNearEnd(mem, root, 509, pages, x, y, z);
    if Linear(x, y, z) < PAGES {
      StillGoing(x, y, z);
    } else {
      NothingAtEnd(mem, root, x, y, z);
    }
  }

  lemma {:induction false} NeverNullFrom(mem: Mem, root: bv64, pages: nat, x: nat, y: nat, z: nat)
    requires KernelEntry(mem, root, 509) && pages < 0x1_0000
    requires x <= TABLE && y <= TABLE && Linear(x, y, z) <= PAGES
    ensures !Search(mem, root, 509, pages, x, y, z).NoRoom?
    decreases PAGES - Linear(x, y, z)
  {
    hide KernelEntry, Round, Linear, Advance, Going;
    RoundBlockedInside(mem, root, pages, x, y, z);
    var r := Round(mem, root, 509, pages, x, y, z);
    if r.Blocked? {
      AdvanceIs(x, y, z, r.i);
      var (x', y', z') := Advance(x, y, z, r.i);
      NeverNullFrom(mem, root, pages, x', y', z');
    }
  }

  /** For the kernel's L4 entry the search never ends in NULL, however full the entry is: it ends in a page fault or
      with an address. */
  lemma NeverNull(mem: Mem, root: bv64, pages: nat)
    requires KernelEntry(mem, root, 509) && pages < 0x1_0000
    ensures !Search(mem, root, 509, pages, 0, 0, 0).NoRoom?
  {
    hide KernelEntry, Search;
    Zero();
    NeverNullFrom(mem, root, pages, 0, 0, 0);
  }

  lemma {:induction false} FilledEnd()
    ensures Raw(Filled(PAGES)) == (TABLE, 511, 511) && Going(511, 511) && PAGES - 1 == Linear(511, 511, 511)
  {
  }

  /** If the kernel's L4 entry is full, every request faults. */
  lemma FullEntryCrashes(mem: Mem, root: bv64, pages: nat)
    requires KernelEntry(mem, root, 509) && FullBelow(mem, root, 509, PAGES)
    ensures Search(mem, root, 509, pages, 0, 0, 0) == Crash
  {
    FixedIndices();
    hide KernelEntry, IsIndex, Walk, Word, Search, Probe, Raw, PathAt, Going, Linear;
    assert SelfMapped(mem, root) by { KernelSelf(mem, root); }
    FilledUpTo(mem, root, 509, pages, PAGES);
    FilledEnd();
    assert Taken(mem, root, 509, PAGES - 1);
    ThereBefore(mem, root, 509, PAGES - 1);
    PathOfParts(509, 511, 511, 511);
    assert PathAt(509, PAGES - 1)[..3] == [509, Word(511), Word(511)];
    LastX512(mem, root);
    RoomBehind(mem, root, 509, pages, TABLE, 511, 511);
  }

  // ---------- A range that runs over the end ----------

  /** The search found the free pages at the end of the entry, too few for the request. */
  ghost predicate RunsOver(mem: Mem, root: bv64, base: bv64, pages: nat, r: Outcome)
  {
    && r.Found? && Linear(r.x, r.y, r.z) < PAGES < Linear(r.x, r.y, r.z) + Need(pages)
    && forall k :: Linear(r.x, r.y, r.z) <= k < PAGES ==> !Taken(mem, root, base, k)
  }

  /** The request fits nowhere in the entry. */
  ghost predicate FitsNowhere(mem: Mem, root: bv64, base: bv64, pages: nat)
  {
    forall s :: 0 <= s <= PAGES - Need(pages) ==> !Fits(mem, root, base, s, pages)
  }

  lemma RoomOnlyAtEnd(mem: Mem, root: bv64, base: bv64, pages: nat, x: nat, y: nat, z: nat)
    requires FitsNowhere(mem, root, base, pages) && Linear(x, y, z) < PAGES
    requires StopsNearEnd(mem, root, base, pages, Linear(x, y, z), Room)
    ensures RunsOver(mem, root, base, pages, Found(x, y, z))
  {
    hide Taken, Linear;
    assert Linear(x, y, z) + Need(pages) <= PAGES ==> !Fits(mem, root, base, Linear(x, y, z), pages);
  }

  lemma SkipNearEnd(mem: Mem, root: bv64, base: bv64, pages: nat, p: nat, j: nat)
    requires StopsNearEnd(mem, root, base, pages, p, Blocked(j)) && NoBareSkip(mem, root, base, p, PAGES)
    requires p == 0 || Taken(mem, root, base, p - 1)
    ensures 0 < j && p + j < PAGES && Taken(mem, root, base, p + j - 1)
    ensures !Bare(p, p + j) && NoBareSkip(mem, root, base, p + j, PAGES)
  {
    hide Taken, Bare;
    if p + j == PAGES {
      BareAtEnd(p, j);
    }
    OneSkip(mem, root, base, p, p + j - 1, PAGES);
  }

  lemma BareAtEnd(p: nat, j: nat)
    requires 0 < j < 0x1_0000 && p + j == PAGES
    ensures Bare(p, p + j)
  {
  }

  /** Heads of the loop with indices in range, at the beginning or behind a page taken, no bare skip ahead. */
  ghost predicate OnTheWay(mem: Mem, root: bv64, base: bv64, x: nat, y: nat, z: nat)
  {
    && x < TABLE && y < TABLE && Linear(x, y, z) < PAGES
    && (Linear(x, y, z) == 0 || Taken(mem, root, base, Linear(x, y, z) - 1))
    && NoBareSkip(mem, root, base, Linear(x, y, z), PAGES)
  }

  lemma GoesOn(mem: Mem, root: bv64, base: bv64, pages: nat, x: nat, y: nat, z: nat, i: nat)
    requires OnTheWay(mem, root, base, x, y, z)
    requires StopsNearEnd(mem, root, base, pages, Linear(x, y, z), Blocked(i))
    ensures var (x', y', z') := Advance(x, y, z, i);
      OnTheWay(mem, root, base, x', y', z') && Linear(x, y, z) < Linear(x', y', z')
  {
    hide Taken, Linear, Advance, Bare, NoBareSkip, StopsNearEnd;
    SkipNearEnd(mem, root, base, pages, Linear(x, y, z), i);
    AdvanceIs(x, y, z, i);
    AdvanceExactly(x, y, z, i);
  }

  lemma WayBounds(mem: Mem, root: bv64, base: bv64, x: nat, y: nat, z: nat)
    requires OnTheWay(mem, root, base, x, y, z)
    ensures x < TABLE && y < TABLE && Linear(x, y, z) < PAGES && Going(y, z)
  {
  }

  lemma {:induction false} RunsOverFrom(mem: Mem, root: bv64, base: bv64, pages: nat, x: nat, y: nat, z: nat)
    requires KernelEntry(mem, root, base) && pages < 0x1_0000 && FitsNowhere(mem, root, base, pages)
    requires OnTheWay(mem, root, base, x, y, z)
    ensures x <= TABLE && y <= TABLE
    ensures RunsOver(mem, root, base, pages, Search(mem, root, base, pages, x, y, z))
    decreases PAGES - Linear(x, y, z)
  {
    hide KernelEntry, Linear, Round, Going, Advance, RunsOver, FitsNowhere, StopsNearEnd, OnTheWay;
    WayBounds(mem, root, base, x, y, z);
    RoundNearEnd(mem, root, base, pages, x, y, z);
    match Round(mem, root, base, pages, x, y, z) {
      case Faulted =>
        NeverFaults(mem, root, base, pages, Linear(x, y, z));
      case Room =>
        RoomOnlyAtEnd(mem, root, base, pages, x, y, z);
      case Blocked(i) =>
        GoesOn(mem, root, base, pages, x, y, z, i);
        var (x', y', z') := Advance(x, y, z, i);
        WayBounds(mem, root, base, x', y', z');
        RunsOverFrom(mem, root, base, pages, x', y', z');
    }
  }

  lemma NeverFaults(mem: Mem, root: bv64, base: bv64, pages: nat, p: nat)
    ensures !StopsNearEnd(mem, root, base, pages, p, Faulted)
  {
  }

  /** The skip that comes to b, over free pages from `from` on. */
  lemma SkipTo(mem: Mem, root: bv64, base: bv64, from: nat, b: nat) returns (s: nat)
    requires from <= b && Taken(mem, root, base, b) && forall k :: from <= k < b ==> !Taken(mem, root, base, k)
    ensures s <= from && Skips(mem, root, base, s, b)
  {
    hide Taken;
    s := from;
    while s > 0 && !Taken(mem, root, base, s - 1)
      invariant s <= from && forall k :: s <= k < b ==> !Taken(mem, root, base, k)
    {
      s := s - 1;
    }
  }

  lemma BareAcross(s: nat, b: nat)
    requires s < DIRECTORY <= b + 1 < DIRECTORY + TABLE
    ensures Bare(s, b + 1)
  {
  }

  /** A request for up to a table that fits nowhere makes a skip into the second directory bare. */
  lemma SmallRequestsSkipBare(mem: Mem, root: bv64, base: bv64, pages: nat)
    requires pages <= TABLE && FitsNowhere(mem, root, base, pages)
    ensures !NoBareSkip(mem, root, base, 0, PAGES)
  {
    hide Taken, Bare;
    var d := DIRECTORY - 1;
    assert !Fits(mem, root, base, d, pages);
    var b := d;
    while !Taken(mem, root, base, b)
      invariant d <= b < d + Need(pages) && forall k :: d <= k < b ==> !Taken(mem, root, base, k)
      decreases d + Need(pages) - b
    {
      b := b + 1;
    }
    var s := SkipTo(mem, root, base, d, b);
    BareAcross(s, b);
  }

  /** A request for more than a table (for fewer pages see SmallRequestsSkipBare): if it fits nowhere in the kernel's
      L4 entry and no skip is bare, the answer is the free pages at its end, and the rest of the range lies beyond, in
      the recursive entry. */
  lemma RunsOverTheEnd(mem: Mem, root: bv64, base: bv64, pages: nat)
    requires KernelEntry(mem, root, base) && TABLE < pages < 0x1_0000
    requires FitsNowhere(mem, root, base, pages) && NoBareSkip(mem, root, base, 0, PAGES)
    ensures RunsOver(mem, root, base, pages, Search(mem, root, base, pages, 0, 0, 0))
  {
    hide KernelEntry, Taken, NoBareSkip, FitsNowhere, Search, RunsOver, Linear;
    Zero();
    RunsOverFrom(mem, root, base, pages, 0, 0, 0);
  }

  /** A memory like that: the root at 0x1000 maps itself, entry 0 of it is missing, and under L4 entry 509 every
      directory has an empty first page table, and in all others only the last page is free. */
  function Gaps(): Mem
  {
    (s: Slot) =>
      if s == Slot(0x1000, 510) then 0x1003
      else if s == Slot(0x1000, 509) then 0x2003
      else if s.frame == 0x2000 then 0x3003
      else if s == Slot(0x3000, 0) then 0x4003
      else if s.frame == 0x3000 then 0x5003
      else if s.frame == 0x5000 && s.index != 511 then 0x6003
      else 0
  }

  lemma GapsRoot()
    ensures KernelEntry(Gaps(), 0x1000, 509)
  {
  }

  lemma GapsWalk(z: bv64, y: bv64, x: bv64)
    ensures Walk(Gaps(), 0x1000, [509, z, y, x]) != None <==> y != 0 && x != 511
  {
    var mem := Gaps();
    GapsTable(y, x);
    assert [509, z, y, x][1..] == [z, y, x] && [z, y, x][1..] == [y, x];
    assert Walk(mem, 0x1000, [509, z, y, x]) == Walk(mem, 0x2000, [z, y, x]) == Walk(mem, 0x3000, [y, x]);
  }

  lemma GapsTable(y: bv64, x: bv64)
    ensures Walk(Gaps(), 0x3000, [y, x]) == if y == 0 || x == 511 then None else Some(0x6000)
  {
    var mem := Gaps();
    assert [y, x][1..] == [x];
    assert Walk(mem, 0x4000, [x]) == None && Walk(mem, 0x5000, [x]) == if x == 511 then None else Some(0x6000);
  }

  lemma {:induction false} GapsTaken(p: nat)
    ensures Taken(Gaps(), 0x1000, 509, p) <==> p / TABLE % TABLE != 0 && p % TABLE != 511
  {
    hide Gaps, Walk, Word;
    var y, x := p / TABLE % TABLE, p % TABLE;
    GapsWalk(Word(p / DIRECTORY), Word(y), Word(x));
    WordZero();
    Word512();
    if Word(y) == 0 {
      WordsDiffer(y, 0);
    }
    if Word(x) == 511 {
      WordsDiffer(x, 511);
    }
  }

  /** The first page taken from s on. */
  lemma GapEnds(s: nat)
    ensures exists k :: s <= k < s + 600 && k / TABLE % TABLE != 0 && k % TABLE != 511
  {
    var x, y, z := s % TABLE, s / TABLE % TABLE, s / DIRECTORY;
    PartsOf(s);
    if y == 0 {
      Parts(0, 1, z);
      assert Linear(0, 1, z) / TABLE % TABLE != 0;
    } else if x == 511 {
      OffsetParts(x, y, z, if y == 511 then 513 else 1);
      assert (s + if y == 511 then 513 else 1) / TABLE % TABLE != 0;
    } else {
      assert s / TABLE % TABLE != 0;
    }
  }

  lemma GapsNotBare(s: nat, b: nat)
    requires b / TABLE % TABLE != 0 && b % TABLE != 511
    ensures !Bare(s, b + 1)
  {
    PartsOf(b);
    OffsetParts(b % TABLE, b / TABLE % TABLE, b / DIRECTORY, 1);
  }

  /** There a request for 600 pages is answered with the last page of the entry and 599 beyond it. */
  lemma GapsRunOver()
    ensures KernelEntry(Gaps(), 0x1000, 509) && FitsNowhere(Gaps(), 0x1000, 509, 600)
    ensures var r := Search(Gaps(), 0x1000, 509, 600, 0, 0, 0); r.Found? && Linear(r.x, r.y, r.z) == PAGES - 1
  {
    var mem, pages := Gaps(), 600;
    GapsRoot();
    hide Gaps, KernelEntry, Taken, Bare, Search, Linear;
    forall s | 0 <= s <= PAGES - pages ensures !Fits(mem, 0x1000, 509, s, pages) {
      GapEnds(s);
      var k :| s <= k < s + 600 && k / TABLE % TABLE != 0 && k % TABLE != 511;
      GapsTaken(k);
    }
    forall s, b | 0 <= s <= b < PAGES && Skips(mem, 0x1000, 509, s, b) ensures !Bare(s, b + 1) {
      GapsTaken(b);
      GapsNotBare(s, b);
    }
    RunsOverTheEnd(mem, 0x1000, 509, pages);
    GapsTaken(PAGES - 2);
  }
}
