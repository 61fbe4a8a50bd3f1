// The pages alloc_vm hands out: which they are, whether they were free, and what it leaves behind.
// lib/kernel/memory/pagination/PageTable.cpp:78-83
module AllocPages {
  import opened AllocVm
  import opened BareCarry
  import opened FirstFit
  import opened MapRange
  import opened Options
  import opened PageEntry
  import opened PageMap
  import opened PageScan
  import opened PageWalk
  import opened PrivateSlot
  import opened Words

  // ---------- From one page to the next ----------

  lemma NextX(base: bv64, z: nat, y: nat, x: nat)
    requires IsIndex(base) && z < TABLE && y < TABLE && x < TABLE - 1
    ensures NextPage(AddressOf(base, z, y, x)) == AddressOf(base, z, y, x + 1)
  {
    hide Word, Convert, NextPage, Follows, IsIndex;
    WordIsIndex(z);
    WordIsIndex(y);
    WordFollows(x);
    NextInTable(base, Word(z), Word(y), Word(x), Word(x + 1));
  }

  lemma NextY(base: bv64, z: nat, y: nat)
    requires IsIndex(base) && z < TABLE && y < TABLE - 1
    ensures NextPage(AddressOf(base, z, y, 511)) == AddressOf(base, z, y + 1, 0)
  {
    hide Word, Convert, NextPage, Follows, IsLast, IsIndex;
    WordIsIndex(z);
    WordFollows(y);
    Word511();
    NextTable(base, Word(z), Word(y), Word(y + 1), Word(511), Word(0));
  }

  lemma NextZ(base: bv64, z: nat)
    requires IsIndex(base) && z < TABLE - 1
    ensures NextPage(AddressOf(base, z, 511, 511)) == AddressOf(base, z + 1, 0, 0)
  {
    hide Word, Convert, NextPage, Follows, IsLast, IsIndex;
    WordFollows(z);
    Word511();
    NextDirectory(base, Word(z), Word(z + 1), Word(511), Word(0));
  }

  lemma AddressAtParts(base: bv64, x: nat, y: nat, z: nat)
    requires x < TABLE && y < TABLE
    ensures AddressAt(base, Linear(x, y, z)) == AddressOf(base, z, y, x)
  {
    hide Word, Convert, Linear;
    Parts(x, y, z);
  }

  /** One page on: within the table, or through one carry, or through both. */
  lemma OneOn(x: nat, y: nat, z: nat)
    requires x < TABLE && y < TABLE && Linear(x, y, z) + 1 < PAGES
    ensures z < TABLE
    ensures x < TABLE - 1 ==> Linear(x, y, z) + 1 == Linear(x + 1, y, z)
    ensures x == TABLE - 1 && y < TABLE - 1 ==> Linear(x, y, z) + 1 == Linear(0, y + 1, z)
    ensures x == TABLE - 1 && y == TABLE - 1 ==> Linear(x, y, z) + 1 == Linear(0, 0, z + 1) && z < TABLE - 1
  {
  }

  lemma NextOf(base: bv64, x: nat, y: nat, z: nat)
    requires IsIndex(base) && x < TABLE && y < TABLE && Linear(x, y, z) + 1 < PAGES
    ensures NextPage(AddressAt(base, Linear(x, y, z))) == AddressAt(base, Linear(x, y, z) + 1)
  {
    OneOn(x, y, z);
    hide AddressAt, AddressOf, IsIndex, Linear, NextPage;
    AddressAtParts(base, x, y, z);
    if x < TABLE - 1 {
      AddressAtParts(base, x + 1, y, z);
      NextX(base, z, y, x);
    } else {
      NextOfLast(base, y, z);
    }
  }

  lemma NextOfLast(base: bv64, y: nat, z: nat)
    requires IsIndex(base) && y < TABLE && Linear(511, y, z) + 1 < PAGES
    ensures NextPage(AddressOf(base, z, y, 511)) == AddressAt(base, Linear(511, y, z) + 1)
  {
    OneOn(511, y, z);
    hide AddressAt, AddressOf, IsIndex, Linear, NextPage;
    if y < TABLE - 1 {
      AddressAtParts(base, 0, y + 1, z);
      NextY(base, z, y);
    } else {
      AddressAtParts(base, 0, 0, z + 1);
      NextZ(base, z);
    }
  }

  /** Adding a page to the address of a page gives the address of the next, through both carries. */
  lemma NextAddress(base: bv64, p: nat)
    requires IsIndex(base) && p + 1 < PAGES
    ensures NextPage(AddressAt(base, p)) == AddressAt(base, p + 1)
  {
    hide AddressAt, IsIndex, Linear, NextPage;
    PartsOf(p);
    NextOf(base, p % TABLE, p / TABLE % TABLE, p / DIRECTORY);
  }

  lemma {:induction false} PageAtIs(base: bv64, p: nat, k: nat)
    requires IsIndex(base) && p + k < PAGES
    ensures PageAt(AddressAt(base, p), k) == AddressAt(base, p + k)
    decreases k
  {
    hide AddressAt, IsIndex;
    if k > 0 {
      NextAddress(base, p);
      PageAtIs(base, p + 1, k - 1);
    }
  }

  /** The k-th page from page f on is page f + k. */
  lemma RangeIs(base: bv64, f: nat, k: nat)
    requires IsIndex(base) && f + k < PAGES
    ensures PathOf(PageAt(AddressAt(base, f), k)) == PathAt(base, f + k)
  {
    hide AddressAt, IsIndex, PathOf, PathAt, PageAt;
    PageAtIs(base, f, k);
    PathOfAddress(base, f + k);
  }

  // ---------- Whether they were free ----------

  /** The n pages from va on are not mapped. */
  ghost predicate AllFree(mem: Mem, root: bv64, va: bv64, n: nat)
  {
    forall k :: 0 <= k < n ==> Walk(mem, root, PathOf(PageAt(va, k))) == None
  }

  lemma RangeFree(mem: Mem, root: bv64, base: bv64, g: nat, pages: nat)
    requires IsIndex(base) && 0 < pages && g + pages <= PAGES
    ensures AllFree(mem, root, AddressAt(base, g), pages) <==> Fits(mem, root, base, g, pages)
  {
    hide IsIndex, PathOf, PathAt, AddressAt, Walk, PageAt;
    forall k | 0 <= k < pages ensures PathOf(PageAt(AddressAt(base, g), k)) == PathAt(base, g + k) {
      RangeIs(base, g, k);
    }
    if AllFree(mem, root, AddressAt(base, g), pages) {
      forall k | g <= k < g + pages ensures !Taken(mem, root, base, k) {
        assert Walk(mem, root, PathOf(PageAt(AddressAt(base, g), k - g))) == None;
      }
    } else {
      var k :| 0 <= k < pages && Walk(mem, root, PathOf(PageAt(AddressAt(base, g), k))) != None;
      assert Taken(mem, root, base, g + k);
    }
  }

  lemma FormedBelow(x: nat, y: nat, z: nat)
    requires x <= TABLE && y <= TABLE
    ensures Formed(x, y, z) <= Linear(x, y, z)
  {
  }

  lemma SamePage(base: bv64, p: nat, q: nat)
    requires IsIndex(base) && p < PAGES && q < PAGES && AddressAt(base, p) == AddressAt(base, q)
    ensures p == q
  {
    hide AddressAt, IsIndex, PathAt, PathOf;
    PathOfAddress(base, p);
    PathOfAddress(base, q);
    PathsDiffer(base, p, q);
  }

  lemma {:induction false} FoundBounds(mem: Mem, root: bv64, base: bv64, pages: nat, x: nat, y: nat, z: nat)
    requires x <= TABLE && y <= TABLE
    ensures var r := Search(mem, root, base, pages, x, y, z); r.Found? ==> r.x <= TABLE && r.y <= TABLE
    decreases Linear(TABLE, TABLE, TABLE) - Linear(x, y, z)
  {
    hide Round, Advance;
    if Going(y, z) && Round(mem, root, base, pages, x, y, z).Blocked? {
      var i := Round(mem, root, base, pages, x, y, z).i;
      AdvanceIs(x, y, z, i);
      var (x', y', z') := Advance(x, y, z, i);
      FoundBounds(mem, root, base, pages, x', y', z');
    }
  }

  /** An answer from no higher than the first fit: the pages at the address returned were all free exactly if it is
      the first fit. */
  lemma HandsOutFreeExactly(mem: Mem, root: bv64, base: bv64, pages: nat, f: nat)
    requires IsIndex(base) && IsFirstFit(mem, root, base, f, pages) && 0 < pages
    requires var r := Search(mem, root, base, pages, 0, 0, 0); r.Found? && Linear(r.x, r.y, r.z) <= f
    ensures var r := Search(mem, root, base, pages, 0, 0, 0);
      AllFree(mem, root, AddressOf(base, r.z, r.y, r.x), pages) <==> Returns(r, base, f)
  {
    hide IsIndex, Linear, Formed, AddressOf, AddressAt, Search, Fits, AllFree;
    var r := Search(mem, root, base, pages, 0, 0, 0);
    FoundBounds(mem, root, base, pages, 0, 0, 0);
    FormedBelow(r.x, r.y, r.z);
    AddressIsFormed(base, r.x, r.y, r.z);
    var g := Formed(r.x, r.y, r.z);
    RangeFree(mem, root, base, g, pages);
    if Returns(r, base, f) {
      SamePage(base, g, f);
    }
  }

  /** For a first fit in the first two directories and less than a table: whatever the search answers, the pages were
      all free exactly if the tables follow as FirstFitBelow says. */
  lemma HandsOutFreeBelow(mem: Mem, root: bv64, base: bv64, pages: nat, f: nat)
    requires SelfMapped(mem, root) && IsIndex(base) && IsFirstFit(mem, root, base, f, pages)
    requires 0 < pages < TABLE && f < 2 * DIRECTORY && Search(mem, root, base, pages, 0, 0, 0).Found?
    ensures var r := Search(mem, root, base, pages, 0, 0, 0);
      AllFree(mem, root, AddressOf(base, r.z, r.y, r.x), pages) <==> TablesFollow(mem, root, base, f)
  {
    hide IsIndex, SelfMapped, IsFirstFit, AddressOf, Search, AllFree, TablesFollow, Returns;
    StopsBy(mem, root, base, pages, f);
    HandsOutFreeExactly(mem, root, base, pages, f);
    FirstFitBelow(mem, root, base, pages, f);
  }

  lemma FilledForms(f: nat)
    requires 0 < f < PAGES && f % TABLE == 0 && f / TABLE % 2 == 0
    ensures !Late(Filled(f)) && Sane(Filled(f)) && TABLE <= f
    ensures var (x, y, z) := Raw(Filled(f)); Formed(x, y, z) == f - TABLE
  {
    PartsOf(f);
  }

  /** With all pages below f taken and f the first page of an even table that is there, whatever is asked for is handed
      out one table too low: over pages that are mapped, so that their frames are handed out twice. */
  lemma HandsOutTwice(mem: Mem, root: bv64, base: bv64, pages: nat, f: nat)
    requires SelfMapped(mem, root) && IsIndex(base) && IsFirstFit(mem, root, base, f, pages) && pages < 0x1_0000
    requires FullBelow(mem, root, base, f) && 0 < f && f % TABLE == 0 && f / TABLE % 2 == 0
    requires TableThere(mem, root, base, f)
    ensures var r := Search(mem, root, base, pages, 0, 0, 0);
      && TABLE <= f && r.Found? && AddressOf(base, r.z, r.y, r.x) == AddressAt(base, f - TABLE)
      && Walk(mem, root, PathOf(AddressOf(base, r.z, r.y, r.x))) != None
  {
    hide SelfMapped, IsIndex, Search, View, Taken, Late, Raw, Linear, Formed, Sane, AddressOf, AddressAt;
    hide PathAt, PathOf;
    FilledForms(f);
    FilledUpTo(mem, root, base, pages, f);
    var h := Filled(f);
    assert !Taken(mem, root, base, f);
    ViewOf(mem, root, base, pages, h, f);
    StopsAt(mem, root, base, pages, h);
    RawNames(h);
    var (x, y, z) := Raw(h);
    AddressIsFormed(base, x, y, z);
    assert Taken(mem, root, base, f - TABLE);
    PathOfAddress(base, f - TABLE);
    hide Filled, FullBelow, TableThere, IsFirstFit;
    TakenIs(mem, root, base, f - TABLE);
  }

  lemma TakenIs(mem: Mem, root: bv64, base: bv64, p: nat)
    requires Taken(mem, root, base, p)
    ensures Walk(mem, root, PathAt(base, p)) != None
  {
    hide Walk, PathAt;
  }

  /** A memory like that: the root at 0x1000 maps itself, and under L4 entry 509 there are two full page tables and
      an empty third. */
  function TwoFullTables(): Mem
  {
    (s: Slot) =>
      if s == Slot(0x1000, 510) then 0x1003
      else if s == Slot(0x1000, 509) then 0x2003
      else if s == Slot(0x2000, 0) then 0x3003
      else if s == Slot(0x3000, 0) then 0x4003
      else if s == Slot(0x3000, 1) then 0x5003
      else if s == Slot(0x3000, 2) then 0x6003
      else if s.frame == 0x4000 || s.frame == 0x5000 then 0x7003
      else 0
  }

  lemma TwoFullRoot()
    ensures SelfMapped(TwoFullTables(), 0x1000) && IsIndex(509)
  {
  }

  lemma TwoFullWalk(y: bv64, x: bv64)
    requires y <= 1
    ensures Walk(TwoFullTables(), 0x1000, [509, 0, y, x]) != None
  {
    var mem := TwoFullTables();
    assert [509, 0, y, x][1..] == [0, y, x] && [0, y, x][1..] == [y, x] && [y, x][1..] == [x];
    assert Walk(mem, 0x4000, [x]) == Walk(mem, 0x5000, [x]) == Some(0x7000);
    assert Walk(mem, 0x2000, [0, y, x]) == Walk(mem, 0x3000, [y, x]);
  }

  lemma ThirdTable()
    ensures Walk(TwoFullTables(), 0x1000, [509, 0, 2]) == Some(0x6000)
    ensures Walk(TwoFullTables(), 0x1000, [509, 0, 2, 0]) == None
  {
    var mem := TwoFullTables();
    assert [509, 0, 2][1..] == [0, 2] && [0, 2][1..] == [2];
    assert Walk(mem, 0x2000, [0, 2]) == Walk(mem, 0x3000, [2]) == Some(0x6000);
    hide TwoFullTables;
    assert mem(Slot(0x6000, 0)) == 0 by { ThirdIsEmpty(); }
    assert [509, 0, 2, 0] == [509, 0, 2] + [0];
    WalkConcat(mem, 0x1000, [509, 0, 2], [0]);
  }

  lemma ThirdIsEmpty()
    ensures TwoFullTables()(Slot(0x6000, 0)) == 0
  {
  }

  lemma {:induction false} TwoFullIs()
    ensures FullBelow(TwoFullTables(), 0x1000, 509, 1024) && TableThere(TwoFullTables(), 0x1000, 509, 1024)
    ensures !Taken(TwoFullTables(), 0x1000, 509, 1024)
  {
    WordZero();
    WordNext(1);
    hide Word, Walk, TwoFullTables;
    forall p | 0 <= p < 1024 ensures Taken(TwoFullTables(), 0x1000, 509, p) {
      assert p / DIRECTORY == 0 && p / TABLE % TABLE <= 1;
      TwoFullWalk(Word(p / TABLE % TABLE), Word(p % TABLE));
    }
    ThirdTable();
    assert PathAt(509, 1024) == [509, 0, 2, 0] && PathAt(509, 1024)[..3] == [509, 0, 2];
  }

  /** There page 1024 is free, but a request for one page is answered with page 512, which is mapped. */
  lemma Page512Twice()
    ensures IsFirstFit(TwoFullTables(), 0x1000, 509, 1024, 1)
    ensures var r := Search(TwoFullTables(), 0x1000, 509, 1, 0, 0, 0);
      && r.Found? && AddressOf(509, r.z, r.y, r.x) == AddressAt(509, 512)
      && Walk(TwoFullTables(), 0x1000, PathOf(AddressOf(509, r.z, r.y, r.x))) != None
  {
    var mem, pages := TwoFullTables(), 1;
    TwoFullRoot();
    TwoFullIs();
    hide TwoFullTables, SelfMapped, IsIndex, Taken, Walk, Search, AddressOf, AddressAt, TableThere, PathOf;
    forall p | 0 <= p < 1024 ensures !Fits(mem, 0x1000, 509, p, pages) {
      assert Taken(mem, 0x1000, 509, p);
    }
    HandsOutTwice(mem, 0x1000, 509, pages, 1024);
  }

  // ---------- What alloc_vm leaves behind ----------

  /** Whatever the frames handed out hold, if none of them is a table in use: every address that translated still does,
      and the address returned translates. */
  lemma AllocVmKeeps(mem: Mem, root: bv64, base: bv64, pages: nat, frames: seq<bv64>, flags: bv16, q: seq<bv64>)
    requires 4 * pages <= |frames| && Frames(frames) && Unreached(mem, root, frames, 3) && |q| <= 4
    requires Search(mem, root, base, pages, 0, 0, 0).Found?
    ensures var r := Search(mem, root, base, pages, 0, 0, 0); var va := AddressOf(base, r.z, r.y, r.x);
      var m := MapPages(mem, root, va, pages, frames, flags).0;
      && (Walk(mem, root, q) != None ==> Walk(m, root, q) == Walk(mem, root, q))
      && (0 < pages ==> Walk(m, root, PathOf(va)) != None)
  {
    hide PathOf, AddressOf, Walk, MapPages, Unreached, Frames, Search, Target;
    var r := Search(mem, root, base, pages, 0, 0, 0);
    var va := AddressOf(base, r.z, r.y, r.x);
    MapIsConservative(mem, root, va, pages, frames, flags, q);
    if 0 < pages {
      MapsFirstPage(mem, root, va, pages, frames, flags);
    }
  }

  /** With cleared frames every page from the address returned on is mapped afterwards, and whatever else translates now
      did so before or leads into a frame just taken. */
  lemma AllocVmMaps(mem: Mem, root: bv64, base: bv64, pages: nat, frames: seq<bv64>, flags: bv16)
    requires 4 * pages <= |frames| && Ready(mem, root, frames) && Search(mem, root, base, pages, 0, 0, 0).Found?
    ensures var r := Search(mem, root, base, pages, 0, 0, 0); var va := AddressOf(base, r.z, r.y, r.x);
      var (m, u) := MapPages(mem, root, va, pages, frames, flags);
      AllMapped(m, root, va, pages) && Grown(mem, m, root, frames[..u])
  {
    hide Ready, AddressOf, Grown, Search, AllMapped;
    var r := Search(mem, root, base, pages, 0, 0, 0);
    MapExact(mem, root, AddressOf(base, r.z, r.y, r.x), pages, frames, flags);
  }

  /** If the heads are sound, the pages of the first fit are handed out and were free. With cleared frames they are all
      mapped afterwards. */
  lemma AllocVmPages(mem: Mem, root: bv64, base: bv64, pages: nat, frames: seq<bv64>, flags: bv16, f: nat, k: nat)
    requires SelfMapped(mem, root) && IsIndex(base) && IsFirstFit(mem, root, base, f, pages) && pages < 0x1_0000
    requires AllSound(mem, root, base, pages, 0, f) && 4 * pages <= |frames| && Ready(mem, root, frames) && k < pages
    ensures Returns(Search(mem, root, base, pages, 0, 0, 0), base, f)
    ensures var r := Search(mem, root, base, pages, 0, 0, 0);
      var m := MapPages(mem, root, AddressOf(base, r.z, r.y, r.x), pages, frames, flags).0;
      !Taken(mem, root, base, f + k) && Taken(m, root, base, f + k)
  {
    hide IsIndex, Ready, PathOf, PathAt, AddressAt, AddressOf, Walk, Grown, PageAt, Search, AllSound, SelfMapped;
    hide Linear;
    ReturnsFirstFitExactly(mem, root, base, pages, f);
    MapExact(mem, root, AddressAt(base, f), pages, frames, flags);
    RangeIs(base, f, k);
  }

  /** With cleared frames, and if the tables under the L4 entry are its own, two pages of an answer inside the entry
      that were free get a frame each: the last one taken in their turn. */
  lemma AllocVmOwnFrames(mem: Mem, root: bv64, base: bv64, pages: nat, frames: seq<bv64>, flags: bv16, k: nat, j: nat)
    requires IsIndex(base) && 4 * pages <= |frames| && Ready(mem, root, frames) && Private(mem, root, base)
    requires var r := Search(mem, root, base, pages, 0, 0, 0);
      r.Found? && Linear(r.x, r.y, r.z) + pages <= PAGES
    requires k < j < pages
    requires var r := Search(mem, root, base, pages, 0, 0, 0); var va := AddressOf(base, r.z, r.y, r.x);
      Walk(mem, root, PathOf(PageAt(va, k))) == None && Walk(mem, root, PathOf(PageAt(va, j))) == None
    ensures var r := Search(mem, root, base, pages, 0, 0, 0); var va := AddressOf(base, r.z, r.y, r.x);
      var m := MapPages(mem, root, va, pages, frames, flags).0;
      var a, b := Walk(m, root, PathOf(PageAt(va, k))), Walk(m, root, PathOf(PageAt(va, j)));
      a != None && b != None && a.value in frames && b.value in frames && a != b
  {
    hide IsIndex, Linear, Formed, AddressOf, AddressAt, Search, Walk, PathOf, PathAt, PageAt, MapPages, Private, Ready;
    var r := Search(mem, root, base, pages, 0, 0, 0);
    FoundBounds(mem, root, base, pages, 0, 0, 0);
    FormedBelow(r.x, r.y, r.z);
    AddressIsFormed(base, r.x, r.y, r.z);
    var g := Formed(r.x, r.y, r.z);
    RangeIs(base, g, k);
    RangeIs(base, g, j);
    OwnFrames(mem, root, base, g, pages, frames, flags, k, j);
  }

  lemma OwnFrames(mem: Mem, root: bv64, base: bv64, g: nat, pages: nat, frames: seq<bv64>, flags: bv16, k: nat, j: nat)
    requires IsIndex(base) && k < j < pages && g + pages <= PAGES
    requires 4 * pages <= |frames| && Ready(mem, root, frames) && Private(mem, root, base)
    requires Walk(mem, root, PathAt(base, g + k)) == None && Walk(mem, root, PathAt(base, g + j)) == None
    ensures var m := MapPages(mem, root, AddressAt(base, g), pages, frames, flags).0;
      var a, b := Walk(m, root, PathAt(base, g + k)), Walk(m, root, PathAt(base, g + j));
      a != None && b != None && a.value in frames && b.value in frames && a != b
  {
    hide IsIndex, PathOf, PathAt, AddressAt, Walk, PageAt, MapPages, Private, Ready, MissingAtTurn, Frames;
    var va := AddressAt(base, g);
    MissingAtItsTurn(mem, root, base, g, pages, frames, flags, k);
    MissingAtItsTurn(mem, root, base, g, pages, frames, flags, j);
    OwnFrame(mem, root, va, pages, k, frames, flags);
    OwnFrame(mem, root, va, pages, j, frames, flags);
    CountGrows(mem, root, va, k + 1, j, frames, flags);
    RangeIs(base, g, k);
    RangeIs(base, g, j);
    DistinctFrames(mem, root, frames, MapPages(mem, root, va, k + 1, frames, flags).1 - 1,
                   MapPages(mem, root, va, j + 1, frames, flags).1 - 1);
  }

  lemma DistinctFrames(mem: Mem, root: bv64, frames: seq<bv64>, i: nat, j: nat)
    requires Ready(mem, root, frames) && i < j < |frames|
    ensures frames[i] != frames[j]
  {
    hide FrameOf, Blank, Unreached;
  }

  lemma OtherPage(base: bv64, g: nat, i: nat, k: nat)
    requires IsIndex(base) && i < k && g + k < PAGES
    ensures var path := PathOf(PageAt(AddressAt(base, g), i)); path[0] == base && path != PathAt(base, g + k)
  {
    hide IsIndex, PathOf, PathAt, AddressAt, PageAt;
    RangeIs(base, g, i);
    if PathAt(base, g + i) == PathAt(base, g + k) {
      PathsDiffer(base, g + i, g + k);
    }
  }

  lemma MissingAtItsTurn(mem: Mem, root: bv64, base: bv64, g: nat, pages: nat, frames: seq<bv64>, flags: bv16, k: nat)
    requires IsIndex(base) && k < pages && g + pages <= PAGES && Walk(mem, root, PathAt(base, g + k)) == None
    requires 4 * pages <= |frames| && Ready(mem, root, frames) && Private(mem, root, base)
    ensures MissingAtTurn(mem, root, AddressAt(base, g), k, frames, flags)
  {
    hide IsIndex, PathOf, PathAt, AddressAt, Walk, PageAt, MapPages, Private, Ready;
    var va := AddressAt(base, g);
    RangeIs(base, g, k);
    forall i | 0 <= i < k ensures PathOf(PageAt(va, i))[0] == base && PathOf(PageAt(va, i)) != PathAt(base, g + k) {
      OtherPage(base, g, i, k);
    }
    MissingStays(mem, root, base, va, k, frames, flags, PathAt(base, g + k));
  }
}
