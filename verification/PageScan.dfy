// alloc_vm as one pass over the pages of the L4 entry: which pages it looks from, and exactly when it returns the
// first fit. lib/kernel/memory/pagination/PageTable.cpp:70-96
module PageScan {
  import opened AllocVm
  import opened BareCarry
  import opened FirstFit
  import opened Options
  import opened PageEntry
  import opened PageTable
  import opened PageWalk
  import opened Words

  // ---------- Heads of the loop ----------

  /** A head of the outer loop: the page its indices name, and whether x is left at 512. */
  datatype Head = Head(page: nat, left: bool)

  predicate Sane(h: Head)
  {
    h.left ==> 0 < h.page && h.page % TABLE == 0
  }

  /** The first table of any directory but the first is only ever looked at with y left at 512. */
  predicate LateY(x: nat, y: nat, z: nat, left: bool)
  {
    0 < z && y == if left then 1 else 0
  }

  predicate Late(h: Head)
  {
    LateY(h.page % TABLE, h.page / TABLE % TABLE, h.page / DIRECTORY, h.left)
  }

  /** The indices at the head, from those of its page. */
  function RawAt(x: nat, y: nat, z: nat, left: bool): (nat, nat, nat)
  {
    if LateY(x, y, z, left) then (if left then TABLE else x, TABLE, z - 1)
    else if !left then (x, y, z)
    else if 0 < y then (TABLE, y - 1, z)
    else if 0 < z then (TABLE, TABLE - 1, z - 1)
    else (0, 0, 0)
  }

  function Raw(h: Head): (nat, nat, nat)
  {
    RawAt(h.page % TABLE, h.page / TABLE % TABLE, h.page / DIRECTORY, h.left)
  }

  /** The head that a skip over i pages leads to. */
  function Next(h: Head, i: nat): Head
  {
    Head(h.page + i, !h.left && h.page % TABLE + i == TABLE)
  }

  lemma RawNamesAt(x: nat, y: nat, z: nat, left: bool)
    requires x < TABLE && y < TABLE && (left ==> x == 0 && (0 < y || 0 < z))
    ensures var (x', y', z') := RawAt(x, y, z, left);
      x' <= TABLE && y' <= TABLE && Linear(x', y', z') == Linear(x, y, z)
  {
  }

  /** The indices at a head name its page. */
  lemma RawNames(h: Head)
    requires Sane(h)
    ensures var (x, y, z) := Raw(h); x <= TABLE && y <= TABLE && Linear(x, y, z) == h.page
  {
    PartsOf(h.page);
    SaneParts(h);
    RawNamesAt(h.page % TABLE, h.page / TABLE % TABLE, h.page / DIRECTORY, h.left);
  }

  lemma SaneParts(h: Head)
    requires Sane(h)
    ensures h.left ==> h.page % TABLE == 0 && (0 < h.page / TABLE % TABLE || 0 < h.page / DIRECTORY)
  {
  }

  lemma NextAt(x: nat, y: nat, z: nat, left: bool, i: nat)
    requires x < TABLE && y < TABLE && (left ==> x == 0 && (0 < y || 0 < z)) && 0 < i < 0x1_0000
    ensures var (x', y', z') := RawAt(x, y, z, left); var b := y + (x + i) / TABLE;
      Advance(x', y', z', i) == RawAt((x + i) % TABLE, b % TABLE, z + b / TABLE, !left && x + i == TABLE)
  {
  }

  /** From head to head the carries go as Next says. */
  lemma RawNext(h: Head, i: nat)
    requires Sane(h) && 0 < i < 0x1_0000
    ensures var (x, y, z) := Raw(h); Sane(Next(h, i)) && Advance(x, y, z, i) == Raw(Next(h, i))
  {
    hide Advance, RawAt, Linear;
    var p := h.page;
    PartsOf(p);
    SaneParts(h);
    OffsetParts(p % TABLE, p / TABLE % TABLE, p / DIRECTORY, i);
    NextAt(p % TABLE, p / TABLE % TABLE, p / DIRECTORY, h.left, i);
  }

  // ---------- What the first probe of a round sees ----------

  /** The entry of page p, looked for with indices in range. */
  function Entered(mem: Mem, root: bv64, base: bv64, p: nat): Looked
  {
    if Walk(mem, root, PathAt(base, p)) == None then Null else Entry(EntryAddressOf(PathAt(base, p), 0))
  }

  /** What it says at a head. With y at 512 it is the page meant if the directory is odd, but the page one
      directory below if it is even. */
  function View(mem: Mem, root: bv64, base: bv64, h: Head): Looked
  {
    var p, d := h.page, h.page / DIRECTORY;
    if Late(h) then
      if Walk(mem, root, [base, Word(d - 1)]) == None then Null
      else if Walk(mem, root, [base, Word(d)]) == None then Fault
      else if Walk(mem, root, [base, Word(d), Word(0)]) == None then Null
      else Read(mem, root, base, if (d - 1) % 2 == 0 then p else p - DIRECTORY)
    else if h.left && 0 < p then
      if Walk(mem, root, PathAt(base, p - 1)[..3]) == None then Null else Read(mem, root, base, p)
    else Entered(mem, root, base, p)
  }

  /** The three kinds of indices at a head. */
  lemma RawCases(h: Head)
    requires Sane(h) && h.page < PAGES
    ensures var p := h.page; var (x, y, z) := Raw(h); var d := p / DIRECTORY;
      if Late(h) then
        y == TABLE && x <= TABLE && z + 1 == d < TABLE && DIRECTORY <= p && Linear(x, 0, z + 1) == p
      else if h.left then 0 < p && x == TABLE && y < TABLE && z < TABLE && Linear(TABLE, y, z) == p
      else (x, y, z) == (p % TABLE, p / TABLE % TABLE, p / DIRECTORY)
  {
    var p := h.page;
    PartsOf(p);
    SaneParts(h);
    CasesAt(p % TABLE, p / TABLE % TABLE, p / DIRECTORY, h.left);
  }

  lemma CasesAt(x: nat, y: nat, z: nat, left: bool)
    requires x < TABLE && y < TABLE && z < TABLE && (left ==> x == 0 && (0 < y || 0 < z))
    ensures var p := Linear(x, y, z); var (x', y', z') := RawAt(x, y, z, left);
      if LateY(x, y, z, left) then
        y' == TABLE && x' <= TABLE && z' + 1 == z && DIRECTORY <= p && Linear(x', 0, z' + 1) == p
      else if left then 0 < p && x' == TABLE && y' < TABLE && z' < TABLE && Linear(TABLE, y', z') == p
      else (x', y', z') == (x, y, z)
  {
  }

  lemma ViewIs(mem: Mem, root: bv64, base: bv64, h: Head)
    requires SelfMapped(mem, root) && IsIndex(base) && Sane(h) && h.page < PAGES
    ensures var (x, y, z) := Raw(h); Probe(mem, root, base, z, y, x) == View(mem, root, base, h)
  {
    hide Linear, Probe, Walk, Read, Entered, SelfMapped, IsIndex, PathAt, Word, OddFrom, Raw, Late, Sane;
    RawCases(h);
    var p := h.page;
    var (x, y, z) := Raw(h);
    if Late(h) {
      ViewLateY(mem, root, base, p, x, z);
    } else if h.left {
      ViewLateX(mem, root, base, p, y, z);
    } else {
      ViewInRange(mem, root, base, p);
    }
  }

  lemma ViewInRange(mem: Mem, root: bv64, base: bv64, p: nat)
    requires SelfMapped(mem, root) && IsIndex(base) && p < PAGES
    ensures ProbePage(mem, root, base, p) == Entered(mem, root, base, p)
  {
    hide IsIndex, SelfMapped, Walk, Word, Lookup, EntryAddressOf;
    PathIsIndices(base, p);
    LookupIs(mem, root, PathAt(base, p), 0);
    assert PathAt(base, p)[..4] == PathAt(base, p);
  }

  lemma InsideIs(mem: Mem, root: bv64, base: bv64, p: nat)
    requires p < PAGES
    ensures ReadOn(mem, root, base, base, p) == Read(mem, root, base, p)
  {
  }

  lemma ViewLateX(mem: Mem, root: bv64, base: bv64, p: nat, y: nat, z: nat)
    requires SelfMapped(mem, root) && IsIndex(base) && y < TABLE && z < TABLE && 0 < p < PAGES
    requires p == Linear(TABLE, y, z)
    ensures Probe(mem, root, base, z, y, TABLE) ==
      if Walk(mem, root, PathAt(base, p - 1)[..3]) == None then Null else Read(mem, root, base, p)
  {
    hide Linear, Probe, Walk, Read, ReadOn, SelfMapped, IsIndex, PathAt, Word, Follows;
    LastOfTable(y, z, p - 1);
    InsideIs(mem, root, base, p);
    PathOfParts(base, 511, y, z);
    assert PathAt(base, p - 1)[..3] == [base, Word(z), Word(y)];
    ProbeX512(mem, root, base, base, y, z);
  }

  lemma LateYPage(x: nat, z: nat)
    requires z + 1 < TABLE
    ensures Linear(x, 0, OddFrom(z)) == if z % 2 == 0 then Linear(x, 0, z + 1) else Linear(x, 0, z + 1) - DIRECTORY
  {
  }

  lemma ViewLateY(mem: Mem, root: bv64, base: bv64, p: nat, x: nat, z: nat)
    requires SelfMapped(mem, root) && IsIndex(base) && x <= TABLE && z + 1 < TABLE && p == Linear(x, 0, z + 1)
    requires DIRECTORY <= p
    ensures Probe(mem, root, base, z, TABLE, x) ==
      if Walk(mem, root, [base, Word(z)]) == None then Null
      else if Walk(mem, root, [base, Word(z + 1)]) == None then Fault
      else if Walk(mem, root, [base, Word(z + 1), Word(0)]) == None then Null
      else Read(mem, root, base, if z % 2 == 0 then p else p - DIRECTORY)
  {
    hide Probe, Walk, Read, SelfMapped, IsIndex, PathAt, Word, OddFrom, Linear, Follows;
    LateYPage(x, z);
    ProbeY512(mem, root, base, base, x, z);
  }

  // ---------- The pass ----------

  /** Looking from h, the search stops at page b: at the page of h itself by what the first probe says, at a later
      one by what is there. */
  ghost predicate Stops(mem: Mem, root: bv64, base: bv64, h: Head, b: nat)
  {
    if h.page == b then View(mem, root, base, h).Entry? else Taken(mem, root, base, b)
  }

  lemma NextIs(h: Head, p: nat)
    requires h.page < p
    ensures Sane(Next(h, p - h.page)) && Next(h, p - h.page).page == p
  {
  }

  /** The head from which the search comes to page p: one pass over the pages before p, whatever the size of the
      request. */
  ghost function From(mem: Mem, root: bv64, base: bv64, p: nat): (h: Head)
    ensures Sane(h) && h.page <= p
  {
    if p == 0 then Head(0, false) else
    hide Stops, Next;
    NextIs(From(mem, root, base, p - 1), p);
    var h := From(mem, root, base, p - 1);
    if Stops(mem, root, base, h, p - 1) then Next(h, p - h.page) else h
  }

  /** The macro forms the address of the page meant. */
  predicate NamesPage(h: Head)
  {
    if Late(h) then h.page / DIRECTORY % 2 == 1
    else h.left ==> h.page / TABLE % 2 == 1
  }

  /** Before the first fit f the first probe does not fault, and if it says that the page is free, a page behind it
      blocks the request; at f it says that the page is free, and the address formed is that of f. */
  ghost predicate Sound(mem: Mem, root: bv64, base: bv64, pages: nat, h: Head, f: nat)
  {
    var seen := View(mem, root, base, h);
    if h.page < f then
      seen != Fault && (seen == Null ==> exists k :: h.page < k < h.page + pages && Taken(mem, root, base, k))
    else seen == Null && NamesPage(h)
  }

  /** All heads from page `from` to page f are sound. */
  ghost predicate AllSound(mem: Mem, root: bv64, base: bv64, pages: nat, from: nat, f: nat)
  {
    forall p :: from <= p <= f && From(mem, root, base, p).page == p ==>
      Sound(mem, root, base, pages, From(mem, root, base, p), f)
  }

  lemma RawNamesPage(h: Head)
    requires Sane(h) && h.page < PAGES
    ensures var (x, y, z) := Raw(h);
      NamesPage(h) <==> (y == TABLE ==> z % 2 == 0) && (y < TABLE && x == TABLE ==> y % 2 == 0)
  {
    var p := h.page;
    PartsOf(p);
    SaneParts(h);
    ParityOf(p);
    ParityAt(p % TABLE, p / TABLE % TABLE, p / DIRECTORY, h.left);
  }

  lemma ParityOf(p: nat)
    ensures p / TABLE % 2 == p / TABLE % TABLE % 2
  {
  }

  lemma ParityAt(x: nat, y: nat, z: nat, left: bool)
    requires x < TABLE && y < TABLE && z < TABLE && (left ==> x == 0 && (0 < y || 0 < z))
    ensures var (x', y', z') := RawAt(x, y, z, left);
      (if LateY(x, y, z, left) then z % 2 == 1 else left ==> y % 2 == 1) <==>
      (y' == TABLE ==> z' % 2 == 0) && (y' < TABLE && x' == TABLE ==> y' % 2 == 0)
  {
  }

  /** At a head being harmless is being sound. */
  lemma SoundIs(mem: Mem, root: bv64, base: bv64, pages: nat, h: Head, f: nat)
    requires SelfMapped(mem, root) && IsIndex(base) && Sane(h) && h.page <= f < PAGES
    ensures var (x, y, z) := Raw(h);
      Harmless(mem, root, base, pages, x, y, z, f) <==> Sound(mem, root, base, pages, h, f)
  {
    hide Raw, View, Probe, SelfMapped, IsIndex, Taken, Linear, NamesPage, AddressOf, AddressAt, Sane;
    RawNames(h);
    ViewIs(mem, root, base, h);
    RawNamesPage(h);
    var (x, y, z) := Raw(h);
    AddressExactly(base, x, y, z);
  }

  /** A round that is blocked stops at the first page at which its head stops. */
  lemma RoundStops(mem: Mem, root: bv64, base: bv64, pages: nat, h: Head)
    requires SelfMapped(mem, root) && IsIndex(base) && Sane(h) && h.page + Need(pages) <= PAGES
    ensures var (x, y, z) := Raw(h);
      match Round(mem, root, base, pages, x, y, z)
      case Blocked(i) =>
        && i <= Need(pages) && Stops(mem, root, base, h, h.page + i - 1)
        && forall b :: h.page <= b < h.page + i - 1 ==> !Stops(mem, root, base, h, b)
      case _ => true
  {
    hide Raw, View, Probe, SelfMapped, IsIndex, Taken, Linear, Ahead, Sane;
    RawNames(h);
    ViewIs(mem, root, base, h);
    var (x, y, z) := Raw(h);
    AheadSees(mem, root, base, pages, x, y, z, 1);
  }

  /** From one head to the next. */
  lemma {:induction false} NextHead(mem: Mem, root: bv64, base: bv64, p: nat, i: nat)
    requires From(mem, root, base, p).page == p && 0 < i
    requires var h := From(mem, root, base, p);
      Stops(mem, root, base, h, p + i - 1) && forall b :: p <= b < p + i - 1 ==> !Stops(mem, root, base, h, b)
    ensures From(mem, root, base, p + i) == Next(From(mem, root, base, p), i)
    ensures forall q :: p < q < p + i ==> From(mem, root, base, q).page != q
  {
    hide Stops;
    var h := From(mem, root, base, p);
    Between(mem, root, base, p, i - 1);
    forall q | p < q < p + i ensures From(mem, root, base, q).page != q {
      Between(mem, root, base, p, q - p);
    }
  }

  lemma {:induction false} Between(mem: Mem, root: bv64, base: bv64, p: nat, j: nat)
    requires From(mem, root, base, p).page == p
    requires var h := From(mem, root, base, p); forall b :: p <= b < p + j ==> !Stops(mem, root, base, h, b)
    ensures From(mem, root, base, p + j) == From(mem, root, base, p)
  {
    hide Stops;
    if j > 0 {
      Between(mem, root, base, p, j - 1);
    }
  }

  lemma {:induction false} Scans(mem: Mem, root: bv64, base: bv64, pages: nat, p: nat, f: nat)
    requires SelfMapped(mem, root) && IsIndex(base) && IsFirstFit(mem, root, base, f, pages) && pages < 0x1_0000
    requires p <= f && From(mem, root, base, p).page == p
    ensures var (x, y, z) := Raw(From(mem, root, base, p));
      && x <= TABLE && y <= TABLE && Linear(x, y, z) == p
      && (AllHarmless(mem, root, base, pages, x, y, z, f) <==> AllSound(mem, root, base, pages, p, f))
    decreases f - p
  {
    hide SelfMapped, IsIndex, Raw, From, Linear, Round, Advance, Harmless, Sound, Stops, NoneBelow, Fits, Sane, Next;
    var h := From(mem, root, base, p);
    var (x, y, z) := Raw(h);
    RawNames(h);
    SoundIs(mem, root, base, pages, h, f);
    if p < f {
      RoundBefore(mem, root, base, pages, x, y, z, f);
      RoundStops(mem, root, base, pages, h);
      var r := Round(mem, root, base, pages, x, y, z);
      if r.Blocked? {
        NextHead(mem, root, base, p, r.i);
        RawNext(h, r.i);
        NextIs(h, p + r.i);
        Scans(mem, root, base, pages, p + r.i, f);
      }
    }
  }

  lemma FromZero(mem: Mem, root: bv64, base: bv64)
    ensures From(mem, root, base, 0) == Head(0, false) && Raw(From(mem, root, base, 0)) == (0, 0, 0)
  {
    hide View, Taken;
  }

  /** alloc_vm returns the first fit exactly if every head the pass comes to is sound. */
  lemma ReturnsFirstFitExactly(mem: Mem, root: bv64, base: bv64, pages: nat, f: nat)
    requires SelfMapped(mem, root) && IsIndex(base) && IsFirstFit(mem, root, base, f, pages) && pages < 0x1_0000
    ensures Returns(Search(mem, root, base, pages, 0, 0, 0), base, f) <==> AllSound(mem, root, base, pages, 0, f)
  {
    hide IsFirstFit, Returns, AllHarmless, AllSound, SelfMapped, IsIndex, Search, View, Taken;
    FromZero(mem, root, base);
    Scans(mem, root, base, pages, 0, f);
    FirstFitExactly(mem, root, base, pages, f);
  }

  // ---------- What happens otherwise ----------

  /** A fault of the first probe ends the search. */
  lemma FaultCrashes(mem: Mem, root: bv64, base: bv64, pages: nat, h: Head)
    requires SelfMapped(mem, root) && IsIndex(base) && Sane(h) && h.page < PAGES && View(mem, root, base, h) == Fault
    ensures var (x, y, z) := Raw(h); x <= TABLE && y <= TABLE && Search(mem, root, base, pages, x, y, z) == Crash
  {
    hide SelfMapped, IsIndex, Raw, Linear, View, Probe, Sane;
    RawNames(h);
    ViewIs(mem, root, base, h);
    var (x, y, z) := Raw(h);
    StillGoing(x, y, z);
  }

  /** If it finds the page free, and nothing behind it blocks the request, that is where the search stops. */
  lemma StopsAt(mem: Mem, root: bv64, base: bv64, pages: nat, h: Head)
    requires SelfMapped(mem, root) && IsIndex(base) && Sane(h) && View(mem, root, base, h) == Null
    requires h.page + Need(pages) <= PAGES && forall k :: h.page < k < h.page + pages ==> !Taken(mem, root, base, k)
    ensures var (x, y, z) := Raw(h);
      x <= TABLE && y <= TABLE && Search(mem, root, base, pages, x, y, z) == Found(x, y, z)
  {
    hide SelfMapped, IsIndex, Raw, Linear, View, Probe, Sane, Taken, Ahead;
    RawNames(h);
    ViewIs(mem, root, base, h);
    var (x, y, z) := Raw(h);
    StillGoing(x, y, z);
    AheadSees(mem, root, base, pages, x, y, z, 1);
  }

  /** All heads from page p up to page q are sound. */
  ghost predicate SoundUpTo(mem: Mem, root: bv64, base: bv64, pages: nat, p: nat, q: nat, f: nat)
  {
    forall k :: p <= k < q && From(mem, root, base, k).page == k ==>
      Sound(mem, root, base, pages, From(mem, root, base, k), f)
  }

  /** Over sound heads the search comes from one head to another. */
  lemma {:induction false} Comes(mem: Mem, root: bv64, base: bv64, pages: nat, p: nat, q: nat, f: nat)
    requires SelfMapped(mem, root) && IsIndex(base) && IsFirstFit(mem, root, base, f, pages) && pages < 0x1_0000
    requires p <= q <= f && SoundUpTo(mem, root, base, pages, p, q, f)
    requires From(mem, root, base, p).page == p && From(mem, root, base, q).page == q
    ensures var (x, y, z) := Raw(From(mem, root, base, p)); var (x', y', z') := Raw(From(mem, root, base, q));
      && x <= TABLE && y <= TABLE && x' <= TABLE && y' <= TABLE
      && Search(mem, root, base, pages, x, y, z) == Search(mem, root, base, pages, x', y', z')
    decreases q - p
  {
    hide SelfMapped, IsIndex, Raw, From, Linear, Round, Advance, Harmless, Sound, Stops, NoneBelow, Fits, Sane, Next;
    var h := From(mem, root, base, p);
    var (x, y, z) := Raw(h);
    RawNames(h);
    if p < q {
      SoundIs(mem, root, base, pages, h, f);
      StillGoing(x, y, z);
      RoundBefore(mem, root, base, pages, x, y, z, f);
      RoundStops(mem, root, base, pages, h);
      var i := Round(mem, root, base, pages, x, y, z).i;
      NextHead(mem, root, base, p, i);
      RawNext(h, i);
      NextIs(h, p + i);
      Comes(mem, root, base, pages, p + i, q, f);
    }
  }

  /** The first head that is not sound decides: the search faults there, or stops there although the request does not
      fit or the address is another page's, or finds an entry at the first fit and goes on behind it. */
  lemma FirstUnsoundDecides(mem: Mem, root: bv64, base: bv64, pages: nat, p: nat, f: nat)
    requires SelfMapped(mem, root) && IsIndex(base) && IsFirstFit(mem, root, base, f, pages) && pages < 0x1_0000
    requires p <= f && From(mem, root, base, p).page == p && SoundUpTo(mem, root, base, pages, 0, p, f)
    requires !Sound(mem, root, base, pages, From(mem, root, base, p), f)
    ensures var r := Search(mem, root, base, pages, 0, 0, 0);
      match View(mem, root, base, From(mem, root, base, p))
      case Fault => r == Crash
      case Null => var (x, y, z) := Raw(From(mem, root, base, p)); r == Found(x, y, z)
      case Entry(_) => p == f
  {
    hide SelfMapped, IsIndex, Search, View, Raw, From, NamesPage, Taken, NoneBelow, Sane;
    FromZero(mem, root, base);
    assert forall k :: f < k < f + pages ==> !Taken(mem, root, base, k);
    Comes(mem, root, base, pages, 0, p, f);
    var h := From(mem, root, base, p);
    match View(mem, root, base, h)
    case Fault => FaultCrashes(mem, root, base, pages, h);
    case Null => StopsAt(mem, root, base, pages, h);
    case Entry(_) =>
  }

  // ---------- Below the third directory ----------

  /** The page table of page p is there. */
  ghost predicate TableThere(mem: Mem, root: bv64, base: bv64, p: nat)
  {
    Walk(mem, root, PathAt(base, p)[..3]) != None
  }

  /** Behind every table whose last page is taken there is another, and f is not the first page of an even one. */
  ghost predicate TablesFollow(mem: Mem, root: bv64, base: bv64, f: nat)
  {
    forall b :: 0 <= b < f && b % TABLE == TABLE - 1 && Taken(mem, root, base, b) ==>
      TableThere(mem, root, base, b + 1) && (b + 1 == f ==> f / TABLE % 2 == 1)
  }

  /** At the beginning or behind a page taken, with x at 512 at the beginning of every table but the first. */
  ghost predicate Stands(mem: Mem, root: bv64, base: bv64, h: Head)
  {
    (h.left <==> 0 < h.page && h.page % TABLE == 0) && (h.page == 0 || Taken(mem, root, base, h.page - 1))
  }

  /** The head from which the search comes to p stands like that, and the pages from there to p are free. */
  ghost predicate Regular(mem: Mem, root: bv64, base: bv64, p: nat)
  {
    var h := From(mem, root, base, p);
    Stands(mem, root, base, h) && forall k :: h.page <= k < p ==> !Taken(mem, root, base, k)
  }

  lemma ThereBefore(mem: Mem, root: bv64, base: bv64, p: nat)
    requires Taken(mem, root, base, p)
    ensures TableThere(mem, root, base, p) && Walk(mem, root, PathAt(base, p)[..2]) != None
  {
    hide Walk, Word;
    assert PathAt(base, p)[..4] == PathAt(base, p);
    if Walk(mem, root, PathAt(base, p)[..2]) == None {
      WalkCutShort(mem, root, PathAt(base, p), 2, 4);
    }
    if Walk(mem, root, PathAt(base, p)[..3]) == None {
      WalkCutShort(mem, root, PathAt(base, p), 3, 4);
    }
  }

  lemma EmptyDirectoryFits(mem: Mem, root: bv64, base: bv64, pages: nat, z: nat)
    requires Walk(mem, root, [base, Word(z)]) == None && pages < 0x1_0000
    ensures Fits(mem, root, base, Linear(0, 0, z), pages)
  {
    hide Walk, Word;
    forall k | Linear(0, 0, z) <= k < Linear(0, 0, z) + Need(pages) ensures !Taken(mem, root, base, k) {
      InDirectory(z, k);
      assert PathAt(base, k)[..2] == [base, Word(z)] && PathAt(base, k)[..4] == PathAt(base, k);
      WalkCutShort(mem, root, PathAt(base, k), 2, 4);
    }
  }

  /** A directory that lies before the first fit is there: else all of it would be free. */
  lemma DirectoryThere(mem: Mem, root: bv64, base: bv64, pages: nat, z: nat, f: nat)
    requires IsFirstFit(mem, root, base, f, pages) && pages < 0x1_0000 && Linear(0, 0, z + 1) <= f
    ensures Walk(mem, root, [base, Word(z)]) != None
  {
    hide Walk, Word, Fits;
    if Walk(mem, root, [base, Word(z)]) == None {
      EmptyDirectoryFits(mem, root, base, pages, z);
    }
  }

  lemma InDirectory(z: nat, k: nat)
    requires Linear(0, 0, z) <= k < Linear(0, 0, z + 1)
    ensures k / DIRECTORY == z
  {
  }

  /** With y at 512 the page before is one of the directory's first table. */
  lemma LateYBefore(h: Head)
    requires Late(h) && (h.left <==> 0 < h.page && h.page % TABLE == 0)
    ensures var p, d := h.page, h.page / DIRECTORY;
      && 0 < p && (p - 1) / DIRECTORY == d && (p - 1) / TABLE % TABLE == 0 && Linear(0, 0, d) <= p
  {
    var p, d := h.page, h.page / DIRECTORY;
    PartsOf(p);
    if h.left {
      Parts(TABLE - 1, 0, d);
    } else {
      Parts(p % TABLE - 1, 0, d);
    }
  }

  /** What the first probe says at such a head, if y is not at 512 in front of an even directory: what there is, but
      a fault if x is at 512 and the table is missing. */
  lemma ViewOf(mem: Mem, root: bv64, base: bv64, pages: nat, h: Head, f: nat)
    requires IsFirstFit(mem, root, base, f, pages) && pages < 0x1_0000
    requires Stands(mem, root, base, h) && h.page <= f && (Late(h) ==> h.page / DIRECTORY % 2 == 1)
    ensures var seen := View(mem, root, base, h);
      && (seen == Fault <==> h.left && !TableThere(mem, root, base, h.page))
      && (seen != Fault ==> (seen.Entry? <==> Taken(mem, root, base, h.page)))
  {
    hide Late, View, Read, TableThere, IsFirstFit, Taken;
    ReadIs(mem, root, base, h.page);
    if Late(h) {
      ViewOfOdd(mem, root, base, pages, h, f);
    } else if h.left {
      ThereBefore(mem, root, base, h.page - 1);
      ViewOfLeft(mem, root, base, h);
    } else {
      ViewOfRest(mem, root, base, h);
    }
  }

  lemma ReadIs(mem: Mem, root: bv64, base: bv64, p: nat)
    ensures Read(mem, root, base, p) == Fault <==> !TableThere(mem, root, base, p)
    ensures Read(mem, root, base, p) != Fault ==> (Read(mem, root, base, p).Entry? <==> Taken(mem, root, base, p))
  {
    hide Walk, PathAt;
  }

  lemma ViewOfOdd(mem: Mem, root: bv64, base: bv64, pages: nat, h: Head, f: nat)
    requires IsFirstFit(mem, root, base, f, pages) && pages < 0x1_0000
    requires Stands(mem, root, base, h) && h.page <= f && Late(h) && h.page / DIRECTORY % 2 == 1
    ensures View(mem, root, base, h) == Read(mem, root, base, h.page)
    ensures !h.left ==> TableThere(mem, root, base, h.page)
  {
    hide Walk, Word, Read, Late, View, TableThere, IsFirstFit, Taken;
    var p, d := h.page, h.page / DIRECTORY;
    LateYBefore(h);
    ThereBefore(mem, root, base, p - 1);
    LateYThere(mem, root, base, p - 1, h);
    DirectoryThere(mem, root, base, pages, d - 1, f);
    ViewOfBelow(mem, root, base, h);
  }

  lemma ViewOfBelow(mem: Mem, root: bv64, base: bv64, h: Head)
    requires var d := h.page / DIRECTORY;
      && Late(h) && d % 2 == 1 && Walk(mem, root, [base, Word(d - 1)]) != None
      && Walk(mem, root, [base, Word(d)]) != None && Walk(mem, root, [base, Word(d), Word(0)]) != None
    ensures View(mem, root, base, h) == Read(mem, root, base, h.page)
  {
    hide Walk, Word, Read;
  }

  lemma ViewOfLeft(mem: Mem, root: bv64, base: bv64, h: Head)
    requires !Late(h) && h.left && 0 < h.page && TableThere(mem, root, base, h.page - 1)
    ensures View(mem, root, base, h) == Read(mem, root, base, h.page)
  {
    hide Walk, Word, Read, PathAt, Late;
  }

  lemma ViewOfRest(mem: Mem, root: bv64, base: bv64, h: Head)
    requires !Late(h) && !h.left
    ensures View(mem, root, base, h) == Null <==> !Taken(mem, root, base, h.page)
    ensures View(mem, root, base, h) != Fault
  {
    hide Walk, Word, Read, PathAt, Late, EntryAddressOf;
  }

  lemma LateYThere(mem: Mem, root: bv64, base: bv64, q: nat, h: Head)
    requires Late(h) && q / DIRECTORY == h.page / DIRECTORY && q / TABLE % TABLE == 0
    requires TableThere(mem, root, base, q) && Walk(mem, root, PathAt(base, q)[..2]) != None
    ensures var d := h.page / DIRECTORY;
      0 < d && Walk(mem, root, [base, Word(d)]) != None && Walk(mem, root, [base, Word(d), Word(0)]) != None
    ensures !h.left ==> TableThere(mem, root, base, h.page)
  {
    hide Walk, Word;
    var d := h.page / DIRECTORY;
    assert PathAt(base, q)[..2] == [base, Word(d)] && PathAt(base, q)[..3] == [base, Word(d), Word(0)];
    assert !h.left ==> PathAt(base, h.page)[..3] == [base, Word(d), Word(0)];
  }

  /** A regular head leads to a regular head, if its probe does not fault and the request is for less than a
      table. */
  lemma RegularNext(mem: Mem, root: bv64, base: bv64, pages: nat, p: nat, f: nat)
    requires IsFirstFit(mem, root, base, f, pages) && pages < TABLE
    requires p < f && Regular(mem, root, base, p)
    requires var h := From(mem, root, base, p); h.page == p ==>
      (View(mem, root, base, h).Entry? <==> Taken(mem, root, base, p))
    ensures Regular(mem, root, base, p + 1)
  {
    hide Taken, View;
    var h := From(mem, root, base, p);
    if Taken(mem, root, base, p) {
      assert From(mem, root, base, p + 1) == Next(h, p + 1 - h.page);
      assert !Fits(mem, root, base, h.page, pages);
      ShortRun(h.page, p);
    } else {
      assert From(mem, root, base, p + 1) == h;
    }
  }

  lemma ShortRun(s: nat, p: nat)
    requires s <= p < s + TABLE - 1
    ensures (p + 1) % TABLE == 0 <==> s % TABLE + (p + 1 - s) == TABLE
  {
  }

  ghost predicate NoFaults(mem: Mem, root: bv64, base: bv64, f: nat)
  {
    forall p :: 0 <= p < f && From(mem, root, base, p).page == p ==>
      View(mem, root, base, From(mem, root, base, p)) != Fault
  }

  lemma LateBelowTwo(h: Head)
    requires h.page < 2 * DIRECTORY
    ensures Late(h) ==> h.page / DIRECTORY % 2 == 1
    ensures NamesPage(h) <==> (h.left ==> h.page / TABLE % 2 == 1)
  {
    PartsOf(h.page);
  }

  lemma TableBehind(mem: Mem, root: bv64, base: bv64, h: Head, f: nat)
    requires TablesFollow(mem, root, base, f) && Stands(mem, root, base, h) && h.left && h.page <= f
    ensures TableThere(mem, root, base, h.page) && (h.page == f ==> f / TABLE % 2 == 1)
  {
    hide Taken, TableThere;
    assert (h.page - 1) % TABLE == TABLE - 1 && h.page - 1 + 1 == h.page;
  }

  lemma {:induction false} RegularUpTo(mem: Mem, root: bv64, base: bv64, pages: nat, p: nat, f: nat)
    requires IsFirstFit(mem, root, base, f, pages) && pages < TABLE && p <= f < 2 * DIRECTORY
    requires TablesFollow(mem, root, base, f) || NoFaults(mem, root, base, p)
    ensures Regular(mem, root, base, p)
    decreases p
  {
    hide Taken, View, Late, IsFirstFit, TableThere, TablesFollow;
    if p > 0 {
      RegularUpTo(mem, root, base, pages, p - 1, f);
      hide From, Stands;
      var h := From(mem, root, base, p - 1);
      if h.page == p - 1 {
        LateBelowTwo(h);
        ViewOf(mem, root, base, pages, h, f);
        if h.left && TablesFollow(mem, root, base, f) {
          TableBehind(mem, root, base, h, f);
        }
      }
      RegularNext(mem, root, base, pages, p - 1, f);
    }
  }

  lemma SoundFollows(mem: Mem, root: bv64, base: bv64, pages: nat, f: nat)
    requires IsFirstFit(mem, root, base, f, pages) && pages < TABLE && f < 2 * DIRECTORY
    requires AllSound(mem, root, base, pages, 0, f)
    ensures TablesFollow(mem, root, base, f)
  {
    hide Taken, View, Late, IsFirstFit, TableThere, From, NamesPage;
    forall b | 0 <= b < f && b % TABLE == TABLE - 1 && Taken(mem, root, base, b)
      ensures TableThere(mem, root, base, b + 1) && (b + 1 == f ==> f / TABLE % 2 == 1)
    {
      RegularUpTo(mem, root, base, pages, b + 1, f);
      var h := From(mem, root, base, b + 1);
      assert h.page == b + 1;
      LateBelowTwo(h);
      ViewOf(mem, root, base, pages, h, f);
    }
  }

  lemma FollowsSound(mem: Mem, root: bv64, base: bv64, pages: nat, f: nat)
    requires IsFirstFit(mem, root, base, f, pages) && pages < TABLE && f < 2 * DIRECTORY
    requires TablesFollow(mem, root, base, f)
    ensures AllSound(mem, root, base, pages, 0, f)
  {
    hide Taken, View, Late, TableThere, TablesFollow, From, NamesPage, Stands;
    forall p | 0 <= p <= f && From(mem, root, base, p).page == p
      ensures Sound(mem, root, base, pages, From(mem, root, base, p), f)
    {
      RegularUpTo(mem, root, base, pages, p, f);
      var h := From(mem, root, base, p);
      LateBelowTwo(h);
      ViewOf(mem, root, base, pages, h, f);
      if h.left {
        TableBehind(mem, root, base, h, f);
      }
      assert p < f ==> !Fits(mem, root, base, p, pages);
    }
  }

  /** In the first two directories a request for less than a table is answered with the first fit exactly if every
      table before it whose last page is taken has another one behind it, and it is not the first page of an even
      table. */
  lemma FirstFitBelow(mem: Mem, root: bv64, base: bv64, pages: nat, f: nat)
    requires SelfMapped(mem, root) && IsIndex(base) && IsFirstFit(mem, root, base, f, pages)
    requires pages < TABLE && f < 2 * DIRECTORY
    ensures Returns(Search(mem, root, base, pages, 0, 0, 0), base, f) <==> TablesFollow(mem, root, base, f)
  {
    hide IsFirstFit, Returns, AllSound, SelfMapped, IsIndex, Search, TablesFollow;
    ReturnsFirstFitExactly(mem, root, base, pages, f);
    if AllSound(mem, root, base, pages, 0, f) {
      SoundFollows(mem, root, base, pages, f);
    } else if TablesFollow(mem, root, base, f) {
      FollowsSound(mem, root, base, pages, f);
    }
  }

  /** At a head the search comes to without a fault, in the first two directories. */
  lemma ViewBelow(mem: Mem, root: bv64, base: bv64, pages: nat, p: nat, f: nat)
    requires IsFirstFit(mem, root, base, f, pages) && pages < TABLE && p <= f < 2 * DIRECTORY
    requires From(mem, root, base, p).page == p && NoFaults(mem, root, base, p)
    ensures var seen := View(mem, root, base, From(mem, root, base, p));
      seen != Fault ==> (seen.Entry? <==> Taken(mem, root, base, p))
  {
    hide From, View, Late, Taken, IsFirstFit, TableThere, Stands;
    RegularUpTo(mem, root, base, pages, p, f);
    LateBelowTwo(From(mem, root, base, p));
    ViewOf(mem, root, base, pages, From(mem, root, base, p), f);
  }

  /** There the search does not go beyond the first fit. */
  lemma {:induction false} StopsFrom(mem: Mem, root: bv64, base: bv64, pages: nat, p: nat, f: nat)
    requires SelfMapped(mem, root) && IsIndex(base) && IsFirstFit(mem, root, base, f, pages)
    requires pages < TABLE && p <= f < 2 * DIRECTORY
    requires From(mem, root, base, p).page == p && NoFaults(mem, root, base, p)
    ensures var (x, y, z) := Raw(From(mem, root, base, p));
      && x <= TABLE && y <= TABLE
      && (var r := Search(mem, root, base, pages, x, y, z); r.Found? ==> Linear(r.x, r.y, r.z) <= f)
    decreases f - p, 1
  {
    assert !Taken(mem, root, base, f);
    hide SelfMapped, IsIndex, Raw, From, Linear, Round, Advance, NoneBelow, Fits, Sane, Next, View, Taken, Harmless;
    var h := From(mem, root, base, p);
    RawNames(h);
    if View(mem, root, base, h) == Fault {
      FaultCrashes(mem, root, base, pages, h);
    } else if p == f {
      ViewBelow(mem, root, base, pages, p, f);
      StopsAt(mem, root, base, pages, h);
    } else {
      StopsLater(mem, root, base, pages, p, f);
    }
  }

  lemma {:induction false} StopsLater(mem: Mem, root: bv64, base: bv64, pages: nat, p: nat, f: nat)
    requires SelfMapped(mem, root) && IsIndex(base) && IsFirstFit(mem, root, base, f, pages)
    requires pages < TABLE && p < f < 2 * DIRECTORY
    requires From(mem, root, base, p).page == p && NoFaults(mem, root, base, p)
    requires View(mem, root, base, From(mem, root, base, p)) != Fault
    ensures var (x, y, z) := Raw(From(mem, root, base, p));
      && x <= TABLE && y <= TABLE
      && (var r := Search(mem, root, base, pages, x, y, z); r.Found? ==> Linear(r.x, r.y, r.z) <= f)
    decreases f - p, 0
  {
    hide SelfMapped, IsIndex, Raw, From, Linear, Round, Advance, Stops, NoneBelow, FitsInside, Sane, Next, View;
    hide Taken, Harmless, Going;
    var h := From(mem, root, base, p);
    var (x, y, z) := Raw(h);
    RawNames(h);
    StillGoing(x, y, z);
    RoundBefore(mem, root, base, pages, x, y, z, f);
    RoundStops(mem, root, base, pages, h);
    var r := Round(mem, root, base, pages, x, y, z);
    if r.Blocked? {
      NextHead(mem, root, base, p, r.i);
      RawNext(h, r.i);
      NextIs(h, p + r.i);
      StopsFrom(mem, root, base, pages, p + r.i, f);
    }
  }

  lemma StopsBy(mem: Mem, root: bv64, base: bv64, pages: nat, f: nat)
    requires SelfMapped(mem, root) && IsIndex(base) && IsFirstFit(mem, root, base, f, pages)
    requires pages < TABLE && f < 2 * DIRECTORY
    ensures var r := Search(mem, root, base, pages, 0, 0, 0); r.Found? ==> Linear(r.x, r.y, r.z) <= f
  {
    hide IsFirstFit, SelfMapped, IsIndex, Search, View, Taken, Linear;
    FromZero(mem, root, base);
    StopsFrom(mem, root, base, pages, 0, f);
  }

  // ---------- Behind them ----------

  /** If all heads are sound the search does come to the first fit. */
  lemma HeadAtFit(mem: Mem, root: bv64, base: bv64, pages: nat, f: nat)
    requires IsFirstFit(mem, root, base, f, pages) && AllSound(mem, root, base, pages, 0, f)
    ensures From(mem, root, base, f).page == f
  {
    hide Taken, View, NamesPage, Next;
    BehindTaken(mem, root, base, pages, f);
    if f > 0 {
      var h := From(mem, root, base, f - 1);
      NextIs(h, f);
      if h.page == f - 1 {
        assert Sound(mem, root, base, pages, h, f);
        assert forall k :: f <= k < f + pages ==> !Taken(mem, root, base, k);
      }
    }
  }

  lemma EvenNames(h: Head)
    requires Sane(h) && 2 * DIRECTORY <= h.page && h.page / DIRECTORY % 2 == 0 && h.page % DIRECTORY < TABLE
    ensures !NamesPage(h)
  {
    PartsOf(h.page);
  }

  /** A first fit in the first table of an even directory, except the first directory, is never returned. */
  lemma NeverInEvenDirectory(mem: Mem, root: bv64, base: bv64, pages: nat, f: nat)
    requires SelfMapped(mem, root) && IsIndex(base) && IsFirstFit(mem, root, base, f, pages) && pages < 0x1_0000
    requires 2 * DIRECTORY <= f && f / DIRECTORY % 2 == 0 && f % DIRECTORY < TABLE
    ensures !Returns(Search(mem, root, base, pages, 0, 0, 0), base, f)
  {
    hide IsFirstFit, Returns, SelfMapped, IsIndex, Search, From, View, NamesPage, Taken;
    ReturnsFirstFitExactly(mem, root, base, pages, f);
    if AllSound(mem, root, base, pages, 0, f) {
      HeadAtFit(mem, root, base, pages, f);
      EvenNames(From(mem, root, base, f));
    }
  }

  // ---------- An L4 entry filled from its beginning ----------

  ghost predicate FullBelow(mem: Mem, root: bv64, base: bv64, f: nat)
  {
    forall p :: 0 <= p < f ==> Taken(mem, root, base, p)
  }

  /** The head at page p of an entry full up to there. */
  function Filled(p: nat): Head
  {
    Head(p, 0 < p && p % TABLE == 0)
  }

  lemma FilledNext(p: nat)
    ensures Sane(Filled(p)) && Next(Filled(p), 1) == Filled(p + 1)
  {
  }

  /** On a page taken behind pages taken, even if the probe looks a directory below, it finds an entry. */
  lemma FilledView(mem: Mem, root: bv64, base: bv64, p: nat)
    requires FullBelow(mem, root, base, p + 1)
    ensures View(mem, root, base, Filled(p)).Entry?
  {
    var h := Filled(p);
    hide Walk, Word, Read, Late, View, TableThere, Taken;
    ReadIs(mem, root, base, p);
    ThereBefore(mem, root, base, p);
    if Late(h) {
      LateYBefore(h);
      ThereBefore(mem, root, base, p - 1);
      LateYThere(mem, root, base, p - 1, h);
      FilledLate(mem, root, base, p);
    } else if h.left {
      ThereBefore(mem, root, base, p - 1);
      ViewOfLeft(mem, root, base, h);
    } else {
      ViewOfRest(mem, root, base, h);
    }
  }

  lemma FilledLate(mem: Mem, root: bv64, base: bv64, p: nat)
    requires Late(Filled(p)) && Taken(mem, root, base, p) && Taken(mem, root, base, p - DIRECTORY)
    requires var d := p / DIRECTORY;
      0 < d && Walk(mem, root, [base, Word(d)]) != None && Walk(mem, root, [base, Word(d), Word(0)]) != None
    ensures View(mem, root, base, Filled(p)).Entry?
  {
    hide Walk, Word, Read, TableThere, Taken, PathAt;
    ReadIs(mem, root, base, p);
    ReadIs(mem, root, base, p - DIRECTORY);
    ThereBefore(mem, root, base, p);
    ThereBefore(mem, root, base, p - DIRECTORY);
    assert PathAt(base, p - DIRECTORY)[..2] == [base, Word(p / DIRECTORY - 1)] by { DirectoryBelow(base, p); }
  }

  lemma DirectoryBelow(base: bv64, p: nat)
    requires DIRECTORY <= p
    ensures PathAt(base, p - DIRECTORY)[..2] == [base, Word(p / DIRECTORY - 1)]
  {
    hide Word;
  }

  lemma StepOn(mem: Mem, root: bv64, base: bv64, pages: nat, h: Head)
    requires SelfMapped(mem, root) && IsIndex(base) && Sane(h) && h.page < PAGES && View(mem, root, base, h).Entry?
    ensures var (x, y, z) := Raw(h); var (x', y', z') := Raw(Next(h, 1));
      && x <= TABLE && y <= TABLE && x' <= TABLE && y' <= TABLE && Sane(Next(h, 1))
      && Search(mem, root, base, pages, x, y, z) == Search(mem, root, base, pages, x', y', z')
  {
    hide SelfMapped, IsIndex, View, Raw, Probe, Advance, Linear, Sane, Next;
    RawNames(h);
    RawNext(h, 1);
    RawNames(Next(h, 1));
    ViewIs(mem, root, base, h);
    var (x, y, z) := Raw(h);
    StillGoing(x, y, z);
    assert Round(mem, root, base, pages, x, y, z) == Blocked(1);
  }

  /** Whatever the request, the search steps through the full part page by page. */
  lemma {:induction false} FilledUpTo(mem: Mem, root: bv64, base: bv64, pages: nat, p: nat)
    requires SelfMapped(mem, root) && IsIndex(base) && FullBelow(mem, root, base, p) && p <= PAGES
    ensures From(mem, root, base, p) == Filled(p)
    ensures var (x, y, z) := Raw(Filled(p));
      && x <= TABLE && y <= TABLE
      && Search(mem, root, base, pages, 0, 0, 0) == Search(mem, root, base, pages, x, y, z)
    decreases p
  {
    hide SelfMapped, IsIndex, View, Raw, Search, Taken, Next, Filled;
    if p > 0 {
      FilledNext(p - 1);
      FilledUpTo(mem, root, base, pages, p - 1);
      FilledView(mem, root, base, p - 1);
      FilledPage(p - 1);
      StepOn(mem, root, base, pages, Filled(p - 1));
    } else {
      FilledZero();
    }
  }

  lemma FilledPage(p: nat)
    ensures Filled(p).page == p
  {
  }

  lemma FilledZero()
    ensures Filled(0) == Head(0, false) && Raw(Filled(0)) == (0, 0, 0)
  {
  }

  lemma FilledNames(f: nat)
    ensures NamesPage(Filled(f)) && (Late(Filled(f)) ==> f / DIRECTORY % 2 == 1) <==>
      && (0 < f && f % TABLE == 0 ==> f / TABLE % 2 == 1)
      && !(2 * DIRECTORY <= f && f / DIRECTORY % 2 == 0 && f % DIRECTORY <= TABLE)
  {
    PartsOf(f);
  }

  /** If everything below it is taken, the first fit is returned exactly if it is not the first page of a table that
      is missing or even, and neither in the first table of an even directory nor the first page behind that,
      except in the first directory. */
  lemma FilledExactly(mem: Mem, root: bv64, base: bv64, pages: nat, f: nat)
    requires SelfMapped(mem, root) && IsIndex(base) && IsFirstFit(mem, root, base, f, pages) && pages < 0x1_0000
    requires FullBelow(mem, root, base, f)
    ensures Returns(Search(mem, root, base, pages, 0, 0, 0), base, f) <==>
      && (0 < f && f % TABLE == 0 ==> TableThere(mem, root, base, f) && f / TABLE % 2 == 1)
      && !(2 * DIRECTORY <= f && f / DIRECTORY % 2 == 0 && f % DIRECTORY <= TABLE)
  {
    hide Returns, SelfMapped, IsIndex, Search, From, View, NamesPage, Taken, Late, TableThere, NoneBelow;
    ReturnsFirstFitExactly(mem, root, base, pages, f);
    forall p | 0 <= p < f ensures Sound(mem, root, base, pages, From(mem, root, base, p), f) {
      FilledUpTo(mem, root, base, pages, p);
      FilledView(mem, root, base, p);
    }
    FilledUpTo(mem, root, base, pages, f);
    FilledNames(f);
    var h := Filled(f);
    if Late(h) ==> f / DIRECTORY % 2 == 1 {
      ViewOf(mem, root, base, pages, h, f);
    } else {
      assert !NamesPage(h) by { NamesLate(h); }
    }
  }

  lemma NamesLate(h: Head)
    requires Late(h) && h.page / DIRECTORY % 2 != 1
    ensures !NamesPage(h)
  {
  }
}
