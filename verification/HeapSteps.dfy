// The steps kernel_malloc and kernel_free are made of, and that each keeps the heap invariant.
module HeapSteps {
  import opened SizeClass
  import opened HeapState
  import opened HeapLinks

  predicate IsWhole(t: Tag)
  {
    t.splitLeft == 0 && t.splitRight == 0
  }

  // ---------- kernel_malloc: take a free tag ----------

  /** lib/kernel/memory/liballoc/liballoc.c:341-345 */
  function Taken(s: State, t: int): State
    requires IsFree(s.mem, t) && s.mem[t].index < |s.heads| == |s.complete|
  {
    var i := s.mem[t].index;
    var r := Remove(s, t);
    if IsWhole(s.mem[t]) then r.(complete := r.complete[i := r.complete[i] - 1]) else r
  }

  lemma TakenKeeps(s: State, t: int)
    requires Valid(s) && IsFree(s.mem, t)
    ensures s.mem[t].index < MAX_EXP && Inv(Taken(s, t), t)
  {
    assert LinkOk(s.mem, s.heads, s.clock, t);
    var r := Taken(s, t);
    RemoveLinks(s, t);
    SameChains(s.mem, r.mem, s.runs);
    TakenCounted(s, t);
    TakenShape(s.mem, t);
  }

  lemma TakenShape(mem: Mem, t: int)
    requires Classed(mem) && Coalesced(mem) && Tight(mem, 0) && IsFree(mem, t) && 0 !in mem
    ensures var m := Unlinked(mem, t); Classed(m) && Coalesced(m) && Tight(m, t)
  {
  }

  lemma TakenCounted(s: State, t: int)
    requires Counted(s.mem, s.complete) && |s.heads| == MAX_EXP && IsFree(s.mem, t) && s.mem[t].index < MAX_EXP
    ensures var r := Taken(s, t); Counted(r.mem, r.complete)
  {
    var r := Taken(s, t);
    forall i | 0 <= i < MAX_EXP ensures r.complete[i] == |CompleteTags(r.mem, i)| <= MAX_COMPLETE {
      assert CompleteTags(r.mem, i) == CompleteTags(s.mem, i) - {t};
    }
  }

  // ---------- kernel_malloc: a fresh page run ----------

  /** lib/kernel/memory/liballoc/liballoc.c:247-255 */
  function PagesFor(size: int): (pages: int)
    requires 0 <= size
    ensures pages >= 16 && size + 48 <= pages * 4096
    ensures pages > 16 ==> (pages - 1) * 4096 < size + 48
  {
    var usage := size + HEADER;
    var pages := usage / PAGE + (if usage % PAGE != 0 then 1 else 0);
    if pages < MIN_PAGES then MIN_PAGES else pages
  }

  /** The page layer's promise for a run of `pages` pages at g: it overlaps no run that is held. */
  ghost predicate Grantable(runs: map<int, int>, g: int, pages: int)
  {
    && 0 < g && g !in runs
    && forall b :: b in runs ==> b + runs[b] * PAGE <= g || g + pages * PAGE <= b
  }

  function Fresh(s: State, size: int, g: int): State
    requires 0 <= size
  {
    var pages := PagesFor(size);
    s.(mem := s.mem[g := Tag(size, pages * PAGE, -1, 0, 0, 0, 0, g, 0)], runs := s.runs[g := pages])
  }

  lemma FreshKeeps(s: State, size: int, g: int)
    requires Valid(s) && s.clock > 0 && 0 <= size && PagesFor(size) * PAGE < LIMIT
    requires Grantable(s.runs, g, PagesFor(size))
    ensures g !in s.mem && Inv(Fresh(s, size, g), g)
  {
    FreshAddress(s, size, g);
    var r := Fresh(s, size, g);
    FreshLinks(s.mem, r.mem, s.heads, s.clock, g);
    FreshChains(s, size, g);
    forall i | 0 <= i < MAX_EXP ensures CompleteTags(r.mem, i) == CompleteTags(s.mem, i) { }
    SameCounts(s.mem, r.mem, s.complete);
    FreshShape(s.mem, r.mem, s.runs, g);
  }

  lemma FreshAddress(s: State, size: int, g: int)
    requires Chains(s.mem, s.runs) && 0 <= size && Grantable(s.runs, g, PagesFor(size))
    ensures forall a :: a in s.mem ==> a != g && (a + s.mem[a].realSize <= g || g + PagesFor(size) * PAGE <= a)
  {
    forall a | a in s.mem ensures a != g && (a + s.mem[a].realSize <= g || g + PagesFor(size) * PAGE <= a) {
      assert ChainOk(s.mem, s.runs, a);
    }
  }

  lemma FreshLinks(mem: Mem, m: Mem, heads: seq<int>, clock: nat, g: int)
    requires Links(mem, heads, clock) && g !in mem && g != 0 && clock > 0
    requires g in m && m == mem[g := m[g]] && m[g].index == -1 && m[g].next == m[g].prev == 0 && m[g].age == 0
    ensures Links(m, heads, clock)
  {
    forall a | a in m ensures LinkOk(m, heads, clock, a) {
      if a in mem {
        assert LinkOk(mem, heads, clock, a);
      }
    }
    forall j | 0 <= j < MAX_EXP ensures HeadOk(m, heads, j) {
      assert HeadOk(mem, heads, j);
    }
  }

  lemma FreshChains(s: State, size: int, g: int)
    requires Chains(s.mem, s.runs) && 0 <= size && g != 0 && g !in s.mem && g !in s.runs
    ensures var r := Fresh(s, size, g); Chains(r.mem, r.runs)
  {
    var r := Fresh(s, size, g);
    forall a | a in r.mem ensures ChainOk(r.mem, r.runs, a) {
      if a in s.mem {
        assert ChainOk(s.mem, s.runs, a);
      }
    }
    forall b | b in r.runs ensures StartOk(r.mem, b) {
      if b in s.runs {
        assert StartOk(s.mem, b);
      }
    }
  }

  lemma FreshShape(mem: Mem, m: Mem, runs: map<int, int>, g: int)
    requires Classed(mem) && Coalesced(mem) && Tight(mem, 0) && Chains(mem, runs) && g !in mem
    requires g in m && m == mem[g := m[g]] && m[g].index == -1
    ensures Classed(m) && Coalesced(m) && Tight(m, g)
  {
  }

  // ---------- kernel_malloc: set the size, split off the rest ----------

  /** lib/kernel/memory/liballoc/liballoc.c:349-377 */
  function Placed(s: State, t: int, size: int): State
    requires t in s.mem && |s.heads| == MAX_EXP && 0 <= size
    requires HEADER + size <= s.mem[t].realSize < LIMIT
  {
    var sized := s.mem[t := s.mem[t].(size := size)];
    var remainder := s.mem[t].realSize - size - 2 * HEADER;
    if remainder > 0 && Exp(remainder) >= 0 then
      ClassBounds(remainder);
      Insert(s.(mem := Cut(sized, t)), t + HEADER + size, ClassOf(remainder))
    else s.(mem := sized)
  }

  /** Tags do not overlap: the lower of two ends before the higher starts. */
  lemma {:induction false} NoOverlap(mem: Mem, runs: map<int, int>, a: int, b: int)
    requires Runs(runs) && Chains(mem, runs) && a in mem && b in mem && a < b
    ensures a + mem[a].realSize <= b
    decreases b - mem[b].base
  {
    assert ChainOk(mem, runs, a) && ChainOk(mem, runs, b);
    if mem[a].base == mem[b].base {
      var c := mem[b].splitLeft;
      assert ChainOk(mem, runs, c);
      if a < c {
        NoOverlap(mem, runs, a, c);
      } else if c < a {
        NoOverlap(mem, runs, c, a);
      }
    }
  }

  lemma PlacedKeeps(s: State, t: int, size: int)
    requires Inv(s, t) && IsLive(s.mem, t) && 0 <= size && s.clock > 0
    requires HEADER + size <= s.mem[t].realSize
    requires LiveNeighbours(s.mem, t)
    ensures s.mem[t].realSize < LIMIT && Valid(Placed(s, t, size))
  {
    assert ChainOk(s.mem, s.runs, t);
    hide Inv, Valid, Insert, Cut;
    var sized := s.mem[t := s.mem[t].(size := size)];
    var s1 := s.(mem := sized);
    SizedKeeps(s, t, size);
    var remainder := s.mem[t].realSize - size - 2 * HEADER;
    if remainder >= 16 {
      assert LiveNeighbours(sized, t) && sized[t].size == size && sized[t].realSize == s.mem[t].realSize;
      SplitKeeps(s1, t);
      assert Placed(s, t, size) == Insert(s1.(mem := Cut(sized, t)), t + HEADER + size, ClassOf(remainder));
    } else {
      TightCloses(s1, t);
    }
  }

  lemma TightCloses(s: State, t: int)
    requires Inv(s, t) && t in s.mem && 0 <= s.mem[t].size
    requires HEADER + s.mem[t].size <= s.mem[t].realSize <= HEADER + s.mem[t].size + 63
    ensures Valid(s)
  {
  }

  lemma SplitKeeps(s: State, t: int)
    requires Inv(s, t) && IsLive(s.mem, t) && s.clock > 0 && 0 <= s.mem[t].size && s.mem[t].realSize < LIMIT
    requires 2 * HEADER + 16 + s.mem[t].size <= s.mem[t].realSize
    requires LiveNeighbours(s.mem, t)
    ensures 0 <= ClassOf(s.mem[t].realSize - s.mem[t].size - 2 * HEADER) < MAX_EXP
    ensures Valid(Insert(s.(mem := Cut(s.mem, t)), t + HEADER + s.mem[t].size,
                         ClassOf(s.mem[t].realSize - s.mem[t].size - 2 * HEADER)))
  {
    var c := s.(mem := Cut(s.mem, t));
    var n := t + HEADER + s.mem[t].size;
    var i := ClassOf(s.mem[t].realSize - s.mem[t].size - 2 * HEADER);
    CutKeeps(s, t);
    ClassBounds(s.mem[t].realSize - s.mem[t].size - 2 * HEADER);
    InsertKeeps(c, n, i);
    SameCounts(c.mem, Insert(c, n, i).mem, c.complete);
  }

  lemma SizedKeeps(s: State, t: int, size: int)
    requires Inv(s, t) && IsLive(s.mem, t)
    ensures Inv(s.(mem := s.mem[t := s.mem[t].(size := size)]), t)
  {
    var m := s.mem[t := s.mem[t].(size := size)];
    forall a | a in m ensures LinkOk(m, s.heads, s.clock, a) {
      assert LinkOk(s.mem, s.heads, s.clock, a);
    }
    forall j | 0 <= j < MAX_EXP ensures HeadOk(m, s.heads, j) {
      assert HeadOk(s.mem, s.heads, j);
    }
    SameChains(s.mem, m, s.runs);
    forall i | 0 <= i < MAX_EXP ensures CompleteTags(m, i) == CompleteTags(s.mem, i) { }
    SameCounts(s.mem, m, s.complete);
  }

  lemma CutFresh(s: State, t: int)
    requires Runs(s.runs) && Chains(s.mem, s.runs) && t in s.mem && 0 <= s.mem[t].size
    requires 2 * HEADER + s.mem[t].size <= s.mem[t].realSize
    ensures t > 0 && t + HEADER + s.mem[t].size !in s.mem
  {
    assert ChainOk(s.mem, s.runs, t);
    var n := t + HEADER + s.mem[t].size;
    if n in s.mem {
      NoOverlap(s.mem, s.runs, t, n);
    }
  }

  /** After the cut both halves are sound and only the new tail is not yet in a list. */
  lemma CutKeeps(s: State, t: int)
    requires Inv(s, t) && IsLive(s.mem, t) && s.clock > 0 && 0 <= s.mem[t].size
    requires 2 * HEADER + 16 + s.mem[t].size <= s.mem[t].realSize
    requires LiveNeighbours(s.mem, t)
    ensures t + HEADER + s.mem[t].size !in s.mem
    ensures Inv(s.(mem := Cut(s.mem, t)), t + HEADER + s.mem[t].size)
    ensures var n := t + HEADER + s.mem[t].size; var m := Cut(s.mem, t);
      IsLive(m, n) && LiveNeighbours(m, n) && m[n].splitLeft != 0
  {
    CutFresh(s, t);
    CutLinks(s.mem, s.heads, s.clock, t);
    CutChains(s.mem, s.runs, t);
    CutShape(s.mem, s.runs, t);
    var m := Cut(s.mem, t);
    assert ChainOk(s.mem, s.runs, t);
    forall i | 0 <= i < MAX_EXP ensures CompleteTags(m, i) == CompleteTags(s.mem, i) { }
    SameCounts(s.mem, m, s.complete);
  }

  lemma CutShape(mem: Mem, runs: map<int, int>, t: int)
    requires Chains(mem, runs) && Classed(mem) && Coalesced(mem) && Tight(mem, t) && IsLive(mem, t)
    requires 0 <= mem[t].size && t + HEADER + mem[t].size !in mem
    ensures var m := Cut(mem, t); Classed(m) && Coalesced(m) && Tight(m, t + HEADER + mem[t].size)
  {
    var m := Cut(mem, t);
    var n := t + HEADER + mem[t].size;
    assert ChainOk(mem, runs, t);
    forall a | a in m && m[a].splitRight in m ensures m[a].index == -1 || m[m[a].splitRight].index == -1 {
      if a in mem {
        assert ChainOk(mem, runs, a);
      }
    }
  }

  /** The neighbours of t are allocated. */
  ghost predicate LiveNeighbours(mem: Mem, t: int)
    requires t in mem
  {
    && (mem[t].splitLeft != 0 ==> IsLive(mem, mem[t].splitLeft))
    && (mem[t].splitRight != 0 ==> IsLive(mem, mem[t].splitRight))
  }

  /** Putting the open tag into the list of its class closes the invariant, but for its count. */
  lemma InsertKeeps(s: State, t: int, i: int)
    requires Inv(s, t) && IsLive(s.mem, t) && LiveNeighbours(s.mem, t)
    requires 0 <= i < MAX_EXP && HEADER <= s.mem[t].realSize && i == ClassOf(s.mem[t].realSize - HEADER)
    ensures var r := Insert(s, t, i);
      Chains(r.mem, r.runs) && Links(r.mem, r.heads, r.clock) && Classed(r.mem) && Coalesced(r.mem) && Tight(r.mem, 0)
    ensures forall j :: 0 <= j < MAX_EXP ==>
      CompleteTags(Insert(s, t, i).mem, j) ==
      CompleteTags(s.mem, j) + (if j == i && IsWhole(s.mem[t]) then {t} else {})
  {
    assert |s.heads| == MAX_EXP && t in s.mem;
    hide Links, Chains, Coalesced, Counted;
    var r := Insert(s, t, i);
    InsertLinks(s, t, i);
    InsertChains(s, t, i);
    InsertCoalesced(s, t, i);
  }

  lemma InsertChains(s: State, t: int, i: int)
    requires Chains(s.mem, s.runs) && 0 <= i < |s.heads|
    ensures Chains(Insert(s, t, i).mem, s.runs)
  {
    SameChains(s.mem, Insert(s, t, i).mem, s.runs);
  }

  lemma InsertCoalesced(s: State, t: int, i: int)
    requires Chains(s.mem, s.runs) && Coalesced(s.mem) && t in s.mem && LiveNeighbours(s.mem, t) && 0 <= i < |s.heads|
    ensures Coalesced(Insert(s, t, i).mem)
  {
    var m := Insert(s, t, i).mem;
    assert ChainOk(s.mem, s.runs, t);
    forall a | a in m && m[a].splitRight in m ensures m[a].index == -1 || m[m[a].splitRight].index == -1 {
      assert ChainOk(s.mem, s.runs, a);
    }
  }

  // ---------- kernel_free: melt into free neighbours ----------

  /** lib/kernel/memory/liballoc/liballoc.c:432-433 */
  function MeltedLeft(s: State, t: int): State
    requires t in s.mem && IsFree(s.mem, s.mem[t].splitLeft) && s.mem[t].splitLeft != t
    requires s.mem[s.mem[t].splitLeft].index < |s.heads|
  {
    Remove(s.(mem := Merged(s.mem, s.mem[t].splitLeft, t)), s.mem[t].splitLeft)
  }

  lemma MeltLeftKeeps(s: State, t: int)
    requires Inv(s, t) && IsLive(s.mem, t) && IsFree(s.mem, s.mem[t].splitLeft)
    ensures s.mem[t].splitLeft != t && s.mem[s.mem[t].splitLeft].index < MAX_EXP
    ensures Inv(MeltedLeft(s, t), s.mem[t].splitLeft) && IsLive(MeltedLeft(s, t).mem, s.mem[t].splitLeft)
  {
    var l := s.mem[t].splitLeft;
    assert ChainOk(s.mem, s.runs, t) && LinkOk(s.mem, s.heads, s.clock, l);
    var c := s.(mem := Merged(s.mem, l, t));
    MergeLinks(s.mem, s.heads, s.clock, l, t);
    MergeChains(s.mem, s.runs, l, t);
    RemoveLinks(c, l);
    var r := Remove(c, l);
    SameChains(c.mem, r.mem, s.runs);
    MeltShape(s.mem, r.mem, s.runs, l, t);
    forall i | 0 <= i < MAX_EXP ensures CompleteTags(r.mem, i) == CompleteTags(s.mem, i) {
      MeltCounts(s.mem, r.mem, s.runs, l, t, i);
    }
    SameCounts(s.mem, r.mem, s.complete);
  }

  /** m is mem with tags l and r merged at l, out of every list. */
  ghost predicate MeltedTo(mem: Mem, m: Mem, l: int, r: int)
    requires l in mem && r in mem
  {
    && m.Keys == mem.Keys - {r}
    && (l in m ==> m[l].index == -1 && m[l].splitRight == mem[r].splitRight && m[l].splitLeft == mem[l].splitLeft)
    && forall a :: a in m && a != l ==>
      && m[a].index == mem[a].index && m[a].size == mem[a].size && m[a].realSize == mem[a].realSize
      && m[a].splitRight == mem[a].splitRight
      && m[a].splitLeft == (if a == mem[r].splitRight then l else mem[a].splitLeft)
  }

  lemma MeltShape(mem: Mem, m: Mem, runs: map<int, int>, l: int, r: int)
    requires Chains(mem, runs) && Classed(mem) && Coalesced(mem) && l in mem && r in mem && l != r
    requires Tight(mem, r) || Tight(mem, l)
    requires mem[l].splitRight == r && (IsFree(mem, l) || IsFree(mem, r)) && MeltedTo(mem, m, l, r)
    ensures Classed(m) && Coalesced(m) && Tight(m, l)
  {
    assert ChainOk(mem, runs, l) && ChainOk(mem, runs, r);
    forall a | a in m && m[a].splitRight in m ensures m[a].index == -1 || m[m[a].splitRight].index == -1 {
      assert ChainOk(mem, runs, a);
    }
  }

  lemma MeltCounts(mem: Mem, m: Mem, runs: map<int, int>, l: int, r: int, i: int)
    requires Chains(mem, runs) && l in mem && r in mem && l != r && mem[l].splitRight == r && MeltedTo(mem, m, l, r)
    requires 0 <= i
    ensures CompleteTags(m, i) == CompleteTags(mem, i)
  {
    assert ChainOk(mem, runs, l) && ChainOk(mem, runs, r);
    forall a ensures a in CompleteTags(m, i) <==> a in CompleteTags(mem, i) {
      if a in mem {
        assert ChainOk(mem, runs, a);
      }
    }
  }

  /** lib/kernel/memory/liballoc/liballoc.c:194-207 */
  function Absorbed(s: State, t: int): State
    requires t in s.mem && IsFree(s.mem, s.mem[t].splitRight)
    requires s.mem[s.mem[t].splitRight].index < |s.heads|
  {
    var r := Remove(s, s.mem[t].splitRight);
    r.(mem := Merged(r.mem, t, s.mem[t].splitRight))
  }

  lemma AbsorbKeeps(s: State, t: int)
    requires Inv(s, t) && IsLive(s.mem, t) && IsFree(s.mem, s.mem[t].splitRight)
    ensures s.mem[s.mem[t].splitRight].index < MAX_EXP
    ensures Inv(Absorbed(s, t), t) && IsLive(Absorbed(s, t).mem, t)
  {
    var r := s.mem[t].splitRight;
    assert ChainOk(s.mem, s.runs, t) && LinkOk(s.mem, s.heads, s.clock, r) && LinkOk(s.mem, s.heads, s.clock, t);
    var c := Remove(s, r);
    RemoveLinks(s, r);
    SameChains(s.mem, c.mem, s.runs);
    MergeLinks(c.mem, c.heads, c.clock, t, r);
    MergeChains(c.mem, c.runs, t, r);
    var m := Merged(c.mem, t, r);
    MeltShape(s.mem, m, s.runs, t, r);
    forall i | 0 <= i < MAX_EXP ensures CompleteTags(m, i) == CompleteTags(s.mem, i) {
      MeltCounts(s.mem, m, s.runs, t, r, i);
    }
    SameCounts(s.mem, m, s.complete);
  }

  // ---------- kernel_free: back into a list, or back to the page layer ----------

  /** A whole free run while five of its class stand by. */
  predicate GoesBack(s: State, t: int)
    requires t in s.mem && |s.complete| == MAX_EXP
    requires HEADER <= s.mem[t].realSize < LIMIT
  {
    ClassBounds(s.mem[t].realSize - HEADER);
    IsWhole(s.mem[t]) && s.complete[ClassOf(s.mem[t].realSize - HEADER)] == MAX_COMPLETE
  }

  /** lib/kernel/memory/liballoc/liballoc.c:446-482 */
  function Settled(s: State, t: int): State
    requires t in s.mem && |s.heads| == |s.complete| == MAX_EXP
    requires HEADER <= s.mem[t].realSize < LIMIT
  {
    ClassBounds(s.mem[t].realSize - HEADER);
    var i := ClassOf(s.mem[t].realSize - HEADER);
    if GoesBack(s, t) then s.(mem := s.mem - {t}, runs := s.runs - {t})
    else Insert(if IsWhole(s.mem[t]) then s.(complete := s.complete[i := s.complete[i] + 1]) else s, t, i)
  }

  lemma SettledKeeps(s: State, t: int)
    requires Inv(s, t) && IsLive(s.mem, t) && LiveNeighbours(s.mem, t)
    ensures HEADER <= s.mem[t].realSize < LIMIT && Valid(Settled(s, t))
    ensures GoesBack(s, t) ==> t in s.runs && s.mem[t].realSize == s.runs[t] * PAGE
  {
    assert ChainOk(s.mem, s.runs, t);
    ClassBounds(s.mem[t].realSize - HEADER);
    hide Links, Chains, Classed, Coalesced, Tight, Runs, Counted, Insert;
    if GoesBack(s, t) {
      ReleasedKeeps(s, t);
    } else {
      Kept(s, t, ClassOf(s.mem[t].realSize - HEADER));
    }
  }

  /** Filing the tag, counted first if it is a whole run. */
  lemma Kept(s: State, t: int, i: int)
    requires Inv(s, t) && IsLive(s.mem, t) && LiveNeighbours(s.mem, t)
    requires 0 <= i < MAX_EXP && HEADER <= s.mem[t].realSize && i == ClassOf(s.mem[t].realSize - HEADER)
    requires IsWhole(s.mem[t]) ==> s.complete[i] != MAX_COMPLETE
    ensures Valid(Insert(if IsWhole(s.mem[t]) then s.(complete := s.complete[i := s.complete[i] + 1]) else s, t, i))
  {
    InsertKeeps(s, t, i);
    if IsWhole(s.mem[t]) {
      assert t !in CompleteTags(s.mem, i);
      OneMoreCounted(s.mem, Insert(s, t, i).mem, s.complete, t, i);
    } else {
      SameCounts(s.mem, Insert(s, t, i).mem, s.complete);
    }
  }

  lemma OneMoreCounted(mem: Mem, m: Mem, complete: seq<int>, t: int, i: int)
    requires Counted(mem, complete) && 0 <= i < MAX_EXP
    requires t !in CompleteTags(mem, i) && complete[i] != MAX_COMPLETE
    requires forall j :: 0 <= j < MAX_EXP ==> CompleteTags(m, j) == CompleteTags(mem, j) + (if j == i then {t} else {})
    ensures Counted(m, complete[i := complete[i] + 1])
  {
    hide CompleteTags;
  }

  lemma ReleasedKeeps(s: State, t: int)
    requires Inv(s, t) && IsLive(s.mem, t) && IsWhole(s.mem[t])
    ensures Valid(s.(mem := s.mem - {t}, runs := s.runs - {t}))
  {
    var m := s.mem - {t};
    var runs := s.runs - {t};
    assert ChainOk(s.mem, s.runs, t) && LinkOk(s.mem, s.heads, s.clock, t);
    forall a | a in m ensures LinkOk(m, s.heads, s.clock, a) {
      assert LinkOk(s.mem, s.heads, s.clock, a);
    }
    forall j | 0 <= j < MAX_EXP ensures HeadOk(m, s.heads, j) {
      assert HeadOk(s.mem, s.heads, j);
    }
    ReleasedChains(s, t);
    forall i | 0 <= i < MAX_EXP ensures CompleteTags(m, i) == CompleteTags(s.mem, i) { }
    SameCounts(s.mem, m, s.complete);
  }

  lemma ReleasedChains(s: State, t: int)
    requires Runs(s.runs) && Chains(s.mem, s.runs) && t in s.mem && IsWhole(s.mem[t])
    ensures Chains(s.mem - {t}, s.runs - {t})
  {
    var m := s.mem - {t};
    var runs := s.runs - {t};
    assert ChainOk(s.mem, s.runs, t);
    forall a | a in m ensures ChainOk(m, runs, a) {
      assert ChainOk(s.mem, s.runs, a);
      if a < t {
        NoOverlap(s.mem, s.runs, a, t);
      } else {
        NoOverlap(s.mem, s.runs, t, a);
      }
    }
    forall b | b in runs ensures StartOk(m, b) {
      assert StartOk(s.mem, b);
    }
  }
}
