// The frame allocator on values: a buffer of frames in front of a sorted list of regions.
// lib/kernel/memory/pagination/FrameAllocator.cpp
module FrameSpec {
  import opened Options

  const PAGE := 0x1000
  const MAX_BUFFER_FRAMES := 64
  const TWO_64 := 0x1_0000_0000_0000_0000

  /** memory_space */
  datatype Region = Region(base: int, size: int)

  // ---------- The frames a region stands for ----------

  /** n frames from address b on. */
  function FramesIn(b: int, n: nat): multiset<int>
    decreases n
  {
    if n == 0 then multiset{} else multiset{b} + FramesIn(b + PAGE, n - 1)
  }

  predicate Aligned(r: Region)
  {
    r.base % PAGE == 0 && r.size % PAGE == 0 && 0 <= r.size
  }

  function RegionFrames(r: Region): multiset<int>
    requires Aligned(r)
  {
    FramesIn(r.base, r.size / PAGE)
  }

  ghost predicate AllAligned(l: seq<Region>)
  {
    forall i :: 0 <= i < |l| ==> Aligned(l[i])
  }

  function Frames(l: seq<Region>): multiset<int>
    requires AllAligned(l)
  {
    if l == [] then multiset{} else RegionFrames(l[0]) + Frames(l[1..])
  }

  /** What freeMemory() adds up. */
  function Total(l: seq<Region>): int
  {
    if l == [] then 0 else l[0].size + Total(l[1..])
  }

  lemma FramesInFirst(b: int, n: nat)
    ensures n > 0 ==> FramesIn(b, n) == multiset{b} + FramesIn(b + PAGE, n - 1)
    ensures FramesIn(b, 0) == multiset{}
  {
  }

  lemma {:induction false} FramesInSplit(b: int, n: nat, m: nat)
    ensures FramesIn(b, n + m) == FramesIn(b, n) + FramesIn(b + n * PAGE, m)
    decreases n
  {
    hide FramesIn;
    FramesInFirst(b, n);
    if n > 0 {
      FramesInFirst(b, n + m);
      FramesInSplit(b + PAGE, n - 1, m);
      assert b + PAGE + (n - 1) * PAGE == b + n * PAGE;
    }
  }

  lemma {:induction false} FramesInHas(b: int, n: nat, x: int)
    requires b % PAGE == 0
    ensures FramesIn(b, n)[x] == if b <= x < b + n * PAGE && x % PAGE == 0 then 1 else 0
    decreases n
  {
    if n > 0 {
      FramesInHas(b + PAGE, n - 1, x);
    }
  }

  lemma {:induction false} FramesInCount(b: int, n: nat)
    ensures |FramesIn(b, n)| == n
    decreases n
  {
    if n > 0 {
      FramesInCount(b + PAGE, n - 1);
    }
  }

  /** freeMemory() is the page size times the number of listed frames. */
  lemma {:induction false} TotalCountsFrames(l: seq<Region>)
    requires AllAligned(l)
    ensures Total(l) == PAGE * |Frames(l)|
  {
    if l != [] {
      TotalCountsFrames(l[1..]);
      FramesInCount(l[0].base, l[0].size / PAGE);
    }
  }

  // ---------- list_push ----------

  /** The merge loop behind one node: lib/kernel/memory/pagination/FrameAllocator.cpp:24-31. */
  function Merge(r: Region, rest: seq<Region>): seq<Region>
    decreases |rest|
  {
    if rest != [] && r.base + r.size >= rest[0].base
    then Merge(Region(r.base, rest[0].base + rest[0].size - r.base), rest[1..])
    else [r] + rest
  }

  /** list_push: lib/kernel/memory/pagination/FrameAllocator.cpp:16-34. */
  function Push(l: seq<Region>, n: Region): seq<Region>
  {
    if l == [] || l[0].base > n.base then [n] + l else Merge(l[0], Push(l[1..], n))
  }

  ghost predicate Sorted(l: seq<Region>)
  {
    AllAligned(l) && forall i, j :: 0 <= i < j < |l| ==> l[i].base + l[i].size <= l[j].base
  }

  ghost predicate Above(l: seq<Region>, lo: int)
  {
    forall i :: 0 <= i < |l| ==> lo <= l[i].base
  }

  predicate Apart(r: Region, n: Region)
  {
    n.base + n.size <= r.base || r.base + r.size <= n.base
  }

  /** n overlaps no region of the list, and no emptied node's base lies strictly inside it. */
  ghost predicate AllApart(l: seq<Region>, n: Region)
  {
    forall i :: 0 <= i < |l| ==> Apart(l[i], n)
  }

  lemma SortedTail(l: seq<Region>)
    requires Sorted(l) && l != []
    ensures Sorted(l[1..]) && Above(l[1..], l[0].base + l[0].size)
  {
  }

  lemma SortedCons(r: Region, l: seq<Region>)
    requires Sorted(l) && Aligned(r) && Above(l, r.base + r.size)
    ensures Sorted([r] + l) && Frames([r] + l) == RegionFrames(r) + Frames(l) && Total([r] + l) == r.size + Total(l)
  {
    assert ([r] + l)[1..] == l;
  }

  lemma Touching(r: Region, q: Region, m: Region)
    requires Aligned(r) && Aligned(q) && q.base == r.base + r.size && m == Region(r.base, r.size + q.size)
    ensures Aligned(m) && RegionFrames(m) == RegionFrames(r) + RegionFrames(q)
  {
    FramesInSplit(r.base, r.size / PAGE, q.size / PAGE);
    assert m.size / PAGE == r.size / PAGE + q.size / PAGE;
  }

  lemma MergeRest(l: seq<Region>)
    requires AllAligned(l)
    ensures l != [] ==> Frames(l) == RegionFrames(l[0]) + Frames(l[1..]) && Total(l) == l[0].size + Total(l[1..])
  {
  }

  lemma {:induction false} MergeExact(r: Region, l: seq<Region>)
    requires Sorted(l) && Aligned(r) && Above(l, r.base + r.size)
    ensures Sorted(Merge(r, l)) && Above(Merge(r, l), r.base)
    ensures Frames(Merge(r, l)) == RegionFrames(r) + Frames(l)
    ensures Total(Merge(r, l)) == r.size + Total(l)
    decreases |l|
  {
    hide FramesIn, RegionFrames, Frames, Total;
    MergeRest(l);
    if l != [] && r.base + r.size >= l[0].base {
      SortedTail(l);
      var m := Region(r.base, l[0].base + l[0].size - r.base);
      Touching(r, l[0], m);
      MergeExact(m, l[1..]);
    } else {
      SortedCons(r, l);
    }
  }

  /** list_push keeps the list sorted and disjoint and adds exactly the frames, and the bytes, of the new
      region, whatever the merge loops at each level do. */
  lemma {:induction false} PushExact(l: seq<Region>, n: Region, lo: int)
    requires Sorted(l) && Aligned(n) && 0 < n.size && AllApart(l, n) && Above(l, lo) && lo <= n.base
    ensures Sorted(Push(l, n)) && Above(Push(l, n), lo)
    ensures Frames(Push(l, n)) == Frames(l) + RegionFrames(n)
    ensures Total(Push(l, n)) == Total(l) + n.size
  {
    if l == [] || l[0].base > n.base {
      assert l != [] ==> Apart(l[0], n);
      forall i | 0 <= i < |l| ensures n.base + n.size <= l[i].base { assert Apart(l[i], n); }
      SortedCons(n, l);
    } else {
      SortedTail(l);
      assert Apart(l[0], n);
      assert AllApart(l[1..], n);
      PushExact(l[1..], n, l[0].base + l[0].size);
      MergeExact(l[0], Push(l[1..], n));
    }
  }

  // ---------- What list_push merges ----------

  /** Every node that starts below b ends short of its successor. */
  ghost predicate GapsBelow(l: seq<Region>, b: int)
  {
    forall k :: 0 <= k < |l| - 1 && l[k].base < b ==> l[k].base + l[k].size < l[k + 1].base
  }

  lemma {:induction false} MergeGaps(r: Region, l: seq<Region>, b: int)
    requires GapsBelow(l, b)
    ensures GapsBelow(Merge(r, l), b)
    decreases |l|
  {
    if l != [] && r.base + r.size >= l[0].base {
      forall k | 0 <= k < |l[1..]| - 1 && l[1..][k].base < b
        ensures l[1..][k].base + l[1..][k].size < l[1..][k + 1].base
      {
        assert l[1..][k] == l[k + 1] && l[1..][k + 1] == l[k + 2];
      }
      MergeGaps(Region(r.base, l[0].base + l[0].size - r.base), l[1..], b);
    } else {
      var m := [r] + l;
      forall k | 0 <= k < |m| - 1 && m[k].base < b ensures m[k].base + m[k].size < m[k + 1].base {
        assert m[k + 1] == l[k] && (k > 0 ==> m[k] == l[k - 1]);
      }
    }
  }

  lemma {:induction false} PushGaps(l: seq<Region>, n: Region)
    requires Sorted(l)
    ensures GapsBelow(Push(l, n), n.base)
  {
    if l == [] || l[0].base > n.base {
      var m := [n] + l;
      forall k | 0 <= k < |m| - 1 ensures m[k].base >= n.base {
        assert k > 0 ==> m[k] == l[k - 1];
      }
    } else {
      SortedTail(l);
      PushGaps(l[1..], n);
      MergeGaps(l[0], Push(l[1..], n), n.base);
    }
  }

  /** list_push coalesces: in the list it leaves no node in front of the new base, the one that took the new region in
      included, touches its successor. */
  lemma PushCoalesces(l: seq<Region>, n: Region, k: nat)
    requires Sorted(l) && k + 1 < |Push(l, n)| && Push(l, n)[k].base < n.base
    ensures Push(l, n)[k].base + Push(l, n)[k].size < Push(l, n)[k + 1].base
  {
    hide Push;
    PushGaps(l, n);
  }

  // ---------- Exactly when list_push is exact ----------

  /** Bases rise along the list; regions may overlap. */
  ghost predicate Rising(l: seq<Region>)
  {
    AllAligned(l) && forall i, j :: 0 <= i < j < |l| ==> l[i].base <= l[j].base
  }

  lemma {:induction false} MergeRises(r: Region, l: seq<Region>)
    requires Rising(l) && Aligned(r) && Above(l, r.base)
    ensures Rising(Merge(r, l)) && Merge(r, l) != [] && Merge(r, l)[0].base == r.base && Above(Merge(r, l), r.base)
    ensures Total(Merge(r, l)) <= r.size + Total(l)
    decreases |l|
  {
    if l != [] && r.base + r.size >= l[0].base {
      MergeRises(Region(r.base, l[0].base + l[0].size - r.base), l[1..]);
    } else {
      assert ([r] + l)[1..] == l;
    }
  }

  lemma {:induction false} PushRises(l: seq<Region>, n: Region, lo: int)
    requires Rising(l) && Aligned(n) && Above(l, lo) && lo <= n.base
    ensures Rising(Push(l, n)) && Push(l, n) != [] && lo <= Push(l, n)[0].base <= n.base && Above(Push(l, n), lo)
    ensures Total(Push(l, n)) <= n.size + Total(l)
  {
    if l == [] || l[0].base > n.base {
      assert ([n] + l)[1..] == l;
    } else {
      PushRises(l[1..], n, l[0].base);
      MergeRises(l[0], Push(l[1..], n));
    }
  }

  /** r and the regions of the list, in this order, are disjoint. */
  ghost predicate SortedFrom(r: Region, l: seq<Region>)
  {
    Sorted(l) && Above(l, r.base + r.size)
  }

  /** A merge loop in front of which regions overlap leaves an overlap or cuts a region short. */
  lemma {:induction false} MergeSpoils(r: Region, l: seq<Region>)
    requires Rising(l) && Aligned(r) && Above(l, r.base) && !SortedFrom(r, l)
    ensures !Sorted(Merge(r, l)) || Total(Merge(r, l)) < r.size + Total(l)
    decreases |l|
  {
    hide Total, Sorted, SortedFrom;
    MergeRest(l);
    if l != [] && r.base + r.size >= l[0].base {
      var m := Region(r.base, l[0].base + l[0].size - r.base);
      MergeRises(m, l[1..]);
      if r.base + r.size == l[0].base {
        StillSpoilt(r, l, m);
        MergeSpoils(m, l[1..]);
      }
    } else {
      UnmergedSpoilt(r, l);
    }
  }

  lemma UnmergedSpoilt(r: Region, l: seq<Region>)
    requires Aligned(r) && !SortedFrom(r, l)
    ensures !Sorted([r] + l)
  {
    var all := [r] + l;
    assert forall i :: 0 <= i < |l| ==> all[i + 1] == l[i];
    assert all[0] == r;
  }

  lemma StillSpoilt(r: Region, l: seq<Region>, m: Region)
    requires Rising(l) && Aligned(r) && l != [] && r.base + r.size == l[0].base
    requires m == Region(r.base, r.size + l[0].size)
    ensures SortedFrom(m, l[1..]) ==> SortedFrom(r, l)
  {
    if SortedFrom(m, l[1..]) {
      forall i, j | 0 <= i < j < |l| ensures l[i].base + l[i].size <= l[j].base {
        assert l[j] == l[1..][j - 1];
        assert i > 0 ==> l[i] == l[1..][i - 1];
      }
    }
  }

  /** A region that overlaps one of the list, or covers an emptied node's base, is not pushed as it should. */
  lemma {:induction false} PushSpoils(l: seq<Region>, n: Region)
    requires Sorted(l) && Aligned(n) && 0 < n.size && !AllApart(l, n)
    ensures !Sorted(Push(l, n)) || Total(Push(l, n)) < Total(l) + n.size
  {
    if l[0].base > n.base {
      var i :| 0 <= i < |l| && !Apart(l[i], n);
      assert ([n] + l)[i + 1] == l[i];
    } else {
      var p := Push(l[1..], n);
      PushRises(l[1..], n, l[0].base);
      MergeRises(l[0], p);
      assert Total(l) == l[0].size + Total(l[1..]);
      hide Merge, Push, Total;
      if AllApart(l[1..], n) {
        assert !Apart(l[0], n);
        MergeSpoils(l[0], p);
      } else {
        PushSpoils(l[1..], n);
        if !Sorted(p) {
          MergeSpoils(l[0], p);
        }
      }
    }
  }

  /** Exactly when list_push keeps the list sorted and disjoint and raises the total by the new region's size:
      if the region overlaps none of the list, and covers no base of an emptied node that lingers. */
  lemma PushExactly(l: seq<Region>, n: Region)
    requires Sorted(l) && Aligned(n) && 0 < n.size
    ensures AllApart(l, n) <==> Sorted(Push(l, n)) && Total(Push(l, n)) == Total(l) + n.size
    ensures AllApart(l, n) <==> Sorted(Push(l, n)) && Frames(Push(l, n)) == Frames(l) + RegionFrames(n)
  {
    FramesInCount(n.base, n.size / PAGE);
    assert n.size == PAGE * |RegionFrames(n)|;
    hide Push, Frames, RegionFrames, Total;
    if AllApart(l, n) {
      PushExact(l, n, if l == [] || n.base < l[0].base then n.base else l[0].base);
    } else {
      PushSpoils(l, n);
      if Sorted(Push(l, n)) && Frames(Push(l, n)) == Frames(l) + RegionFrames(n) {
        TotalCountsFrames(Push(l, n));
        TotalCountsFrames(l);
      }
    }
  }

  /** What goes wrong otherwise: a region pushed over the base of an emptied node goes in front of it
      unmerged, and the next push behind them cuts it short there: frame 0x3000 is lost. */
  lemma StraddlingAnEmptyNodeLosesFrames()
    ensures var l := [Region(0x3000, 0)]; var n := Region(0x2000, 0x2000); var m := Region(0x8000, 0x1000);
      Push(l, n) == [n, Region(0x3000, 0)] && Push(Push(l, n), m) == [Region(0x2000, 0x1000), m]
  {
    var l, n, m := [Region(0x3000, 0)], Region(0x2000, 0x2000), Region(0x8000, 0x1000);
    assert Push([], m) == [m];
    assert Push(l, m) == Merge(l[0], [m]) == [l[0], m] by { assert l[1..] == []; }
    assert [n, l[0]][1..] == l;
    assert [l[0], m][1..] == [m];
    assert Merge(n, [l[0], m]) == Merge(Region(0x2000, 0x1000), [m]);
  }

  // ---------- The allocator ----------

  /** frame_buffer up to qtd_buffer, and the region list. */
  datatype Alloc = Alloc(buffer: seq<int>, regions: seq<Region>)

  function RoundDown(x: int): int
  {
    x - x % PAGE
  }

  /** r without its first page. */
  function Rest(r: Region): Region
  {
    Region(r.base + PAGE, r.size - PAGE)
  }

  /** loadBuffer's loop: lib/kernel/memory/pagination/FrameAllocator.cpp:48-60. */
  function Load(a: Alloc): Alloc
    decreases |a.regions|, MAX_BUFFER_FRAMES - |a.buffer|
  {
    if |a.buffer| >= MAX_BUFFER_FRAMES || a.regions == [] then a
    else
      var r := a.regions[0];
      if r.size < PAGE then Load(Alloc(a.buffer, a.regions[1..]))
      else Load(Alloc(a.buffer + [RoundDown(r.base)], [Rest(r)] + a.regions[1..]))
  }

  /** addMemorySpace's loop, filling the buffer first: FrameAllocator.cpp:75-79. */
  function Fill(buffer: seq<int>, r: Region): (seq<int>, Region)
    decreases r.size
  {
    if r.size > PAGE && |buffer| < MAX_BUFFER_FRAMES
    then Fill(buffer + [RoundDown(r.base)], Rest(r))
    else (buffer, r)
  }

  /** The region addMemorySpace works with, in 64-bit arithmetic: FrameAllocator.cpp:73-74. */
  function Trimmed(r: Region): Region
  {
    Region(RoundDown(r.base), RoundDown((r.size - r.base % PAGE) % TWO_64))
  }

  /** addMemorySpace: FrameAllocator.cpp:71-90. */
  function Add(a: Alloc, r: Region): Alloc
  {
    var (buffer, rest) := Fill(a.buffer, Trimmed(r));
    Alloc(buffer, if rest.size < PAGE then a.regions else Push(a.regions, rest))
  }

  /** allocate: a frame, or None where the kernel panics: FrameAllocator.cpp:92-101. */
  function Allocate(a: Alloc): (Alloc, Option<int>)
  {
    var l := if |a.buffer| <= MAX_BUFFER_FRAMES / 2 then Load(a) else a;
    if l.buffer == [] then (l, None)
    else (l.(buffer := l.buffer[..|l.buffer| - 1]), Some(l.buffer[|l.buffer| - 1]))
  }

  ghost predicate AllocOk(a: Alloc)
  {
    && |a.buffer| <= MAX_BUFFER_FRAMES && Sorted(a.regions)
    && forall i :: 0 <= i < |a.buffer| ==> a.buffer[i] % PAGE == 0
  }

  /** Every frame the allocator can still hand out. */
  function Free(a: Alloc): multiset<int>
    requires AllocOk(a)
  {
    multiset(a.buffer) + Frames(a.regions)
  }

  lemma FirstPage(r: Region)
    requires Aligned(r) && r.size >= PAGE
    ensures Aligned(Rest(r)) && RegionFrames(r) == multiset{r.base} + RegionFrames(Rest(r))
  {
    hide FramesIn;
    FramesInFirst(r.base, r.size / PAGE);
    assert (r.size - PAGE) / PAGE == r.size / PAGE - 1;
  }

  lemma NoPage(r: Region)
    requires Aligned(r) && r.size < PAGE
    ensures r.size == 0 && RegionFrames(r) == multiset{}
  {
  }

  /** One round of the load loop with the list l in front of it. */
  lemma HeadPage(l: seq<Region>)
    requires Sorted(l) && l != []
    ensures l[0].size < PAGE ==> Sorted(l[1..]) && Frames(l) == Frames(l[1..])
    ensures l[0].size >= PAGE ==>
      var m := [Rest(l[0])] + l[1..];
      Sorted(m) && Frames(l) == multiset{l[0].base} + Frames(m)
  {
    hide RegionFrames;
    SortedTail(l);
    if l[0].size >= PAGE {
      FirstPage(l[0]);
      SortedCons(Rest(l[0]), l[1..]);
    } else {
      NoPage(l[0]);
    }
  }

  lemma LoadRound(a: Alloc)
    requires AllocOk(a) && |a.buffer| < MAX_BUFFER_FRAMES && a.regions != []
    ensures a.regions[0].size < PAGE ==>
      var b := Alloc(a.buffer, a.regions[1..]); AllocOk(b) && Free(b) == Free(a)
    ensures a.regions[0].size >= PAGE ==>
      var b := Alloc(a.buffer + [RoundDown(a.regions[0].base)], [Rest(a.regions[0])] + a.regions[1..]);
      AllocOk(b) && Free(b) == Free(a)
  {
    var f := a.regions[0].base;
    assert f % PAGE == 0 by { assert Aligned(a.regions[0]); }
    assert RoundDown(f) == f;
    hide Frames, Sorted, Rest, RoundDown;
    HeadPage(a.regions);
    assert multiset(a.buffer + [f]) == multiset(a.buffer) + multiset{f};
  }

  /** Loading the buffer loses and invents no frame, and leaves it empty only if there is none anywhere. */
  lemma {:induction false} LoadExact(a: Alloc)
    requires AllocOk(a)
    ensures AllocOk(Load(a)) && Free(Load(a)) == Free(a)
    ensures |Load(a).buffer| < MAX_BUFFER_FRAMES ==> Load(a).regions == []
    ensures a.buffer <= Load(a).buffer
    decreases |a.regions|, MAX_BUFFER_FRAMES - |a.buffer|
  {
    hide Free, AllocOk;
    if |a.buffer| < MAX_BUFFER_FRAMES && a.regions != [] {
      LoadRound(a);
      var r := a.regions[0];
      if r.size < PAGE {
        LoadExact(Alloc(a.buffer, a.regions[1..]));
      } else {
        LoadExact(Alloc(a.buffer + [RoundDown(r.base)], [Rest(r)] + a.regions[1..]));
      }
    }
  }

  lemma {:induction false} FillExact(buffer: seq<int>, r: Region)
    requires |buffer| <= MAX_BUFFER_FRAMES && Aligned(r)
    requires forall i :: 0 <= i < |buffer| ==> buffer[i] % PAGE == 0
    ensures var (b, q) := Fill(buffer, r);
      && |b| <= MAX_BUFFER_FRAMES && Aligned(q) && (forall i :: 0 <= i < |b| ==> b[i] % PAGE == 0)
      && multiset(b) + RegionFrames(q) == multiset(buffer) + RegionFrames(r)
      && r.base <= q.base && q.base + q.size == r.base + r.size && (q.size == 0 <==> r.size == 0)
    decreases r.size
  {
    if r.size > PAGE && |buffer| < MAX_BUFFER_FRAMES {
      FirstPage(r);
      hide RegionFrames;
      FillExact(buffer + [RoundDown(r.base)], Rest(r));
    }
  }

  lemma TrimmedAligned(r: Region)
    requires r.base % PAGE == 0 && 0 <= r.size < TWO_64
    ensures Trimmed(r) == Region(r.base, RoundDown(r.size)) && Aligned(Trimmed(r))
    ensures RegionFrames(Trimmed(r)) == FramesIn(r.base, r.size / PAGE)
  {
    assert RoundDown(r.size) / PAGE == r.size / PAGE;
  }

  /** addMemorySpace of an aligned region adds exactly its floor(size / 4096) frames. */
  lemma AddExact(a: Alloc, r: Region)
    requires AllocOk(a) && r.base % PAGE == 0 && 0 <= r.size < TWO_64
    requires r.size < PAGE || AllApart(a.regions, Trimmed(r))
    ensures AllocOk(Add(a, r)) && Free(Add(a, r)) == Free(a) + FramesIn(r.base, r.size / PAGE)
  {
    assert AllAligned(a.regions);
    hide FramesIn, RegionFrames, Sorted, Frames, Push, Fill;
    var t := Trimmed(r);
    TrimmedAligned(r);
    FillExact(a.buffer, t);
    var (b, q) := Fill(a.buffer, t);
    if q.size >= PAGE {
      PushRest(a.regions, t, q);
      assert Add(a, r) == Alloc(b, Push(a.regions, q));
      var f := Frames(a.regions);
      assert multiset(b) + (f + RegionFrames(q)) == (multiset(b) + RegionFrames(q)) + f;
      assert (multiset(a.buffer) + RegionFrames(t)) + f == (multiset(a.buffer) + f) + RegionFrames(t);
    } else {
      NoPage(q);
      assert multiset(b) + RegionFrames(q) == multiset(b);
      assert Add(a, r) == Alloc(b, a.regions);
    }
  }

  lemma PushRest(l: seq<Region>, t: Region, q: Region)
    requires Sorted(l) && AllApart(l, t) && Aligned(q) && 0 < q.size
    requires t.base <= q.base && q.base + q.size == t.base + t.size
    ensures Sorted(Push(l, q)) && Frames(Push(l, q)) == Frames(l) + RegionFrames(q)
  {
    forall i | 0 <= i < |l| ensures Apart(l[i], q) {
      assert Apart(l[i], t);
    }
    PushExact(l, q, if l == [] || q.base < l[0].base then q.base else l[0].base);
  }

  /** allocate hands out one free frame and keeps the rest; it panics exactly when no frame is free. */
  lemma AllocateExact(a: Alloc)
    requires AllocOk(a)
    ensures AllocOk(Allocate(a).0)
    ensures Allocate(a).1 == None <==> Free(a) == multiset{}
    ensures match Allocate(a).1
      case None => Free(Allocate(a).0) == Free(a)
      case Some(f) => f in Free(a) && Free(Allocate(a).0) == Free(a) - multiset{f}
  {
    hide AllocOk, Free, Load;
    LoadExact(a);
    var l := if |a.buffer| <= MAX_BUFFER_FRAMES / 2 then Load(a) else a;
    if l.buffer == [] {
      NothingFree(l);
    } else {
      PopFrame(l);
    }
  }

  lemma NothingFree(a: Alloc)
    requires AllocOk(a) && a.buffer == [] && a.regions == []
    ensures Free(a) == multiset{}
  {
  }

  lemma PopFrame(a: Alloc)
    requires AllocOk(a) && a.buffer != []
    ensures var n := |a.buffer| - 1; var b := a.(buffer := a.buffer[..n]);
      AllocOk(b) && a.buffer[n] in Free(a) && Free(b) == Free(a) - multiset{a.buffer[n]}
  {
    hide Frames, Sorted;
    var n := |a.buffer| - 1;
    assert a.buffer == a.buffer[..n] + [a.buffer[n]];
    assert multiset(a.buffer) == multiset(a.buffer[..n]) + multiset{a.buffer[n]};
  }

  // ---------- Which frames, and in which order ----------

  /** k page addresses from b on. */
  function PagesFrom(b: int, k: nat): seq<int>
  {
    seq(k, i => b + i * PAGE)
  }

  /** addMemorySpace moves the first pages of a region into the buffer, in order, and stops only when 64 are buffered or
      one page is left, which always goes to the list. */
  lemma {:induction false} FillTakesFirst(buffer: seq<int>, r: Region)
    requires |buffer| <= 64 && Aligned(r)
    ensures var (b, q) := Fill(buffer, r); var k := |b| - |buffer|;
      && 0 <= k && b == buffer + PagesFrom(r.base, k) && q == Region(r.base + k * 0x1000, r.size - k * 0x1000)
      && (|b| == 64 || q.size <= 0x1000) && (0 < r.size ==> 0 < q.size)
    decreases r.size
  {
    if r.size > PAGE && |buffer| < MAX_BUFFER_FRAMES {
      var b1 := buffer + [r.base];
      assert RoundDown(r.base) == r.base;
      FillTakesFirst(b1, Rest(r));
      var k := |Fill(buffer, r).0| - |buffer|;
      assert b1 + PagesFrom(r.base + PAGE, k - 1) == buffer + PagesFrom(r.base, k);
    }
  }

  /** From slot n on the buffer holds frames from lo on, in rising order and below all that is listed. */
  ghost predicate Lowest(a: Alloc, n: nat, lo: int)
  {
    && (forall i :: n <= i < |a.buffer| ==> lo <= a.buffer[i])
    && (forall i, j :: n <= i < j < |a.buffer| ==> a.buffer[i] < a.buffer[j])
    && (forall i, k :: n <= i < |a.buffer| && 0 <= k < |a.regions| ==> a.buffer[i] < a.regions[k].base)
    && Above(a.regions, lo)
  }

  lemma {:induction false} LoadLowest(a: Alloc, lo: int)
    requires AllocOk(a) && Above(a.regions, lo)
    ensures Lowest(Load(a), |a.buffer|, lo)
    decreases |a.regions|, MAX_BUFFER_FRAMES - |a.buffer|
  {
    if |a.buffer| < MAX_BUFFER_FRAMES && a.regions != [] {
      LoadRound(a);
      SortedTail(a.regions);
      var r := a.regions[0];
      if r.size < PAGE {
        hide AllocOk, Lowest;
        LoadLowest(Alloc(a.buffer, a.regions[1..]), lo);
      } else {
        var b := Alloc(a.buffer + [RoundDown(r.base)], [Rest(r)] + a.regions[1..]);
        assert RoundDown(r.base) == r.base by { assert Aligned(r); }
        assert lo <= r.base && Above(b.regions, r.base + PAGE);
        hide AllocOk, Sorted, RoundDown, Rest;
        LoadLowest(b, r.base + PAGE);
        LoadExact(b);
        OneLower(Load(b), |a.buffer|, lo, r.base);
      }
    }
  }

  lemma OneLower(a: Alloc, n: nat, lo: int, f: int)
    requires Lowest(a, n + 1, f + PAGE) && lo <= f && n < |a.buffer| && a.buffer[n] == f
    ensures Lowest(a, n, lo)
  {
  }

  /** loadBuffer takes the lowest listed frames, in rising order: what it adds lies below all that stays listed. */
  lemma LoadTakesLowest(a: Alloc, i: nat)
    requires AllocOk(a) && |a.buffer| <= i < |Load(a).buffer|
    ensures forall k :: 0 <= k < |Load(a).regions| ==> Load(a).buffer[i] < Load(a).regions[k].base
    ensures forall j :: i < j < |Load(a).buffer| ==> Load(a).buffer[i] < Load(a).buffer[j]
  {
    hide Load;
    LoadLowest(a, if a.regions == [] then 0 else a.regions[0].base);
  }

  /** The buffer is a stack, and the list is asked exactly when 32 frames or fewer are left: above that the frame
      buffered last comes out and the list stays as it is, at or below it the buffer is filled up to 64 first, or the
      list is empty afterwards. */
  lemma AllocateRefills(a: Alloc, f: int)
    requires AllocOk(a)
    ensures |a.buffer| >= 32 ==>
      Allocate(Alloc(a.buffer + [f], a.regions)) == (Alloc(a.buffer, a.regions), Some(f))
    ensures |a.buffer| <= 32 ==> |Allocate(a).0.buffer| == 63 || Allocate(a).0.regions == []
  {
    hide Load, Free;
    LoadExact(a);
    var b := a.buffer + [f];
    assert b[..|b| - 1] == a.buffer;
  }

  // ---------- Unaligned regions ----------

  /** Every frame that the region stands for after trimming lies inside the region that was given. */
  ghost predicate TrimInside(r: Region)
    requires 0 <= r.base && 0 <= r.size < TWO_64
  {
    forall f :: f in RegionFrames(Trimmed(r)) ==> r.base <= f && f + PAGE <= r.base + r.size
  }

  lemma TrimHas(r: Region, f: int)
    requires 0 <= r.base && 0 <= r.size < TWO_64
    ensures Aligned(Trimmed(r))
    ensures var t := Trimmed(r); f in RegionFrames(t) <==> t.base <= f < t.base + t.size && f % PAGE == 0
  {
    var t := Trimmed(r);
    FramesInHas(t.base, t.size / PAGE, f);
    assert t.size / PAGE * PAGE == t.size;
  }

  /** Rounding the base down is harmless only if there is nothing to round or no page is left: otherwise the
      page in front of the base is taken in, or the 64-bit size wraps round. */
  lemma TrimInsideExactly(r: Region)
    requires 0 <= r.base && 0 <= r.size < TWO_64
    ensures Aligned(Trimmed(r))
    ensures TrimInside(r) <==> r.base % PAGE == 0 || r.base % PAGE <= r.size < r.base % PAGE + PAGE
  {
    hide RegionFrames;
    var t := Trimmed(r);
    var off := r.base % PAGE;
    TrimHas(r, t.base);
    if off == 0 || off <= r.size < off + PAGE {
      forall f | f in RegionFrames(t) ensures r.base <= f && f + PAGE <= r.base + r.size {
        TrimHas(r, f);
      }
    } else {
      assert r.size < off ==> r.size - off + TWO_64 == (r.size - off) % TWO_64;
      assert t.base in RegionFrames(t);
    }
  }
}
