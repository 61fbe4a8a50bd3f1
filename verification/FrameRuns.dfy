// Whole runs of the frame allocator: frames are conserved and never handed out twice.
module FrameRuns {
  import opened FrameSpec
  import opened Options

  /** The allocator, the frames handed out and not given back, and all frames it was ever supplied with. */
  datatype World = World(a: Alloc, out: multiset<int>, all: multiset<int>)

  datatype Op = Supply(base: int, size: nat) | Take | GiveBack(f: int)

  ghost predicate Legal(w: World, op: Op)
  {
    match op
    case Supply(base, size) => base % PAGE == 0 && size < TWO_64 && w.all !! FramesIn(base, size / PAGE)
    case Take => true
    case GiveBack(f) => f in w.out
  }

  function After(w: World, op: Op): World
  {
    match op
    case Supply(base, size) => World(Add(w.a, Region(base, size)), w.out, w.all + FramesIn(base, size / PAGE))
    case Take =>
      var (b, f) := Allocate(w.a);
      World(b, if f == None then w.out else w.out + multiset{f.value}, w.all)
    case GiveBack(f) => World(Add(w.a, Region(f, PAGE)), w.out - multiset{f}, w.all)
  }

  /** An emptied node still in the list sits right behind a frame that was supplied. */
  ghost predicate Marked(l: seq<Region>, all: multiset<int>)
  {
    forall i :: 0 <= i < |l| && l[i].size == 0 ==> l[i].base - PAGE in all
  }

  /** Free and handed-out frames together are exactly the frames supplied, each once. */
  ghost predicate Conserved(w: World)
  {
    && AllocOk(w.a) && Free(w.a) + w.out == w.all
    && (forall f :: f in w.all ==> w.all[f] == 1 && f % PAGE == 0)
  }

  ghost predicate Good(w: World)
  {
    Conserved(w) && Marked(w.a.regions, w.all)
  }

  // ---------- Marks ----------

  lemma {:induction false} MergeMarked(r: Region, l: seq<Region>, all: multiset<int>)
    requires Marked([r] + l, all) && Sorted(l) && Aligned(r) && Above(l, r.base + r.size)
    ensures Marked(Merge(r, l), all)
    decreases |l|
  {
    if l != [] && r.base + r.size >= l[0].base {
      var m := Region(r.base, l[0].base + l[0].size - r.base);
      SortedTail(l);
      assert ([r] + l)[0] == r;
      forall i | 0 <= i < |[m] + l[1..]| && ([m] + l[1..])[i].size == 0
        ensures ([m] + l[1..])[i].base - PAGE in all
      {
        assert i > 0 ==> ([m] + l[1..])[i] == ([r] + l)[i + 1];
      }
      MergeMarked(m, l[1..], all);
    }
  }

  lemma {:induction false} PushMarked(l: seq<Region>, n: Region, all: multiset<int>)
    requires Marked(l, all) && Sorted(l) && Aligned(n) && 0 < n.size && AllApart(l, n)
    ensures Marked(Push(l, n), all)
  {
    if l != [] && l[0].base <= n.base {
      SortedTail(l);
      assert Apart(l[0], n);
      var p := Push(l[1..], n);
      forall i | 0 <= i < |l[1..]| ensures Apart(l[1..][i], n) { assert Apart(l[i + 1], n); }
      PushMarked(l[1..], n, all);
      PushExact(l[1..], n, l[0].base + l[0].size);
      assert l[0].size == 0 ==> l[0].base - PAGE in all;
      hide Push, Marked, Sorted, Frames, RegionFrames, Total;
      MarkedCons(l[0], p, all);
      MergeMarked(l[0], p, all);
    }
  }

  lemma MarkedCons(r: Region, l: seq<Region>, all: multiset<int>)
    requires Marked(l, all) && (r.size == 0 ==> r.base - PAGE in all)
    ensures Marked([r] + l, all)
  {
    var m := [r] + l;
    forall i | 0 <= i < |m| && m[i].size == 0 ensures m[i].base - PAGE in all {
      assert i > 0 ==> m[i] == l[i - 1];
    }
  }

  ghost predicate MarkedIn(l: seq<Region>, all: multiset<int>)
  {
    AllAligned(l) && Marked(l, all) && Frames(l) <= all
  }

  lemma HeadMarked(l: seq<Region>, all: multiset<int>)
    requires Sorted(l) && MarkedIn(l, all) && l != []
    ensures l[0].size < PAGE ==> MarkedIn(l[1..], all)
    ensures l[0].size >= PAGE ==> MarkedIn([Rest(l[0])] + l[1..], all)
  {
    hide Frames, Sorted, Rest, Aligned;
    HeadPage(l);
    if l[0].size >= PAGE {
      var m := [Rest(l[0])] + l[1..];
      AlignedOf(m);
      assert l[0].base in Frames(l) && Frames(m) <= Frames(l);
      RestMarked(l, all);
    } else {
      AlignedOf(l[1..]);
    }
  }

  lemma AlignedOf(l: seq<Region>)
    requires Sorted(l)
    ensures AllAligned(l)
  {
  }

  lemma RestMarked(l: seq<Region>, all: multiset<int>)
    requires l != [] && Marked(l, all) && l[0].base in all
    ensures Marked([Rest(l[0])] + l[1..], all)
  {
    var m := [Rest(l[0])] + l[1..];
    forall i | 0 <= i < |m| && m[i].size == 0 ensures m[i].base - PAGE in all {
      assert i > 0 ==> m[i] == l[i];
    }
  }

  lemma {:induction false} LoadMarked(a: Alloc, all: multiset<int>)
    requires AllocOk(a) && MarkedIn(a.regions, all)
    ensures MarkedIn(Load(a).regions, all)
    decreases |a.regions|, MAX_BUFFER_FRAMES - |a.buffer|
  {
    if |a.buffer| < MAX_BUFFER_FRAMES && a.regions != [] {
      LoadRound(a);
      HeadMarked(a.regions, all);
      hide AllocOk, Free, MarkedIn;
      var r := a.regions[0];
      if r.size < PAGE {
        LoadMarked(Alloc(a.buffer, a.regions[1..]), all);
      } else {
        LoadMarked(Alloc(a.buffer + [RoundDown(r.base)], [Rest(r)] + a.regions[1..]), all);
      }
    }
  }

  // ---------- Where new regions may lie ----------

  lemma {:induction false} RegionInFrames(l: seq<Region>, i: nat, f: int)
    requires AllAligned(l) && i < |l| && l[i].base <= f < l[i].base + l[i].size && f % PAGE == 0
    ensures f in Frames(l)
  {
    if i == 0 {
      FramesInHas(l[0].base, l[0].size / PAGE, f);
      assert l[0].size / PAGE * PAGE == l[0].size;
    } else {
      RegionInFrames(l[1..], i - 1, f);
    }
  }

  /** A nonempty region none of whose frames is listed, and that straddles no emptied node, is apart. */
  lemma NewIsApart(l: seq<Region>, r: Region)
    requires Sorted(l) && Aligned(r) && 0 < r.size && Frames(l) !! RegionFrames(r)
    requires forall i :: 0 <= i < |l| && l[i].size == 0 ==> l[i].base <= r.base || r.base + r.size <= l[i].base
    ensures AllApart(l, r)
  {
    forall i | 0 <= i < |l| ensures Apart(l[i], r) {
      if l[i].size > 0 && !Apart(l[i], r) {
        var f := if l[i].base < r.base then r.base else l[i].base;
        RegionInFrames(l, i, f);
        FramesInHas(r.base, r.size / PAGE, f);
      }
    }
  }

  // ---------- One step ----------

  /** Adding a region whose frames are neither free nor, if it is more than a page, known at all. */
  lemma AddKeeps(w: World, r: Region, all: multiset<int>)
    requires Good(w) && r.base % PAGE == 0 && 0 <= r.size < TWO_64 && w.all <= all
    requires Free(w.a) !! FramesIn(r.base, r.size / PAGE)
    requires r.size == PAGE || w.all !! FramesIn(r.base, r.size / PAGE)
    ensures AllocOk(Add(w.a, r)) && Free(Add(w.a, r)) == Free(w.a) + FramesIn(r.base, r.size / PAGE)
    ensures Marked(Add(w.a, r).regions, all)
  {
    var t := Trimmed(r);
    TrimmedAligned(r);
    if r.size >= PAGE {
      forall i | 0 <= i < |w.a.regions| && w.a.regions[i].size == 0
        ensures w.a.regions[i].base <= t.base || t.base + t.size <= w.a.regions[i].base
      {
        NoStraddle(w, r, i);
      }
      assert Frames(w.a.regions) !! RegionFrames(t) by {
        assert Frames(w.a.regions) <= Free(w.a);
      }
      NewIsApart(w.a.regions, t);
    }
    AddExact(w.a, r);
    AddMarked(w.a, r, all);
  }

  lemma NoStraddle(w: World, r: Region, i: nat)
    requires Good(w) && r.base % PAGE == 0 && PAGE <= r.size < TWO_64
    requires r.size == PAGE || w.all !! FramesIn(r.base, r.size / PAGE)
    requires i < |w.a.regions| && w.a.regions[i].size == 0
    ensures w.a.regions[i].base <= r.base || r.base + RoundDown(r.size) <= w.a.regions[i].base
  {
    MarkedAt(w, i);
    hide Good, FramesIn, RoundDown;
    var b := w.a.regions[i].base;
    if r.base < b < r.base + RoundDown(r.size) {
      PageBefore(r, b);
      FramesInHas(r.base, r.size / PAGE, b - PAGE);
    }
  }

  /** The page before a page strictly inside a region is one of the region's. */
  lemma PageBefore(r: Region, b: int)
    requires r.base % PAGE == 0 && b % PAGE == 0 && r.base < b < r.base + RoundDown(r.size)
    ensures r.base <= b - PAGE < r.base + r.size / PAGE * PAGE && (b - PAGE) % PAGE == 0 && r.size != PAGE
  {
  }

  lemma MarkedAt(w: World, i: nat)
    requires Good(w) && i < |w.a.regions| && w.a.regions[i].size == 0
    ensures w.a.regions[i].base % PAGE == 0 && w.a.regions[i].base - PAGE in w.all
  {
    hide Free;
    assert Aligned(w.a.regions[i]);
  }

  lemma AddMarked(a: Alloc, r: Region, all: multiset<int>)
    requires AllocOk(a) && Marked(a.regions, all) && r.base % PAGE == 0 && 0 <= r.size < TWO_64
    requires r.size < PAGE || AllApart(a.regions, Trimmed(r))
    ensures Marked(Add(a, r).regions, all)
  {
    var t := Trimmed(r);
    TrimmedAligned(r);
    FillExact(a.buffer, t);
    var (b, q) := Fill(a.buffer, t);
    if q.size >= PAGE {
      forall i | 0 <= i < |a.regions| ensures Apart(a.regions[i], q) {
        assert Apart(a.regions[i], t);
      }
      PushMarked(a.regions, q, all);
    }
  }

  /** Every legal operation conserves frames; a frame taken was free, so nobody else holds it. */
  lemma StepConserves(w: World, op: Op)
    requires Good(w) && Legal(w, op)
    ensures Good(After(w, op))
    ensures op.Take? && Allocate(w.a).1 != None ==>
      var f := Allocate(w.a).1.value; f !in w.out && f in w.all
    ensures op.Take? ==> (Allocate(w.a).1 == None <==> w.out == w.all)
  {
    match op {
      case Supply(base, size) =>
        SupplyKeeps(w, base, size);
      case Take =>
        TakeKeeps(w);
      case GiveBack(f) =>
        GiveBackKeeps(w, f);
    }
  }

  lemma SupplyKeeps(w: World, base: int, size: nat)
    requires Good(w) && Legal(w, Supply(base, size))
    ensures Good(After(w, Supply(base, size)))
  {
    var more := FramesIn(base, size / PAGE);
    assert Free(w.a) !! more by {
      assert Free(w.a) <= w.all;
    }
    AddKeeps(w, Region(base, size), w.all + more);
    forall f ensures more[f] > 0 ==> more[f] == 1 && f % PAGE == 0 && w.all[f] == 0 {
      FramesInHas(base, size / PAGE, f);
      assert f in w.all && f in more ==> f in w.all * more;
    }
  }

  lemma GiveBackKeeps(w: World, f: int)
    requires Good(w) && f in w.out
    ensures Good(After(w, GiveBack(f)))
  {
    var r := Region(f, PAGE);
    assert FramesIn(f, 1) == multiset{f};
    assert w.all[f] == Free(w.a)[f] + w.out[f];
    AddKeeps(w, r, w.all);
  }

  lemma TakeKeeps(w: World)
    requires Good(w)
    ensures Good(After(w, Take))
    ensures Allocate(w.a).1 == None <==> w.out == w.all
    ensures Allocate(w.a).1 != None ==> var f := Allocate(w.a).1.value; f !in w.out && f in w.all
  {
    AllocateExact(w.a);
    LoadMarked(w.a, w.all);
    var f := Allocate(w.a).1;
    if f != None {
      assert w.all[f.value] == Free(w.a)[f.value] + w.out[f.value];
    }
  }

  // ---------- Whole runs ----------

  function Run(ops: seq<Op>): World
  {
    if ops == [] then World(Alloc([], []), multiset{}, multiset{})
    else After(Run(ops[..|ops| - 1]), ops[|ops| - 1])
  }

  ghost predicate LegalRun(ops: seq<Op>)
  {
    forall k :: 0 <= k < |ops| ==> Legal(Run(ops[..k]), ops[k])
  }

  /** Along every run in which only new memory is supplied and only held frames are given back, free and held
      frames are together exactly what was supplied, each frame once. */
  lemma {:induction false} EveryRunConserves(ops: seq<Op>)
    requires LegalRun(ops)
    ensures Good(Run(ops))
  {
    if ops != [] {
      var n := |ops| - 1;
      var front := ops[..n];
      assert forall k :: 0 <= k < n ==> front[..k] == ops[..k];
      EveryRunConserves(front);
      StepConserves(Run(front), ops[n]);
    }
  }

  /** In every such run a frame handed out is held by no one else, and the kernel panics exactly when every
      frame ever supplied is held. */
  lemma {:induction false} NoDoubleHandOut(ops: seq<Op>)
    requires LegalRun(ops)
    ensures match Allocate(Run(ops).a).1
      case Some(f) => f !in Run(ops).out && f in Run(ops).all && f % PAGE == 0
      case None => Run(ops).out == Run(ops).all
  {
    EveryRunConserves(ops);
    StepConserves(Run(ops), Take);
  }
}
