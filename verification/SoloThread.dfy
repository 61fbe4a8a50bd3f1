// One thread of the race model by itself does what the sequential allocator does.
// lib/kernel/memory/pagination/FrameAllocator.cpp:46-63, lib/kernel/memory/pagination/FrameAllocator.cpp:92-101
module SoloThread {
  import opened BufferRace
  import opened FrameSpec
  import opened Options

  /** The shared memory of the race holds the buffer of a, and the list offers the frames of a's list. */
  ghost predicate Shows(s: State, a: Alloc)
    requires AllAligned(a.regions)
  {
    && s.qtd == |a.buffer| && (forall k :: 0 <= k < |a.buffer| ==> k in s.buffer && s.buffer[k] == a.buffer[k])
    && (forall f :: f in s.supply <==> f in Frames(a.regions))
    && !s.lock0 && !s.endless
  }

  /** Thread i, alone, has loadBuffer's lock and is at its loop test. */
  ghost predicate AtLoad(s: State, i: nat, a: Alloc)
  {
    && AllocOk(a) && Shows(s, a) && i < |s.pcs| && s.pcs[i] == Loading && s.lock1
  }

  lemma {:induction false} FramesAbove(l: seq<Region>, lo: int, x: int)
    requires AllAligned(l) && Above(l, lo) && x in Frames(l)
    ensures lo <= x
  {
    hide FramesIn;
    FramesInHas(l[0].base, l[0].size / FrameSpec.PAGE, x);
    if x !in RegionFrames(l[0]) {
      FramesAbove(l[1..], lo, x);
    }
  }

  /** What stays listed when the first page of the list is taken. */
  lemma FirstTaken(l: seq<Region>)
    requires Sorted(l) && l != [] && l[0].size >= FrameSpec.PAGE
    ensures var m := [Rest(l[0])] + l[1..];
      && Sorted(m) && l[0].base in Frames(l) && forall x :: x in Frames(m) <==> x in Frames(l) && x != l[0].base
  {
    var m := [Rest(l[0])] + l[1..];
    assert Aligned(l[0]);
    HeadPage(l);
    assert Above(m, l[0].base + FrameSpec.PAGE);
    forall x | x in Frames(m) ensures x != l[0].base {
      FramesAbove(m, l[0].base + FrameSpec.PAGE, x);
    }
  }

  /** The head of the list with its first page moved to the buffer. */
  function Moved(a: Alloc): Alloc
    requires a.regions != []
  {
    Alloc(a.buffer + [RoundDown(a.regions[0].base)], [Rest(a.regions[0])] + a.regions[1..])
  }

  lemma MovedShows(s: State, t: State, a: Alloc)
    requires AllocOk(a) && Shows(s, a) && |a.buffer| < MAX_BUFFER_FRAMES && a.regions != []
    requires a.regions[0].size >= FrameSpec.PAGE
    requires var f := a.regions[0].base;
      t == s.(qtd := s.qtd + 1, buffer := s.buffer[s.qtd := f], supply := s.supply - {f})
    ensures AllocOk(Moved(a)) && Shows(t, Moved(a)) && a.regions[0].base in s.supply
  {
    assert RoundDown(a.regions[0].base) == a.regions[0].base by { assert Aligned(a.regions[0]); }
    FirstTaken(a.regions);
    hide Frames, Free, RoundDown, Rest, Sorted, Aligned;
    LoadRound(a);
  }

  /** A thread in the load loop takes the first listed frame into the buffer. */
  lemma OneLoad(s: State, i: nat, a: Alloc) returns (t: State)
    requires AtLoad(s, i, a) && |a.buffer| < MAX_BUFFER_FRAMES && a.regions != []
    requires a.regions[0].size >= FrameSpec.PAGE
    ensures Leads(s, t) && t.pcs == s.pcs && t.out == s.out && AtLoad(t, i, Moved(a))
  {
    var f := a.regions[0].base;
    MovedShows(s, s.(qtd := s.qtd + 1, buffer := s.buffer[s.qtd := f], supply := s.supply - {f}), a);
    hide Leads, Frames, Sorted, Moved;
    t := StoreOne(s, i, f);
  }

  /** The five steps of one round of the load loop. */
  lemma StoreOne(s: State, i: nat, f: int) returns (t: State)
    requires i < |s.pcs| && s.pcs[i] == Loading && !s.lock0 && 0 <= s.qtd < MAX_BUFFER_FRAMES && f in s.supply
    ensures Leads(s, t)
    ensures t == s.(qtd := s.qtd + 1, buffer := s.buffer[s.qtd := f], supply := s.supply - {f})
  {
    hide Leads, AdvancePop, AdvancePush, AdvanceLoad;
    LeadsSelf(s);
    t := LeadsThen(s, s, TestLoad(i, Some(f)));
    hide Next;
    t := LeadsGo(s, t, i);
    t := LeadsGo(s, t, i);
    t := LeadsGo(s, t, i);
    t := LeadsGo(s, t, i);
    assert t.pcs == s.pcs;
  }

  /** The load loop to its end. */
  lemma {:induction false} LoadsAlone(s: State, i: nat, a: Alloc) returns (t: State)
    requires AtLoad(s, i, a)
    ensures Leads(s, t) && AtLoad(t, i, Load(a)) && t.pcs == s.pcs && t.out == s.out
    decreases |a.regions|, MAX_BUFFER_FRAMES - |a.buffer|
  {
    hide Leads, Frames, Sorted, Shows;
    if |a.buffer| >= MAX_BUFFER_FRAMES || a.regions == [] {
      t := s;
      LeadsSelf(s);
    } else if a.regions[0].size < FrameSpec.PAGE {
      EmptyHead(s, a);
      t := LoadsAlone(s, i, Alloc(a.buffer, a.regions[1..]));
    } else {
      var p := OneLoad(s, i, a);
      t := LoadsAlone(p, i, Moved(a));
      LeadsOn(s, p, t);
    }
  }

  lemma EmptyHead(s: State, a: Alloc)
    requires AllocOk(a) && Shows(s, a) && |a.buffer| < MAX_BUFFER_FRAMES && a.regions != []
    requires a.regions[0].size < FrameSpec.PAGE
    ensures var b := Alloc(a.buffer, a.regions[1..]); AllocOk(b) && Shows(s, b)
  {
    LoadRound(a);
    HeadPage(a.regions);
  }

  /** The pop of a thread by itself. */
  lemma TakesLast(s: State, i: nat, a: Alloc) returns (t: State)
    requires AllocOk(a) && a.buffer != [] && Shows(s, a) && i < |s.pcs| && s.pcs[i] == PopWait
    ensures var n := |a.buffer| - 1;
      && Leads(s, t) && t.pcs == s.pcs[i := Idle] && t.lock1 == s.lock1
      && Shows(t, Alloc(a.buffer[..n], a.regions)) && t.out == s.out + multiset{a.buffer[n]}
  {
    hide Leads, AdvanceAdd, AdvancePush, AdvanceLoad, Frames, Sorted;
    LeadsSelf(s);
    t := LeadsGo(s, s, i);
    t := LeadsGo(s, t, i);
    t := LeadsGo(s, t, i);
    t := LeadsGo(s, t, i);
    assert t.pcs == s.pcs[i := Idle];
  }

  /** loadBuffer by a thread by itself: it is ready to pop then, or panics with nothing loaded. */
  lemma LoadBufferAlone(s: State, i: nat, a: Alloc) returns (t: State)
    requires AllocOk(a) && Shows(s, a) && !s.lock1 && i < |s.pcs| && s.pcs[i] == LoadWait
    ensures AllocOk(Load(a)) && Leads(s, t) && Shows(t, Load(a)) && !t.lock1 && t.out == s.out
    ensures t.pcs == s.pcs[i := if Load(a).buffer == [] then Panicked else PopWait]
  {
    hide Leads, AdvanceAdd, AdvancePop, AdvancePush, Frames, Sorted, Load;
    LeadsSelf(s);
    t := LeadsGo(s, s, i);
    var p := LoadsAlone(t, i, a);
    LeadsOn(s, t, p);
    t := LeadsThen(s, p, TestLoad(i, None));
    hide Next;
    t := LeadsGo(s, t, i);
    t := LeadsGo(s, t, i);
    assert t.pcs == s.pcs[i := if Load(a).buffer == [] then Panicked else PopWait];
  }

  /** From s to t thread i has run allocate as a says. */
  ghost predicate Allocates(s: State, t: State, i: nat, a: Alloc)
    requires AllocOk(a) && i < |s.pcs|
  {
    && Leads(s, t) && AllocOk(Allocate(a).0) && Shows(t, Allocate(a).0) && !t.lock1
    && match Allocate(a).1
       case None => t.pcs == s.pcs[i := Panicked] && t.out == s.out
       case Some(f) => t.pcs == s.pcs && t.out == s.out + multiset{f}
  }

  lemma StaysOk(a: Alloc)
    requires AllocOk(a)
    ensures AllocOk(Allocate(a).0) && AllocOk(Load(a))
  {
    hide AllocOk, Allocate, Load, Free;
    AllocateExact(a);
    LoadExact(a);
  }

  lemma AllocateLoaded(s: State, u: State, i: nat, a: Alloc) returns (t: State)
    requires AllocOk(a) && |a.buffer| <= MAX_BUFFER_FRAMES / 2 && i < |s.pcs| && s.pcs[i] == Idle
    requires Leads(s, u) && Shows(u, a) && !u.lock1 && u.pcs == s.pcs[i := LoadWait] && u.out == s.out
    ensures Allocates(s, t, i, a)
  {
    hide Leads, Next, Frames, Sorted, Load, Shows, Free, AllocOk;
    StaysOk(a);
    var p := LoadBufferAlone(u, i, a);
    LeadsOn(s, u, p);
    t := p;
    if Load(a).buffer != [] {
      t := TakesLast(p, i, Load(a));
      LeadsOn(s, p, t);
      assert t.pcs == s.pcs;
    }
  }

  lemma AllocateBuffered(s: State, u: State, i: nat, a: Alloc) returns (t: State)
    requires AllocOk(a) && |a.buffer| > MAX_BUFFER_FRAMES / 2 && i < |s.pcs| && s.pcs[i] == Idle
    requires Leads(s, u) && Shows(u, a) && !u.lock1 && u.pcs == s.pcs[i := PopWait] && u.out == s.out
    ensures Allocates(s, t, i, a)
  {
    hide Leads, Next, Frames, Sorted, Load, Shows, Free, AllocOk;
    StaysOk(a);
    t := TakesLast(u, i, a);
    LeadsOn(s, u, t);
    assert t.pcs == s.pcs;
  }

  /** A thread that runs allocate while the others stand still leaves buffer, list and frame as the sequential allocator
      does: the two models have the same refill test and the same order. */
  lemma AllocateAlone(s: State, i: nat, a: Alloc) returns (t: State)
    requires AllocOk(a) && Shows(s, a) && !s.lock1 && i < |s.pcs| && s.pcs[i] == Idle
    ensures Leads(s, t) && AllocOk(Allocate(a).0) && Shows(t, Allocate(a).0) && !t.lock1
    ensures match Allocate(a).1
      case None => t.pcs == s.pcs[i := Panicked] && t.out == s.out
      case Some(f) => t.pcs == s.pcs && t.out == s.out + multiset{f}
  {
    hide Leads, Next, AllocOk, Shows, Allocate;
    LeadsSelf(s);
    TestIs(s, i, a);
    var u := LeadsThen(s, s, TestAlloc(i));
    if |a.buffer| <= MAX_BUFFER_FRAMES / 2 {
      t := AllocateLoaded(s, u, i, a);
    } else {
      t := AllocateBuffered(s, u, i, a);
    }
  }

  lemma TestIs(s: State, i: nat, a: Alloc)
    requires AllocOk(a) && Shows(s, a) && i < |s.pcs| && s.pcs[i] == Idle
    ensures s.qtd == |a.buffer|
    ensures Next(s, TestAlloc(i)) ==
      Some(s.(pcs := s.pcs[i := if |a.buffer| <= MAX_BUFFER_FRAMES / 2 then LoadWait else PopWait]))
    ensures Shows(Next(s, TestAlloc(i)).value, a)
  {
    hide Frames;
  }
}
