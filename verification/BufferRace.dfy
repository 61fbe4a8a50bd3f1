// The frame buffer under N threads: every interleaving of the unlocked tests, the locked add and the
// locked pop. lib/kernel/memory/pagination/FrameAllocator.cpp:46-101, asm/funcs/global/atomic.asm:8-34.
module BufferRace {
  import opened FrameSpec
  import opened Options

  /** frame_buffer has MAX_BUFFER_FRAMES + 16 slots. */
  const SLOTS := MAX_BUFFER_FRAMES + 16

  /** Where a thread is. `load` says that the add is one of loadBuffer's, under lock[1]. */
  datatype Pc =
    | Idle
    | AddWait(f: int, load: bool)          // past the test qtd_buffer < 64, before acquireLock(&lock[0])
    | AddRead(f: int, load: bool)          // lock[0] held, before qtd_buffer++
    | AddStore(f: int, at: int, load: bool) // qtd_buffer already raised, before the store to frame_buffer[at]
    | AddRelease(load: bool)
    | LoadWait                             // allocate saw qtd_buffer <= 32, before acquireLock(&lock[1])
    | Loading                              // lock[1] held, at the loop test
    | LoadExit                             // loop left, before releaseLock(&lock[1])
    | LoadCheck                            // before `return qtd_buffer > 0`
    | PopWait                              // before acquireLock(&lock[0]) in allocate
    | PopRead                              // lock[0] held, before --qtd_buffer
    | PopFetch(at: int)                    // before the load of frame_buffer[at]
    | PopRelease(f: int)
    | PushWait(f: int)                     // giving a frame back, before acquireLock(&lock[1])
    | Pushing(f: int)                      // lock[1] held, before list_push
    | PushRelease                          // before releaseLock(&lock[1])
    | Panicked

  /** `supply` are the frames the callers and the region list still have to offer, `out` those handed out.
      `endless` says that the region list never runs empty. */
  datatype State = State(lock0: bool, lock1: bool, qtd: int, buffer: map<int, int>, pcs: seq<Pc>,
                         supply: set<int>, out: multiset<int>, endless: bool)

  datatype Act =
    | TestAdd(i: nat, f: int)                 // addMemorySpace reads qtd_buffer with frame f to store
    | TestAlloc(i: nat)                       // allocate reads qtd_buffer
    | TestLoad(i: nat, offer: Option<int>)        // loadBuffer's loop test, the list offering f
    | GiveBack(i: nat, f: int)                // addMemorySpace of one frame handed out: it goes to the list
    | Go(i: nat)                              // the one step a thread can take from where it is

  function At(s: State, i: nat, pc: Pc): State
    requires i < |s.pcs|
  {
    s.(pcs := s.pcs[i := pc])
  }

  /** One atomic step; None if it is not possible, as for a thread that spins on a lock. */
  function Next(s: State, a: Act): Option<State>
  {
    if a.i >= |s.pcs| then None else
    match a
    case TestAdd(i, f) =>
      if s.pcs[i] == Idle && s.qtd < MAX_BUFFER_FRAMES && f in s.supply
      then Some(At(s, i, AddWait(f, false)).(supply := s.supply - {f})) else None
    case TestAlloc(i) =>
      if s.pcs[i] != Idle then None
      else Some(At(s, i, if s.qtd <= MAX_BUFFER_FRAMES / 2 then LoadWait else PopWait))
    case TestLoad(i, f) =>
      if s.pcs[i] != Loading then None
      else if s.qtd < MAX_BUFFER_FRAMES && f != None then
        if f.value in s.supply
        then Some(At(s, i, AddWait(f.value, true)).(supply := s.supply - {f.value})) else None
      else if s.qtd < MAX_BUFFER_FRAMES && s.endless then None
      else Some(At(s, i, LoadExit))
    case GiveBack(i, f) =>
      if s.pcs[i] == Idle && f in s.out then Some(At(s, i, PushWait(f)).(out := s.out - multiset{f})) else None
    case Go(i) => Advance(s, i)
  }

  predicate Adding(pc: Pc)
  {
    pc.AddWait? || pc.AddRead? || pc.AddStore? || pc.AddRelease?
  }

  predicate Popping(pc: Pc)
  {
    pc.PopWait? || pc.PopRead? || pc.PopFetch? || pc.PopRelease?
  }

  predicate GivingBack(pc: Pc)
  {
    pc.PushWait? || pc.Pushing? || pc.PushRelease?
  }

  function Advance(s: State, i: nat): Option<State>
    requires i < |s.pcs|
  {
    if Adding(s.pcs[i]) then AdvanceAdd(s, i)
    else if Popping(s.pcs[i]) then AdvancePop(s, i)
    else if GivingBack(s.pcs[i]) then AdvancePush(s, i)
    else AdvanceLoad(s, i)
  }

  /** addFrameInBuffer */
  function AdvanceAdd(s: State, i: nat): Option<State>
    requires i < |s.pcs| && Adding(s.pcs[i])
  {
    match s.pcs[i]
    case AddWait(f, load) => if s.lock0 then None else Some(At(s, i, AddRead(f, load)).(lock0 := true))
    case AddRead(f, load) => Some(At(s, i, AddStore(f, s.qtd, load)).(qtd := (s.qtd + 1) % 256))
    case AddStore(f, at, load) => Some(At(s, i, AddRelease(load)).(buffer := s.buffer[at := f]))
    case AddRelease(load) => Some(At(s, i, if load then Loading else Idle).(lock0 := false))
  }

  /** The pop of allocate. */
  function AdvancePop(s: State, i: nat): Option<State>
    requires i < |s.pcs| && Popping(s.pcs[i])
  {
    match s.pcs[i]
    case PopWait => if s.lock0 then None else Some(At(s, i, PopRead).(lock0 := true))
    case PopRead => Some(At(s, i, PopFetch((s.qtd + 255) % 256)).(qtd := (s.qtd + 255) % 256))
    case PopFetch(at) => Some(At(s, i, PopRelease(if at in s.buffer then s.buffer[at] else 0)))
    case PopRelease(f) => Some(At(s, i, Idle).(lock0 := false, out := s.out + multiset{f}))
  }

  /** The end of addMemorySpace for a frame given back. */
  function AdvancePush(s: State, i: nat): Option<State>
    requires i < |s.pcs| && GivingBack(s.pcs[i])
  {
    match s.pcs[i]
    case PushWait(f) => if s.lock1 then None else Some(At(s, i, Pushing(f)).(lock1 := true))
    case Pushing(f) => Some(At(s, i, PushRelease).(supply := s.supply + {f}))
    case PushRelease => Some(At(s, i, Idle).(lock1 := false))
  }

  /** loadBuffer, but for its loop test. */
  function AdvanceLoad(s: State, i: nat): Option<State>
    requires i < |s.pcs|
  {
    match s.pcs[i]
    case LoadWait => if s.lock1 then None else Some(At(s, i, Loading).(lock1 := true))
    case LoadExit => Some(At(s, i, LoadCheck).(lock1 := false))
    case LoadCheck => Some(At(s, i, if s.qtd > 0 then PopWait else Panicked))
    case _ => None
  }

  function Initial(n: nat, supply: set<int>, endless: bool): State
  {
    State(false, false, 0, map[], seq(n, _ => Idle), supply, multiset{}, endless)
  }

  function Exec(s: State, acts: seq<Act>): Option<State>
    decreases |acts|
  {
    if acts == [] then Some(s) else
    match Next(s, acts[0])
    case None => None
    case Some(t) => Exec(t, acts[1..])
  }

  ghost predicate Leads(s: State, t: State)
  {
    exists acts :: Exec(s, acts) == Some(t)
  }

  // ---------- Counting threads ----------

  function Sum(pcs: seq<Pc>, w: Pc -> int): int
  {
    if pcs == [] then 0 else w(pcs[0]) + Sum(pcs[1..], w)
  }

  lemma {:induction false} SumUpdate(pcs: seq<Pc>, i: nat, pc: Pc, w: Pc -> int)
    requires i < |pcs|
    ensures Sum(pcs[i := pc], w) == Sum(pcs, w) - w(pcs[i]) + w(pc)
  {
    if i == 0 {
      assert pcs[0 := pc][1..] == pcs[1..];
    } else {
      assert pcs[i := pc][1..] == pcs[1..][i - 1 := pc];
      SumUpdate(pcs[1..], i - 1, pc, w);
    }
  }

  /** A 0-1 count lies between the two threads singled out and the number of threads. */
  lemma {:induction false} SumBounds(pcs: seq<Pc>, w: Pc -> int, i: nat, j: nat)
    requires i < |pcs| && j < |pcs| && forall pc :: 0 <= w(pc) <= 1
    ensures w(pcs[i]) <= Sum(pcs, w) <= |pcs|
    ensures i != j ==> w(pcs[i]) + w(pcs[j]) <= Sum(pcs, w)
  {
    if |pcs| > 1 {
      SumBounds(pcs[1..], w, if i > 0 then i - 1 else 0, if j > 0 then j - 1 else 0);
    }
  }

  lemma {:induction false} SumIdle(n: nat, w: Pc -> int)
    requires w(Idle) == 0
    ensures Sum(seq(n, _ => Idle), w) == 0
  {
    if n > 0 {
      assert seq(n, _ => Idle)[1..] == seq(n - 1, _ => Idle);
      SumIdle(n - 1, w);
    }
  }

  function InCs0(pc: Pc): int
  {
    if pc.AddRead? || pc.AddStore? || pc.AddRelease? || pc.PopRead? || pc.PopFetch? || pc.PopRelease? then 1 else 0
  }

  function InCs1(pc: Pc): int
  {
    if pc.Loading? || pc.LoadExit? || pc.Pushing? || pc.PushRelease? || (Adding(pc) && pc.load) then 1
    else 0
  }

  /** Past the test of an add, qtd_buffer not yet raised. */
  function PendingAdd(pc: Pc): int
  {
    if pc.AddWait? || pc.AddRead? then 1 else 0
  }

  /** Sure to pop, qtd_buffer not yet lowered. */
  function PendingPop(pc: Pc): int
  {
    if pc.LoadExit? || pc.LoadCheck? || pc.PopWait? || pc.PopRead? then 1 else 0
  }

  /** Sure to pop even if the region list may be empty: past loadBuffer's last test. */
  function SurePop(pc: Pc): int
  {
    if pc.PopWait? || pc.PopRead? then 1 else 0
  }

  lemma GoPcs(s: State, i: nat)
    requires i < |s.pcs| && Advance(s, i) != None
    ensures var t := Advance(s, i).value;
      |t.pcs| == |s.pcs| && t.endless == s.endless && t.pcs == s.pcs[i := t.pcs[i]]
  {
  }

  lemma StepPcs(s: State, a: Act)
    requires Next(s, a) != None
    ensures var t := Next(s, a).value;
      a.i < |s.pcs| == |t.pcs| && t.endless == s.endless && t.pcs == s.pcs[a.i := t.pcs[a.i]]
  {
    hide Advance;
    if a.Go? {
      GoPcs(s, a.i);
    }
  }

  /** A step moves one thread. */
  lemma StepMovesOne(s: State, a: Act, w: Pc -> int)
    requires Next(s, a) != None
    ensures var t := Next(s, a).value;
      && a.i < |s.pcs| == |t.pcs| && t.pcs == s.pcs[a.i := t.pcs[a.i]] && t.endless == s.endless
      && Sum(t.pcs, w) == Sum(s.pcs, w) - w(s.pcs[a.i]) + w(t.pcs[a.i])
  {
    hide Sum;
    var t := Next(s, a).value;
    StepPcs(s, a);
    hide Next;
    SumUpdate(s.pcs, a.i, t.pcs[a.i], w);
  }

  // ---------- What a step does ----------

  /** Entering a locked section takes a lock that was free, leaving one gives it back, and nothing else does. */
  ghost predicate Locks(s: State, t: State, p: Pc, q: Pc)
  {
    && (if InCs0(q) == InCs0(p) then t.lock0 == s.lock0 else t.lock0 != s.lock0 || InCs0(q) < InCs0(p))
    && (InCs0(q) > InCs0(p) ==> t.lock0) && (InCs0(q) < InCs0(p) ==> !t.lock0)
    && (if InCs1(q) == InCs1(p) then t.lock1 == s.lock1 else t.lock1 != s.lock1 || InCs1(q) < InCs1(p))
    && (InCs1(q) > InCs1(p) ==> t.lock1) && (InCs1(q) < InCs1(p) ==> !t.lock1)
  }

  /** How a move from p to q changes the counter, and what it has tested when it adds to one of the counts. */
  ghost predicate Counts(s: State, t: State, p: Pc, q: Pc)
  {
    && (t.qtd == if p.AddRead? then (s.qtd + 1) % 256 else if p.PopRead? then (s.qtd + 255) % 256 else s.qtd)
    && PendingAdd(q) - PendingAdd(p) == (if p.AddRead? then -1 else if q.AddWait? then 1 else 0)
    && (q.AddWait? ==> s.qtd < MAX_BUFFER_FRAMES)
    && (p.PopRead? ==> PendingPop(q) == SurePop(q) == 0)
    && (PendingPop(q) > PendingPop(p) && s.endless ==> s.qtd > MAX_BUFFER_FRAMES / 2)
    && (SurePop(q) > SurePop(p) ==> s.qtd > 0)
    && (q.AddStore? ==> p.AddRead? && q.at == s.qtd)
    && (q.PopFetch? ==> p.PopRead? && q.at == t.qtd)
    && Locks(s, t, p, q)
  }

  lemma GoCounts(s: State, i: nat)
    requires i < |s.pcs| && Advance(s, i) != None
    ensures var t := Advance(s, i).value; |t.pcs| == |s.pcs| && Counts(s, t, s.pcs[i], t.pcs[i])
  {
    GoPcs(s, i);
    hide Advance, Counts;
    if Adding(s.pcs[i]) {
      GoCountsAdd(s, i);
    } else if Popping(s.pcs[i]) {
      GoCountsPop(s, i);
    } else if GivingBack(s.pcs[i]) {
      GoCountsPush(s, i);
    } else {
      GoCountsLoad(s, i);
    }
  }

  lemma GoCountsAdd(s: State, i: nat)
    requires i < |s.pcs| && Advance(s, i) != None && Adding(s.pcs[i])
    ensures var t := Advance(s, i).value; |t.pcs| == |s.pcs| && Counts(s, t, s.pcs[i], t.pcs[i])
  {
    hide AdvancePop, AdvancePush, AdvanceLoad;
  }

  lemma GoCountsPop(s: State, i: nat)
    requires i < |s.pcs| && Advance(s, i) != None && Popping(s.pcs[i])
    ensures var t := Advance(s, i).value; |t.pcs| == |s.pcs| && Counts(s, t, s.pcs[i], t.pcs[i])
  {
    hide AdvanceAdd, AdvancePush, AdvanceLoad;
  }

  lemma GoCountsPush(s: State, i: nat)
    requires i < |s.pcs| && Advance(s, i) != None && GivingBack(s.pcs[i])
    ensures var t := Advance(s, i).value; |t.pcs| == |s.pcs| && Counts(s, t, s.pcs[i], t.pcs[i])
  {
    hide AdvanceAdd, AdvancePop, AdvanceLoad;
  }

  lemma GoCountsLoad(s: State, i: nat)
    requires i < |s.pcs| && Advance(s, i) != None
    requires !Adding(s.pcs[i]) && !Popping(s.pcs[i]) && !GivingBack(s.pcs[i])
    ensures var t := Advance(s, i).value; |t.pcs| == |s.pcs| && Counts(s, t, s.pcs[i], t.pcs[i])
  {
    hide AdvanceAdd, AdvancePop, AdvancePush;
  }

  lemma StepCounts(s: State, a: Act)
    requires Next(s, a) != None
    ensures var t := Next(s, a).value; a.i < |s.pcs| == |t.pcs| && Counts(s, t, s.pcs[a.i], t.pcs[a.i])
  {
    if a.Go? {
      GoCounts(s, a.i);
      hide Advance, Counts;
    } else {
      hide Advance;
    }
  }

  // ---------- Mutual exclusion ----------

  ghost predicate Locked(s: State)
  {
    && Sum(s.pcs, InCs0) == (if s.lock0 then 1 else 0)
    && Sum(s.pcs, InCs1) == (if s.lock1 then 1 else 0)
  }

  lemma StepLocked(s: State, a: Act)
    requires Locked(s) && Next(s, a) != None
    ensures Locked(Next(s, a).value)
  {
    hide Sum, Next;
    StepCounts(s, a);
    StepMovesOne(s, a, InCs0);
    StepMovesOne(s, a, InCs1);
    SumBounds(s.pcs, InCs0, a.i, a.i);
    SumBounds(s.pcs, InCs1, a.i, a.i);
  }

  lemma {:induction false} RunKeepsLocked(s: State, acts: seq<Act>)
    requires Locked(s) && Exec(s, acts) != None
    ensures Locked(Exec(s, acts).value)
    decreases |acts|
  {
    hide Locked, Next;
    if acts != [] {
      StepLocked(s, acts[0]);
      RunKeepsLocked(Next(s, acts[0]).value, acts[1..]);
    }
  }

  /** The spinlocks work: for any number of threads and any interleaving, two threads are never both between
      acquire and release of the same lock. */
  lemma MutualExclusion(n: nat, supply: set<int>, endless: bool, t: State, i: nat, j: nat)
    requires Leads(Initial(n, supply, endless), t) && i < |t.pcs| && j < |t.pcs| && i != j
    ensures InCs0(t.pcs[i]) + InCs0(t.pcs[j]) <= 1 && InCs1(t.pcs[i]) + InCs1(t.pcs[j]) <= 1
  {
    hide Next, Sum;
    var s := Initial(n, supply, endless);
    var acts :| Exec(s, acts) == Some(t);
    SumIdle(n, InCs0);
    SumIdle(n, InCs1);
    RunKeepsLocked(s, acts);
    SumBounds(t.pcs, InCs0, i, j);
    SumBounds(t.pcs, InCs1, i, j);
  }

  // ---------- The buffer bounds ----------

  /** The counter, with the threads about to raise it, stays below 64 plus the number of threads. */
  ghost predicate Bounded(s: State)
  {
    0 <= s.qtd < 256 && s.qtd + Sum(s.pcs, PendingAdd) <= MAX_BUFFER_FRAMES - 1 + |s.pcs| && StoresBounded(s.pcs)
  }

  ghost predicate StoresBounded(pcs: seq<Pc>)
  {
    forall i :: 0 <= i < |pcs| && pcs[i].AddStore? ==> pcs[i].at <= MAX_BUFFER_FRAMES - 2 + |pcs|
  }

  /** The most threads for which a pop always finds a frame. */
  function PopLimit(endless: bool): nat
  {
    if endless then MAX_BUFFER_FRAMES / 2 + 1 else 1
  }

  /** The counter covers every thread that is sure to pop. */
  ghost predicate Covered(s: State)
  {
    |s.pcs| <= PopLimit(s.endless) && Sum(s.pcs, if s.endless then PendingPop else SurePop) <= s.qtd
  }

  lemma PopFindsOne(s: State, i: nat)
    requires Covered(s) && i < |s.pcs| && s.pcs[i].PopRead?
    ensures s.qtd > 0
  {
    SumBounds(s.pcs, if s.endless then PendingPop else SurePop, i, i);
  }

  lemma StepStores(s: State, a: Act)
    requires Bounded(s) && Next(s, a) != None
    ensures StoresBounded(Next(s, a).value.pcs)
  {
    hide Sum, Next;
    StepPcs(s, a);
    StepCounts(s, a);
    SumBounds(s.pcs, PendingAdd, a.i, a.i);
  }

  lemma StepBounded(s: State, a: Act)
    requires Bounded(s) && Covered(s) && Next(s, a) != None
    ensures Bounded(Next(s, a).value)
  {
    StepStores(s, a);
    hide Sum, Covered, StoresBounded, Next;
    StepCounts(s, a);
    StepMovesOne(s, a, PendingAdd);
    SumBounds(s.pcs, PendingAdd, a.i, a.i);
    SumBounds(Next(s, a).value.pcs, PendingAdd, a.i, a.i);
    if s.pcs[a.i].PopRead? {
      PopFindsOne(s, a.i);
    }
  }

  lemma StepCovered(s: State, a: Act)
    requires Bounded(s) && Covered(s) && Next(s, a) != None
    ensures Covered(Next(s, a).value)
  {
    hide Sum, Next;
    StepCounts(s, a);
    var w := if s.endless then PendingPop else SurePop;
    StepMovesOne(s, a, w);
    SumBounds(s.pcs, w, a.i, a.i);
    SumBounds(Next(s, a).value.pcs, w, a.i, a.i);
    SumBounds(s.pcs, PendingAdd, a.i, a.i);
  }

  /** A store about to leave the array. */
  ghost predicate StoresOutside(s: State)
  {
    exists i :: 0 <= i < |s.pcs| && s.pcs[i].AddStore? && s.pcs[i].at >= SLOTS
  }

  /** A pop about to run below an empty buffer. */
  ghost predicate PopsEmpty(s: State)
  {
    s.qtd == 0 && exists i :: 0 <= i < |s.pcs| && s.pcs[i].PopRead?
  }

  // ---------- Every run is safe up to the thread limit ----------

  /** The most threads for which every store stays inside the array. */
  function StoreLimit(endless: bool): nat
  {
    if endless then SLOTS - MAX_BUFFER_FRAMES + 1 else 1
  }

  ghost predicate Inv(s: State)
  {
    Locked(s) && Bounded(s) && Covered(s)
  }

  lemma {:induction false} RunKeepsInv(s: State, acts: seq<Act>)
    requires Inv(s) && Exec(s, acts) != None
    ensures var t := Exec(s, acts).value; Inv(t) && |t.pcs| == |s.pcs| && t.endless == s.endless
    decreases |acts|
  {
    hide Inv, Next;
    if acts != [] {
      StepInv(s, acts[0]);
      RunKeepsInv(Next(s, acts[0]).value, acts[1..]);
    }
  }

  lemma StepInv(s: State, a: Act)
    requires Inv(s) && Next(s, a) != None
    ensures var t := Next(s, a).value; Inv(t) && |t.pcs| == |s.pcs| && t.endless == s.endless
  {
    hide Locked, Bounded, Covered;
    StepLocked(s, a);
    StepBounded(s, a);
    StepCovered(s, a);
    StepPcs(s, a);
  }

  lemma SafeState(s: State)
    requires Inv(s)
    ensures !PopsEmpty(s) && (|s.pcs| <= StoreLimit(s.endless) ==> !StoresOutside(s))
  {
    if PopsEmpty(s) {
      var i :| 0 <= i < |s.pcs| && s.pcs[i].PopRead?;
      PopFindsOne(s, i);
    }
  }

  // ---------- Beyond the limit ----------

  lemma {:induction false} ExecConcat(s: State, a: seq<Act>, b: seq<Act>)
    requires Exec(s, a) != None
    ensures Exec(s, a + b) == Exec(Exec(s, a).value, b)
    decreases |a|
  {
    hide Next;
    if a == [] {
      assert a + b == b;
    } else {
      assert (a + b)[1..] == a[1..] + b;
      ExecConcat(Next(s, a[0]).value, a[1..], b);
    }
  }

  lemma LeadsOn(s: State, t: State, u: State)
    requires Leads(s, t) && Leads(t, u)
    ensures Leads(s, u)
  {
    var a :| Exec(s, a) == Some(t);
    var b :| Exec(t, b) == Some(u);
    ExecConcat(s, a, b);
  }

  lemma LeadsSelf(s: State)
    ensures Leads(s, s)
  {
    assert Exec(s, []) == Some(s);
  }

  lemma LeadsThen(s: State, t: State, a: Act) returns (u: State)
    requires Leads(s, t) && Next(t, a) != None
    ensures u == Next(t, a).value && Leads(s, u)
  {
    u := Next(t, a).value;
    hide Next;
    assert Exec(t, [a]) == Exec(u, []);
    LeadsOn(s, t, u);
  }

  lemma LeadsGo(s: State, t: State, i: nat) returns (u: State)
    requires Leads(s, t) && i < |t.pcs| && Advance(t, i) != None
    ensures u == Advance(t, i).value && Leads(s, u)
  {
    hide Advance, Leads;
    u := LeadsThen(s, t, Go(i));
  }

  /** A thread past the add's test gets its frame in while the others stand still. */
  lemma AddAlone(s: State, i: nat) returns (t: State)
    requires i < |s.pcs| && s.pcs[i].AddWait? && !s.pcs[i].load && !s.lock0
    ensures Leads(s, t)
    ensures t == s.(pcs := s.pcs[i := Idle], qtd := (s.qtd + 1) % 256, buffer := s.buffer[s.qtd := s.pcs[i].f])
  {
    hide Leads, AdvancePop, AdvancePush, AdvanceLoad;
    LeadsSelf(s);
    t := LeadsGo(s, s, i);
    t := LeadsGo(s, t, i);
    t := LeadsGo(s, t, i);
    t := LeadsGo(s, t, i);
    assert t.pcs == s.pcs[i := Idle];
  }

  /** A thread before the pop takes its frame while the others stand still. */
  lemma PopAlone(s: State, i: nat) returns (t: State)
    requires i < |s.pcs| && s.pcs[i] == PopWait && !s.lock0
    ensures Leads(s, t) && t == s.(pcs := s.pcs[i := Idle], qtd := (s.qtd + 255) % 256, out := t.out)
  {
    hide Leads, AdvanceAdd, AdvancePush, AdvanceLoad;
    LeadsSelf(s);
    t := LeadsGo(s, s, i);
    t := LeadsGo(s, t, i);
    t := LeadsGo(s, t, i);
    t := LeadsGo(s, t, i);
    assert t.pcs == s.pcs[i := Idle];
  }

  /** With the list empty a thread gets past loadBuffer on the strength of one frame. */
  lemma LoadAlone(s: State, i: nat) returns (t: State)
    requires i < |s.pcs| && s.pcs[i] == Idle && 0 < s.qtd <= MAX_BUFFER_FRAMES / 2 && !s.lock1 && !s.endless
    ensures Leads(s, t) && t == s.(pcs := s.pcs[i := PopWait])
  {
    hide Leads, AdvanceAdd, AdvancePop, AdvancePush;
    LeadsSelf(s);
    t := LeadsThen(s, s, TestAlloc(i));
    t := LeadsGo(s, t, i);
    t := LeadsThen(s, t, TestLoad(i, None));
    hide Next;
    t := LeadsGo(s, t, i);
    t := LeadsGo(s, t, i);
    assert t.pcs == s.pcs[i := PopWait];
  }

  /** The frames of the k-th to the 200th page. */
  function Offered(k: nat): set<int>
  {
    set m | k <= m < 200 :: m * PAGE
  }

  /** All threads idle with k frames buffered. */
  ghost predicate Filled(s: State, n: nat, k: nat, endless: bool)
  {
    && s.pcs == seq(n, _ => Idle) && s.qtd == k && !s.lock0 && !s.lock1 && s.endless == endless
    && forall m :: k <= m < 200 ==> m * PAGE in s.supply
  }

  lemma AddFrame(s0: State, s: State, f: int) returns (t: State)
    requires Leads(s0, s) && s.pcs != [] && s.pcs[0] == Idle && !s.lock0
    requires 0 <= s.qtd < MAX_BUFFER_FRAMES && f in s.supply
    ensures Leads(s0, t)
    ensures t == s.(qtd := s.qtd + 1, buffer := s.buffer[s.qtd := f], supply := s.supply - {f})
  {
    hide Leads, Advance;
    var u := LeadsThen(s0, s, TestAdd(0, f));
    hide Next;
    t := AddAlone(u, 0);
    LeadsOn(s0, u, t);
    assert t.pcs == s.pcs;
  }

  lemma {:induction false} FillTo(n: nat, k: nat, endless: bool) returns (s: State)
    requires 0 < n && k < MAX_BUFFER_FRAMES
    ensures Leads(Initial(n, Offered(0), endless), s) && Filled(s, n, k, endless)
    decreases k
  {
    if k == 0 {
      s := Initial(n, Offered(0), endless);
      LeadsSelf(s);
    } else {
      hide Leads, Initial, Offered, Next;
      var p := FillTo(n, k - 1, endless);
      assert (k - 1) * PAGE in p.supply;
      s := AddFrame(Initial(n, Offered(0), endless), p, (k - 1) * PAGE);
    }
  }

  /** m threads read the counter at 63 before any of them adds. */
  lemma {:induction false} TestMany(s: State, n: nat, m: nat) returns (t: State)
    requires Filled(s, n, MAX_BUFFER_FRAMES - 1, true) && m <= n && m <= 18
    ensures Leads(s, t) && !t.lock0 && t.qtd == s.qtd && |t.pcs| == n && t.endless
    ensures forall i :: 0 <= i < n ==> if i < m then t.pcs[i].AddWait? && !t.pcs[i].load else t.pcs[i] == Idle
    ensures forall k :: 63 + m <= k < 200 ==> k * PAGE in t.supply
  {
    hide Leads, Advance;
    if m == 0 {
      t := s;
      LeadsSelf(s);
    } else {
      var p := TestMany(s, n, m - 1);
      assert (62 + m) * PAGE in p.supply;
      t := LeadsThen(s, p, TestAdd(m - 1, (62 + m) * PAGE));
    }
  }

  /** The first m of them add. */
  lemma {:induction false} AddMany(s: State, n: nat, m: nat) returns (t: State)
    requires m < 18 <= n == |s.pcs| && !s.lock0 && s.qtd == MAX_BUFFER_FRAMES - 1
    requires forall i :: 0 <= i < 18 ==> s.pcs[i].AddWait? && !s.pcs[i].load
    ensures Leads(s, t) && !t.lock0 && t.qtd == s.qtd + m && |t.pcs| == n
    ensures forall i :: m <= i < 18 ==> t.pcs[i].AddWait? && !t.pcs[i].load
  {
    hide Leads, Next, Advance;
    if m == 0 {
      t := s;
      LeadsSelf(s);
    } else {
      var p := AddMany(s, n, m - 1);
      t := AddAlone(p, m - 1);
      LeadsOn(s, p, t);
    }
  }

  /** From 18 threads on, a store reaches slot 80. */
  lemma OverflowFrom18(n: nat) returns (t: State)
    requires n >= 18
    ensures Leads(Initial(n, Offered(0), true), t) && StoresOutside(t)
  {
    hide Leads, Initial, Offered, AdvancePop, AdvancePush, AdvanceLoad;
    var s0 := Initial(n, Offered(0), true);
    var s := FillTo(n, MAX_BUFFER_FRAMES - 1, true);
    t := TestMany(s, n, 18);
    LeadsOn(s0, s, t);
    s := AddMany(t, n, 17);
    LeadsOn(s0, t, s);
    t := LeadsGo(s0, s, 17);
    t := LeadsGo(s0, t, 17);
    assert t.pcs[17].AddStore? && t.pcs[17].at == SLOTS;
  }

  /** m threads read the counter at 33 before any of them pops. */
  lemma {:induction false} TestManyPops(s: State, n: nat, m: nat) returns (t: State)
    requires Filled(s, n, MAX_BUFFER_FRAMES / 2 + 1, true) && m <= n
    ensures Leads(s, t) && !t.lock0 && t.qtd == s.qtd && |t.pcs| == n
    ensures forall i :: 0 <= i < n ==> t.pcs[i] == if i < m then PopWait else Idle
  {
    hide Leads, Advance;
    if m == 0 {
      t := s;
      LeadsSelf(s);
    } else {
      var p := TestManyPops(s, n, m - 1);
      t := LeadsThen(s, p, TestAlloc(m - 1));
    }
  }

  lemma {:induction false} PopMany(s: State, n: nat, m: nat) returns (t: State)
    requires m < 34 <= n == |s.pcs| && !s.lock0 && s.qtd == MAX_BUFFER_FRAMES / 2 + 1
    requires forall i :: 0 <= i < 34 ==> s.pcs[i] == PopWait
    ensures Leads(s, t) && !t.lock0 && t.qtd == s.qtd - m && |t.pcs| == n
    ensures forall i :: m <= i < 34 ==> t.pcs[i] == PopWait
  {
    hide Leads, Next, Advance;
    if m == 0 {
      t := s;
      LeadsSelf(s);
    } else {
      var p := PopMany(s, n, m - 1);
      t := PopAlone(p, m - 1);
      LeadsOn(s, p, t);
    }
  }

  /** From 34 threads on, a pop finds the buffer empty although the region list is not. */
  lemma UnderflowFrom34(n: nat) returns (t: State)
    requires n >= 34
    ensures Leads(Initial(n, Offered(0), true), t) && PopsEmpty(t)
  {
    hide Leads, Initial, Offered, AdvanceAdd, AdvancePush, AdvanceLoad;
    var s0 := Initial(n, Offered(0), true);
    var s := FillTo(n, MAX_BUFFER_FRAMES / 2 + 1, true);
    t := TestManyPops(s, n, 34);
    LeadsOn(s0, s, t);
    s := PopMany(t, n, 33);
    LeadsOn(s0, t, s);
    t := LeadsGo(s0, s, 33);
    assert t.pcs[33].PopRead?;
  }

  /** Once the region list runs empty two threads take the same last frame. */
  lemma TwoTakeTheLast(n: nat) returns (s: State)
    requires n >= 2
    ensures Leads(Initial(n, Offered(0), false), s) && s.qtd == 1 && !s.lock0 && |s.pcs| == n
    ensures s.pcs[0] == s.pcs[1] == PopWait && 1 * PAGE in s.supply
  {
    hide Leads, Initial, Offered, Next, Advance;
    var s0 := Initial(n, Offered(0), false);
    s := FillTo(n, 1, false);
    assert 1 * PAGE in s.supply;
    var t := LoadAlone(s, 0);
    LeadsOn(s0, s, t);
    s := LoadAlone(t, 1);
    LeadsOn(s0, t, s);
  }

  lemma UnderflowFrom2(n: nat) returns (t: State)
    requires n >= 2
    ensures Leads(Initial(n, Offered(0), false), t) && PopsEmpty(t)
  {
    hide Leads, Initial, Offered, AdvanceAdd, AdvancePush, AdvanceLoad;
    var s0 := Initial(n, Offered(0), false);
    var s := TwoTakeTheLast(n);
    t := PopAlone(s, 0);
    LeadsOn(s0, s, t);
    t := LeadsGo(s0, t, 1);
    assert t.pcs[1].PopRead?;
  }

  /** A pop below zero sends a waiting add to slot 255. */
  lemma WrapStore(s: State) returns (t: State)
    requires |s.pcs| >= 2 && s.pcs[0].AddWait? && !s.pcs[0].load && s.pcs[1] == PopWait && s.qtd == 0 && !s.lock0
    ensures Leads(s, t) && StoresOutside(t)
  {
    hide Leads, AdvancePop, AdvancePush, AdvanceLoad;
    var p := PopAlone(s, 1);
    t := LeadsGo(s, p, 0);
    t := LeadsGo(s, t, 0);
    assert t.pcs[0].AddStore? && t.pcs[0].at == 255;
  }

  lemma OverflowFrom2(n: nat) returns (t: State)
    requires n >= 2
    ensures Leads(Initial(n, Offered(0), false), t) && StoresOutside(t)
  {
    hide Leads, Initial, Offered, Advance;
    var s0 := Initial(n, Offered(0), false);
    var s := TwoTakeTheLast(n);
    t := PopAlone(s, 0);
    LeadsOn(s0, s, t);
    s := LeadsThen(s0, t, TestAdd(0, 1 * PAGE));
    t := WrapStore(s);
    LeadsOn(s0, s, t);
  }

  // ---------- The exact limits ----------

  /** No interleaving of n threads stores outside frame_buffer: exactly up to 17 threads while the region
      list never runs empty, and exactly for a single thread if it may. */
  lemma StoresStayInside(n: nat, endless: bool)
    ensures n <= StoreLimit(endless) <==>
      forall supply, t :: Leads(Initial(n, supply, endless), t) ==> !StoresOutside(t)
  {
    if n <= StoreLimit(endless) {
      forall supply, t | Leads(Initial(n, supply, endless), t) ensures !StoresOutside(t) {
        RunIsSafe(n, supply, endless, t);
      }
    } else if endless {
      var t := OverflowFrom18(n);
    } else {
      var t := OverflowFrom2(n);
    }
  }

  /** No interleaving of n threads pops from an empty buffer: exactly up to 33 threads while the region list
      never runs empty, and exactly for a single thread if it may. */
  lemma PopsFindAFrame(n: nat, endless: bool)
    ensures n <= PopLimit(endless) <==>
      forall supply, t :: Leads(Initial(n, supply, endless), t) ==> !PopsEmpty(t)
  {
    if n <= PopLimit(endless) {
      forall supply, t | Leads(Initial(n, supply, endless), t) ensures !PopsEmpty(t) {
        RunIsSafe(n, supply, endless, t);
      }
    } else if endless {
      var t := UnderflowFrom34(n);
    } else {
      var t := UnderflowFrom2(n);
    }
  }

  lemma RunIsSafe(n: nat, supply: set<int>, endless: bool, t: State)
    requires n <= PopLimit(endless) && Leads(Initial(n, supply, endless), t)
    ensures Inv(t) && |t.pcs| == n && t.endless == endless
    ensures !PopsEmpty(t) && (n <= StoreLimit(endless) ==> !StoresOutside(t))
  {
    var s := Initial(n, supply, endless);
    var acts :| Exec(s, acts) == Some(t);
    hide Exec, Next;
    SumIdle(n, InCs0);
    SumIdle(n, InCs1);
    SumIdle(n, PendingAdd);
    SumIdle(n, if endless then PendingPop else SurePop);
    assert Inv(s);
    hide Inv, Sum;
    RunKeepsInv(s, acts);
    SafeState(t);
  }

  // ---------- Frames under every interleaving ----------

  function Fetched(buffer: map<int, int>, at: int): int
  {
    if at in buffer then buffer[at] else 0
  }

  /** 1 if the thread has frame g in hand. */
  function HoldsOne(buffer: map<int, int>, g: int, pc: Pc): int
  {
    if (pc.AddWait? || pc.AddRead? || pc.AddStore? || pc.PopRelease? || pc.PushWait? || pc.Pushing?) && pc.f == g
    then 1
    else if pc.PopFetch? && Fetched(buffer, pc.at) == g then 1
    else 0
  }

  function Holds(buffer: map<int, int>, g: int): Pc -> int
  {
    pc => HoldsOne(buffer, g, pc)
  }

  /** How often frame g is in the first n slots. */
  function Stored(buffer: map<int, int>, n: nat, g: int): int
  {
    if n == 0 then 0 else Stored(buffer, n - 1, g) + (if Fetched(buffer, n - 1) == g then 1 else 0)
  }

  /** Raised the counter, slot not yet written. */
  function Storing(pc: Pc): int
  {
    if pc.AddStore? then 1 else 0
  }

  /** The slots that really hold a frame. */
  function Level(s: State): int
  {
    s.qtd - Sum(s.pcs, Storing)
  }

  /** Threads inside the locked sections agree with the counter. */
  ghost predicate InStep(s: State)
  {
    forall i :: 0 <= i < |s.pcs| ==>
      (s.pcs[i].AddStore? ==> s.pcs[i].at == s.qtd - 1) && (s.pcs[i].PopFetch? ==> s.pcs[i].at == s.qtd)
  }

  function Offers(supply: set<int>, g: int): int
  {
    if g in supply then 1 else 0
  }

  /** In how many places frame g is: still to come, in some thread's hand, in the buffer, handed out. */
  function Places(s: State, g: int): int
    requires Level(s) >= 0
  {
    Offers(s.supply, g) + Sum(s.pcs, Holds(s.buffer, g)) + Stored(s.buffer, Level(s), g) + s.out[g]
  }

  lemma {:induction false} HeldElsewhere(buffer: map<int, int>, b: map<int, int>, pcs: seq<Pc>, g: int)
    requires forall i :: 0 <= i < |pcs| ==> !pcs[i].PopFetch?
    ensures Sum(pcs, Holds(buffer, g)) == Sum(pcs, Holds(b, g))
  {
    if pcs != [] {
      HeldElsewhere(buffer, b, pcs[1..], g);
    }
  }

  lemma {:induction false} StoredElsewhere(buffer: map<int, int>, at: int, f: int, n: nat, g: int)
    requires n <= at
    ensures Stored(buffer[at := f], n, g) == Stored(buffer, n, g)
    decreases n
  {
    if n > 0 {
      StoredElsewhere(buffer, at, f, n - 1, g);
    }
  }

  /** A thread in the locked section is there alone. */
  lemma AloneInCs(s: State, i: nat)
    requires Locked(s) && i < |s.pcs| && InCs0(s.pcs[i]) == 1
    ensures forall j :: 0 <= j < |s.pcs| && j != i ==> InCs0(s.pcs[j]) == 0
    ensures Sum(s.pcs, Storing) == Storing(s.pcs[i])
  {
    forall j | 0 <= j < |s.pcs| && j != i ensures InCs0(s.pcs[j]) == 0 {
      SumBounds(s.pcs, InCs0, i, j);
    }
    OnlyOne(s.pcs, i);
  }

  lemma {:induction false} OnlyOne(pcs: seq<Pc>, i: nat)
    requires i < |pcs| && forall j :: 0 <= j < |pcs| && j != i ==> Storing(pcs[j]) == 0
    ensures Sum(pcs, Storing) == Storing(pcs[i])
    decreases |pcs|
  {
    if i == 0 {
      NoneStoring(pcs[1..]);
    } else {
      OnlyOne(pcs[1..], i - 1);
    }
  }

  lemma {:induction false} NoneStoring(pcs: seq<Pc>)
    requires forall j :: 0 <= j < |pcs| ==> Storing(pcs[j]) == 0
    ensures Sum(pcs, Storing) == 0
  {
    if pcs != [] {
      NoneStoring(pcs[1..]);
    }
  }

  lemma StepInStep(s: State, a: Act)
    requires Inv(s) && InStep(s) && Next(s, a) != None
    ensures InStep(Next(s, a).value)
  {
    hide Sum, Locked, Bounded, Covered;
    var i := a.i;
    StepPcs(s, a);
    StepTracks(s, a);
    if InCs0(s.pcs[i]) == 1 {
      AloneInCs(s, i);
    }
    hide Next, Inv;
  }

  /** In t thread i agrees with the counter, which only a thread in the locked section changes. */
  ghost predicate Tracks(s: State, t: State, i: nat)
    requires i < |s.pcs| == |t.pcs|
  {
    && (t.pcs[i].AddStore? ==> t.pcs[i].at == t.qtd - 1)
    && (t.pcs[i].PopFetch? ==> t.pcs[i].at == t.qtd)
    && (t.qtd != s.qtd ==> InCs0(s.pcs[i]) == 1)
  }

  lemma StepTracks(s: State, a: Act)
    requires Inv(s) && Next(s, a) != None
    ensures a.i < |s.pcs| == |Next(s, a).value.pcs| && Tracks(s, Next(s, a).value, a.i)
  {
    CounterRange(s);
    StepCounts(s, a);
    if s.pcs[a.i].PopRead? {
      PopFindsOne(s, a.i);
    }
    hide Inv, Next;
  }

  lemma CounterRange(s: State)
    requires Inv(s)
    ensures 0 <= s.qtd < 255
  {
    if s.pcs == [] {
      assert Sum(s.pcs, PendingAdd) == 0;
    } else {
      SumBounds(s.pcs, PendingAdd, 0, 0);
    }
  }

  // In each of these the thread moves from p to q and the frame's places add up as before.

  lemma RaisePlaces(s: State, i: nat, g: int)
    requires Inv(s) && i < |s.pcs| && s.pcs[i].AddRead? && Level(s) >= 0
    ensures var t := Advance(s, i).value; Level(t) == Level(s) && Places(t, g) == Places(s, g)
  {
    var t := Advance(s, i).value;
    CounterRange(s);
    hide Inv;
    SumUpdate(s.pcs, i, t.pcs[i], Storing);
    SumUpdate(s.pcs, i, t.pcs[i], Holds(s.buffer, g));
    hide Sum, Stored;
  }

  lemma StorePlaces(s: State, i: nat, g: int)
    requires Inv(s) && InStep(s) && i < |s.pcs| && s.pcs[i].AddStore? && Level(s) >= 0
    ensures var t := Advance(s, i).value; Level(t) >= 0 && Places(t, g) == Places(s, g)
  {
    var t := Advance(s, i).value;
    var p := s.pcs[i];
    AloneInCs(s, i);
    hide Inv;
    SumUpdate(s.pcs, i, t.pcs[i], Storing);
    SumUpdate(s.pcs, i, t.pcs[i], Holds(s.buffer, g));
    HeldElsewhere(s.buffer, t.buffer, t.pcs, g);
    StoredElsewhere(s.buffer, p.at, p.f, p.at, g);
    assert Level(s) == p.at && Level(t) == p.at + 1;
    assert Stored(t.buffer, p.at + 1, g) == Stored(s.buffer, p.at, g) + (if p.f == g then 1 else 0);
    hide Sum, Stored;
  }

  lemma PopPlaces(s: State, i: nat, g: int)
    requires Inv(s) && i < |s.pcs| && s.pcs[i].PopRead? && Level(s) >= 0
    ensures var t := Advance(s, i).value; Level(t) >= 0 && Places(t, g) == Places(s, g)
  {
    var t := Advance(s, i).value;
    CounterRange(s);
    PopFindsOne(s, i);
    AloneInCs(s, i);
    hide Inv;
    SumUpdate(s.pcs, i, t.pcs[i], Storing);
    SumUpdate(s.pcs, i, t.pcs[i], Holds(s.buffer, g));
    assert Level(s) == s.qtd && Level(t) == s.qtd - 1;
    assert Stored(s.buffer, s.qtd, g) ==
      Stored(s.buffer, s.qtd - 1, g) + (if Fetched(s.buffer, s.qtd - 1) == g then 1 else 0);
    hide Sum, Stored;
  }

  /** From s to t thread i only passes frames between itself and the outside. */
  ghost predicate Passes(s: State, t: State, i: nat, g: int)
    requires i < |s.pcs| == |t.pcs|
  {
    && t.qtd == s.qtd && t.buffer == s.buffer && Storing(t.pcs[i]) == Storing(s.pcs[i])
    && Offers(s.supply, g) + HoldsOne(s.buffer, g, s.pcs[i]) + s.out[g]
       == Offers(t.supply, g) + HoldsOne(s.buffer, g, t.pcs[i]) + t.out[g]
  }

  lemma GoPasses(s: State, i: nat, g: int)
    requires i < |s.pcs| && Advance(s, i) != None
    requires !s.pcs[i].AddRead? && !s.pcs[i].AddStore? && !s.pcs[i].PopRead?
    requires s.pcs[i].Pushing? && s.pcs[i].f == g ==> g !in s.supply
    ensures |Advance(s, i).value.pcs| == |s.pcs| && Passes(s, Advance(s, i).value, i, g)
  {
    if Popping(s.pcs[i]) {
      hide Advance, Passes;
      PopPasses(s, i, g);
    } else if GivingBack(s.pcs[i]) {
      hide Advance, Passes;
      PushPasses(s, i, g);
    } else {
      hide AdvancePop, AdvancePush;
    }
  }

  lemma PushPasses(s: State, i: nat, g: int)
    requires i < |s.pcs| && Advance(s, i) != None && GivingBack(s.pcs[i])
    requires s.pcs[i].Pushing? && s.pcs[i].f == g ==> g !in s.supply
    ensures |Advance(s, i).value.pcs| == |s.pcs| && Passes(s, Advance(s, i).value, i, g)
  {
    hide AdvanceAdd, AdvancePop, AdvanceLoad;
  }

  lemma PopPasses(s: State, i: nat, g: int)
    requires i < |s.pcs| && Advance(s, i) != None && Popping(s.pcs[i]) && !s.pcs[i].PopRead?
    ensures |Advance(s, i).value.pcs| == |s.pcs| && Passes(s, Advance(s, i).value, i, g)
  {
    hide AdvanceAdd, AdvancePush, AdvanceLoad;
  }

  lemma TestPasses(s: State, a: Act, g: int)
    requires Next(s, a) != None && !a.Go?
    ensures a.i < |s.pcs| == |Next(s, a).value.pcs| && Passes(s, Next(s, a).value, a.i, g)
  {
    hide Advance;
    if a.TestLoad? {
      LoadTestPasses(s, a, g);
    }
  }

  lemma LoadTestPasses(s: State, a: Act, g: int)
    requires Next(s, a) != None && a.TestLoad?
    ensures a.i < |s.pcs| == |Next(s, a).value.pcs| && Passes(s, Next(s, a).value, a.i, g)
  {
    hide Advance;
  }

  lemma {:induction false} StoredNat(buffer: map<int, int>, n: nat, g: int)
    ensures Stored(buffer, n, g) >= 0
    decreases n
  {
    if n > 0 {
      StoredNat(buffer, n - 1, g);
    }
  }

  /** A frame in one place only, and that a thread's hand, is not among those to come. */
  lemma NotOffered(s: State, i: nat, g: int)
    requires i < |s.pcs| && HoldsOne(s.buffer, g, s.pcs[i]) == 1 && Level(s) >= 0 && Places(s, g) <= 1
    ensures g !in s.supply
  {
    StoredNat(s.buffer, Level(s), g);
    SumBounds(s.pcs, Holds(s.buffer, g), i, i);
    hide Sum, Stored;
  }

  lemma HandOver(s: State, a: Act, g: int)
    requires Next(s, a) != None && a.i < |s.pcs| && Level(s) >= 0 && Places(s, g) <= 1
    requires !(a.Go? && (s.pcs[a.i].AddRead? || s.pcs[a.i].AddStore? || s.pcs[a.i].PopRead?))
    ensures var t := Next(s, a).value; Level(t) >= 0 && Places(t, g) == Places(s, g)
  {
    var t := Next(s, a).value;
    StepPcs(s, a);
    if s.pcs[a.i].Pushing? && s.pcs[a.i].f == g {
      NotOffered(s, a.i, g);
    }
    if a.Go? { GoPasses(s, a.i, g); } else { TestPasses(s, a, g); }
    hide Next, Advance;
    SumUpdate(s.pcs, a.i, t.pcs[a.i], Storing);
    SumUpdate(s.pcs, a.i, t.pcs[a.i], Holds(s.buffer, g));
    hide Sum, Stored, HoldsOne, Offers;
  }

  lemma StepPlaces(s: State, a: Act, g: int)
    requires Inv(s) && InStep(s) && Level(s) >= 0 && Places(s, g) <= 1 && Next(s, a) != None
    ensures var t := Next(s, a).value; Level(t) >= 0 && Places(t, g) == Places(s, g)
  {
    hide Places, Level, Inv, InStep;
    StepPcs(s, a);
    var p := s.pcs[a.i];
    if a.Go? && p.AddRead? {
      RaisePlaces(s, a.i, g);
    } else if a.Go? && p.AddStore? {
      StorePlaces(s, a.i, g);
    } else if a.Go? && p.PopRead? {
      PopPlaces(s, a.i, g);
    } else {
      HandOver(s, a, g);
    }
  }

  lemma {:induction false} RunPlaces(s: State, acts: seq<Act>, g: int)
    requires Inv(s) && InStep(s) && Level(s) >= 0 && Places(s, g) <= 1 && Exec(s, acts) != None
    ensures Level(Exec(s, acts).value) >= 0 && Places(Exec(s, acts).value, g) == Places(s, g)
    decreases |acts|
  {
    hide Inv, InStep, Next, Level, Places;
    if acts != [] {
      StepInv(s, acts[0]);
      StepInStep(s, acts[0]);
      StepPlaces(s, acts[0], g);
      RunPlaces(Next(s, acts[0]).value, acts[1..], g);
    }
  }

  /** Up to the pop limit, whatever the interleaving, every frame there was at the start is in exactly one
      place, and no other frame appears: none is lost in a race and none is handed out twice. */
  lemma FramesSurviveRaces(n: nat, supply: set<int>, endless: bool, t: State, g: int)
    requires n <= PopLimit(endless) && Leads(Initial(n, supply, endless), t)
    ensures Level(t) >= 0 && Places(t, g) == Offers(supply, g)
  {
    var s := Initial(n, supply, endless);
    var acts :| Exec(s, acts) == Some(t);
    LeadsSelf(s);
    RunIsSafe(n, supply, endless, s);
    SumIdle(n, Storing);
    SumIdle(n, Holds(s.buffer, g));
    hide Exec, Inv, Next, Sum;
    RunPlaces(s, acts, g);
  }
}
