// What the heap invariant means for whole runs of the heap: tiling, free lists, payloads.
module HeapTheorems {
  import opened SizeClass
  import opened HeapState
  import opened HeapOps
  import opened Options

  // ---------- Tiling ----------

  /** The split chain from a rightwards. */
  ghost function ChainFrom(mem: Mem, runs: map<int, int>, a: int): seq<int>
    requires Chains(mem, runs) && a in mem
    decreases (assert ChainOk(mem, runs, a); mem[a].base + runs[mem[a].base] * PAGE - a)
  {
    assert ChainOk(mem, runs, a);
    var r := mem[a].splitRight;
    if r == 0 then [a] else assert ChainOk(mem, runs, r); [a] + ChainFrom(mem, runs, r)
  }

  function SumRoom(mem: Mem, c: seq<int>): int
    requires forall k :: 0 <= k < |c| ==> c[k] in mem
  {
    if c == [] then 0 else mem[c[0]].realSize + SumRoom(mem, c[1..])
  }

  /** The addresses of c are tags of the run at `base`. */
  ghost predicate TagsOf(mem: Mem, c: seq<int>, base: int)
  {
    forall k :: 0 <= k < |c| ==> c[k] in mem && mem[c[k]].base == base
  }

  /** Each tag of c ends where the next one starts, and the two are linked both ways. */
  ghost predicate Touching(mem: Mem, c: seq<int>)
    requires forall k :: 0 <= k < |c| ==> c[k] in mem
  {
    forall k :: 0 <= k < |c| - 1 ==>
      c[k + 1] == c[k] + mem[c[k]].realSize == mem[c[k]].splitRight && mem[c[k + 1]].splitLeft == c[k]
  }

  lemma {:induction false} ChainTags(mem: Mem, runs: map<int, int>, a: int)
    requires Chains(mem, runs) && a in mem
    ensures var c := ChainFrom(mem, runs, a); |c| > 0 && c[0] == a && TagsOf(mem, c, mem[a].base)
    decreases (assert ChainOk(mem, runs, a); mem[a].base + runs[mem[a].base] * PAGE - a)
  {
    assert ChainOk(mem, runs, a);
    var r := mem[a].splitRight;
    if r != 0 {
      assert ChainOk(mem, runs, r);
      ChainTags(mem, runs, r);
      assert ChainFrom(mem, runs, a)[1..] == ChainFrom(mem, runs, r);
    }
  }

  /** A chain ends where its run ends, and its tags touch. */
  lemma {:induction false} ChainProperties(mem: Mem, runs: map<int, int>, a: int)
    requires Chains(mem, runs) && a in mem
    ensures var c := ChainFrom(mem, runs, a); |c| > 0 && c[0] == a && TagsOf(mem, c, mem[a].base)
    ensures mem[a].base in runs
    ensures a + SumRoom(mem, ChainFrom(mem, runs, a)) == mem[a].base + runs[mem[a].base] * PAGE
    ensures Touching(mem, ChainFrom(mem, runs, a))
    decreases (assert ChainOk(mem, runs, a); mem[a].base + runs[mem[a].base] * PAGE - a)
  {
    ChainTags(mem, runs, a);
    assert ChainOk(mem, runs, a);
    var r := mem[a].splitRight;
    if r != 0 {
      assert ChainOk(mem, runs, r);
      ChainProperties(mem, runs, r);
      var c, d := ChainFrom(mem, runs, a), ChainFrom(mem, runs, r);
      assert c == [a] + d && c[1..] == d;
      forall k | 0 <= k < |c| - 1
        ensures c[k + 1] == c[k] + mem[c[k]].realSize == mem[c[k]].splitRight && mem[c[k + 1]].splitLeft == c[k]
      {
        assert c[k + 1] == d[k] && (k > 0 ==> c[k] == d[k - 1]);
      }
    }
  }

  lemma {:induction false} ChainStep(mem: Mem, runs: map<int, int>, a: int, x: int)
    requires Chains(mem, runs) && a in mem && x in ChainFrom(mem, runs, a)
    ensures x in mem && (mem[x].splitRight == 0 || mem[x].splitRight in ChainFrom(mem, runs, a))
    decreases (assert ChainOk(mem, runs, a); mem[a].base + runs[mem[a].base] * PAGE - a)
  {
    assert ChainOk(mem, runs, a);
    var r := mem[a].splitRight;
    if r != 0 {
      assert ChainOk(mem, runs, r);
      if x in ChainFrom(mem, runs, r) {
        ChainStep(mem, runs, r, x);
      } else {
        ChainProperties(mem, runs, r);
      }
    }
  }

  lemma {:induction false} ChainHasAll(mem: Mem, runs: map<int, int>, x: int)
    requires Chains(mem, runs) && x in mem && mem[x].base in runs && mem[x].base in mem
    ensures x in ChainFrom(mem, runs, mem[x].base)
    decreases x - mem[x].base
  {
    assert ChainOk(mem, runs, x);
    var l := mem[x].splitLeft;
    if l == 0 {
      ChainProperties(mem, runs, x);
    } else {
      assert ChainOk(mem, runs, l);
      ChainHasAll(mem, runs, l);
      ChainStep(mem, runs, mem[x].base, l);
    }
  }

  /** c tiles the run of `pages` pages at b: it starts at b, each tag ends where the next one starts, links
      run both ways, the sizes sum to the run, and no two neighbours are both free. */
  ghost predicate Tiles(mem: Mem, c: seq<int>, b: int, pages: int)
  {
    && |c| > 0 && c[0] == b && TagsOf(mem, c, b) && Touching(mem, c) && SumRoom(mem, c) == pages * PAGE
    && forall k :: 0 <= k < |c| - 1 ==> mem[c[k]].index == -1 || mem[c[k + 1]].index == -1
  }

  /** Every run held is tiled exactly by its split chain, which holds every tag of the run. */
  lemma Tiling(s: State, b: int)
    requires Valid(s) && b in s.runs
    ensures b in s.mem && Tiles(s.mem, ChainFrom(s.mem, s.runs, b), b, s.runs[b])
    ensures forall a :: a in s.mem && s.mem[a].base == b ==> a in ChainFrom(s.mem, s.runs, b)
  {
    assert StartOk(s.mem, b);
    ChainTiles(s.mem, s.runs, b);
    forall a | a in s.mem && s.mem[a].base == b ensures a in ChainFrom(s.mem, s.runs, b) {
      ChainHasAll(s.mem, s.runs, a);
    }
  }

  lemma ChainTiles(mem: Mem, runs: map<int, int>, b: int)
    requires Chains(mem, runs) && Coalesced(mem) && b in mem && b in runs && mem[b].base == b
    ensures Tiles(mem, ChainFrom(mem, runs, b), b, runs[b])
  {
    hide ChainOk, StartOk;
    ChainProperties(mem, runs, b);
    hide ChainFrom;
    var c := ChainFrom(mem, runs, b);
    forall k | 0 <= k < |c| - 1 ensures mem[c[k]].index == -1 || mem[c[k + 1]].index == -1 {
      assert c[k + 1] == mem[c[k]].splitRight;
    }
  }

  // ---------- Free lists ----------

  /** The free list from a onwards; a == 0 is the empty list. */
  ghost function ListFrom(mem: Mem, heads: seq<int>, clock: nat, a: int): seq<int>
    requires Links(mem, heads, clock) && (a == 0 || a in mem)
    decreases if a == 0 then 0 else mem[a].age + 1
  {
    if a == 0 then [] else
    assert LinkOk(mem, heads, clock, a);
    [a] + ListFrom(mem, heads, clock, mem[a].next)
  }

  function Nth(l: seq<int>, k: int): int
  {
    if 0 <= k < |l| then l[k] else 0
  }

  /** l is threaded on `next`, its tags have index i and get older along it. */
  ghost predicate Threaded(mem: Mem, l: seq<int>, i: int)
  {
    && (forall k :: 0 <= k < |l| ==> l[k] in mem && mem[l[k]].index == i && mem[l[k]].next == Nth(l, k + 1))
    && (forall j, k :: 0 <= j < k < |l| ==> mem[l[k]].age < mem[l[j]].age)
  }

  lemma {:induction false} ListProperties(mem: Mem, heads: seq<int>, clock: nat, a: int)
    requires Links(mem, heads, clock) && IsFree(mem, a)
    ensures var l := ListFrom(mem, heads, clock, a); |l| > 0 && l[0] == a && Threaded(mem, l, mem[a].index)
    decreases mem[a].age
  {
    assert LinkOk(mem, heads, clock, a);
    var n := mem[a].next;
    if n != 0 {
      ListProperties(mem, heads, clock, n);
      var l, m := ListFrom(mem, heads, clock, a), ListFrom(mem, heads, clock, n);
      assert l == [a] + m;
      forall k | 0 <= k < |l|
        ensures l[k] in mem && mem[l[k]].index == mem[a].index && mem[l[k]].next == Nth(l, k + 1)
      {
        assert k > 0 ==> l[k] == m[k - 1] && Nth(l, k + 1) == Nth(m, k);
      }
      forall j, k | 0 <= j < k < |l| ensures mem[l[k]].age < mem[l[j]].age {
        assert l[k] == m[k - 1] && (j > 0 ==> l[j] == m[j - 1]);
      }
    }
  }

  lemma {:induction false} ListHasAll(mem: Mem, heads: seq<int>, clock: nat, x: int)
    requires Links(mem, heads, clock) && IsFree(mem, x)
    ensures mem[x].index < MAX_EXP && IsFree(mem, heads[mem[x].index])
    ensures x in ListFrom(mem, heads, clock, heads[mem[x].index])
    decreases clock - mem[x].age
  {
    assert LinkOk(mem, heads, clock, x);
    var p := mem[x].prev;
    assert HeadOk(mem, heads, mem[x].index);
    if p == 0 {
      ListProperties(mem, heads, clock, x);
    } else {
      assert LinkOk(mem, heads, clock, p);
      ListHasAll(mem, heads, clock, p);
      var h := heads[mem[x].index];
      ListProperties(mem, heads, clock, h);
      var l := ListFrom(mem, heads, clock, h);
      var k :| 0 <= k < |l| && l[k] == p;
      assert Nth(l, k + 1) == x;
    }
  }

  lemma PrevThreaded(s: State, l: seq<int>, i: int, k: int)
    requires Links(s.mem, s.heads, s.clock) && Threaded(s.mem, l, i) && 0 <= i < MAX_EXP
    requires 0 <= k < |l| && l[0] == s.heads[i]
    ensures s.mem[l[k]].prev == Nth(l, k - 1)
  {
    if k > 0 {
      assert Nth(l, k) == s.mem[l[k - 1]].next;
      assert LinkOk(s.mem, s.heads, s.clock, l[k - 1]);
    } else {
      assert HeadOk(s.mem, s.heads, i);
    }
  }

  /** List i holds exactly the free tags whose room is of class i, once each, newest first, and is linked
      both ways. */
  lemma FreeListExact(s: State, i: int)
    requires Valid(s) && 0 <= i < MAX_EXP
    ensures s.heads[i] == 0 || s.heads[i] in s.mem
    ensures var l := ListFrom(s.mem, s.heads, s.clock, s.heads[i]);
      Threaded(s.mem, l, i) && forall k :: 0 <= k < |l| ==> s.mem[l[k]].prev == Nth(l, k - 1)
    ensures forall a :: a in ListFrom(s.mem, s.heads, s.clock, s.heads[i]) <==> a in s.mem && s.mem[a].index == i
    ensures forall a :: a in s.mem && s.mem[a].index == i <==>
      IsFree(s.mem, a) && HEADER <= s.mem[a].realSize && ClassOf(s.mem[a].realSize - HEADER) == i
  {
    var h := s.heads[i];
    assert HeadOk(s.mem, s.heads, i);
    var l := ListFrom(s.mem, s.heads, s.clock, h);
    if h != 0 {
      ListProperties(s.mem, s.heads, s.clock, h);
      forall k | 0 <= k < |l| ensures s.mem[l[k]].prev == Nth(l, k - 1) {
        PrevThreaded(s, l, i, k);
      }
    }
    forall a ensures a in l <==> a in s.mem && s.mem[a].index == i {
      if a in s.mem && s.mem[a].index == i {
        ListHasAll(s.mem, s.heads, s.clock, a);
      }
    }
  }

  /** The free tags of class i, newest first, as the search meets them. */
  lemma ListToSearch(s: State, i: int) returns (l: seq<int>)
    requires Valid(s) && 0 <= i < MAX_EXP
    ensures |s.heads| == MAX_EXP && Nth(l, 0) == s.heads[i] && Threaded(s.mem, l, i) && 0 !in s.mem
    ensures forall a :: a in s.mem && s.mem[a].index == i ==> a in l
  {
    FreeListExact(s, i);
    l := ListFrom(s.mem, s.heads, s.clock, s.heads[i]);
    if s.heads[i] != 0 {
      assert HeadOk(s.mem, s.heads, i);
      ListProperties(s.mem, s.heads, s.clock, s.heads[i]);
    }
  }

  // ---------- Payloads ----------

  /** The payload of an allocated block lies inside a run held, behind its own header, and meets neither
      header nor payload of any other tag; the block wastes less than 64 bytes. */
  lemma PayloadsApart(s: State, a: int, b: int)
    requires Valid(s) && IsLive(s.mem, a) && b in s.mem && a != b
    ensures var t, u := s.mem[a], s.mem[b];
      && t.base in s.runs && t.base <= a && a + HEADER + t.size <= t.base + s.runs[t.base] * PAGE
      && (a + HEADER + t.size <= b || b + u.realSize <= a)
      && (IsLive(s.mem, b) ==> a + HEADER + t.size <= b || b + HEADER + u.size <= a)
      && HEADER + t.size <= t.realSize <= HEADER + t.size + 63
  {
    assert ChainOk(s.mem, s.runs, a) && ChainOk(s.mem, s.runs, b);
    RoomApart(s.mem, s.runs, a, b);
  }

  // ---------- Whole runs ----------

  /** kernel_realloc from s to r: nothing, a free, a malloc, or a malloc followed by a free. The answer is None
      where the malloc fails and the first byte copied to NULL faults, page 0 being unmapped. */
  ghost predicate ReallocStep(s: State, p: int, size: int, g: int, r: State, ptr: Option<int>)
    requires Valid(s) && s.clock > 0 && GoodRequest(size) && GoodGrant(s.runs, size, g)
    requires p == 0 || IsLive(s.mem, p - HEADER)
  {
    if size == 0 then ptr == Some(0) && r == if p == 0 then s else Freed(s, p - HEADER)
    else if p == 0 then ptr != None && MallocStep(s, size, g, r, ptr.value)
    else exists mid: State, q: int :: MallocStep(s, size, g, mid, q) && MoveStep(s, p, mid, q, r, ptr)
  }

  /** The second half: after the malloc that led to mid and answered q. */
  ghost predicate MoveStep(s: State, p: int, mid: State, q: int, r: State, ptr: Option<int>)
    requires IsLive(s.mem, p - HEADER)
  {
    if q == 0 && s.mem[p - HEADER].size > 0 then ptr == None && r == mid
    else ptr == Some(q) && Valid(mid) && IsLive(mid.mem, p - HEADER) && r == Freed(mid, p - HEADER)
  }

  lemma NoBlockAtNull(s: State)
    requires Valid(s)
    ensures -HEADER !in Live(s.mem) && !IsLive(s.mem, -HEADER)
  {
    assert -HEADER in s.mem ==> ChainOk(s.mem, s.runs, -HEADER);
  }

  lemma LiveAt(mem: Mem, a: int)
    ensures IsLive(mem, a) <==> a in Live(mem)
    ensures a in Live(mem) ==> Live(mem)[a] == BlockOf(mem[a])
  {
  }

  /** What is allocated after a realloc that answered q: the old block no more and, unless q is NULL, a new one. */
  ghost predicate Reallocated(s: State, p: int, size: int, r: State, q: int)
  {
    if q == 0 then Live(r.mem) == Live(s.mem) - {p - HEADER}
    else
      && q - HEADER !in Live(s.mem) && IsLive(r.mem, q - HEADER) && r.mem[q - HEADER].size == size
      && Live(r.mem) == Live(s.mem)[q - HEADER := BlockOf(r.mem[q - HEADER])] - {p - HEADER}
  }

  /** kernel_realloc replaces one block and touches no other; it faults exactly if a block that is not empty has
      to move and the malloc fails, and then nothing has changed. Size 0 is a free, and answered with NULL. */
  lemma ReallocEffect(s: State, p: int, size: int, g: int, r: State, ptr: Option<int>)
    requires Valid(s) && s.clock > 0 && GoodRequest(size) && GoodGrant(s.runs, size, g)
    requires p == 0 || IsLive(s.mem, p - HEADER)
    requires ReallocStep(s, p, size, g, r, ptr)
    ensures Valid(r) && r.clock > 0
    ensures ptr == None <==>
      size != 0 && p != 0 && s.mem[p - HEADER].size > 0 && g == 0 && NoRoom(s.mem, size)
    ensures match ptr case None => r == s case Some(q) => Reallocated(s, p, size, r, q)
    ensures size == 0 ==> ptr == Some(0)
    ensures size != 0 && ptr != None ==> (ptr == Some(0) <==> g == 0 && NoRoom(s.mem, size))
  {
    hide Valid, Live, MallocStep, Freed;
    NoBlockAtNull(s);
    if size == 0 {
      if p != 0 {
        FreeEffect(s, p - HEADER);
      }
    } else if p == 0 {
      MallocEffect(s, size, g, r, ptr.value);
    } else {
      var mid: State, q: int :| MallocStep(s, size, g, mid, q) && MoveStep(s, p, mid, q, r, ptr);
      MallocEffect(s, size, g, mid, q);
      LiveAt(s.mem, p - HEADER);
      if ptr != None {
        FreeEffect(mid, p - HEADER);
        LiveAt(mid.mem, q - HEADER);
        LiveAt(r.mem, q - HEADER);
      }
    }
  }

  datatype Op =
    | Malloc(size: int, grant: int, ptr: int)
    | Free(ptr: int)
    | Realloc(p: int, size: int, grant: int, ptr: int)

  /** The heap before its first call. */
  function Initial(): State
  {
    State(map[], seq(MAX_EXP, _ => 0), seq(MAX_EXP, _ => 0), map[], 1)
  }

  /** One call from s to r: a malloc answered with ptr (the page layer offering `grant`), a free, or a realloc
      that did not fault. */
  ghost predicate Step(s: State, op: Op, r: State)
    requires Valid(s) && s.clock > 0
  {
    match op
    case Malloc(size, grant, ptr) =>
      GoodRequest(size) && GoodGrant(s.runs, size, grant) && MallocStep(s, size, grant, r, ptr)
    case Free(ptr) =>
      if ptr == 0 then r == s else IsLive(s.mem, ptr - HEADER) && r == Freed(s, ptr - HEADER)
    case Realloc(p, size, grant, ptr) =>
      && GoodRequest(size) && GoodGrant(s.runs, size, grant) && (p == 0 || IsLive(s.mem, p - HEADER))
      && ReallocStep(s, p, size, grant, r, Some(ptr))
  }

  ghost predicate Execution(states: seq<State>, ops: seq<Op>)
  {
    && |states| == |ops| + 1 && states[0] == Initial()
    && forall k :: 0 <= k < |ops| && Valid(states[k]) && states[k].clock > 0 ==> Step(states[k], ops[k], states[k + 1])
  }

  function HeldAfter(held: map<int, int>, op: Op): map<int, int>
  {
    match op
    case Malloc(size, _, ptr) => if ptr == 0 then held else held[ptr := size]
    case Free(ptr) => held - {ptr}
    case Realloc(p, size, _, ptr) => (if ptr == 0 then held else held[ptr := size]) - {p}
  }

  /** What a program holds after its calls: pointer to requested size. */
  function Held(ops: seq<Op>): map<int, int>
  {
    if ops == [] then map[] else HeldAfter(Held(ops[..|ops| - 1]), ops[|ops| - 1])
  }

  lemma InitialValid()
    ensures Valid(Initial())
  {
    var s := Initial();
    forall i | 0 <= i < MAX_EXP ensures s.complete[i] == |CompleteTags(s.mem, i)| <= MAX_COMPLETE {
      assert CompleteTags(s.mem, i) == {};
    }
  }

  /** The allocated tags are what the program holds. */
  ghost predicate Agrees(live: map<int, Block>, held: map<int, int>)
  {
    && 0 !in held
    && (forall a :: a in live ==> a + HEADER in held && held[a + HEADER] == live[a].size)
    && (forall p :: p in held ==> p - HEADER in live)
  }

  /** Along every run of malloc, free and realloc the invariant holds after each, and the allocated tags are exactly the
      pointers handed out and not yet freed, each with its requested size. */
  lemma {:induction false} EveryRun(states: seq<State>, ops: seq<Op>, n: nat)
    requires Execution(states, ops) && n <= |ops|
    ensures Valid(states[n]) && states[n].clock > 0 && Agrees(Live(states[n].mem), Held(ops[..n]))
  {
    if n == 0 {
      InitialValid();
    } else {
      var k := n - 1;
      EveryRun(states, ops, k);
      assert ops[..n][..k] == ops[..k];
      assert ops[..n][|ops[..n]| - 1] == ops[k];
      StepAgrees(states[k], ops[k], states[n], Held(ops[..k]));
    }
  }

  lemma AgreesAdd(live: map<int, Block>, held: map<int, int>, t: int, b: Block)
    requires Agrees(live, held) && t + HEADER != 0
    ensures Agrees(live[t := b], held[t + HEADER := b.size])
  {
  }

  lemma AgreesDrop(live: map<int, Block>, held: map<int, int>, t: int)
    requires Agrees(live, held)
    ensures Agrees(live - {t}, held - {t + HEADER})
  {
  }

  lemma NoNullHeld(live: map<int, Block>, held: map<int, int>)
    requires Agrees(live, held)
    ensures held - {0} == held
  {
  }

  lemma StepAgrees(s: State, op: Op, r: State, held: map<int, int>)
    requires Valid(s) && s.clock > 0 && Step(s, op, r) && Agrees(Live(s.mem), held)
    ensures Valid(r) && r.clock > 0 && Agrees(Live(r.mem), HeldAfter(held, op))
  {
    hide Agrees, MallocStep, Freed, Live, Valid;
    match op {
      case Malloc(size, grant, ptr) =>
        MallocEffect(s, size, grant, r, ptr);
        if ptr != 0 {
          AgreesAdd(Live(s.mem), held, ptr - HEADER, BlockOf(r.mem[ptr - HEADER]));
        }
      case Free(ptr) =>
        if ptr != 0 {
          FreeEffect(s, ptr - HEADER);
          AgreesDrop(Live(s.mem), held, ptr - HEADER);
        } else {
          NoNullHeld(Live(s.mem), held);
        }
      case Realloc(p, size, grant, ptr) =>
        ReallocEffect(s, p, size, grant, r, Some(ptr));
        if ptr != 0 {
          AgreesAdd(Live(s.mem), held, ptr - HEADER, BlockOf(r.mem[ptr - HEADER]));
          AgreesDrop(Live(s.mem)[ptr - HEADER := BlockOf(r.mem[ptr - HEADER])], held[ptr := size], p - HEADER);
        } else {
          AgreesDrop(Live(s.mem), held, p - HEADER);
        }
    }
  }

  /** In every run, after every call, every page run still held is tiled by its split chain, with no two free
      neighbours, and no tag of it is left out. */
  lemma RunsStayTiled(states: seq<State>, ops: seq<Op>, n: nat, b: int)
    requires Execution(states, ops) && n <= |ops| && b in states[n].runs
    ensures var s := states[n];
      && Chains(s.mem, s.runs) && b in s.mem && Tiles(s.mem, ChainFrom(s.mem, s.runs, b), b, s.runs[b])
      && forall a :: a in s.mem && s.mem[a].base == b ==> a in ChainFrom(s.mem, s.runs, b)
  {
    EveryRun(states, ops, n);
    Tiling(states[n], b);
  }

  /** In every run each cached counter is the number of free tags of its class that are whole runs, and at
      most five. */
  lemma CountersAgree(states: seq<State>, ops: seq<Op>, n: nat, i: nat)
    requires Execution(states, ops) && n <= |ops| && i < MAX_EXP
    ensures |states[n].complete| == MAX_EXP
    ensures states[n].complete[i] == |CompleteTags(states[n].mem, i)| && 0 <= states[n].complete[i] <= 5
  {
    EveryRun(states, ops, n);
  }

  /** In every run, two pointers held at once never share a byte, nor does one meet any tag header. */
  lemma HeldApart(states: seq<State>, ops: seq<Op>, n: nat, p: int, q: int)
    requires Execution(states, ops) && n <= |ops| && p in Held(ops[..n])
    ensures q in Held(ops[..n]) && p != q ==>
      p + Held(ops[..n])[p] <= q - HEADER || q + Held(ops[..n])[q] <= p - HEADER
    ensures q in states[n].mem ==> q + HEADER <= p || p + Held(ops[..n])[p] <= q
  {
    EveryRun(states, ops, n);
    var s := states[n];
    assert p - HEADER in Live(s.mem);
    if q in Held(ops[..n]) && p != q {
      assert q - HEADER in Live(s.mem);
      PayloadsApart(s, p - HEADER, q - HEADER);
    }
    if q in s.mem && q != p - HEADER {
      assert ChainOk(s.mem, s.runs, q);
      PayloadsApart(s, p - HEADER, q);
    }
  }
}
