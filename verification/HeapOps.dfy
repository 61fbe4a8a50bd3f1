// kernel_malloc and kernel_free as one step each, and what holds along every run of them.
module HeapOps {
  import opened SizeClass
  import opened HeapState
  import opened HeapLinks
  import opened HeapSteps

  // ---------- kernel_malloc ----------

  /** The test of the search loop: lib/kernel/memory/liballoc/liballoc.c:315-316. */
  predicate Fits(mem: Mem, a: int, size: int)
    requires 0 <= size
  {
    a in mem && mem[a].index == ClassOf(size) && mem[a].realSize - HEADER >= size + HEADER
  }

  /** a is the fitting tag of the request's class that was freed last. */
  ghost predicate Chosen(mem: Mem, a: int, size: int)
    requires 0 <= size
  {
    Fits(mem, a, size) && forall b :: Fits(mem, b, size) ==> mem[b].age <= mem[a].age
  }

  /** No free block of the request's class has room for it, its header and one more header. */
  ghost predicate NoRoom(mem: Mem, size: int)
    requires 0 <= size
  {
    forall a :: a in mem && mem[a].index == ClassOf(size) ==> mem[a].realSize < size + 2 * 48
  }

  lemma NoRoomIs(mem: Mem, size: int)
    requires 0 <= size
    ensures NoRoom(mem, size) <==> forall t :: !Fits(mem, t, size)
  {
    if !NoRoom(mem, size) {
      var a :| a in mem && mem[a].index == ClassOf(size) && mem[a].realSize >= size + 2 * 48;
      assert Fits(mem, a, size);
    }
  }

  /** a is the newest free block of the request's class with that much room. */
  ghost predicate IsNewestWithRoom(mem: Mem, a: int, size: int)
    requires 0 <= size
  {
    && a in mem && mem[a].index == ClassOf(size) && size + 2 * 48 <= mem[a].realSize
    && forall b :: b in mem && mem[b].index == ClassOf(size) && size + 2 * 48 <= mem[b].realSize ==>
      mem[b].age <= mem[a].age
  }

  lemma SearchSays(mem: Mem, a: int, size: int)
    requires 0 <= size && if a == 0 then forall t :: !Fits(mem, t, size) else Chosen(mem, a, size)
    ensures if a == 0 then NoRoom(mem, size) else IsNewestWithRoom(mem, a, size)
  {
    NoRoomIs(mem, size);
    if a != 0 {
      forall b | b in mem && mem[b].index == ClassOf(size) && size + 2 * 48 <= mem[b].realSize
        ensures mem[b].age <= mem[a].age
      {
        assert Fits(mem, b, size);
      }
    }
  }

  predicate GoodRequest(size: int)
  {
    0 <= size && PagesFor(size) * PAGE < LIMIT
  }

  /** `g` is what the page layer answers if asked: 0, or the base of a run that overlaps none held. */
  ghost predicate GoodGrant(runs: map<int, int>, size: int, g: int)
    requires 0 <= size
  {
    g == 0 || Grantable(runs, g, PagesFor(size))
  }

  lemma ReuseKeeps(s: State, t: int, size: int)
    requires Valid(s) && GoodRequest(size) && Fits(s.mem, t, size) && s.clock > 0
    ensures 0 <= s.mem[t].index < MAX_EXP && t in Taken(s, t).mem
    ensures HEADER + size <= Taken(s, t).mem[t].realSize < LIMIT && Valid(Placed(Taken(s, t), t, size))
  {
    TakenRoomy(s, t, size);
    PlacedKeeps(Taken(s, t), t, size);
  }

  /** The allocated tag t has room for the request and allocated neighbours. */
  ghost predicate Roomy(s: State, t: int, size: int)
  {
    Inv(s, t) && IsLive(s.mem, t) && LiveNeighbours(s.mem, t) && HEADER + size <= s.mem[t].realSize < LIMIT
  }

  lemma TakenRoomy(s: State, t: int, size: int)
    requires Valid(s) && GoodRequest(size) && Fits(s.mem, t, size)
    ensures 0 <= s.mem[t].index < MAX_EXP && Roomy(Taken(s, t), t, size)
  {
    ClassBounds(size);
    TakenKeeps(s, t);
    assert ChainOk(s.mem, s.runs, t);
    var l, r := s.mem[t].splitLeft, s.mem[t].splitRight;
    assert l in s.mem ==> LinkOk(s.mem, s.heads, s.clock, l);
    assert r in s.mem ==> LinkOk(s.mem, s.heads, s.clock, r);
  }

  lemma FreshRoomy(s: State, g: int, size: int)
    requires Valid(s) && GoodRequest(size) && Grantable(s.runs, g, PagesFor(size)) && s.clock > 0
    ensures g !in s.mem && Roomy(Fresh(s, size, g), g, size)
  {
    FreshKeeps(s, size, g);
  }

  function Reused(s: State, t: int, size: int): State
    requires Valid(s) && GoodRequest(size) && Fits(s.mem, t, size) && s.clock > 0
  {
    ReuseKeeps(s, t, size);
    Placed(Taken(s, t), t, size)
  }

  lemma FromFreshKeeps(s: State, size: int, g: int)
    requires Valid(s) && GoodRequest(size) && Grantable(s.runs, g, PagesFor(size)) && s.clock > 0
    ensures Valid(Placed(Fresh(s, size, g), g, size))
  {
    FreshRoomy(s, g, size);
    PlacedKeeps(Fresh(s, size, g), g, size);
  }

  lemma RoomApart(mem: Mem, runs: map<int, int>, a: int, b: int)
    requires Runs(runs) && Chains(mem, runs) && a in mem && b in mem && a != b
    ensures a + mem[a].realSize <= b || b + mem[b].realSize <= a
  {
    if a < b {
      NoOverlap(mem, runs, a, b);
    } else {
      NoOverlap(mem, runs, b, a);
    }
  }

  /** kernel_malloc from s to r: reuse the chosen tag, else a fresh run, else fail and change nothing. */
  ghost predicate MallocStep(s: State, size: int, g: int, r: State, ptr: int)
    requires Valid(s) && GoodRequest(size) && GoodGrant(s.runs, size, g) && s.clock > 0
  {
    if exists t :: Fits(s.mem, t, size) then
      Chosen(s.mem, ptr - HEADER, size) && r == Reused(s, ptr - HEADER, size)
    else if g == 0 then r == s && ptr == 0
    else r == Placed(Fresh(s, size, g), g, size) && ptr == g + HEADER
  }

  /** The first half of kernel_malloc when it finds a tag: from s to r, with `tag` out of every list. */
  ghost predicate TakeStep(s: State, size: int, g: int, r: State, tag: int)
    requires 0 <= size
  {
    if tag in s.mem then
      Chosen(s.mem, tag, size) && s.mem[tag].index < |s.heads| == |s.complete| && r == Taken(s, tag)
    else tag == g && g != 0 && (forall t :: !Fits(s.mem, t, size)) && r == Fresh(s, size, g)
  }

  lemma TakeThenPlace(s: State, size: int, g: int, r: State, tag: int)
    requires Valid(s) && GoodRequest(size) && GoodGrant(s.runs, size, g) && s.clock > 0
    requires TakeStep(s, size, g, r, tag) && Roomy(r, tag, size)
    ensures tag != 0 && MallocStep(s, size, g, Placed(r, tag, size), tag + HEADER)
    ensures 0 < tag && !(g == 0 && NoRoom(s.mem, size))
  {
    assert ChainOk(r.mem, r.runs, tag);
    NoRoomIs(s.mem, size);
  }

  lemma NothingTaken(s: State, size: int, g: int)
    requires Valid(s) && GoodRequest(size) && s.clock > 0
    requires g == 0 && forall t :: !Fits(s.mem, t, size)
    ensures MallocStep(s, size, g, s, 0)
  {
  }

  /** An allocated block: bytes requested, bytes taken, and the run it lies in. */
  datatype Block = Block(size: int, room: int, run: int)

  function BlockOf(t: Tag): Block
  {
    Block(t.size, t.realSize, t.base)
  }

  /** The allocated blocks by header address. */
  function Live(mem: Mem): map<int, Block>
  {
    map a | a in mem && mem[a].index == -1 :: BlockOf(mem[a])
  }

  lemma PlacedLive(s: State, t: int, size: int)
    requires t in s.mem && |s.heads| == MAX_EXP && 0 <= size && HEADER + size <= s.mem[t].realSize < LIMIT
    requires IsLive(s.mem, t) && Links(s.mem, s.heads, s.clock)
    requires Runs(s.runs) && Chains(s.mem, s.runs)
    ensures var r := Placed(s, t, size);
      IsLive(r.mem, t) && r.mem[t].size == size && Live(r.mem) == Live(s.mem)[t := BlockOf(r.mem[t])]
  {
    var r := Placed(s, t, size);
    var sized := s.mem[t := s.mem[t].(size := size)];
    var remainder := s.mem[t].realSize - size - 2 * HEADER;
    if remainder > 0 && Exp(remainder) >= 0 {
      SizedChains(s.mem, s.runs, t, size);
      CutFresh(s.(mem := sized), t);
      ClassBounds(remainder);
    }
  }

  lemma SizedChains(mem: Mem, runs: map<int, int>, t: int, size: int)
    requires Chains(mem, runs) && t in mem
    ensures Chains(mem[t := mem[t].(size := size)], runs)
  {
    SameChains(mem, mem[t := mem[t].(size := size)], runs);
  }

  lemma ReuseEffect(s: State, t: int, size: int)
    requires Valid(s) && GoodRequest(size) && Fits(s.mem, t, size) && s.clock > 0
    ensures var r := Reused(s, t, size);
      && t > 0 && t !in Live(s.mem) && IsLive(r.mem, t) && r.mem[t].size == size
      && Live(r.mem) == Live(s.mem)[t := BlockOf(r.mem[t])] && r.runs == s.runs
      && Valid(r) && r.clock > 0
  {
    ReuseKeeps(s, t, size);
    TakenKeeps(s, t);
    assert ChainOk(s.mem, s.runs, t);
    PlacedLive(Taken(s, t), t, size);
    TakenLive(s, t);
  }

  lemma TakenLive(s: State, t: int)
    requires IsFree(s.mem, t) && s.mem[t].index < |s.heads| == |s.complete|
    ensures Live(Taken(s, t).mem) == Live(s.mem)[t := BlockOf(s.mem[t])]
  {
  }

  lemma FreshEffect(s: State, g: int, size: int)
    requires Valid(s) && GoodRequest(size) && Grantable(s.runs, g, PagesFor(size)) && s.clock > 0
    ensures var r := Placed(Fresh(s, size, g), g, size);
      && g !in Live(s.mem) && IsLive(r.mem, g) && r.mem[g].size == size
      && Live(r.mem) == Live(s.mem)[g := BlockOf(r.mem[g])] && r.runs == s.runs[g := PagesFor(size)]
      && Valid(r) && r.clock > 0
  {
    FromFreshKeeps(s, size, g);
    FreshKeeps(s, size, g);
    PlacedLive(Fresh(s, size, g), g, size);
    FreshLive(s, g, size);
  }

  lemma FreshLive(s: State, g: int, size: int)
    requires 0 <= size && g !in s.mem
    ensures Live(Fresh(s, size, g).mem) == Live(s.mem)[g := Block(size, PagesFor(size) * PAGE, g)]
  {
  }

  /** The blocks in `live` still take the room they took. */
  ghost predicate SameTags(live: map<int, Block>, mem: Mem)
  {
    forall a :: a in live ==> a in mem && mem[a].realSize == live[a].room
  }

  lemma TakenRooms(s: State, size: int, g: int, r: State, tag: int)
    requires GoodRequest(size) && TakeStep(s, size, g, r, tag)
    ensures tag !in Live(s.mem) && SameTags(Live(s.mem), r.mem)
  {
    if tag in s.mem {
      ClassBounds(size);
    }
  }

  /** Malloc adds exactly one block and leaves every other as it was. It asks the page layer exactly when no free block
      of the class has room, fails exactly when that has nothing either, and then nothing changes. */
  lemma MallocEffect(s: State, size: int, g: int, r: State, ptr: int)
    requires Valid(s) && GoodRequest(size) && GoodGrant(s.runs, size, g) && s.clock > 0
    requires MallocStep(s, size, g, r, ptr)
    ensures Valid(r) && r.clock > 0
    ensures ptr == 0 <==> g == 0 && NoRoom(s.mem, size)
    ensures ptr == 0 ==> r == s
    ensures ptr != 0 ==> var t := ptr - HEADER;
      && t !in Live(s.mem) && IsLive(r.mem, t) && r.mem[t].size == size
      && Live(r.mem) == Live(s.mem)[t := BlockOf(r.mem[t])]
    ensures if NoRoom(s.mem, size) && g != 0 then ptr == g + HEADER && r.runs == s.runs[g := PagesFor(size)]
      else r.runs == s.runs
  {
    hide Valid, Placed, Reused, Fresh, Live, NoRoom, Fits;
    NoRoomIs(s.mem, size);
    if exists t :: Fits(s.mem, t, size) {
      ReuseEffect(s, ptr - HEADER, size);
    } else if g != 0 {
      FreshEffect(s, g, size);
    }
  }

  /** Lists 4 and 5 hold no room for a request and a header, so a request below 64 bytes finds no fit. */
  lemma SmallRequestsNeverReuse(s: State, size: int, a: int)
    requires Valid(s) && 0 <= size < 64
    ensures !Fits(s.mem, a, size)
  {
    if Fits(s.mem, a, size) {
      var payload := s.mem[a].realSize - HEADER;
      ClassBounds(size);
      assert ChainOk(s.mem, s.runs, a);
      ClassBounds(payload);
      assert Pow2(6) == 64 && Pow2(5) == 32;
      if ClassOf(size) > 5 {
        Pow2Monotonic(6, ClassOf(size));
      }
    }
  }

  /** Of `room` bytes from t on the request takes what it needs with its header; the rest, if it holds a header and 16
      bytes or more, is a free block behind it. */
  ghost predicate Shared(mem: Mem, t: int, size: int, room: int)
  {
    && t in mem
    && if room < size + 2 * 48 + 16 then mem[t].realSize == room
       else
         && mem[t].realSize == 48 + size
         && IsFree(mem, t + 48 + size) && mem[t + 48 + size].realSize == room - (48 + size)
  }

  /** Malloc takes a whole free block, or a fresh run of pages, and shares it. */
  lemma MallocRoom(s: State, size: int, g: int, r: State, ptr: int)
    requires Valid(s) && GoodRequest(size) && GoodGrant(s.runs, size, g) && s.clock > 0
    requires MallocStep(s, size, g, r, ptr) && ptr != 0
    ensures var t := ptr - 48; var room := if t in s.mem then s.mem[t].realSize else PagesFor(size) * 4096;
      Shared(r.mem, t, size, room)
  {
    hide Valid, Live, Fresh, Taken, Placed, Shared, Reused;
    if exists t :: Fits(s.mem, t, size) {
      ReusedRoom(s, ptr - HEADER, size);
    } else {
      FreshRoom(s, g, size);
    }
  }

  lemma ReusedRoom(s: State, t: int, size: int)
    requires Valid(s) && GoodRequest(size) && Fits(s.mem, t, size) && s.clock > 0
    ensures Shared(Reused(s, t, size).mem, t, size, s.mem[t].realSize)
  {
    hide Placed, Shared;
    TakenRoomy(s, t, size);
    assert IsFree(s.mem, t) && |s.heads| == |s.complete| == MAX_EXP;
    hide Inv;
    ReuseKeeps(s, t, size);
    PlacedRoom(Taken(s, t), t, size);
  }

  lemma FreshRoom(s: State, g: int, size: int)
    requires Valid(s) && GoodRequest(size) && Grantable(s.runs, g, PagesFor(size)) && s.clock > 0
    ensures |s.heads| == MAX_EXP && g !in s.mem && g in Fresh(s, size, g).mem
    ensures HEADER + size <= Fresh(s, size, g).mem[g].realSize < LIMIT
    ensures Shared(Placed(Fresh(s, size, g), g, size).mem, g, size, PagesFor(size) * 4096)
  {
    FreshRoomy(s, g, size);
    hide Placed, Shared, Chains, Links, Classed, Coalesced, Tight, Counted, Runs;
    PlacedRoom(Fresh(s, size, g), g, size);
  }

  lemma PlacedRoom(s: State, t: int, size: int)
    requires Roomy(s, t, size) && 0 <= size
    ensures |s.heads| == MAX_EXP && Shared(Placed(s, t, size).mem, t, size, s.mem[t].realSize)
  {
    var remainder := s.mem[t].realSize - size - 2 * HEADER;
    if remainder > 0 {
      ClassBounds(remainder);
    }
  }

  // ---------- kernel_free ----------

  /** Where the freed tag's block starts after the left melt, and the heap then. One melt is all the loop
      can do: see AfterLeftIsDone. */
  function AfterLeft(s: State, t: int): (State, int)
    requires Inv(s, t) && IsLive(s.mem, t)
  {
    if IsFree(s.mem, s.mem[t].splitLeft) then
      MeltLeftKeeps(s, t);
      (MeltedLeft(s, t), s.mem[t].splitLeft)
    else (s, t)
  }

  function AfterRight(s: State, t: int): State
    requires Inv(s, t) && IsLive(s.mem, t)
  {
    if IsFree(s.mem, s.mem[t].splitRight) then
      AbsorbKeeps(s, t);
      Absorbed(s, t)
    else s
  }

  /** The left loop stops after at most one melt; the right neighbour is still there to look at. */
  lemma AfterLeftIsDone(s: State, t: int)
    requires Inv(s, t) && IsLive(s.mem, t)
    ensures var (r, l) := AfterLeft(s, t);
      && Inv(r, l) && IsLive(r.mem, l) && !IsFree(r.mem, r.mem[l].splitLeft)
      && r.runs == s.runs && r.complete == s.complete && r.clock == s.clock
      && Live(r.mem) - {l} == Live(s.mem) - {t} && r.mem[l].base == s.mem[t].base
  {
    assert ChainOk(s.mem, s.runs, t);
    var l := s.mem[t].splitLeft;
    if IsFree(s.mem, l) {
      MeltLeftKeeps(s, t);
      assert ChainOk(s.mem, s.runs, l);
      var r := MeltedLeft(s, t);
      var k := s.mem[l].splitLeft;
      if k != 0 {
        assert ChainOk(s.mem, s.runs, k);
      }
      MeltedLive(s, t);
    }
  }

  lemma MeltedLive(s: State, t: int)
    requires Inv(s, t) && IsLive(s.mem, t) && IsFree(s.mem, s.mem[t].splitLeft) && s.mem[t].splitLeft != t
    requires s.mem[s.mem[t].splitLeft].index < |s.heads|
    ensures Live(MeltedLeft(s, t).mem) - {s.mem[t].splitLeft} == Live(s.mem) - {t}
  {
  }

  lemma AfterRightIsDone(s: State, t: int)
    requires Inv(s, t) && IsLive(s.mem, t) && !IsFree(s.mem, s.mem[t].splitLeft)
    ensures var r := AfterRight(s, t);
      && Inv(r, t) && IsLive(r.mem, t) && LiveNeighbours(r.mem, t)
      && r.runs == s.runs && r.complete == s.complete && r.clock == s.clock
      && Live(r.mem) - {t} == Live(s.mem) - {t} && r.mem[t].base == s.mem[t].base
      && r.mem[t].splitLeft == s.mem[t].splitLeft
  {
    assert ChainOk(s.mem, s.runs, t);
    IsEither(s, s.mem[t].splitLeft);
    IsEither(s, s.mem[t].splitRight);
    if IsFree(s.mem, s.mem[t].splitRight) {
      AbsorbKeeps(s, t);
      AbsorbedNeighbours(s, t);
      AbsorbedLive(s, t);
    }
  }

  lemma IsEither(s: State, a: int)
    requires Links(s.mem, s.heads, s.clock)
    ensures a in s.mem ==> IsFree(s.mem, a) || IsLive(s.mem, a)
  {
    assert a in s.mem ==> LinkOk(s.mem, s.heads, s.clock, a);
  }

  lemma AbsorbedNeighbours(s: State, t: int)
    requires Inv(s, t) && IsLive(s.mem, t) && IsFree(s.mem, s.mem[t].splitRight)
    requires s.mem[s.mem[t].splitRight].index < MAX_EXP && t in Absorbed(s, t).mem
    requires s.mem[t].splitLeft != 0 ==> IsLive(s.mem, s.mem[t].splitLeft)
    ensures LiveNeighbours(Absorbed(s, t).mem, t)
  {
    var q := s.mem[t].splitRight;
    var p := s.mem[q].splitRight;
    assert ChainOk(s.mem, s.runs, t) && ChainOk(s.mem, s.runs, q);
    assert LinkOk(s.mem, s.heads, s.clock, q);
    if p != 0 {
      assert LinkOk(s.mem, s.heads, s.clock, p);
    }
  }

  lemma AbsorbedLive(s: State, t: int)
    requires t in s.mem && IsFree(s.mem, s.mem[t].splitRight) && s.mem[s.mem[t].splitRight].index < |s.heads|
    ensures Live(Absorbed(s, t).mem) - {t} == Live(s.mem) - {t}
  {
  }

  /** kernel_free of the block with header t. */
  function Freed(s: State, t: int): State
    requires Valid(s) && IsLive(s.mem, t)
  {
    var (l, a) := AfterLeft(s, t);
    AfterLeftIsDone(s, t);
    AfterRightIsDone(l, a);
    SettledKeeps(AfterRight(l, a), a);
    Settled(AfterRight(l, a), a)
  }

  /** No other allocated block lies in t's run. */
  ghost predicate LastInRun(s: State, t: int)
    requires t in s.mem
  {
    forall a :: a in Live(s.mem) && a != t ==> Live(s.mem)[a].run != s.mem[t].base
  }

  lemma WholeIsAlone(s: State, t: int)
    requires Inv(s, t) && IsLive(s.mem, t) && LiveNeighbours(s.mem, t)
    ensures IsWhole(s.mem[t]) <==> LastInRun(s, t)
    ensures IsWhole(s.mem[t]) ==> t in s.runs && t == s.mem[t].base && s.mem[t].realSize == s.runs[t] * PAGE
  {
    assert ChainOk(s.mem, s.runs, t);
    if IsWhole(s.mem[t]) {
      forall a | a in Live(s.mem) && a != t ensures Live(s.mem)[a].run != s.mem[t].base {
        assert ChainOk(s.mem, s.runs, a);
        RoomApart(s.mem, s.runs, a, t);
      }
    } else {
      var k := if s.mem[t].splitLeft != 0 then s.mem[t].splitLeft else s.mem[t].splitRight;
      assert ChainOk(s.mem, s.runs, k) && k in Live(s.mem);
    }
  }

  /** Free removes exactly one block and touches no other. */
  lemma FreeEffect(s: State, t: int)
    requires Valid(s) && IsLive(s.mem, t)
    ensures Valid(Freed(s, t)) && Freed(s, t).clock >= s.clock
    ensures Live(Freed(s, t).mem) == Live(s.mem) - {t}
  {
    var (l, a) := AfterLeft(s, t);
    AfterLeftIsDone(s, t);
    AfterRightIsDone(l, a);
    SettledKeeps(AfterRight(l, a), a);
    SettledLive(AfterRight(l, a), a);
  }

  /** The page layer gets a run back exactly when its last block is freed while five free runs of its class
      stand by; it gets the run it gave, and nothing else. */
  lemma FreeRuns(s: State, t: int)
    requires Valid(s) && IsLive(s.mem, t)
    ensures s.mem[t].base in s.runs && 0 <= ClassOf(s.runs[s.mem[t].base] * PAGE - HEADER) < MAX_EXP
    ensures Freed(s, t).runs ==
      if LastInRun(s, t) && s.complete[ClassOf(s.runs[s.mem[t].base] * PAGE - HEADER)] == 5
      then s.runs - {s.mem[t].base} else s.runs
  {
    var (l, a) := AfterLeft(s, t);
    AfterLeftIsDone(s, t);
    var q := AfterRight(l, a);
    AfterRightIsDone(l, a);
    SettledKeeps(q, a);
    WholeIsAlone(q, a);
    RunBounds(s, t);
    SameLast(s, t, q, a);
  }

  lemma RunBounds(s: State, t: int)
    requires Runs(s.runs) && Chains(s.mem, s.runs) && t in s.mem
    ensures s.mem[t].base in s.runs && 0 <= ClassOf(s.runs[s.mem[t].base] * PAGE - HEADER) < MAX_EXP
  {
    assert ChainOk(s.mem, s.runs, t);
    ClassBounds(s.runs[s.mem[t].base] * PAGE - HEADER);
  }

  lemma SameLast(s: State, t: int, q: State, a: int)
    requires t in s.mem && a in q.mem && s.mem[t].base == q.mem[a].base
    requires Live(q.mem) - {a} == Live(s.mem) - {t}
    ensures LastInRun(s, t) <==> LastInRun(q, a)
  {
    forall x ensures (x in Live(q.mem) && x != a) <==> (x in Live(s.mem) && x != t) {
      assert (x in Live(q.mem) - {a}) <==> (x in Live(s.mem) - {t});
    }
    forall x | x in Live(q.mem) && x != a ensures Live(q.mem)[x] == Live(s.mem)[x] {
      assert (Live(q.mem) - {a})[x] == (Live(s.mem) - {t})[x];
    }
  }

  lemma SettledLive(s: State, t: int)
    requires t in s.mem && |s.heads| == |s.complete| == MAX_EXP && HEADER <= s.mem[t].realSize < LIMIT
    requires Links(s.mem, s.heads, s.clock)
    ensures var r := Settled(s, t); r.clock >= s.clock && Live(r.mem) == Live(s.mem) - {t}
  {
    ClassBounds(s.mem[t].realSize - HEADER);
  }

  // ---------- From a free to the next malloc ----------

  lemma ValidIsOpen(s: State, t: int)
    requires Valid(s)
    ensures Inv(s, t)
  {
  }

  /** The melted tag covers the block that was freed. */
  lemma LeftCovers(s: State, t: int)
    requires Inv(s, t) && IsLive(s.mem, t)
    ensures var (l, a) := AfterLeft(s, t); a in l.mem && a <= t < a + l.mem[a].realSize
  {
    hide Links, Classed, Coalesced, Tight, Counted;
    assert ChainOk(s.mem, s.runs, t);
    if IsFree(s.mem, s.mem[t].splitLeft) {
      MeltLeftKeeps(s, t);
      assert ChainOk(s.mem, s.runs, s.mem[t].splitLeft);
    }
  }

  lemma RightCovers(s: State, t: int)
    requires Inv(s, t) && IsLive(s.mem, t)
    ensures var r := AfterRight(s, t); t in r.mem && s.mem[t].realSize <= r.mem[t].realSize
  {
    hide Links, Classed, Coalesced, Tight, Counted;
    assert ChainOk(s.mem, s.runs, t);
    if IsFree(s.mem, s.mem[t].splitRight) {
      AbsorbKeeps(s, t);
      assert ChainOk(s.mem, s.runs, s.mem[t].splitRight);
    }
  }

  /** What kernel_free is about to put away: q with the melted tag c, which covers the block freed. */
  lemma MeltedTag(s: State, t: int) returns (q: State, c: int)
    requires Valid(s) && IsLive(s.mem, t)
    ensures Inv(q, c) && IsLive(q.mem, c) && LiveNeighbours(q.mem, c) && HEADER <= q.mem[c].realSize < LIMIT
    ensures |q.heads| == |q.complete| == MAX_EXP && Freed(s, t) == Settled(q, c)
    ensures q.runs == s.runs && q.complete == s.complete && q.mem[c].base == s.mem[t].base
    ensures c <= t < c + q.mem[c].realSize && (LastInRun(s, t) <==> LastInRun(q, c))
  {
    ValidIsOpen(s, t);
    hide AfterLeft, AfterRight, Valid, Settled, Inv, Live, LastInRun, LiveNeighbours;
    var (l, a) := AfterLeft(s, t);
    c := a;
    LeftCovers(s, t);
    AfterLeftIsDone(s, t);
    q := AfterRight(l, c);
    RightCovers(l, c);
    AfterRightIsDone(l, c);
    SettledKeeps(q, c);
    TablesFixed(q, c);
    SameLast(s, t, q, c);
  }

  lemma TablesFixed(s: State, t: int)
    requires Inv(s, t)
    ensures |s.heads| == |s.complete| == MAX_EXP
  {
  }

  /** After a free the free block that covers the block freed is the newest of all free blocks. */
  lemma FreedIsNewest(s: State, t: int, a: int, b: int)
    requires Valid(s) && IsLive(s.mem, t)
    requires var r := Freed(s, t); IsFree(r.mem, a) && a <= t < a + r.mem[a].realSize && IsFree(r.mem, b) && b != a
    ensures Freed(s, t).mem[b].age < Freed(s, t).mem[a].age
  {
    hide Freed, Settled, Inv, Valid;
    var q, c := MeltedTag(s, t);
    SettledNewest(q, c, t, a, b);
  }

  lemma SettledNewest(q: State, c: int, t: int, a: int, b: int)
    requires Inv(q, c) && IsLive(q.mem, c) && HEADER <= q.mem[c].realSize < LIMIT
    requires c <= t < c + q.mem[c].realSize
    requires var r := Settled(q, c); IsFree(r.mem, a) && a <= t < a + r.mem[a].realSize && IsFree(r.mem, b) && b != a
    ensures Settled(q, c).mem[b].age < Settled(q, c).mem[a].age
  {
    ClassBounds(q.mem[c].realSize - HEADER);
    if a != c {
      RoomApart(q.mem, q.runs, a, c);
    } else {
      assert LinkOk(q.mem, q.heads, q.clock, b);
    }
  }

  /** A freed block, coalesced, serves the next request of its class that it has room for, whatever other free blocks
      there are and without the page layer being asked. */
  lemma FreedServesNext(s: State, t: int, a: int, size: int, g: int, r: State, ptr: int)
    requires Valid(s) && IsLive(s.mem, t) && Valid(Freed(s, t)) && Freed(s, t).clock > 0
    requires IsFree(Freed(s, t).mem, a) && a <= t < a + Freed(s, t).mem[a].realSize
    requires GoodRequest(size) && GoodGrant(Freed(s, t).runs, size, g)
    requires Freed(s, t).mem[a].index == ClassOf(size) && size + 2 * 48 <= Freed(s, t).mem[a].realSize
    requires MallocStep(Freed(s, t), size, g, r, ptr)
    ensures ptr == a + 48 && r.runs == Freed(s, t).runs
  {
    hide Freed, Valid, Reused, Placed;
    var f := Freed(s, t);
    MallocEffect(f, size, g, r, ptr);
    assert Fits(f.mem, a, size);
    if ptr - HEADER != a {
      ClassBounds(size);
      FreedIsNewest(s, t, a, ptr - HEADER);
    }
  }

  /** In particular a block that had a run of its own, unless the run goes back to the page layer. */
  lemma RunServesNext(s: State, t: int, size: int, g: int, r: State, ptr: int)
    requires Valid(s) && IsLive(s.mem, t) && s.clock > 0 && LastInRun(s, t) && s.mem[t].base in s.runs
    requires var room := s.runs[s.mem[t].base] * 4096;
      && 48 <= room < 0x8000_0000 && 0 <= ClassOf(room - 48) < MAX_EXP && s.complete[ClassOf(room - 48)] != 5
      && GoodRequest(size) && ClassOf(size) == ClassOf(room - 48) && size + 2 * 48 <= room
    requires Valid(Freed(s, t)) && Freed(s, t).clock > 0
    requires GoodGrant(Freed(s, t).runs, size, g) && MallocStep(Freed(s, t), size, g, r, ptr)
    ensures ptr == s.mem[t].base + 48 && r.runs == s.runs
  {
    FreeRuns(s, t);
    RunIsFree(s, t);
    hide Freed, Valid, MallocStep;
    FreedServesNext(s, t, s.mem[t].base, size, g, r, ptr);
  }

  lemma RunIsFree(s: State, t: int)
    requires Valid(s) && IsLive(s.mem, t) && LastInRun(s, t) && s.mem[t].base in s.runs
    requires var room := s.runs[s.mem[t].base] * PAGE;
      && HEADER <= room < LIMIT && 0 <= ClassOf(room - HEADER) < MAX_EXP
      && s.complete[ClassOf(room - HEADER)] != MAX_COMPLETE
    ensures var f, b := Freed(s, t), s.mem[t].base;
      && IsFree(f.mem, b) && f.mem[b].realSize == s.runs[b] * PAGE && b <= t < b + f.mem[b].realSize
      && f.mem[b].index == ClassOf(f.mem[b].realSize - HEADER)
  {
    hide Freed, Settled, Inv, Valid, LastInRun;
    var q, c := MeltedTag(s, t);
    WholeIsAlone(q, c);
    RunSettled(q, c);
  }

  lemma RunSettled(q: State, c: int)
    requires c in q.mem && |q.heads| == |q.complete| == MAX_EXP && HEADER <= q.mem[c].realSize < LIMIT
    requires IsWhole(q.mem[c]) && 0 <= ClassOf(q.mem[c].realSize - HEADER) < MAX_EXP
    requires q.complete[ClassOf(q.mem[c].realSize - HEADER)] != MAX_COMPLETE
    ensures var f := Settled(q, c);
      && IsFree(f.mem, c) && f.mem[c].realSize == q.mem[c].realSize
      && f.mem[c].index == ClassOf(f.mem[c].realSize - HEADER)
  {
    ClassBounds(q.mem[c].realSize - HEADER);
  }
}
