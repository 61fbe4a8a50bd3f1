// The heap as the kernel runs it, updated in place: lib/kernel/memory/liballoc/liballoc.c.
// Each routine is proved to do what the step functions of HeapState, HeapSteps and HeapOps say.
module LibAlloc {
  import opened SizeClass
  import opened HeapState
  import opened HeapLinks
  import opened HeapSteps
  import opened HeapOps
  import opened HeapTheorems
  import opened Options
  import opened Copy

  /** The blocks lie in a memory of n bytes, each with its payload inside its room. */
  ghost predicate Inside(live: map<int, Block>, n: int)
  {
    forall a :: a in live ==>
      0 <= a && a + live[a].room <= n && 0 <= live[a].size && HEADER + live[a].size <= live[a].room
  }

  function Payload(m: seq<bv8>, a: int, size: int): seq<bv8>
    requires 0 <= a + HEADER <= a + HEADER + size <= |m|
  {
    m[a + HEADER..a + HEADER + size]
  }

  /** Every payload byte of every block in `live` is the same before and after. */
  ghost predicate SamePayloads(live: map<int, Block>, before: seq<bv8>, after: seq<bv8>)
  {
    |before| == |after| && Inside(live, |after|) &&
    forall a :: a in live ==> Payload(after, a, live[a].size) == Payload(before, a, live[a].size)
  }

  lemma RoomsUntouched(live: map<int, Block>, before: seq<bv8>, after: seq<bv8>, lo: int, hi: int)
    requires |before| == |after|
    requires forall i :: 0 <= i < |before| && before[i] != after[i] ==> lo <= i < hi
    requires Inside(live, |before|)
    requires forall a :: a in live ==> a + live[a].room <= lo || hi <= a
    ensures SamePayloads(live, before, after)
  {
  }

  /** Blocks that were allocated before the tag was taken do not meet it. */
  lemma RoomsApart(live: map<int, Block>, r: State, tag: int)
    requires Runs(r.runs) && Chains(r.mem, r.runs) && tag in r.mem && tag !in live && SameTags(live, r.mem)
    ensures forall a :: a in live ==> a + live[a].room <= tag || tag + r.mem[tag].realSize <= a
  {
    forall a | a in live ensures a + live[a].room <= tag || tag + r.mem[tag].realSize <= a {
      RoomApart(r.mem, r.runs, a, tag);
    }
  }

  function Min(a: int, b: int): int
  {
    if a < b then a else b
  }

  /** The n bytes at dst are now what the n bytes at src were. */
  ghost predicate Copied(before: seq<bv8>, after: seq<bv8>, src: int, dst: int, n: int)
  {
    && 0 <= n && 0 <= src && src + n <= |before| && 0 <= dst && dst + n <= |after|
    && after[dst..dst + n] == before[src..src + n]
  }

  lemma FreedIs(s: State, t: int)
    requires Valid(s) && IsLive(s.mem, t)
    ensures Inv(s, t) && ChainOk(s.mem, s.runs, t)
    ensures var (l, a) := AfterLeft(s, t);
      Inv(l, a) && IsLive(l.mem, a) && ChainOk(l.mem, l.runs, a) && Inv(AfterRight(l, a), a)
      && IsLive(AfterRight(l, a).mem, a) && HEADER <= AfterRight(l, a).mem[a].realSize < LIMIT
      && Freed(s, t) == Settled(AfterRight(l, a), a)
  {
    var (l, a) := AfterLeft(s, t);
    AfterLeftIsDone(s, t);
    AfterRightIsDone(l, a);
    SettledKeeps(AfterRight(l, a), a);
  }

  /** What the guards of the melt loops test. */
  lemma MeltGuards(s: State, t: int)
    requires Inv(s, t) && t in s.mem
    ensures var l, r := s.mem[t].splitLeft, s.mem[t].splitRight;
      && (IsFree(s.mem, l) <==> l != 0 && l in s.mem && s.mem[l].index >= 0)
      && (IsFree(s.mem, r) <==> r != 0 && r in s.mem && s.mem[r].index >= 0)
  {
  }

  lemma SamePayloadsSelf(live: map<int, Block>, m: seq<bv8>)
    requires Inside(live, |m|)
    ensures SamePayloads(live, m, m)
  {
  }

  lemma SamePayloadsLess(live: map<int, Block>, before: seq<bv8>, after: seq<bv8>, p: int)
    requires SamePayloads(live, before, after)
    ensures SamePayloads(live - {p}, before, after)
  {
  }

  /** Copying n bytes from the block of p into a place no block meets fills that place and no other block. */
  lemma CopyBetween(live: map<int, Block>, before: seq<bv8>, mid: seq<bv8>, p: int, dst: int, n: nat)
    requires SamePayloads(live, before, mid)
    requires p - HEADER in live && n <= live[p - HEADER].size
    requires 0 <= p && 0 <= dst && p + n <= |mid| && dst + n <= |mid|
    requires forall a :: a in live ==> a + live[a].room <= dst || dst + n <= a
    ensures Clear(dst, p, n)
    ensures Copied(before, Move(mid, dst, p, n), p, dst, n)
    ensures SamePayloads(live - {p - HEADER}, before, Move(mid, dst, p, n))
  {
    var after := Move(mid, dst, p, n);
    PayloadPart(before, mid, p, live[p - HEADER].size, n);
    assert after[dst..dst + n] == mid[p..p + n];
    RoomsUntouched(live, mid, after, dst, dst + n);
  }

  lemma PayloadPart(before: seq<bv8>, mid: seq<bv8>, p: int, size: int, n: nat)
    requires |before| == |mid| && 0 <= p <= p + size <= |mid| && n <= size
    requires Payload(mid, p - HEADER, size) == Payload(before, p - HEADER, size)
    ensures mid[p..p + n] == before[p..p + n]
  {
    assert mid[p..p + n] == mid[p..p + size][..n] && before[p..p + n] == before[p..p + size][..n];
  }

  lemma ChainAt(s: State, t: int)
    requires Inv(s, t) && t in s.mem
    ensures ChainOk(s.mem, s.runs, t)
  {
  }

  class Heap {
    var mem: Mem                      // the boundary tags
    const freePages: array<int>       // l_freePages
    const completePages: array<int>   // l_completePages
    const bytes: array<bv8>           // the memory the runs lie in
    var runs: map<int, int>           // what the page layer has handed out
    var clock: nat

    constructor (bytes: array<bv8>)
      ensures Ok() && View() == Initial() && this.bytes == bytes
      ensures fresh(freePages) && fresh(completePages)
    {
      mem, runs, clock := map[], map[], 1;
      freePages := new int[MAX_EXP](_ => 0);
      completePages := new int[MAX_EXP](_ => 0);
      this.bytes := bytes;
      new;
      InitialValid();
      assert freePages[..] == Initial().heads;
      assert completePages[..] == Initial().complete;
    }

    function View(): State
      reads this, freePages, completePages
    {
      State(mem, freePages[..], completePages[..], runs, clock)
    }

    /** The arrays are apart and every run lies in memory. */
    ghost predicate Placement()
      reads this
    {
      && freePages != completePages && freePages as object != bytes && completePages as object != bytes
      && freePages.Length == completePages.Length == MAX_EXP
      && forall b :: b in runs ==> 0 <= b && b + runs[b] * PAGE <= bytes.Length
    }

    ghost predicate Ok()
      reads this, freePages, completePages
    {
      Placement() && clock > 0 && Valid(View())
    }

    // ---------- The free lists ----------

    method InsertTag(tag: int, index: int)
      requires Placement() && Links(mem, freePages[..], clock) && IsLive(mem, tag)
      requires index < MAX_EXP && HEADER <= mem[tag].realSize < LIMIT
      modifies this`mem, this`clock, freePages
      ensures var i := if index < 0 then ClassOf(old(mem)[tag].realSize - HEADER) else index;
        0 <= i < MAX_EXP && View() == Insert(old(View()), tag, i)
    {
      ghost var s := View();
      assert LinkOk(mem, freePages[..], clock, tag);
      var realIndex := index;
      if index < 0 {
        realIndex := GetExp(mem[tag].realSize - HEADER);
        ClassBounds(mem[tag].realSize - HEADER);
        if realIndex < MIN_EXP {
          realIndex := MIN_EXP;
        }
      }
      assert HeadOk(mem, freePages[..], realIndex);
      hide Links;
      LinkAtHead(tag, realIndex);
      freePages[realIndex] := tag;
      clock := clock + 1;
    }

    /** The tag comes in front of the list's head. */
    method LinkAtHead(tag: int, index: int)
      requires Placement() && 0 <= index < MAX_EXP && HeadOk(mem, freePages[..], index) && IsLive(mem, tag)
      requires mem[tag].next == 0 && mem[tag].prev == 0 && 0 !in mem
      modifies this`mem
      ensures mem == Insert(old(View()), tag, index).mem
    {
      ghost var s := View();
      mem := mem[tag := mem[tag].(index := index, age := clock)];
      var head := freePages[index];
      if head != 0 {
        assert mem[head].prev == 0;  // so there is no earlier tag whose `next` would have to change
        mem := mem[tag := mem[tag].(prev := mem[head].prev, next := head)];
        mem := mem[head := mem[head].(prev := tag)];
      }
      assert mem == Insert(s, tag, index).mem;
    }

    method RemoveTag(tag: int)
      requires Placement() && Links(mem, freePages[..], clock) && IsFree(mem, tag)
      modifies this`mem, freePages
      ensures old(mem[tag].index) < MAX_EXP && View() == Remove(old(View()), tag)
    {
      ghost var s := View();
      assert LinkOk(mem, freePages[..], clock, tag);
      assert mem[tag].prev != 0 ==> LinkOk(mem, freePages[..], clock, mem[tag].prev);
      if freePages[mem[tag].index] == tag {
        freePages[mem[tag].index] := mem[tag].next;
      }
      if mem[tag].prev != 0 {
        mem := mem[mem[tag].prev := mem[mem[tag].prev].(next := mem[tag].next)];
      }
      if mem[tag].next != 0 {
        mem := mem[mem[tag].next := mem[mem[tag].next].(prev := mem[tag].prev)];
      }
      mem := mem[tag := mem[tag].(next := 0, prev := 0, index := -1)];
      assert mem == Unlinked(s.mem, tag);
    }

    // ---------- The split chains ----------

    method MeltLeft(tag: int) returns (left: int)
      requires Chains(mem, runs) && tag in mem && mem[tag].splitLeft != 0
      modifies this`mem
      ensures left == old(mem[tag].splitLeft) && left in old(mem) && mem == Merged(old(mem), left, tag)
    {
      ghost var m := mem;
      assert ChainOk(mem, runs, tag);
      left := mem[tag].splitLeft;
      assert ChainOk(mem, runs, left);
      mem := mem[left := mem[left].(realSize := mem[left].realSize + mem[tag].realSize,
                                    splitRight := mem[tag].splitRight)];
      if mem[tag].splitRight != 0 {
        mem := mem[mem[tag].splitRight := mem[mem[tag].splitRight].(splitLeft := left)];
      }
      mem := mem - {tag};
      assert mem == Merged(m, left, tag);
    }

    method AbsorbRight(tag: int)
      requires Placement() && Inv(View(), tag) && IsLive(mem, tag) && IsFree(mem, mem[tag].splitRight)
      modifies this`mem, freePages
      ensures old(mem[mem[tag].splitRight].index) < MAX_EXP && View() == Absorbed(old(View()), tag)
      ensures mem.Keys < old(mem).Keys
    {
      var right := mem[tag].splitRight;
      assert ChainOk(mem, runs, tag) && ChainOk(mem, runs, right);
      RemoveTag(right);
      hide Inv;
      TakeOver(tag, right);
    }

    /** `right`, the right neighbour, becomes part of `tag`. */
    method TakeOver(tag: int, right: int)
      requires tag in mem && right in mem && 0 !in mem && tag != right && mem[right].splitRight != tag
      requires mem[right].splitRight != right && (mem[right].splitRight != 0 ==> mem[right].splitRight in mem)
      modifies this`mem
      ensures mem == Merged(old(mem), tag, right) && mem.Keys == old(mem).Keys - {right}
    {
      ghost var m := mem;
      mem := mem[tag := mem[tag].(realSize := mem[tag].realSize + mem[right].realSize,
                                  splitRight := mem[right].splitRight)];
      if mem[right].splitRight != 0 {
        mem := mem[mem[right].splitRight := mem[mem[right].splitRight].(splitLeft := tag)];
      }
      mem := mem - {right};
      assert mem == Merged(m, tag, right);
    }

    /** Storing a header overwrites the bytes it lies in. */
    method PutHeader(a: int, tag: Tag)
      requires 0 <= a && a + HEADER <= bytes.Length
      modifies this`mem, bytes
      ensures mem == old(mem)[a := tag]
      ensures forall i :: 0 <= i < bytes.Length && !(a <= i < a + HEADER) ==> bytes[i] == old(bytes[i])
    {
      mem := mem[a := tag];
      forall i | a <= i < a + HEADER {
        bytes[i] := 0;
      }
    }

    /** The tail of `tag` behind its requested size becomes a free tag. */
    method SplitTag(tag: int) returns (newTag: int)
      requires Placement() && clock > 0 && Inv(View(), tag) && IsLive(mem, tag) && 0 <= mem[tag].size
      requires 2 * HEADER + 16 + mem[tag].size <= mem[tag].realSize < LIMIT
      modifies this`mem, this`clock, freePages, bytes
      ensures newTag == tag + HEADER + old(mem[tag].size)
      ensures var i := ClassOf(old(mem[tag].realSize - mem[tag].size) - 2 * HEADER);
        0 <= i < MAX_EXP && View() == Insert(old(View()).(mem := Cut(old(mem), tag)), newTag, i)
      ensures forall i :: 0 <= i < bytes.Length && !(newTag <= i < newTag + HEADER) ==> bytes[i] == old(bytes[i])
    {
      ghost var m := mem;
      CutFresh(View(), tag);
      assert ChainOk(mem, runs, tag);
      CutLinks(mem, freePages[..], clock, tag);
      var remainder := mem[tag].realSize - HEADER - mem[tag].size;
      newTag := tag + HEADER + mem[tag].size;
      PutHeader(newTag, Tag(0, remainder, -1, tag, mem[tag].splitRight, 0, 0, mem[tag].base, 0));
      if mem[newTag].splitRight != 0 {
        mem := mem[mem[newTag].splitRight := mem[mem[newTag].splitRight].(splitLeft := newTag)];
      }
      mem := mem[tag := mem[tag].(splitRight := newTag, realSize := mem[tag].realSize - mem[newTag].realSize)];
      assert mem == Cut(m, tag);
      InsertTag(newTag, -1);
    }

    /** A tag for a whole new run; 0 if the page layer has none. */
    method AllocateNewTag(size: int, grant: int) returns (tag: int)
      requires Ok() && GoodRequest(size) && GoodGrant(runs, size, grant)
      requires grant != 0 ==> grant + PagesFor(size) * PAGE <= bytes.Length
      modifies this`mem, this`runs, bytes
      ensures tag == grant
      ensures grant == 0 ==> View() == old(View())
      ensures grant != 0 ==> View() == Fresh(old(View()), size, grant) && Placement()
      ensures forall i :: 0 <= i < bytes.Length && bytes[i] != old(bytes[i]) ==>
        grant != 0 && grant <= i < grant + HEADER
    {
      var usage := size + HEADER;
      var pages := usage / PAGE;
      if usage % PAGE != 0 {
        pages := pages + 1;
      }
      if pages < MIN_PAGES {
        pages := MIN_PAGES;
      }
      tag := LiballocAlloc(pages, grant);
      if tag == 0 {
        return;
      }
      PutHeader(tag, Tag(size, pages * PAGE, -1, 0, 0, 0, 0, tag, 0));
    }

    // ---------- The page layer ----------

    /** liballoc_alloc: the page layer answers `grant`. */
    method LiballocAlloc(pages: int, grant: int) returns (base: int)
      modifies this`runs
      ensures base == grant && runs == if grant == 0 then old(runs) else old(runs)[grant := pages]
    {
      if grant != 0 {
        runs := runs[grant := pages];
      }
      return grant;
    }

    /** liballoc_free takes only what liballoc_alloc gave: the base and page count of a run still held. */
    method LiballocFree(base: int, pages: int)
      requires base in runs && runs[base] == pages
      modifies this`runs
      ensures runs == old(runs) - {base}
    {
      runs := runs - {base};
    }

    // ---------- kernel_malloc ----------

    /** A free tag with room for the request, out of its list, or a tag for a fresh run. */
    method TakeTag(size: int, grant: int) returns (tag: int)
      requires Ok() && GoodRequest(size) && GoodGrant(runs, size, grant)
      requires grant != 0 ==> grant + PagesFor(size) * PAGE <= bytes.Length
      modifies this, freePages, completePages, bytes
      ensures tag == 0 ==> View() == old(View()) && grant == 0 && forall t :: !Fits(mem, t, size)
      ensures tag != 0 ==>
        && Placement() && clock > 0 && Roomy(View(), tag, size)
        && TakeStep(old(View()), size, grant, View(), tag)
      ensures forall i :: 0 <= i < bytes.Length && bytes[i] != old(bytes[i]) ==>
        tag != 0 && tag !in old(mem) && tag <= i < tag + HEADER
    {
      hide Chosen, PagesFor, Roomy;
      ghost var s := View();
      var index := GetExp(size);
      ClassBounds(size);
      if index < MIN_EXP {
        index := MIN_EXP;
      }
      tag := Search(size, index);
      if tag == 0 {
        if grant != 0 {
          FreshRoomy(s, grant, size);
        }
        tag := AllocateNewTag(size, grant);
      } else {
        TakenRoomy(s, tag, size);
        RemoveTag(tag);
        if mem[tag].splitLeft == 0 && mem[tag].splitRight == 0 {
          completePages[index] := completePages[index] - 1;
        }
      }
    }

    /** Give the tag its size and split off what is left. */
    method PlaceTag(tag: int, size: int)
      requires Placement() && clock > 0 && Roomy(View(), tag, size) && 0 <= size
      modifies this`mem, this`clock, freePages, bytes
      ensures Valid(View()) && clock > 0 && View() == Placed(old(View()), tag, size)
      ensures forall i :: 0 <= i < bytes.Length && bytes[i] != old(bytes[i]) ==>
        tag <= i < tag + old(mem[tag].realSize)
    {
      ghost var s := View();
      PlacedKeeps(s, tag, size);
      SizedKeeps(s, tag, size);
      mem := mem[tag := mem[tag].(size := size)];
      var remainder := mem[tag].realSize - size - 2 * HEADER;
      if remainder > 0 {
        var childIndex := GetExp(remainder);
        if childIndex >= 0 {
          var newTag := SplitTag(tag);
        }
      }
      assert View() == Placed(s, tag, size);
    }

    method KernelMalloc(size: int, grant: int) returns (ptr: int)
      requires Ok() && GoodRequest(size) && GoodGrant(runs, size, grant)
      requires grant != 0 ==> grant + PagesFor(size) * PAGE <= bytes.Length
      modifies this, freePages, completePages, bytes
      ensures Ok() && MallocStep(old(View()), size, grant, View(), ptr)
      ensures ptr == 0 <==> grant == 0 && NoRoom(old(mem), size)
      ensures SamePayloads(old(Live(mem)), old(bytes[..]), bytes[..])
    {
      hide MallocStep, Valid, TakeStep, NoRoom;
      NoRoomIs(mem, size);
      ghost var s, before := View(), bytes[..];
      RoomsInside();
      var tag := TakeTag(size, grant);
      if tag == 0 {
        NothingTaken(s, size, grant);
        return 0;
      }
      ghost var m := mem;
      TakenRooms(s, size, grant, View(), tag);
      RoomsApart(Live(s.mem), View(), tag);
      TakeThenPlace(s, size, grant, View(), tag);
      PlaceTag(tag, size);
      RoomsUntouched(Live(s.mem), before, bytes[..], tag, tag + m[tag].realSize);
      ptr := tag + HEADER;
    }

    /** A block just allocated lies in memory, apart from those there were. */
    lemma BlocksForCopy(live: map<int, Block>, ptr: int, p: int)
      requires Ok() && IsLive(mem, ptr - HEADER) && ptr - HEADER !in live && p - HEADER in live
      requires Live(mem) == live[ptr - HEADER := BlockOf(mem[ptr - HEADER])]
      ensures 0 <= mem[ptr - HEADER].size && 0 <= ptr && ptr + mem[ptr - HEADER].size <= bytes.Length
      ensures forall a :: a in live ==> a + live[a].room <= ptr || ptr + mem[ptr - HEADER].size <= a
    {
      RoomsInside();
      var t := ptr - HEADER;
      forall a | a in live ensures a + live[a].room <= t || t + mem[t].realSize <= a {
        assert a in Live(mem) && Live(mem)[a] == live[a];
        RoomApart(mem, runs, a, t);
      }
      assert p - HEADER in Live(mem) && t in Live(mem);
    }

    lemma RoomsInside()
      requires Ok()
      ensures Inside(Live(mem), bytes.Length)
    {
      forall a | a in Live(mem)
        ensures 0 <= a && a + Live(mem)[a].room <= bytes.Length
        ensures 0 <= Live(mem)[a].size && HEADER + Live(mem)[a].size <= Live(mem)[a].room
      {
        assert ChainOk(mem, runs, a);
      }
    }

    /** The search loop: the first fitting tag of the list, that is the one freed last; 0 if none fits. */
    method Search(size: int, index: int) returns (tag: int)
      requires Ok() && GoodRequest(size) && index == ClassOf(size) < MAX_EXP
      ensures tag == 0 ==> forall a :: !Fits(mem, a, size)
      ensures tag != 0 ==> Fits(mem, tag, size) && Chosen(mem, tag, size)
      ensures if tag == 0 then NoRoom(mem, size) else IsNewestWithRoom(mem, tag, size)
    {
      ghost var l := ListToSearch(View(), index);
      ghost var k := 0;
      hide Valid, NoRoom, IsNewestWithRoom, ClassOf, Exp;
      tag := freePages[index];
      while tag != 0
        invariant 0 <= k <= |l| && tag == Nth(l, k) && (tag == 0 ==> k == |l|)
        invariant forall j :: 0 <= j < k ==> !Fits(mem, l[j], size)
        decreases |l| - k
      {
        if mem[tag].realSize - HEADER >= size + HEADER {
          break;
        }
        tag := mem[tag].next;
        k := k + 1;
      }
      SearchSays(mem, tag, size);
    }

    // ---------- kernel_free ----------

    /** Frees the block at ptr. Both melt loops stop after one round at most. */
    method KernelFree(ptr: int)
      requires Ok() && (ptr == 0 || IsLive(mem, ptr - HEADER))
      modifies this, freePages, completePages
      ensures Ok()
      ensures View() == if ptr == 0 then old(View()) else Freed(old(View()), ptr - HEADER)
    {
      hide Freed, Settled, MeltedLeft, Absorbed, Merged, Inv, Live;
      if ptr == 0 {
        return;
      }
      var tag := ptr - HEADER;
      ghost var s := View();
      FreedIs(s, tag);
      AfterLeftIsDone(s, tag);
      while mem[tag].splitLeft != 0 && mem[mem[tag].splitLeft].index >= 0
        invariant Placement() && clock > 0 && Inv(View(), tag) && IsLive(mem, tag) && ChainOk(mem, runs, tag)
        invariant (View() == s && tag == ptr - HEADER) || (View(), tag) == AfterLeft(s, ptr - HEADER)
        decreases mem.Keys
      {
        tag := MeltLeftTag(tag);
      }
      MeltGuards(View(), tag);
      ghost var l := View();
      AfterRightIsDone(l, tag);
      while mem[tag].splitRight != 0 && mem[mem[tag].splitRight].index >= 0
        invariant Placement() && clock > 0 && Inv(View(), tag) && IsLive(mem, tag) && ChainOk(mem, runs, tag)
        invariant View() == l || View() == AfterRight(l, tag)
        decreases mem.Keys
      {
        AbsorbKeeps(View(), tag);
        AbsorbRight(tag);
        ChainAt(View(), tag);
      }
      MeltGuards(View(), tag);
      Settle(tag);
    }

    /** One round of the left loop. */
    method MeltLeftTag(tag: int) returns (left: int)
      requires Placement() && Inv(View(), tag) && IsLive(mem, tag) && IsFree(mem, mem[tag].splitLeft)
      modifies this`mem, freePages
      ensures left == old(mem)[tag].splitLeft && left != tag && old(mem)[left].index < MAX_EXP
      ensures View() == MeltedLeft(old(View()), tag) && Inv(View(), left) && IsLive(mem, left)
      ensures ChainOk(mem, runs, left) && mem.Keys < old(mem).Keys
    {
      ghost var s := View();
      MeltLeftKeeps(s, tag);
      MergeLinks(mem, freePages[..], clock, mem[tag].splitLeft, tag);
      left := MeltLeft(tag);
      RemoveTag(left);
      assert mem.Keys == s.mem.Keys - {tag};
    }

    /** Back into its list, or, a whole run too many, back to the page layer. */
    method Settle(tag: int)
      requires Placement() && clock > 0 && Inv(View(), tag) && IsLive(mem, tag) && LiveNeighbours(mem, tag)
      modifies this, freePages, completePages
      ensures Ok() && HEADER <= old(mem)[tag].realSize < LIMIT && View() == Settled(old(View()), tag)
    {
      ghost var s := View();
      SettledKeeps(s, tag);
      ClassBounds(mem[tag].realSize - HEADER);
      var index := GetExp(mem[tag].realSize - HEADER);
      if index < MIN_EXP {
        index := MIN_EXP;
      }
      if mem[tag].splitLeft == 0 && mem[tag].splitRight == 0 {
        if completePages[index] == MAX_COMPLETE {
          var pages := mem[tag].realSize / PAGE;
          if mem[tag].realSize % PAGE != 0 {
            pages := pages + 1;
          }
          if pages < MIN_PAGES {
            pages := MIN_PAGES;
          }
          LiballocFree(tag, pages);
          mem := mem - {tag};
          return;
        }
        completePages[index] := completePages[index] + 1;
      }
      InsertTag(tag, index);
    }

    // ---------- kernel_realloc ----------

    /** Moves a block; None where the kernel faults on copying to NULL because the malloc failed. */
    method KernelRealloc(p: int, size: int, grant: int) returns (ptr: Option<int>)
      requires Ok() && GoodRequest(size) && GoodGrant(runs, size, grant)
      requires p == 0 || IsLive(mem, p - HEADER)
      requires grant != 0 ==> grant + PagesFor(size) * PAGE <= bytes.Length
      modifies this, freePages, completePages, bytes
      ensures Ok() && ReallocStep(old(View()), p, size, grant, View(), ptr)
      ensures ptr != None && ptr.value != 0 && p != 0 ==>
        Copied(old(bytes[..]), bytes[..], p, ptr.value, Min(old(mem)[p - HEADER].size, size))
      ensures SamePayloads(if ptr == None then old(Live(mem)) else old(Live(mem)) - {p - HEADER},
                           old(bytes[..]), bytes[..])
    {
      hide Freed, MallocStep, MoveStep, Valid, Live, SamePayloads, Copied;
      ghost var s, before := View(), bytes[..];
      RoomsInside();
      SamePayloadsSelf(Live(mem), before);
      SamePayloadsLess(Live(mem), before, before, p - HEADER);
      if size == 0 {
        KernelFree(p);
        return Some(0);
      }
      if p == 0 {
        var q := KernelMalloc(size, grant);
        SamePayloadsLess(Live(s.mem), before, bytes[..], p - HEADER);
        return Some(q);
      }
      ptr := MoveBlock(p, size, grant);
    }

    method MoveBlock(p: int, size: int, grant: int) returns (ptr: Option<int>)
      requires Ok() && GoodRequest(size) && GoodGrant(runs, size, grant) && IsLive(mem, p - HEADER)
      requires grant != 0 ==> grant + PagesFor(size) * PAGE <= bytes.Length
      requires size != 0 && p != 0
      modifies this, freePages, completePages, bytes
      ensures Ok() && ReallocStep(old(View()), p, size, grant, View(), ptr)
      ensures ptr != None && ptr.value != 0 ==>
        Copied(old(bytes[..]), bytes[..], p, ptr.value, Min(old(mem)[p - HEADER].size, size))
      ensures SamePayloads(if ptr == None then old(Live(mem)) else old(Live(mem)) - {p - HEADER},
                           old(bytes[..]), bytes[..])
    {
      hide Freed, MallocStep, Valid, Live, SamePayloads, Copied, GoodGrant;
      ghost var s, before := View(), bytes[..];
      LiveAt(mem, p - HEADER);
      RoomsInside();
      var realSize := mem[p - HEADER].size;
      if realSize > size {
        realSize := size;
      }
      var q := KernelMalloc(size, grant);
      MallocEffect(s, size, grant, View(), q);
      ghost var mid := View();
      if q == 0 && realSize > 0 {
        assert MoveStep(s, p, mid, q, View(), None);
        return None;
      }
      LiveAt(mem, p - HEADER);
      CopyPayload(p, q, realSize, s, before);
      FreeEffect(View(), p - HEADER);
      KernelFree(p);
      assert MoveStep(s, p, mid, q, View(), Some(q));
      return Some(q);
    }

    /** The copy from the old block to the new one, or of nothing to NULL. */
    method CopyPayload(p: int, q: int, n: nat, ghost s: State, ghost before: seq<bv8>)
      requires Ok() && p - HEADER in Live(s.mem) && SamePayloads(Live(s.mem), before, bytes[..])
      requires n <= Live(s.mem)[p - HEADER].size
      requires if q == 0 then n == 0 else
        && q - HEADER !in Live(s.mem) && IsLive(mem, q - HEADER) && n <= mem[q - HEADER].size
        && Live(mem) == Live(s.mem)[q - HEADER := BlockOf(mem[q - HEADER])]
      modifies bytes
      ensures q != 0 ==> Copied(before, bytes[..], p, q, n)
      ensures SamePayloads(Live(s.mem) - {p - HEADER}, before, bytes[..])
    {
      hide Valid, Live, Copied, WordCopy, Move;
      if q == 0 {
        SamePayloadsLess(Live(s.mem), before, bytes[..], p - HEADER);
        return;
      }
      BlocksForCopy(Live(s.mem), q, p);
      CopyBetween(Live(s.mem), before, bytes[..], p, q, n);
      WordCopyMoves(bytes[..], q, p, n);
      Memcpy(bytes, q, p, n);
    }
  }
}
