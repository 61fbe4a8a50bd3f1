// The state of the boundary-tag heap and what one operation does to it.
// The C code works on header records at addresses (lib/kernel/memory/liballoc/liballoc.h:14-26), so memory is
// a map from address to header, a pointer is an address, and 0 is NULL.
module HeapState {
  import opened SizeClass

  const HEADER := 48
  const PAGE := 4096
  const MIN_PAGES := 16
  const MAX_COMPLETE := 5
  const LIMIT := 0x8000_0000

  /** One boundary_tag. `base` (start of the page run it was cut from) and `age` (when it last entered a
      free list) are history: no operation reads them. */
  datatype Tag = Tag(size: int, realSize: int, index: int, splitLeft: int, splitRight: int,
                     next: int, prev: int, base: int, age: nat)

  type Mem = map<int, Tag>

  /** `heads` is l_freePages, `complete` is l_completePages, `runs` maps each run held from the page
      layer to its number of pages. */
  datatype State = State(mem: Mem, heads: seq<int>, complete: seq<int>, runs: map<int, int>, clock: nat)

  // ---------- Invariants ----------

  /** Runs are disjoint, nonempty and small enough for the 32-bit size fields. */
  ghost predicate Runs(runs: map<int, int>)
  {
    && (forall b :: b in runs ==> 0 < b && MIN_PAGES <= runs[b] && runs[b] * PAGE < LIMIT)
    && (forall b, c :: b in runs && c in runs && b < c ==> b + runs[b] * PAGE <= c)
  }

  /** The split links of a: neighbours touch, links are mutual, a chain ends where its run ends. */
  ghost predicate ChainOk(mem: Mem, runs: map<int, int>, a: int)
    requires a in mem
  {
    var t := mem[a];
    && t.base in runs && HEADER <= t.realSize
    && t.base <= a && a + t.realSize <= t.base + runs[t.base] * PAGE
    && (if t.splitRight == 0 then a + t.realSize == t.base + runs[t.base] * PAGE
        else t.splitRight == a + t.realSize && t.splitRight in mem
             && mem[t.splitRight].splitLeft == a && mem[t.splitRight].base == t.base)
    && (if t.splitLeft == 0 then a == t.base
        else t.splitLeft in mem && mem[t.splitLeft].splitRight == a)
  }

  ghost predicate StartOk(mem: Mem, b: int)
  {
    b in mem && mem[b].base == b && mem[b].splitLeft == 0
  }

  /** The split chains: every tag is well linked, and each run starts with a tag. */
  ghost predicate Chains(mem: Mem, runs: map<int, int>)
  {
    && 0 !in mem
    && (forall a {:trigger ChainOk(mem, runs, a)} :: a in mem ==> ChainOk(mem, runs, a))
    && (forall b {:trigger StartOk(mem, b)} :: b in runs ==> StartOk(mem, b))
  }

  /** The list links of a: mutual, `age` falls along `next`, and only a head has no `prev`. */
  ghost predicate LinkOk(mem: Mem, heads: seq<int>, clock: nat, a: int)
    requires a in mem && |heads| == MAX_EXP
  {
    var t := mem[a];
    && -1 <= t.index < MAX_EXP && t.age < clock
    && (t.index == -1 ==> t.next == 0 && t.prev == 0)
    && (t.next != 0 ==>
          && t.next in mem && mem[t.next].prev == a
          && mem[t.next].index == t.index && mem[t.next].age < t.age)
    && (t.prev != 0 ==> t.prev in mem && mem[t.prev].next == a)
    && (t.index >= 0 && t.prev == 0 ==> heads[t.index] == a)
  }

  ghost predicate HeadOk(mem: Mem, heads: seq<int>, i: int)
    requires 0 <= i < |heads|
  {
    heads[i] != 0 ==> heads[i] in mem && mem[heads[i]].index == i && mem[heads[i]].prev == 0
  }

  ghost predicate Links(mem: Mem, heads: seq<int>, clock: nat)
  {
    && 0 !in mem && |heads| == MAX_EXP
    && (forall a {:trigger LinkOk(mem, heads, clock, a)} :: a in mem ==> LinkOk(mem, heads, clock, a))
    && (forall i {:trigger HeadOk(mem, heads, i)} :: 0 <= i < MAX_EXP ==> HeadOk(mem, heads, i))
  }

  /** A free tag is in the list of its size class. */
  ghost predicate Classed(mem: Mem)
  {
    forall a :: a in mem && mem[a].index >= 0 ==>
      HEADER <= mem[a].realSize && mem[a].index == ClassOf(mem[a].realSize - HEADER)
  }

  /** No two neighbours are both free. */
  ghost predicate Coalesced(mem: Mem)
  {
    forall a :: a in mem && mem[a].splitRight in mem ==> mem[a].index == -1 || mem[mem[a].splitRight].index == -1
  }

  /** Every allocated tag but `except` holds its request and wastes less than 64 bytes on it. */
  ghost predicate Tight(mem: Mem, except: int)
  {
    forall a :: a in mem && mem[a].index == -1 && a != except ==>
      0 <= mem[a].size && HEADER + mem[a].size <= mem[a].realSize <= HEADER + mem[a].size + 63
  }

  /** The free tags of class i that are a whole page run. */
  function CompleteTags(mem: Mem, i: int): set<int>
  {
    set a | a in mem && mem[a].index == i && mem[a].splitLeft == 0 && mem[a].splitRight == 0
  }

  /** The cached counters agree with the structure. */
  ghost predicate Counted(mem: Mem, complete: seq<int>)
  {
    && |complete| == MAX_EXP
    && forall i :: 0 <= i < MAX_EXP ==> complete[i] == |CompleteTags(mem, i)| <= MAX_COMPLETE
  }

  /** The heap invariant while the allocated tag `open` is being resized or freed. */
  ghost predicate Inv(s: State, open: int)
  {
    && Runs(s.runs) && Chains(s.mem, s.runs) && Links(s.mem, s.heads, s.clock)
    && Classed(s.mem) && Coalesced(s.mem) && Tight(s.mem, open) && Counted(s.mem, s.complete)
  }

  ghost predicate Valid(s: State)
  {
    Inv(s, 0)
  }

  predicate IsFree(mem: Mem, a: int)
  {
    a in mem && mem[a].index >= 0
  }

  predicate IsLive(mem: Mem, a: int)
  {
    a in mem && mem[a].index == -1
  }

  // ---------- The list and chain surgery ----------

  /** insert_tag: t becomes the head of list i. */
  function Insert(s: State, t: int, i: int): State
    requires 0 <= i < |s.heads|
  {
    s.(mem := map a | a in s.mem ::
                if a == t then s.mem[a].(index := i, next := s.heads[i], prev := 0, age := s.clock)
                else if a == s.heads[i] then s.mem[a].(prev := t)
                else s.mem[a],
       heads := s.heads[i := t], clock := s.clock + 1)
  }

  function Unlinked(mem: Mem, t: int): Mem
    requires t in mem
  {
    map a | a in mem ::
      if a == t then mem[a].(index := -1, next := 0, prev := 0)
      else if a == mem[t].prev then mem[a].(next := mem[t].next)
      else if a == mem[t].next then mem[a].(prev := mem[t].prev)
      else mem[a]
  }

  /** remove_tag: t leaves its list. */
  function Remove(s: State, t: int): State
    requires IsFree(s.mem, t) && s.mem[t].index < |s.heads|
  {
    s.(mem := Unlinked(s.mem, t),
       heads := if s.heads[s.mem[t].index] == t then s.heads[s.mem[t].index := s.mem[t].next] else s.heads)
  }

  /** melt_left and absorb_right: r is merged into its left neighbour l and is a header no more. */
  function Merged(mem: Mem, l: int, r: int): Mem
    requires l in mem && r in mem
  {
    map a | a in mem && a != r ::
      if a == l then mem[a].(realSize := mem[l].realSize + mem[r].realSize, splitRight := mem[r].splitRight)
      else if a == mem[r].splitRight then mem[a].(splitLeft := l)
      else mem[a]
  }

  /** split_tag up to its insert_tag: the tail of t becomes a tag of its own. */
  function Cut(mem: Mem, t: int): Mem
    requires t in mem
  {
    var n := t + HEADER + mem[t].size;
    map a | a in mem.Keys + {n} ::
      if a == n then Tag(0, mem[t].realSize - HEADER - mem[t].size, -1, t, mem[t].splitRight, 0, 0, mem[t].base, 0)
      else if a == t then mem[a].(realSize := HEADER + mem[t].size, splitRight := n)
      else if a == mem[t].splitRight then mem[a].(splitLeft := n)
      else mem[a]
  }
}
