// What each piece of list or chain surgery keeps.
module HeapLinks {
  import opened SizeClass
  import opened HeapState

  lemma InsertLinks(s: State, t: int, i: int)
    requires Links(s.mem, s.heads, s.clock) && IsLive(s.mem, t) && 0 <= i < MAX_EXP
    ensures var r := Insert(s, t, i); Links(r.mem, r.heads, r.clock)
  {
    var r := Insert(s, t, i);
    assert LinkOk(s.mem, s.heads, s.clock, t) && HeadOk(s.mem, s.heads, i);
    assert s.heads[i] in s.mem ==> LinkOk(s.mem, s.heads, s.clock, s.heads[i]);
    forall a | a in r.mem ensures LinkOk(r.mem, r.heads, r.clock, a) {
      assert LinkOk(s.mem, s.heads, s.clock, a);
    }
    forall j | 0 <= j < MAX_EXP ensures HeadOk(r.mem, r.heads, j) {
      assert HeadOk(s.mem, s.heads, j);
    }
  }

  lemma RemoveLinks(s: State, t: int)
    requires Links(s.mem, s.heads, s.clock) && IsFree(s.mem, t) && s.mem[t].index < MAX_EXP
    ensures var r := Remove(s, t); Links(r.mem, r.heads, r.clock)
  {
    assert LinkOk(s.mem, s.heads, s.clock, t);
    var r := Remove(s, t);
    forall a | a in r.mem ensures LinkOk(r.mem, r.heads, r.clock, a) {
      assert LinkOk(s.mem, s.heads, s.clock, a);
    }
    forall j | 0 <= j < MAX_EXP ensures HeadOk(r.mem, r.heads, j) {
      assert HeadOk(s.mem, s.heads, j);
    }
  }

  lemma MergeLinks(mem: Mem, heads: seq<int>, clock: nat, l: int, r: int)
    requires Links(mem, heads, clock) && l in mem && IsLive(mem, r) && l != r
    ensures Links(Merged(mem, l, r), heads, clock)
  {
    var m := Merged(mem, l, r);
    assert LinkOk(mem, heads, clock, r);
    forall a | a in m ensures LinkOk(m, heads, clock, a) {
      assert LinkOk(mem, heads, clock, a);
    }
    forall j | 0 <= j < MAX_EXP ensures HeadOk(m, heads, j) {
      assert HeadOk(mem, heads, j);
    }
  }

  lemma MergeChains(mem: Mem, runs: map<int, int>, l: int, r: int)
    requires Chains(mem, runs) && r in mem && l in mem && mem[l].splitRight == r
    ensures Chains(Merged(mem, l, r), runs)
  {
    var m := Merged(mem, l, r);
    assert ChainOk(mem, runs, l) && ChainOk(mem, runs, r);
    forall a | a in m ensures ChainOk(m, runs, a) {
      assert ChainOk(mem, runs, a);
    }
    forall b | b in runs ensures StartOk(m, b) {
      assert StartOk(mem, b);
    }
  }

  lemma CutLinks(mem: Mem, heads: seq<int>, clock: nat, t: int)
    requires Links(mem, heads, clock) && IsLive(mem, t) && clock > 0
    requires t + HEADER + mem[t].size !in mem && t + HEADER + mem[t].size != 0 && mem[t].size >= 0
    ensures Links(Cut(mem, t), heads, clock)
  {
    var m := Cut(mem, t);
    forall a | a in m ensures LinkOk(m, heads, clock, a) {
      if a in mem {
        assert LinkOk(mem, heads, clock, a);
      }
    }
    forall j | 0 <= j < MAX_EXP ensures HeadOk(m, heads, j) {
      assert HeadOk(mem, heads, j);
    }
  }

  lemma CutChains(mem: Mem, runs: map<int, int>, t: int)
    requires Chains(mem, runs) && t in mem && 0 < t && 0 <= mem[t].size
    requires HEADER + mem[t].size + HEADER <= mem[t].realSize
    requires t + HEADER + mem[t].size !in mem
    ensures Chains(Cut(mem, t), runs)
  {
    var m := Cut(mem, t);
    assert ChainOk(mem, runs, t);
    forall a | a in m ensures ChainOk(m, runs, a) {
      CutChainAt(mem, runs, t, a);
    }
    forall b | b in runs ensures StartOk(m, b) {
      assert StartOk(mem, b);
    }
  }

  lemma CutChainAt(mem: Mem, runs: map<int, int>, t: int, a: int)
    requires Chains(mem, runs) && t in mem && 0 < t && 0 <= mem[t].size
    requires HEADER + mem[t].size + HEADER <= mem[t].realSize
    requires t + HEADER + mem[t].size !in mem && a in Cut(mem, t)
    ensures ChainOk(Cut(mem, t), runs, a)
  {
    var n, r := t + HEADER + mem[t].size, mem[t].splitRight;
    assert ChainOk(mem, runs, t);
    if a == n {
      assert r != 0 ==> ChainOk(mem, runs, r);
    } else if a != t {
      assert ChainOk(mem, runs, a);
    }
  }

  /** Surgery on the free lists does not disturb the split chains. */
  lemma SameChains(mem: Mem, m: Mem, runs: map<int, int>)
    requires Chains(mem, runs) && m.Keys == mem.Keys
    requires forall a :: a in mem ==>
      && m[a].realSize == mem[a].realSize && m[a].base == mem[a].base
      && m[a].splitLeft == mem[a].splitLeft && m[a].splitRight == mem[a].splitRight
    ensures Chains(m, runs)
  {
    forall a | a in m ensures ChainOk(m, runs, a) {
      assert ChainOk(mem, runs, a);
    }
    forall b | b in runs ensures StartOk(m, b) {
      assert StartOk(mem, b);
    }
  }

  /** The counters stay right when no complete free tag appears or goes. */
  lemma SameCounts(mem: Mem, m: Mem, complete: seq<int>)
    requires Counted(mem, complete)
    requires forall i :: 0 <= i < MAX_EXP ==> CompleteTags(m, i) == CompleteTags(mem, i)
    ensures Counted(m, complete)
  {
  }
}
