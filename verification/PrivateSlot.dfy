// Under an L4 entry whose tables are its own, every page mapped gets a frame of its own.
// lib/kernel/memory/pagination/PageTable.cpp:6-29, lib/kernel/memory/pagination/PageTable.cpp:101-106
module PrivateSlot {
  import opened Options
  import opened PageEntry
  import opened PageWalk
  import opened PageMap
  import opened MapRange

  predicate Under(q: seq<bv64>, base: bv64)
  {
    q == [] || q[0] == base
  }

  /** No table on the way of an address with L4 index `base` is reached in two ways. Slot 510, through which
      the tables are edited, is another way in, but from another L4 index. */
  ghost predicate Private(mem: Mem, root: bv64, base: bv64)
  {
    forall p: seq<bv64>, q: seq<bv64> :: |p| <= 3 && |q| <= 3 && Under(p, base) && Under(q, base) ==>
      (Walk(mem, root, p) != None && Walk(mem, root, p) == Walk(mem, root, q) ==> p == q)
  }

  // ---------- Create writes along its path only ----------

  ghost predicate OnPath(mem: Mem, table: bv64, path: seq<bv64>, frames: seq<bv64>, s: Slot)
    requires |path| <= |frames|
  {
    exists e :: 0 <= e < |path| && s == Slot(Target(mem, table, path[..e], frames), path[e])
  }

  /** The same when the whole path is built from fresh frames. */
  ghost predicate OnBuilt(table: bv64, path: seq<bv64>, frames: seq<bv64>, s: Slot)
    requires |path| <= |frames|
  {
    exists e :: 0 <= e < |path| && s == Slot(if e == 0 then table else frames[e - 1], path[e])
  }

  lemma OnBuiltBehind(table: bv64, path: seq<bv64>, frames: seq<bv64>, s: Slot)
    requires path != [] && |path| <= |frames| && OnBuilt(frames[0], path[1..], frames[1..], s)
    ensures OnBuilt(table, path, frames, s)
  {
    var e :| 0 <= e < |path[1..]| && s == Slot(if e == 0 then frames[0] else frames[1..][e - 1], path[1..][e]);
    assert s == Slot(frames[e], path[e + 1]);
  }

  lemma {:induction false} BuildOnPath(mem: Mem, table: bv64, path: seq<bv64>, frames: seq<bv64>, flags: bv16, s: Slot)
    requires |path| <= |frames| && Build(mem, table, path, frames, flags)(s) != mem(s)
    ensures OnBuilt(table, path, frames, s)
    decreases |path|
  {
    hide IsPresent, FrameOf, Enter;
    if path != [] {
      var s0 := Slot(table, path[0]);
      var m := Enter(mem, s0, frames[0], flags);
      EnterIs(mem, s0, frames[0], flags);
      if s != s0 {
        hide OnBuilt;
        BuildOnPath(m, frames[0], path[1..], frames[1..], flags, s);
        OnBuiltBehind(table, path, frames, s);
      } else {
        assert s == Slot(table, path[0]);
      }
    }
  }

  lemma {:induction false} CreateOnPath(mem: Mem, table: bv64, path: seq<bv64>, frames: seq<bv64>, flags: bv16,
                                        s: Slot)
    requires |path| <= |frames| && Create(mem, table, path, frames, flags)(s) != mem(s)
    ensures OnPath(mem, table, path, frames, s)
    decreases |path|
  {
    hide IsPresent, FrameOf, Enter, Build, OnPath, OnBuilt;
    var s0 := Slot(table, path[0]);
    if IsPresent(mem(s0)) {
      CreateOnPath(mem, FrameOf(mem(s0)), path[1..], frames, flags, s);
      OnPathBehind(mem, table, path, frames, s);
    } else {
      BuildOnPath(mem, table, path, frames, flags, s);
      OnPathBuilt(mem, table, path, frames, s);
    }
  }

  lemma OnPathBehind(mem: Mem, table: bv64, path: seq<bv64>, frames: seq<bv64>, s: Slot)
    requires path != [] && |path| <= |frames| && IsPresent(mem(Slot(table, path[0])))
    requires OnPath(mem, FrameOf(mem(Slot(table, path[0]))), path[1..], frames, s)
    ensures OnPath(mem, table, path, frames, s)
  {
    hide IsPresent, FrameOf;
    var t := FrameOf(mem(Slot(table, path[0])));
    var e :| 0 <= e < |path[1..]| && s == Slot(Target(mem, t, path[1..][..e], frames), path[1..][e]);
    assert path[..e + 1][1..] == path[1..][..e];
    assert s == Slot(Target(mem, table, path[..e + 1], frames), path[e + 1]);
  }

  lemma OnPathBuilt(mem: Mem, table: bv64, path: seq<bv64>, frames: seq<bv64>, s: Slot)
    requires path != [] && |path| <= |frames| && !IsPresent(mem(Slot(table, path[0])))
    requires OnBuilt(table, path, frames, s)
    ensures OnPath(mem, table, path, frames, s)
  {
    hide IsPresent, FrameOf;
    var e :| 0 <= e < |path| && s == Slot(if e == 0 then table else frames[e - 1], path[e]);
    assert s == Slot(Target(mem, table, path[..e], frames), path[e]);
  }

  // ---------- The tables of a path are distinct ----------

  lemma TablesDistinct(mem: Mem, root: bv64, base: bv64, path: seq<bv64>, frames: seq<bv64>, i: nat, j: nat)
    requires |path| == 4 <= |frames| && path[0] == base && i < j <= 3
    requires Private(mem, root, base) && Frames(frames) && Unreached(mem, root, frames, 3)
    ensures Target(mem, root, path[..i], frames) != Target(mem, root, path[..j], frames)
  {
    hide Walk, Used, Target;
    TargetIs(mem, root, path[..i], frames);
    TargetIs(mem, root, path[..j], frames);
    var a, b := Walk(mem, root, path[..i]), Walk(mem, root, path[..j]);
    if a == None {
      UsedPrefix(mem, root, path, i, j);
    } else if b != None {
      assert path[..i] != path[..j];
    }
  }

  // ---------- Only the path itself becomes new ----------

  lemma {:induction false} CreateOnly(mem: Mem, root: bv64, base: bv64, path: seq<bv64>, frames: seq<bv64>,
                                      flags: bv16, q: seq<bv64>)
    requires |path| == 4 <= |frames| && path[0] == base && Ready(mem, root, frames) && Private(mem, root, base)
    requires |q| <= 4 && Under(q, base)
    ensures q == path[..|q|] || Walk(Create(mem, root, path, frames, flags), root, q) == Walk(mem, root, q)
    decreases |q|
  {
    hide IsPresent, FrameOf, Create, Target, Private, Ready, Used;
    if q != [] {
      var k := |q| - 1;
      var m := Create(mem, root, path, frames, flags);
      assert q[..k + 1] == q;
      CreateOnly(mem, root, base, path, frames, flags, q[..k]);
      if q[..k] != path[..k] {
        if Walk(mem, root, q[..k]) != None {
          OffPath(mem, root, base, path, frames, flags, q[..k], q[k]);
        }
      } else if q[k] != path[k] {
        Branch(mem, root, base, path, frames, flags, k, q[k]);
      } else {
        assert q == path[..k + 1];
      }
      WalkOneMore(m, root, q, k);
      WalkOneMore(mem, root, q, k);
    }
  }

  /** A table reached by another way than the path is not written. */
  lemma OffPath(mem: Mem, root: bv64, base: bv64, path: seq<bv64>, frames: seq<bv64>, flags: bv16,
                r: seq<bv64>, i: bv64)
    requires |path| == 4 <= |frames| && path[0] == base && Ready(mem, root, frames) && Private(mem, root, base)
    requires |r| <= 3 && Under(r, base) && r != path[..|r|] && Walk(mem, root, r) != None
    ensures var s := Slot(Walk(mem, root, r).value, i); Create(mem, root, path, frames, flags)(s) == mem(s)
  {
    hide IsPresent, FrameOf, Create, Walk, Target, Used;
    var s := Slot(Walk(mem, root, r).value, i);
    if Create(mem, root, path, frames, flags)(s) != mem(s) {
      CreateOnPath(mem, root, path, frames, flags, s);
      var e :| 0 <= e < |path| && s == Slot(Target(mem, root, path[..e], frames), path[e]);
      TargetIs(mem, root, path[..e], frames);
    }
  }

  /** Nor is another entry of a table on the path; in a fresh one it is not present. */
  lemma Branch(mem: Mem, root: bv64, base: bv64, path: seq<bv64>, frames: seq<bv64>, flags: bv16, k: nat, i: bv64)
    requires |path| == 4 <= |frames| && path[0] == base && Ready(mem, root, frames) && Private(mem, root, base)
    requires k <= 3 && i != path[k]
    ensures var m := Create(mem, root, path, frames, flags); var t := Walk(m, root, path[..k]);
      && t != None && m(Slot(t.value, i)) == mem(Slot(t.value, i))
      && if Walk(mem, root, path[..k]) == None then !IsPresent(mem(Slot(t.value, i)))
         else t == Walk(mem, root, path[..k])
  {
    hide IsPresent, FrameOf, Create, Walk, Target, Used, Private;
    var m := Create(mem, root, path, frames, flags);
    CreateWalk(mem, root, path, frames, flags, 3, k);
    TargetIs(mem, root, path[..k], frames);
    var s := Slot(Target(mem, root, path[..k], frames), i);
    if m(s) != mem(s) {
      CreateOnPath(mem, root, path, frames, flags, s);
      var e :| 0 <= e < |path| && s == Slot(Target(mem, root, path[..e], frames), path[e]);
      if e != k {
        TablesDistinct(mem, root, base, path, frames, if e < k then e else k, if e < k then k else e);
      }
    }
  }

  lemma CreateKeepsPrivate(mem: Mem, root: bv64, base: bv64, path: seq<bv64>, frames: seq<bv64>, flags: bv16)
    requires |path| == 4 <= |frames| && path[0] == base && Ready(mem, root, frames) && Private(mem, root, base)
    ensures Private(Create(mem, root, path, frames, flags), root, base)
  {
    hide IsPresent, FrameOf, Create, Walk, Target, Used, Ready;
    var m := Create(mem, root, path, frames, flags);
    forall p: seq<bv64>, q: seq<bv64>
      | |p| <= 3 && |q| <= 3 && Under(p, base) && Under(q, base) && Walk(m, root, p) != None &&
        Walk(m, root, p) == Walk(m, root, q)
      ensures p == q
    {
      OldOrOnPath(mem, root, base, path, frames, flags, p);
      OldOrOnPath(mem, root, base, path, frames, flags, q);
      if p == path[..|p|] && q == path[..|q|] && |p| != |q| {
        var i, j := if |p| < |q| then |p| else |q|, if |p| < |q| then |q| else |p|;
        ReadyIs(mem, root, frames);
        TablesDistinct(mem, root, base, path, frames, i, j);
      }
    }
  }

  /** Afterwards a table under the slot is an old one, reached as before, or the path's, and then old or fresh. */
  lemma OldOrOnPath(mem: Mem, root: bv64, base: bv64, path: seq<bv64>, frames: seq<bv64>, flags: bv16, q: seq<bv64>)
    requires |path| == 4 <= |frames| && path[0] == base && Ready(mem, root, frames) && Private(mem, root, base)
    requires |q| <= 3 && Under(q, base) && Walk(Create(mem, root, path, frames, flags), root, q) != None
    ensures var t := Walk(Create(mem, root, path, frames, flags), root, q);
      && (q == path[..|q|] ==> t.value == Target(mem, root, q, frames))
      && if Walk(mem, root, q) == None then q == path[..|q|] && t.value in frames
         else Walk(mem, root, q) == t && t.value !in frames
  {
    hide IsPresent, FrameOf, Create, Walk, Target, Used, Private;
    CreateOnly(mem, root, base, path, frames, flags, q);
    if q == path[..|q|] {
      CreateWalk(mem, root, path, frames, flags, 3, |q|);
      TargetIs(mem, root, q, frames);
    }
  }

  // ---------- Pages of a range ----------

  /** Mapping other pages under the slot does not make a page translate. */
  lemma {:induction false} MissingStays(mem: Mem, root: bv64, base: bv64, va: bv64, n: nat, frames: seq<bv64>,
                                        flags: bv16, q: seq<bv64>)
    requires 4 * n <= |frames| && Ready(mem, root, frames) && Private(mem, root, base)
    requires forall i :: 0 <= i < n ==> PathOf(PageAt(va, i))[0] == base && PathOf(PageAt(va, i)) != q
    requires |q| == 4 && q[0] == base && Walk(mem, root, q) == None
    ensures Walk(MapPages(mem, root, va, n, frames, flags).0, root, q) == None
    decreases n
  {
    hide IsPresent, FrameOf, Create, Walk, Used, Ready, Private, PathOf, MapPages, Grown;
    if n == 0 {
      NoPages(mem, root, va, frames, flags);
    } else {
      assert PageAt(va, 0) == va;
      var path := PathOf(va);
      assert path[..4] == path;
      CreateOnly(mem, root, base, path, frames, flags, q);
      CreateKeepsPrivate(mem, root, base, path, frames, flags);
      FirstPage(mem, root, va, frames, flags);
      MapStep(mem, root, va, n, frames, flags);
      var m, next := Create(mem, root, path, frames, flags), va + PAGE_SIZE;
      forall i | 0 <= i < n - 1
        ensures PathOf(PageAt(next, i))[0] == base && PathOf(PageAt(next, i)) != q
      {
        assert PageAt(next, i) == PageAt(va, i + 1);
      }
      MissingStays(m, root, base, next, n - 1, frames[Used(mem, root, path)..], flags, q);
    }
  }
}
