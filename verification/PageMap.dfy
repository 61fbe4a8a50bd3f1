// Creating the missing entries of a path, as functions on memory.
// lib/kernel/memory/pagination/PageTable.cpp:6-29
module PageMap {
  import opened Options
  import opened PageEntry
  import opened PageWalk

  // ---------- One entry ----------

  /** The three stores of getOrCreateEntryLevel to one entry: its address, its flags, its present bit. */
  function Enter(mem: Mem, s: Slot, frame: bv64, flags: bv16): Mem
  {
    var a := Write(mem, s, SetAddr(mem(s), frame));
    var b := Write(a, s, SetFlags(a(s), flags));
    Write(b, s, SetFlag(b(s), PAGE_PRESENT, true))
  }

  /** Whatever the entry held, it is now present and points to the frame; its whole word is the frame's address, the
      flags and the present bit, and no other entry changes. */
  lemma EnterIs(mem: Mem, s: Slot, frame: bv64, flags: bv16)
    ensures var m := Enter(mem, s, frame, flags);
      && IsPresent(m(s)) && FrameOf(m(s)) == FrameOf(frame)
      && m(s) == EntryWord(frame, flags)
      && forall t: Slot :: t != s ==> m(t) == mem(t)
  {
    ThreeStores(mem(s), frame, flags);
    hide SetAddr, SetFlags, SetFlag, IsPresent, FrameOf, EntryWord;
  }

  // ---------- One path ----------

  /** Point path[0] of `table` to the first frame, path[1] of that frame to the second, and so on. */
  function Build(mem: Mem, table: bv64, path: seq<bv64>, frames: seq<bv64>, flags: bv16): Mem
    requires |path| <= |frames|
    decreases |path|
  {
    if path == [] then mem
    else
      Build(Enter(mem, Slot(table, path[0]), frames[0], flags), frames[0], path[1..], frames[1..], flags)
  }

  /** Follow the path while it is present, then build the rest of it from fresh frames. */
  function Create(mem: Mem, table: bv64, path: seq<bv64>, frames: seq<bv64>, flags: bv16): Mem
    requires |path| <= |frames|
    decreases |path|
  {
    if path == [] then mem
    else if IsPresent(mem(Slot(table, path[0]))) then
      Create(mem, FrameOf(mem(Slot(table, path[0]))), path[1..], frames, flags)
    else Build(mem, table, path, frames, flags)
  }

  /** How many frames that takes: the entries of the path from the first missing one on. */
  function Used(mem: Mem, table: bv64, path: seq<bv64>): (n: nat)
    ensures n <= |path|
    decreases |path|
  {
    if path == [] then 0
    else if IsPresent(mem(Slot(table, path[0]))) then Used(mem, FrameOf(mem(Slot(table, path[0]))), path[1..])
    else |path|
  }

  /** Where the path leads afterwards. */
  function Target(mem: Mem, table: bv64, path: seq<bv64>, frames: seq<bv64>): bv64
    requires |path| <= |frames|
    decreases |path|
  {
    if path == [] then table
    else if IsPresent(mem(Slot(table, path[0]))) then Target(mem, FrameOf(mem(Slot(table, path[0]))), path[1..], frames)
    else frames[|path| - 1]
  }

  // ---------- Fresh frames ----------

  /** Pairwise distinct page-aligned frames. */
  ghost predicate Frames(frames: seq<bv64>)
  {
    && (forall i :: 0 <= i < |frames| ==> FrameOf(frames[i]) == frames[i])
    && (forall i, j :: 0 <= i < j < |frames| ==> frames[i] != frames[j])
  }

  /** No walk of at most n steps from `table` leads to one of the frames. */
  ghost predicate Unreached(mem: Mem, table: bv64, frames: seq<bv64>, n: nat)
  {
    forall q: seq<bv64> :: |q| <= n && Walk(mem, table, q) != None ==> Walk(mem, table, q).value !in frames
  }

  /** Entries that were present outside the fresh frames are as before. */
  ghost predicate Keeps(mem: Mem, m: Mem, frames: seq<bv64>)
  {
    forall s: Slot :: s.frame !in frames && IsPresent(mem(s)) ==> m(s) == mem(s)
  }

  lemma UnreachedNext(mem: Mem, table: bv64, frames: seq<bv64>, n: nat, i: bv64)
    requires Unreached(mem, table, frames, n) && IsPresent(mem(Slot(table, i))) && n > 0
    ensures Unreached(mem, FrameOf(mem(Slot(table, i))), frames, n - 1)
  {
    hide IsPresent, FrameOf;
    var t := FrameOf(mem(Slot(table, i)));
    forall q: seq<bv64> | |q| <= n - 1 && Walk(mem, t, q) != None ensures Walk(mem, t, q).value !in frames {
      assert ([i] + q)[1..] == q;
      assert Walk(mem, table, [i] + q) == Walk(mem, t, q);
    }
  }

  lemma UnreachedSelf(mem: Mem, table: bv64, frames: seq<bv64>, n: nat)
    requires Unreached(mem, table, frames, n)
    ensures table !in frames
  {
    assert Walk(mem, table, []) == Some(table);
  }

  // ---------- Nothing that translated is lost ----------

  lemma {:induction false} BuildKeeps(mem: Mem, table: bv64, path: seq<bv64>, frames: seq<bv64>, flags: bv16)
    requires |path| <= |frames|
    ensures forall s: Slot ::
      s.frame !in frames && (path == [] || s != Slot(table, path[0])) ==>
      Build(mem, table, path, frames, flags)(s) == mem(s)
    decreases |path|
  {
    hide IsPresent, FrameOf, Enter;
    if path != [] {
      var s0 := Slot(table, path[0]);
      EnterIs(mem, s0, frames[0], flags);
      BuildKeeps(Enter(mem, s0, frames[0], flags), frames[0], path[1..], frames[1..], flags);
    }
  }

  lemma {:induction false} CreateKeeps(mem: Mem, table: bv64, path: seq<bv64>, frames: seq<bv64>, flags: bv16)
    requires |path| <= |frames|
    ensures Keeps(mem, Create(mem, table, path, frames, flags), frames)
    decreases |path|
  {
    hide IsPresent, FrameOf, Enter;
    if path != [] {
      var s := Slot(table, path[0]);
      if IsPresent(mem(s)) {
        CreateKeeps(mem, FrameOf(mem(s)), path[1..], frames, flags);
      } else {
        BuildKeeps(mem, table, path, frames, flags);
      }
    }
  }

  /** A walk through kept entries goes where it went. */
  lemma {:induction false} KeptWalk(mem: Mem, m: Mem, table: bv64, frames: seq<bv64>, n: nat, q: seq<bv64>)
    requires Keeps(mem, m, frames) && Unreached(mem, table, frames, n) && |q| <= n + 1 && Walk(mem, table, q) != None
    ensures Walk(m, table, q) == Walk(mem, table, q)
    decreases |q|
  {
    hide IsPresent, FrameOf;
    if q != [] {
      UnreachedSelf(mem, table, frames, n);
      if n > 0 {
        UnreachedNext(mem, table, frames, n, q[0]);
        KeptWalk(mem, m, FrameOf(mem(Slot(table, q[0]))), frames, n - 1, q[1..]);
      } else {
        assert q[1..] == [];
      }
    }
  }

  // ---------- The path is there afterwards ----------

  lemma {:induction false} BuildWalk(mem: Mem, table: bv64, path: seq<bv64>, frames: seq<bv64>, flags: bv16, j: nat)
    requires j <= |path| <= |frames| && Frames(frames) && table !in frames
    ensures Walk(Build(mem, table, path, frames, flags), table, path[..j]) ==
      Some(if j == 0 then table else frames[j - 1])
    decreases |path|
  {
    hide IsPresent, FrameOf, Enter;
    if j > 0 {
      var s := Slot(table, path[0]);
      var m := Enter(mem, s, frames[0], flags);
      EnterIs(mem, s, frames[0], flags);
      BuildKeeps(m, frames[0], path[1..], frames[1..], flags);
      assert Build(m, frames[0], path[1..], frames[1..], flags)(s) == m(s);
      assert Frames(frames[1..]);
      assert path[..j][1..] == path[1..][..j - 1];
      BuildWalk(m, frames[0], path[1..], frames[1..], flags, j - 1);
    }
  }

  /** After Create every prefix of the path translates: to where it led, or to the frame used for it. That the
      last table but one is no fresh frame is not needed. */
  lemma {:induction false} CreateWalk(mem: Mem, table: bv64, path: seq<bv64>, frames: seq<bv64>, flags: bv16,
                                      n: nat, j: nat)
    requires j <= |path| <= |frames| && Frames(frames) && |path| <= n + 2 && Unreached(mem, table, frames, n)
    ensures Walk(Create(mem, table, path, frames, flags), table, path[..j]) ==
      Some(Target(mem, table, path[..j], frames))
    decreases |path|
  {
    hide IsPresent, FrameOf, Enter;
    UnreachedSelf(mem, table, frames, n);
    if j > 0 {
      var s := Slot(table, path[0]);
      if IsPresent(mem(s)) {
        CreateKeeps(mem, table, path, frames, flags);
        assert path[..j][1..] == path[1..][..j - 1];
        if n > 0 {
          UnreachedNext(mem, table, frames, n, path[0]);
          CreateWalk(mem, FrameOf(mem(s)), path[1..], frames, flags, n - 1, j - 1);
        } else {
          CreateOne(mem, FrameOf(mem(s)), path[1..], frames, flags, j - 1);
        }
      } else {
        BuildWalk(mem, table, path, frames, flags, j);
      }
    }
  }

  lemma CreateOne(mem: Mem, table: bv64, path: seq<bv64>, frames: seq<bv64>, flags: bv16, j: nat)
    requires j <= |path| <= 1 && |path| <= |frames| && Frames(frames)
    ensures Walk(Create(mem, table, path, frames, flags), table, path[..j]) ==
      Some(Target(mem, table, path[..j], frames))
  {
    hide IsPresent, FrameOf, Enter;
    if j > 0 {
      var s := Slot(table, path[0]);
      assert path[..j] == path && path[1..] == [];
      EnterIs(mem, s, frames[0], flags);
      if !IsPresent(mem(s)) {
        assert Build(mem, table, path, frames, flags) == Enter(mem, s, frames[0], flags);
      }
    }
  }

  /** Creating one path is conservative, whatever the fresh frames hold: every address that translated still
      translates to the same place, the recursive slot included, and the path itself now translates. */
  lemma CreateIsConservative(mem: Mem, root: bv64, path: seq<bv64>, frames: seq<bv64>, flags: bv16, q: seq<bv64>)
    requires |path| <= 4 && |path| <= |frames| && Frames(frames) && Unreached(mem, root, frames, 3) && |q| <= 4
    ensures var m := Create(mem, root, path, frames, flags);
      && (Walk(mem, root, q) != None ==> Walk(m, root, q) == Walk(mem, root, q))
      && Walk(m, root, path) == Some(Target(mem, root, path, frames))
      && (SelfMapped(mem, root) ==> SelfMapped(m, root))
  {
    hide IsPresent, FrameOf, Enter;
    var m := Create(mem, root, path, frames, flags);
    CreateKeeps(mem, root, path, frames, flags);
    CreateWalk(mem, root, path, frames, flags, 3, |path|);
    assert path[..|path|] == path;
    UnreachedSelf(mem, root, frames, 3);
    if Walk(mem, root, q) != None {
      KeptWalk(mem, m, root, frames, 3, q);
    }
  }

  // ---------- The tables on a path ----------

  lemma {:induction false} TargetIs(mem: Mem, table: bv64, path: seq<bv64>, frames: seq<bv64>)
    requires |path| <= |frames|
    ensures Target(mem, table, path, frames) ==
      match Walk(mem, table, path)
      case None => if Used(mem, table, path) > 0 then frames[Used(mem, table, path) - 1] else table
      case Some(t) => t
    ensures Walk(mem, table, path) == None <==> Used(mem, table, path) > 0
    decreases |path|
  {
    hide IsPresent, FrameOf;
    if path != [] && IsPresent(mem(Slot(table, path[0]))) {
      TargetIs(mem, FrameOf(mem(Slot(table, path[0]))), path[1..], frames);
    }
  }

  /** Once a path is missing, each index more takes one frame more. */
  lemma {:induction false} UsedPrefix(mem: Mem, table: bv64, path: seq<bv64>, i: nat, j: nat)
    requires i <= j <= |path| && Used(mem, table, path[..i]) > 0
    ensures Used(mem, table, path[..j]) == Used(mem, table, path[..i]) + j - i
    decreases |path|
  {
    hide IsPresent, FrameOf;
    if IsPresent(mem(Slot(table, path[0]))) {
      assert path[..i][1..] == path[1..][..i - 1] && path[..j][1..] == path[1..][..j - 1];
      UsedPrefix(mem, FrameOf(mem(Slot(table, path[0]))), path[1..], i - 1, j - 1);
    }
  }

  // ---------- One entry at a time ----------

  lemma {:induction false} BuildSnoc(mem: Mem, table: bv64, path: seq<bv64>, i: bv64, frames: seq<bv64>, flags: bv16)
    requires |path| + 1 <= |frames|
    ensures var m := Build(mem, table, path, frames, flags);
      var s := Slot(if path == [] then table else frames[|path| - 1], i);
      Build(mem, table, path + [i], frames, flags) == Enter(m, s, frames[|path|], flags)
    decreases |path|
  {
    hide Enter;
    if path == [] {
      assert path + [i] == [i];
    } else {
      var s := Slot(table, path[0]);
      assert (path + [i])[1..] == path[1..] + [i];
      BuildSnoc(Enter(mem, s, frames[0], flags), frames[0], path[1..], i, frames[1..], flags);
    }
  }

  /** What the loop of getOrCreateEntryLevel does with one more index: nothing if the whole path is present,
      else it points the entry to the next frame. */
  lemma {:induction false} CreateSnoc(mem: Mem, table: bv64, path: seq<bv64>, i: bv64, frames: seq<bv64>, flags: bv16)
    requires |path| + 1 <= |frames|
    ensures var u, s := Used(mem, table, path), Slot(Target(mem, table, path, frames), i);
      var m, m' := Create(mem, table, path, frames, flags), Create(mem, table, path + [i], frames, flags);
      && (u == 0 ==> m == mem)
      && if u == 0 && IsPresent(mem(s)) then m' == m == mem && Used(mem, table, path + [i]) == 0
      else m' == Enter(m, s, frames[u], flags) && Used(mem, table, path + [i]) == u + 1
    decreases |path|
  {
    hide IsPresent, FrameOf, Enter;
    if path == [] {
      assert path + [i] == [i];
      BuildSnoc(mem, table, [], i, frames, flags);
    } else {
      assert (path + [i])[1..] == path[1..] + [i];
      if IsPresent(mem(Slot(table, path[0]))) {
        CreateSnoc(mem, FrameOf(mem(Slot(table, path[0]))), path[1..], i, frames, flags);
      } else {
        BuildSnoc(mem, table, path, i, frames, flags);
      }
    }
  }

  // ---------- Frames are not cleared ----------

  /** When the last table of a path is built from a fresh frame, every other entry of that table is what the
      frame happened to hold: the neighbouring page j translates exactly if that word had its present bit set. */
  lemma NeighbourIsGarbage(mem: Mem, root: bv64, path: seq<bv64>, i: bv64, j: bv64, frames: seq<bv64>, flags: bv16)
    requires |path| == 3 && 4 <= |frames| && Frames(frames) && Unreached(mem, root, frames, 3)
    requires Used(mem, root, path) > 0 && j != i
    ensures var t := frames[Used(mem, root, path) - 1]; var m := Create(mem, root, path + [i], frames, flags);
      Walk(m, root, path + [j]) == if IsPresent(mem(Slot(t, j))) then Some(FrameOf(mem(Slot(t, j)))) else None
  {
    hide IsPresent, FrameOf, Enter;
    var m := Create(mem, root, path + [i], frames, flags);
    var t := Target(mem, root, path, frames);
    TargetIs(mem, root, path, frames);
    CreateWalk(mem, root, path + [i], frames, flags, 3, 3);
    assert (path + [i])[..3] == path;
    WalkConcat(m, root, path, [j]);
    CreateSnoc(mem, root, path, i, frames, flags);
    CreateLeavesLast(mem, root, path, frames, flags, 3, Slot(t, j));
    EnterIs(Create(mem, root, path, frames, flags), Slot(t, i), frames[Used(mem, root, path)], flags);
    assert [j][1..] == [];
  }

  lemma {:induction false} BuildLeavesLast(mem: Mem, table: bv64, path: seq<bv64>, frames: seq<bv64>, flags: bv16,
                                           s: Slot)
    requires |path| <= |frames| && Frames(frames) && path != [] && s.frame == frames[|path| - 1] && table !in frames
    ensures Build(mem, table, path, frames, flags)(s) == mem(s)
    decreases |path|
  {
    hide IsPresent, FrameOf, Enter;
    var s0 := Slot(table, path[0]);
    var m := Enter(mem, s0, frames[0], flags);
    EnterIs(mem, s0, frames[0], flags);
    if |path| > 1 {
      assert Frames(frames[1..]);
      BuildLeavesLast(m, frames[0], path[1..], frames[1..], flags, s);
    }
  }

  /** The frame built last is pointed to but not written. */
  lemma {:induction false} CreateLeavesLast(mem: Mem, table: bv64, path: seq<bv64>, frames: seq<bv64>, flags: bv16,
                                            n: nat, s: Slot)
    requires |path| <= |frames| && Frames(frames) && |path| <= n && Unreached(mem, table, frames, n)
    requires Used(mem, table, path) > 0 && s.frame == Target(mem, table, path, frames)
    ensures Create(mem, table, path, frames, flags)(s) == mem(s)
    decreases |path|
  {
    hide IsPresent, FrameOf, Enter;
    UnreachedSelf(mem, table, frames, n);
    if IsPresent(mem(Slot(table, path[0]))) {
      UnreachedNext(mem, table, frames, n, path[0]);
      CreateLeavesLast(mem, FrameOf(mem(Slot(table, path[0]))), path[1..], frames, flags, n - 1, s);
    } else {
      BuildLeavesLast(mem, table, path, frames, flags, s);
    }
  }

  // ---------- What Create changes ----------

  /** Entries that changed are present and point into `used`. */
  ghost predicate LeadsInto(mem: Mem, m: Mem, used: seq<bv64>)
  {
    forall s: Slot :: m(s) != mem(s) ==> IsPresent(m(s)) && FrameOf(m(s)) in used
  }

  /** No entry in one of the frames changed. */
  ghost predicate Spares(mem: Mem, m: Mem, rest: seq<bv64>)
  {
    forall s: Slot :: s.frame in rest ==> m(s) == mem(s)
  }

  lemma {:induction false} BuildLeads(mem: Mem, table: bv64, path: seq<bv64>, frames: seq<bv64>, flags: bv16)
    requires |path| <= |frames| && Frames(frames)
    ensures LeadsInto(mem, Build(mem, table, path, frames, flags), frames[..|path|])
    decreases |path|
  {
    hide IsPresent, FrameOf, Enter;
    if path != [] {
      var s0 := Slot(table, path[0]);
      var m := Enter(mem, s0, frames[0], flags);
      EnterIs(mem, s0, frames[0], flags);
      assert Frames(frames[1..]);
      BuildLeads(m, frames[0], path[1..], frames[1..], flags);
      assert frames[1..][..|path| - 1] == frames[..|path|][1..];
      assert frames[0] == frames[..|path|][0];
    }
  }

  lemma {:induction false} CreateLeads(mem: Mem, table: bv64, path: seq<bv64>, frames: seq<bv64>, flags: bv16)
    requires |path| <= |frames| && Frames(frames)
    ensures LeadsInto(mem, Create(mem, table, path, frames, flags), frames[..Used(mem, table, path)])
    decreases |path|
  {
    hide IsPresent, FrameOf, Enter;
    if path != [] {
      if IsPresent(mem(Slot(table, path[0]))) {
        CreateLeads(mem, FrameOf(mem(Slot(table, path[0]))), path[1..], frames, flags);
      } else {
        BuildLeads(mem, table, path, frames, flags);
      }
    }
  }

  lemma {:induction false} BuildSpares(mem: Mem, table: bv64, path: seq<bv64>, frames: seq<bv64>, flags: bv16)
    requires |path| <= |frames| && Frames(frames) && table !in frames
    ensures Spares(mem, Build(mem, table, path, frames, flags), frames[|path|..])
    decreases |path|
  {
    hide IsPresent, FrameOf, Enter;
    if path != [] {
      var s0 := Slot(table, path[0]);
      EnterIs(mem, s0, frames[0], flags);
      assert Frames(frames[1..]);
      BuildSpares(Enter(mem, s0, frames[0], flags), frames[0], path[1..], frames[1..], flags);
      assert frames[1..][|path| - 1..] == frames[|path|..];
      assert table !in frames[|path|..];
    }
  }

  lemma {:induction false} CreateSpares(mem: Mem, table: bv64, path: seq<bv64>, frames: seq<bv64>, flags: bv16, n: nat)
    requires |path| <= |frames| && Frames(frames) && |path| <= n + 1 && Unreached(mem, table, frames, n)
    ensures Spares(mem, Create(mem, table, path, frames, flags), frames[Used(mem, table, path)..])
    decreases |path|
  {
    hide IsPresent, FrameOf, Enter;
    UnreachedSelf(mem, table, frames, n);
    if path != [] {
      if IsPresent(mem(Slot(table, path[0]))) {
        if n > 0 {
          UnreachedNext(mem, table, frames, n, path[0]);
          CreateSpares(mem, FrameOf(mem(Slot(table, path[0]))), path[1..], frames, flags, n - 1);
        } else {
          assert path[1..] == [];
        }
      } else {
        BuildSpares(mem, table, path, frames, flags);
      }
    }
  }

  /** Whatever the frames hold, the root's entries never come to point to a frame not yet handed out. */
  lemma RootStaysApart(mem: Mem, root: bv64, path: seq<bv64>, frames: seq<bv64>, flags: bv16)
    requires |path| <= |frames| && Frames(frames) && Unreached(mem, root, frames, 1)
    ensures var u := Used(mem, root, path);
      Frames(frames[u..]) && Unreached(Create(mem, root, path, frames, flags), root, frames[u..], 1)
  {
    hide IsPresent, FrameOf, Enter, Create;
    var m := Create(mem, root, path, frames, flags);
    var u := Used(mem, root, path);
    CreateLeads(mem, root, path, frames, flags);
    UnreachedSelf(mem, root, frames, 1);
    forall q: seq<bv64> | |q| <= 1 && Walk(m, root, q) != None ensures Walk(m, root, q).value !in frames[u..] {
      if q != [] {
        var s := Slot(root, q[0]);
        assert q[1..] == [];
        assert IsPresent(mem(s)) ==> Walk(mem, root, q) == Some(FrameOf(mem(s)));
        assert Walk(mem, root, q) != None ==> Walk(mem, root, q).value !in frames;
        assert m(s) != mem(s) ==> FrameOf(m(s)) in frames[..u];
      }
    }
  }

  // ---------- Cleared frames ----------

  /** No word of the frames has its present bit set. */
  ghost predicate Blank(mem: Mem, frames: seq<bv64>)
  {
    forall s: Slot :: s.frame in frames ==> !IsPresent(mem(s))
  }

  /** From a used frame a walk stays among the used frames. */
  lemma {:induction false} UsedWalk(mem: Mem, m: Mem, table: bv64, used: seq<bv64>, q: seq<bv64>)
    requires LeadsInto(mem, m, used) && Blank(mem, used) && table in used && Walk(m, table, q) != None
    ensures Walk(m, table, q).value in used
    decreases |q|
  {
    hide IsPresent, FrameOf;
    if q != [] {
      var s := Slot(table, q[0]);
      assert m(s) != mem(s);
      UsedWalk(mem, m, FrameOf(m(s)), used, q[1..]);
    }
  }

  /** A walk that is new leads to a used frame. */
  lemma {:induction false} NewWalk(mem: Mem, m: Mem, table: bv64, used: seq<bv64>, q: seq<bv64>)
    requires LeadsInto(mem, m, used) && Blank(mem, used) && Walk(m, table, q) != None
    ensures Walk(m, table, q) == Walk(mem, table, q) || Walk(m, table, q).value in used
    decreases |q|
  {
    hide IsPresent, FrameOf;
    if q != [] {
      var s := Slot(table, q[0]);
      if m(s) == mem(s) {
        NewWalk(mem, m, FrameOf(m(s)), used, q[1..]);
      } else {
        UsedWalk(mem, m, FrameOf(m(s)), used, q[1..]);
      }
    }
  }

  /** Frames the allocator may hand out: distinct, cleared, and none of them a table in use. They may well be
      mapped as pages, as the boot loader maps the first 2 MiB. */
  ghost predicate Ready(mem: Mem, root: bv64, frames: seq<bv64>)
  {
    Frames(frames) && Blank(mem, frames) && Unreached(mem, root, frames, 3)
  }

  lemma ReadyIs(mem: Mem, root: bv64, frames: seq<bv64>)
    requires Ready(mem, root, frames)
    ensures Frames(frames) && Unreached(mem, root, frames, 3)
  {
    hide Walk;
  }

  /** The frames not used stay cleared and in no table's place. */
  lemma CreateKeepsReady(mem: Mem, root: bv64, path: seq<bv64>, frames: seq<bv64>, flags: bv16)
    requires |path| <= 4 && |path| <= |frames| && Ready(mem, root, frames)
    ensures Ready(Create(mem, root, path, frames, flags), root, frames[Used(mem, root, path)..])
  {
    hide IsPresent, FrameOf, Enter;
    var m := Create(mem, root, path, frames, flags);
    var u := Used(mem, root, path);
    var used, rest := frames[..u], frames[u..];
    CreateLeads(mem, root, path, frames, flags);
    CreateSpares(mem, root, path, frames, flags, 3);
    assert Blank(m, rest) by {
      forall s: Slot | s.frame in rest ensures !IsPresent(m(s)) {
        assert m(s) == mem(s) && s.frame in frames;
      }
    }
    forall q: seq<bv64> | |q| <= 3 && Walk(m, root, q) != None ensures Walk(m, root, q).value !in rest {
      NewWalk(mem, m, root, used, q);
    }
  }
}
