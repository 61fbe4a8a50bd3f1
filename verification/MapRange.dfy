// Mapping a range of pages, as functions on memory.
// lib/kernel/memory/pagination/PageTable.cpp:101-106
module MapRange {
  import opened Options
  import opened PageEntry
  import opened PageWalk
  import opened PageMap

  const PAGE_SIZE: bv64 := 0x1000

  /** The k-th page from va on. */
  function PageAt(va: bv64, k: nat): bv64
    decreases k
  {
    if k == 0 then va else PageAt(va + PAGE_SIZE, k - 1)
  }

  /** Memory after mapping n pages from va on, and the number of frames that took. */
  function MapPages(mem: Mem, root: bv64, va: bv64, n: nat, frames: seq<bv64>, flags: bv16): (r: (Mem, nat))
    requires 4 * n <= |frames|
    ensures r.1 <= 4 * n
    decreases n
  {
    if n == 0 then (mem, 0)
    else
      var u := Used(mem, root, PathOf(va));
      var m1 := Create(mem, root, PathOf(va), frames, flags);
      var (m, v) := MapPages(m1, root, va + PAGE_SIZE, n - 1, frames[u..], flags);
      (m, u + v)
  }

  // ---------- Whatever the frames hold ----------

  lemma {:induction false} MapKeeps(mem: Mem, root: bv64, va: bv64, n: nat, frames: seq<bv64>, flags: bv16)
    requires 4 * n <= |frames|
    ensures Keeps(mem, MapPages(mem, root, va, n, frames, flags).0, frames)
    decreases n
  {
    hide IsPresent, PathOf, Create, Used;
    if n > 0 {
      var u := Used(mem, root, PathOf(va));
      CreateKeeps(mem, root, PathOf(va), frames, flags);
      MapKeeps(Create(mem, root, PathOf(va), frames, flags), root, va + PAGE_SIZE, n - 1, frames[u..], flags);
    }
  }

  /** Mapping any number of pages is conservative, whatever the fresh frames hold: if none of them is a table
      in use, every address that translated still translates to the same place. */
  lemma MapIsConservative(mem: Mem, root: bv64, va: bv64, n: nat, frames: seq<bv64>, flags: bv16, q: seq<bv64>)
    requires 4 * n <= |frames| && Unreached(mem, root, frames, 3) && |q| <= 4
    ensures var m := MapPages(mem, root, va, n, frames, flags).0;
      && (Walk(mem, root, q) != None ==> Walk(m, root, q) == Walk(mem, root, q))
      && (SelfMapped(mem, root) ==> SelfMapped(m, root))
  {
    hide IsPresent, FrameOf, MapPages, Walk;
    var m := MapPages(mem, root, va, n, frames, flags).0;
    MapKeeps(mem, root, va, n, frames, flags);
    UnreachedSelf(mem, root, frames, 3);
    if Walk(mem, root, q) != None {
      KeptWalk(mem, m, root, frames, 3, q);
    }
  }

  /** A walk whose tables all keep their entries goes where it went. */
  lemma {:induction false} KeptPath(mem: Mem, m: Mem, table: bv64, frames: seq<bv64>, q: seq<bv64>)
    requires Keeps(mem, m, frames) && Walk(mem, table, q) != None
    requires forall j :: 0 <= j < |q| ==>
      Walk(mem, table, q[..j]) != None && Walk(mem, table, q[..j]).value !in frames
    ensures Walk(m, table, q) == Walk(mem, table, q)
    decreases |q|
  {
    hide IsPresent, FrameOf;
    if q != [] {
      assert q[..0] == [];
      var s := Slot(table, q[0]);
      var t := FrameOf(mem(s));
      forall j | 0 <= j < |q[1..]|
        ensures Walk(mem, t, q[1..][..j]) != None && Walk(mem, t, q[1..][..j]).value !in frames
      {
        assert q[..j + 1][1..] == q[1..][..j];
        assert Walk(mem, table, q[..j + 1]) == Walk(mem, t, q[1..][..j]);
      }
      KeptPath(mem, m, t, frames, q[1..]);
    }
  }

  /** The first page of the range translates afterwards, whatever the frames hold: to where it led or, if it did
      not translate, to the last of the frames it took. */
  lemma MapsFirstPage(mem: Mem, root: bv64, va: bv64, n: nat, frames: seq<bv64>, flags: bv16)
    requires 0 < n && 4 * n <= |frames| && Frames(frames) && Unreached(mem, root, frames, 3)
    ensures var m := MapPages(mem, root, va, n, frames, flags).0;
      Walk(m, root, PathOf(va)) == Some(Target(mem, root, PathOf(va), frames))
  {
    hide IsPresent, FrameOf, Walk, PathOf, Create, Used, Target, Unreached, MapPages;
    var path, u := PathOf(va), Used(mem, root, PathOf(va));
    var m1 := Create(mem, root, path, frames, flags);
    var m := MapPages(mem, root, va, n, frames, flags).0;
    MapStep(mem, root, va, n, frames, flags);
    MapKeeps(m1, root, va + PAGE_SIZE, n - 1, frames[u..], flags);
    forall j | 0 <= j < |path|
      ensures Walk(m1, root, path[..j]) != None && Walk(m1, root, path[..j]).value !in frames[u..]
    {
      CreateWalk(mem, root, path, frames, flags, 3, j);
      TableNotNext(mem, root, path, frames, j);
    }
    CreateWalk(mem, root, path, frames, flags, 3, 4);
    assert path[..4] == path;
    KeptPath(m1, m, root, frames[u..], path);
  }

  /** A table on the path is an old one or a frame already taken. */
  lemma {:induction false} TableNotNext(mem: Mem, root: bv64, path: seq<bv64>, frames: seq<bv64>, j: nat)
    requires j <= |path| <= 4 && |path| <= |frames| && j <= 3 && Frames(frames) && Unreached(mem, root, frames, 3)
    ensures Target(mem, root, path[..j], frames) !in frames[Used(mem, root, path)..]
  {
    hide IsPresent, FrameOf, Walk, Used, Target;
    TargetIs(mem, root, path[..j], frames);
    if Walk(mem, root, path[..j]) == None {
      UsedPrefix(mem, root, path, j, |path|);
      assert path[..|path|] == path;
    }
  }

  // ---------- Cleared frames ----------

  /** Conservative and isolating: from mem to m, what translated still translates to the same place, and what
      translates now did so before or leads into one of the frames used. */
  ghost predicate Grown(mem: Mem, m: Mem, root: bv64, used: seq<bv64>)
  {
    forall q: seq<bv64> :: |q| <= 4 ==>
      && (Walk(mem, root, q) != None ==> Walk(m, root, q) == Walk(mem, root, q))
      && (Walk(m, root, q) != None ==> Walk(m, root, q) == Walk(mem, root, q) || Walk(m, root, q).value in used)
  }

  lemma GrownSelf(mem: Mem, root: bv64, used: seq<bv64>)
    ensures Grown(mem, mem, root, used)
  {
  }

  lemma GrownOn(mem: Mem, m: Mem, m': Mem, root: bv64, frames: seq<bv64>, u: nat, v: nat)
    requires u + v <= |frames| && Grown(mem, m, root, frames[..u]) && Grown(m, m', root, frames[u..][..v])
    ensures Grown(mem, m', root, frames[..u + v])
  {
    assert frames[u..][..v] == frames[..u + v][u..] && frames[..u] == frames[..u + v][..u];
  }

  lemma StillThere(mem: Mem, m: Mem, root: bv64, used: seq<bv64>, q: seq<bv64>)
    requires Grown(mem, m, root, used) && |q| <= 4 && Walk(mem, root, q) != None
    ensures Walk(m, root, q) == Walk(mem, root, q)
  {
  }

  /** The n pages from va on translate. */
  ghost predicate AllMapped(mem: Mem, root: bv64, va: bv64, n: nat)
  {
    forall k :: 0 <= k < n ==> Walk(mem, root, PathOf(PageAt(va, k))) != None
  }

  lemma AllMappedCons(mem: Mem, root: bv64, va: bv64, n: nat)
    requires n > 0 && Walk(mem, root, PathOf(va)) != None && AllMapped(mem, root, va + PAGE_SIZE, n - 1)
    ensures AllMapped(mem, root, va, n)
  {
    hide PathOf, Walk;
    forall k | 0 <= k < n ensures Walk(mem, root, PathOf(PageAt(va, k))) != None {
      assert k > 0 ==> PageAt(va, k) == PageAt(va + PAGE_SIZE, k - 1);
    }
  }

  /** Mapping pages with cleared frames is conservative and isolating, every page of the range translates
      afterwards, and the frames left over can be handed out next. */
  lemma {:induction false} MapExact(mem: Mem, root: bv64, va: bv64, n: nat, frames: seq<bv64>, flags: bv16)
    requires 4 * n <= |frames| && Ready(mem, root, frames)
    ensures var (m, u) := MapPages(mem, root, va, n, frames, flags);
      && Grown(mem, m, root, frames[..u]) && Ready(m, root, frames[u..])
      && (SelfMapped(mem, root) ==> SelfMapped(m, root))
      && AllMapped(m, root, va, n)
    decreases n
  {
    hide IsPresent, FrameOf, Enter, PathOf, Ready, SelfMapped, Grown, Walk, Create, Used, PageAt, Target;
    if n == 0 {
      assert frames[0..] == frames;
      GrownSelf(mem, root, frames[..0]);
    } else {
      FirstPage(mem, root, va, frames, flags);
      var u := Used(mem, root, PathOf(va));
      var m := Create(mem, root, PathOf(va), frames, flags);
      MapExact(m, root, va + PAGE_SIZE, n - 1, frames[u..], flags);
      var (m', v) := MapPages(m, root, va + PAGE_SIZE, n - 1, frames[u..], flags);
      assert frames[u..][v..] == frames[u + v..];
      GrownOn(mem, m, m', root, frames, u, v);
      StillThere(m, m', root, frames[u..][..v], PathOf(va));
      AllMappedCons(m', root, va, n);
    }
  }

  /** One page: it leads where it led or, if it did not translate, to the last frame it took. */
  lemma FirstPage(mem: Mem, root: bv64, va: bv64, frames: seq<bv64>, flags: bv16)
    requires 4 <= |frames| && Ready(mem, root, frames)
    ensures var m := Create(mem, root, PathOf(va), frames, flags); var u := Used(mem, root, PathOf(va));
      && Ready(m, root, frames[u..]) && Grown(mem, m, root, frames[..u])
      && (SelfMapped(mem, root) ==> SelfMapped(m, root)) && Walk(m, root, PathOf(va)) != None
      && (Walk(mem, root, PathOf(va)) == None ==> u > 0 && Walk(m, root, PathOf(va)) == Some(frames[u - 1]))
  {
    hide IsPresent, FrameOf, Enter, Index, SelfMapped;
    var path := PathOf(va);
    var u := Used(mem, root, path);
    var m := Create(mem, root, path, frames, flags);
    CreateIsConservative(mem, root, path, frames, flags, path);
    CreateKeepsReady(mem, root, path, frames, flags);
    CreateLeads(mem, root, path, frames, flags);
    if Walk(mem, root, path) == None {
      TargetIs(mem, root, path, frames);
    }
    forall q: seq<bv64> | |q| <= 4
      ensures Walk(mem, root, q) != None ==> Walk(m, root, q) == Walk(mem, root, q)
      ensures Walk(m, root, q) != None ==>
        Walk(m, root, q) == Walk(mem, root, q) || Walk(m, root, q).value in frames[..u]
    {
      CreateIsConservative(mem, root, path, frames, flags, q);
      if Walk(m, root, q) != None {
        NewWalk(mem, m, root, frames[..u], q);
      }
    }
  }

  // ---------- A frame that is not cleared ----------

  /** The root at 0x1000 maps itself and nothing else; the frame at 0x2000 still holds one present entry, which points
      to the frame at 0x6000. */
  function Stale(): Mem
  {
    (s: Slot) => if s == Slot(0x1000, 510) then 0x1003 else if s == Slot(0x2000, 1) then 0x6003 else 0
  }

  const FRESH: seq<bv64> := [0x2000, 0x3000, 0x4000, 0x5000, 0x6000, 0x7000, 0x8000, 0x9000]

  lemma {:induction false} StaleWalk(q: seq<bv64>)
    ensures Walk(Stale(), 0x1000, q) in {None, Some(0x1000)}
    decreases |q|
  {
    if q != [] {
      StaleWalk(q[1..]);
    }
  }

  lemma StaleFrames()
    ensures SelfMapped(Stale(), 0x1000) && Frames(FRESH) && Unreached(Stale(), 0x1000, FRESH, 3)
  {
    hide Walk;
    forall q: seq<bv64> | Walk(Stale(), 0x1000, q) != None ensures Walk(Stale(), 0x1000, q).value !in FRESH {
      StaleWalk(q);
    }
  }

  /** The four writes of a path built from the root. */
  lemma FourWrites(mem: Mem, flags: bv16)
    requires !IsPresent(mem(Slot(0x1000, 509)))
    ensures var path, m := [509, 0, 511, 511], Create(mem, 0x1000, [509, 0, 511, 511], FRESH, flags);
      && Used(mem, 0x1000, path) == 4
      && m == Enter(Enter(Enter(Enter(mem, Slot(0x1000, 509), 0x2000, flags), Slot(0x2000, 0), 0x3000, flags),
                          Slot(0x3000, 511), 0x4000, flags), Slot(0x4000, 511), 0x5000, flags)
  {
    hide IsPresent, FrameOf, Enter;
    var path: seq<bv64> := [509, 0, 511, 511];
    var a, b, c := path[1..], path[2..], path[3..];
    assert a[1..] == b && b[1..] == c && c[1..] == [];
    assert FRESH[1..][1..] == FRESH[2..] && FRESH[2..][1..] == FRESH[3..];
    var m1 := Enter(mem, Slot(0x1000, 509), 0x2000, flags);
    var m2 := Enter(m1, Slot(0x2000, 0), 0x3000, flags);
    var m3 := Enter(m2, Slot(0x3000, 511), 0x4000, flags);
    var m4 := Enter(m3, Slot(0x4000, 511), 0x5000, flags);
    assert Build(m3, 0x4000, c, FRESH[3..], flags) == m4;
    assert Build(m2, 0x3000, b, FRESH[2..], flags) == m4;
    assert Build(m1, 0x2000, a, FRESH[1..], flags) == m4;
  }

  /** The first page takes the stale frame as its L3 table. */
  lemma FirstOfTwo(flags: bv16)
    ensures var path, m := [509, 0, 511, 511], Create(Stale(), 0x1000, [509, 0, 511, 511], FRESH, flags);
      && Used(Stale(), 0x1000, path) == 4
      && IsPresent(m(Slot(0x1000, 509))) && FrameOf(m(Slot(0x1000, 509))) == 0x2000
      && m(Slot(0x2000, 1)) == 0x6003 && m(Slot(0x6000, 0)) == 0 && m(Slot(0x7000, 0)) == 0
  {
    FourWrites(Stale(), flags);
    hide Enter, IsPresent, FrameOf, Create, Used;
    WritesAside(Stale(), flags);
  }

  lemma EnterAside(mem: Mem, s: Slot, frame: bv64, flags: bv16, t: Slot)
    ensures t != s ==> Enter(mem, s, frame, flags)(t) == mem(t)
    ensures IsPresent(Enter(mem, s, frame, flags)(s)) && FrameOf(Enter(mem, s, frame, flags)(s)) == FrameOf(frame)
  {
    hide IsPresent, FrameOf;
    EnterIs(mem, s, frame, flags);
  }

  lemma WritesAside(mem: Mem, flags: bv16)
    ensures var m := Enter(Enter(Enter(Enter(mem, Slot(0x1000, 509), 0x2000, flags), Slot(0x2000, 0), 0x3000, flags),
                                 Slot(0x3000, 511), 0x4000, flags), Slot(0x4000, 511), 0x5000, flags);
      && IsPresent(m(Slot(0x1000, 509))) && FrameOf(m(Slot(0x1000, 509))) == 0x2000
      && forall t: Slot :: t in {Slot(0x2000, 1), Slot(0x6000, 0), Slot(0x7000, 0)} ==> m(t) == mem(t)
  {
    assert FrameOf(0x2000) == 0x2000;
    hide Enter, IsPresent, FrameOf;
    var m1 := Enter(mem, Slot(0x1000, 509), 0x2000, flags);
    var m2 := Enter(m1, Slot(0x2000, 0), 0x3000, flags);
    var m3 := Enter(m2, Slot(0x3000, 511), 0x4000, flags);
    forall t: Slot | t in {Slot(0x1000, 509), Slot(0x2000, 1), Slot(0x6000, 0), Slot(0x7000, 0)}
      ensures Enter(m3, Slot(0x4000, 511), 0x5000, flags)(t) == m1(t)
    {
      EnterAside(m1, Slot(0x2000, 0), 0x3000, flags, t);
      EnterAside(m2, Slot(0x3000, 511), 0x4000, flags, t);
      EnterAside(m3, Slot(0x4000, 511), 0x5000, flags, t);
    }
    forall t: Slot ensures t != Slot(0x1000, 509) ==> m1(t) == mem(t) {
      EnterAside(mem, Slot(0x1000, 509), 0x2000, flags, t);
    }
    EnterAside(mem, Slot(0x1000, 509), 0x2000, flags, Slot(0x2000, 1));
  }

  /** The second finds 0x6000 as its L2 table, makes it its L1 table too, and overwrites the entry it came by. */
  lemma SecondOfTwo(m: Mem, flags: bv16)
    requires IsPresent(m(Slot(0x1000, 509))) && FrameOf(m(Slot(0x1000, 509))) == 0x2000
    requires m(Slot(0x2000, 1)) == 0x6003 && m(Slot(0x6000, 0)) == 0 && m(Slot(0x7000, 0)) == 0
    ensures Walk(Create(m, 0x1000, [509, 1, 0, 0], FRESH[4..], flags), 0x1000, [509, 1, 0, 0]) == None
  {
    var path: seq<bv64> := [509, 1, 0, 0];
    assert path[1..] == [1, 0, 0] && path[1..][1..] == [0, 0] && path[1..][1..][1..] == [0];
    assert IsPresent(0x6003) && FrameOf(0x6003) == 0x6000 && !IsPresent(0) && FrameOf(0x7000) == 0x7000;
    hide IsPresent, FrameOf, Enter;
    var s := Slot(0x6000, 0);
    var m1 := Enter(m, s, 0x6000, flags);
    var m2 := Enter(m1, s, 0x7000, flags);
    EnterIs(m, s, 0x6000, flags);
    EnterIs(m1, s, 0x7000, flags);
    assert Build(m1, 0x6000, [0], FRESH[4..][1..], flags) == m2;
    assert Build(m, 0x6000, [0, 0], FRESH[4..], flags) == m2;
    assert Create(m, 0x2000, [1, 0, 0], FRESH[4..], flags) == m2;
    assert Create(m, 0x1000, path, FRESH[4..], flags) == m2;
    assert Walk(m2, 0x7000, [0]) == None;
    assert Walk(m2, 0x6000, [0, 0]) == None;
    assert Walk(m2, 0x2000, [1, 0, 0]) == None;
  }

  /** With a frame that is not cleared the second of two pages may not translate afterwards. */
  lemma SecondPageLost(flags: bv16)
    ensures SelfMapped(Stale(), 0x1000) && Frames(FRESH) && Unreached(Stale(), 0x1000, FRESH, 3)
    ensures var va := Convert(509, 0, 511, 511);
      Walk(MapPages(Stale(), 0x1000, va, 2, FRESH, flags).0, 0x1000, PathOf(PageAt(va, 1))) == None
  {
    var va := Convert(509, 0, 511, 511);
    assert PathOf(va) == [509, 0, 511, 511] && PathOf(va + PAGE_SIZE) == [509, 1, 0, 0];
    assert PageAt(va, 1) == PageAt(va + PAGE_SIZE, 0) == va + PAGE_SIZE;
    hide PathOf, Convert, Stale, Create, Walk, IsPresent, FrameOf, SelfMapped, Frames, Unreached;
    StaleFrames();
    FirstOfTwo(flags);
    var m := Create(Stale(), 0x1000, PathOf(va), FRESH, flags);
    SecondOfTwo(m, flags);
    MapStep(Stale(), 0x1000, va, 2, FRESH, flags);
    MapStep(m, 0x1000, va + PAGE_SIZE, 1, FRESH[4..], flags);
  }

  // ---------- Which frame a page gets ----------

  lemma {:induction false} CountGrows(mem: Mem, root: bv64, va: bv64, k: nat, n: nat, frames: seq<bv64>, flags: bv16)
    requires k <= n && 4 * n <= |frames|
    ensures MapPages(mem, root, va, k, frames, flags).1 <= MapPages(mem, root, va, n, frames, flags).1
    decreases n
  {
    hide PathOf, Create, Used;
    if k > 0 {
      var u := Used(mem, root, PathOf(va));
      var m := Create(mem, root, PathOf(va), frames, flags);
      CountGrows(m, root, va + PAGE_SIZE, k - 1, n - 1, frames[u..], flags);
    }
  }

  /** When the turn of page k comes in mapping n pages, it does not translate. */
  ghost predicate MissingAtTurn(mem: Mem, root: bv64, va: bv64, k: nat, frames: seq<bv64>, flags: bv16)
    requires 4 * k <= |frames|
  {
    Walk(MapPages(mem, root, va, k, frames, flags).0, root, PathOf(PageAt(va, k))) == None
  }

  /** A page that does not translate when its turn comes gets a frame of its own: the last of those taken up to
      and including its turn. Another such page has its turn later, takes a later frame, and so never shares. */
  lemma {:induction false} OwnFrame(mem: Mem, root: bv64, va: bv64, n: nat, k: nat, frames: seq<bv64>, flags: bv16)
    requires k < n && 4 * n <= |frames| && Ready(mem, root, frames)
    requires MissingAtTurn(mem, root, va, k, frames, flags)
    ensures var before := MapPages(mem, root, va, k, frames, flags).1;
      var upTo := MapPages(mem, root, va, k + 1, frames, flags).1;
      && before < upTo <= |frames|
      && Walk(MapPages(mem, root, va, n, frames, flags).0, root, PathOf(PageAt(va, k))) == Some(frames[upTo - 1])
    decreases n
  {
    hide IsPresent, FrameOf, Ready, SelfMapped, Grown, Walk, Create, Used, MapPages, MissingAtTurn, PathOf;
    if k == 0 {
      OwnFirstFrame(mem, root, va, n, frames, flags);
    } else {
      FirstPage(mem, root, va, frames, flags);
      var u := Used(mem, root, PathOf(va));
      var m := Create(mem, root, PathOf(va), frames, flags);
      MapStep(mem, root, va, n, frames, flags);
      MapStep(mem, root, va, k, frames, flags);
      MapStep(mem, root, va, k + 1, frames, flags);
      TurnLater(mem, root, va, k, frames, flags);
      OwnFrame(m, root, va + PAGE_SIZE, n - 1, k - 1, frames[u..], flags);
    }
  }

  lemma NoPages(mem: Mem, root: bv64, va: bv64, frames: seq<bv64>, flags: bv16)
    ensures MapPages(mem, root, va, 0, frames, flags) == (mem, 0)
  {
  }

  lemma MapStep(mem: Mem, root: bv64, va: bv64, n: nat, frames: seq<bv64>, flags: bv16)
    requires 0 < n && 4 * n <= |frames|
    ensures var u := Used(mem, root, PathOf(va));
      var m1 := Create(mem, root, PathOf(va), frames, flags);
      var (m, v) := MapPages(m1, root, va + PAGE_SIZE, n - 1, frames[u..], flags);
      MapPages(mem, root, va, n, frames, flags) == (m, u + v)
  {
    hide PathOf, Create, Used;
  }

  lemma TurnLater(mem: Mem, root: bv64, va: bv64, k: nat, frames: seq<bv64>, flags: bv16)
    requires 0 < k && 4 * k <= |frames|
    ensures PageAt(va, k) == PageAt(va + PAGE_SIZE, k - 1)
    ensures var u := Used(mem, root, PathOf(va)); var m := Create(mem, root, PathOf(va), frames, flags);
      MissingAtTurn(mem, root, va, k, frames, flags) ==
      MissingAtTurn(m, root, va + PAGE_SIZE, k - 1, frames[u..], flags)
  {
    hide PathOf, Create, Used, Walk, MapPages;
    MapStep(mem, root, va, k, frames, flags);
  }

  lemma OwnFirstFrame(mem: Mem, root: bv64, va: bv64, n: nat, frames: seq<bv64>, flags: bv16)
    requires 0 < n && 4 * n <= |frames| && Ready(mem, root, frames)
    requires MissingAtTurn(mem, root, va, 0, frames, flags)
    ensures var upTo := MapPages(mem, root, va, 1, frames, flags).1;
      && MapPages(mem, root, va, 0, frames, flags).1 == 0 < upTo <= |frames|
      && Walk(MapPages(mem, root, va, n, frames, flags).0, root, PathOf(va)) == Some(frames[upTo - 1])
  {
    hide IsPresent, FrameOf, Ready, SelfMapped, Grown, Walk, Create, Used, PathOf;
    FirstPage(mem, root, va, frames, flags);
    var u := Used(mem, root, PathOf(va));
    var m := Create(mem, root, PathOf(va), frames, flags);
    MapStep(mem, root, va, n, frames, flags);
    MapStep(mem, root, va, 1, frames, flags);
    MapExact(m, root, va + PAGE_SIZE, n - 1, frames[u..], flags);
    var (m', v) := MapPages(m, root, va + PAGE_SIZE, n - 1, frames[u..], flags);
    StillThere(m, m', root, frames[u..][..v], PathOf(va));
  }
}
