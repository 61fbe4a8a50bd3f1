// What getRealAddr answers for pages that were just mapped: their own frames, as the hardware does.
// lib/kernel/memory/pagination/PageTable.cpp:19-27, lib/kernel/memory/pagination/PageTable.cpp:63-68
module RealAddr {
  import opened MapRange
  import opened Options
  import opened PageEntry
  import opened PageMap
  import opened PageTable
  import opened PageWalk

  /** The path leads to the frame, and its last entry holds nothing but the frame's address, flags and present bit. */
  ghost predicate LeadsTo(mem: Mem, root: bv64, path: seq<bv64>, frame: bv64, flags: bv16)
    requires |path| == 4
  {
    Walk(mem, root, path) == Some(frame) && Leaf(mem, root, path) == EntryWord(frame, flags)
  }

  /** Then getRealAddr answers with the frame and the page offset, which is where the hardware goes. */
  lemma RealAddrIs(mem: Mem, root: bv64, virt: bv64, frame: bv64, flags: bv16)
    requires LeadsTo(mem, root, PathOf(virt), frame, flags) && FrameOf(frame) == frame
    ensures GetAddr(Leaf(mem, root, PathOf(virt))) | Offset(virt) == frame | Offset(virt)
    ensures Walk(mem, root, PathOf(virt)) == Some(frame)
  {
    hide GetAddr, FrameOf, Walk, Leaf, PathOf, Offset;
    StoredAddr(frame, flags);
  }

  lemma LastSlot(mem: Mem, root: bv64, path: seq<bv64>)
    requires |path| == 4 && Walk(mem, root, path) != None
    ensures Walk(mem, root, path[..3]) != None
    ensures Leaf(mem, root, path) == mem(Slot(Walk(mem, root, path[..3]).value, path[3]))
    ensures IsPresent(Leaf(mem, root, path))
  {
    hide IsPresent, FrameOf, Walk;
    assert path[..4] == path;
    WalkOneMore(mem, root, path, 3);
  }

  /** One path that did not translate, whatever the frames hold. */
  lemma CreatedLeaf(mem: Mem, root: bv64, path: seq<bv64>, frames: seq<bv64>, flags: bv16)
    requires |path| == 4 <= |frames| && Frames(frames) && Unreached(mem, root, frames, 3)
    requires Walk(mem, root, path) == None
    ensures var u := Used(mem, root, path);
      0 < u && LeadsTo(Create(mem, root, path, frames, flags), root, path, frames[u - 1], flags)
  {
    hide IsPresent, FrameOf, Walk, Create, Used, Target, Unreached, Frames, Enter, EntryWord;
    var m := Create(mem, root, path, frames, flags);
    assert path[..3] + [path[3]] == path && path[..3][..3] == path[..3] && path[..4] == path;
    TargetIs(mem, root, path, frames);
    CreateSnoc(mem, root, path[..3], path[3], frames, flags);
    CreateWalk(mem, root, path, frames, flags, 3, 3);
    CreateWalk(mem, root, path, frames, flags, 3, 4);
    LastSlot(m, root, path);
    EnteredWord(Create(mem, root, path[..3], frames, flags), m, root, path, mem, frames, flags);
  }

  lemma EnteredWord(m3: Mem, m: Mem, root: bv64, path: seq<bv64>, mem: Mem, frames: seq<bv64>, flags: bv16)
    requires |path| == 4 <= |frames| && Used(mem, root, path[..3]) < 4
    requires var s := Slot(Target(mem, root, path[..3], frames), path[3]);
      m == Enter(m3, s, frames[Used(mem, root, path[..3])], flags)
    ensures var s := Slot(Target(mem, root, path[..3], frames), path[3]);
      m(s) == EntryWord(frames[Used(mem, root, path[..3])], flags)
  {
    hide Enter, Used, Target, IsPresent, FrameOf;
    EnterIs(m3, Slot(Target(mem, root, path[..3], frames), path[3]), frames[Used(mem, root, path[..3])], flags);
  }

  // ---------- While the rest of the range is mapped ----------

  /** An entry whose tables are no frames handed out later keeps its word. */
  lemma KeptLeaf(mem: Mem, m: Mem, root: bv64, path: seq<bv64>, frames: seq<bv64>)
    requires |path| == 4 && Keeps(mem, m, frames) && Walk(mem, root, path) != None
    requires forall j :: 0 <= j < 4 ==>
      Walk(mem, root, path[..j]) != None && Walk(mem, root, path[..j]).value !in frames
    ensures Walk(m, root, path) == Walk(mem, root, path) && Leaf(m, root, path) == Leaf(mem, root, path)
  {
    hide IsPresent, FrameOf, Walk, Leaf;
    KeptPath(mem, m, root, frames, path);
    forall j | 0 <= j < 3 ensures path[..3][..j] == path[..j] { }
    KeptPath(mem, m, root, frames, path[..3]);
    LastSlot(mem, root, path);
    LastSlot(m, root, path);
  }

  /** The first page of a range, if it did not translate, whatever the frames hold. */
  lemma FirstPageLeads(mem: Mem, root: bv64, va: bv64, n: nat, frames: seq<bv64>, flags: bv16)
    requires 0 < n && 4 * n <= |frames| && Frames(frames) && Unreached(mem, root, frames, 3)
    requires Walk(mem, root, PathOf(va)) == None
    ensures var u := Used(mem, root, PathOf(va)); var m := MapPages(mem, root, va, n, frames, flags).0;
      0 < u && LeadsTo(m, root, PathOf(va), frames[u - 1], flags)
  {
    hide IsPresent, FrameOf, Walk, PathOf, Create, Used, Target, Unreached, Frames, MapPages, Leaf, EntryWord;
    var path, u := PathOf(va), Used(mem, root, PathOf(va));
    var m1 := Create(mem, root, path, frames, flags);
    CreatedLeaf(mem, root, path, frames, flags);
    MapStep(mem, root, va, n, frames, flags);
    MapKeeps(m1, root, va + PAGE_SIZE, n - 1, frames[u..], flags);
    forall j | 0 <= j < 4
      ensures Walk(m1, root, path[..j]) != None && Walk(m1, root, path[..j]).value !in frames[u..]
    {
      CreateWalk(mem, root, path, frames, flags, 3, j);
      TableNotNext(mem, root, path, frames, j);
    }
    KeptLeaf(m1, MapPages(mem, root, va, n, frames, flags).0, root, path, frames[u..]);
  }

  /** A page that did not translate when it was mapped, the first of a range: getRealAddr answers with its own frame and
      the page offset, as the hardware does, whatever the frames held. */
  lemma NewPageRealAddr(mem: Mem, root: bv64, va: bv64, n: nat, frames: seq<bv64>, flags: bv16)
    requires 0 < n && 4 * n <= |frames| && Frames(frames) && Unreached(mem, root, frames, 3)
    requires Walk(mem, root, PathOf(va)) == None
    ensures var u := Used(mem, root, PathOf(va)); var m := MapPages(mem, root, va, n, frames, flags).0;
      && 0 < u && Walk(m, root, PathOf(va)) == Some(frames[u - 1])
      && Leaf(m, root, PathOf(va)) & 0xFFF == ((flags & 0x0FFF) as bv64) | PAGE_PRESENT
      && GetAddr(Leaf(m, root, PathOf(va))) | Offset(va) == frames[u - 1] | Offset(va)
  {
    hide IsPresent, FrameOf, Walk, PathOf, Used, Unreached, MapPages, Leaf, EntryWord, GetAddr, Offset;
    var u := Used(mem, root, PathOf(va));
    FirstPageLeads(mem, root, va, n, frames, flags);
    StoredAddr(frames[u - 1], flags);
    RealAddrIs(MapPages(mem, root, va, n, frames, flags).0, root, va, frames[u - 1], flags);
  }

  lemma {:induction false} PageLeads(mem: Mem, root: bv64, va: bv64, n: nat, k: nat, frames: seq<bv64>, flags: bv16)
    requires k < n && 4 * n <= |frames| && Ready(mem, root, frames)
    requires MissingAtTurn(mem, root, va, k, frames, flags)
    ensures var upTo := MapPages(mem, root, va, k + 1, frames, flags).1;
      var m := MapPages(mem, root, va, n, frames, flags).0;
      0 < upTo <= |frames| && LeadsTo(m, root, PathOf(PageAt(va, k)), frames[upTo - 1], flags)
    decreases n
  {
    hide IsPresent, FrameOf, Ready, SelfMapped, Grown, Walk, Create, Used, MapPages, PathOf, LeadsTo;
    if k == 0 {
      ReadyIs(mem, root, frames);
      FirstTurn(mem, root, va, frames, flags);
      FirstPageLeads(mem, root, va, n, frames, flags);
    } else {
      hide MissingAtTurn;
      FirstPage(mem, root, va, frames, flags);
      var u := Used(mem, root, PathOf(va));
      var m := Create(mem, root, PathOf(va), frames, flags);
      MapStep(mem, root, va, n, frames, flags);
      MapStep(mem, root, va, k + 1, frames, flags);
      TurnLater(mem, root, va, k, frames, flags);
      PageLeads(m, root, va + PAGE_SIZE, n - 1, k - 1, frames[u..], flags);
    }
  }

  lemma FirstTurn(mem: Mem, root: bv64, va: bv64, frames: seq<bv64>, flags: bv16)
    requires 4 <= |frames|
    ensures MapPages(mem, root, va, 0, frames, flags).0 == mem && PageAt(va, 0) == va
    ensures MapPages(mem, root, va, 1, frames, flags).1 == Used(mem, root, PathOf(va))
  {
    hide PathOf, Create, Used;
    MapStep(mem, root, va, 1, frames, flags);
  }

  /** With cleared frames the same for every page of the range that does not translate when its turn comes. */
  lemma OwnRealAddr(mem: Mem, root: bv64, va: bv64, n: nat, k: nat, frames: seq<bv64>, flags: bv16)
    requires k < n && 4 * n <= |frames| && Ready(mem, root, frames)
    requires MissingAtTurn(mem, root, va, k, frames, flags)
    ensures var upTo := MapPages(mem, root, va, k + 1, frames, flags).1;
      var m, virt := MapPages(mem, root, va, n, frames, flags).0, PageAt(va, k);
      && 0 < upTo <= |frames| && Walk(m, root, PathOf(virt)) == Some(frames[upTo - 1])
      && Leaf(m, root, PathOf(virt)) & 0xFFF == ((flags & 0x0FFF) as bv64) | PAGE_PRESENT
      && GetAddr(Leaf(m, root, PathOf(virt))) | Offset(virt) == frames[upTo - 1] | Offset(virt)
  {
    hide IsPresent, FrameOf, Walk, PathOf, Unreached, MapPages, Leaf, EntryWord, GetAddr, Offset, Blank, MissingAtTurn;
    var upTo := MapPages(mem, root, va, k + 1, frames, flags).1;
    var m, virt := MapPages(mem, root, va, n, frames, flags).0, PageAt(va, k);
    PageLeads(mem, root, va, n, k, frames, flags);
    StoredAddr(frames[upTo - 1], flags);
    RealAddrIs(m, root, virt, frames[upTo - 1], flags);
  }
}
