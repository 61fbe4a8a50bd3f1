// The page tables as the kernel edits them: only through the addresses of the recursive mapping.
// lib/kernel/memory/pagination/PageTable.cpp, lib/kernel/memory/pagination/PageTable.hh
module PageTable {
  import opened MapRange
  import opened Options
  import opened PageEntry
  import opened PageWalk
  import opened PageMap

  /** The address is mapped and the entry it names is present. */
  ghost predicate PointsToPresent(mem: Mem, root: bv64, va: bv64)
  {
    Deref(mem, root, va) != None && IsPresent(mem(Deref(mem, root, va).value))
  }

  /** The address is mapped and the entry it names is this word. */
  ghost predicate PointsTo(mem: Mem, root: bv64, va: bv64, word: bv64)
  {
    Deref(mem, root, va) != None && mem(Deref(mem, root, va).value) == word
  }

  /** What looking an entry up comes to: a page fault, NULL, or the address of the entry. */
  datatype Looked = Fault | Null | Entry(va: bv64)

  /** The lookup of _getEntryLevel from one level down to another: it reads the entry of each through the address
      computed for it. */
  function Lookup(mem: Mem, root: bv64, path: seq<bv64>, from: nat, level: nat): Looked
    requires |path| == 4 && level <= from <= 3
    decreases from
  {
    var va := EntryAddressOf(path, from);
    match Deref(mem, root, va)
    case None => Fault
    case Some(s) =>
      if !IsPresent(mem(s)) then Null
      else if from == level then Entry(va)
      else Lookup(mem, root, path, from - 1, level)
  }

  /** The safe software walk: with indices below 512 the lookup never faults, and it finds the entry exactly if
      the hardware walk finds every entry down to it present. */
  lemma LookupIs(mem: Mem, root: bv64, path: seq<bv64>, level: nat)
    requires SelfMapped(mem, root) && Indices(path) && level <= 3
    ensures Lookup(mem, root, path, 3, level) ==
      if Walk(mem, root, path[..4 - level]) == None then Null else Entry(EntryAddressOf(path, level))
  {
    hide Lookup, Walk;
    WalkNothing(mem, root);
    assert path[..0] == [];
    LookupFrom(mem, root, path, 3, level);
  }

  lemma {:induction false} LookupFrom(mem: Mem, root: bv64, path: seq<bv64>, from: nat, level: nat)
    requires SelfMapped(mem, root) && Indices(path) && level <= from <= 3
    requires Walk(mem, root, path[..3 - from]) != None
    ensures Lookup(mem, root, path, from, level) ==
      if Walk(mem, root, path[..4 - level]) == None then Null else Entry(EntryAddressOf(path, level))
    decreases from
  {
    hide IsPresent, FrameOf, SelfMapped, IsIndex, Walk, Deref, EntryAddress;
    RecursiveMapping(mem, root, path, from);
    WalkOneMore(mem, root, path, 3 - from);
    if Walk(mem, root, path[..4 - from]) == None {
      WalkCutShort(mem, root, path, 4 - from, 4 - level);
    } else if from > level {
      LookupFrom(mem, root, path, from - 1, level);
    }
  }

  /** The entry that the hardware reads last. */
  function Leaf(mem: Mem, root: bv64, path: seq<bv64>): bv64
    requires |path| == 4 && Walk(mem, root, path) != None
  {
    assert path[..3] + path[3..] == path;
    WalkConcat(mem, root, path[..3], path[3..]);
    mem(Slot(Walk(mem, root, path[..3]).value, path[3]))
  }

  /** getRealAddr of a mapped address is the hardware's exactly if the entry has no bit set above the 52 bits
      of a physical address. */
  lemma RealAddrExactly(mem: Mem, root: bv64, virt: bv64)
    requires Walk(mem, root, PathOf(virt)) != None
    ensures var e := Leaf(mem, root, PathOf(virt));
      GetAddr(e) | Offset(virt) == Walk(mem, root, PathOf(virt)).value | Offset(virt) <==> e & HIGH_BITS == 0
  {
    hide IsPresent, FrameOf, GetAddr, Walk, Leaf, Offset, PathOf;
    LeafLeads(mem, root, PathOf(virt));
    OffsetBound(virt);
    GetAddrExactly(Leaf(mem, root, PathOf(virt)), Offset(virt));
  }

  lemma LeafLeads(mem: Mem, root: bv64, path: seq<bv64>)
    requires |path| == 4 && Walk(mem, root, path) != None
    ensures Walk(mem, root, path) == Some(FrameOf(Leaf(mem, root, path)))
  {
    hide IsPresent, FrameOf, Walk;
    assert path[..4] == path;
    WalkOneMore(mem, root, path, 3);
  }

  lemma OffsetBound(virt: bv64)
    ensures Offset(virt) < 0x1000
  {
  }

  class PaginationTable {
    var mem: Mem          // physical memory
    const root: bv64      // the L4 table CR3 points to

    constructor (mem: Mem, root: bv64)
      ensures this.mem == mem && this.root == root
    {
      this.mem, this.root := mem, root;
    }

    /** Reading or writing through a pointer: the hardware translates it. Every caller has to show that the
        address is mapped, so no access here can fault. */
    method Access(va: bv64) returns (s: Slot)
      requires Deref(mem, root, va) != None
      ensures Deref(mem, root, va) == Some(s)
    {
      s := Deref(mem, root, va).value;
    }

    // ---------- The setters of an entry ----------

    method SetAddr(s: Slot, val: bv64)
      modifies this
      ensures mem == Write(old(mem), s, PageEntry.SetAddr(old(mem)(s), val))
    {
      mem := Write(mem, s, PageEntry.SetAddr(mem(s), val));
    }

    method SetFlags(s: Slot, flags: bv16)
      modifies this
      ensures mem == Write(old(mem), s, PageEntry.SetFlags(old(mem)(s), flags))
    {
      mem := Write(mem, s, PageEntry.SetFlags(mem(s), flags));
    }

    method SetFlag(s: Slot, flag: bv64, on: bool)
      modifies this
      ensures mem == Write(old(mem), s, PageEntry.SetFlag(old(mem)(s), flag, on))
    {
      mem := Write(mem, s, PageEntry.SetFlag(mem(s), flag, on));
    }

    /** The three stores of getOrCreateEntryLevel. */
    method FillEntry(s: Slot, frame: bv64, flags: bv16)
      modifies this
      ensures mem == Enter(old(mem), s, frame, flags)
    {
      hide Write;
      SetAddr(s, frame);
      SetFlags(s, flags);
      SetFlag(s, PAGE_PRESENT, true);
    }

    // ---------- Finding and creating entries ----------

    /** Finds or creates the entry of the given level, 0 for the page's own. `frames` is what the frame
        allocator hands out next, whatever they hold; `used` says how many were taken. No access faults if none
        of them is the root or one of the tables it points to; if none is a table at all, the entry returned is
        there and present, and if it was created holds the last frame taken, the flags, and nothing else. */
    method GetOrCreateEntryLevel(frames: seq<bv64>, virt: bv64, level: int, flags: bv16)
      returns (resp: bv64, used: nat)
      requires SelfMapped(mem, root) && 0 <= level <= 3
      requires 4 <= |frames| && Frames(frames) && Unreached(mem, root, frames, 1)
      modifies this
      ensures mem == Create(old(mem), root, PathOf(virt)[..4 - level], frames, flags)
      ensures used == Used(old(mem), root, PathOf(virt)[..4 - level])
      ensures resp == EntryAddressOf(PathOf(virt), level)
      ensures Unreached(old(mem), root, frames, 3) ==> PointsToPresent(mem, root, resp)
      ensures Unreached(old(mem), root, frames, 3) && 0 < used <= |frames| ==>
        PointsTo(mem, root, resp, EntryWord(frames[used - 1], flags))
    {
      hide IsPresent, FrameOf, SelfMapped, Frames, Unreached, Enter, Deref, Create, Used, Target,
        EntryAddress, Indices, PointsToPresent, PointsTo, EntryWord;
      ghost var m := mem;
      var path := PathOf(virt);
      PathIndices(virt);
      CreateNothing(m, root, frames, flags);
      assert path[..0] == [];
      hide PathOf;
      var present := true;
      var loopLevel := 3;
      resp, used := 0, 0;
      while loopLevel >= level
        invariant level - 1 <= loopLevel <= 3
        invariant mem == Create(m, root, path[..3 - loopLevel], frames, flags)
        invariant used == Used(m, root, path[..3 - loopLevel]) && (present <==> used == 0)
        invariant loopLevel < 3 ==> resp == EntryAddressOf(path, loopLevel + 1)
      {
        resp := EntryAddress(path[0], path[1], path[2], path[3], loopLevel);
        CreateNext(m, root, path, 3 - loopLevel, frames, flags);
        var s := Access(resp);
        if !IsPresent(mem(s)) || !present {
          FillEntry(s, frames[used], flags);
          used := used + 1;
          present := false;
        }
        loopLevel := loopLevel - 1;
      }
      if Unreached(m, root, frames, 3) {
        EntryDone(m, root, path, level, frames, flags);
      }
    }

    /** Looks an entry up by its indices, which need not be below 512. */
    method GetEntryLevel(path: seq<bv64>, level: int) returns (r: Looked)
      requires |path| == 4 && 0 <= level <= 3
      ensures r == Lookup(mem, root, path, 3, level)
    {
      hide IsPresent, Deref, EntryAddress;
      r := Null;
      var loopLevel := 3;
      while loopLevel >= level
        invariant level - 1 <= loopLevel <= 3
        invariant Lookup(mem, root, path, 3, level) ==
          if loopLevel >= level then Lookup(mem, root, path, loopLevel, level) else r
      {
        var resp := EntryAddress(path[0], path[1], path[2], path[3], loopLevel);
        if Deref(mem, root, resp) == None {
          return Fault;
        }
        var s := Access(resp);
        if !IsPresent(mem(s)) {
          return Null;
        }
        r := Entry(resp);
        loopLevel := loopLevel - 1;
      }
    }

    /** The physical address behind virt; None where the kernel faults on reading through a NULL pointer. An
        unmapped address is answered with what page 0, if it is mapped, happens to hold. */
    method GetRealAddr(virt: bv64) returns (r: Option<bv64>)
      requires SelfMapped(mem, root)
      ensures Walk(mem, root, PathOf(virt)) != None ==>
        r == Some(GetAddr(Leaf(mem, root, PathOf(virt))) | Offset(virt))
      ensures Walk(mem, root, PathOf(virt)) == None ==>
        r == match Deref(mem, root, 0)
             case None => None
             case Some(s) => Some(if IsPresent(mem(s)) then GetAddr(mem(s)) | Offset(virt) else 0)
    {
      hide IsPresent, GetAddr, SelfMapped, Walk, Deref, Indices, EntryAddressOf, Offset, Lookup, Leaf;
      var path := PathOf(virt);
      PathIndices(virt);
      hide PathOf;
      var entry := GetEntryLevel(path, 0);
      LookupIs(mem, root, path, 0);
      assert path[..4] == path;
      var pointer := if entry == Null then 0 else entry.va;
      if entry != Null {
        LeafIs(mem, root, path);
      }
      if Deref(mem, root, pointer) == None {
        return None;
      }
      var s := Access(pointer);
      return Some(if IsPresent(mem(s)) then GetAddr(mem(s)) | Offset(virt) else 0);
    }

    /** Maps `pages` pages from va on, whatever the frames hold. */
    method Map(frames: seq<bv64>, va: bv64, pages: nat, flags: bv16) returns (used: nat)
      requires SelfMapped(mem, root) && 4 * pages <= |frames|
      requires Frames(frames) && Unreached(mem, root, frames, 1)
      modifies this
      ensures (mem, used) == MapPages(old(mem), root, va, pages, frames, flags)
    {
      hide Index, IsPresent, SelfMapped, Frames, Unreached, PathOf, Create, Used, Deref, MapPages;
      ghost var m := mem;
      var addr := va;
      used := 0;
      var x := 0;
      assert frames[0..] == frames;
      while x < pages
        invariant x <= pages && used <= 4 * x && SelfMapped(mem, root)
        invariant Frames(frames[used..]) && Unreached(mem, root, frames[used..], 1)
        invariant MapPages(m, root, va, pages, frames, flags) ==
          (MapPages(mem, root, addr, pages - x, frames[used..], flags).0,
           used + MapPages(mem, root, addr, pages - x, frames[used..], flags).1)
      {
        ghost var left := frames[used..];
        MapStep(mem, root, addr, pages - x, left, flags);
        RootStaysApart(mem, root, PathOf(addr), left, flags);
        RootKept(mem, root, PathOf(addr), left, flags);
        assert PathOf(addr)[..4] == PathOf(addr);
        var resp, u := GetOrCreateEntryLevel(frames[used..], addr, 0, flags);
        assert left[u..] == frames[used + u..];
        used := used + u;
        addr := addr + PAGE_SIZE;
        x := x + 1;
      }
      NoPages(mem, root, addr, frames[used..], flags);
    }
  }

  // ---------- Facts the methods use ----------

  /** While a path is being created, the address of its next entry can be dereferenced. */
  lemma EntryOnPath(mem: Mem, root: bv64, path: seq<bv64>, k: nat, frames: seq<bv64>, flags: bv16)
    requires SelfMapped(mem, root) && Indices(path) && k <= 3
    requires 4 <= |frames| && Frames(frames) && Unreached(mem, root, frames, 1)
    ensures var m := Create(mem, root, path[..k], frames, flags);
      && SelfMapped(m, root)
      && Deref(m, root, EntryAddressOf(path, 3 - k)) == Some(Slot(Target(mem, root, path[..k], frames), path[k]))
  {
    hide Index, Offset, EntryVa, IsPresent, FrameOf, Enter, Walk, Frames, Unreached, SelfMapped;
    var m := Create(mem, root, path[..k], frames, flags);
    RootKept(mem, root, path[..k], frames, flags);
    CreateWalk(mem, root, path[..k], frames, flags, 1, k);
    assert path[..k][..k] == path[..k];
    RecursiveMapping(m, root, path, 3 - k);
  }

  lemma RootKept(mem: Mem, root: bv64, path: seq<bv64>, frames: seq<bv64>, flags: bv16)
    requires SelfMapped(mem, root) && |path| <= |frames| && Unreached(mem, root, frames, 1)
    ensures SelfMapped(Create(mem, root, path, frames, flags), root)
  {
    hide IsPresent, FrameOf, Create;
    CreateKeeps(mem, root, path, frames, flags);
    UnreachedSelf(mem, root, frames, 1);
  }

  lemma CreateNothing(mem: Mem, root: bv64, frames: seq<bv64>, flags: bv16)
    ensures Create(mem, root, [], frames, flags) == mem && Used(mem, root, []) == 0
  {
  }

  /** One round of the loop: where the entry lies and what has to happen to it. */
  lemma CreateNext(mem: Mem, root: bv64, path: seq<bv64>, k: nat, frames: seq<bv64>, flags: bv16)
    requires SelfMapped(mem, root) && Indices(path) && k <= 3
    requires 4 <= |frames| && Frames(frames) && Unreached(mem, root, frames, 1)
    ensures Used(mem, root, path[..k]) <= k
    ensures Deref(Create(mem, root, path[..k], frames, flags), root, EntryAddressOf(path, 3 - k)) != None
    ensures var m, m' := Create(mem, root, path[..k], frames, flags), Create(mem, root, path[..k + 1], frames, flags);
      var u, u' := Used(mem, root, path[..k]), Used(mem, root, path[..k + 1]);
      var s := Deref(m, root, EntryAddressOf(path, 3 - k)).value;
      if u == 0 && IsPresent(m(s)) then m' == m && u' == 0
      else m' == Enter(m, s, frames[u], flags) && u' == u + 1
  {
    hide IsPresent, FrameOf, Enter, Frames, Unreached, SelfMapped, IsIndex, Deref, Create, Target, EntryAddress;
    EntryOnPath(mem, root, path, k, frames, flags);
    CreateSnoc(mem, root, path[..k], path[k], frames, flags);
    assert path[..k] + [path[k]] == path[..k + 1];
  }

  /** After a path has been created its last entry can be dereferenced and is present. */
  lemma EntryThere(mem: Mem, root: bv64, path: seq<bv64>, level: nat, frames: seq<bv64>, flags: bv16)
    requires SelfMapped(mem, root) && Indices(path) && level <= 3
    requires 4 <= |frames| && Frames(frames) && Unreached(mem, root, frames, 3)
    ensures var m := Create(mem, root, path[..4 - level], frames, flags);
      PointsToPresent(m, root, EntryAddressOf(path, level))
  {
    hide Index, Offset, EntryVa, IsPresent, FrameOf, Enter, Walk, Frames, Unreached, SelfMapped;
    var m := Create(mem, root, path[..4 - level], frames, flags);
    CreateIsConservative(mem, root, path[..4 - level], frames, flags, []);
    RecursiveMapping(m, root, path, level);
    WalkOneMore(m, root, path, 3 - level);
  }

  lemma EntryDone(mem: Mem, root: bv64, path: seq<bv64>, level: nat, frames: seq<bv64>, flags: bv16)
    requires SelfMapped(mem, root) && Indices(path) && level <= 3
    requires 4 <= |frames| && Frames(frames) && Unreached(mem, root, frames, 3)
    ensures var m, u := Create(mem, root, path[..4 - level], frames, flags), Used(mem, root, path[..4 - level]);
      && PointsToPresent(m, root, EntryAddressOf(path, level))
      && (0 < u ==> PointsTo(m, root, EntryAddressOf(path, level), EntryWord(frames[u - 1], flags)))
  {
    hide PointsToPresent, PointsTo, EntryWord, Create, Used, SelfMapped, Frames, Unreached, EntryAddress, IsIndex;
    EntryThere(mem, root, path, level, frames, flags);
    if 0 < Used(mem, root, path[..4 - level]) {
      EntryHolds(mem, root, path, level, frames, flags);
    }
  }

  /** And if it was created, it holds the last frame taken, the flags and the present bit. */
  lemma EntryHolds(mem: Mem, root: bv64, path: seq<bv64>, level: nat, frames: seq<bv64>, flags: bv16)
    requires SelfMapped(mem, root) && Indices(path) && level <= 3
    requires 4 <= |frames| && Frames(frames) && Unreached(mem, root, frames, 3)
    requires 0 < Used(mem, root, path[..4 - level])
    ensures var m, u := Create(mem, root, path[..4 - level], frames, flags), Used(mem, root, path[..4 - level]);
      PointsTo(m, root, EntryAddressOf(path, level), EntryWord(frames[u - 1], flags))
  {
    hide IsIndex, EntryAddressOf, IsPresent, FrameOf, Enter, Walk, Frames, Unreached, SelfMapped, Create, Used, Target;
    hide Deref, EntryWord;
    var k := 3 - level;
    var m := Create(mem, root, path[..k + 1], frames, flags);
    CreateIsConservative(mem, root, path[..k + 1], frames, flags, []);
    RecursiveMapping(m, root, path, level);
    assert path[..k] + [path[k]] == path[..k + 1] && path[..k + 1][..k] == path[..k];
    CreateSnoc(mem, root, path[..k], path[k], frames, flags);
    CreateWalk(mem, root, path[..k + 1], frames, flags, 3, k);
    var s := Slot(Target(mem, root, path[..k], frames), path[k]);
    EnterIs(Create(mem, root, path[..k], frames, flags), s, frames[Used(mem, root, path[..k])], flags);
  }

  /** The page's own entry is the last one the hardware reads. */
  lemma {:induction false} LeafIs(mem: Mem, root: bv64, path: seq<bv64>)
    requires SelfMapped(mem, root) && Indices(path) && Walk(mem, root, path) != None
    ensures var d := Deref(mem, root, EntryAddressOf(path, 0));
      d != None && IsPresent(mem(d.value)) && mem(d.value) == Leaf(mem, root, path)
  {
    hide IsPresent, FrameOf, SelfMapped, Walk, IsIndex, EntryAddressOf;
    assert path[..4] == path;
    RecursiveMapping(mem, root, path, 0);
    WalkOneMore(mem, root, path, 3);
  }

  lemma WalkNothing(mem: Mem, root: bv64)
    ensures Walk(mem, root, []) == Some(root)
  {
  }

  lemma WalkCutShort(mem: Mem, root: bv64, path: seq<bv64>, j: nat, k: nat)
    requires j <= k <= |path| && Walk(mem, root, path[..j]) == None
    ensures Walk(mem, root, path[..k]) == None
  {
    hide IsPresent, FrameOf;
    assert path[..k] == path[..j] + path[j..k];
    WalkConcat(mem, root, path[..j], path[j..k]);
  }
}
