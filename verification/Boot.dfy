// Handing the machine over to the kernel: lib/kernel/memory/pagination/pagination.cpp:33-90.
module Boot {
  import opened Options
  import opened PageEntry
  import opened PageWalk
  import opened PageTable
  import F = FrameSpec
  import R = FrameRuns
  import A = FrameAllocation

  // ---------- prepareKernelPaginationTable ----------

  const L4_ADDR: bv64 := 0x1000

  /** &((L3DirectoryTable*) L4_ADDR)[i], an address of the boot loader's identity mapping. */
  function BootEntry(i: bv64): bv64
  {
    L4_ADDR + i * 8
  }

  function SelfEntry(e: bv64): bv64
  {
    var a := SetFlag(SetAddr(e, L4_ADDR), PAGE_USER, false);
    var b := SetFlag(SetFlag(a, PAGE_CACHE_DISABLED, false), PAGE_RW, true);
    SetFlag(SetFlag(b, PAGE_PRESENT, true), PAGE_WRITE_THROUGH, true)
  }

  function KernelEntry(e: bv64): bv64
  {
    SetFlag(SetFlag(SetFlag(SetFlag(e, PAGE_GLOBAL, true), PAGE_USER, false), PAGE_CACHE_DISABLED, false),
            PAGE_WRITE_THROUGH, true)
  }

  lemma SelfEntryPresent(e: bv64)
    ensures IsPresent(SelfEntry(e))
  {
  }

  lemma SelfEntryAddr(e: bv64)
    ensures FrameOf(SelfEntry(e)) == L4_ADDR
  {
  }

  lemma KernelEntryPresent(e: bv64)
    ensures IsPresent(KernelEntry(e)) <==> IsPresent(e)
  {
  }

  lemma KernelEntryAddr(e: bv64)
    ensures FrameOf(KernelEntry(e)) == FrameOf(e)
  {
  }

  /** What the entries are to be: pointing to the root, present, writable, write-through, for the supervisor, cached. */
  function SelfWord(e: bv64): bv64
  {
    0x100B | (e & 0xFE0)
  }

  /** Global, write-through, for the supervisor, cached, and all other bits as they were. */
  function KernelWord(e: bv64): bv64
  {
    0x108 | (e & !0x11C)
  }

  function AbsentWord(e: bv64): bv64
  {
    e & !1
  }

  lemma SelfEntryWord(e: bv64)
    ensures SelfEntry(e) == SelfWord(e)
  {
  }

  lemma KernelEntryWord(e: bv64)
    ensures KernelEntry(e) == KernelWord(e)
  {
  }

  lemma AbsentEntryWord(e: bv64)
    ensures SetFlag(e, PAGE_PRESENT, false) == AbsentWord(e)
  {
  }

  /** The whole words: the recursive entry points to the root, is present, writable, cached write-through and for the
      supervisor only; the kernel's becomes global, cached write-through and for the supervisor only. Everything else
      they keep, the recursive entry its flags from bit 5 on, the kernel's address and write permission too. */
  lemma BootFlags(e: bv64)
    ensures SelfEntry(e) == SelfWord(e) && KernelEntry(e) == KernelWord(e)
    ensures SetFlag(e, PAGE_PRESENT, false) == AbsentWord(e)
  {
    hide SelfEntry, KernelEntry, SetFlag, SelfWord, KernelWord, AbsentWord;
    SelfEntryWord(e);
    KernelEntryWord(e);
    AbsentEntryWord(e);
  }

  lemma ClearedNotPresent(e: bv64)
    ensures !IsPresent(SetFlag(e, PAGE_PRESENT, false))
  {
  }

  /** The flag operations leave address and present bit alone where they should. */
  lemma BootEntries(e: bv64)
    ensures IsPresent(SelfEntry(e)) && FrameOf(SelfEntry(e)) == L4_ADDR
    ensures (IsPresent(KernelEntry(e)) <==> IsPresent(e)) && FrameOf(KernelEntry(e)) == FrameOf(e)
    ensures !IsPresent(SetFlag(e, PAGE_PRESENT, false))
  {
    hide IsPresent, FrameOf, SelfEntry, KernelEntry, SetFlag;
    SelfEntryPresent(e);
    SelfEntryAddr(e);
    KernelEntryPresent(e);
    KernelEntryAddr(e);
    ClearedNotPresent(e);
  }

  lemma BootAddresses()
    ensures PathOf(BootEntry(510)) == PathOf(BootEntry(511)) == [0, 0, 0, 1]
    ensures Offset(BootEntry(510)) >> 3 == 510 && Offset(BootEntry(511)) >> 3 == 511
    ensures Canonical(BootEntry(510)) && Canonical(BootEntry(511))
    ensures PathOf(0) == [0, 0, 0, 0]
  {
  }

  /** A walk that reads no changed entry is unchanged. */
  lemma {:induction false} SameWalk(mem: Mem, m: Mem, table: bv64, q: seq<bv64>)
    requires forall s: Slot :: s.index in q ==> m(s) == mem(s)
    ensures Walk(m, table, q) == Walk(mem, table, q)
    decreases |q|
  {
    hide IsPresent, FrameOf;
    if q != [] {
      assert q[0] in q;
      SameWalk(mem, m, FrameOf(mem(Slot(table, q[0]))), q[1..]);
    }
  }

  /** The root after the hand-over: three entries have changed, as BootFlags says. */
  ghost predicate HandedOver(mem: Mem, m: Mem, root: bv64)
  {
    && m(Slot(root, 510)) == SelfWord(mem(Slot(root, 510)))
    && m(Slot(root, 511)) == KernelWord(mem(Slot(root, 511)))
    && m(Slot(root, 0)) == AbsentWord(mem(Slot(root, 0)))
    && forall s: Slot :: !(s.frame == root && (s.index == 0 || s.index == 510 || s.index == 511)) ==> m(s) == mem(s)
  }

  lemma PreparedIs(mem: Mem, m: Mem, root: bv64)
    ensures Prepared(mem, m, root) <==> HandedOver(mem, m, root)
  {
    hide SelfEntry, KernelEntry, SetFlag, SelfWord, KernelWord, AbsentWord;
    BootFlags(mem(Slot(root, 0)));
    BootFlags(mem(Slot(root, 510)));
    BootFlags(mem(Slot(root, 511)));
  }

  /** The same in terms of what the setters do. */
  ghost predicate Prepared(mem: Mem, m: Mem, root: bv64)
  {
    && m(Slot(root, 510)) == SelfEntry(mem(Slot(root, 510)))
    && m(Slot(root, 511)) == KernelEntry(mem(Slot(root, 511)))
    && m(Slot(root, 0)) == SetFlag(mem(Slot(root, 0)), PAGE_PRESENT, false)
    && forall s: Slot :: !(s.frame == root && (s.index == 0 || s.index == 510 || s.index == 511)) ==> m(s) == mem(s)
  }

  /** The walk never comes to entry 0 or 510 of the root, the first index included. */
  ghost predicate Spared(mem: Mem, root: bv64, table: bv64, q: seq<bv64>)
  {
    forall k :: 0 <= k < |q| && Walk(mem, table, q[..k]) == Some(root) ==> q[k] != 0 && q[k] != 510
  }

  lemma {:induction false} SparedWalk(mem: Mem, m: Mem, table: bv64, q: seq<bv64>)
    requires Prepared(mem, m, L4_ADDR) && Spared(mem, L4_ADDR, table, q)
    ensures Walk(m, table, q) == Walk(mem, table, q)
    decreases |q|
  {
    BootEntries(mem(Slot(L4_ADDR, 511)));
    hide IsPresent, FrameOf, SelfEntry, KernelEntry, SetFlag;
    if q != [] {
      var s := Slot(table, q[0]);
      assert Walk(mem, table, q[..0]) == Some(table) by { assert q[..0] == []; }
      assert (IsPresent(m(s)) <==> IsPresent(mem(s))) && FrameOf(m(s)) == FrameOf(mem(s));
      if IsPresent(mem(s)) {
        SparedNext(mem, L4_ADDR, table, q);
        SparedWalk(mem, m, FrameOf(mem(s)), q[1..]);
      }
    }
  }

  lemma SparedNext(mem: Mem, root: bv64, table: bv64, q: seq<bv64>)
    requires q != [] && IsPresent(mem(Slot(table, q[0]))) && Spared(mem, root, table, q)
    ensures Spared(mem, root, FrameOf(mem(Slot(table, q[0]))), q[1..])
  {
    hide IsPresent, FrameOf;
    var t := FrameOf(mem(Slot(table, q[0])));
    forall k | 0 <= k < |q[1..]| && Walk(mem, t, q[1..][..k]) == Some(root)
      ensures q[1..][k] != 0 && q[1..][k] != 510
    {
      assert q[..k + 1][1..] == q[1..][..k];
      assert Walk(mem, table, q[..k + 1]) == Walk(mem, t, q[1..][..k]);
    }
  }

  /** After the hand-over the root maps itself, no address with L4 index 0 translates any more, and every address
      whose walk does not come to entry 0 or 510 of the root, as the kernel's with L4 index 511 do not unless a
      table of theirs points back to the root, translates as before. */
  lemma HandOverEffect(mem: Mem, m: Mem, q: seq<bv64>)
    requires HandedOver(mem, m, L4_ADDR)
    ensures SelfMapped(m, L4_ADDR)
    ensures q != [] && q[0] == 0 ==> Walk(m, L4_ADDR, q) == None
    ensures Spared(mem, L4_ADDR, L4_ADDR, q) ==> Walk(m, L4_ADDR, q) == Walk(mem, L4_ADDR, q)
  {
    PreparedIs(mem, m, L4_ADDR);
    hide HandedOver;
    BootEntries(mem(Slot(L4_ADDR, 0)));
    BootEntries(mem(Slot(L4_ADDR, 510)));
    hide IsPresent, FrameOf, SelfEntry, KernelEntry, SetFlag;
    if Spared(mem, L4_ADDR, L4_ADDR, q) {
      SparedWalk(mem, m, L4_ADDR, q);
    }
  }

  /** The boot loader has mapped the root's own frame at its physical address. */
  ghost predicate IdentityMapped(mem: Mem)
  {
    Walk(mem, L4_ADDR, [0, 0, 0, 1]) == Some(L4_ADDR)
  }

  method SetSelfEntry(table: PaginationTable, s: Slot)
    modifies table
    ensures table.mem(s) == SelfEntry(old(table.mem)(s))
    ensures forall t: Slot :: t != s ==> table.mem(t) == old(table.mem)(t)
  {
    hide SetAddr, SetFlag;
    table.SetAddr(s, L4_ADDR);
    table.SetFlag(s, PAGE_USER, false);
    table.SetFlag(s, PAGE_CACHE_DISABLED, false);
    table.SetFlag(s, PAGE_RW, true);
    table.SetFlag(s, PAGE_PRESENT, true);
    table.SetFlag(s, PAGE_WRITE_THROUGH, true);
  }

  method SetKernelEntry(table: PaginationTable, s: Slot)
    modifies table
    ensures table.mem(s) == KernelEntry(old(table.mem)(s))
    ensures forall t: Slot :: t != s ==> table.mem(t) == old(table.mem)(t)
  {
    hide SetFlag;
    table.SetFlag(s, PAGE_GLOBAL, true);
    table.SetFlag(s, PAGE_USER, false);
    table.SetFlag(s, PAGE_CACHE_DISABLED, false);
    table.SetFlag(s, PAGE_WRITE_THROUGH, true);
  }

  method PrepareKernelPaginationTable(table: PaginationTable)
    requires table.root == L4_ADDR && IdentityMapped(table.mem)
    modifies table
    ensures HandedOver(old(table.mem), table.mem, L4_ADDR)
  {
    hide IsPresent, FrameOf, SelfEntry, KernelEntry, SetFlag, Walk, HandedOver;
    ghost var m := table.mem;
    BootAddresses();
    hide PathOf, Offset, BootEntry;
    var s := table.Access(BootEntry(510));
    SetSelfEntry(table, s);
    SameWalk(m, table.mem, L4_ADDR, [0, 0, 0, 1]);
    s := table.Access(BootEntry(511));
    SetKernelEntry(table, s);
    FirstEntryStays(m, table.mem);
    PathIndices(0);
    LookupIs(table.mem, L4_ADDR, PathOf(0), 3);
    var resp := table.GetEntryLevel(PathOf(0), 3);
    RecursiveMapping(table.mem, L4_ADDR, PathOf(0), 3);
    assert PathOf(0)[..0] == [];
    WalkNothing(table.mem, L4_ADDR);
    s := table.Access(resp.va);
    table.SetFlag(s, PAGE_PRESENT, false);
    PreparedIs(m, table.mem, L4_ADDR);
  }

  /** With the recursive entry set, entry 0, which the identity mapping goes through, is found. */
  lemma FirstEntryStays(mem: Mem, m: Mem)
    requires IdentityMapped(mem) && m(Slot(L4_ADDR, 510)) == SelfEntry(mem(Slot(L4_ADDR, 510)))
    requires m(Slot(L4_ADDR, 0)) == mem(Slot(L4_ADDR, 0))
    ensures SelfMapped(m, L4_ADDR) && Walk(m, L4_ADDR, PathOf(0)[..1]) != None
  {
    BootEntries(mem(Slot(L4_ADDR, 510)));
    BootAddresses();
    hide IsPresent, FrameOf, SelfEntry, PathOf;
    assert PathOf(0)[..1] == [0];
    assert [0 as bv64, 0, 0, 1][1..] == [0, 0, 1];
    assert [0 as bv64][1..] == [];
  }

  // ---------- loadMemoryInformation ----------

  /** memory_map: one entry of the firmware's memory map, in 64-bit words. */
  datatype MemEntry = MemEntry(space: F.Region, kind: int)

  predicate InRange(e: MemEntry)
  {
    0 <= e.space.base < F.TWO_64 && 0 <= e.space.size < F.TWO_64
  }

  type MapEntry = e: MemEntry | InRange(e) witness MemEntry(F.Region(0, 0), 0)

  predicate Usable(e: MapEntry)
  {
    e.kind == 1 && e.space.base >= 0x100000
  }

  /** What the loop adds up. */
  function MaxOf(es: seq<MapEntry>): int
  {
    if es == [] then 0
    else MaxOf(es[..|es| - 1]) + (if Usable(es[|es| - 1]) then F.RoundDown(es[|es| - 1].space.size) else 0)
  }

  /** What it supplies the frame allocator with. */
  function SuppliesOf(es: seq<MapEntry>): seq<R.Op>
  {
    if es == [] then []
    else
      var e := es[|es| - 1];
      SuppliesOf(es[..|es| - 1]) + (if Usable(e) then [R.Supply(e.space.base, e.space.size)] else [])
  }

  /** The map up to the entry of size 0 that ends it. */
  function Listed(es: seq<MapEntry>): (l: seq<MapEntry>)
    ensures l <= es
  {
    if es == [] || es[0].space.size == 0 then [] else [es[0]] + Listed(es[1..])
  }

  /** Entry n is the first of size 0. */
  predicate FirstEmpty(es: seq<MapEntry>, n: nat)
  {
    n < |es| && es[n].space.size == 0 && forall i :: 0 <= i < n ==> es[i].space.size != 0
  }

  lemma {:induction false} ListedIs(es: seq<MapEntry>, n: nat)
    requires n <= |es| && (n < |es| ==> es[n].space.size == 0) && forall i :: 0 <= i < n ==> es[i].space.size != 0
    ensures Listed(es) == es[..n]
    decreases |es|
  {
    if n > 0 {
      ListedIs(es[1..], n - 1);
    }
  }

  method LoadMemoryInformation(es: seq<MapEntry>, fa: A.FrameAllocator) returns (maxMemory: int)
    requires es != [] && es[|es| - 1].space.size == 0
    requires fa.Valid() && fa.View() == F.Alloc([], []) && fa.qtd == 0 && fa.nodes == []
    modifies fa, fa.frameBuffer
    ensures fa.Valid() && fa.View() == R.Run(SuppliesOf(Listed(es))).a
    ensures maxMemory == MaxOf(Listed(es))
    ensures forall n: nat :: FirstEmpty(es, n) && CleanMap(es[..n]) ==> FreeIs(fa.View(), es[..n], maxMemory)
  {
    NoEntries(es);
    hide Loaded, A.FrameAllocator.View, A.FrameAllocator.Valid, FreeIs, CleanMap, FirstEmpty;
    maxMemory := 0;
    var x := 0;
    while es[x].space.size != 0
      invariant 0 <= x < |es| && (forall i :: 0 <= i < x ==> es[i].space.size != 0)
      invariant fa.Valid() && fa.qtd <= F.MAX_BUFFER_FRAMES && Loaded(es, x, fa.View(), maxMemory)
      invariant forall i :: 0 <= i < |fa.nodes| ==> fresh(fa.nodes[i])
      decreases |es| - x
    {
      ghost var a, max := fa.View(), maxMemory;
      maxMemory := LoadEntry(es[x], fa, maxMemory);
      OneMoreEntry(es, x, a, max);
      x := x + 1;
    }
    AllLoaded(es, x, fa.View(), maxMemory);
  }

  /** The first x entries of the map have been worked off. */
  ghost predicate Loaded(es: seq<MapEntry>, x: nat, a: F.Alloc, max: int)
    requires x <= |es|
  {
    max == MaxOf(es[..x]) && a == R.Run(SuppliesOf(es[..x])).a
  }

  lemma {:induction false} AllLoaded(es: seq<MapEntry>, x: nat, a: F.Alloc, max: int)
    requires x < |es| && es[x].space.size == 0 && forall i :: 0 <= i < x ==> es[i].space.size != 0
    requires Loaded(es, x, a, max)
    ensures a == R.Run(SuppliesOf(Listed(es))).a && max == MaxOf(Listed(es))
    ensures forall n: nat :: FirstEmpty(es, n) && CleanMap(es[..n]) ==> FreeIs(a, es[..n], max)
  {
    hide R.Run, SuppliesOf, MaxOf, FreeIs, CleanMap;
    ListedIs(es, x);
    forall n: nat | FirstEmpty(es, n) && CleanMap(es[..n]) ensures FreeIs(a, es[..n], max) {
      assert n == x;
      FreeAfterBoot(es[..n]);
    }
  }

  /** The body of the loop for one entry. */
  method LoadEntry(e: MapEntry, fa: A.FrameAllocator, max: int) returns (maxMemory: int)
    requires fa.Valid() && fa.qtd <= F.MAX_BUFFER_FRAMES
    modifies fa, fa.frameBuffer, fa.nodes
    ensures fa.Valid() && fa.qtd <= F.MAX_BUFFER_FRAMES
    ensures forall i :: 0 <= i < |fa.nodes| ==> fa.nodes[i] in old(fa.nodes) || fresh(fa.nodes[i])
    ensures fa.View() == if Usable(e) then F.Add(old(fa.View()), e.space) else old(fa.View())
    ensures maxMemory == max + if Usable(e) then F.RoundDown(e.space.size) else 0
  {
    hide F.Add, F.RoundDown, A.FrameAllocator.View;
    maxMemory := max;
    if e.kind == 1 && e.space.base >= 0x100000 {
      maxMemory := maxMemory + F.RoundDown(e.space.size);
      fa.AddMemorySpace(e.space);
    }
  }

  lemma NoEntries(es: seq<MapEntry>)
    ensures Loaded(es, 0, F.Alloc([], []), 0)
  {
    assert es[..0] == [];
  }

  lemma OneMoreEntry(es: seq<MapEntry>, x: nat, a: F.Alloc, max: int)
    requires x < |es| && Loaded(es, x, a, max)
    ensures Loaded(es, x + 1, if Usable(es[x]) then F.Add(a, es[x].space) else a,
                   max + if Usable(es[x]) then F.RoundDown(es[x].space.size) else 0)
  {
    assert es[..x + 1][..x] == es[..x];
    SuppliesSnoc(es[..x + 1]);
  }

  /** The supplies of a map are those of all but its last entry, and that entry's if it is usable. */
  lemma SuppliesSnoc(es: seq<MapEntry>)
    requires es != []
    ensures var front, e := es[..|es| - 1], es[|es| - 1];
      var ops := SuppliesOf(front);
      if Usable(e) then
        var op := R.Supply(e.space.base, e.space.size);
        SuppliesOf(es) == ops + [op] && R.Run(SuppliesOf(es)) == R.After(R.Run(ops), op)
      else SuppliesOf(es) == ops
  {
    hide R.After;
    var e := es[|es| - 1];
    var ops := SuppliesOf(es[..|es| - 1]);
    if Usable(e) {
      var op := R.Supply(e.space.base, e.space.size);
      assert (ops + [op])[..|ops|] == ops;
    }
  }

  // ---------- Which frames are free after boot ----------

  /** The regions of type 1 from 1 MiB on are page-aligned at their base and do not overlap. */
  ghost predicate CleanMap(es: seq<MapEntry>)
  {
    && (forall i :: 0 <= i < |es| && es[i].kind == 1 && 0x10_0000 <= es[i].space.base ==>
      es[i].space.base % F.PAGE == 0)
    && (forall i, j ::
      (0 <= i < j < |es| && es[i].kind == es[j].kind == 1 && 0x10_0000 <= es[i].space.base
       && 0x10_0000 <= es[j].space.base) ==>
      F.Apart(es[i].space, es[j].space))
  }

  /** The whole page at f lies in a region of type 1 that starts at 1 MiB or above. */
  predicate HasPage(e: MapEntry, f: int)
  {
    e.kind == 1 && 0x10_0000 <= e.space.base <= f && f + F.PAGE <= e.space.base + e.space.size
  }

  /** f is the address of a page that some entry of the map has. */
  ghost predicate InMap(es: seq<MapEntry>, f: int)
  {
    f % F.PAGE == 0 && exists i :: 0 <= i < |es| && HasPage(es[i], f)
  }

  /** Supplying the map is legal, everything supplied is free, and maxMemory counts it. */
  ghost predicate Supplied(es: seq<MapEntry>)
  {
    var w := R.Run(SuppliesOf(es));
    && R.LegalRun(SuppliesOf(es)) && w.out == multiset{} && F.PAGE * |w.all| == MaxOf(es)
    && forall f :: f in w.all <==> InMap(es, f)
  }

  lemma {:induction false} SuppliesLegal(es: seq<MapEntry>)
    requires CleanMap(es)
    ensures Supplied(es)
  {
    hide Supplied, Usable;
    if es == [] {
      NothingSupplied();
    } else {
      SuppliesLegal(es[..|es| - 1]);
      OneMoreSupply(es);
    }
  }

  lemma NothingSupplied()
    ensures Supplied([])
  {
  }

  lemma InMapSnoc(es: seq<MapEntry>, f: int)
    requires es != []
    ensures InMap(es, f) <==> InMap(es[..|es| - 1], f) || (f % F.PAGE == 0 && HasPage(es[|es| - 1], f))
  {
    hide HasPage;
    var front := es[..|es| - 1];
    if InMap(front, f) {
      var i :| 0 <= i < |front| && HasPage(front[i], f);
      assert HasPage(es[i], f);
    }
    if InMap(es, f) && !HasPage(es[|es| - 1], f) {
      var i :| 0 <= i < |es| && HasPage(es[i], f);
      assert HasPage(front[i], f);
    }
  }

  lemma OneMoreSupply(es: seq<MapEntry>)
    requires es != [] && CleanMap(es) && Supplied(es[..|es| - 1])
    ensures Supplied(es)
  {
    hide R.Run, SuppliesOf, F.FramesIn, R.LegalRun, HasPage, InMap, F.Add;
    var n := |es| - 1;
    var front, e := es[..n], es[n];
    var ops := SuppliesOf(front);
    SuppliesSnoc(es);
    forall f ensures InMap(es, f) <==> InMap(front, f) || (f % F.PAGE == 0 && HasPage(e, f)) {
      InMapSnoc(es, f);
    }
    if Usable(e) {
      SupplyIsNew(es, R.Run(ops).all);
      F.FramesInCount(e.space.base, e.space.size / F.PAGE);
      LegalSnoc(ops, R.Supply(e.space.base, e.space.size));
      assert e.space.size / F.PAGE * F.PAGE == F.RoundDown(e.space.size);
    } else {
      forall f ensures !HasPage(e, f) {
        UnusableHasNone(e, f);
      }
    }
  }

  lemma UnusableHasNone(e: MapEntry, f: int)
    requires !Usable(e)
    ensures !HasPage(e, f)
  {
  }

  lemma LegalSnoc(ops: seq<R.Op>, op: R.Op)
    requires R.LegalRun(ops) && R.Legal(R.Run(ops), op)
    ensures R.LegalRun(ops + [op])
  {
    hide R.Legal, R.Run;
    var all := ops + [op];
    forall k | 0 <= k < |all| ensures R.Legal(R.Run(all[..k]), all[k]) {
      assert all[..k] == ops[..k];
      assert k == |ops| ==> ops[..k] == ops;
    }
  }

  /** The frames of a usable region are the pages it has. */
  lemma FramesOfEntry(e: MapEntry, f: int)
    requires Usable(e) && e.space.base % F.PAGE == 0
    ensures f in F.FramesIn(e.space.base, e.space.size / F.PAGE) <==> f % F.PAGE == 0 && HasPage(e, f)
  {
    F.FramesInHas(e.space.base, e.space.size / F.PAGE, f);
  }

  /** The last region of a clean map shares no frame with the ones before it. */
  lemma SupplyIsNew(es: seq<MapEntry>, all: multiset<int>)
    requires CleanMap(es) && es != [] && Usable(es[|es| - 1])
    requires forall f :: f in all ==> InMap(es[..|es| - 1], f)
    ensures var e := es[|es| - 1];
      && e.space.base % F.PAGE == 0 && all !! F.FramesIn(e.space.base, e.space.size / F.PAGE)
      && forall f :: f in F.FramesIn(e.space.base, e.space.size / F.PAGE) <==> f % F.PAGE == 0 && HasPage(e, f)
  {
    var n := |es| - 1;
    var e := es[n];
    var more := F.FramesIn(e.space.base, e.space.size / F.PAGE);
    forall f ensures f in more <==> f % F.PAGE == 0 && HasPage(e, f) {
      FramesOfEntry(e, f);
    }
    forall f | f in more ensures f !in all {
      assert forall i :: 0 <= i < n ==> es[..n][i] == es[i];
    }
  }

  /** Every frame a memory map of clean regions has is free, once, and no other is; max is their size. */
  ghost predicate FreeIs(a: F.Alloc, es: seq<MapEntry>, max: int)
  {
    && F.AllocOk(a) && F.PAGE * |F.Free(a)| == max
    && forall f :: F.Free(a)[f] == if InMap(es, f) then 1 else 0
  }

  lemma FreeAfterBoot(es: seq<MapEntry>)
    requires CleanMap(es)
    ensures FreeIs(R.Run(SuppliesOf(es)).a, es, MaxOf(es))
  {
    hide InMap, F.Free, F.AllocOk, R.Run, R.LegalRun, SuppliesOf, MaxOf, R.Marked;
    SuppliesLegal(es);
    R.EveryRunConserves(SuppliesOf(es));
  }

  /** After boot, for every clean memory map: a frame is free exactly if its whole page lies in a region of type 1 from
      1 MiB on, each once; maxMemory is the page size times the frames buffered and listed, and nothing below 1 MiB,
      the root and the boot loader's other tables among it, is ever handed out. */
  lemma MaxMemoryIsFree(es: seq<MapEntry>, f: int)
    requires CleanMap(es)
    ensures var a := R.Run(SuppliesOf(es)).a;
      && F.AllocOk(a) && MaxOf(es) == F.PAGE * |a.buffer| + F.Total(a.regions) == F.PAGE * |F.Free(a)|
      && F.Free(a)[f] == (if f % F.PAGE == 0 && exists e :: e in es && HasPage(e, f) then 1 else 0)
      && (f < 0x10_0000 ==> f !in F.Free(a))
  {
    FreeAfterBoot(es);
    var a := R.Run(SuppliesOf(es)).a;
    F.TotalCountsFrames(a.regions);
    assert |multiset(a.buffer)| == |a.buffer|;
    hide R.Run, SuppliesOf, MaxOf, F.Free, F.Total, F.AllocOk;
    InMapIs(es, f);
  }

  lemma InMapIs(es: seq<MapEntry>, f: int)
    ensures InMap(es, f) <==> f % F.PAGE == 0 && exists e :: e in es && HasPage(e, f)
    ensures InMap(es, f) ==> 0x10_0000 <= f
  {
    if f % F.PAGE == 0 && exists e :: e in es && HasPage(e, f) {
      var e :| e in es && HasPage(e, f);
      var i :| 0 <= i < |es| && es[i] == e;
      assert HasPage(es[i], f);
    }
  }
}
