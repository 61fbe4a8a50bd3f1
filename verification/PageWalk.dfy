// Physical memory as tables of 512 entries, the hardware walk, and what creating the entries of a path does.
// The walk is section 4.5 (4-level paging) of the Intel 64 and IA-32 Architectures SDM, Volume 3A.
module PageWalk {
  import opened Options
  import opened PageEntry

  /** The 8-byte word at `index` of the physical frame at `frame`. */
  datatype Slot = Slot(frame: bv64, index: bv64)

  type Mem = Slot -> bv64

  function Write(mem: Mem, at: Slot, word: bv64): Mem
  {
    (s: Slot) => if s == at then word else mem(s)
  }

  // ---------- The hardware walk ----------

  /** Follow the path, an index per level, from `table`; None at the first entry that is not present. */
  function Walk(mem: Mem, table: bv64, path: seq<bv64>): Option<bv64>
    decreases |path|
  {
    if path == [] then Some(table)
    else if IsPresent(mem(Slot(table, path[0]))) then Walk(mem, FrameOf(mem(Slot(table, path[0]))), path[1..])
    else None
  }

  /** The indices of a virtual address, L4 first. */
  function PathOf(va: bv64): (path: seq<bv64>)
    ensures |path| == 4
  {
    [Index(va, 3), Index(va, 2), Index(va, 1), Index(va, 0)]
  }

  /** The word that a virtual address reads or writes; None if the access faults. */
  function Deref(mem: Mem, root: bv64, va: bv64): Option<Slot>
  {
    if !Canonical(va) then None else
    match Walk(mem, root, PathOf(va))
    case None => None
    case Some(frame) => Some(Slot(frame, Offset(va) >> 3))
  }

  lemma {:induction false} WalkConcat(mem: Mem, table: bv64, p: seq<bv64>, q: seq<bv64>)
    ensures Walk(mem, table, p + q) ==
      match Walk(mem, table, p) { case None => None case Some(t) => Walk(mem, t, q) }
    decreases |p|
  {
    hide IsPresent, FrameOf;
    if p == [] {
      assert p + q == q;
    } else {
      assert (p + q)[1..] == p[1..] + q;
      if IsPresent(mem(Slot(table, p[0]))) {
        WalkConcat(mem, FrameOf(mem(Slot(table, p[0]))), p[1..], q);
      }
    }
  }

  lemma WalkOneMore(mem: Mem, root: bv64, path: seq<bv64>, k: nat)
    requires k < |path|
    ensures Walk(mem, root, path[..k + 1]) ==
      match Walk(mem, root, path[..k])
      case None => None
      case Some(t) => if IsPresent(mem(Slot(t, path[k]))) then Some(FrameOf(mem(Slot(t, path[k])))) else None
  {
    hide IsPresent, FrameOf;
    assert path[..k + 1] == path[..k] + [path[k]];
    WalkConcat(mem, root, path[..k], [path[k]]);
    assert [path[k]][1..] == [];
  }

  // ---------- The recursive slot ----------

  const SELF: bv64 := 510

  /** Slot 510 of the root points to the root. */
  ghost predicate SelfMapped(mem: Mem, root: bv64)
  {
    IsPresent(mem(Slot(root, SELF))) && FrameOf(mem(Slot(root, SELF))) == root
  }

  function Selves(k: nat): seq<bv64>
  {
    seq(k, _ => SELF)
  }

  /** Every leading 510 keeps the walk at the root. */
  lemma {:induction false} WalkSelves(mem: Mem, root: bv64, k: nat, path: seq<bv64>)
    requires SelfMapped(mem, root)
    ensures Walk(mem, root, Selves(k) + path) == Walk(mem, root, path)
    decreases k
  {
    hide IsPresent, FrameOf;
    if k == 0 {
      assert Selves(0) + path == path;
    } else {
      assert (Selves(k) + path)[1..] == Selves(k - 1) + path;
      WalkSelves(mem, root, k - 1, path);
    }
  }

  /** virtualAddrArr: where the kernel looks for the entry of the given level, 0 for the page's own. */
  function EntryAddress(l4: bv64, l3: bv64, l2: bv64, l1: bv64, level: nat): bv64
    requires level <= 3
  {
    match level
    case 0 => EntryVa(SELF, l4, l3, l2, l1)
    case 1 => EntryVa(SELF, SELF, l4, l3, l2)
    case 2 => EntryVa(SELF, SELF, SELF, l4, l3)
    case 3 => EntryVa(SELF, SELF, SELF, SELF, l4)
  }

  ghost predicate Indices(path: seq<bv64>)
  {
    |path| == 4 && forall i :: 0 <= i < 4 ==> IsIndex(path[i])
  }

  function EntryAddressOf(path: seq<bv64>, level: nat): bv64
    requires |path| == 4 && level <= 3
  {
    EntryAddress(path[0], path[1], path[2], path[3], level)
  }

  lemma EntryPath(path: seq<bv64>, level: nat)
    requires Indices(path) && level <= 3
    ensures PathOf(EntryAddressOf(path, level)) == Selves(level + 1) + path[..3 - level]
    ensures Offset(EntryAddressOf(path, level)) >> 3 == path[3 - level]
    ensures Canonical(EntryAddressOf(path, level))
  {
    assert IsIndex(SELF);
    hide Index, Offset, Canonical, EntryVa, IsIndex;
    var a, b, c, d := path[0], path[1], path[2], path[3];
    match level {
      case 0 => EntryVaIndices(SELF, a, b, c, d);
      case 1 => EntryVaIndices(SELF, SELF, a, b, c);
      case 2 => EntryVaIndices(SELF, SELF, SELF, a, b);
      case 3 => EntryVaIndices(SELF, SELF, SELF, SELF, a);
    }
  }

  /** The recursive mapping: in every memory whose root slot 510 points to the root, the address the kernel
      computes for the level-k entry of a path can be dereferenced exactly when all entries above that level
      are present, and then names that very entry. */
  lemma {:induction false} RecursiveMapping(mem: Mem, root: bv64, path: seq<bv64>, level: nat)
    requires SelfMapped(mem, root) && Indices(path) && level <= 3
    ensures Deref(mem, root, EntryAddressOf(path, level)) ==
      match Walk(mem, root, path[..3 - level]) { case None => None case Some(t) => Some(Slot(t, path[3 - level])) }
  {
    hide Index, Offset, EntryVa, IsIndex, IsPresent, FrameOf, SelfMapped, Walk;
    EntryPath(path, level);
    WalkSelves(mem, root, level + 1, path[..3 - level]);
  }

  lemma PathIndices(va: bv64)
    ensures Indices(PathOf(va))
  {
  }
}
