// Page-table entries and the virtual addresses of page-table entries, as 64-bit words.
// lib/kernel/memory/pagination/PageTable.hh, lib/kernel/memory/pagination/PageTable.cpp:3-16
module PageEntry {

  const PAGE_MASK: bv64 := 0xFFFF_FFFF_FFFF_F000
  const PAGE_PRESENT: bv64 := 1
  const PAGE_RW: bv64 := 2
  const PAGE_USER: bv64 := 4
  const PAGE_WRITE_THROUGH: bv64 := 8
  const PAGE_CACHE_DISABLED: bv64 := 16
  const PAGE_GLOBAL: bv64 := 256

  // ---------- What the hardware reads ----------

  /** Bits 51 to 12 of an entry: the address of a table or page. */
  const FRAME_MASK: bv64 := 0x000F_FFFF_FFFF_F000

  function FrameOf(e: bv64): bv64
  {
    e & FRAME_MASK
  }

  // ---------- PaginationEntryInterface ----------

  function GetAddr(e: bv64): bv64
  {
    e & PAGE_MASK
  }

  /** The bits that getAddr keeps and the hardware does not use as address. */
  const HIGH_BITS: bv64 := 0xFFF0_0000_0000_0000

  /** getAddr, with any page offset, is the hardware's address exactly if those bits are clear. */
  lemma GetAddrExactly(e: bv64, offset: bv64)
    requires offset < 0x1000
    ensures GetAddr(e) | offset == FrameOf(e) | offset <==> e & HIGH_BITS == 0
  {
  }

  predicate IsPresent(e: bv64)
  {
    e & PAGE_PRESENT != 0
  }

  function SetFlag(e: bv64, flag: bv64, on: bool): bv64
  {
    if on then e | flag else e & (0xFFFF_FFFF_FFFF_FFFF ^ flag)
  }

  function SetAddr(e: bv64, val: bv64): bv64
  {
    (e & !PAGE_MASK) | (val & PAGE_MASK)
  }

  function SetFlags(e: bv64, flags: bv16): bv64
  {
    (e & PAGE_MASK) | ((flags & 0x0FFF) as bv64)
  }

  /** The address bits survive the stores to the flags. */
  lemma StoredFrame(e: bv64, frame: bv64, flags: bv16)
    ensures FrameOf(SetFlag(SetFlags(SetAddr(e, frame), flags), PAGE_PRESENT, true)) == FrameOf(frame)
  {
  }

  lemma StoredPresent(e: bv64, frame: bv64, flags: bv16)
    ensures IsPresent(SetFlag(SetFlags(SetAddr(e, frame), flags), PAGE_PRESENT, true))
  {
  }

  /** A page-table entry with this address, these flags and the present bit, and nothing else. */
  function EntryWord(frame: bv64, flags: bv16): bv64
  {
    (frame & PAGE_MASK) | ((flags & 0x0FFF) as bv64) | PAGE_PRESENT
  }

  /** Nothing of what the entry held is left. */
  lemma StoredWord(e: bv64, frame: bv64, flags: bv16)
    ensures SetFlag(SetFlags(SetAddr(e, frame), flags), PAGE_PRESENT, true) == EntryWord(frame, flags)
  {
  }

  /** Whatever the entry held, after the three stores of getOrCreateEntryLevel it is the frame's address, the
      flags asked for and the present bit. */
  lemma ThreeStores(e: bv64, frame: bv64, flags: bv16)
    ensures var r := SetFlag(SetFlags(SetAddr(e, frame), flags), PAGE_PRESENT, true);
      && IsPresent(r) && FrameOf(r) == FrameOf(frame)
      && r == EntryWord(frame, flags)
  {
    hide SetAddr, SetFlags, SetFlag, FrameOf, IsPresent, EntryWord;
    StoredFrame(e, frame, flags);
    StoredPresent(e, frame, flags);
    StoredWord(e, frame, flags);
  }

  /** For a page-aligned frame no bit above the 52 of a physical address is set. */
  lemma StoredAddr(frame: bv64, flags: bv16)
    requires FrameOf(frame) == frame
    ensures GetAddr(EntryWord(frame, flags)) == frame
    ensures EntryWord(frame, flags) & 0xFFF == ((flags & 0x0FFF) as bv64) | PAGE_PRESENT
  {
  }

  // ---------- Addresses ----------

  /** CONVERT_PAGE_IDX_TO_ADDR */
  function Convert(l4: bv64, l3: bv64, l2: bv64, l1: bv64): bv64
  {
    var ext: bv64 := if l4 >= 256 then 0xFFFF_FFFF_FFFF_FFFF & !(((1 as bv64) << 9) - 1) else 0;
    ((((((((ext | l4) << 9) | l3) << 9) | l2) << 9) | l1) << 12)
  }

  /** The index a virtual address has into a table of level 0 (page table) to 3 (L4 table). */
  function Index(va: bv64, level: nat): bv64
    requires level <= 3
  {
    match level
    case 0 => (va >> 12) & 0x1FF
    case 1 => (va >> 21) & 0x1FF
    case 2 => (va >> 30) & 0x1FF
    case 3 => (va >> 39) & 0x1FF
  }

  function Offset(va: bv64): bv64
  {
    va & !PAGE_MASK
  }

  /** Bits 63 to 48 repeat bit 47. */
  predicate Canonical(va: bv64)
  {
    va >> 47 == 0 || va >> 47 == 0x1FFFF
  }

  /** Where entry i of a table lies. */
  function EntryIn(table: bv64, i: bv64): bv64
  {
    table + i * 8
  }

  /** The address CONVERT_PAGE_IDX_TO_ADDR gives, plus the byte offset of entry i. */
  function EntryVa(l4: bv64, l3: bv64, l2: bv64, l1: bv64, i: bv64): bv64
  {
    EntryIn(Convert(l4, l3, l2, l1), i)
  }

  predicate IsIndex(i: bv64)
  {
    i < 512
  }

  lemma EntryVaIndex3(l4: bv64, l3: bv64, l2: bv64, l1: bv64, i: bv64)
    requires IsIndex(l4) && IsIndex(l3) && IsIndex(l2) && IsIndex(l1) && IsIndex(i)
    ensures Index(EntryVa(l4, l3, l2, l1, i), 3) == l4
  {
  }

  lemma EntryVaIndex2(l4: bv64, l3: bv64, l2: bv64, l1: bv64, i: bv64)
    requires IsIndex(l4) && IsIndex(l3) && IsIndex(l2) && IsIndex(l1) && IsIndex(i)
    ensures Index(EntryVa(l4, l3, l2, l1, i), 2) == l3
  {
  }

  lemma EntryVaIndex1(l4: bv64, l3: bv64, l2: bv64, l1: bv64, i: bv64)
    requires IsIndex(l4) && IsIndex(l3) && IsIndex(l2) && IsIndex(l1) && IsIndex(i)
    ensures Index(EntryVa(l4, l3, l2, l1, i), 1) == l2
  {
  }

  lemma EntryVaIndex0(l4: bv64, l3: bv64, l2: bv64, l1: bv64, i: bv64)
    requires IsIndex(l4) && IsIndex(l3) && IsIndex(l2) && IsIndex(l1) && IsIndex(i)
    ensures Index(EntryVa(l4, l3, l2, l1, i), 0) == l1
  {
  }

  lemma EntryVaOffset(l4: bv64, l3: bv64, l2: bv64, l1: bv64, i: bv64)
    requires IsIndex(l4) && IsIndex(l3) && IsIndex(l2) && IsIndex(l1) && IsIndex(i)
    ensures Offset(EntryVa(l4, l3, l2, l1, i)) >> 3 == i
  {
  }

  lemma EntryVaCanonical(l4: bv64, l3: bv64, l2: bv64, l1: bv64, i: bv64)
    requires IsIndex(l4) && IsIndex(l3) && IsIndex(l2) && IsIndex(l1) && IsIndex(i)
    ensures Canonical(EntryVa(l4, l3, l2, l1, i))
  {
  }

  /** The macro puts the four indices where the hardware looks for them, and the byte offset of an entry
      behind them, in a canonical address. */
  lemma EntryVaIndices(l4: bv64, l3: bv64, l2: bv64, l1: bv64, i: bv64)
    requires IsIndex(l4) && IsIndex(l3) && IsIndex(l2) && IsIndex(l1) && IsIndex(i)
    ensures var va := EntryVa(l4, l3, l2, l1, i);
      && Index(va, 3) == l4 && Index(va, 2) == l3 && Index(va, 1) == l2 && Index(va, 0) == l1
      && Offset(va) >> 3 == i && Canonical(va)
  {
    hide Index, Offset, Canonical, EntryVa, IsIndex;
    EntryVaIndex3(l4, l3, l2, l1, i);
    EntryVaIndex2(l4, l3, l2, l1, i);
    EntryVaIndex1(l4, l3, l2, l1, i);
    EntryVaIndex0(l4, l3, l2, l1, i);
    EntryVaOffset(l4, l3, l2, l1, i);
    EntryVaCanonical(l4, l3, l2, l1, i);
  }
}
