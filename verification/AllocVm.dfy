// alloc_vm: the search for a range of unmapped pages under one L4 entry, exactly as the loop runs it, with
// indices that may reach 512 and lookups that may fault.
// lib/kernel/memory/pagination/PageTable.cpp:70-96
module AllocVm {
  import opened MapRange
  import opened PageEntry
  import opened PageMap
  import opened PageTable
  import opened PageWalk
  import opened Words

  const DIRECTORY := 0x4_0000      // pages under one L2 table: 512 * 512

  /** The page with these indices, counted from the first of the L4 entry. */
  function Linear(x: nat, y: nat, z: nat): nat
  {
    x + TABLE * y + DIRECTORY * z
  }

  /** _getEntryLevel(base, z, y, x, PAGE) */
  function Probe(mem: Mem, root: bv64, base: bv64, z: nat, y: nat, x: nat): Looked
  {
    Lookup(mem, root, [base, Word(z), Word(y), Word(x)], 3, 0)
  }

  /** CONVERT_PAGE_IDX_TO_ADDR(base, z, y, x) */
  function AddressOf(base: bv64, z: nat, y: nat, x: nat): bv64
  {
    Convert(base, Word(z), Word(y), Word(x))
  }

  // ---------- The loops ----------

  /** What one round sees: a fault, room for the request, or an entry at the i-th page it looked at. */
  datatype Seen = Faulted | Room | Blocked(i: nat)

  /** The inner loop from its i-th page on. */
  function Ahead(mem: Mem, root: bv64, base: bv64, pages: nat, x: nat, y: nat, z: nat, i: nat): (r: Seen)
    ensures r.Blocked? ==> i < r.i
    decreases pages - i
  {
    if i >= pages then Room else
    match Probe(mem, root, base, z + (y + (x + i) / TABLE) / TABLE, (y + (x + i) / TABLE) % TABLE, (x + i) % TABLE)
    case Fault => Faulted
    case Null => Ahead(mem, root, base, pages, x, y, z, i + 1)
    case Entry(_) => Blocked(i + 1)
  }

  /** One round of the outer loop, looking from (x, y, z) on. */
  function Round(mem: Mem, root: bv64, base: bv64, pages: nat, x: nat, y: nat, z: nat): (r: Seen)
    ensures r.Blocked? ==> 0 < r.i
  {
    match Probe(mem, root, base, z, y, x)
    case Fault => Faulted
    case Null => Ahead(mem, root, base, pages, x, y, z, 1)
    case Entry(_) => Blocked(1)
  }

  /** x += i and the two carries. */
  function Advance(x: nat, y: nat, z: nat, i: nat): (nat, nat, nat)
  {
    var x' := x + i;
    if x' > TABLE then
      var y' := y + x' / TABLE;
      if y' > TABLE then (x' % TABLE, y' % TABLE, z + y' / TABLE) else (x' % TABLE, y', z)
    else (x', y, z)
  }

  /** The carries name the page aimed at, but may leave an index at 512. */
  lemma AdvanceIs(x: nat, y: nat, z: nat, i: nat)
    requires x <= TABLE && y <= TABLE
    ensures var (x', y', z') := Advance(x, y, z, i);
      x' <= TABLE && y' <= TABLE && Linear(x', y', z') == Linear(x, y, z) + i
  {
  }

  /** The guard of the loop. */
  predicate Going(y: nat, z: nat)
  {
    z < TABLE || (z == TABLE && y < TABLE)
  }

  /** The indices at which the search stops, NULL, or a page fault. */
  datatype Outcome = Found(x: nat, y: nat, z: nat) | NoRoom | Crash

  /** The outer loop from (x, y, z) on: each round takes it forward, so it ends. */
  function Search(mem: Mem, root: bv64, base: bv64, pages: nat, x: nat, y: nat, z: nat): Outcome
    requires x <= TABLE && y <= TABLE
    decreases Linear(TABLE, TABLE, TABLE) - Linear(x, y, z)
  {
    if !Going(y, z) then NoRoom else
    match Round(mem, root, base, pages, x, y, z)
    case Faulted => Crash
    case Room => Found(x, y, z)
    case Blocked(i) =>
      AdvanceIs(x, y, z, i);
      var (x', y', z') := Advance(x, y, z, i);
      Search(mem, root, base, pages, x', y', z')
  }

  // ---------- In place ----------

  method ProbeEntry(table: PaginationTable, base: bv64, z: nat, y: nat, x: nat) returns (entry: Looked)
    ensures entry == Probe(table.mem, table.root, base, z, y, x)
  {
    entry := table.GetEntryLevel([base, Word(z), Word(y), Word(x)], 0);
  }

  /** The inner loop. */
  method LookAhead(table: PaginationTable, base: bv64, pages: nat, x: nat, y: nat, z: nat) returns (seen: Seen)
    ensures seen == Round(table.mem, table.root, base, pages, x, y, z)
  {
    hide Probe;
    var entry := ProbeEntry(table, base, z, y, x);
    var i := 1;
    while entry == Null && i < pages
      invariant 1 <= i
      invariant Round(table.mem, table.root, base, pages, x, y, z) ==
        match entry
        case Fault => Faulted
        case Null => Ahead(table.mem, table.root, base, pages, x, y, z, i)
        case Entry(_) => Blocked(i)
      decreases pages - i
    {
      var carried := y + (x + i) / TABLE;
      entry := ProbeEntry(table, base, z + carried / TABLE, carried % TABLE, (x + i) % TABLE);
      i := i + 1;
    }
    seen := match entry case Fault => Faulted case Null => Room case Entry(_) => Blocked(i);
  }

  /** The outer loop. The kernel's indices are 16 bits wide, hence the bound on pages. */
  method FindPages(table: PaginationTable, base: bv64, pages: nat) returns (r: Outcome)
    requires pages + TABLE < 0x1_0000
    ensures r == Search(table.mem, table.root, base, pages, 0, 0, 0)
  {
    hide Round, Advance;
    var x: nat, y: nat, z: nat := 0, 0, 0;
    while Going(y, z)
      invariant x <= TABLE && y <= TABLE
      invariant Search(table.mem, table.root, base, pages, x, y, z) ==
        Search(table.mem, table.root, base, pages, 0, 0, 0)
      decreases Linear(TABLE, TABLE, TABLE) - Linear(x, y, z)
    {
      var seen := LookAhead(table, base, pages, x, y, z);
      match seen
      case Faulted => return Crash;
      case Room => return Found(x, y, z);
      case Blocked(i) =>
        AdvanceIs(x, y, z, i);
        var r := Advance(x, y, z, i);
        x, y, z := r.0, r.1, r.2;
    }
    return NoRoom;
  }

  /** The address returned, NULL, or a page fault. */
  datatype Result = Address(addr: bv64) | Nothing | PageFault

  /** alloc_vm: searches and maps what it found. */
  method AllocVm(table: PaginationTable, frames: seq<bv64>, base: bv64, pages: nat, flags: bv16)
    returns (r: Result, used: nat)
    requires SelfMapped(table.mem, table.root) && IsIndex(base) && pages + TABLE < 0x1_0000
    requires 4 * pages <= |frames| && Frames(frames) && Unreached(table.mem, table.root, frames, 1)
    modifies table
    ensures match Search(old(table.mem), table.root, base, pages, 0, 0, 0)
      case Crash => r == PageFault && table.mem == old(table.mem) && used == 0
      case NoRoom => r == Nothing && table.mem == old(table.mem) && used == 0
      case Found(x, y, z) =>
        r == Address(AddressOf(base, z, y, x)) &&
        (table.mem, used) == MapPages(old(table.mem), table.root, AddressOf(base, z, y, x), pages, frames, flags)
  {
    hide SelfMapped, IsIndex, Frames, Unreached, Convert, Word, Search, MapPages;
    used := 0;
    var found := FindPages(table, base, pages);
    match found
    case Crash => r := PageFault;
    case NoRoom => r := Nothing;
    case Found(x, y, z) =>
      var addr := Convert(base, Word(z), Word(y), Word(x));
      used := table.Map(frames, addr, pages, flags);
      r := Address(addr);
  }
}
