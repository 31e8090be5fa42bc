/** The page tables of paging.c and what a page walk (32-bit paging with 4 MB pages, Intel
    SDM volume 3A) makes of them. Table entries and addresses are unsigned integers. */
module Paging {
  import opened Bytes
  import opened Options

  const NUM_ENTRY := 1024
  const PAGE_SIZE := 4096
  const FOUR_MB := 0x40_0000
  const BLANK := 2
  const RW_P_MASK := 3
  const FOUR_MB_PAGE := 0x80
  const PROGRAM_PAGE_MASK := 0x87
  const VID_FOURKB := 0x17
  const VMEM := 0xB8000
  const KERNEL := 0x40_0000
  const PROGRAM_IDX := 32
  const VID_MEM_INIT := 0x880_0000

  // ----- the C operator | -----

  function Or(a: nat, b: nat): nat
    decreases a + b
  {
    if a == 0 && b == 0 then 0
    else (if a % 2 == 1 || b % 2 == 1 then 1 else 0) + 2 * Or(a / 2, b / 2)
  }

  function Pow2(k: nat): nat {
    if k == 0 then 1 else 2 * Pow2(k - 1)
  }

  lemma {:induction false} OrZero(b: nat)
    ensures Or(0, b) == b
  {
    if b > 0 {
      OrZero(b / 2);
    }
  }

  /** Flags below a power of two are added to a multiple of it. */
  lemma {:induction false} OrFlags(q: nat, k: nat, b: nat)
    requires b < Pow2(k)
    ensures Or(q * Pow2(k), b) == q * Pow2(k) + b
    decreases k
  {
    if k == 0 {
      OrZero(q);
      OrSymmetric(q, 0);
    } else {
      var a := q * Pow2(k);
      assert a == 2 * (q * Pow2(k - 1));
      OrFlags(q, k - 1, b / 2);
    }
  }

  lemma {:induction false} OrSymmetric(a: nat, b: nat)
    ensures Or(a, b) == Or(b, a)
    decreases a + b
  {
    if a > 0 || b > 0 {
      OrSymmetric(a / 2, b / 2);
    }
  }

  lemma PageFlags(address: nat, flags: nat)
    requires address % PAGE_SIZE == 0 && flags < PAGE_SIZE
    ensures Or(address, flags) == address + flags
  {
    assert Pow2(12) == PAGE_SIZE;
    OrFlags(address / PAGE_SIZE, 12, flags);
  }

  // ----- the page walk -----

  predicate Present(entry: nat) { entry % 2 == 1 }

  predicate Writable(entry: nat) { entry / 2 % 2 == 1 }

  predicate UserAccess(entry: nat) { entry / 4 % 2 == 1 }

  predicate Large(entry: nat) { entry / 0x80 % 2 == 1 }

  /** The three tables and the addresses of the two that a directory entry can name. */
  datatype Tables = Tables(directory: seq<nat>, table: seq<nat>, vidTable: seq<nat>, tableAddr: nat, vidAddr: nat)

  datatype Mapping = Mapping(phys: nat, user: bool, write: bool)

  ghost predicate Shape(t: Tables) {
    && |t.directory| == |t.table| == |t.vidTable| == NUM_ENTRY
    && t.tableAddr % PAGE_SIZE == 0 && t.vidAddr % PAGE_SIZE == 0 && t.tableAddr != t.vidAddr
    && KERNEL <= t.tableAddr < KERNEL + FOUR_MB && KERNEL <= t.vidAddr < KERNEL + FOUR_MB
  }

  function TableAt(t: Tables, base: nat): seq<nat> {
    if base == t.tableAddr then t.table else if base == t.vidAddr then t.vidTable else []
  }

  function Walk(t: Tables, va: nat): Option<Mapping>
    requires Shape(t) && va < UINT32
  {
    var pde := t.directory[va / FOUR_MB];
    if !Present(pde) then None
    else if Large(pde) then Some(Mapping(pde / FOUR_MB * FOUR_MB + va % FOUR_MB, UserAccess(pde), Writable(pde)))
    else
      var table := TableAt(t, pde / PAGE_SIZE * PAGE_SIZE);
      if table == [] then None
      else
        var pte := table[va / PAGE_SIZE % NUM_ENTRY];
        if !Present(pte) then None
        else Some(Mapping(pte / PAGE_SIZE * PAGE_SIZE + va % PAGE_SIZE,
                          UserAccess(pde) && UserAccess(pte), Writable(pde) && Writable(pte)))
  }

  // ----- the address space that the kernel means to build -----

  /** The process whose program page is mapped, and whether vidmap has been called. */
  datatype View = View(program: Option<nat>, vidmap: bool)

  function Frame(process: nat): nat {
    KERNEL + process * FOUR_MB
  }

  predicate IsProcess(p: nat) {
    Frame(p) + FOUR_MB <= UINT32
  }

  function Intended(v: View, va: nat): Option<Mapping> {
    if VMEM <= va < VMEM + PAGE_SIZE || KERNEL <= va < KERNEL + FOUR_MB then Some(Mapping(va, false, true))
    else if v.program.Some? && PROGRAM_IDX * FOUR_MB <= va < (PROGRAM_IDX + 1) * FOUR_MB then
      Some(Mapping(Frame(v.program.value) + (va - PROGRAM_IDX * FOUR_MB), true, true))
    else if v.vidmap && VID_MEM_INIT <= va < VID_MEM_INIT + PAGE_SIZE then
      Some(Mapping(VMEM + (va - VID_MEM_INIT), true, true))
    else None
  }

  /** The tables as the kernel leaves them for a view. */
  ghost predicate Builds(t: Tables, v: View) {
    && Shape(t)
    && t.directory[0] == t.tableAddr + RW_P_MASK
    && t.directory[1] == KERNEL + RW_P_MASK + FOUR_MB_PAGE
    && (v.program.Some? ==> IsProcess(v.program.value))
    && t.directory[PROGRAM_IDX] == (if v.program.Some? then Frame(v.program.value) + PROGRAM_PAGE_MASK else BLANK)
    && t.directory[VID_MEM_INIT / FOUR_MB] == (if v.vidmap then t.vidAddr + VID_FOURKB else BLANK)
    && (forall i :: 0 <= i < NUM_ENTRY && i !in {0, 1, PROGRAM_IDX, VID_MEM_INIT / FOUR_MB} ==> t.directory[i] == BLANK)
    && OnePage(t.table, VMEM / PAGE_SIZE, VMEM + RW_P_MASK)
    && (v.vidmap ==> OnePage(t.vidTable, 0, VMEM + VID_FOURKB))
  }

  ghost predicate OnePage(table: seq<nat>, at: nat, entry: nat) {
    |table| == NUM_ENTRY && at < NUM_ENTRY && table[at] == entry &&
    forall i :: 0 <= i < NUM_ENTRY && i != at ==> table[i] == BLANK
  }

  /** An entry is a page address with flags below it. */
  ghost predicate IsEntry(entry: nat, address: nat, size: nat, flags: nat)
    requires size > 0
  {
    && entry / size * size == address
    && Present(entry) == Present(flags) && Writable(entry) == Writable(flags)
    && UserAccess(entry) == UserAccess(flags) && Large(entry) == Large(flags)
  }

  lemma Half(a: nat, flags: nat)
    ensures (2 * a + flags) / 2 == a + flags / 2 && (2 * a + flags) % 2 == flags % 2
  {
  }

  lemma Quarter(a: nat, flags: nat)
    ensures (4 * a + flags) / 4 == a + flags / 4
  {
  }

  lemma OneIn128(a: nat, flags: nat)
    ensures (0x80 * a + flags) / 0x80 == a + flags / 0x80
  {
  }

  /** The four flag bits are those of the flags alone. */
  lemma FlagBits(q: nat, flags: nat, entry: nat)
    requires entry == PAGE_SIZE * q + flags
    ensures Present(entry) == Present(flags) && Writable(entry) == Writable(flags)
    ensures UserAccess(entry) == UserAccess(flags) && Large(entry) == Large(flags)
  {
    Half(2048 * q, flags);
    Half(1024 * q, flags / 2);
    Quarter(1024 * q, flags);
    Half(512 * q, flags / 4);
    OneIn128(32 * q, flags);
    Half(16 * q, flags / 0x80);
  }

  lemma SmallEntry(address: nat, flags: nat)
    requires address % PAGE_SIZE == 0 && flags < 0x100
    ensures IsEntry(address + flags, address, PAGE_SIZE, flags)
  {
    var q := address / PAGE_SIZE;
    assert address == PAGE_SIZE * q && (PAGE_SIZE * q + flags) / PAGE_SIZE == q;
    FlagBits(q, flags, address + flags);
  }

  lemma LargeEntry(q: nat, flags: nat)
    requires flags < 0x100
    ensures IsEntry(FOUR_MB * q + flags, FOUR_MB * q, FOUR_MB, flags)
  {
    SmallEntry(FOUR_MB * q, flags);
    assert (FOUR_MB * q + flags) / FOUR_MB == q;
  }

  /** A walk through one of the two page tables, both of which map a single page. */
  lemma SmallWalk(t: Tables, va: nat, base: nat, table: seq<nat>, at: nat, flags: nat)
    requires Shape(t) && va < UINT32 && flags in {RW_P_MASK, VID_FOURKB}
    requires t.directory[va / FOUR_MB] == base + flags && base % PAGE_SIZE == 0
    requires TableAt(t, base) == table && OnePage(table, at, VMEM + flags)
    ensures Walk(t, va) ==
            if va / PAGE_SIZE % NUM_ENTRY == at
            then Some(Mapping(VMEM + va % PAGE_SIZE, flags == VID_FOURKB, true)) else None
  {
    SmallEntry(base, flags);
    SmallEntry(VMEM, flags);
  }

  lemma LargeWalk(t: Tables, va: nat, q: nat, flags: nat)
    requires Shape(t) && va < UINT32 && flags in {RW_P_MASK + FOUR_MB_PAGE, PROGRAM_PAGE_MASK}
    requires t.directory[va / FOUR_MB] == FOUR_MB * q + flags
    ensures Walk(t, va) == Some(Mapping(FOUR_MB * q + va % FOUR_MB, flags == PROGRAM_PAGE_MASK, true))
  {
    LargeEntry(q, flags);
  }

  /** For every address the walk finds what was intended, and nothing where nothing was. */
  lemma WalkIsIntended(t: Tables, v: View, va: nat)
    requires Builds(t, v) && va < UINT32
    ensures Walk(t, va) == Intended(v, va)
  {
    var i := va / FOUR_MB;
    if i == 0 {
      SmallWalk(t, va, t.tableAddr, t.table, VMEM / PAGE_SIZE, RW_P_MASK);
      assert va / PAGE_SIZE % NUM_ENTRY == va / PAGE_SIZE;
    } else if i == 1 {
      LargeWalk(t, va, 1, RW_P_MASK + FOUR_MB_PAGE);
    } else if i == PROGRAM_IDX && v.program.Some? {
      LargeWalk(t, va, v.program.value + 1, PROGRAM_PAGE_MASK);
    } else if i == VID_MEM_INIT / FOUR_MB && v.vidmap {
      SmallWalk(t, va, t.vidAddr, t.vidTable, 0, VID_FOURKB);
      assert va / PAGE_SIZE % NUM_ENTRY == (va - VID_MEM_INIT) / PAGE_SIZE;
    } else {
      assert t.directory[i] == BLANK;
    }
  }

  /** Programs of different processes never reach the same byte of memory. */
  lemma ProcessesAreDisjoint(p: nat, q: nat, v: View, va: nat, vb: nat)
    requires p != q && PROGRAM_IDX * FOUR_MB <= va < (PROGRAM_IDX + 1) * FOUR_MB
    requires PROGRAM_IDX * FOUR_MB <= vb < (PROGRAM_IDX + 1) * FOUR_MB
    ensures Intended(v.(program := Some(p)), va).value.phys != Intended(v.(program := Some(q)), vb).value.phys
  {
    assert p < q ==> p * FOUR_MB + FOUR_MB <= q * FOUR_MB;
    assert q < p ==> q * FOUR_MB + FOUR_MB <= p * FOUR_MB;
  }

  /** A process can write into the kernel's own 4 MB exactly when it is process 0, whose
      frame is the kernel's. */
  lemma KernelIsReachableFromProcessZero(p: nat, vidmap: bool)
    requires IsProcess(p)
    ensures (exists va: nat :: va < UINT32 && ReachesKernel(View(Some(p), vidmap), va)) <==> p == 0
  {
    if p == 0 {
      assert ReachesKernel(View(Some(p), vidmap), PROGRAM_IDX * FOUR_MB);
    } else {
      assert Frame(p) >= KERNEL + FOUR_MB;
    }
  }

  predicate ReachesKernel(v: View, va: nat) {
    var m := Intended(v, va);
    m.Some? && m.value.user && m.value.write && KERNEL <= m.value.phys < KERNEL + FOUR_MB
  }

  // ----- the code -----

  datatype Op = Program(process: nat) | Vidmap

  function After(v: View, ops: seq<Op>): View {
    if ops == [] then v
    else
      var w := After(v, ops[..|ops| - 1]);
      match ops[|ops| - 1]
      case Program(p) => w.(program := Some(p))
      case Vidmap => w.(vidmap := true)
  }

  lemma BuildsVidmap(t: Tables, v: View, t': Tables)
    requires Builds(t, v) && Shape(t') && OnePage(t'.vidTable, 0, VMEM + VID_FOURKB)
    requires t' == t.(directory := t.directory[VID_MEM_INIT / FOUR_MB := t.vidAddr + VID_FOURKB],
                      vidTable := t'.vidTable)
    ensures Builds(t', v.(vidmap := true))
  {
  }

  /** `entries[i] = address | flags` */
  method SetEntry(entries: array<nat>, i: nat, address: nat, flags: nat)
    requires i < entries.Length && address % PAGE_SIZE == 0 && flags < PAGE_SIZE
    modifies entries
    ensures entries[..] == old(entries[..])[i := address + flags]
  {
    PageFlags(address, flags);
    entries[i] := Or(address, flags);
  }

  class PageTables {
    const directory: array<nat>
    const table: array<nat>
    const vidTable: array<nat>
    const tableAddr: nat
    const vidAddr: nat

    ghost function Value(): Tables
      reads directory, table, vidTable
    {
      Tables(directory[..], table[..], vidTable[..], tableAddr, vidAddr)
    }

    ghost predicate Valid()
      reads directory, table, vidTable
    {
      Shape(Value()) && directory != table && directory != vidTable && table != vidTable
    }

    /** The linker places the tables in the kernel image, page aligned. */
    constructor (tableAddr: nat, vidAddr: nat)
      requires tableAddr % PAGE_SIZE == 0 && vidAddr % PAGE_SIZE == 0 && tableAddr != vidAddr
      requires KERNEL <= tableAddr < KERNEL + FOUR_MB && KERNEL <= vidAddr < KERNEL + FOUR_MB
      ensures Valid() && fresh(directory) && fresh(table) && fresh(vidTable)
    {
      directory := new nat[NUM_ENTRY](_ => 0);
      table := new nat[NUM_ENTRY](_ => 0);
      vidTable := new nat[NUM_ENTRY](_ => 0);
      this.tableAddr, this.vidAddr := tableAddr, vidAddr;
    }

    method PagingSetup()
      requires Valid()
      modifies directory, table
      ensures Valid() && Builds(Value(), View(None, false))
    {
      for i := 0 to NUM_ENTRY
        invariant forall k :: 0 <= k < i ==> table[k] == BLANK && directory[k] == BLANK
      {
        table[i] := BLANK;
        directory[i] := BLANK;
      }
      SetEntry(table, VMEM / PAGE_SIZE, VMEM, RW_P_MASK);
      SetEntry(directory, tableAddr / FOUR_MB, tableAddr, RW_P_MASK);
      SetEntry(directory, 0, tableAddr, RW_P_MASK);
      KernelFlags(RW_P_MASK, FOUR_MB_PAGE);
      SetEntry(directory, 1, KERNEL, Or(RW_P_MASK, FOUR_MB_PAGE));
    }

    method SetUpProgramPaging(process: nat, ghost v: View)
      requires Valid() && Builds(Value(), v) && IsProcess(process)
      modifies directory
      ensures Valid() && Builds(Value(), v.(program := Some(process)))
    {
      var startAddr := process * FOUR_MB;
      SetEntry(directory, PROGRAM_IDX, KERNEL + startAddr, PROGRAM_PAGE_MASK);
    }

    method VidmapHelper(ghost v: View) returns (address: nat)
      requires Valid() && Builds(Value(), v)
      modifies directory, vidTable
      ensures Valid() && address == VID_MEM_INIT && Builds(Value(), v.(vidmap := true))
    {
      for i := 0 to NUM_ENTRY
        invariant forall k :: 0 <= k < i ==> vidTable[k] == BLANK
        modifies vidTable
      {
        vidTable[i] := BLANK;
      }
      ghost var t := old(Value());
      SetEntry(directory, VID_MEM_INIT / FOUR_MB, vidAddr, VID_FOURKB);
      SetEntry(vidTable, VID_MEM_INIT / PAGE_SIZE % NUM_ENTRY, VMEM, VID_FOURKB);
      BuildsVidmap(t, v, Value());
      return VID_MEM_INIT;
    }

    /** Setup followed by any sequence of program switches and vidmap calls: every address
        translates as intended. */
    method RunAll(ops: seq<Op>)
      requires Valid() && forall n :: 0 <= n < |ops| && ops[n].Program? ==> IsProcess(ops[n].process)
      modifies directory, table, vidTable
      ensures Valid()
      ensures forall va: nat :: va < UINT32 ==> Walk(Value(), va) == Intended(After(View(None, false), ops), va)
    {
      PagingSetup();
      ghost var start := View(None, false);
      for n := 0 to |ops|
        invariant Valid() && Builds(Value(), After(start, ops[..n]))
      {
        ghost var v := After(start, ops[..n]);
        assert ops[..n + 1][..n] == ops[..n];
        match ops[n]
        case Program(p) => SetUpProgramPaging(p, v);
        case Vidmap => var _ := VidmapHelper(v);
      }
      assert ops[..|ops|] == ops;
      forall va: nat | va < UINT32
        ensures Walk(Value(), va) == Intended(After(start, ops), va)
      {
        WalkIsIntended(Value(), After(start, ops), va);
      }
    }
  }

  /** The two flags of the kernel entry share no bit. */
  lemma KernelFlags(low: nat, large: nat)
    requires low == RW_P_MASK && large == FOUR_MB_PAGE
    ensures Or(low, large) == low + large
  {
    OrSymmetric(low, large);
    assert Pow2(7) == large;
    OrFlags(1, 7, low);
  }
}
