/** Where the kernel's blocks of syscalls.c and the frames of paging.c lie in memory: all of
    them in the frame of process 0. */
module FrameZero {
  import opened Bytes
  import opened Limits
  import opened Options
  import opened Descriptors
  import opened Processes
  import opened Paging

  /** Offset of the program image in its page. */
  const LOAD_AT := 0x4_8000
  /** Bytes from there to the lowest PCB, when the page is process 0's. */
  const ROOM := PcbAddr(MAX_PROGRAMS - 1) - Frame(0) - LOAD_AT

  predicate InFrame(a: int, p: nat) {
    Frame(p) <= a < Frame(p) + FOUR_MB
  }

  /** The 8 KB of process `q`: its PCB, and its kernel stack above it. */
  predicate InBlock(a: int, q: int) {
    PcbAddr(q) <= a < PcbAddr(q) + KSTACK_SIZE
  }

  predicate InSomeBlock(a: int) {
    exists q :: 0 <= q < MAX_PROGRAMS && InBlock(a, q)
  }

  lemma BlocksAreInFrameZero(a: int, q: int)
    requires 0 <= q < MAX_PROGRAMS && InBlock(a, q)
    ensures InFrame(a, 0)
  {
  }

  /** A frame holds some byte of a PCB or kernel stack exactly when it is that of process 0,
      which holds them all. */
  lemma BlocksLieInFrame(p: nat)
    ensures (exists a: int :: InSomeBlock(a) && InFrame(a, p)) <==> p == 0
    ensures forall a: int :: InSomeBlock(a) ==> InFrame(a, 0)
  {
    assert InBlock(PcbAddr(0), 0);
    assert InSomeBlock(PcbAddr(0)) && InFrame(PcbAddr(0), 0);
    forall a: int | InSomeBlock(a)
      ensures InFrame(a, 0)
    {
      var q :| 0 <= q < MAX_PROGRAMS && InBlock(a, q);
      BlocksAreInFrameZero(a, q);
    }
    assert p > 0 ==> Frame(p) >= Frame(0) + FOUR_MB;
  }

  // ----- the words of the PCBs, as process 0 sees them -----

  /** The word at offset `k` of a PCB, for the fields of the model that are words. */
  function PcbWord(p: Pcb, k: int): Option<int>
    requires |p.files| == FD_MAX
  {
    if 0 <= k < 16 * FD_MAX then
      var f := p.files[k / 16];
      if k % 16 == 4 then Some(f.inode) else if k % 16 == 8 then Some(f.offset)
      else if k % 16 == 12 then Some(if f.inUse then 1 else 0) else None
    else if k == 1156 then Some(p.pid)
    else if k == 1160 then Some(p.parent)
    else if k == 1172 then Some(p.esp)
    else if k == 1184 then Some(p.programCounter)
    else None
  }

  /** The kernel's word at physical address `a`. */
  function KernelWord(m: Machine, a: int): Option<int>
    requires m.Valid()
  {
    var q := (KSTACK_BASE - 1 - a) / KSTACK_SIZE;
    if 0 <= q < MAX_PROGRAMS then PcbWord(m.pcbs[q], a - PcbAddr(q)) else None
  }

  lemma WordOf(m: Machine, q: int, k: int)
    requires m.Valid() && 0 <= q < MAX_PROGRAMS && 0 <= k < KSTACK_SIZE
    ensures KernelWord(m, PcbAddr(q) + k) == PcbWord(m.pcbs[q], k)
  {
    assert KSTACK_BASE - 1 - (PcbAddr(q) + k) == q * KSTACK_SIZE + (KSTACK_SIZE - 1 - k);
    assert (q * KSTACK_SIZE + (KSTACK_SIZE - 1 - k)) / KSTACK_SIZE == q;
  }

  /** Where the program of process 0 finds a byte of the kernel. */
  function UserAddress(a: int): int {
    PROGRAM_IDX * FOUR_MB + (a - Frame(0))
  }

  lemma ProcessZeroReaches(v: View, a: int)
    requires v.program == Some(0) && InFrame(a, 0)
    ensures 0 <= UserAddress(a) < UINT32 && Intended(v, UserAddress(a)) == Some(Mapping(a, true, true))
  {
  }

  /** The descriptor array or the counter. */
  predicate IsFileWord(k: int) {
    0 <= k < 16 * FD_MAX || k == 1184
  }

  /** Calls other than launches touch the descriptors and the counter of a PCB alone. */
  lemma FileWords(p: Pcb, q: Pcb, k: int)
    requires |p.files| == FD_MAX == |q.files| && q == p.(files := q.files, programCounter := q.programCounter)
    ensures PcbWord(q, k) != PcbWord(p, k) ==> IsFileWord(k)
  {
  }

  lemma {:induction false} ClosingWords(p: Pcb, i: nat)
    requires |p.files| == FD_MAX && FD_START <= i <= FD_MAX
    ensures var q := ClosedFrom(p, i); q == p.(files := q.files, programCounter := q.programCounter)
    decreases FD_MAX - i
  {
    if i < FD_MAX {
      ClosingWords(Closed(p, i).0, i + 1);
    }
  }

  /** The words a call changes are all in frame 0 and all in one PCB: for a launch that of the
      new process, any word but the counter; for every other call that of the process that
      makes it, in the descriptors or the counter. */
  lemma CallWrites(m: Machine, c: Call, q: int, k: int)
    requires Agree(m) && CanCall(m, c) && Possible(m, c) && 0 <= q < MAX_PROGRAMS && 0 <= k < KSTACK_SIZE
    requires KernelWord(Do(m, c), PcbAddr(q) + k) != KernelWord(m, PcbAddr(q) + k)
    ensures InFrame(PcbAddr(q) + k, 0)
    ensures if Launches(m, c) then q == Do(m, c).active && k != 1184 else q == m.active && IsFileWord(k)
  {
    hide KernelWord, Do;
    WordOf(m, q, k);
    WordOf(Do(m, c), q, k);
    BlocksAreInFrameZero(PcbAddr(q) + k, q);
    if Launches(m, c) {
      LaunchPcbs(m, c, q);
    } else {
      OtherPcbs(m, c, q);
      FileWords(m.pcbs[q], Do(m, c).pcbs[q], k);
    }
  }

  /** The one PCB that a call changes. */
  lemma OtherPcbs(m: Machine, c: Call, q: int)
    requires Agree(m) && CanCall(m, c) && Possible(m, c) && 0 <= q < MAX_PROGRAMS && !Launches(m, c)
    ensures
      var r := Do(m, c);
      && r.pcbs[q] == m.pcbs[q].(files := r.pcbs[q].files, programCounter := r.pcbs[q].programCounter)
      && (q != m.active ==> r.pcbs[q] == m.pcbs[q])
  {
    if c.Exit? {
      ClosingWords(m.pcbs[m.active], FD_START);
    }
  }

  lemma LaunchPcbs(m: Machine, c: Call, q: int)
    requires Agree(m) && CanCall(m, c) && Possible(m, c) && 0 <= q < MAX_PROGRAMS && Launches(m, c)
    ensures
      var r := Do(m, c);
      r.pcbs[q].programCounter == m.pcbs[q].programCounter && (q != r.active ==> r.pcbs[q] == m.pcbs[q])
  {
  }

  lemma LaunchedPcb(m: Machine, c: Call)
    requires Agree(m) && CanCall(m, c) && Possible(m, c) && Launches(m, c)
    ensures
      var r := Do(m, c);
      0 <= r.active < MAX_PROGRAMS && r.pcbs[r.active].pid == r.active && r.pcbs[r.active].files == FRESH_FILES
  {
  }

  /** Every launch writes the new PCB into frame 0: process 0 finds its pid, its parent and
      its closed descriptors there. */
  lemma LaunchIsInFrameZero(m: Machine, c: Call, v: View, k: int)
    requires Agree(m) && CanCall(m, c) && Possible(m, c) && Launches(m, c)
    requires v.program == Some(0) && 0 <= k < KSTACK_SIZE
    ensures
      var r := Do(m, c);
      var a := PcbAddr(r.active) + k;
      && 0 <= UserAddress(a) && Intended(v, UserAddress(a)) == Some(Mapping(a, true, true))
      && r.pcbs[r.active].pid == r.active && r.pcbs[r.active].files == FRESH_FILES
      && KernelWord(r, a) == PcbWord(r.pcbs[r.active], k)
  {
    hide KernelWord, InFrame, Agree;
    var r := Do(m, c);
    LaunchedPcb(m, c);
    WordOf(r, r.active, k);
    BlocksAreInFrameZero(PcbAddr(r.active) + k, r.active);
    ProcessZeroReaches(v, PcbAddr(r.active) + k);
  }

  /** The first launch after boot changes a word of frame 0. */
  lemma LaunchChangesFrameZero(m: Machine, t: int, esp: int, depth: int, arg: seq<Byte>)
    requires PowerOn(m) && 0 <= t < TERMS && m.pcbs[1].pid == 0
    requires CanCall(FirstShell(m, t, esp), Exec(t, depth, arg, Launched)) && ArgOk(arg)
    ensures
      Agree(FirstShell(m, t, esp)) &&
      var m1 := FirstShell(m, t, esp);
      var a := PcbAddr(1) + 1156;
      InFrame(a, 0) && KernelWord(m1, a) == Some(0) && KernelWord(Do(m1, Exec(t, depth, arg, Launched)), a) == Some(1)
  {
    FirstShellAgrees(m, t, esp);
    var m1 := FirstShell(m, t, esp);
    WordOf(m1, 1, 1156);
    WordOf(Do(m1, Exec(t, depth, arg, Launched)), 1, 1156);
  }

  lemma InUseWord(m: Machine, q: int, fd: int)
    requires m.Valid() && 0 <= q < MAX_PROGRAMS && 0 <= fd < FD_MAX
    ensures KernelWord(m, PcbAddr(q) + 16 * fd + 12) == Some(if m.pcbs[q].files[fd].inUse then 1 else 0)
  {
    var k := 16 * fd + 12;
    WordOf(m, q, k);
    assert k / 16 == fd && k % 16 == 12;
  }

  lemma HaltCloses(m: Machine, c: Call)
    requires Agree(m) && CanCall(m, c) && c.Exit? && !Restarts(m, c.t, m.active)
    ensures Do(m, c).pcbs[m.active].files == FRESH_FILES
  {
    ClosedFromCloses(m.pcbs[m.active], FD_START);
  }

  /** So does a halt that closes a file: the in-use flag of the slot goes from 1 to 0. */
  lemma HaltChangesFrameZero(m: Machine, c: Call, fd: int)
    requires Agree(m) && CanCall(m, c) && c.Exit? && !Restarts(m, c.t, m.active)
    requires FD_START <= fd < FD_MAX && m.pcbs[m.active].files[fd].inUse
    ensures
      var a := PcbAddr(m.active) + 16 * fd + 12;
      InFrame(a, 0) && KernelWord(m, a) == Some(1) && KernelWord(Do(m, c), a) == Some(0)
  {
    hide KernelWord, Do, InFrame;
    InUseWord(m, m.active, fd);
    InUseWord(Do(m, c), m.active, fd);
    HaltCloses(m, c);
    BlocksAreInFrameZero(PcbAddr(m.active) + 16 * fd + 12, m.active);
  }

  // ----- what a load overwrites -----

  /** The bytes that loading `length` bytes for process `p` writes. */
  predicate InLoad(a: int, p: nat, length: nat) {
    Frame(p) + LOAD_AT <= a < Frame(p) + LOAD_AT + length
  }

  /** Loading a file that fits the page leaves every PCB and kernel stack alone exactly when
      the process is not 0 or the file ends below the lowest PCB. */
  lemma LoadSparesBlocks(p: nat, length: nat)
    requires length <= FOUR_MB - LOAD_AT
    ensures (forall a: int :: InLoad(a, p, length) ==> !InSomeBlock(a)) <==> p > 0 || length <= ROOM
  {
    if p == 0 && length > ROOM {
      var a := PcbAddr(MAX_PROGRAMS - 1);
      assert InLoad(a, p, length) && InBlock(a, MAX_PROGRAMS - 1);
    }
    assert p > 0 ==> Frame(p) >= Frame(0) + FOUR_MB;
    forall a: int, q | 0 <= q < MAX_PROGRAMS && InBlock(a, q)
      ensures InFrame(a, 0) && a >= PcbAddr(MAX_PROGRAMS - 1)
    {
      BlocksAreInFrameZero(a, q);
    }
  }

  /** The load of process 0 that spares the kernel's blocks and the range [lo, hi). */
  predicate Spares(length: nat, lo: int, hi: int) {
    length <= ROOM && (length == 0 || hi <= lo || Frame(0) + LOAD_AT + length <= lo || hi <= Frame(0) + LOAD_AT)
  }

  /** The same for any part of the kernel's 4 MB, such as the file system image: only a load
      of process 0 can reach it, and that one does unless the two ranges are apart. */
  lemma LoadSparesRange(p: nat, length: nat, lo: int, hi: int)
    requires length <= FOUR_MB - LOAD_AT && Frame(0) <= lo && hi <= Frame(0) + FOUR_MB
    ensures (forall a: int :: InLoad(a, p, length) ==> !InSomeBlock(a) && !(lo <= a < hi)) <==>
            p > 0 || Spares(length, lo, hi)
  {
    LoadSparesBlocks(p, length);
    assert p > 0 ==> Frame(p) >= Frame(0) + FOUR_MB;
    var start := Frame(0) + LOAD_AT;
    var a := if lo < start then start else lo;
    assert p == 0 && length > 0 && lo < hi && lo < start + length && start < hi ==>
      InLoad(a, p, length) && lo <= a < hi;
  }
}
