/** The process stack of syscalls.c: execute and halt as steps of the kernel's counters. */
module Processes {
  import opened Bytes
  import opened Descriptors
  import opened Limits
  import opened Options

  const EIGHT_MB := 0x80_0000
  const KSTACK_SIZE := 0x2000
  const KSTACK_BASE := EIGHT_MB - KSTACK_SIZE
  const MAX_PROGRAMS := 6
  const ARG_SIZE := 1024

  /** KSTACK_TO_PCB: the bottom of the 8 KB block of process `p`. */
  function PcbAddr(p: int): int {
    KSTACK_BASE - (p + 1) * KSTACK_SIZE
  }

  /** The kernel stack top that execute and halt put into the TSS. */
  function StackTop(p: int): int {
    KSTACK_BASE - KSTACK_SIZE * p - 4
  }

  /** get_pcb: the stack pointer with its low 13 bits masked off. */
  function PcbOf(esp: int): int {
    esp - esp % KSTACK_SIZE
  }

  /** A stack pointer that has not left the block of process `p`. */
  predicate OnStackOf(esp: int, p: int) {
    PcbAddr(p) <= esp <= StackTop(p)
  }

  /** Masking a stack pointer finds the PCB of the process whose stack it is on. */
  lemma MaskFindsPcb(esp: int, p: int)
    requires OnStackOf(esp, p)
    ensures PcbOf(esp) == PcbAddr(p)
  {
    assert PcbAddr(p) == KSTACK_SIZE * (1022 - p);
    assert esp - PcbAddr(p) < KSTACK_SIZE;
  }

  /** The globals of syscalls.c, the per-terminal counters, the PCB area, tss.esp0 and the
      process whose program page is mapped. */
  datatype Machine = Machine(active: int, counter: int, numProgram: seq<int>, termPcb: seq<int>,
                             pcbs: seq<Pcb>, esp0: int, mapped: int) {
    predicate Valid() {
      && |numProgram| == TERMS && |termPcb| == TERMS && |pcbs| == MAX_PROGRAMS
      && forall p :: 0 <= p < MAX_PROGRAMS ==> |pcbs[p].files| == FD_MAX
    }
  }

  function Total(m: Machine): int
    requires |m.numProgram| == TERMS
  {
    m.numProgram[0] + m.numProgram[1] + m.numProgram[2]
  }

  function Charge(m: Machine, t: int, n: int): (r: Machine)
    requires m.Valid() && 0 <= t < TERMS
    ensures r.Valid() && Total(r) == Total(m) + n
  {
    m.(active := m.active + n, counter := m.counter + n, numProgram := m.numProgram[t := m.numProgram[t] + n])
  }

  // ----- execute -----

  /** How an execute ends: refused before it changes anything, abandoned after the counters
      have moved because the program could not be loaded, or with a new process. */
  datatype Outcome = Refused | LoadFailed | Launched

  /** The counters and the program page, as they are when the load starts. */
  function Enter(m: Machine, t: int): (r: Machine)
    requires m.Valid() && 0 <= t < TERMS
    ensures r.Valid()
  {
    Charge(m, t, 1).(mapped := m.active + 1)
  }

  function NewPcb(was: Pcb, p: int, parent: int, arg: seq<Byte>, esp: int): Pcb {
    Pcb(FRESH_FILES, p, parent, arg, esp, was.programCounter)
  }

  function Execute(m: Machine, t: int, esp: int, arg: seq<Byte>, how: Outcome): (r: Machine)
    requires m.Valid() && 0 <= t < TERMS && (how.Launched? ==> -1 <= m.active < MAX_PROGRAMS - 1)
    ensures r.Valid()
  {
    match how
    case Refused => m
    case LoadFailed => Enter(m, t)
    case Launched =>
      var a := m.active + 1;
      var r := Enter(m, t);
      r.(pcbs := r.pcbs[a := NewPcb(r.pcbs[a], a, m.termPcb[t], arg, esp)],
         termPcb := r.termPcb[t := PcbAddr(a)], esp0 := StackTop(a))
  }

  // ----- halt -----

  /** halt starts a new shell instead of returning to a parent. */
  predicate Restarts(m: Machine, t: int, p: int)
    requires m.Valid() && 0 <= t < TERMS && 0 <= p < MAX_PROGRAMS
  {
    m.pcbs[p].parent == 0 || m.active - 1 == -1 || m.numProgram[t] <= 1
  }

  /** halt of process `p` up to its jump, with the launch of the new shell as part of the
      step. */
  function Halt(m: Machine, t: int, p: int, esp: int): (r: Machine)
    requires m.Valid() && 0 <= t < TERMS && 0 <= p < MAX_PROGRAMS && 0 <= m.active < MAX_PROGRAMS
    ensures r.Valid()
  {
    var d := Charge(m, t, -1);
    if Restarts(m, t, p) then Execute(d, t, esp, Repeat(NUL, ARG_SIZE), Launched)
    else d.(esp0 := StackTop(d.active), mapped := d.active, pcbs := d.pcbs[p := ClosedFrom(d.pcbs[p], FD_START)])
  }

  // ----- runs -----

  /** A system call by the running process, with its kernel stack pointer `depth` bytes
      below the top; execute and halt are made with terminal `t` in front. `Look` stands for
      the calls that change none of this. */
  datatype Call =
    | Exec(t: int, depth: int, arg: seq<Byte>, how: Outcome)
    | Exit(t: int, depth: int)
    | Files(depth: int, call: FileCall)
    | Look(depth: int)

  ghost predicate CanCall(m: Machine, c: Call) {
    (c.Exec? || c.Exit? ==> 0 <= c.t < TERMS) && 0 <= c.depth && OnStackOf(m.esp0 - c.depth, m.active)
  }

  /** The two counters and the sum of the terminals' counters agree and stay between 1 and
      6; the mapped program page, the kernel stack top and the PCB found from it all belong
      to the active process; and the PCBs of all processes are in order. */
  ghost predicate Agree(m: Machine) {
    && m.Valid() && 0 <= m.active < MAX_PROGRAMS
    && m.active + 1 == m.counter == Total(m)
    && m.mapped == m.active && m.esp0 == StackTop(m.active) && PcbOf(m.esp0) == PcbAddr(m.active)
    && forall p :: 0 <= p <= m.active ==> m.pcbs[p].pid == p && Tidy(m.pcbs[p]) && ArgOk(m.pcbs[p].arg)
  }

  /** The argument field: 1024 bytes with a terminator among them. */
  ghost predicate ArgOk(arg: seq<Byte>) {
    |arg| == ARG_SIZE && NUL in arg
  }

  /** What execute's own test lets through, and how it fills the argument field. */
  ghost predicate Possible(m: Machine, c: Call)
    requires m.Valid()
  {
    c.Exec? ==> ArgOk(c.arg) && (Total(m) >= MAX_PROGRAMS ==> c.how.Refused?)
  }

  lemma NoArgument(arg: seq<Byte>)
    requires arg == Repeat(NUL, ARG_SIZE)
    ensures ArgOk(arg)
  {
    assert arg[0] == NUL;
  }

  predicate LoadFails(c: Call) {
    c.Exec? && c.how.LoadFailed?
  }

  /** open, read or close by the active process. */
  function WithFiles(m: Machine, call: FileCall): (r: Machine)
    requires m.Valid() && 0 <= m.active < MAX_PROGRAMS
    ensures r.Valid()
  {
    m.(pcbs := m.pcbs[m.active := FileStep(m.pcbs[m.active], call).0])
  }

  /** A halt that starts no shell and jumps to a stack pointer that is not on the stack of the
      process below. The frame there is that of an execute called by an earlier halt. */
  predicate ResumesInside(m: Machine, c: Call) {
    && c.Exit? && m.Valid() && 0 <= c.t < TERMS && 1 <= m.active < MAX_PROGRAMS
    && !Restarts(m, c.t, m.active) && !OnStackOf(m.pcbs[m.active].esp, m.active - 1)
  }

  /** The earlier halt goes on behind that execute, and takes its terminal's program off the
      count again. */
  function RunOnHalt(m: Machine, t: int): (r: Machine)
    requires m.Valid() && 0 <= t < TERMS
    ensures r.Valid() && Total(r) == Total(m) - 1
  {
    m.(numProgram := m.numProgram[t := m.numProgram[t] - 1])
  }

  function Do(m: Machine, c: Call): (r: Machine)
    requires Agree(m) && CanCall(m, c) && Possible(m, c)
    ensures r.Valid()
  {
    match c
    case Exec(t, depth, arg, how) => Execute(m, t, m.esp0 - depth, arg, how)
    case Exit(t, depth) =>
      var r := Halt(m, t, m.active, m.esp0 - depth);
      if ResumesInside(m, c) then RunOnHalt(r, t) else r
    case Files(_, call) => WithFiles(m, call)
    case Look(_) => m
  }

  /** open, read and close leave the identity of the process alone. */
  lemma FileStepKeeps(p: Pcb, c: FileCall)
    requires |p.files| == FD_MAX
    ensures var q := FileStep(p, c).0; q.pid == p.pid && q.parent == p.parent && q.arg == p.arg && q.esp == p.esp
  {
  }

  ghost predicate Breaks(m: Machine, c: Call) {
    LoadFails(c) || ResumesInside(m, c)
  }

  /** A step keeps the agreement exactly when it is neither a launch whose load fails nor a
      halt that resumes inside an earlier halt. */
  lemma StepAgrees(m: Machine, c: Call)
    requires Agree(m) && CanCall(m, c) && Possible(m, c)
    ensures Agree(Do(m, c)) <==> !Breaks(m, c)
  {
    var r := Do(m, c);
    if c.Files? {
      hide FileStep, Tidy, ArgOk;
      StepTidy(m.pcbs[m.active], c.call);
      FileStepKeeps(m.pcbs[m.active], c.call);
    } else {
      hide ClosedFrom, ArgOk;
      NoArgument(Repeat(NUL, ARG_SIZE));
      MaskFindsPcb(StackTop(r.active), r.active);
    }
  }

  ghost predicate StepTo(m: Machine, c: Call, r: Machine)
    requires m.Valid()
  {
    CanCall(m, c) && Possible(m, c) && (Agree(m) ==> r == Do(m, c))
  }

  /** Powered on: no process, zeroed counters. */
  ghost predicate PowerOn(m: Machine) {
    && m.Valid() && m.active == -1 && m.counter == 0
    && m.numProgram == [0, 0, 0] && m.termPcb == [0, 0, 0]
  }

  /** The first shell, launched on terminal `t` from a stack that belongs to no process. */
  function FirstShell(m: Machine, t: int, esp: int): (r: Machine)
    requires m.Valid() && m.active == -1 && 0 <= t < TERMS
    ensures r.Valid()
  {
    Execute(m, t, esp, Repeat(NUL, ARG_SIZE), Launched)
  }

  /** The states of a run: the first shell is launched on terminal `t`, then calls are made. */
  ghost predicate Runs(t: int, ms: seq<Machine>, cs: seq<Call>) {
    && |ms| == |cs| + 1 && 0 <= t < TERMS
    && (exists m: Machine, esp: int :: PowerOn(m) && ms[0] == FirstShell(m, t, esp))
    && (forall i :: 0 <= i < |ms| ==> ms[i].Valid())
    && forall i :: 0 <= i < |cs| ==> StepTo(ms[i], cs[i], ms[i + 1])
  }

  /** No load fails before step `n`. */
  ghost predicate LoadsUpTo(cs: seq<Call>, n: nat) {
    forall i :: 0 <= i < n && i < |cs| ==> !LoadFails(cs[i])
  }

  /** Nor does a halt resume inside an earlier one. */
  ghost predicate SoundUpTo(ms: seq<Machine>, cs: seq<Call>, n: nat) {
    forall i :: 0 <= i < n && i < |cs| && i < |ms| ==> !Breaks(ms[i], cs[i])
  }

  lemma FirstShellAgrees(m: Machine, t: int, esp: int)
    requires PowerOn(m) && 0 <= t < TERMS
    ensures Agree(FirstShell(m, t, esp))
  {
    NoArgument(Repeat(NUL, ARG_SIZE));
    MaskFindsPcb(StackTop(0), 0);
  }

  lemma {:induction false} AgreesUpTo(t: int, ms: seq<Machine>, cs: seq<Call>, n: nat)
    requires Runs(t, ms, cs) && n < |ms| && SoundUpTo(ms, cs, n)
    ensures Agree(ms[n])
  {
    if n == 0 {
      var m: Machine, esp :| PowerOn(m) && ms[0] == FirstShell(m, t, esp);
      FirstShellAgrees(m, t, esp);
    } else {
      hide Breaks, Do, Agree;
      AgreesUpTo(t, ms, cs, n - 1);
      assert StepTo(ms[n - 1], cs[n - 1], ms[n - 1 + 1]);
      StepAgrees(ms[n - 1], cs[n - 1]);
    }
  }

  ghost predicate AllAgree(ms: seq<Machine>) {
    forall n :: 0 <= n < |ms| ==> Agree(ms[n])
  }

  /** Every state of a run after boot agrees, with 1 to 6 processes, exactly when no load of
      the run fails and no halt resumes inside an earlier one: over every interleaving of
      execute, halt, open, read and close, with any terminal in front at each step. */
  lemma AlwaysAgrees(t: int, ms: seq<Machine>, cs: seq<Call>)
    requires Runs(t, ms, cs)
    ensures AllAgree(ms) <==> SoundUpTo(ms, cs, |cs|)
    ensures AllAgree(ms) ==> forall n :: 0 <= n < |ms| ==> 1 <= ms[n].counter <= MAX_PROGRAMS
  {
    if SoundUpTo(ms, cs, |cs|) {
      forall n: nat | n < |ms|
        ensures Agree(ms[n])
      {
        AgreesUpTo(t, ms, cs, n);
      }
    } else {
      var i :| 0 <= i < |cs| && Breaks(ms[i], cs[i]);
      assert StepTo(ms[i], cs[i], ms[i + 1]);
      if Agree(ms[i]) {
        StepAgrees(ms[i], cs[i]);
      }
    }
  }

  // ----- which halts start a new shell, over runs that have not been broken yet -----

  /** The step launches a process, by execute or because halt starts a new shell. */
  ghost predicate Launches(m: Machine, c: Call)
    requires Agree(m) && CanCall(m, c)
  {
    (c.Exec? && c.how.Launched?) || (c.Exit? && Restarts(m, c.t, m.active))
  }

  ghost predicate LaunchStep(ms: seq<Machine>, cs: seq<Call>, i: nat) {
    i < |cs| && i < |ms| && Agree(ms[i]) && CanCall(ms[i], cs[i]) && Launches(ms[i], cs[i])
  }

  /** There was a launch on terminal `t` before step `n`. */
  ghost predicate Used(boot: int, ms: seq<Machine>, cs: seq<Call>, n: nat, t: int) {
    t == boot || exists i: nat :: i < n && LaunchStep(ms, cs, i) && cs[i].t == t
  }

  /** The step that launched the process now called `p`, or -1 for the boot. */
  ghost function Born(ms: seq<Machine>, cs: seq<Call>, n: nat, p: int): (i: int)
    requires n <= |cs| < |ms|
    ensures -1 <= i < n && (i >= 0 ==> LaunchStep(ms, cs, i))
  {
    if n == 0 then -1
    else if LaunchStep(ms, cs, n - 1) && ms[n].active == p then n - 1
    else Born(ms, cs, n - 1, p)
  }

  /** Process `p` was the first ever launched on its terminal. */
  ghost predicate FirstThere(boot: int, ms: seq<Machine>, cs: seq<Call>, n: nat, p: int)
    requires n <= |cs| < |ms|
  {
    var i := Born(ms, cs, n, p);
    i == -1 || !Used(boot, ms, cs, i, cs[i].t)
  }

  /** The process last launched on terminal `t` before step `n`. */
  ghost function LastOn(boot: int, ms: seq<Machine>, cs: seq<Call>, n: nat, t: int): Option<int>
    requires n <= |cs| < |ms|
  {
    if n == 0 then if t == boot then Some(0) else None
    else if LaunchStep(ms, cs, n - 1) && cs[n - 1].t == t then Some(ms[n].active)
    else LastOn(boot, ms, cs, n - 1, t)
  }

  function PcbAddrOf(p: Option<int>): int {
    if p.None? then 0 else PcbAddr(p.value)
  }

  /** What one step does to the terminals' PCB pointers. */
  lemma StepTermPcb(m: Machine, c: Call, t: int)
    requires Agree(m) && CanCall(m, c) && Possible(m, c) && !Breaks(m, c) && 0 <= t < TERMS
    ensures
      var r := Do(m, c);
      && 0 <= r.active < MAX_PROGRAMS
      && r.termPcb[t] == if Launches(m, c) && c.t == t then PcbAddr(r.active) else m.termPcb[t]
  {
  }

  /** Over every run a terminal's pointer is the PCB of the process last launched on it. */
  lemma {:induction false} TermPcbHistory(boot: int, ms: seq<Machine>, cs: seq<Call>, n: nat, t: int)
    requires Runs(boot, ms, cs) && n < |ms| && SoundUpTo(ms, cs, n) && 0 <= t < TERMS
    ensures ms[n].termPcb[t] == PcbAddrOf(LastOn(boot, ms, cs, n, t))
    ensures ms[n].termPcb[t] != 0 <==> Used(boot, ms, cs, n, t)
  {
    if n > 0 {
      hide Do, Execute, Halt, CanCall, Possible;
      TermPcbHistory(boot, ms, cs, n - 1, t);
      AgreesUpTo(boot, ms, cs, n - 1);
      assert StepTo(ms[n - 1], cs[n - 1], ms[n - 1 + 1]);
      StepTermPcb(ms[n - 1], cs[n - 1], t);
      UsedStep(boot, ms, cs, n, t);
    }
  }

  lemma UsedStep(boot: int, ms: seq<Machine>, cs: seq<Call>, n: nat, t: int)
    requires 0 < n <= |cs|
    ensures Used(boot, ms, cs, n, t) <==>
            Used(boot, ms, cs, n - 1, t) || (LaunchStep(ms, cs, n - 1) && cs[n - 1].t == t)
  {
  }

  /** What a launch writes once and no other call changes. */
  datatype Birth = Birth(parent: int, arg: seq<Byte>, esp: int)

  function BirthOf(p: Pcb): Birth {
    Birth(p.parent, p.arg, p.esp)
  }

  /** The birth of the process that a call launches: the terminal's pointer, the argument that
      execute was given, and the stack pointer at the call. */
  function BirthBy(m: Machine, c: Call): Birth
    requires m.Valid() && (c.Exec? || c.Exit?) && 0 <= c.t < TERMS
  {
    Birth(m.termPcb[c.t], if c.Exec? then c.arg else Repeat(NUL, ARG_SIZE), m.esp0 - c.depth)
  }

  /** What one step does to a process that is there afterwards. */
  lemma StepBirth(m: Machine, c: Call, p: int)
    requires Agree(m) && CanCall(m, c) && Possible(m, c) && !Breaks(m, c) && 0 <= p <= Do(m, c).active
    ensures
      var r := Do(m, c);
      if Launches(m, c) && r.active == p
      then BirthOf(r.pcbs[p]) == BirthBy(m, c) && p == (if c.Exec? then m.active + 1 else m.active)
      else p <= m.active && BirthOf(r.pcbs[p]) == BirthOf(m.pcbs[p])
  {
    if c.Files? {
      FileStepKeeps(m.pcbs[m.active], c.call);
    }
  }

  /** Over every run a process has the parent, the argument and the stack pointer of the call
      that launched it, whatever was called since. */
  lemma {:induction false} BornAs(boot: int, ms: seq<Machine>, cs: seq<Call>, n: nat, p: int)
    requires Runs(boot, ms, cs) && n < |ms| && SoundUpTo(ms, cs, n) && 0 <= p <= ms[n].active
    ensures Agree(ms[n])
    ensures
      var i := Born(ms, cs, n, p);
      if i == -1 then p == 0 && BirthOf(ms[n].pcbs[p]) == BirthOf(ms[0].pcbs[0])
      else BirthOf(ms[n].pcbs[p]) == BirthBy(ms[i], cs[i]) &&
           p == (if cs[i].Exec? then ms[i].active + 1 else ms[i].active)
  {
    hide Do, Execute, Halt, Possible;
    AgreesUpTo(boot, ms, cs, n);
    if n == 0 {
      FirstHasNoParent(boot, ms, cs);
    } else {
      AgreesUpTo(boot, ms, cs, n - 1);
      assert StepTo(ms[n - 1], cs[n - 1], ms[n - 1 + 1]);
      StepBirth(ms[n - 1], cs[n - 1], p);
      if !(LaunchStep(ms, cs, n - 1) && ms[n].active == p) {
        BornAs(boot, ms, cs, n - 1, p);
      }
    }
  }

  lemma FirstHasNoParent(boot: int, ms: seq<Machine>, cs: seq<Call>)
    requires Runs(boot, ms, cs)
    ensures ms[0].active == 0 && ms[0].pcbs[0].parent == 0
  {
  }

  /** Over every run, the parent of a process is the one launched before it on its terminal,
      and it has none exactly when it was the first ever launched there: halt never clears
      the terminal's pointer. */
  lemma ParentHistory(boot: int, ms: seq<Machine>, cs: seq<Call>, n: nat, p: int)
    requires Runs(boot, ms, cs) && n < |ms| && SoundUpTo(ms, cs, n) && 0 <= p <= ms[n].active
    ensures Agree(ms[n]) && (ms[n].pcbs[p].parent == 0 <==> FirstThere(boot, ms, cs, n, p))
    ensures
      var i := Born(ms, cs, n, p);
      i >= 0 ==> ms[n].pcbs[p].parent == PcbAddrOf(LastOn(boot, ms, cs, i, cs[i].t))
  {
    BornAs(boot, ms, cs, n, p);
    FirstHasNoParent(boot, ms, cs);
    var i := Born(ms, cs, n, p);
    if i >= 0 {
      TermPcbHistory(boot, ms, cs, i, cs[i].t);
    }
  }

  /** Over every run and with any terminal in front, halt starts a new shell exactly when
      the process is pid 0, or was the first ever launched on its terminal, or at most one
      program is charged to the terminal in front. */
  lemma RestartsExactly(boot: int, ms: seq<Machine>, cs: seq<Call>, n: nat, t: int)
    requires Runs(boot, ms, cs) && n < |ms| && SoundUpTo(ms, cs, n) && 0 <= t < TERMS
    ensures Agree(ms[n])
    ensures Restarts(ms[n], t, ms[n].active) <==>
            ms[n].active == 0 || FirstThere(boot, ms, cs, n, ms[n].active) || ms[n].numProgram[t] <= 1
  {
    AgreesUpTo(boot, ms, cs, n);
    ParentHistory(boot, ms, cs, n, ms[n].active);
  }

  // ----- where a halt resumes -----

  /** Over every run, the stack pointer that a process other than pid 0 returns to is that of
      the call that launched it: on the stack of the process below it if that was execute, and
      on its own stack if a halt started it in place of another. */
  lemma ResumesWhereLaunched(boot: int, ms: seq<Machine>, cs: seq<Call>, n: nat, p: int)
    requires Runs(boot, ms, cs) && n < |ms| && SoundUpTo(ms, cs, n) && 1 <= p <= ms[n].active
    ensures Agree(ms[n]) && Born(ms, cs, n, p) >= 0
    ensures
      var i := Born(ms, cs, n, p);
      ms[n].pcbs[p].esp == ms[i].esp0 - cs[i].depth && OnStackOf(ms[n].pcbs[p].esp, if cs[i].Exec? then p - 1 else p)
  {
    BornAs(boot, ms, cs, n, p);
    assert LaunchStep(ms, cs, Born(ms, cs, n, p));
  }

  /** Hence a halt that starts no shell resumes on the stack of the process it makes active
      exactly when the halted process was launched by execute. */
  lemma ReturnsBelowExactly(boot: int, ms: seq<Machine>, cs: seq<Call>, n: nat)
    requires Runs(boot, ms, cs) && n < |ms| && SoundUpTo(ms, cs, n) && ms[n].active >= 1
    ensures Agree(ms[n]) && Born(ms, cs, n, ms[n].active) >= 0
    ensures PcbOf(ms[n].pcbs[ms[n].active].esp) == PcbAddr(ms[n].active - 1) <==>
            cs[Born(ms, cs, n, ms[n].active)].Exec?
  {
    var a := ms[n].active;
    ResumesWhereLaunched(boot, ms, cs, n, a);
    MaskFindsPcb(ms[n].pcbs[a].esp, if cs[Born(ms, cs, n, a)].Exec? then a - 1 else a);
  }

  /** The call halts, without starting a shell, a process that a halt started. */
  ghost predicate HaltsRestarted(ms: seq<Machine>, cs: seq<Call>, i: nat, c: Call)
    requires i <= |cs| < |ms|
  {
    && c.Exit? && ms[i].Valid() && 0 <= c.t < TERMS && 1 <= ms[i].active < MAX_PROGRAMS
    && !Restarts(ms[i], c.t, ms[i].active)
    && Born(ms, cs, i, ms[i].active) >= 0 && cs[Born(ms, cs, i, ms[i].active)].Exit?
  }

  /** By the history of the run, those are the halts that resume inside an earlier one. */
  lemma ResumesInsideExactly(boot: int, ms: seq<Machine>, cs: seq<Call>, n: nat, c: Call)
    requires Runs(boot, ms, cs) && n < |ms| && SoundUpTo(ms, cs, n)
    ensures ResumesInside(ms[n], c) <==> HaltsRestarted(ms, cs, n, c)
  {
    AgreesUpTo(boot, ms, cs, n);
    if ms[n].active >= 1 {
      ResumesWhereLaunched(boot, ms, cs, n, ms[n].active);
      var i := Born(ms, cs, n, ms[n].active);
      assert LaunchStep(ms, cs, i);
    }
  }

  /** No load fails before step `n`, and no process that a halt started is halted without
      starting a shell. */
  ghost predicate SoundHistory(ms: seq<Machine>, cs: seq<Call>, n: nat)
    requires |cs| < |ms|
  {
    forall i :: 0 <= i < n && i < |cs| ==> !LoadFails(cs[i]) && !HaltsRestarted(ms, cs, i, cs[i])
  }

  lemma {:induction false} SoundByHistory(boot: int, ms: seq<Machine>, cs: seq<Call>, n: nat)
    requires Runs(boot, ms, cs) && n <= |cs|
    ensures SoundUpTo(ms, cs, n) <==> SoundHistory(ms, cs, n)
  {
    hide HaltsRestarted, ResumesInside, Runs;
    if n > 0 {
      assert |cs| < |ms| by {
        RunLength(boot, ms, cs);
      }
      SoundByHistory(boot, ms, cs, n - 1);
      if SoundUpTo(ms, cs, n - 1) {
        ResumesInsideExactly(boot, ms, cs, n - 1, cs[n - 1]);
      }
    }
  }

  lemma RunLength(boot: int, ms: seq<Machine>, cs: seq<Call>)
    requires Runs(boot, ms, cs)
    ensures |ms| == |cs| + 1
  {
  }

  /** So every state of a run agrees exactly when that is its history. */
  lemma AgreesByHistory(boot: int, ms: seq<Machine>, cs: seq<Call>)
    requires Runs(boot, ms, cs)
    ensures AllAgree(ms) <==> SoundHistory(ms, cs, |cs|)
  {
    AlwaysAgrees(boot, ms, cs);
    SoundByHistory(boot, ms, cs, |cs|);
  }

  /** It happens with any two terminals: a second process on terminal `a`, halted twice while
      terminal `b` is shown and then while `a` is, starts no shell the third time, resumes on
      the stack of the process that it has just left, and the agreement is lost. */
  lemma ResumesOnOwnStack(m: Machine, a: int, b: int, esp: int, arg: seq<Byte>)
    requires PowerOn(m) && ArgOk(arg) && 0 <= a < TERMS && 0 <= b < TERMS && a != b
    ensures
      var m1 := FirstShell(m, a, esp);
      Agree(m1) && CanCall(m1, Exec(a, 0, arg, Launched)) &&
      var m2 := Do(m1, Exec(a, 0, arg, Launched));
      Agree(m2) && CanCall(m2, Exit(b, 0)) &&
      var m3 := Do(m2, Exit(b, 0));
      Agree(m3) && CanCall(m3, Exit(b, 0)) &&
      var m4 := Do(m3, Exit(b, 0));
      && Agree(m4) && m4.active == 1 && !Restarts(m4, a, 1) && OnStackOf(m4.pcbs[1].esp, 1)
      && CanCall(m4, Exit(a, 0)) && ResumesInside(m4, Exit(a, 0))
      && var m5 := Do(m4, Exit(a, 0));
         m5.active == 0 && m5.counter == 1 && Total(m5) == 0 && !Agree(m5)
  {
    FirstShellAgrees(m, a, esp);
    var m1 := FirstShell(m, a, esp);
    StepAgrees(m1, Exec(a, 0, arg, Launched));
    var m2 := Do(m1, Exec(a, 0, arg, Launched));
    hide Do, Agree;
    HaltUnderOther(m2, a, b);
    var m3 := Do(m2, Exit(b, 0));
    HaltUnderOther(m3, a, b);
    HaltUnderOwn(Do(m3, Exit(b, 0)), a);
  }

  /** Process 1 halted while terminal `b`, to which nothing is charged, is shown. */
  lemma HaltUnderOther(m: Machine, a: int, b: int)
    requires Agree(m) && m.active == 1 && 0 <= a < TERMS && 0 <= b < TERMS && a != b
    requires m.numProgram[a] == 2 && m.numProgram[b] == 0
    ensures CanCall(m, Exit(b, 0))
    ensures
      var r := Do(m, Exit(b, 0));
      && Agree(r) && r.active == 1 && r.numProgram[a] == 2 && r.numProgram[b] == 0 && r.termPcb[b] == PcbAddr(1)
      && r.pcbs[1].parent == m.termPcb[b] && OnStackOf(r.pcbs[1].esp, 1)
  {
    StepAgrees(m, Exit(b, 0));
  }

  /** Then halted while terminal `a` is shown. */
  lemma HaltUnderOwn(m: Machine, a: int)
    requires Agree(m) && m.active == 1 && 0 <= a < TERMS && m.numProgram[a] == 2 && m.pcbs[1].parent != 0
    requires OnStackOf(m.pcbs[1].esp, 1)
    ensures CanCall(m, Exit(a, 0)) && !Restarts(m, a, 1) && ResumesInside(m, Exit(a, 0))
    ensures
      var r := Do(m, Exit(a, 0));
      r.active == 0 && r.counter == 1 && Total(r) == 0 && !Agree(r)
  {
  }

  // ----- one terminal in front throughout -----

  /** All processes are charged to terminal `t`; each one but the first was launched from
      the stack of the one below it; and only the first shell after power-on has no
      parent. */
  ghost predicate Stacked(m: Machine, t: int, restarted: bool) {
    && Agree(m) && 0 <= t < TERMS && m.numProgram[t] == m.active + 1 && m.termPcb[t] != 0
    && (m.pcbs[0].parent == 0 <==> !restarted)
    && forall p :: 1 <= p <= m.active ==> m.pcbs[p].parent != 0 && OnStackOf(m.pcbs[p].esp, p - 1)
  }

  /** Pid 0 has been halted before step `n`. */
  ghost predicate Restarted(ms: seq<Machine>, cs: seq<Call>, n: nat) {
    exists i: nat :: i < n && HaltsPidZero(ms, cs, i)
  }

  ghost predicate HaltsPidZero(ms: seq<Machine>, cs: seq<Call>, i: nat) {
    i < |cs| && i < |ms| && cs[i].Exit? && ms[i].active == 0
  }

  /** The calls are made with terminal `t` in front. */
  ghost predicate AllOn(cs: seq<Call>, t: int) {
    forall i :: 0 <= i < |cs| ==> cs[i].Exec? || cs[i].Exit? ==> cs[i].t == t
  }

  /** With one terminal in front no halt resumes inside an earlier one. */
  lemma StackedResumesBelow(m: Machine, t: int, restarted: bool, c: Call)
    requires Stacked(m, t, restarted)
    ensures !ResumesInside(m, c)
  {
  }

  lemma StackedStep(m: Machine, t: int, restarted: bool, c: Call)
    requires Stacked(m, t, restarted) && CanCall(m, c) && Possible(m, c) && !LoadFails(c)
    requires c.Exec? || c.Exit? ==> c.t == t
    ensures Stacked(Do(m, c), t, restarted || (c.Exit? && m.active == 0))
  {
    StackedResumesBelow(m, t, restarted, c);
    StepAgrees(m, c);
    if c.Files? {
      FileStepKeeps(m.pcbs[m.active], c.call);
    }
  }

  /** Every state of every run with terminal `t` in front throughout is stacked, and pid 0
      has a parent exactly when it has been halted before. */
  lemma {:induction false} AlwaysStacked(t: int, ms: seq<Machine>, cs: seq<Call>, n: nat)
    requires Runs(t, ms, cs) && n < |ms| && LoadsUpTo(cs, n) && AllOn(cs, t)
    ensures Stacked(ms[n], t, Restarted(ms, cs, n))
  {
    if n == 0 {
      AgreesUpTo(t, ms, cs, 0);
    } else {
      hide Do, Execute, Halt, CanCall, Possible;
      AlwaysStacked(t, ms, cs, n - 1);
      assert StepTo(ms[n - 1], cs[n - 1], ms[n - 1 + 1]);
      StackedStep(ms[n - 1], t, Restarted(ms, cs, n - 1), cs[n - 1]);
      assert Restarted(ms, cs, n) <==> Restarted(ms, cs, n - 1) || HaltsPidZero(ms, cs, n - 1);
    }
  }

  /** Hence with one terminal in front every state of a run agrees exactly when no load of it
      fails. */
  lemma OneTerminalAgrees(t: int, ms: seq<Machine>, cs: seq<Call>)
    requires Runs(t, ms, cs) && AllOn(cs, t)
    ensures AllAgree(ms) <==> LoadsUpTo(cs, |cs|)
  {
    AlwaysAgrees(t, ms, cs);
    if LoadsUpTo(cs, |cs|) {
      forall i | 0 <= i < |cs|
        ensures !Breaks(ms[i], cs[i])
      {
        AlwaysStacked(t, ms, cs, i);
        StackedResumesBelow(ms[i], t, Restarted(ms, cs, i), cs[i]);
      }
    }
  }

  /** With one terminal in front, halt starts a new shell exactly when the process is pid 0;
      two of its three tests say that alone, the first only until pid 0 is first halted. */
  lemma RestartsExactlyPidZero(t: int, ms: seq<Machine>, cs: seq<Call>, n: nat)
    requires Runs(t, ms, cs) && n < |ms| && LoadsUpTo(cs, n) && AllOn(cs, t)
    ensures Agree(ms[n])
    ensures var m := ms[n];
      && (Restarts(m, t, m.active) <==> m.active == 0)
      && (m.active - 1 == -1 <==> m.active == 0) && (m.numProgram[t] <= 1 <==> m.active == 0)
      && (m.pcbs[m.active].parent == 0 <==> m.active == 0 && !Restarted(ms, cs, n))
  {
    AlwaysStacked(t, ms, cs, n);
  }

  /** The tests come apart as soon as the first shell has been halted: the new pid 0 has a
      parent, its own PCB. */
  lemma TestsDisagree(m: Machine, t: int, esp: int, depth: int)
    requires PowerOn(m) && 0 <= t < TERMS && CanCall(FirstShell(m, t, esp), Exit(t, depth))
    ensures
      Agree(FirstShell(m, t, esp)) &&
      var r := Do(FirstShell(m, t, esp), Exit(t, depth));
      && r.active == 0 && r.active - 1 == -1 && r.numProgram[t] <= 1
      && r.pcbs[r.active].parent == PcbAddr(0) != 0
  {
    FirstShellAgrees(m, t, esp);
  }

  /** In every such run, halting a process other than pid 0 resumes on the stack of the
      process below it, with that process active and mapped; all dynamic descriptors of the
      halted one are closed, whatever it opened, and no other PCB changes. */
  lemma HaltReturnsToLauncher(t: int, ms: seq<Machine>, cs: seq<Call>, n: nat, depth: int)
    requires Runs(t, ms, cs) && n < |ms| && LoadsUpTo(cs, n) && AllOn(cs, t)
    requires ms[n].active > 0 && CanCall(ms[n], Exit(t, depth))
    ensures Agree(ms[n])
    ensures
      var m := ms[n];
      var a, r := m.active, Do(m, Exit(t, depth));
      && r.active == a - 1 == r.mapped && OnStackOf(m.pcbs[a].esp, r.active)
      && PcbOf(m.pcbs[a].esp) == PcbAddr(r.active)
      && r.pcbs[a] == m.pcbs[a].(files := FRESH_FILES,
                                 programCounter := m.pcbs[a].programCounter - InUse(m.pcbs[a].files, FD_START))
      && forall p :: 0 <= p < MAX_PROGRAMS && p != a ==> r.pcbs[p] == m.pcbs[p]
  {
    AlwaysStacked(t, ms, cs, n);
    var m := ms[n];
    MaskFindsPcb(m.pcbs[m.active].esp, m.active - 1);
    ClosedFromCloses(m.pcbs[m.active], FD_START);
  }

  // ----- another terminal in front -----

  /** The second process on terminal 0, halting while terminal 1 is shown, starts a shell in
      its own place, because nothing is charged to terminal 1. */
  lemma SwitchedTerminalRestarts(m: Machine, esp: int, depth: int, arg: seq<Byte>)
    requires PowerOn(m) && CanCall(FirstShell(m, 0, esp), Exec(0, depth, arg, Launched)) && ArgOk(arg)
    ensures
      Agree(FirstShell(m, 0, esp)) &&
      var r := Do(FirstShell(m, 0, esp), Exec(0, depth, arg, Launched));
      Agree(r) && r.active == 1 && r.pcbs[1].parent != 0 && !Restarts(r, 0, 1) && Restarts(r, 1, 1)
  {
    FirstShellAgrees(m, 0, esp);
    StepAgrees(FirstShell(m, 0, esp), Exec(0, depth, arg, Launched));
  }

  /** A process launched from the first shell while another terminal is shown has no parent
      and restarts with any terminal in front, so it never returns to that shell. */
  lemma ParentlessRestarts(m: Machine, esp: int, depth: int, arg: seq<Byte>, t: int)
    requires PowerOn(m) && CanCall(FirstShell(m, 0, esp), Exec(1, depth, arg, Launched)) && ArgOk(arg) && 0 <= t < TERMS
    ensures
      Agree(FirstShell(m, 0, esp)) &&
      var r := Do(FirstShell(m, 0, esp), Exec(1, depth, arg, Launched));
      Agree(r) && r.active == 1 && OnStackOf(r.pcbs[1].esp, 0) && r.pcbs[1].parent == 0 && Restarts(r, t, 1)
  {
    FirstShellAgrees(m, 0, esp);
    StepAgrees(FirstShell(m, 0, esp), Exec(1, depth, arg, Launched));
  }
}
