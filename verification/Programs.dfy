/** What execute makes of a command over an image, and runs of system calls on it. */
module Programs {
  import opened Bytes
  import opened Limits
  import opened Options
  import opened FileSystem
  import opened FileReads
  import opened Directory
  import opened Descriptors
  import opened Processes
  import opened FrameZero
  import Paging

  const MAGIC: seq<Byte> := [0x7F, 0x45, 0x4C, 0x46]
  /** "shell" and its terminator. */
  const SHELL: seq<Byte> := [115, 104, 101, 108, 108, 0]

  // ----- parsing the command -----

  predicate IsSeparator(c: Byte) {
    c == NEWLINE || c == SPACE || c == NUL
  }

  /** The characters from `i` up to a separator, inside the first 128. */
  function Word(command: seq<Byte>, i: nat): (w: seq<Byte>)
    requires |command| >= KBD_BUF_SIZE
    ensures |w| <= KBD_BUF_SIZE && (i <= KBD_BUF_SIZE ==> i + |w| <= KBD_BUF_SIZE)
    ensures forall k :: 0 <= k < |w| ==> !IsSeparator(w[k])
    decreases KBD_BUF_SIZE - i
  {
    if i >= KBD_BUF_SIZE || IsSeparator(command[i]) then [] else [command[i]] + Word(command, i + 1)
  }

  /** The program name and the argument field of the PCB: the second word alone, and none
      for the first process. */
  function ProgramName(command: seq<Byte>): seq<Byte>
    requires |command| >= KBD_BUF_SIZE
  {
    Word(command, 0) + [NUL]
  }

  function ArgField(command: seq<Byte>, active: int): (r: seq<Byte>)
    requires |command| >= KBD_BUF_SIZE
    ensures ArgOk(r)
  {
    var w := if active == -1 then [] else Word(command, |Word(command, 0)| + 1);
    var r := w + Repeat(NUL, ARG_SIZE - |w|);
    assert r[ARG_SIZE - 1] == NUL;
    r
  }

  lemma {:induction false} WordAt(command: seq<Byte>, i: nat, w: seq<Byte>)
    requires |command| >= KBD_BUF_SIZE && i + |w| < KBD_BUF_SIZE
    requires command[i..i + |w|] == w && IsSeparator(command[i + |w|]) && forall c :: c in w ==> !IsSeparator(c)
    ensures Word(command, i) == w
    decreases |w|
  {
    if w != [] {
      assert command[i] == command[i..i + |w|][0] && w[0] in w;
      assert command[i + 1..i + 1 + |w[1..]|] == w[1..] by {
        assert command[i + 1..i + |w|] == command[i..i + |w|][1..];
      }
      assert forall c :: c in w[1..] ==> c in w;
      WordAt(command, i + 1, w[1..]);
    }
  }

  lemma PaddedString(w: seq<Byte>, n: nat)
    requires |w| < n && NUL !in w
    ensures CStr(w + Repeat(NUL, n - |w|)) == w
  {
    var field := w + Repeat(NUL, n - |w|);
    assert forall k :: 0 <= k < |w| ==> field[k] == w[k] && w[k] in w;
    StrLenUnique(field, |w|);
  }

  /** Where the two words lie in a line. */
  lemma CommandParts(name: seq<Byte>, arg: seq<Byte>, rest: seq<Byte>, command: seq<Byte>)
    requires command == name + [SPACE] + arg + rest && rest != []
    ensures command[0..|name|] == name && command[|name|] == SPACE
    ensures command[|name| + 1..|name| + 1 + |arg|] == arg && command[|name| + 1 + |arg|] == rest[0]
  {
  }

  /** A typed "name argument" line is taken apart again into exactly the two words. */
  lemma CommandRoundTrip(name: seq<Byte>, arg: seq<Byte>, rest: seq<Byte>, active: int)
    requires |name| + |arg| + 1 < KBD_BUF_SIZE <= |name| + |arg| + 1 + |rest| && rest != []
    requires rest[0] == NEWLINE || rest[0] == SPACE || rest[0] == NUL
    requires forall c :: c in name + arg ==> c != NEWLINE && c != SPACE && c != NUL
    ensures
      var command := name + [SPACE] + arg + rest;
      && ProgramName(command) == name + [NUL]
      && (active != -1 ==> CStr(ArgField(command, active)) == arg)
  {
    hide Word, CStr;
    var command := name + [SPACE] + arg + rest;
    assert forall c :: c in name ==> c in name + arg;
    assert forall c :: c in arg ==> c in name + arg;
    CommandParts(name, arg, rest, command);
    WordAt(command, 0, name);
    WordAt(command, |name| + 1, arg);
    PaddedString(arg, ARG_SIZE);
  }

  // ----- what makes a file a program -----

  /** Directory entries name existing inodes whose files fit the program page. */
  ghost predicate Loadable(img: Image) {
    Shape(img) && forall d :: d in img.dentries ==>
      d.inode < |img.inodes| && img.inodes[d.inode].length <= Paging.FOUR_MB - LOAD_AT
  }

  function FileAt(img: Image, i: nat): (ino: Inode)
    requires Loadable(img) && i < |img.dentries|
    ensures ino in img.inodes && InodeShape(ino)
  {
    assert img.dentries[i] in img.dentries;
    img.inodes[img.dentries[i].inode]
  }

  /** execute's four-byte buffer after the probe: the start of the file, over what the stack
      held when the file is shorter. */
  function Probe(img: Image, ino: Inode, stack: seq<Byte>): seq<Byte>
    requires |img.data| == FOUR_KB * img.dataCount && |stack| == 4
  {
    var n := Min(4, ino.length);
    Contents(img, ino)[..n] + stack[n..]
  }

  ghost predicate ProbePasses(img: Image, ino: Inode, stack: seq<Byte>)
    requires |img.data| == FOUR_KB * img.dataCount && |stack| == 4
  {
    BlockOk(img, ino, 0) && Probe(img, ino, stack) == MAGIC
  }

  /** The name finds a file that passes the probe and cannot be read to its end. */
  ghost predicate LoadCanFail(img: Image, fname: seq<Byte>, stack: seq<Byte>)
    requires Loadable(img) && |stack| == 4
  {
    var i := Lookup(img, fname);
    i.Some? && ProbePasses(img, FileAt(img, i.value), stack) && !WellFormed(img, FileAt(img, i.value))
  }

  /** How execute of a name ends, with `total` programs running and `stack` in its buffer. */
  ghost function ExecOutcome(img: Image, fname: seq<Byte>, total: int, stack: seq<Byte>): (how: Outcome)
    requires Loadable(img) && |stack| == 4
    ensures how.LoadFailed? <==> total < MAX_PROGRAMS && LoadCanFail(img, fname, stack)
  {
    var i := Lookup(img, fname);
    if total >= MAX_PROGRAMS || i.None? || !ProbePasses(img, FileAt(img, i.value), stack) then Refused
    else if WellFormed(img, FileAt(img, i.value)) then Launched
    else LoadFailed
  }

  /** A file that starts with the magic bytes and can be read to its end. */
  ghost predicate IsProgram(img: Image, ino: Inode)
    requires |img.data| == FOUR_KB * img.dataCount
  {
    WellFormed(img, ino) && 4 <= ino.length && Contents(img, ino)[..4] == MAGIC
  }

  /** The name finds a program. */
  ghost predicate NamesProgram(img: Image, fname: seq<Byte>)
    requires Loadable(img)
  {
    StrLen(fname) > 0 && exists i: nat :: FirstMatch(img, fname, i) && IsProgram(img, FileAt(img, i))
  }

  /** A name is launched, whatever the stack holds, exactly when it finds a program. */
  lemma LaunchedExactly(img: Image, fname: seq<Byte>, total: int)
    requires Loadable(img) && total < MAX_PROGRAMS
    ensures (forall stack :: |stack| == 4 ==> ExecOutcome(img, fname, total, stack) == Launched) <==>
            NamesProgram(img, fname)
  {
    var i := Lookup(img, fname);
    if i.None? {
      LookupFindsFirst(img, fname, 0);
      assert ExecOutcome(img, fname, total, MAGIC) == Refused;
    } else {
      LookupFindsFirst(img, fname, i.value);
      var ino := FileAt(img, i.value);
      forall j: nat | FirstMatch(img, fname, j)
        ensures j == i.value
      {
        LookupFindsFirst(img, fname, j);
      }
      if ino.length < 4 {
        var stack: seq<Byte> := [0, 0, 0, 0];
        assert Probe(img, ino, stack)[3] == 0;
        assert ExecOutcome(img, fname, total, stack) == Refused;
      } else {
        assert forall stack: seq<Byte> :: |stack| == 4 ==> Probe(img, ino, stack) == Contents(img, ino)[..4];
        assert ExecOutcome(img, fname, total, MAGIC) == Launched <==> IsProgram(img, ino);
      }
    }
  }

  // ----- a load that fails after the probe -----

  /** "bad" and its terminator. */
  const BAD: seq<Byte> := [98, 97, 100, 0]

  /** A C string in a name field. */
  function NameField(fname: seq<Byte>): (r: seq<Byte>)
    requires |fname| <= FILENAME_LEN
    ensures |r| == FILENAME_LEN
  {
    fname + Repeat(NUL, FILENAME_LEN - |fname|)
  }

  lemma FieldName(fname: seq<Byte>, n: nat)
    requires |fname| == n + 1 <= FILENAME_LEN && fname[n] == NUL && forall k :: 0 <= k < n ==> fname[k] != NUL
    ensures StrLen(fname) == n && NameOf(NameField(fname)) == NameOf(fname) == fname[..n]
  {
    StrLenUnique(fname, n);
    StrLenUnique(NameField(fname), n);
    assert NameField(fname)[..n] == fname[..n];
  }

  /** Files "shell", the four magic bytes alone, and "bad": 4100 bytes whose first block is
      the same one and whose second block number is out of range. */
  function BrokenImage(): (img: Image) {
    var good := ImageOf(MAGIC, NameField(SHELL));
    var blocks := good.inodes[0].blocks;
    good.(entries := 2, dentries := good.dentries[1 := Dentry(NameField(BAD), 2, 1)],
          inodes := good.inodes + [Inode(FOUR_KB + 4, blocks[1 := -1])])
  }

  lemma {:induction false} SameStart(img: Image, good: Image, ino: Inode, shell: Inode)
    requires |good.data| == FOUR_KB * good.dataCount && img.data == good.data && img.dataCount == good.dataCount
    requires BlockOk(good, shell, 0) && BlockOk(img, ino, 0) && ino.blocks[0] == shell.blocks[0]
    requires 4 <= ino.length && 4 <= shell.length
    ensures Contents(img, ino)[..4] == Contents(good, shell)[..4]
  {
    forall p: nat | p < 4
      ensures Contents(img, ino)[p] == Contents(good, shell)[p]
    {
      assert FlatByte(img, ino, p) == FlatByte(good, shell, p);
    }
  }

  lemma BrokenShape()
    ensures Loadable(BrokenImage()) && |BrokenImage().inodes| == 2
    ensures BrokenImage().dentries[0] == Dentry(NameField(SHELL), 2, 0)
    ensures BrokenImage().dentries[1] == Dentry(NameField(BAD), 2, 1)
    ensures WellFormed(BrokenImage(), BrokenImage().inodes[0]) && BrokenImage().inodes[0].length == 4
    ensures BlockOk(BrokenImage(), BrokenImage().inodes[1], 0) && BrokenImage().inodes[1].length == FOUR_KB + 4
    ensures !WellFormed(BrokenImage(), BrokenImage().inodes[1])
    ensures Contents(BrokenImage(), BrokenImage().inodes[0])[..4] == MAGIC
    ensures Contents(BrokenImage(), BrokenImage().inodes[1])[..4] == MAGIC
  {
    hide Contents, FlatByte, ImageOf;
    var good, img := ImageOf(MAGIC, NameField(SHELL)), BrokenImage();
    assert forall d :: d in img.dentries ==> d in good.dentries || d == Dentry(NameField(BAD), 2, 1);
    assert forall d :: d in good.dentries ==> d.inode == 0;
    SameStart(img, good, img.inodes[0], good.inodes[0]);
    SameStart(img, good, img.inodes[1], good.inodes[0]);
    assert MAGIC[..4] == MAGIC;
    assert !BlockOk(img, img.inodes[1], 1) && (FOUR_KB + 4) / FOUR_KB == 1;
  }

  /** On it the shell is a program, and "bad" passes the checks of execute and then fails to
      load, whatever the stack holds. */
  lemma BrokenLoad(stack: seq<Byte>, total: int)
    requires |stack| == 4 && total < MAX_PROGRAMS
    ensures Loadable(BrokenImage()) && NamesProgram(BrokenImage(), SHELL)
    ensures ExecOutcome(BrokenImage(), BAD, total, stack) == LoadFailed
  {
    hide BrokenImage, Contents, WellFormed;
    BrokenShape();
    var img := BrokenImage();
    FieldName(SHELL, 5);
    FieldName(BAD, 3);
    assert BAD[..3] != SHELL[..5];
    assert FirstMatch(img, SHELL, 0) && FirstMatch(img, BAD, 1);
    assert IsProgram(img, FileAt(img, 0));
    LookupFindsFirst(img, BAD, 1);
    assert Probe(img, FileAt(img, 1), stack) == MAGIC;
  }

  // ----- runs of system calls -----

  /** A system call with its arguments; `stack` is what the frame of execute holds where its
      buffer will be, `device` what a read returns that is not one of a regular file. */
  datatype SysCall =
    | Spawn(t: int, depth: int, command: seq<Byte>, stack: seq<Byte>)
    | Quit(t: int, depth: int)
    | OpenName(depth: int, fname: seq<Byte>)
    | ReadBytes(depth: int, fd: int, nbytes: nat, device: int)
    | CloseSlot(depth: int, fd: int)
    | Args(depth: int, room: int)

  /** A command that ends within the 128 bytes that execute looks at. */
  ghost predicate IsCommand(command: seq<Byte>) {
    |command| >= KBD_BUF_SIZE && |Word(command, 0)| < KBD_BUF_SIZE
  }

  /** The stack pointer stays in the block, and the arguments are there. */
  ghost predicate Fits(s: SysCall) {
    && 0 <= s.depth <= KSTACK_SIZE - 4
    && (s.Spawn? || s.Quit? ==> 0 <= s.t < TERMS)
    && (s.Spawn? ==> IsCommand(s.command) && |s.stack| == 4)
    && (s.OpenName? ==> NUL in s.fname)
    && (s.ReadBytes? ==> s.nbytes < UINT32 / 2)
  }

  ghost predicate AllFit(ss: seq<SysCall>) {
    forall s :: s in ss ==> Fits(s)
  }

  /** What the operation behind a descriptor returns; the PCB depends on it for regular
      files only. */
  ghost function ReadGives(img: Image, p: Pcb, fd: int, nbytes: nat, device: int): int {
    if 0 <= fd < |p.files| && p.files[fd].fop == FileTable && 0 <= p.files[fd].inode < |img.inodes|
    then FileResult(img, img.inodes[p.files[fd].inode], p.files[fd].offset, nbytes)
    else device
  }

  /** The open of a name, after its lookup. */
  function OpenCall(img: Image, fname: seq<Byte>): FileCall {
    var i := Lookup(img, fname);
    if i.None? then Missing else Open(img.dentries[i.value].filetype, img.dentries[i.value].inode)
  }

  /** The call on the counters and PCBs that a system call amounts to on an image. */
  ghost function Lower(img: Image, m: Machine, s: SysCall): Call
    requires Loadable(img) && Agree(m) && Fits(s)
  {
    match s
    case Spawn(t, depth, command, stack) =>
      Exec(t, depth, ArgField(command, m.active), ExecOutcome(img, ProgramName(command), Total(m), stack))
    case Quit(t, depth) => Exit(t, depth)
    case OpenName(depth, fname) => Files(depth, OpenCall(img, fname))
    case ReadBytes(depth, fd, nbytes, device) =>
      Files(depth, Read(fd, ReadGives(img, m.pcbs[m.active], fd, nbytes, device)))
    case CloseSlot(depth, fd) => Files(depth, Close(fd))
    case Args(depth, _) => Look(depth)
  }

  lemma LowerIsPossible(img: Image, m: Machine, s: SysCall)
    requires Loadable(img) && Agree(m) && Fits(s)
    ensures CanCall(m, Lower(img, m, s)) && Possible(m, Lower(img, m, s))
    ensures LoadFails(Lower(img, m, s)) <==>
            s.Spawn? && Total(m) < MAX_PROGRAMS && LoadCanFail(img, ProgramName(s.command), s.stack)
  {
  }

  /** One system call. Nothing is said of what follows once the agreement is broken. */
  ghost function StepOn(img: Image, m: Machine, s: SysCall): (r: Machine)
    requires Loadable(img) && m.Valid() && Fits(s)
    ensures r.Valid()
  {
    if !Agree(m) then m
    else
      LowerIsPossible(img, m, s);
      Do(m, Lower(img, m, s))
  }

  lemma StepOnSpawn(img: Image, m: Machine, s: SysCall)
    requires Loadable(img) && Agree(m) && Fits(s) && s.Spawn?
    ensures
      var how := ExecOutcome(img, ProgramName(s.command), Total(m), s.stack);
      (how.Launched? ==> m.active < MAX_PROGRAMS - 1) &&
      StepOn(img, m, s) == Execute(m, s.t, m.esp0 - s.depth, ArgField(s.command, m.active), how)
  {
    hide Execute, ExecOutcome, ArgField;
    LowerIsPossible(img, m, s);
  }

  lemma StepOnOther(img: Image, m: Machine, s: SysCall)
    requires Loadable(img) && Agree(m) && Fits(s) && !s.Spawn?
    ensures 0 <= m.active < MAX_PROGRAMS && OnStackOf(m.esp0 - s.depth, m.active)
    ensures s.Quit? ==>
      var r := Halt(m, s.t, m.active, m.esp0 - s.depth);
      StepOn(img, m, s) == if ResumesInside(m, Exit(s.t, s.depth)) then RunOnHalt(r, s.t) else r
    ensures s.OpenName? ==> StepOn(img, m, s) == WithFiles(m, OpenCall(img, s.fname))
    ensures s.ReadBytes? ==>
      StepOn(img, m, s) == WithFiles(m, Read(s.fd, ReadGives(img, m.pcbs[m.active], s.fd, s.nbytes, s.device)))
    ensures s.CloseSlot? ==> StepOn(img, m, s) == WithFiles(m, Close(s.fd))
    ensures s.Args? ==> StepOn(img, m, s) == m
  {
    hide Halt, WithFiles, ReadGives, OpenCall, ResumesInside, RunOnHalt;
    LowerIsPossible(img, m, s);
  }

  ghost function RunOn(img: Image, m: Machine, ss: seq<SysCall>): (r: Machine)
    requires Loadable(img) && m.Valid() && AllFit(ss)
    ensures r.Valid()
    decreases |ss|
  {
    if ss == [] then m
    else
      var n := |ss| - 1;
      assert ss[n] in ss && forall s :: s in ss[..n] ==> s in ss;
      StepOn(img, RunOn(img, m, ss[..n]), ss[n])
  }

  /** An execute below the limit of a name whose file passes the probe and cannot be read to
      its end, or a halt that resumes inside an earlier halt. */
  ghost predicate BreaksOn(img: Image, m: Machine, s: SysCall)
    requires Loadable(img) && m.Valid() && Fits(s)
  {
    || (s.Spawn? && Total(m) < MAX_PROGRAMS && LoadCanFail(img, ProgramName(s.command), s.stack))
    || (s.Quit? && ResumesInside(m, Exit(s.t, s.depth)))
  }

  /** A system call keeps the agreement exactly when it is not one of those. */
  lemma StepOnAgrees(img: Image, m: Machine, s: SysCall)
    requires Loadable(img) && Agree(m) && Fits(s)
    ensures Agree(StepOn(img, m, s)) <==> !BreaksOn(img, m, s)
    ensures Breaks(m, Lower(img, m, s)) <==> BreaksOn(img, m, s)
  {
    hide LoadCanFail, Agree;
    LowerIsPossible(img, m, s);
    StepAgrees(m, Lower(img, m, s));
  }

  lemma FitPrefix(ss: seq<SysCall>, n: nat)
    requires AllFit(ss) && n <= |ss|
    ensures AllFit(ss[..n]) && (n < |ss| ==> Fits(ss[n]))
  {
    assert forall s :: s in ss[..n] ==> s in ss;
    assert n < |ss| ==> ss[n] in ss;
  }

  /** Call `i` of the run breaks the agreement. */
  ghost predicate BreaksAt(img: Image, m: Machine, ss: seq<SysCall>, i: nat)
    requires Loadable(img) && m.Valid() && AllFit(ss) && i < |ss|
  {
    FitPrefix(ss, i);
    BreaksOn(img, RunOn(img, m, ss[..i]), ss[i])
  }

  /** A run on any image and with any terminals in front ends in agreement exactly when no
      call of it breaks it. */
  lemma {:induction false} RunAgreesExactly(img: Image, m: Machine, ss: seq<SysCall>)
    requires Loadable(img) && m.Valid() && Agree(m) && AllFit(ss)
    ensures Agree(RunOn(img, m, ss)) <==> forall i :: 0 <= i < |ss| ==> !BreaksAt(img, m, ss, i)
    decreases |ss|
  {
    hide Agree, BreaksOn, Fits, Loadable, StepOn;
    if ss != [] {
      var n := |ss| - 1;
      FitPrefix(ss, n);
      RunAgreesExactly(img, m, ss[..n]);
      forall i | 0 <= i < n
        ensures BreaksAt(img, m, ss[..n], i) <==> BreaksAt(img, m, ss, i)
      {
        assert ss[..n][..i] == ss[..i];
      }
      var before := RunOn(img, m, ss[..n]);
      AgreedBefore(img, before, ss[n]);
      if Agree(before) {
        StepOnAgrees(img, before, ss[n]);
        assert BreaksAt(img, m, ss, n) <==> BreaksOn(img, before, ss[n]);
      } else {
        var i :| 0 <= i < n && BreaksAt(img, m, ss[..n], i);
        assert BreaksAt(img, m, ss, i);
      }
    }
  }

  /** No command names a file whose load can fail. */
  ghost predicate Safe(img: Image)
    requires Loadable(img)
  {
    forall command, stack :: IsCommand(command) && |stack| == 4 ==> !LoadCanFail(img, ProgramName(command), stack)
  }

  // ----- the terminals that are in front -----

  /** execute and halt are called with terminals of `ts` in front only. */
  ghost predicate OnlyOn(ss: seq<SysCall>, ts: set<int>) {
    forall s :: s in ss && (s.Spawn? || s.Quit?) ==> s.t in ts
  }

  lemma SafeStep(img: Image, m: Machine, t: int, restarted: bool, s: SysCall) returns (restarted': bool)
    requires Loadable(img) && Safe(img) && Stacked(m, t, restarted) && Fits(s)
    requires s.Spawn? || s.Quit? ==> s.t == t
    ensures Stacked(StepOn(img, m, s), t, restarted')
  {
    hide LoadCanFail;
    LowerIsPossible(img, m, s);
    var c := Lower(img, m, s);
    StackedStep(m, t, restarted, c);
    restarted' := restarted || (c.Exit? && m.active == 0);
  }

  lemma {:induction false} SafeRunStacked(img: Image, m: Machine, t: int, restarted: bool, ss: seq<SysCall>)
    returns (restarted': bool)
    requires Loadable(img) && Safe(img) && m.Valid() && Stacked(m, t, restarted) && AllFit(ss) && OnlyOn(ss, {t})
    ensures Stacked(RunOn(img, m, ss), t, restarted')
    decreases |ss|
  {
    hide Stacked, StepOn, Safe, Fits, Loadable;
    restarted' := restarted;
    if ss != [] {
      var n := |ss| - 1;
      assert ss[n] in ss && forall s :: s in ss[..n] ==> s in ss;
      restarted' := SafeRunStacked(img, m, t, restarted, ss[..n]);
      restarted' := SafeStep(img, RunOn(img, m, ss[..n]), t, restarted', ss[n]);
    }
  }

  lemma FirstShellStacked(m: Machine, t: int, esp: int)
    requires PowerOn(m) && 0 <= t < TERMS
    ensures Stacked(FirstShell(m, t, esp), t, false)
  {
    FirstShellAgrees(m, t, esp);
  }

  /** On a safe image with one terminal in front every run after boot agrees. */
  lemma SafeRunOnOne(img: Image, m: Machine, t: int, esp: int, ss: seq<SysCall>)
    requires Loadable(img) && PowerOn(m) && 0 <= t < TERMS && AllFit(ss)
    ensures Safe(img) && OnlyOn(ss, {t}) ==> Agree(RunOn(img, FirstShell(m, t, esp), ss))
  {
    hide FirstShell, RunOn, Safe, Loadable;
    if Safe(img) && OnlyOn(ss, {t}) {
      FirstShellStacked(m, t, esp);
      var _ := SafeRunStacked(img, FirstShell(m, t, esp), t, false, ss);
    }
  }

  /** Every run of system calls after boot on this image agrees, with those terminals in
      front at the boot and afterwards. */
  ghost predicate AlwaysAgreesOn(img: Image, ts: set<int>)
    requires Loadable(img)
  {
    forall m: Machine, t, esp, ss :: PowerOn(m) && t in ts && 0 <= t < TERMS && AllFit(ss) && OnlyOn(ss, ts) ==>
      Agree(RunOn(img, FirstShell(m, t, esp), ss))
  }

  const POWER_ON := Machine(-1, 0, [0, 0, 0], [0, 0, 0],
                            seq(MAX_PROGRAMS, _ => Pcb(seq(FD_MAX, _ => CLOSED), 0, 0, [], 0, 0)), EIGHT_MB, -1)

  lemma UnsafeRunBreaks(img: Image, t: int, command: seq<Byte>, stack: seq<Byte>)
    requires Loadable(img) && 0 <= t < TERMS
    requires IsCommand(command) && |stack| == 4 && LoadCanFail(img, ProgramName(command), stack)
    ensures PowerOn(POWER_ON) && AllFit([Spawn(t, 0, command, stack)]) && OnlyOn([Spawn(t, 0, command, stack)], {t})
    ensures !Agree(RunOn(img, FirstShell(POWER_ON, t, 0), [Spawn(t, 0, command, stack)]))
  {
    hide LoadCanFail, StepOn;
    var s := Spawn(t, 0, command, stack);
    FirstShellAgrees(POWER_ON, t, 0);
    var m := FirstShell(POWER_ON, t, 0);
    StepOnAgrees(img, m, s);
    assert [s][..0] == [];
    assert RunOn(img, m, []) == m;
  }

  /** halt's command names the shell and has no argument. */
  lemma ShellCommand(active: int)
    ensures var command := SHELL + Repeat(NUL, KBD_BUF_SIZE);
      IsCommand(command) && ProgramName(command) == SHELL && ArgField(command, active) == Repeat(NUL, ARG_SIZE)
  {
    var command := SHELL + Repeat(NUL, KBD_BUF_SIZE);
    assert command[0..5] == SHELL[..5];
    WordAt(command, 0, SHELL[..5]);
    WordAt(command, 6, []);
  }

  /** A shell on terminal `a`, halted twice with `b` in front and once with `a`. */
  function Switching(a: int, b: int): seq<SysCall> {
    [Spawn(a, 0, SHELL + Repeat(NUL, KBD_BUF_SIZE), MAGIC)] + [Quit(b, 0)] + [Quit(b, 0)] + [Quit(a, 0)]
  }

  lemma RunOnExtend(img: Image, m: Machine, ss: seq<SysCall>, s: SysCall)
    requires Loadable(img) && m.Valid() && AllFit(ss) && Fits(s)
    ensures AllFit(ss + [s]) && RunOn(img, m, ss + [s]) == StepOn(img, RunOn(img, m, ss), s)
  {
    assert (ss + [s])[..|ss|] == ss;
  }

  /** A halt on an image is a halt of the machine. */
  lemma QuitIsExit(img: Image, m: Machine, t: int)
    requires Loadable(img) && Agree(m) && 0 <= t < TERMS && CanCall(m, Exit(t, 0))
    ensures StepOn(img, m, Quit(t, 0)) == Do(m, Exit(t, 0))
  {
  }

  lemma SpawnIsExec(img: Image, m: Machine, t: int)
    requires Loadable(img) && NamesProgram(img, SHELL) && Agree(m) && Total(m) == 1 && 0 <= t < TERMS
    requires CanCall(m, Exec(t, 0, Repeat(NUL, ARG_SIZE), Launched)) && ArgOk(Repeat(NUL, ARG_SIZE))
    ensures Fits(Spawn(t, 0, SHELL + Repeat(NUL, KBD_BUF_SIZE), MAGIC))
    ensures StepOn(img, m, Spawn(t, 0, SHELL + Repeat(NUL, KBD_BUF_SIZE), MAGIC)) ==
            Do(m, Exec(t, 0, Repeat(NUL, ARG_SIZE), Launched))
  {
    hide ExecOutcome, NamesProgram, Execute, StepOn, ArgField, ProgramName, LoadCanFail;
    ShellCommand(m.active);
    LaunchedExactly(img, SHELL, Total(m));
    assert ExecOutcome(img, SHELL, Total(m), MAGIC) == Launched;
    StepOnSpawn(img, m, Spawn(t, 0, SHELL + Repeat(NUL, KBD_BUF_SIZE), MAGIC));
  }

  /** On every image whose shell is a program, that run loses the agreement. */
  lemma SwitchingBreaks(img: Image, a: int, b: int)
    requires Loadable(img) && NamesProgram(img, SHELL) && 0 <= a < TERMS && 0 <= b < TERMS && a != b
    ensures PowerOn(POWER_ON) && AllFit(Switching(a, b)) && OnlyOn(Switching(a, b), {a, b})
    ensures !Agree(RunOn(img, FirstShell(POWER_ON, a, 0), Switching(a, b)))
  {
    hide NamesProgram, StepOn, Do, Agree, Loadable, CanCall;
    var arg := Repeat(NUL, ARG_SIZE);
    NoArgument(arg);
    ResumesOnOwnStack(POWER_ON, a, b, 0, arg);
    var m1 := FirstShell(POWER_ON, a, 0);
    var m2 := Do(m1, Exec(a, 0, arg, Launched));
    var m3 := Do(m2, Exit(b, 0));
    var m4 := Do(m3, Exit(b, 0));
    SpawnIsExec(img, m1, a);
    QuitIsExit(img, m2, b);
    QuitIsExit(img, m3, b);
    QuitIsExit(img, m4, a);
    var s1 := [Spawn(a, 0, SHELL + Repeat(NUL, KBD_BUF_SIZE), MAGIC)];
    assert RunOn(img, m1, []) == m1 && [] + s1 == s1;
    RunOnExtend(img, m1, [], s1[0]);
    RunOnExtend(img, m1, s1, Quit(b, 0));
    RunOnExtend(img, m1, s1 + [Quit(b, 0)], Quit(b, 0));
    RunOnExtend(img, m1, s1 + [Quit(b, 0)] + [Quit(b, 0)], Quit(a, 0));
  }

  /** On an image whose shell is a program, all runs of all system calls keep counters, page,
      stack and PCBs in agreement exactly when the image is safe and one terminal stays in
      front: with any two, some run on every image loses it. */
  lemma RunsAgreeExactly(img: Image, ts: set<int>)
    requires Loadable(img) && NamesProgram(img, SHELL)
    requires (exists t :: t in ts) && forall t :: t in ts ==> 0 <= t < TERMS
    ensures AlwaysAgreesOn(img, ts) <==> Safe(img) && forall a, b :: a in ts && b in ts ==> a == b
  {
    hide Agree, FirstShell, RunOn, LoadCanFail, NamesProgram, Loadable, Switching;
    if !Safe(img) {
      var t :| t in ts;
      var command, stack :| IsCommand(command) && |stack| == 4 && LoadCanFail(img, ProgramName(command), stack);
      UnsafeRunBreaks(img, t, command, stack);
    } else if a, b :| a in ts && b in ts && a != b {
      SwitchingBreaks(img, a, b);
    } else {
      forall m: Machine, t, esp, ss | PowerOn(m) && t in ts && 0 <= t < TERMS && AllFit(ss) && OnlyOn(ss, ts)
        ensures Agree(RunOn(img, FirstShell(m, t, esp), ss))
      {
        assert OnlyOn(ss, {t});
        SafeRunOnOne(img, m, t, esp, ss);
      }
    }
  }

  /** There is an image with a good shell on which a run with one terminal in front goes
      wrong: boot, then "bad". */
  lemma BrokenRun(t: int)
    requires 0 <= t < TERMS
    ensures Loadable(BrokenImage()) && NamesProgram(BrokenImage(), SHELL) && !AlwaysAgreesOn(BrokenImage(), {t})
  {
    hide BrokenImage, Loadable, NamesProgram, AlwaysAgreesOn;
    BrokenLoad(MAGIC, 0);
    var command := BAD + Repeat(NUL, KBD_BUF_SIZE);
    assert command[0..3] == BAD[..3];
    WordAt(command, 0, BAD[..3]);
    assert ProgramName(command) == BAD;
    assert t in {t};
    RunsAgreeExactly(BrokenImage(), {t});
  }

  /** An image is safe if every named file can be read to its end. */
  lemma WellFormedIsSafe(img: Image)
    requires Loadable(img) && forall d :: d in img.dentries ==> WellFormed(img, img.inodes[d.inode])
    ensures Safe(img)
  {
  }

  lemma RunsExtend(t: int, ms: seq<Machine>, cs: seq<Call>, c: Call, r: Machine)
    requires Runs(t, ms, cs) && SoundUpTo(ms, cs, |cs|) && !Breaks(ms[|cs|], c)
    requires r.Valid() && StepTo(ms[|cs|], c, r)
    ensures Runs(t, ms + [r], cs + [c]) && SoundUpTo(ms + [r], cs + [c], |cs + [c]|)
  {
    hide StepTo, FirstShell, PowerOn, Breaks;
    var ms', cs' := ms + [r], cs + [c];
    forall i | 0 <= i < |cs'|
      ensures StepTo(ms'[i], cs'[i], ms'[i + 1]) && !Breaks(ms'[i], cs'[i])
    {
      if i < |cs| {
        assert StepTo(ms[i], cs[i], ms[i + 1]) && !Breaks(ms[i], cs[i]);
      }
    }
  }

  lemma BrokenStays(img: Image, m: Machine, s: SysCall)
    requires Loadable(img) && m.Valid() && Fits(s) && !Agree(m)
    ensures StepOn(img, m, s) == m
  {
  }

  lemma AgreedBefore(img: Image, m: Machine, s: SysCall)
    requires Loadable(img) && m.Valid() && Fits(s)
    ensures Agree(StepOn(img, m, s)) ==> Agree(m)
  {
  }

  /** The states of a run that ends in agreement and the calls between them are a sound run,
      so that all that is proved of those holds of it. */
  lemma {:induction false} RunOnIsRun(img: Image, m: Machine, t: int, esp: int, ss: seq<SysCall>)
    returns (ms: seq<Machine>, cs: seq<Call>)
    requires Loadable(img) && PowerOn(m) && 0 <= t < TERMS && AllFit(ss)
    requires Agree(RunOn(img, FirstShell(m, t, esp), ss))
    ensures Runs(t, ms, cs) && SoundUpTo(ms, cs, |cs|) && |cs| == |ss|
    ensures ms[|ss|] == RunOn(img, FirstShell(m, t, esp), ss)
    ensures forall i :: 0 <= i < |ss| ==> Agree(ms[i]) && Fits(ss[i]) && cs[i] == Lower(img, ms[i], ss[i])
    decreases |ss|
  {
    hide Agree, FirstShell, Do, Fits, CanCall, Possible, Lower, Breaks, BreaksOn;
    var first := FirstShell(m, t, esp);
    if ss == [] {
      ms, cs := [first], [];
    } else {
      var n := |ss| - 1;
      FitPrefix(ss, n);
      var before := RunOn(img, first, ss[..n]);
      AgreedBefore(img, before, ss[n]);
      ms, cs := RunOnIsRun(img, m, t, esp, ss[..n]);
      LowerIsPossible(img, before, ss[n]);
      StepOnAgrees(img, before, ss[n]);
      var c := Lower(img, before, ss[n]);
      assert RunOn(img, first, ss) == StepOn(img, before, ss[n]) == Do(before, c);
      RunsExtend(t, ms, cs, c, RunOn(img, first, ss));
      ms, cs := ms + [RunOn(img, first, ss)], cs + [c];
    }
  }
}
