/** The system calls of syscalls.c over a mounted volume, the page tables and the program
    frames. */
module SystemCalls {
  import opened Bytes
  import opened Limits
  import opened Options
  import opened Memory
  import opened FileSystem
  import opened FileReads
  import opened Directory
  import opened Volume
  import opened Descriptors
  import opened Processes
  import opened FrameZero
  import opened Programs
  import opened Replies
  import Paging

  const FOUR_MB := Paging.FOUR_MB

  method ParseWord(command: seq<Byte>, from: nat) returns (w: seq<Byte>)
    requires |command| >= KBD_BUF_SIZE && from <= KBD_BUF_SIZE
    ensures w == Word(command, from)
  {
    w := [];
    var i := from;
    while i < KBD_BUF_SIZE
      invariant from <= i <= KBD_BUF_SIZE && w + Word(command, i) == Word(command, from)
    {
      if command[i] == NEWLINE || command[i] == SPACE || command[i] == NUL {
        break;
      }
      assert w + ([command[i]] + Word(command, i + 1)) == (w + [command[i]]) + Word(command, i + 1);
      w := w + [command[i]];
      i := i + 1;
    }
    assert w + [] == w;
  }

  // ----- the two reads of execute -----

  /** A read from the start of a file that is not longer than the file. */
  lemma ReadFromStart(img: Image, ino: Inode, length: nat, n: nat)
    requires |img.data| == FOUR_KB * img.dataCount && InodeShape(ino) && 0 < length < UINT32 / 2
    requires n == Min(length, ino.length)
    ensures Window(ino.length, 0, length) == n
    ensures ReadResult(img, ino, 0, length) == if BlocksOk(img, ino, 0, n / FOUR_KB) then n else -1
    ensures Gathered(Contents(img, ino), 0, n, false) == Contents(img, ino)[..n]
  {
    assert length % UINT32 == length;
    CleanGathers(Contents(img, ino), 0, n);
  }

  /** The probe succeeds exactly when the first block is good, and leaves the start of the
      file over the stack bytes. */
  lemma ProbeReads(img: Image, ino: Inode, was: seq<Byte>, now: seq<Byte>, r: int)
    requires |img.data| == FOUR_KB * img.dataCount && InodeShape(ino) && |was| == 4
    requires r == ReadResult(img, ino, 0, 4) && Window(ino.length, 0, 4) <= ino.length
    requires
      var n := Window(ino.length, 0, 4);
      r >= 0 ==> r == n && Fetched(now, was, 0, Gathered(Contents(img, ino), 0, n, false), n)
    ensures r != -1 <==> BlockOk(img, ino, 0)
    ensures r != -1 ==> now == Probe(img, ino, was)
  {
    var n := Min(4, ino.length);
    ReadFromStart(img, ino, 4, n);
    if r != -1 {
      var file := Contents(img, ino)[..n];
      assert file[..n] == file;
      assert now == file + was[n..];
    }
  }

  /** Reading a file that fits its page asks for all of it, and so succeeds exactly when the
      file can be read to its end. */
  lemma WholeFileRead(img: Image, ino: Inode)
    requires |img.data| == FOUR_KB * img.dataCount && InodeShape(ino) && ino.length <= FOUR_MB - LOAD_AT
    ensures Window(ino.length, 0, FOUR_MB) == ino.length
    ensures ReadResult(img, ino, 0, FOUR_MB) != -1 <==> WellFormed(img, ino)
    ensures Gathered(Contents(img, ino), 0, ino.length, false) == Contents(img, ino)
  {
    ReadFromStart(img, ino, FOUR_MB, ino.length);
    assert Contents(img, ino)[..ino.length] == Contents(img, ino);
  }

  /** The page of process `p` holds the file at its load address. The rest of the page is as
      before, but for process 0, whose page is the kernel's own. */
  ghost predicate LoadedInto(p: int, file: seq<Byte>, was: seq<Byte>, now: seq<Byte>) {
    && LOAD_AT + |file| <= |was| == |now| && now[LOAD_AT..LOAD_AT + |file|] == file
    && (p > 0 ==> now == Patch(was, LOAD_AT, file))
  }

  lemma PatchLoads(p: int, file: seq<Byte>, was: seq<Byte>, now: seq<Byte>)
    requires LOAD_AT + |file| <= |was| && now == Patch(was, LOAD_AT, file)
    ensures LoadedInto(p, file, was, now)
  {
  }

  /** The bytes that a read leaves at the start of the buffer: those before the first bad
      block, all of them when it succeeds. */
  ghost function Deposited(img: Image, ino: Inode, offset: int, nbytes: nat): seq<Byte>
    requires |img.data| == FOUR_KB * img.dataCount && InodeShape(ino) && nbytes < UINT32
  {
    var at := offset % UINT32;
    if at > ino.length || nbytes == 0 then []
    else
      var n := Window(ino.length, at, nbytes);
      LeftFits(ino.length, at, nbytes);
      Gathered(Contents(img, ino), at, n, false)[..Copied(img, ino, at, n)]
  }

  lemma DepositedIsPiece(img: Image, ino: Inode, offset: int, nbytes: nat)
    requires |img.data| == FOUR_KB * img.dataCount && InodeShape(ino) && nbytes < UINT32
    requires FileResult(img, ino, offset, nbytes) >= 0
    ensures Deposited(img, ino, offset, nbytes) == Piece(img, ino, offset, nbytes)
    ensures |Piece(img, ino, offset, nbytes)| == FileResult(img, ino, offset, nbytes)
  {
    PieceLength(img, ino, offset, nbytes);
    var at := offset % UINT32;
    LeftFits(ino.length, at, nbytes);
    var n := Window(ino.length, at, nbytes);
    assert Copied(img, ino, at, n) == n;
    var all := Gathered(Contents(img, ino), at, n, false);
    assert all[..n] == all;
  }

  /** A read writes no more than it is asked for. */
  lemma WindowAtMost(size: nat, offset: nat, nbytes: nat)
    requires size < UINT32 / 2 && nbytes < UINT32 / 2
    ensures Window(size, offset, nbytes) <= nbytes
  {
    if offset <= size {
      assert (nbytes + offset) % UINT32 == nbytes + offset;
    }
  }

  /** A halt that starts no shell makes the process below active, and resumes inside an earlier
      halt exactly when it resumes off that one's stack. */
  lemma HaltedBelow(m: Machine, t: int, esp: int)
    requires Agree(m) && 0 <= t < TERMS
    ensures
      var r := Halt(m, t, m.active, esp);
      forall depth :: ResumesInside(m, Exit(t, depth)) <==>
        !Restarts(m, t, m.active) && !OnStackOf(m.pcbs[m.active].esp, r.active)
  {
  }

  /** The bytes of a read that its result covers. */
  lemma CoveredPiece(img: Image, ino: Inode, offset: int, nbytes: nat)
    requires |img.data| == FOUR_KB * img.dataCount && InodeShape(ino) && nbytes < UINT32
    ensures FileResult(img, ino, offset, nbytes) > 0 ==>
      && Deposited(img, ino, offset, nbytes) == Piece(img, ino, offset, nbytes)
      && |Piece(img, ino, offset, nbytes)| == FileResult(img, ino, offset, nbytes)
    ensures FileResult(img, ino, offset, nbytes) <= 0 ==> Piece(img, ino, offset, nbytes) == []
  {
    PieceLength(img, ino, offset, nbytes);
    if FileResult(img, ino, offset, nbytes) > 0 {
      DepositedIsPiece(img, ino, offset, nbytes);
    }
  }

  /** An argument in the cleared buffer is the C string at its start. */
  lemma ArgumentInBuffer(was: seq<Byte>, arg: seq<Byte>)
    requires |arg| < ARG_SIZE <= |was| && NUL !in arg
    ensures CStr(Patch(was, 0, arg + Repeat(NUL, ARG_SIZE - |arg|))) == arg
  {
    var now := Patch(was, 0, arg + Repeat(NUL, ARG_SIZE - |arg|));
    assert forall k :: 0 <= k < |arg| ==> now[k] == arg[k] && arg[k] in arg;
    assert now[|arg|] == NUL;
    StrLenUnique(now, |arg|);
    assert now[..|arg|] == arg;
  }

  class Kernel {
    var active: int
    var counter: int
    var numProgram: seq<int>
    var termPcb: seq<int>
    var pcbs: seq<Pcb>
    var esp0: int
    ghost var view: Paging.View
    const fs: FileVolume
    const paging: Paging.PageTables
    /** The 4 MB of memory behind the program page, process by process. Of frame 0, which is
        the kernel's memory too, only the bytes of the loaded program are described. */
    const frames: seq<array<Byte>>
    /** execute's four-byte buffer, uninitialised. */
    const probe: array<Byte>
    /** Where the boot loader put the file system image, and where the kernel image ends. */
    const diskStart: int
    const diskEnd: int
    const imageEnd: int

    ghost function Value(): Machine
      reads this
    {
      Machine(active, counter, numProgram, termPcb, pcbs, esp0,
              if view.program.Some? then view.program.value else -1)
    }

    ghost predicate Apart()
    {
      && |frames| == MAX_PROGRAMS && probe.Length == 4
      && (forall p :: 0 <= p < MAX_PROGRAMS ==> frames[p].Length == FOUR_MB)
      && (forall p, q :: 0 <= p < q < MAX_PROGRAMS ==> frames[p] != frames[q])
      && fs.disk !in frames && fs.current !in frames && probe !in frames && probe != fs.disk && probe != fs.current
      && Paging.KERNEL <= diskStart && diskEnd <= Paging.KERNEL + FOUR_MB && imageEnd <= Paging.KERNEL + FOUR_MB
    }

    ghost predicate Valid()
      reads this, fs, fs.disk, fs.current, paging.directory, paging.table, paging.vidTable
    {
      && Value().Valid() && Apart()
      && (forall p :: 0 <= p < MAX_PROGRAMS ==> Refers(pcbs[p], |fs.inodes|))
      && fs.Valid() && Loadable(fs.Value()) && paging.Valid() && Paging.Builds(paging.Value(), view)
    }

    /** Zeroed globals over an initialised volume and page tables. */
    constructor (fs: FileVolume, paging: Paging.PageTables, frames: seq<array<Byte>>, probe: array<Byte>,
                 diskStart: int, diskEnd: int, imageEnd: int)
      requires fs.Valid() && Loadable(fs.Value()) && paging.Valid()
      requires Paging.Builds(paging.Value(), Paging.View(None, false))
      requires |frames| == MAX_PROGRAMS && probe.Length == 4
      requires forall p :: 0 <= p < MAX_PROGRAMS ==> frames[p].Length == FOUR_MB
      requires forall p, q :: 0 <= p < q < MAX_PROGRAMS ==> frames[p] != frames[q]
      requires fs.disk !in frames && fs.current !in frames && probe !in frames
      requires probe != fs.disk && probe != fs.current
      requires Paging.KERNEL <= diskStart && diskEnd <= Paging.KERNEL + FOUR_MB
      requires imageEnd <= Paging.KERNEL + FOUR_MB
      ensures Valid() && PowerOn(Value()) && this.fs == fs && this.paging == paging
    {
      this.fs, this.paging, this.frames, this.probe := fs, paging, frames, probe;
      this.diskStart, this.diskEnd, this.imageEnd := diskStart, diskEnd, imageEnd;
      active, counter, esp0 := -1, 0, EIGHT_MB;
      numProgram, termPcb := [0, 0, 0], [0, 0, 0];
      pcbs := seq(MAX_PROGRAMS, _ => Pcb(seq(FD_MAX, _ => CLOSED), 0, 0, [], 0, 0));
      view := Paging.View(None, false);
    }

    /** Loading the file of this name for process `p` overwrites no PCB, no kernel stack, and
        nothing of the file system image or the kernel image. */
    ghost predicate Spared(p: int, fname: seq<Byte>)
      requires Loadable(fs.Value())
      reads fs.disk
    {
      var i := Lookup(fs.Value(), fname);
      i.Some? && p >= 0 ==> forall a: int :: InLoad(a, p, FileAt(fs.Value(), i.value).length) ==>
        !InSomeBlock(a) && !(diskStart <= a < diskEnd) && !(Paging.KERNEL <= a < imageEnd)
    }

    /** What process 0 needs for that. */
    ghost predicate ZeroFits(fname: seq<Byte>)
      requires Loadable(fs.Value())
      reads fs.disk
    {
      var i := Lookup(fs.Value(), fname);
      i.Some? ==>
        var length := FileAt(fs.Value(), i.value).length;
        Spares(length, diskStart, diskEnd) && Spares(length, Paging.KERNEL, imageEnd)
    }

    /** A load spares the kernel exactly when it is not for process 0 or fits there. */
    lemma SparedExactly(p: nat, fname: seq<Byte>)
      requires Apart() && Loadable(fs.Value())
      ensures Spared(p, fname) <==> p > 0 || ZeroFits(fname)
    {
      var i := Lookup(fs.Value(), fname);
      if i.Some? {
        var d, length := fs.dentries[i.value], FileAt(fs.Value(), i.value).length;
        assert d in fs.Value().dentries;
        LoadSparesRange(p, length, diskStart, diskEnd);
        LoadSparesRange(p, length, Paging.KERNEL, imageEnd);
      }
    }

    /** The magic-byte test on the first four bytes of a file. */
    method HasMagic(d: Dentry) returns (ok: bool)
      requires Valid() && d in fs.dentries
      modifies probe
      ensures Valid()
      ensures ok <==> ProbePasses(fs.Value(), fs.inodes[d.inode], old(probe[..]))
    {
      ghost var img, ino, was := fs.Value(), fs.inodes[d.inode], probe[..];
      assert ino in img.inodes;
      var r := fs.ReadData(d.inode, 0, probe, 0, 4);
      ProbeReads(img, ino, was, probe[..], r);
      ok := r != -1 && probe[0] == 0x7F && probe[1] == 0x45 && probe[2] == 0x4C && probe[3] == 0x46;
      assert probe[..] == [probe[0], probe[1], probe[2], probe[3]];
    }

    /** execute's checks: the entry to run, if the name finds a file with the magic bytes. */
    method FindProgram(fname: seq<Byte>) returns (d: Option<Dentry>)
      requires Valid() && NUL in fname
      modifies probe
      ensures Valid()
      ensures
        var i := Lookup(fs.Value(), fname);
        d == if i.Some? && ProbePasses(fs.Value(), FileAt(fs.Value(), i.value), old(probe[..]))
             then Some(fs.dentries[i.value]) else None
    {
      d := fs.ReadDentryByName(fname);
      if d.Some? {
        var ok := HasMagic(d.value);
        if !ok {
          d := None;
        }
      }
    }

    /** Copying the file into the program page of process `p`. */
    method LoadProgram(d: Dentry, p: nat) returns (ok: bool)
      requires Valid() && d in fs.dentries && p < MAX_PROGRAMS
      modifies frames[p]
      ensures Valid()
      ensures ok <==> WellFormed(fs.Value(), fs.inodes[d.inode])
      ensures ok ==>
        LoadedInto(p, Contents(fs.Value(), fs.inodes[d.inode]), old(frames[p][..]), frames[p][..])
    {
      ghost var img, ino, was := fs.Value(), fs.inodes[d.inode], frames[p][..];
      assert ino in img.inodes;
      WholeFileRead(img, ino);
      var r := fs.ReadData(d.inode, 0, frames[p], LOAD_AT, FOUR_MB);
      if r != -1 {
        ghost var file := Contents(img, ino);
        assert file[..|file|] == file;
        PatchLoads(p, file, was, frames[p][..]);
      }
      return r != -1;
    }

    /** The PCB of a new process, field by field. */
    method InitPcb(p: nat, t: int, arg: seq<Byte>, esp: int)
      requires p < |pcbs| && 0 <= t < |termPcb| && |pcbs[p].files| == FD_MAX
      modifies this`pcbs, this`termPcb
      ensures pcbs == old(pcbs)[p := NewPcb(old(pcbs)[p], p, old(termPcb)[t], arg, esp)]
      ensures termPcb == old(termPcb)[t := PcbAddr(p)]
    {
      var pcb := pcbs[p].(pid := p, parent := termPcb[t], arg := arg, esp := esp);
      termPcb := termPcb[t := PcbAddr(p)];
      var files := pcb.files[0 := FileDesc(StdinTable, 0, 0, true)][1 := FileDesc(StdoutTable, 0, 0, true)];
      for i := FD_START to FD_MAX
        invariant |files| == FD_MAX && files[..2] == FRESH_FILES[..2]
        invariant forall k :: FD_START <= k < i ==> files[k] == CLOSED
      {
        files := files[i := CLOSED];
      }
      assert files == FRESH_FILES;
      pcbs := pcbs[p := pcb.(files := files)];
    }

    /** The counters move and the page of the next process is mapped. */
    method EnterProcess(t: int)
      requires Valid() && 0 <= t < TERMS && -1 <= active < MAX_PROGRAMS - 1
      modifies this`active, this`counter, this`numProgram, this`view, paging.directory
      ensures Valid() && Value() == Enter(old(Value()), t)
    {
      active := active + 1;
      counter := counter + 1;
      numProgram := numProgram[t := numProgram[t] + 1];
      paging.SetUpProgramPaging(active, view);
      view := view.(program := Some(active));
    }

    /** PCB and kernel stack of the process that has just been loaded. */
    method StartProcess(t: int, arg: seq<Byte>, esp: int, ghost before: Machine)
      requires Valid() && before.Valid() && 0 <= t < TERMS && 0 <= active < MAX_PROGRAMS
      requires Value() == Enter(before, t)
      modifies this`pcbs, this`termPcb, this`esp0
      ensures Valid() && Value() == Execute(before, t, esp, arg, Launched)
    {
      InitPcb(active, t, arg, esp);
      esp0 := KSTACK_BASE - KSTACK_SIZE * active - 4;
    }

    /** The two words of the command, the second only when there already is a process. */
    method ParseCommand(command: seq<Byte>) returns (fname: seq<Byte>, arg: seq<Byte>)
      requires |command| >= KBD_BUF_SIZE && |Word(command, 0)| < KBD_BUF_SIZE
      ensures fname == ProgramName(command) && arg == ArgField(command, active)
    {
      var name := ParseWord(command, 0);
      fname := name + [NUL];
      var args := [];
      if active != -1 {
        args := ParseWord(command, |name| + 1);
      }
      arg := args + Repeat(NUL, ARG_SIZE - |args|);
    }

    /** execute once its checks have passed. */
    method RunProgram(d: Dentry, t: int, arg: seq<Byte>, esp: int) returns (how: Outcome)
      requires Valid() && d in fs.dentries && 0 <= t < TERMS && -1 <= active < MAX_PROGRAMS - 1
      modifies this, paging.directory, frames[active + 1]
      ensures Valid() && Value() == Execute(old(Value()), t, esp, arg, how)
      ensures how == if WellFormed(fs.Value(), fs.inodes[d.inode]) then Launched else LoadFailed
      ensures how.Launched? ==>
        LoadedInto(active, Contents(fs.Value(), fs.inodes[d.inode]), old(frames[active + 1][..]), frames[active][..])
    {
      EnterProcess(t);
      var ok := LoadProgram(d, active);
      if !ok {
        return LoadFailed;
      }
      StartProcess(t, arg, esp, old(Value()));
      return Launched;
    }

    /** execute of a name, below the limit on programs. */
    method RunNamed(fname: seq<Byte>, t: int, arg: seq<Byte>, esp: int) returns (how: Outcome)
      requires Valid() && NUL in fname && 0 <= t < TERMS && -1 <= active < MAX_PROGRAMS - 1
      modifies this, paging.directory, probe, frames[active + 1]
      ensures Valid() && Value() == Execute(old(Value()), t, esp, arg, how)
      ensures how == ExecOutcome(fs.Value(), fname, 0, old(probe[..]))
      ensures how.Launched? ==>
        var file := Contents(fs.Value(), FileAt(fs.Value(), Lookup(fs.Value(), fname).value));
        LoadedInto(active, file, old(frames[active + 1][..]), frames[active][..])
    {
      var d := FindProgram(fname);
      if d.None? {
        return Refused;
      }
      how := RunProgram(d.value, t, arg, esp);
    }

    /** execute up to the jump into the new program, with terminal `t` in front and stack
        pointer `esp`. */
    method Exec(command: seq<Byte>, t: int, esp: int) returns (how: Outcome)
      requires Valid() && 0 <= t < TERMS && -1 <= active && Total(Value()) == active + 1 && IsCommand(command)
      requires active == -1 ==> ZeroFits(ProgramName(command))
      modifies this, paging.directory, probe, frames
      ensures Valid() && (how.Launched? ==> old(active) < MAX_PROGRAMS - 1)
      ensures how == ExecOutcome(fs.Value(), ProgramName(command), old(Total(Value())), old(probe[..]))
      ensures Value() == Execute(old(Value()), t, esp, ArgField(command, old(active)), how)
      ensures how.Launched? ==>
        var file := Contents(fs.Value(), FileAt(fs.Value(), Lookup(fs.Value(), ProgramName(command)).value));
        LoadedInto(active, file, old(frames[active + 1][..]), frames[active][..])
      ensures Spared(old(active) + 1, ProgramName(command))
      ensures forall p :: 1 <= p < MAX_PROGRAMS && p != old(active) + 1 ==> frames[p][..] == old(frames[p][..])
    {
      hide ProbePasses, LoadedInto, Contents, FileAt, Lookup, Spared, ZeroFits, ArgField;
      SparedExactly(active + 1, ProgramName(command));
      if numProgram[0] + numProgram[1] + numProgram[2] >= MAX_PROGRAMS {
        return Refused;
      }
      var fname, arg := ParseCommand(command);
      how := RunNamed(fname, t, arg, esp);
    }

    /** In a kernel whose counters agree, the user's program page is the frame of the active
        process, whichever system calls led there. */
    lemma ProgramPageIsActive(va: nat)
      requires Valid() && Agree(Value())
      requires Paging.PROGRAM_IDX * FOUR_MB <= va < (Paging.PROGRAM_IDX + 1) * FOUR_MB
      ensures Paging.Walk(paging.Value(), va) ==
              Some(Paging.Mapping(Paging.Frame(active) + (va - Paging.PROGRAM_IDX * FOUR_MB), true, true))
    {
      Paging.WalkIsIntended(paging.Value(), view, va);
    }

    /** get_pcb, as an index into the PCB area. */
    method GetPcb(esp: int, ghost owner: int) returns (p: int)
      requires OnStackOf(esp, owner)
      ensures p == owner
    {
      MaskFindsPcb(esp, owner);
      var address := esp - esp % KSTACK_SIZE;
      p := (KSTACK_BASE - address) / KSTACK_SIZE - 1;
      assert address == KSTACK_BASE - (owner + 1) * KSTACK_SIZE;
    }

    method CloseFile(fd: int, esp: int, ghost owner: int) returns (r: int)
      requires Valid() && 0 <= owner < MAX_PROGRAMS && OnStackOf(esp, owner)
      modifies this`pcbs
      ensures Valid()
      ensures pcbs == old(pcbs)[owner := Closed(old(pcbs)[owner], fd).0] && r == Closed(old(pcbs)[owner], fd).1
    {
      if fd < FD_START || fd > FD_MAX - 1 {
        return -1;
      }
      var p := GetPcb(esp, owner);
      if !pcbs[p].files[fd].inUse {
        return -1;
      }
      var pcb := pcbs[p];
      pcbs := pcbs[p := pcb.(files := pcb.files[fd := CLOSED], programCounter := pcb.programCounter - 1)];
      return 0;
    }

    /** open: -1 for a name that finds nothing or a full descriptor array. */
    method OpenFile(fname: seq<Byte>, esp: int, ghost owner: int) returns (fd: int)
      requires Valid() && 0 <= owner < MAX_PROGRAMS && OnStackOf(esp, owner) && NUL in fname
      modifies this`pcbs
      ensures Valid()
      ensures pcbs == old(pcbs)[owner := FileStep(old(pcbs)[owner], OpenCall(fs.Value(), fname)).0]
      ensures fd == FileStep(old(pcbs)[owner], OpenCall(fs.Value(), fname)).1
    {
      if StrLen(fname) == 0 {
        return -1;
      }
      var d := fs.ReadDentryByName(fname);
      if d.None? {
        return -1;
      }
      fd := OpenEntry(d.value, esp, owner);
    }

    /** open once the entry is known: the lowest free slot, filled according to the type. */
    method OpenEntry(d: Dentry, esp: int, ghost owner: int) returns (fd: int)
      requires Valid() && d in fs.dentries && 0 <= owner < MAX_PROGRAMS && OnStackOf(esp, owner)
      modifies this`pcbs
      ensures Valid()
      ensures pcbs == old(pcbs)[owner := Opened(old(pcbs)[owner], d.filetype, d.inode).0]
      ensures fd == Opened(old(pcbs)[owner], d.filetype, d.inode).1
    {
      var p := GetPcb(esp, owner);
      var pcb := pcbs[p];
      fd := 0;
      for i := FD_START to FD_MAX
        invariant fd == 0 && FirstFree(pcb.files, FD_START) == FirstFree(pcb.files, i)
      {
        if !pcb.files[i].inUse {
          fd := i;
          break;
        }
      }
      if fd == 0 {
        return -1;
      }
      pcb := pcb.(programCounter := pcb.programCounter + 1);
      match d.filetype {
        case 0 => pcb := pcb.(files := pcb.files[fd := FileDesc(RtcTable, 0, 0, true)]);
        case 1 => pcb := pcb.(files := pcb.files[fd := FileDesc(DirTable, 0, 0, true)]);
        case 2 => pcb := pcb.(files := pcb.files[fd := FileDesc(FileTable, d.inode, 0, true)]);
        case _ =>
      }
      pcbs := pcbs[p := pcb];
    }

    /** The read_data call of fs_file_read. */
    method ReadAt(inode: nat, offset: int, buf: array<Byte>, nbytes: nat) returns (r: int)
      requires Valid() && inode < |fs.inodes| && InodeShape(fs.inodes[inode]) && nbytes < UINT32 / 2
      requires buf != fs.disk && buf != fs.current && nbytes <= buf.Length
      modifies buf
      ensures r == FileResult(fs.Value(), fs.inodes[inode], offset, nbytes)
      ensures |Deposited(fs.Value(), fs.inodes[inode], offset, nbytes)| <= buf.Length
      ensures buf[..] == Patch(old(buf[..]), 0, Deposited(fs.Value(), fs.inodes[inode], offset, nbytes))
    {
      hide Gathered, Contents, ReadResult, Loadable, Copied;
      WindowAtMost(fs.inodes[inode].length, offset % UINT32, nbytes);
      r := fs.ReadData(inode, offset % UINT32, buf, 0, nbytes);
    }

    /** fs_file_read through an open descriptor: the offset moves by the result, even when
        that is -1. */
    method FileRead(fd: int, buf: array<Byte>, nbytes: nat, esp: int, ghost owner: int) returns (r: int)
      requires Valid() && 0 <= owner < MAX_PROGRAMS && OnStackOf(esp, owner) && 0 <= fd < FD_MAX
      requires 0 <= pcbs[owner].files[fd].inode < |fs.inodes| && InodeShape(fs.inodes[pcbs[owner].files[fd].inode])
      requires nbytes < UINT32 / 2 && nbytes <= buf.Length && buf != fs.disk && buf != fs.current
      modifies this`pcbs, buf
      ensures Valid()
      ensures
        var was := old(pcbs)[owner];
        var f := was.files[fd];
        var ino := fs.inodes[f.inode];
        && r == FileResult(fs.Value(), ino, f.offset, nbytes)
        && pcbs == old(pcbs)[owner := was.(files := was.files[fd := f.(offset := f.offset + r)])]
        && |Deposited(fs.Value(), ino, f.offset, nbytes)| <= buf.Length
        && buf[..] == Patch(old(buf[..]), 0, Deposited(fs.Value(), ino, f.offset, nbytes))
    {
      var p := GetPcb(esp, owner);
      var pcb := pcbs[p];
      var f := pcb.files[fd];
      hide FileResult, Deposited;
      r := ReadAt(f.inode, f.offset, buf, nbytes);
      pcbs := pcbs[p := pcb.(files := pcb.files[fd := f.(offset := f.offset + r)])];
    }

    /** fs_dir_read, as the kernel sees it. */
    method ReadDirectory(buf: array<Byte>) returns (r: int)
      requires Valid() && FILENAME_LEN <= buf.Length && buf != fs.disk && buf != fs.current
      modifies buf, fs, fs.current
      ensures Valid() && fs.Value() == old(fs.Value())
      ensures fs.dirCount == DirCount(fs.Value(), old(fs.dirCount))
      ensures r == DirResult(fs.Value(), old(fs.dirCount)) && 0 <= r <= FILENAME_LEN
      ensures if old(fs.dirCount) < fs.entries then buf[..r] == Names(fs.Value())[old(fs.dirCount)] else r == 0
      ensures buf[FILENAME_LEN..] == old(buf[FILENAME_LEN..])
    {
      hide DirResult, DirCount, Names, NameOf, Loadable;
      ghost var was := buf[..];
      r := fs.DirRead(buf);
      assert buf[FILENAME_LEN..] == buf[..][FILENAME_LEN..] && was[FILENAME_LEN..] == old(buf[FILENAME_LEN..]);
    }

    /** read, by the table of the descriptor: the piece of a regular file at the slot's own
        offset, the next name of a directory, or what the operation of another table returns,
        `device`. Nothing else changes. */
    method ReadSlot(fd: int, buf: array<Byte>, nbytes: nat, device: int, esp: int, ghost owner: int) returns (r: int)
      requires Valid() && 0 <= owner < MAX_PROGRAMS && OnStackOf(esp, owner)
      requires nbytes < UINT32 / 2 && nbytes <= buf.Length && FILENAME_LEN <= buf.Length
      requires buf != fs.disk && buf != fs.current
      modifies this`pcbs, buf, fs, fs.current
      ensures Valid() && fs.Value() == old(fs.Value())
      ensures
        var p, img := old(pcbs)[owner], fs.Value();
        if fd < 0 || fd >= FD_MAX || fd == 1 || !p.files[fd].inUse then
          r == -1 && pcbs == old(pcbs) && buf[..] == old(buf[..]) && fs.dirCount == old(fs.dirCount)
        else if p.files[fd].fop == FileTable then
          var f := p.files[fd];
          && 0 <= f.inode < |img.inodes| && InodeShape(img.inodes[f.inode])
          && var ino := img.inodes[f.inode];
             && r == FileResult(img, ino, f.offset, nbytes) && fs.dirCount == old(fs.dirCount)
             && pcbs == old(pcbs)[owner := p.(files := p.files[fd := f.(offset := f.offset + r)])]
             && |Deposited(img, ino, f.offset, nbytes)| <= buf.Length
             && buf[..] == Patch(old(buf[..]), 0, Deposited(img, ino, f.offset, nbytes))
        else if p.files[fd].fop == DirTable then
          && pcbs == old(pcbs) && fs.dirCount == DirCount(img, old(fs.dirCount))
          && r == DirResult(img, old(fs.dirCount)) && 0 <= r <= FILENAME_LEN
          && (if old(fs.dirCount) < img.entries then buf[..r] == Names(img)[old(fs.dirCount)] else r == 0)
          && buf[FILENAME_LEN..] == old(buf[FILENAME_LEN..])
        else r == device && pcbs == old(pcbs) && buf[..] == old(buf[..]) && fs.dirCount == old(fs.dirCount)
    {
      hide FileResult, Deposited, DirResult, DirCount, Names;
      if fd < 0 || fd > FD_MAX - 1 || fd == 1 {
        return -1;
      }
      var p := GetPcb(esp, owner);
      var f := pcbs[p].files[fd];
      if !f.inUse {
        return -1;
      }
      if f.fop == FileTable {
        assert fs.inodes[f.inode] in fs.Value().inodes;
        r := FileRead(fd, buf, nbytes, esp, owner);
      } else if f.fop == DirTable {
        r := ReadDirectory(buf);
      } else {
        r := device;
      }
    }

    /** halt's loop over the dynamic descriptors. */
    method CloseAll(esp: int, ghost owner: int)
      requires Valid() && 0 <= owner < MAX_PROGRAMS && OnStackOf(esp, owner)
      modifies this`pcbs
      ensures Valid() && pcbs == old(pcbs)[owner := ClosedFrom(old(pcbs)[owner], FD_START)]
    {
      var p := GetPcb(esp, owner);
      for i := FD_START to FD_MAX
        invariant Valid() && ClosedFrom(pcbs[owner], i) == ClosedFrom(old(pcbs)[owner], FD_START)
        invariant pcbs == old(pcbs)[owner := pcbs[owner]]
      {
        if pcbs[p].files[i].inUse {
          var _ := CloseFile(i, esp, owner);
        }
      }
    }

    /** halt of the running process: the stack pointer to resume on, or none when a new
        shell was started in its place. */
    method HaltProcess(t: int, esp: int) returns (resume: Option<int>)
      requires Valid() && Agree(Value()) && 0 <= t < TERMS && OnStackOf(esp, active)
      requires NamesProgram(fs.Value(), SHELL) && (active == 0 ==> ZeroFits(SHELL))
      modifies this, paging.directory, probe, frames
      ensures Valid() && Value() == Halt(old(Value()), t, old(active), esp)
      ensures resume == if Restarts(old(Value()), t, old(active)) then None else Some(old(pcbs[active].esp))
      ensures resume.None? ==> Spared(old(active), SHELL)
      ensures forall p :: 1 <= p < MAX_PROGRAMS && (p != old(active) || resume.Some?) ==>
        frames[p][..] == old(frames[p][..])
    {
      hide Execute, NamesProgram, Spared, ZeroFits, ClosedFrom, Tidy;
      var p := GetPcb(esp, active);
      var restart := LeaveProcess(t, p);
      if restart {
        RestartShell(t, esp);
        return None;
      }
      ReturnToParent(esp, p);
      return Some(pcbs[p].esp);
    }

    /** The counters go down; the result is halt's test for starting a new shell. */
    method LeaveProcess(t: int, p: int) returns (restart: bool)
      requires Valid() && 0 <= t < TERMS && 0 <= p < MAX_PROGRAMS
      modifies this`active, this`counter, this`numProgram
      ensures Valid() && Value() == Charge(old(Value()), t, -1) && restart == Restarts(old(Value()), t, p)
    {
      active := active - 1;
      counter := counter - 1;
      restart := pcbs[p].parent == 0 || active == -1 || numProgram[t] <= 1;
      numProgram := numProgram[t := numProgram[t] - 1];
    }

    /** Kernel stack and program page of the process below, and the descriptors closed. */
    method ReturnToParent(esp: int, p: int)
      requires Valid() && 0 <= active < MAX_PROGRAMS && 0 <= p < MAX_PROGRAMS && OnStackOf(esp, p)
      modifies this`esp0, this`view, this`pcbs, paging.directory
      ensures Valid()
      ensures Value() == old(Value()).(esp0 := StackTop(active), mapped := active,
                                       pcbs := old(pcbs)[p := ClosedFrom(old(pcbs)[p], FD_START)])
    {
      esp0 := KSTACK_BASE - KSTACK_SIZE * active - 4;
      paging.SetUpProgramPaging(active, view);
      view := view.(program := Some(active));
      CloseAll(esp, p);
    }

    /** execute("shell") from halt. */
    method RestartShell(t: int, esp: int)
      requires Valid() && 0 <= t < TERMS && -1 <= active < MAX_PROGRAMS - 1 && Total(Value()) == active + 1
      requires NamesProgram(fs.Value(), SHELL) && (active == -1 ==> ZeroFits(SHELL))
      modifies this, paging.directory, probe, frames
      ensures Valid() && Value() == Execute(old(Value()), t, esp, Repeat(NUL, ARG_SIZE), Launched)
      ensures Spared(old(active) + 1, SHELL)
      ensures forall p :: 1 <= p < MAX_PROGRAMS && p != old(active) + 1 ==> frames[p][..] == old(frames[p][..])
    {
      hide Execute, ExecOutcome, Lookup, NamesProgram, Spared, ZeroFits, LoadedInto, Contents, FileAt;
      var command := SHELL + Repeat(NUL, KBD_BUF_SIZE);
      ShellCommand(active);
      LaunchedExactly(fs.Value(), SHELL, Total(Value()));
      ghost var stack := probe[..];
      var how := Exec(command, t, esp);
      assert ExecOutcome(fs.Value(), SHELL, old(Total(Value())), stack) == Launched;
    }

    /** getargs: the argument, padded with zeros to 1024 bytes, when there is one and it
        fits with its terminator. */
    method GetArgs(buf: array<Byte>, nbytes: int, esp: int, ghost owner: int) returns (r: int)
      requires Valid() && 0 <= owner < MAX_PROGRAMS && OnStackOf(esp, owner)
      requires |pcbs[owner].arg| == ARG_SIZE <= buf.Length && NUL in pcbs[owner].arg
      modifies buf
      ensures var arg := CStr(pcbs[owner].arg);
        if nbytes < |arg| + 1 || arg == [] then r == -1 && buf[..] == old(buf[..])
        else r == 0 && buf[..] == Patch(old(buf[..]), 0, arg + Repeat(NUL, ARG_SIZE - |arg|))
    {
      var p := GetPcb(esp, owner);
      var len := StrLen(pcbs[p].arg);
      if nbytes < 0 || nbytes < len + 1 || len == 0 {
        return -1;
      }
      MemSet(buf, 0, 0, NUL, ARG_SIZE);
      ghost var zeroed := buf[..];
      for k := 0 to len
        invariant forall j :: 0 <= j < k ==> buf[j] == pcbs[p].arg[j]
        invariant forall j :: k <= j < buf.Length ==> buf[j] == zeroed[j]
      {
        buf[k] := pcbs[p].arg[k];
      }
      return 0;
    }

    // ----- runs -----

    /** read as a system call: the reply holds the bytes that the result covers. */
    method ServeRead(s: SysCall, buf: array<Byte>) returns (reply: Reply)
      requires Valid() && Agree(Value()) && Fits(s) && s.ReadBytes?
      requires buf != fs.disk && buf != fs.current && s.nbytes <= buf.Length && ARG_SIZE <= buf.Length
      modifies this`pcbs, buf, fs, fs.current
      ensures Valid() && fs.Value() == old(fs.Value()) && Value() == StepOn(fs.Value(), old(Value()), s)
      ensures reply == ReplyOn(fs.Value(), old(Value()), old(fs.dirCount), s)
      ensures fs.dirCount == CountOn(fs.Value(), old(Value()), old(fs.dirCount), s)
    {
      hide StepOn, Agree, FileResult, Piece, Deposited, Loadable;
      StepOnOther(fs.Value(), Value(), s);
      var fd := s.fd;
      var f := if 0 <= fd < FD_MAX && fd != 1 then pcbs[active].files[fd] else CLOSED;
      ghost var img, ino := fs.Value(), if f.fop == FileTable then fs.inodes[f.inode] else Inode(0, []);
      var r := ReadSlot(fd, buf, s.nbytes, s.device, esp0 - s.depth, active);
      var given := f.inUse && (f.fop == FileTable || f.fop == DirTable) && r > 0;
      if f.inUse && f.fop == FileTable {
        CoveredPiece(img, ino, f.offset, s.nbytes);
      }
      reply := Reply(r, if given then buf[..r] else []);
    }

    /** open, close or getargs by the running process. `buf` is the user's buffer. */
    method ServeFiles(s: SysCall, buf: array<Byte>) returns (reply: Reply)
      requires Valid() && Agree(Value()) && Fits(s) && !s.Spawn? && !s.Quit? && !s.ReadBytes?
      requires buf != fs.disk && buf != fs.current && ARG_SIZE <= buf.Length
      modifies this`pcbs, buf
      ensures Valid() && Value() == StepOn(fs.Value(), old(Value()), s)
      ensures reply == ReplyOn(fs.Value(), old(Value()), fs.dirCount, s)
    {
      hide Opened, ReadFrom, Closed, StepOn, OpenCall;
      StepOnOther(fs.Value(), Value(), s);
      var esp := esp0 - s.depth;
      match s {
        case OpenName(depth, fname) =>
          var fd := OpenFile(fname, esp, active);
          reply := Reply(fd, []);
        case CloseSlot(depth, fd) =>
          var r := CloseFile(fd, esp, active);
          reply := Reply(r, []);
        case Args(depth, room) =>
          ghost var was := buf[..];
          var r := GetArgs(buf, room, esp, active);
          if r == 0 {
            ArgumentInBuffer(was, CStr(pcbs[active].arg));
          }
          reply := Reply(r, if r == 0 then CStr(buf[..]) else []);
      }
    }

    /** execute by the running process, with `stack` where its buffer will be; `ok` says that
        the load did not fail. */
    method ServeSpawn(s: SysCall) returns (ok: bool, reply: Reply)
      requires Valid() && Agree(Value()) && Fits(s) && s.Spawn?
      modifies this, paging.directory, probe, frames
      ensures Valid() && Value() == StepOn(fs.Value(), old(Value()), s) && ok == !BreaksOn(fs.Value(), old(Value()), s)
      ensures reply == ReplyOn(fs.Value(), old(Value()), fs.dirCount, s)
    {
      hide Execute, StepOn, ArgField, LoadedInto, Spared, ZeroFits, Lookup, FileAt, Contents, ProgramName, LoadCanFail;
      StepOnSpawn(fs.Value(), Value(), s);
      forall k | 0 <= k < 4 {
        probe[k] := s.stack[k];
      }
      assert probe[..] == s.stack;
      var how := Exec(s.command, s.t, esp0 - s.depth);
      return !how.LoadFailed?, if how.Launched? then Silent else Reply(-1, []);
    }

    /** halt by the running process, and the rest of an earlier halt when it resumes inside
        one; the result says that it does not. */
    method ServeQuit(s: SysCall) returns (ok: bool)
      requires Valid() && Agree(Value()) && Fits(s) && s.Quit? && NamesProgram(fs.Value(), SHELL) && ZeroFits(SHELL)
      modifies this, paging.directory, probe, frames
      ensures Valid() && Value() == StepOn(fs.Value(), old(Value()), s) && ok == !BreaksOn(fs.Value(), old(Value()), s)
    {
      hide StepOn, Halt, NamesProgram, ZeroFits, Spared;
      StepOnOther(fs.Value(), Value(), s);
      var esp := esp0 - s.depth;
      HaltedBelow(Value(), s.t, esp);
      var resume := HaltProcess(s.t, esp);
      ok := resume.None? || OnStackOf(resume.value, active);
      if !ok {
        numProgram := numProgram[s.t := numProgram[s.t] - 1];
      }
    }

    /** One system call of the running process, its reply, and whether it breaks nothing. */
    method Serve(s: SysCall, buf: array<Byte>) returns (ok: bool, reply: Reply)
      requires Valid() && Agree(Value()) && Fits(s) && NamesProgram(fs.Value(), SHELL) && ZeroFits(SHELL)
      requires buf != fs.disk && buf != fs.current
      requires ARG_SIZE <= buf.Length && (s.ReadBytes? ==> s.nbytes <= buf.Length)
      modifies this, paging.directory, probe, frames, buf, fs, fs.current
      ensures Valid() && fs.Value() == old(fs.Value()) && Value() == StepOn(fs.Value(), old(Value()), s)
      ensures ok <==> Agree(Value())
      ensures reply == ReplyOn(fs.Value(), old(Value()), old(fs.dirCount), s)
      ensures fs.dirCount == CountOn(fs.Value(), old(Value()), old(fs.dirCount), s)
    {
      hide StepOn, NamesProgram, ZeroFits, Agree, ResumesInside, LoadCanFail;
      hide ReadReply, ExecOutcome, FileStep, OpenCall;
      StepOnAgrees(fs.Value(), Value(), s);
      if s.Spawn? {
        ok, reply := ServeSpawn(s);
      } else if s.Quit? {
        ok := ServeQuit(s);
        reply := Silent;
      } else if s.ReadBytes? {
        reply := ServeRead(s, buf);
        ok := true;
      } else {
        reply := ServeFiles(s, buf);
        ok := true;
      }
    }

    /** Boot and any sequence of system calls, up to the first that breaks the agreement: the
        kernel is where the specification says and the programs got the replies it says, and
        `ok` tells whether counters, page, stack and PCBs agree. They do on a safe image with
        one terminal in front. */
    method RunAll(t: int, esp: int, ss: seq<SysCall>, buf: array<Byte>) returns (ok: bool, replies: seq<Reply>)
      requires Valid() && PowerOn(Value()) && 0 <= t < TERMS && AllFit(ss)
      requires NamesProgram(fs.Value(), SHELL) && ZeroFits(SHELL)
      requires buf != fs.disk && buf != fs.current && ARG_SIZE <= buf.Length
      requires forall s :: s in ss && s.ReadBytes? ==> s.nbytes <= buf.Length
      modifies this, paging.directory, probe, frames, buf, fs, fs.current
      ensures Valid() && Value() == RunOn(fs.Value(), FirstShell(old(Value()), t, esp), ss)
      ensures replies == RepliesOn(fs.Value(), FirstShell(old(Value()), t, esp), old(fs.dirCount), ss)
      ensures ok <==> Agree(Value())
      ensures Safe(fs.Value()) && OnlyOn(ss, {t}) ==> ok
    {
      hide Agree, StepOn, NamesProgram, ZeroFits, Safe, Fits, Loadable, BreaksOn;
      hide RunOn, RepliesOn, CountAfter, ReplyOn, CountOn;
      ghost var img, boot, count := fs.Value(), Value(), fs.dirCount;
      BootShell(t, esp);
      ghost var m := Value();
      ok, replies := true, [];
      NothingYet(img, m, count);
      for n := 0 to |ss|
        invariant Valid() && fs.Value() == img && Value() == RunOn(img, m, ss[..n])
        invariant fs.dirCount == CountAfter(img, m, count, ss[..n]) && replies == RepliesOn(img, m, count, ss[..n])
        invariant ok <==> Agree(Value())
      {
        FitPrefix(ss, n);
        assert ss[..n + 1] == ss[..n] + [ss[n]];
        OneMoreCall(img, m, count, ss[..n], ss[n]);
        if ok {
          var reply;
          ok, reply := Serve(ss[n], buf);
          replies := replies + [reply];
        }
      }
      assert ss[..|ss|] == ss;
      SafeRunOnOne(img, boot, t, esp, ss);
    }

    /** execute("shell") at boot, on a stack that belongs to no process. */
    method BootShell(t: int, esp: int)
      requires Valid() && PowerOn(Value()) && 0 <= t < TERMS
      requires NamesProgram(fs.Value(), SHELL) && ZeroFits(SHELL)
      modifies this, paging.directory, probe, frames
      ensures Valid() && Value() == FirstShell(old(Value()), t, esp) && Agree(Value())
    {
      hide Agree, NamesProgram, ZeroFits;
      FirstShellAgrees(Value(), t, esp);
      RestartShell(t, esp);
    }
  }
}
