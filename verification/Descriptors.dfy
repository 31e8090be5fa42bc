/** Process control blocks and their descriptor arrays: open, read and close of syscalls.c. */
module Descriptors {
  import opened Bytes

  const FD_START := 2
  const FD_MAX := 8

  /** Which of the operation tables of syscalls.c a descriptor points to. */
  datatype FopTable = NoTable | StdinTable | StdoutTable | RtcTable | DirTable | FileTable

  datatype FileDesc = FileDesc(fop: FopTable, inode: int, offset: int, inUse: bool)

  const CLOSED := FileDesc(NoTable, 0, 0, false)

  /** `parent` is an address, 0 for NULL; `esp` is the stack pointer saved at launch. */
  datatype Pcb = Pcb(files: seq<FileDesc>, pid: int, parent: int, arg: seq<Byte>, esp: int, programCounter: int)

  /** The descriptor array that execute sets up. */
  const FRESH_FILES: seq<FileDesc> :=
    [FileDesc(StdinTable, 0, 0, true), FileDesc(StdoutTable, 0, 0, true),
     CLOSED, CLOSED, CLOSED, CLOSED, CLOSED, CLOSED]

  /** The table that open chooses for a directory entry's type, if it knows the type. */
  function TableOf(filetype: nat): FopTable {
    if filetype == 0 then RtcTable else if filetype == 1 then DirTable
    else if filetype == 2 then FileTable else NoTable
  }

  /** The first free slot from `i` on, or 8. */
  function FirstFree(files: seq<FileDesc>, i: nat): (fd: nat)
    requires |files| == FD_MAX && i <= FD_MAX
    ensures i <= fd <= FD_MAX && (fd < FD_MAX ==> !files[fd].inUse)
    ensures forall k :: i <= k < fd ==> files[k].inUse
    decreases FD_MAX - i
  {
    if i == FD_MAX || !files[i].inUse then i else FirstFree(files, i + 1)
  }

  /** open of an existing entry: the new PCB and the descriptor, -1 when all are taken. A
      type outside 0 to 2 is counted but fills no slot. */
  function Opened(p: Pcb, filetype: nat, inode: int): (r: (Pcb, int))
    requires |p.files| == FD_MAX
    ensures |r.0.files| == FD_MAX
  {
    var fd: int := FirstFree(p.files, FD_START);
    if fd == FD_MAX then (p, -1)
    else
      var q := p.(programCounter := p.programCounter + 1);
      if filetype > 2 then (q, fd)
      else
        var slot := FileDesc(TableOf(filetype), if filetype == 2 then inode else 0, 0, true);
        (q.(files := p.files[fd := slot]), fd)
  }

  function Closed(p: Pcb, fd: int): (r: (Pcb, int))
    requires |p.files| == FD_MAX
    ensures |r.0.files| == FD_MAX
  {
    if fd < FD_START || fd >= FD_MAX || !p.files[fd].inUse then (p, -1)
    else (p.(files := p.files[fd := CLOSED], programCounter := p.programCounter - 1), 0)
  }

  /** read, when the operation it calls returns `got`: the result, and the offset of a
      regular file moved by it. */
  function ReadFrom(p: Pcb, fd: int, got: int): (r: (Pcb, int))
    requires |p.files| == FD_MAX
    ensures |r.0.files| == FD_MAX
  {
    if fd < 0 || fd >= FD_MAX || fd == 1 || !p.files[fd].inUse then (p, -1)
    else
      var f := p.files[fd];
      (if f.fop == FileTable then p.(files := p.files[fd := f.(offset := f.offset + got)]) else p, got)
  }

  /** halt's loop over the dynamic descriptors, from slot `i` on. */
  function ClosedFrom(p: Pcb, i: nat): (r: Pcb)
    requires |p.files| == FD_MAX && FD_START <= i <= FD_MAX
    ensures |r.files| == FD_MAX && r.esp == p.esp
    decreases FD_MAX - i
  {
    if i == FD_MAX then p else ClosedFrom(Closed(p, i).0, i + 1)
  }

  // ----- runs of open, read and close -----

  /** An open gives the entry that was found, if one was; a read, what its operation
      returned. */
  datatype FileCall = Open(filetype: nat, inode: int) | Missing | Read(fd: int, got: int) | Close(fd: int)

  function FileStep(p: Pcb, c: FileCall): (r: (Pcb, int))
    requires |p.files| == FD_MAX
    ensures |r.0.files| == FD_MAX
  {
    match c
    case Open(filetype, inode) => Opened(p, filetype, inode)
    case Missing => (p, -1)
    case Read(fd, got) => ReadFrom(p, fd, got)
    case Close(fd) => Closed(p, fd)
  }

  function FileRun(p: Pcb, cs: seq<FileCall>): (r: Pcb)
    requires |p.files| == FD_MAX
    ensures |r.files| == FD_MAX
  {
    if cs == [] then p else FileStep(FileRun(p, cs[..|cs| - 1]), cs[|cs| - 1]).0
  }

  function InUse(files: seq<FileDesc>, i: nat): nat
    requires i <= |files|
    decreases |files| - i
  {
    if i == |files| then 0 else (if files[i].inUse then 1 else 0) + InUse(files, i + 1)
  }

  /** Opens of the run that found a slot for an entry of a type they do not know. */
  function Strays(p: Pcb, cs: seq<FileCall>): nat
    requires |p.files| == FD_MAX
  {
    if cs == [] then 0
    else
      var before, c := cs[..|cs| - 1], cs[|cs| - 1];
      Strays(p, before) +
      if c.Open? && c.filetype > 2 && FileStep(FileRun(p, before), c).1 != -1 then 1 else 0
  }

  /** Slots 0 and 1 are the standard ones, a dynamic slot in use has a table of a file
      type, and one not in use is cleared. */
  ghost predicate Tidy(p: Pcb) {
    && |p.files| == FD_MAX && p.files[0] == FRESH_FILES[0] && p.files[1] == FRESH_FILES[1]
    && forall k :: FD_START <= k < FD_MAX ==>
      if p.files[k].inUse then p.files[k].fop in {RtcTable, DirTable, FileTable} else p.files[k] == CLOSED
  }

  /** Descriptors of regular files refer to inodes that exist. */
  ghost predicate Refers(p: Pcb, inodes: nat) {
    forall k :: 0 <= k < |p.files| && p.files[k].fop == FileTable ==> 0 <= p.files[k].inode < inodes
  }

  lemma {:induction false} InUseUpdate(files: seq<FileDesc>, i: nat, fd: nat, slot: FileDesc)
    requires i <= |files| && fd < |files|
    ensures InUse(files[fd := slot], i) ==
            InUse(files, i) + if i <= fd then (if slot.inUse then 1 else 0) - (if files[fd].inUse then 1 else 0) else 0
    decreases |files| - i
  {
    if i < |files| {
      InUseUpdate(files, i + 1, fd, slot);
    }
  }

  lemma StepTidy(p: Pcb, c: FileCall)
    requires Tidy(p)
    ensures Tidy(FileStep(p, c).0)
    ensures
      var (q, r) := FileStep(p, c);
      q.programCounter - InUse(q.files, FD_START) ==
      p.programCounter - InUse(p.files, FD_START) + if c.Open? && c.filetype > 2 && r != -1 then 1 else 0
  {
    match c
    case Open(filetype, inode) =>
      var fd := FirstFree(p.files, FD_START);
      if fd < FD_MAX && filetype <= 2 {
        InUseUpdate(p.files, FD_START, fd, FileDesc(TableOf(filetype), if filetype == 2 then inode else 0, 0, true));
      }
    case Missing =>
    case Read(fd, got) =>
      if 0 <= fd < FD_MAX {
        InUseUpdate(p.files, FD_START, fd, p.files[fd].(offset := p.files[fd].offset + got));
      }
    case Close(fd) =>
      if FD_START <= fd < FD_MAX {
        InUseUpdate(p.files, FD_START, fd, CLOSED);
      }
  }

  /** Over every run of calls the descriptor array stays tidy, and the counter
      moves with the number of slots in use but for opens of unknown types, which each
      push it up by one for good. */
  lemma {:induction false} FileRunTidy(p: Pcb, cs: seq<FileCall>)
    requires Tidy(p)
    ensures Tidy(FileRun(p, cs))
    ensures FileRun(p, cs).programCounter - InUse(FileRun(p, cs).files, FD_START) ==
            p.programCounter - InUse(p.files, FD_START) + Strays(p, cs)
  {
    if cs != [] {
      FileRunTidy(p, cs[..|cs| - 1]);
      StepTidy(FileRun(p, cs[..|cs| - 1]), cs[|cs| - 1]);
    }
  }

  /** A successful open takes the lowest free dynamic slot and gives it the table and inode
      of its type at offset 0; closing it again restores the PCB. */
  lemma OpenThenClose(p: Pcb, filetype: nat, inode: int)
    requires Tidy(p) && filetype <= 2
    ensures
      var (q, fd) := Opened(p, filetype, inode);
      && (fd == -1 <==> forall k :: FD_START <= k < FD_MAX ==> p.files[k].inUse)
      && (fd != -1 ==>
          && FD_START <= fd < FD_MAX && !p.files[fd].inUse
          && (forall k :: FD_START <= k < fd ==> p.files[k].inUse)
          && q.files[fd].inUse && q.files[fd].offset == 0
          && (filetype == 0 ==> q.files[fd].fop == RtcTable) && (filetype == 1 ==> q.files[fd].fop == DirTable)
          && (filetype == 2 ==> q.files[fd].fop == FileTable && q.files[fd].inode == inode)
          && Closed(q, fd) == (p, 0))
  {
    var (q, fd) := Opened(p, filetype, inode);
    if fd != -1 {
      assert p.files[fd] == CLOSED;
      assert q.files[fd := CLOSED] == p.files;
    }
  }

  // ----- the descriptor array as a table of open files -----

  datatype OpenFile = OpenFile(filetype: nat, inode: int, offset: int)

  /** Descriptor to what is open on it. */
  type Table = map<int, OpenFile>

  function LowestFree(m: Table, i: nat): nat
    decreases FD_MAX - i
  {
    if i >= FD_MAX || i !in m then i else LowestFree(m, i + 1)
  }

  /** A call on the table: the new table and the result. */
  function TableStep(m: Table, c: FileCall): (Table, int) {
    match c
    case Open(filetype, inode) =>
      var fd: int := LowestFree(m, FD_START);
      if fd >= FD_MAX then (m, -1)
      else if filetype > 2 then (m, fd)
      else (m[fd := OpenFile(filetype, inode, 0)], fd)
    case Missing => (m, -1)
    case Read(fd, got) =>
      if fd == 0 then (m, got)
      else if fd !in m then (m, -1)
      else (if m[fd].filetype == 2 then m[fd := m[fd].(offset := m[fd].offset + got)] else m, got)
    case Close(fd) => if fd in m then (m - {fd}, 0) else (m, -1)
  }

  function TableRun(m: Table, cs: seq<FileCall>): Table {
    if cs == [] then m else TableStep(TableRun(m, cs[..|cs| - 1]), cs[|cs| - 1]).0
  }

  /** Type 0 is the clock, 1 a directory, 2 a regular file. */
  function SlotOf(f: OpenFile): FileDesc
    requires f.filetype <= 2
  {
    match f.filetype
    case 0 => FileDesc(RtcTable, 0, f.offset, true)
    case 1 => FileDesc(DirTable, 0, f.offset, true)
    case 2 => FileDesc(FileTable, f.inode, f.offset, true)
  }

  /** Each dynamic slot holds what the table says is open on it, and is closed otherwise. */
  ghost predicate Lists(p: Pcb, m: Table) {
    && |p.files| == FD_MAX && p.files[..2] == FRESH_FILES[..2]
    && (forall fd :: fd in m ==> FD_START <= fd < FD_MAX && m[fd].filetype <= 2)
    && forall fd :: FD_START <= fd < FD_MAX ==> p.files[fd] == if fd in m then SlotOf(m[fd]) else CLOSED
  }

  lemma {:induction false} SameFree(p: Pcb, m: Table, i: nat)
    requires Lists(p, m) && FD_START <= i <= FD_MAX
    ensures LowestFree(m, i) == FirstFree(p.files, i)
    decreases FD_MAX - i
  {
    if i < FD_MAX {
      SameFree(p, m, i + 1);
    }
  }

  /** The state and the result of a call are those of the table. */
  ghost predicate Follows(p: Pcb, m: Table, c: FileCall)
    requires |p.files| == FD_MAX
  {
    Lists(FileStep(p, c).0, TableStep(m, c).0) && FileStep(p, c).1 == TableStep(m, c).1
  }

  lemma OpenLists(p: Pcb, m: Table, filetype: nat, inode: int)
    requires Lists(p, m)
    ensures Follows(p, m, Open(filetype, inode))
  {
    SameFree(p, m, FD_START);
  }

  lemma ReadLists(p: Pcb, m: Table, fd: int, got: int)
    requires Lists(p, m)
    ensures Follows(p, m, Read(fd, got))
  {
    assert p.files[0] == p.files[..2][0] == FRESH_FILES[..2][0];
  }

  lemma CloseLists(p: Pcb, m: Table, fd: int)
    requires Lists(p, m)
    ensures Follows(p, m, Close(fd))
  {
  }

  lemma StepLists(p: Pcb, m: Table, c: FileCall)
    requires Lists(p, m)
    ensures Follows(p, m, c)
  {
    match c
    case Open(filetype, inode) => OpenLists(p, m, filetype, inode);
    case Missing =>
    case Read(fd, got) => ReadLists(p, m, fd, got);
    case Close(fd) => CloseLists(p, m, fd);
  }

  /** Over every run of calls from a launch the descriptor array is the table of open files,
      and every further call returns what the table says. */
  lemma {:induction false} FileRunIsTable(p: Pcb, cs: seq<FileCall>, c: FileCall)
    requires p.files == FRESH_FILES
    ensures Lists(FileRun(p, cs), TableRun(map[], cs))
    ensures FileStep(FileRun(p, cs), c).1 == TableStep(TableRun(map[], cs), c).1
  {
    if cs != [] {
      FileRunIsTable(p, cs[..|cs| - 1], c);
      StepLists(FileRun(p, cs[..|cs| - 1]), TableRun(map[], cs[..|cs| - 1]), cs[|cs| - 1]);
    }
    StepLists(FileRun(p, cs), TableRun(map[], cs), c);
  }

  /** The loop of halt leaves no dynamic descriptor in use. */
  lemma {:induction false} ClosedFromCloses(p: Pcb, i: nat)
    requires Tidy(p) && FD_START <= i <= FD_MAX && forall k :: FD_START <= k < i ==> !p.files[k].inUse
    ensures ClosedFrom(p, i) == p.(files := FRESH_FILES, programCounter := p.programCounter - InUse(p.files, i))
    decreases FD_MAX - i
  {
    if i == FD_MAX {
      assert p.files == FRESH_FILES;
    } else {
      StepTidy(p, Close(i));
      var q := Closed(p, i).0;
      assert InUse(q.files, i + 1) == InUse(p.files, i + 1) by {
        if p.files[i].inUse {
          InUseUpdate(p.files, i + 1, i, CLOSED);
        }
      }
      ClosedFromCloses(q, i + 1);
    }
  }
}
