/** What programs get back from their system calls over whole runs: the bytes of the files
    and directories they read, and their arguments. */
module Replies {
  import opened Bytes
  import opened Limits
  import opened Options
  import opened FileSystem
  import opened FileReads
  import opened Directory
  import opened Descriptors
  import opened Processes
  import opened Programs

  /** The result of a call and the bytes that a read or getargs gives with it. An execute
      that launches and a halt have not returned yet. */
  datatype Reply = Silent | Reply(result: int, bytes: seq<Byte>)

  /** The read goes to the directory. */
  predicate IsDirRead(p: Pcb, fd: int)
    requires |p.files| == FD_MAX
  {
    0 <= fd < FD_MAX && fd != 1 && p.files[fd].inUse && p.files[fd].fop == DirTable
  }

  /** read, by the table of the descriptor; `count` is the global dir_count. */
  ghost function ReadReply(img: Image, p: Pcb, count: nat, fd: int, nbytes: nat, device: int): Reply
    requires Shape(img) && |p.files| == FD_MAX && count <= img.entries
  {
    if fd < 0 || fd >= FD_MAX || fd == 1 || !p.files[fd].inUse then Reply(-1, [])
    else
      var f := p.files[fd];
      if f.fop == FileTable && 0 <= f.inode < |img.inodes| then
        var ino := img.inodes[f.inode];
        Reply(FileResult(img, ino, f.offset, nbytes), Piece(img, ino, f.offset, nbytes))
      else if f.fop == DirTable then
        var r := DirResult(img, count);
        Reply(r, if count < img.entries && r <= FILENAME_LEN then DirBuffer(img, count)[..r] else [])
      else Reply(device, [])
  }

  /** getargs: the argument, if there is one and it fits with its terminator. */
  function ArgsReply(arg: seq<Byte>, room: int): Reply {
    var a := CStr(arg);
    if room < |a| + 1 || a == [] then Reply(-1, []) else Reply(0, a)
  }

  ghost function ReplyOn(img: Image, m: Machine, count: nat, s: SysCall): Reply
    requires Loadable(img) && Agree(m) && Fits(s) && count <= img.entries
  {
    var p := m.pcbs[m.active];
    match s
    case Spawn(_, _, command, stack) =>
      if ExecOutcome(img, ProgramName(command), Total(m), stack).Launched? then Silent else Reply(-1, [])
    case Quit(_, _) => Silent
    case OpenName(_, fname) => Reply(FileStep(p, OpenCall(img, fname)).1, [])
    case ReadBytes(_, fd, nbytes, device) => ReadReply(img, p, count, fd, nbytes, device)
    case CloseSlot(_, fd) => Reply(FileStep(p, Close(fd)).1, [])
    case Args(_, room) => ArgsReply(p.arg, room)
  }

  ghost function CountOn(img: Image, m: Machine, count: nat, s: SysCall): (r: nat)
    requires Loadable(img) && Agree(m) && Fits(s) && count <= img.entries
    ensures r <= img.entries
  {
    if s.ReadBytes? && IsDirRead(m.pcbs[m.active], s.fd) then DirCount(img, count) else count
  }

  /** dir_count after a run, and the replies of its calls up to the one that breaks it. */
  ghost function CountAfter(img: Image, m: Machine, count: nat, ss: seq<SysCall>): (r: nat)
    requires Loadable(img) && m.Valid() && AllFit(ss) && count <= img.entries
    ensures r <= img.entries
    decreases |ss|
  {
    if ss == [] then count
    else
      var n := |ss| - 1;
      FitPrefix(ss, n);
      var x, c := RunOn(img, m, ss[..n]), CountAfter(img, m, count, ss[..n]);
      if Agree(x) then CountOn(img, x, c, ss[n]) else c
  }

  ghost function RepliesOn(img: Image, m: Machine, count: nat, ss: seq<SysCall>): seq<Reply>
    requires Loadable(img) && m.Valid() && AllFit(ss) && count <= img.entries
    decreases |ss|
  {
    if ss == [] then []
    else
      var n := |ss| - 1;
      FitPrefix(ss, n);
      var x := RunOn(img, m, ss[..n]);
      RepliesOn(img, m, count, ss[..n]) +
      if Agree(x) then [ReplyOn(img, x, CountAfter(img, m, count, ss[..n]), ss[n])] else []
  }

  lemma NothingYet(img: Image, m: Machine, count: nat)
    requires Loadable(img) && m.Valid() && count <= img.entries
    ensures RunOn(img, m, []) == m && CountAfter(img, m, count, []) == count && RepliesOn(img, m, count, []) == []
  {
  }

  /** One more call at the end of a run. */
  lemma {:induction false} OneMoreCall(img: Image, m: Machine, count: nat, ss: seq<SysCall>, s: SysCall)
    requires Loadable(img) && m.Valid() && AllFit(ss) && Fits(s) && count <= img.entries
    ensures AllFit(ss + [s])
    ensures
      var x, c := RunOn(img, m, ss), CountAfter(img, m, count, ss);
      if Agree(x)
      then
        && RunOn(img, m, ss + [s]) == StepOn(img, x, s) && CountAfter(img, m, count, ss + [s]) == CountOn(img, x, c, s)
        && RepliesOn(img, m, count, ss + [s]) == RepliesOn(img, m, count, ss) + [ReplyOn(img, x, c, s)]
      else
        && RunOn(img, m, ss + [s]) == x && CountAfter(img, m, count, ss + [s]) == c
        && RepliesOn(img, m, count, ss + [s]) == RepliesOn(img, m, count, ss)
  {
    hide Agree, CountOn, ReplyOn, Fits;
    RunOnExtend(img, m, ss, s);
    assert (ss + [s])[..|ss|] == ss && (ss + [s])[|ss|] == s;
    if !Agree(RunOn(img, m, ss)) {
      BrokenStays(img, RunOn(img, m, ss), s);
    }
  }

  // ----- the reads of one descriptor -----

  /** In state `m`, the call is a read of descriptor `fd` by process `p`. */
  predicate Reads(m: Machine, s: SysCall, p: int, fd: int) {
    m.active == p && s.ReadBytes? && s.fd == fd
  }

  /** The sizes that process `p` asks for on descriptor `fd`, and the replies. */
  ghost function SizesOf(img: Image, m: Machine, ss: seq<SysCall>, p: int, fd: int): seq<nat>
    requires Loadable(img) && m.Valid() && AllFit(ss)
    decreases |ss|
  {
    if ss == [] then []
    else
      var n := |ss| - 1;
      FitPrefix(ss, n);
      SizesOf(img, m, ss[..n], p, fd) +
      if Reads(RunOn(img, m, ss[..n]), ss[n], p, fd) then [ss[n].nbytes] else []
  }

  ghost function ReadReplies(img: Image, m: Machine, count: nat, ss: seq<SysCall>, p: int, fd: int): seq<Reply>
    requires Loadable(img) && m.Valid() && AllFit(ss) && count <= img.entries
    decreases |ss|
  {
    if ss == [] then []
    else
      var n := |ss| - 1;
      FitPrefix(ss, n);
      var x := RunOn(img, m, ss[..n]);
      ReadReplies(img, m, count, ss[..n], p, fd) +
      if Agree(x) && Reads(x, ss[n], p, fd)
      then [ReplyOn(img, x, CountAfter(img, m, count, ss[..n]), ss[n])] else []
  }

  function ResultsIn(rs: seq<Reply>): seq<int> {
    seq(|rs|, (i: nat) requires i < |rs| => if rs[i].Reply? then rs[i].result else 0)
  }

  /** All the bytes, one reply after the other. */
  function BytesIn(rs: seq<Reply>): seq<Byte> {
    if rs == [] then []
    else BytesIn(rs[..|rs| - 1]) + var last := rs[|rs| - 1]; if last.Reply? then last.bytes else []
  }

  /** Process `p` does not halt in call `n`. */
  ghost predicate LivesAt(img: Image, m: Machine, ss: seq<SysCall>, p: int, n: nat)
    requires Loadable(img) && m.Valid() && AllFit(ss) && n < |ss|
  {
    FitPrefix(ss, n);
    RunOn(img, m, ss[..n]).active == p ==> !ss[n].Quit?
  }

  ghost predicate Lives(img: Image, m: Machine, ss: seq<SysCall>, p: int)
    requires Loadable(img) && m.Valid() && AllFit(ss)
  {
    forall n :: 0 <= n < |ss| ==> LivesAt(img, m, ss, p, n)
  }

  /** Nor does it close descriptor `fd`. */
  ghost predicate KeptAt(img: Image, m: Machine, ss: seq<SysCall>, p: int, fd: int, n: nat)
    requires Loadable(img) && m.Valid() && AllFit(ss) && n < |ss|
  {
    FitPrefix(ss, n);
    RunOn(img, m, ss[..n]).active == p ==> !(ss[n].CloseSlot? && ss[n].fd == fd)
  }

  ghost predicate Kept(img: Image, m: Machine, ss: seq<SysCall>, p: int, fd: int)
    requires Loadable(img) && m.Valid() && AllFit(ss)
  {
    Lives(img, m, ss, p) && forall n :: 0 <= n < |ss| ==> KeptAt(img, m, ss, p, fd, n)
  }

  lemma LivesPrefix(img: Image, m: Machine, ss: seq<SysCall>, p: int, k: nat)
    requires Loadable(img) && m.Valid() && AllFit(ss) && Lives(img, m, ss, p) && k <= |ss|
    ensures AllFit(ss[..k]) && Lives(img, m, ss[..k], p)
  {
    FitPrefix(ss, k);
    forall n | 0 <= n < k
      ensures LivesAt(img, m, ss[..k], p, n)
    {
      assert LivesAt(img, m, ss, p, n) && ss[..k][..n] == ss[..n];
    }
  }

  lemma KeptPrefix(img: Image, m: Machine, ss: seq<SysCall>, p: int, fd: int, k: nat)
    requires Loadable(img) && m.Valid() && AllFit(ss) && Kept(img, m, ss, p, fd) && k <= |ss|
    ensures AllFit(ss[..k]) && Kept(img, m, ss[..k], p, fd)
  {
    LivesPrefix(img, m, ss, p, k);
    forall n | 0 <= n < k
      ensures KeptAt(img, m, ss[..k], p, fd, n)
    {
      assert KeptAt(img, m, ss, p, fd, n) && ss[..k][..n] == ss[..n];
    }
  }

  /** One system call leaves a process that does not halt in it there, and an open slot that
      it does not close as it was, but for the offset of a regular file that is read. */
  lemma SlotStep(img: Image, m: Machine, s: SysCall, p: int, fd: int)
    requires Loadable(img) && Agree(m) && Fits(s) && Agree(StepOn(img, m, s))
    requires 0 <= p <= m.active && FD_START <= fd < FD_MAX && m.pcbs[p].files[fd].inUse
    requires m.active == p ==> !s.Quit? && !(s.CloseSlot? && s.fd == fd)
    ensures
      var r, f := StepOn(img, m, s), m.pcbs[p].files[fd];
      && p <= r.active
      && r.pcbs[p].files[fd] ==
         if Reads(m, s, p, fd) && f.fop == FileTable && 0 <= f.inode < |img.inodes|
         then f.(offset := f.offset + FileResult(img, img.inodes[f.inode], f.offset, s.nbytes))
         else if Reads(m, s, p, fd) && f.fop == FileTable then f.(offset := f.offset + s.device) else f
  {
    LowerIsPossible(img, m, s);
    StepOnAgrees(img, m, s);
  }

  lemma RepliesExtend(rs: seq<Reply>, x: Reply)
    requires x.Reply?
    ensures ResultsIn(rs + [x]) == ResultsIn(rs) + [x.result]
    ensures BytesIn(rs + [x]) == BytesIn(rs) + x.bytes
  {
    assert (rs + [x])[..|rs|] == rs;
  }

  /** One more call at the end of a run. */
  lemma {:induction false} SizesStep(img: Image, m: Machine, count: nat, ss: seq<SysCall>, p: int, fd: int, n: nat)
    requires Loadable(img) && m.Valid() && AllFit(ss) && count <= img.entries && |ss| == n + 1
    requires AllFit(ss[..n]) && Fits(ss[n]) && Agree(RunOn(img, m, ss[..n]))
    ensures
      var x := RunOn(img, m, ss[..n]);
      if Reads(x, ss[n], p, fd)
      then
        && SizesOf(img, m, ss, p, fd) == SizesOf(img, m, ss[..n], p, fd) + [ss[n].nbytes]
        && ReadReplies(img, m, count, ss, p, fd) ==
           ReadReplies(img, m, count, ss[..n], p, fd) +
           [ReadReply(img, x.pcbs[p], CountAfter(img, m, count, ss[..n]), fd, ss[n].nbytes, ss[n].device)]
      else
        && SizesOf(img, m, ss, p, fd) == SizesOf(img, m, ss[..n], p, fd)
        && ReadReplies(img, m, count, ss, p, fd) == ReadReplies(img, m, count, ss[..n], p, fd)
  {
    hide RunOn, ReadReply, CountAfter;
  }

  /** The slot holds an open regular file at an offset. */
  predicate HasFile(m: Machine, p: int, fd: int, k: int, offset: int)
    requires m.Valid()
  {
    && 0 <= p <= m.active < MAX_PROGRAMS && FD_START <= fd < FD_MAX
    && m.pcbs[p].files[fd] == FileDesc(FileTable, k, offset, true)
  }

  /** A file step of a run in terms of one read. */
  lemma FileStepOn(img: Image, m: Machine, s: SysCall, p: int, fd: int, k: nat, offset: int)
    requires Loadable(img) && Agree(m) && Fits(s) && Agree(StepOn(img, m, s)) && k < |img.inodes|
    requires HasFile(m, p, fd, k, offset) && (m.active == p ==> !s.Quit? && !(s.CloseSlot? && s.fd == fd))
    ensures HasFile(StepOn(img, m, s), p, fd, k,
                    if Reads(m, s, p, fd) then offset + FileResult(img, img.inodes[k], offset, s.nbytes) else offset)
  {
    hide StepOn, FileResult;
    SlotStep(img, m, s, p, fd);
  }

  lemma FileReply(img: Image, p: Pcb, count: nat, fd: int, k: nat, offset: int, nbytes: nat, device: int)
    requires Shape(img) && |p.files| == FD_MAX && count <= img.entries && k < |img.inodes|
    requires FD_START <= fd < FD_MAX && p.files[fd] == FileDesc(FileTable, k, offset, true)
    ensures ReadReply(img, p, count, fd, nbytes, device) ==
            Reply(FileResult(img, img.inodes[k], offset, nbytes), Piece(img, img.inodes[k], offset, nbytes))
  {
  }

  /** Over every run of system calls, by this process and by those it launches, the reads of
      a descriptor that stays open return what reads of those sizes from its offset return,
      give those bytes, and leave that offset. */
  lemma {:induction false} DescriptorReads(img: Image, m: Machine, count: nat, ss: seq<SysCall>,
                                           p: int, fd: int, k: nat, offset: int)
    requires Loadable(img) && m.Valid() && Agree(m) && AllFit(ss) && Agree(RunOn(img, m, ss)) && count <= img.entries
    requires k < |img.inodes| && HasFile(m, p, fd, k, offset) && Kept(img, m, ss, p, fd)
    ensures
      var sizes, ino := SizesOf(img, m, ss, p, fd), img.inodes[k];
      var replies := ReadReplies(img, m, count, ss, p, fd);
      && HasFile(RunOn(img, m, ss), p, fd, k, OffsetAfter(img, ino, offset, sizes))
      && ResultsIn(replies) == Results(img, ino, offset, sizes)
      && BytesIn(replies) == Delivered(img, ino, offset, sizes)
    decreases |ss|
  {
    hide Agree, StepOn, FileResult, Piece, HasFile, ReadReply, Fits, CountAfter, ResultsIn, BytesIn;
    if ss == [] {
      EmptyReplies();
    } else {
      var n, ino := |ss| - 1, img.inodes[k];
      FitPrefix(ss, n);
      KeptPrefix(img, m, ss, p, fd, n);
      assert LivesAt(img, m, ss, p, n) && KeptAt(img, m, ss, p, fd, n);
      var x := RunOn(img, m, ss[..n]);
      AgreedBefore(img, x, ss[n]);
      DescriptorReads(img, m, count, ss[..n], p, fd, k, offset);
      var sizes := SizesOf(img, m, ss[..n], p, fd);
      var at := OffsetAfter(img, ino, offset, sizes);
      FileStepOn(img, x, ss[n], p, fd, k, at);
      SizesStep(img, m, count, ss, p, fd, n);
      if Reads(x, ss[n], p, fd) {
        var c := CountAfter(img, m, count, ss[..n]);
        OneMoreRead(img, m, x, count, c, ss, p, fd, k, offset, sizes, n);
      }
    }
  }

  lemma EmptyReplies()
    ensures ResultsIn([]) == [] && BytesIn([]) == []
  {
  }

  lemma OneMoreRead(img: Image, m: Machine, x: Machine, count: nat, c: nat, ss: seq<SysCall>,
                    p: int, fd: int, k: nat, offset: int, sizes: seq<nat>, n: nat)
    requires Loadable(img) && m.Valid() && x.Valid() && AllFit(ss) && count <= img.entries && |ss| == n + 1
    requires AllFit(ss[..n]) && k < |img.inodes| && ss[n].ReadBytes? && c <= img.entries
    requires HasFile(x, p, fd, k, OffsetAfter(img, img.inodes[k], offset, sizes))
    ensures
      var rs, size := ReadReplies(img, m, count, ss[..n], p, fd), ss[n].nbytes;
      var more := rs + [ReadReply(img, x.pcbs[p], c, fd, size, ss[n].device)];
      var ino := img.inodes[k];
      var at := OffsetAfter(img, ino, offset, sizes);
      && (ResultsIn(rs) == Results(img, ino, offset, sizes) ==>
          ResultsIn(more) == Results(img, ino, offset, sizes + [size]))
      && (BytesIn(rs) == Delivered(img, ino, offset, sizes) ==>
          BytesIn(more) == Delivered(img, ino, offset, sizes + [size]))
      && OffsetAfter(img, ino, offset, sizes + [size]) == at + FileResult(img, ino, at, size)
  {
    hide FileResult, Piece, ReadReply, ResultsIn, BytesIn, ReadReplies;
    var ino, size := img.inodes[k], ss[n].nbytes;
    var at := OffsetAfter(img, ino, offset, sizes);
    FileReply(img, x.pcbs[p], c, fd, k, at, size, ss[n].device);
    RepliesExtend(ReadReplies(img, m, count, ss[..n], p, fd),
                  ReadReply(img, x.pcbs[p], c, fd, size, ss[n].device));
    ReadsExtend(img, ino, offset, sizes, size);
  }

  /** After a successful open of a regular file. */
  lemma OpensFile(img: Image, m: Machine, count: nat, s: SysCall, i: nat, fd: int)
    requires Loadable(img) && Agree(m) && Fits(s) && s.OpenName? && Lookup(img, s.fname) == Some(i)
    requires count <= img.entries && img.dentries[i].filetype == 2
    requires ReplyOn(img, m, count, s) == Reply(fd, []) && fd != -1
    ensures Agree(StepOn(img, m, s)) && HasFile(StepOn(img, m, s), m.active, fd, img.dentries[i].inode, 0)
    ensures img.dentries[i].inode < |img.inodes| && img.inodes[img.dentries[i].inode] == FileAt(img, i)
  {
    StepOnAgrees(img, m, s);
    LowerIsPossible(img, m, s);
    assert img.dentries[i] in img.dentries;
    OpenThenClose(m.pcbs[m.active], 2, img.dentries[i].inode);
  }

  /** A process that opens a regular file by name and reads the descriptor it gets, whatever
      else it and other processes call in between, gets the results and the bytes of reads of
      those sizes from the start of that file. */
  lemma OpenedFileIsRead(img: Image, m: Machine, count: nat, s: SysCall, ss: seq<SysCall>, i: nat, fd: int)
    requires Loadable(img) && m.Valid() && Agree(m) && Fits(s) && s.OpenName? && Lookup(img, s.fname) == Some(i)
    requires count <= img.entries && img.dentries[i].filetype == 2
    requires ReplyOn(img, m, count, s) == Reply(fd, []) && fd != -1
    requires AllFit(ss) && Agree(RunOn(img, StepOn(img, m, s), ss))
    requires Kept(img, StepOn(img, m, s), ss, m.active, fd)
    ensures
      var sizes, ino := SizesOf(img, StepOn(img, m, s), ss, m.active, fd), FileAt(img, i);
      var replies := ReadReplies(img, StepOn(img, m, s), count, ss, m.active, fd);
      && ResultsIn(replies) == Results(img, ino, 0, sizes)
      && BytesIn(replies) == Delivered(img, ino, 0, sizes)
      && HasFile(RunOn(img, StepOn(img, m, s), ss), m.active, fd, img.dentries[i].inode,
                 OffsetAfter(img, ino, 0, sizes))
  {
    hide StepOn, Agree, ReplyOn, Kept;
    OpensFile(img, m, count, s, i, fd);
    DescriptorReads(img, StepOn(img, m, s), count, ss, m.active, fd, img.dentries[i].inode, 0);
  }

  lemma {:induction false} SizesFit(img: Image, m: Machine, ss: seq<SysCall>, p: int, fd: int)
    requires Loadable(img) && m.Valid() && AllFit(ss)
    ensures Requests(SizesOf(img, m, ss, p, fd))
    decreases |ss|
  {
    if ss != [] {
      var n := |ss| - 1;
      FitPrefix(ss, n);
      SizesFit(img, m, ss[..n], p, fd);
    }
  }

  /** Read in block-sized pieces until the first 0, a file that can be read to its end comes
      back whole. */
  lemma WholeFileIsRead(img: Image, m: Machine, count: nat, s: SysCall, ss: seq<SysCall>, i: nat, fd: int)
    requires Loadable(img) && m.Valid() && Agree(m) && Fits(s) && s.OpenName? && Lookup(img, s.fname) == Some(i)
    requires count <= img.entries && img.dentries[i].filetype == 2 && WellFormed(img, FileAt(img, i))
    requires ReplyOn(img, m, count, s) == Reply(fd, []) && fd != -1
    requires AllFit(ss) && Agree(RunOn(img, StepOn(img, m, s), ss))
    requires Kept(img, StepOn(img, m, s), ss, m.active, fd)
    requires
      var sizes := SizesOf(img, StepOn(img, m, s), ss, m.active, fd);
      var results := ResultsIn(ReadReplies(img, StepOn(img, m, s), count, ss, m.active, fd));
      && (forall n :: n in sizes ==> n > 0 && n % FOUR_KB == 0)
      && results != [] && results[|results| - 1] == 0
    ensures BytesIn(ReadReplies(img, StepOn(img, m, s), count, ss, m.active, fd)) == Contents(img, FileAt(img, i))
  {
    hide StepOn, Agree, ReplyOn, Kept, RunOn, SizesOf, ReadReplies, BytesIn, ResultsIn, Requests, HasFile;
    var m1, ino := StepOn(img, m, s), FileAt(img, i);
    var sizes, replies := SizesOf(img, m1, ss, m.active, fd), ReadReplies(img, m1, count, ss, m.active, fd);
    OpenedFileIsRead(img, m, count, s, ss, i, fd);
    SizesFit(img, m1, ss, m.active, fd);
    EndsWithZero(img, ino, sizes, ResultsIn(replies));
  }

  lemma EndsWithZero(img: Image, ino: Inode, sizes: seq<nat>, results: seq<int>)
    requires |img.data| == FOUR_KB * img.dataCount && WellFormed(img, ino) && Requests(sizes)
    requires forall n :: n in sizes ==> n > 0 && n % FOUR_KB == 0
    requires results == Results(img, ino, 0, sizes) && results != [] && results[|results| - 1] == 0
    ensures Delivered(img, ino, 0, sizes) == Contents(img, ino)
  {
    ResultsLength(img, ino, 0, sizes);
    var n := |sizes| - 1;
    var init, last := sizes[..n], sizes[n];
    assert sizes == init + [last] && last in sizes;
    assert forall k :: k in init ==> k in sizes;
    hide FileResult, Piece, Contents;
    ReadsExtend(img, ino, 0, init, last);
    ResultsLength(img, ino, 0, init);
    PieceLength(img, ino, OffsetAfter(img, ino, 0, init), last);
    WholeFile(img, ino, init, last);
  }

  lemma {:induction false} ResultsLength(img: Image, ino: Inode, offset: int, sizes: seq<nat>)
    ensures |Results(img, ino, offset, sizes)| == |sizes|
    decreases |sizes|
  {
    if sizes != [] {
      ResultsLength(img, ino, offset + FileResult(img, ino, offset, sizes[0]), sizes[1..]);
    }
  }

  // ----- the reads of a directory -----

  /** The call reads the directory. */
  predicate DirReads(m: Machine, s: SysCall)
    requires m.Valid() && 0 <= m.active < MAX_PROGRAMS
  {
    s.ReadBytes? && IsDirRead(m.pcbs[m.active], s.fd)
  }

  /** The replies to all directory reads of a run, whoever makes them. */
  ghost function DirReplies(img: Image, m: Machine, count: nat, ss: seq<SysCall>): seq<Reply>
    requires Loadable(img) && m.Valid() && AllFit(ss) && count <= img.entries
    decreases |ss|
  {
    if ss == [] then []
    else
      var n := |ss| - 1;
      FitPrefix(ss, n);
      var x := RunOn(img, m, ss[..n]);
      DirReplies(img, m, count, ss[..n]) +
      if Agree(x) && DirReads(x, ss[n])
      then [ReplyOn(img, x, CountAfter(img, m, count, ss[..n]), ss[n])] else []
  }

  /** Name `q` of the directory, or the end. */
  function NameReply(img: Image, q: nat): Reply
    requires Shape(img)
  {
    if q < img.entries then Reply(|Names(img)[q]|, Names(img)[q]) else Reply(0, [])
  }

  lemma {:induction false} MulGrows(b: nat, d: nat)
    requires d >= 1
    ensures b * d >= b
    decreases d
  {
    if d > 1 {
      MulGrows(b, d - 1);
      assert b * d == b * (d - 1) + b;
    }
  }

  lemma QuotientUnique(b: nat, q1: int, r1: int, q2: int, r2: int)
    requires b * q1 + r1 == b * q2 + r2 && 0 <= r1 < b && 0 <= r2 < b
    ensures r1 == r2
  {
    if q1 < q2 {
      MulGrows(b, q2 - q1);
    } else if q2 < q1 {
      MulGrows(b, q1 - q2);
    }
  }

  /** The next place on the round. */
  function Next(place: nat, b: nat): nat {
    if place + 1 >= b then 0 else place + 1
  }

  /** The place after `a` steps from the start of a round of `b`. */
  function Place(a: nat, b: nat): nat
    requires b > 0
  {
    a % b
  }

  lemma ModStep(a: nat, b: nat)
    requires b > 0
    ensures Place(a + 1, b) == Next(Place(a, b), b)
  {
    var q, r := a / b, a % b;
    var q2, r2 := (a + 1) / b, (a + 1) % b;
    assert a == b * q + r && a + 1 == b * q2 + r2;
    if r + 1 >= b {
      assert b * (q + 1) == b * q + b;
      QuotientUnique(b, q2, r2, q + 1, 0);
    } else {
      QuotientUnique(b, q2, r2, q, r + 1);
    }
  }

  lemma DirReply(img: Image, p: Pcb, count: nat, fd: int, nbytes: nat, device: int)
    requires Shape(img) && |p.files| == FD_MAX && count <= img.entries && IsDirRead(p, fd)
    ensures ReadReply(img, p, count, fd, nbytes, device) == NameReply(img, count)
  {
    if count < img.entries {
      ReadIsName(img, count);
      assert img.dentries[count] in img.dentries;
    }
  }

  /** The replies are the names and the end, round and round from place `count`. */
  ghost predicate GoesRound(img: Image, count: nat, replies: seq<Reply>)
    requires Shape(img)
  {
    forall j :: 0 <= j < |replies| ==> replies[j] == NameReply(img, Place(count + j, img.entries + 1))
  }

  lemma RoundStart(img: Image, m: Machine, count: nat)
    requires Loadable(img) && m.Valid() && count <= img.entries
    ensures DirReplies(img, m, count, []) == [] && GoesRound(img, count, [])
    ensures CountAfter(img, m, count, []) == count == Place(count, img.entries + 1)
  {
    ModSmall(count, img.entries + 1);
  }

  lemma RoundExtend(img: Image, count: nat, replies: seq<Reply>, x: Reply)
    requires Shape(img) && GoesRound(img, count, replies)
    requires x == NameReply(img, Place(count + |replies|, img.entries + 1))
    ensures GoesRound(img, count, replies + [x])
  {
    hide NameReply, Place;
  }

  /** Over every run the directory reads, whoever makes them, go through the names and the end
      of the directory round and round, from where dir_count stood. */
  lemma {:induction false} DirectoryGoesRound(img: Image, m: Machine, count: nat, ss: seq<SysCall>)
    requires Loadable(img) && m.Valid() && AllFit(ss) && count <= img.entries
    ensures CountAfter(img, m, count, ss) == Place(count + |DirReplies(img, m, count, ss)|, img.entries + 1)
    ensures GoesRound(img, count, DirReplies(img, m, count, ss))
    decreases |ss|
  {
    hide Agree, RunOn, GoesRound, Fits, Place, Next, NameReply, CountAfter, DirReplies;
    if ss == [] {
      RoundStart(img, m, count);
    } else {
      var n := |ss| - 1;
      FitPrefix(ss, n);
      DirectoryGoesRound(img, m, count, ss[..n]);
      DirRepliesStep(img, m, count, ss, n);
      var replies := DirReplies(img, m, count, ss[..n]);
      ModStep(count + |replies|, img.entries + 1);
      RoundExtend(img, count, replies, NameReply(img, CountAfter(img, m, count, ss[..n])));
    }
  }

  lemma {:induction false} DirRepliesStep(img: Image, m: Machine, count: nat, ss: seq<SysCall>, n: nat)
    requires Loadable(img) && m.Valid() && AllFit(ss) && count <= img.entries && |ss| == n + 1
    requires AllFit(ss[..n]) && Fits(ss[n])
    ensures
      var c, replies := CountAfter(img, m, count, ss[..n]), DirReplies(img, m, count, ss[..n]);
      || (CountAfter(img, m, count, ss) == c && DirReplies(img, m, count, ss) == replies)
      || (&& CountAfter(img, m, count, ss) == Next(c, img.entries + 1)
          && DirReplies(img, m, count, ss) == replies + [NameReply(img, c)])
  {
    hide Agree, RunOn, ReplyOn, CountOn, Next, NameReply, Fits;
    var x := RunOn(img, m, ss[..n]);
    if Agree(x) {
      AgreeActive(x);
      DirCallReply(img, x, CountAfter(img, m, count, ss[..n]), ss[n]);
    }
  }

  /** What a call means to the directory. */
  lemma DirCallReply(img: Image, m: Machine, count: nat, s: SysCall)
    requires Loadable(img) && Agree(m) && Fits(s) && count <= img.entries
    ensures DirReads(m, s) ==> ReplyOn(img, m, count, s) == NameReply(img, count)
    ensures CountOn(img, m, count, s) == if DirReads(m, s) then Next(count, img.entries + 1) else count
  {
    hide ReadReply, NameReply;
    if DirReads(m, s) {
      DirReply(img, m.pcbs[m.active], count, s.fd, s.nbytes, s.device);
    }
  }

  lemma AgreeActive(m: Machine)
    requires Agree(m)
    ensures 0 <= m.active < MAX_PROGRAMS
  {
  }

  lemma ModSmall(a: nat, b: nat)
    requires a < b
    ensures a % b == a
  {
    QuotientUnique(b, a / b, a % b, 0, a);
  }

  predicate HasDir(m: Machine, p: int, fd: int)
    requires m.Valid()
  {
    && 0 <= p <= m.active < MAX_PROGRAMS && FD_START <= fd < FD_MAX
    && m.pcbs[p].files[fd].inUse && m.pcbs[p].files[fd].fop == DirTable
  }

  /** Every directory read of the run is made by process `p` on descriptor `fd`. */
  ghost predicate OnlyReaderAt(img: Image, m: Machine, ss: seq<SysCall>, p: int, fd: int, n: nat)
    requires Loadable(img) && m.Valid() && AllFit(ss) && n < |ss|
  {
    FitPrefix(ss, n);
    var x := RunOn(img, m, ss[..n]);
    0 <= x.active < MAX_PROGRAMS && DirReads(x, ss[n]) ==> Reads(x, ss[n], p, fd)
  }

  ghost predicate OnlyReader(img: Image, m: Machine, ss: seq<SysCall>, p: int, fd: int)
    requires Loadable(img) && m.Valid() && AllFit(ss)
  {
    forall n :: 0 <= n < |ss| ==> OnlyReaderAt(img, m, ss, p, fd, n)
  }

  lemma OnlyReaderPrefix(img: Image, m: Machine, ss: seq<SysCall>, p: int, fd: int, k: nat)
    requires Loadable(img) && m.Valid() && AllFit(ss) && OnlyReader(img, m, ss, p, fd) && k <= |ss|
    ensures AllFit(ss[..k]) && OnlyReader(img, m, ss[..k], p, fd)
  {
    FitPrefix(ss, k);
    forall n | 0 <= n < k
      ensures OnlyReaderAt(img, m, ss[..k], p, fd, n)
    {
      assert OnlyReaderAt(img, m, ss, p, fd, n) && ss[..k][..n] == ss[..n];
    }
  }

  lemma DirStepOn(img: Image, m: Machine, s: SysCall, p: int, fd: int)
    requires Loadable(img) && Agree(m) && Fits(s) && Agree(StepOn(img, m, s))
    requires HasDir(m, p, fd) && (m.active == p ==> !s.Quit? && !(s.CloseSlot? && s.fd == fd))
    ensures HasDir(StepOn(img, m, s), p, fd) && (Reads(m, s, p, fd) ==> DirReads(m, s))
  {
    hide StepOn, FileResult;
    SlotStep(img, m, s, p, fd);
  }

  /** The reads of its descriptor are then all the directory reads of the run. */
  lemma {:induction false} DirectoryReads(img: Image, m: Machine, count: nat, ss: seq<SysCall>, p: int, fd: int)
    requires Loadable(img) && m.Valid() && Agree(m) && AllFit(ss) && Agree(RunOn(img, m, ss)) && count <= img.entries
    requires HasDir(m, p, fd) && Kept(img, m, ss, p, fd) && OnlyReader(img, m, ss, p, fd)
    ensures HasDir(RunOn(img, m, ss), p, fd)
    ensures ReadReplies(img, m, count, ss, p, fd) == DirReplies(img, m, count, ss)
    decreases |ss|
  {
    hide Agree, StepOn, HasDir, Fits, CountAfter, ReplyOn, DirReads;
    if ss != [] {
      var n := |ss| - 1;
      FitPrefix(ss, n);
      KeptPrefix(img, m, ss, p, fd, n);
      OnlyReaderPrefix(img, m, ss, p, fd, n);
      assert LivesAt(img, m, ss, p, n) && KeptAt(img, m, ss, p, fd, n) && OnlyReaderAt(img, m, ss, p, fd, n);
      var x := RunOn(img, m, ss[..n]);
      AgreedBefore(img, x, ss[n]);
      AgreeActive(x);
      DirectoryReads(img, m, count, ss[..n], p, fd);
      DirStepOn(img, x, ss[n], p, fd);
    }
  }

  /** After a successful open of a directory. */
  lemma OpensDirectory(img: Image, m: Machine, count: nat, s: SysCall, i: nat, fd: int)
    requires Loadable(img) && Agree(m) && Fits(s) && s.OpenName? && Lookup(img, s.fname) == Some(i)
    requires count <= img.entries && img.dentries[i].filetype == 1
    requires ReplyOn(img, m, count, s) == Reply(fd, []) && fd != -1
    ensures Agree(StepOn(img, m, s)) && HasDir(StepOn(img, m, s), m.active, fd)
  {
    StepOnAgrees(img, m, s);
    LowerIsPossible(img, m, s);
    OpenThenClose(m.pcbs[m.active], 1, img.dentries[i].inode);
  }

  /** A process that opens a directory while dir_count is 0 and reads it until the first 0,
      with no other reader, gets exactly the names of the directory, each with its length,
      when none of them is empty; dir_count is 0 again. */
  lemma OpenedDirectoryIsListed(img: Image, m: Machine, s: SysCall, ss: seq<SysCall>, i: nat, fd: int)
    requires Loadable(img) && m.Valid() && Agree(m) && Fits(s) && s.OpenName? && Lookup(img, s.fname) == Some(i)
    requires img.dentries[i].filetype == 1 && ReplyOn(img, m, 0, s) == Reply(fd, []) && fd != -1
    requires AllFit(ss) && Agree(RunOn(img, StepOn(img, m, s), ss)) && [] !in Names(img)
    requires Kept(img, StepOn(img, m, s), ss, m.active, fd) && OnlyReader(img, StepOn(img, m, s), ss, m.active, fd)
    requires
      var results := ResultsIn(ReadReplies(img, StepOn(img, m, s), 0, ss, m.active, fd));
      && results != [] && results[|results| - 1] == 0
      && forall j :: 0 <= j < |results| - 1 ==> results[j] != 0
    ensures
      var replies := ReadReplies(img, StepOn(img, m, s), 0, ss, m.active, fd);
      && |replies| == img.entries + 1
      && (forall j :: 0 <= j < img.entries ==> replies[j] == Reply(|Names(img)[j]|, Names(img)[j]))
      && CountAfter(img, StepOn(img, m, s), 0, ss) == 0
  {
    hide StepOn, Agree, ReplyOn, Kept, OnlyReader, RunOn, ReadReplies, DirReplies, CountAfter, GoesRound, HasDir;
    var m1 := StepOn(img, m, s);
    OpensDirectory(img, m, 0, s, i, fd);
    DirectoryReads(img, m1, 0, ss, m.active, fd);
    DirectoryGoesRound(img, m1, 0, ss);
    UntilTheEnd(img, ReadReplies(img, m1, 0, ss, m.active, fd));
  }

  /** Reads from the start until the first 0 are one round. */
  lemma UntilTheEnd(img: Image, replies: seq<Reply>)
    requires Shape(img) && [] !in Names(img) && replies != [] && GoesRound(img, 0, replies)
    requires ResultsIn(replies)[|replies| - 1] == 0
    requires forall j :: 0 <= j < |replies| - 1 ==> ResultsIn(replies)[j] != 0
    ensures |replies| == img.entries + 1 && |replies| % (img.entries + 1) == 0
    ensures forall j :: 0 <= j < img.entries ==> replies[j] == Reply(|Names(img)[j]|, Names(img)[j])
  {
    var e := img.entries;
    forall j | 0 <= j < |replies| && j <= e
      ensures replies[j] == NameReply(img, j) && (ResultsIn(replies)[j] == 0 <==> j == e)
    {
      ModSmall(j, e + 1);
      assert j < e ==> Names(img)[j] in Names(img);
    }
    QuotientUnique(e + 1, (e + 1) / (e + 1), (e + 1) % (e + 1), 1, 0);
  }

  // ----- two programs -----

  /** The calls are reads of descriptor `fd` and nothing else. */
  ghost predicate OnlyReads(ss: seq<SysCall>, fd: int) {
    forall s :: s in ss ==> s.ReadBytes? && s.fd == fd
  }

  /** They keep the process running, its descriptor open and the agreement. */
  lemma {:induction false} ReadsRun(img: Image, m: Machine, ss: seq<SysCall>, fd: int)
    requires Loadable(img) && m.Valid() && Agree(m) && AllFit(ss) && OnlyReads(ss, fd)
    ensures Agree(RunOn(img, m, ss)) && RunOn(img, m, ss).active == m.active
    decreases |ss|
  {
    hide Agree, StepOn, Fits;
    if ss != [] {
      var n := |ss| - 1;
      FitPrefix(ss, n);
      assert ss[n] in ss && forall s :: s in ss[..n] ==> s in ss;
      ReadsRun(img, m, ss[..n], fd);
      ReadKeepsActive(img, RunOn(img, m, ss[..n]), ss[n]);
    }
  }

  lemma ReadKeepsActive(img: Image, m: Machine, s: SysCall)
    requires Loadable(img) && Agree(m) && Fits(s) && s.ReadBytes?
    ensures Agree(StepOn(img, m, s)) && StepOn(img, m, s).active == m.active
  {
    StepOnAgrees(img, m, s);
    StepOnOther(img, m, s);
  }

  lemma ReadsKeep(img: Image, m: Machine, ss: seq<SysCall>, fd: int)
    requires Loadable(img) && m.Valid() && Agree(m) && AllFit(ss) && OnlyReads(ss, fd)
    ensures Kept(img, m, ss, m.active, fd) && OnlyReader(img, m, ss, m.active, fd)
  {
    hide Agree, RunOn, DirReads;
    forall n | 0 <= n < |ss|
      ensures LivesAt(img, m, ss, m.active, n) && KeptAt(img, m, ss, m.active, fd, n)
      ensures OnlyReaderAt(img, m, ss, m.active, fd, n)
    {
      FitPrefix(ss, n);
      assert ss[n] in ss && forall s :: s in ss[..n] ==> s in ss;
      ReadsRun(img, m, ss[..n], fd);
    }
  }

  /** Every one of them is a read of the process with a reply. */
  lemma {:induction false} ReadsAsked(img: Image, m: Machine, count: nat, ss: seq<SysCall>, fd: int)
    requires Loadable(img) && m.Valid() && Agree(m) && AllFit(ss) && OnlyReads(ss, fd) && count <= img.entries
    ensures |SizesOf(img, m, ss, m.active, fd)| == |ss| == |ReadReplies(img, m, count, ss, m.active, fd)|
    ensures forall i :: 0 <= i < |ss| ==> ss[i].ReadBytes? && SizesOf(img, m, ss, m.active, fd)[i] == ss[i].nbytes
    decreases |ss|
  {
    hide Agree, RunOn, Fits, ReadReply, CountAfter, SizesOf, ReadReplies;
    if ss == [] {
      NothingAsked(img, m, count, fd);
    } else {
      var n := |ss| - 1;
      FitPrefix(ss, n);
      assert ss[n] in ss && forall s :: s in ss[..n] ==> s in ss;
      ReadsAsked(img, m, count, ss[..n], fd);
      ReadsRun(img, m, ss[..n], fd);
      SizesStep(img, m, count, ss, m.active, fd, n);
    }
  }

  lemma NothingAsked(img: Image, m: Machine, count: nat, fd: int)
    requires Loadable(img) && m.Valid() && count <= img.entries
    ensures SizesOf(img, m, [], m.active, fd) == [] && ReadReplies(img, m, count, [], m.active, fd) == []
  {
  }

  /** `n` reads of `size` bytes each. */
  function ReadTimes(n: nat, fd: int, size: nat): (ss: seq<SysCall>)
    ensures |ss| == n
  {
    seq(n, _ => ReadBytes(0, fd, size, 0))
  }

  lemma {:induction false} SumOf(sizes: seq<nat>, size: nat)
    requires forall n :: n in sizes ==> n == size
    ensures Sum(sizes) == |sizes| * size
  {
    if sizes != [] {
      assert sizes[0] in sizes && forall n :: n in sizes[1..] ==> n in sizes;
      SumOf(sizes[1..], size);
    }
  }

  /** A program that opens a file and reads blocks, once more than the file has, gets the
      file. */
  lemma CatGetsFile(img: Image, m: Machine, count: nat, s: SysCall, i: nat, fd: int, n: nat)
    requires Loadable(img) && m.Valid() && Agree(m) && Fits(s) && s.OpenName? && Lookup(img, s.fname) == Some(i)
    requires count <= img.entries && img.dentries[i].filetype == 2 && WellFormed(img, FileAt(img, i))
    requires ReplyOn(img, m, count, s) == Reply(fd, []) && fd != -1 && n * FOUR_KB >= FileAt(img, i).length
    ensures AllFit(ReadTimes(n + 1, fd, FOUR_KB)) && Agree(StepOn(img, m, s))
    ensures BytesIn(ReadReplies(img, StepOn(img, m, s), count, ReadTimes(n + 1, fd, FOUR_KB), m.active, fd)) ==
            Contents(img, FileAt(img, i))
  {
    hide StepOn, Agree, ReplyOn, Kept, OnlyReader, RunOn, SizesOf, ReadReplies, BytesIn, ResultsIn, HasFile;
    hide Results, Contents, WellFormed, Delivered, OffsetAfter, FileResult;
    var m1, ss := StepOn(img, m, s), ReadTimes(n + 1, fd, FOUR_KB);
    OpensFile(img, m, count, s, i, fd);
    KeepsActive(img, m, s);
    ReadsRun(img, m1, ss, fd);
    ReadsKeep(img, m1, ss, fd);
    AllBlocks(img, m1, count, ss, fd, n + 1);
    OpenedFileIsRead(img, m, count, s, ss, i, fd);
    var sizes := SizesOf(img, m1, ss, m.active, fd);
    LastBlockIsEmpty(img, FileAt(img, i), sizes, n);
    ResultsLength(img, FileAt(img, i), 0, sizes);
    WholeFileIsRead(img, m, count, s, ss, i, fd);
  }

  lemma AllBlocks(img: Image, m: Machine, count: nat, ss: seq<SysCall>, fd: int, n: nat)
    requires Loadable(img) && m.Valid() && Agree(m) && AllFit(ss) && count <= img.entries
    requires ss == ReadTimes(n, fd, FOUR_KB)
    ensures |SizesOf(img, m, ss, m.active, fd)| == n
    ensures forall k :: k in SizesOf(img, m, ss, m.active, fd) ==> k == FOUR_KB
  {
    hide SizesOf, Agree;
    ReadsAsked(img, m, count, ss, fd);
    var sizes := SizesOf(img, m, ss, m.active, fd);
    forall k | k in sizes
      ensures k == FOUR_KB
    {
      var j :| 0 <= j < |sizes| && sizes[j] == k;
    }
  }

  lemma KeepsActive(img: Image, m: Machine, s: SysCall)
    requires Loadable(img) && Agree(m) && Fits(s) && s.OpenName?
    ensures StepOn(img, m, s).active == m.active
  {
    StepOnOther(img, m, s);
  }

  lemma LastBlockIsEmpty(img: Image, ino: Inode, sizes: seq<nat>, n: nat)
    requires |img.data| == FOUR_KB * img.dataCount && WellFormed(img, ino) && |sizes| == n + 1
    requires (forall k :: k in sizes ==> k == FOUR_KB) && n * FOUR_KB >= ino.length
    ensures |Results(img, ino, 0, sizes)| == n + 1 && Results(img, ino, 0, sizes)[n] == 0
  {
    var init := sizes[..n];
    assert sizes[n] in sizes && forall k :: k in init ==> k in sizes;
    assert sizes == init + [FOUR_KB];
    SumOf(init, FOUR_KB);
    OffsetStopsAtEnd(img, ino, 0, init, FOUR_KB);
    ReadsExtend(img, ino, 0, init, FOUR_KB);
    ResultsLength(img, ino, 0, init);
  }

  /** A program that opens a directory with dir_count at 0 and reads it once more than it has
      entries gets the names. */
  lemma LsGetsNames(img: Image, m: Machine, s: SysCall, i: nat, fd: int, size: nat)
    requires Loadable(img) && m.Valid() && Agree(m) && Fits(s) && s.OpenName? && Lookup(img, s.fname) == Some(i)
    requires img.dentries[i].filetype == 1 && ReplyOn(img, m, 0, s) == Reply(fd, []) && fd != -1 && size < UINT32 / 2
    ensures AllFit(ReadTimes(img.entries + 1, fd, size)) && Agree(StepOn(img, m, s))
    ensures
      var replies := ReadReplies(img, StepOn(img, m, s), 0, ReadTimes(img.entries + 1, fd, size), m.active, fd);
      && |replies| == img.entries + 1 && replies[img.entries] == Reply(0, [])
      && forall j :: 0 <= j < img.entries ==> replies[j] == Reply(|Names(img)[j]|, Names(img)[j])
  {
    hide StepOn, Agree, ReplyOn, Kept, OnlyReader, RunOn, SizesOf, ReadReplies, DirReplies, HasDir;
    var m1, ss := StepOn(img, m, s), ReadTimes(img.entries + 1, fd, size);
    OpensDirectory(img, m, 0, s, i, fd);
    KeepsActive(img, m, s);
    ReadsRun(img, m1, ss, fd);
    ReadsKeep(img, m1, ss, fd);
    ReadsAsked(img, m1, 0, ss, fd);
    DirectoryReads(img, m1, 0, ss, m.active, fd);
    DirectoryGoesRound(img, m1, 0, ss);
    var replies := ReadReplies(img, m1, 0, ss, m.active, fd);
    forall j | 0 <= j <= img.entries
      ensures replies[j] == NameReply(img, j)
    {
      ModSmall(j, img.entries + 1);
    }
  }

  // ----- the argument of a process -----

  /** A call in which process `p` does not halt leaves it there with what it was born with. */
  lemma BirthStep(img: Image, m: Machine, s: SysCall, p: int)
    requires Loadable(img) && Agree(m) && Fits(s) && Agree(StepOn(img, m, s)) && 0 <= p <= m.active
    requires m.active == p ==> !s.Quit?
    ensures p <= StepOn(img, m, s).active && BirthOf(StepOn(img, m, s).pcbs[p]) == BirthOf(m.pcbs[p])
  {
    LowerIsPossible(img, m, s);
    StepOnAgrees(img, m, s);
    StepBirth(m, Lower(img, m, s), p);
  }

  lemma {:induction false} BirthIsKept(img: Image, m: Machine, ss: seq<SysCall>, p: int)
    requires Loadable(img) && m.Valid() && Agree(m) && AllFit(ss) && Agree(RunOn(img, m, ss))
    requires 0 <= p <= m.active < MAX_PROGRAMS && Lives(img, m, ss, p)
    ensures p <= RunOn(img, m, ss).active < MAX_PROGRAMS
    ensures BirthOf(RunOn(img, m, ss).pcbs[p]) == BirthOf(m.pcbs[p])
    decreases |ss|
  {
    hide Agree, StepOn, Fits;
    AgreeActive(RunOn(img, m, ss));
    if ss != [] {
      var n := |ss| - 1;
      FitPrefix(ss, n);
      LivesPrefix(img, m, ss, p, n);
      assert LivesAt(img, m, ss, p, n);
      var x := RunOn(img, m, ss[..n]);
      AgreedBefore(img, x, ss[n]);
      BirthIsKept(img, m, ss[..n], p);
      BirthStep(img, x, ss[n], p);
    }
  }

  /** The command that launched a process, and after any calls in which it does not halt, by
      it and by those it launches, getargs by it gives exactly the second word of that
      command. */
  lemma ArgumentComesBack(img: Image, m: Machine, count: nat, s: SysCall, ss: seq<SysCall>,
                          name: seq<Byte>, arg: seq<Byte>, rest: seq<Byte>, args: SysCall)
    requires Loadable(img) && m.Valid() && Agree(m) && Fits(s) && s.Spawn? && s.command == name + [SPACE] + arg + rest
    requires |name| + |arg| + 1 < KBD_BUF_SIZE <= |name| + |arg| + 1 + |rest| && rest != []
    requires rest[0] == NEWLINE || rest[0] == SPACE || rest[0] == NUL
    requires forall c :: c in name + arg ==> c != NEWLINE && c != SPACE && c != NUL
    requires ExecOutcome(img, name + [NUL], Total(m), s.stack) == Launched
    requires AllFit(ss) && Agree(RunOn(img, StepOn(img, m, s), ss)) && Lives(img, StepOn(img, m, s), ss, m.active + 1)
    requires RunOn(img, StepOn(img, m, s), ss).active == m.active + 1
    requires count <= img.entries && Fits(args) && args.Args?
    ensures ReplyOn(img, RunOn(img, StepOn(img, m, s), ss), count, args) ==
            if arg != [] && args.room >= |arg| + 1 then Reply(0, arg) else Reply(-1, [])
  {
    var p, m1 := m.active + 1, StepOn(img, m, s);
    AgreeActive(m);
    CommandRoundTrip(name, arg, rest, m.active);
    BornWithArgument(img, m, s);
    BirthIsKept(img, m1, ss, p);
  }

  /** So, on every image whose shell is a program, a shell launched as "shell x" by the first
      shell gets "x" from getargs. */
  lemma ShellGetsArgument(img: Image, m: Machine, t: int, esp: int, stack: seq<Byte>, rest: seq<Byte>)
    requires Loadable(img) && NamesProgram(img, SHELL) && PowerOn(m) && 0 <= t < TERMS
    requires |stack| == 4 && |rest| >= KBD_BUF_SIZE && rest[0] == NEWLINE
    ensures
      var command: seq<Byte> := SHELL[..5] + [SPACE] + [120] + rest;
      var m1 := FirstShell(m, t, esp);
      && Agree(m1) && Fits(Spawn(t, 0, command, stack))
      && var m2 := StepOn(img, m1, Spawn(t, 0, command, stack));
         Agree(m2) && ReplyOn(img, m2, 0, Args(0, 2)) == Reply(0, [120])
  {
    hide ExecOutcome, NamesProgram, StepOn, Agree, ReplyOn, RunOn, FirstShell, Word, ProgramName;
    var name, arg: seq<Byte> := SHELL[..5], [120];
    var command := name + [SPACE] + arg + rest;
    var m1, s := FirstShell(m, t, esp), Spawn(t, 0, command, stack);
    FirstShellAgrees(m, t, esp);
    OneProgram(m, t, esp);
    CommandRoundTrip(name, arg, rest, 0);
    ShortName(command, name);
    assert name + [NUL] == SHELL;
    LaunchedExactly(img, SHELL, Total(m1));
    assert ExecOutcome(img, SHELL, Total(m1), stack) == Launched;
    BornWithArgument(img, m1, s);
    var m2 := StepOn(img, m1, s);
    NothingYet(img, m2, 0);
    ArgumentComesBack(img, m1, 0, s, [], name, arg, rest, Args(0, 2));
  }

  lemma OneProgram(m: Machine, t: int, esp: int)
    requires PowerOn(m) && 0 <= t < TERMS
    ensures Total(FirstShell(m, t, esp)) == 1
  {
  }

  lemma ShortName(command: seq<Byte>, name: seq<Byte>)
    requires |command| >= KBD_BUF_SIZE && ProgramName(command) == name + [NUL] && |name| < KBD_BUF_SIZE
    ensures IsCommand(command)
  {
    assert |ProgramName(command)| == |Word(command, 0)| + 1;
  }

  lemma BornWithArgument(img: Image, m: Machine, s: SysCall)
    requires Loadable(img) && Agree(m) && Fits(s) && s.Spawn?
    requires ExecOutcome(img, ProgramName(s.command), Total(m), s.stack) == Launched
    ensures
      var r := StepOn(img, m, s);
      Agree(r) && r.active == m.active + 1 < MAX_PROGRAMS && r.pcbs[r.active].arg == ArgField(s.command, m.active)
  {
    hide ExecOutcome, ArgField, ProgramName;
    StepOnAgrees(img, m, s);
    StepOnSpawn(img, m, s);
    SpawnLoads(img, m, s);
  }

  lemma SpawnLoads(img: Image, m: Machine, s: SysCall)
    requires Loadable(img) && m.Valid() && Fits(s) && s.Spawn?
    requires ExecOutcome(img, ProgramName(s.command), Total(m), s.stack) == Launched
    ensures !BreaksOn(img, m, s)
  {
  }
}
