/** Sequential reads through a descriptor: fs_file_read of filesystem.c. */
module FileReads {
  import opened Bytes
  import opened FileSystem

  /** Result of fs_file_read at a descriptor offset, which is an int32_t read as uint32_t. */
  ghost function FileResult(img: Image, ino: Inode, offset: int, nbytes: nat): (r: int)
    ensures r >= -1
  {
    ReadResult(img, ino, offset % UINT32, nbytes)
  }

  /** The bytes that read delivers; the last test never fails, see PieceLength. */
  ghost function Piece(img: Image, ino: Inode, offset: int, nbytes: nat): seq<Byte>
    requires |img.data| == FOUR_KB * img.dataCount
  {
    var n := FileResult(img, ino, offset, nbytes);
    if n <= 0 || offset % UINT32 + n > ino.length then []
    else Gathered(Contents(img, ino), offset % UINT32, n, false)
  }

  lemma PieceLength(img: Image, ino: Inode, offset: int, nbytes: nat)
    requires |img.data| == FOUR_KB * img.dataCount && InodeShape(ino) && nbytes < UINT32
    ensures var n := FileResult(img, ino, offset, nbytes); |Piece(img, ino, offset, nbytes)| == if n < 0 then 0 else n
  {
    if offset % UINT32 <= ino.length {
      LeftFits(ino.length, offset % UINT32, nbytes);
    }
  }

  /** The descriptor offset after reads of the given sizes, and all that they deliver. */
  ghost function OffsetAfter(img: Image, ino: Inode, offset: int, sizes: seq<nat>): int
    decreases |sizes|
  {
    if sizes == [] then offset
    else OffsetAfter(img, ino, offset + FileResult(img, ino, offset, sizes[0]), sizes[1..])
  }

  /** Sizes that a program can pass to read. */
  ghost predicate Requests(sizes: seq<nat>) {
    forall n :: n in sizes ==> n < UINT32 / 2
  }

  ghost function Delivered(img: Image, ino: Inode, offset: int, sizes: seq<nat>): seq<Byte>
    requires |img.data| == FOUR_KB * img.dataCount
    decreases |sizes|
  {
    if sizes == [] then []
    else
      Piece(img, ino, offset, sizes[0]) +
      Delivered(img, ino, offset + FileResult(img, ino, offset, sizes[0]), sizes[1..])
  }

  /** What the reads return, one by one. */
  ghost function Results(img: Image, ino: Inode, offset: int, sizes: seq<nat>): seq<int>
    decreases |sizes|
  {
    if sizes == [] then []
    else
      var r := FileResult(img, ino, offset, sizes[0]);
      [r] + Results(img, ino, offset + r, sizes[1..])
  }

  lemma RequestsTail(sizes: seq<nat>)
    requires Requests(sizes) && sizes != []
    ensures sizes[0] < UINT32 / 2 && Requests(sizes[1..])
  {
    assert sizes[0] in sizes && forall n :: n in sizes[1..] ==> n in sizes;
  }

  function Sum(sizes: seq<nat>): nat {
    if sizes == [] then 0 else sizes[0] + Sum(sizes[1..])
  }

  function Min(a: int, b: int): int {
    if a < b then a else b
  }

  /** Requests without a zero. */
  ghost predicate Positive(sizes: seq<nat>) {
    Requests(sizes) && 0 !in sizes
  }

  lemma PositiveTail(sizes: seq<nat>)
    requires Positive(sizes) && sizes != []
    ensures 0 < sizes[0] < UINT32 / 2 && Positive(sizes[1..])
  {
    RequestsTail(sizes);
    assert sizes[0] in sizes && forall n :: n in sizes[1..] ==> n in sizes;
  }

  lemma OneFileRead(img: Image, ino: Inode, offset: nat, n: nat)
    requires WellFormed(img, ino) && offset <= ino.length && 0 < n < UINT32 / 2
    ensures FileResult(img, ino, offset, n) == Min(n, ino.length - offset)
  {
    assert offset % UINT32 == offset;
    ReadNeverFails(img, ino, offset, n);
  }

  // ----- the offset and the bytes delivered -----

  /** How many of the reads fail; each takes one off the offset and delivers nothing. */
  ghost function Failures(img: Image, ino: Inode, offset: int, sizes: seq<nat>): nat
    decreases |sizes|
  {
    if sizes == [] then 0
    else
      var r := FileResult(img, ino, offset, sizes[0]);
      (if r == -1 then 1 else 0) + Failures(img, ino, offset + r, sizes[1..])
  }

  lemma {:induction false} OffsetStep(img: Image, ino: Inode, offset: int, sizes: seq<nat>)
    requires sizes != []
    ensures OffsetAfter(img, ino, offset, sizes) ==
            OffsetAfter(img, ino, offset + FileResult(img, ino, offset, sizes[0]), sizes[1..])
    ensures Failures(img, ino, offset, sizes) ==
            (if FileResult(img, ino, offset, sizes[0]) == -1 then 1 else 0) +
            Failures(img, ino, offset + FileResult(img, ino, offset, sizes[0]), sizes[1..])
  {
  }

  lemma {:induction false} DeliveredStep(img: Image, ino: Inode, offset: int, sizes: seq<nat>)
    requires sizes != [] && |img.data| == FOUR_KB * img.dataCount
    ensures Delivered(img, ino, offset, sizes) ==
            Piece(img, ino, offset, sizes[0]) +
            Delivered(img, ino, offset + FileResult(img, ino, offset, sizes[0]), sizes[1..])
  {
    hide Piece, FileResult;
  }

  lemma {:induction false} ResultsStep(img: Image, ino: Inode, offset: int, sizes: seq<nat>)
    requires sizes != []
    ensures Results(img, ino, offset, sizes) ==
            [FileResult(img, ino, offset, sizes[0])] +
            Results(img, ino, offset + FileResult(img, ino, offset, sizes[0]), sizes[1..])
  {
  }

  /** One more read at the end. */
  lemma {:induction false} ReadsExtend(img: Image, ino: Inode, offset: int, sizes: seq<nat>, more: nat)
    requires |img.data| == FOUR_KB * img.dataCount
    ensures
      var end := OffsetAfter(img, ino, offset, sizes);
      && OffsetAfter(img, ino, offset, sizes + [more]) == end + FileResult(img, ino, end, more)
      && Results(img, ino, offset, sizes + [more]) ==
         Results(img, ino, offset, sizes) + [FileResult(img, ino, end, more)]
      && Delivered(img, ino, offset, sizes + [more]) ==
         Delivered(img, ino, offset, sizes) + Piece(img, ino, end, more)
    decreases |sizes|
  {
    hide FileResult, Piece;
    var all := sizes + [more];
    OffsetStep(img, ino, offset, all);
    ResultsStep(img, ino, offset, all);
    DeliveredStep(img, ino, offset, all);
    if sizes == [] {
      assert all[1..] == [];
      assert Piece(img, ino, offset, more) + [] == [] + Piece(img, ino, offset, more);
    } else {
      assert all[1..] == sizes[1..] + [more] && all[0] == sizes[0];
      var next := offset + FileResult(img, ino, offset, sizes[0]);
      ReadsExtend(img, ino, next, sizes[1..], more);
      OffsetStep(img, ino, offset, sizes);
      ResultsStep(img, ino, offset, sizes);
      DeliveredStep(img, ino, offset, sizes);
    }
  }

  lemma {:induction false} OffsetDrift(img: Image, ino: Inode, offset: int, sizes: seq<nat>)
    requires |img.data| == FOUR_KB * img.dataCount && InodeShape(ino) && Requests(sizes)
    ensures OffsetAfter(img, ino, offset, sizes) ==
            offset + |Delivered(img, ino, offset, sizes)| - Failures(img, ino, offset, sizes)
    decreases |sizes|
  {
    hide FileResult, Piece;
    if sizes != [] {
      RequestsTail(sizes);
      PieceLength(img, ino, offset, sizes[0]);
      DeliveredStep(img, ino, offset, sizes);
      OffsetStep(img, ino, offset, sizes);
      OffsetDrift(img, ino, offset + FileResult(img, ino, offset, sizes[0]), sizes[1..]);
    }
  }

  lemma {:induction false} ZeroFails(img: Image, ino: Inode, offset: int, sizes: seq<nat>)
    requires 0 in sizes
    ensures Failures(img, ino, offset, sizes) > 0
    decreases |sizes|
  {
    if sizes[0] != 0 {
      assert sizes == [sizes[0]] + sizes[1..];
      ZeroFails(img, ino, offset + FileResult(img, ino, offset, sizes[0]), sizes[1..]);
    }
  }

  lemma {:induction false} PositiveNeverFails(img: Image, ino: Inode, offset: nat, sizes: seq<nat>)
    requires WellFormed(img, ino) && offset <= ino.length && Positive(sizes)
    ensures Failures(img, ino, offset, sizes) == 0
    decreases |sizes|
  {
    if sizes != [] {
      PositiveTail(sizes);
      OneFileRead(img, ino, offset, sizes[0]);
      PositiveNeverFails(img, ino, offset + FileResult(img, ino, offset, sizes[0]), sizes[1..]);
    }
  }

  /** From any offset inside a well-formed file, the final offset is the start plus the
      bytes delivered exactly when no read of the run has size 0. */
  lemma OffsetCountsBytesExactly(img: Image, ino: Inode, offset: nat, sizes: seq<nat>)
    requires |img.data| == FOUR_KB * img.dataCount && WellFormed(img, ino) && offset <= ino.length && Requests(sizes)
    ensures OffsetAfter(img, ino, offset, sizes) == offset + |Delivered(img, ino, offset, sizes)| <==> 0 !in sizes
  {
    OffsetDrift(img, ino, offset, sizes);
    if 0 in sizes {
      ZeroFails(img, ino, offset, sizes);
    } else {
      PositiveNeverFails(img, ino, offset, sizes);
    }
  }

  /** A read of size 0 steps the offset back one byte, so the reads behind it start over
      from there. */
  lemma {:induction false} ZeroReadStepsBack(img: Image, ino: Inode, offset: int, sizes: seq<nat>)
    requires |img.data| == FOUR_KB * img.dataCount
    ensures FileResult(img, ino, offset, 0) == -1
    ensures OffsetAfter(img, ino, offset, [0] + sizes) == OffsetAfter(img, ino, offset - 1, sizes)
    ensures Delivered(img, ino, offset, [0] + sizes) == Delivered(img, ino, offset - 1, sizes)
  {
    assert ([0] + sizes)[1..] == sizes;
  }

  /** Over any reads of positive sizes the offset advances by what is asked for until the
      end of the file, and a read there returns 0. */
  lemma {:induction false} OffsetStopsAtEnd(img: Image, ino: Inode, offset: nat, sizes: seq<nat>, more: nat)
    requires WellFormed(img, ino) && offset <= ino.length && Positive(sizes) && 0 < more < UINT32 / 2
    ensures OffsetAfter(img, ino, offset, sizes) == Min(offset + Sum(sizes), ino.length)
    ensures FileResult(img, ino, OffsetAfter(img, ino, offset, sizes), more) == 0 <==>
            offset + Sum(sizes) >= ino.length
    decreases |sizes|
  {
    if sizes == [] {
      OneFileRead(img, ino, offset, more);
    } else {
      PositiveTail(sizes);
      OneFileRead(img, ino, offset, sizes[0]);
      OffsetStopsAtEnd(img, ino, offset + FileResult(img, ino, offset, sizes[0]), sizes[1..], more);
    }
  }

  // ----- when the bytes delivered are the file's -----

  /** The same bytes from the contents and positive sizes alone. */
  function Pieces(content: seq<Byte>, offset: nat, sizes: seq<nat>): (r: seq<Byte>)
    requires offset <= |content|
    ensures |r| == Min(offset + Sum(sizes), |content|) - offset
    decreases |sizes|
  {
    if sizes == [] then []
    else
      var n := Min(sizes[0], |content| - offset);
      Gathered(content, offset, n, false) + Pieces(content, offset + n, sizes[1..])
  }

  lemma OnePiece(img: Image, ino: Inode, offset: nat, size: nat) returns (n: nat)
    requires |img.data| == FOUR_KB * img.dataCount && WellFormed(img, ino) && offset <= ino.length
    requires 0 < size < UINT32 / 2
    ensures n == Min(size, ino.length - offset) && FileResult(img, ino, offset, size) == n
    ensures Piece(img, ino, offset, size) == Gathered(Contents(img, ino), offset, n, false)
  {
    OneFileRead(img, ino, offset, size);
    n := Min(size, ino.length - offset);
    assert offset % UINT32 == offset;
  }

  lemma {:induction false} DeliveredIsPieces(img: Image, ino: Inode, offset: nat, sizes: seq<nat>)
    requires |img.data| == FOUR_KB * img.dataCount && WellFormed(img, ino) && offset <= ino.length && Positive(sizes)
    ensures Delivered(img, ino, offset, sizes) == Pieces(Contents(img, ino), offset, sizes)
    decreases |sizes|
  {
    hide FileResult, Piece, Gathered, Contents;
    if sizes != [] {
      PositiveTail(sizes);
      var n := OnePiece(img, ino, offset, sizes[0]);
      DeliveredStep(img, ino, offset, sizes);
      DeliveredIsPieces(img, ino, offset + n, sizes[1..]);
      PiecesStep(Contents(img, ino), offset, sizes);
    }
  }

  lemma {:induction false} PiecesStep(content: seq<Byte>, offset: nat, sizes: seq<nat>)
    requires offset <= |content| && sizes != []
    ensures Pieces(content, offset, sizes) ==
            Gathered(content, offset, Min(sizes[0], |content| - offset), false) +
            Pieces(content, offset + Min(sizes[0], |content| - offset), sizes[1..])
  {
  }

  /** The pieces are the bytes of the contents from `offset` on. */
  ghost predicate RightPieces(content: seq<Byte>, offset: nat, sizes: seq<nat>)
    requires offset <= |content|
  {
    Pieces(content, offset, sizes) == content[offset..Min(offset + Sum(sizes), |content|)]
  }

  /** The run delivers the bytes of the file from `offset` on. */
  ghost predicate RightRun(img: Image, ino: Inode, offset: nat, sizes: seq<nat>)
    requires OnImage(img, ino) && offset <= ino.length
  {
    Delivered(img, ino, offset, sizes) == Contents(img, ino)[offset..Min(offset + Sum(sizes), ino.length)]
  }

  /** Every read of the run is clean; which reads are depends on the file size alone. */
  predicate CleanRun(size: nat, offset: nat, sizes: seq<nat>)
    requires offset <= size
    decreases |sizes|
  {
    sizes == [] ||
    var n := Min(sizes[0], size - offset);
    Clean(offset, n) && CleanRun(size, offset + n, sizes[1..])
  }

  lemma {:induction false} CleanRunDelivers(content: seq<Byte>, offset: nat, sizes: seq<nat>)
    requires offset <= |content| && CleanRun(|content|, offset, sizes)
    ensures RightPieces(content, offset, sizes)
    decreases |sizes|
  {
    if sizes != [] {
      var n := Min(sizes[0], |content| - offset);
      CleanGathers(content, offset, n);
      CleanRunDelivers(content, offset + n, sizes[1..]);
    }
  }

  lemma Halves(a: seq<Byte>, b: seq<Byte>, content: seq<Byte>, lo: nat, hi: nat)
    requires lo + |a| <= hi <= |content| && a + b == content[lo..hi]
    ensures a == content[lo..lo + |a|] && b == content[lo + |a|..hi]
  {
    assert a == (a + b)[..|a|] && b == (a + b)[|a|..];
  }

  /** A run is right only if its first read and the rest of it are. */
  lemma RightPiecesSplit(content: seq<Byte>, offset: nat, sizes: seq<nat>, n: nat)
    requires offset <= |content| && sizes != [] && n == Min(sizes[0], |content| - offset)
    requires RightPieces(content, offset, sizes)
    ensures Gathered(content, offset, n, false) == content[offset..offset + n]
    ensures RightPieces(content, offset + n, sizes[1..])
  {
    var first, rest := Gathered(content, offset, n, false), Pieces(content, offset + n, sizes[1..]);
    assert Pieces(content, offset, sizes) == first + rest;
    assert Min(offset + Sum(sizes), |content|) == Min(offset + n + Sum(sizes[1..]), |content|);
    Halves(first, rest, content, offset, Min(offset + Sum(sizes), |content|));
  }

  lemma FirstReadDiffers(size: nat, offset: nat, sizes: seq<nat>, n: nat)
    requires offset <= size && sizes != [] && n == Min(sizes[0], size - offset) && !Clean(offset, n)
    ensures offset < size && !RightPieces(Marked(size, offset), offset, sizes)
  {
    UncleanDiffers(size, offset, n);
    if RightPieces(Marked(size, offset), offset, sizes) {
      RightPiecesSplit(Marked(size, offset), offset, sizes, n);
      assert false;
    }
  }

  /** A run with an unclean read is wrong for some file of that size. */
  lemma {:induction false} UncleanRunDiffers(size: nat, offset: nat, sizes: seq<nat>) returns (content: seq<Byte>)
    requires offset <= size && !CleanRun(size, offset, sizes)
    ensures |content| == size && !RightPieces(content, offset, sizes)
    decreases |sizes|
  {
    var n := Min(sizes[0], size - offset);
    if !Clean(offset, n) {
      FirstReadDiffers(size, offset, sizes, n);
      content := Marked(size, offset);
    } else {
      assert !CleanRun(size, offset + n, sizes[1..]);
      content := UncleanRunDiffers(size, offset + n, sizes[1..]);
      if RightPieces(content, offset, sizes) {
        RightPiecesSplit(content, offset, sizes, n);
        assert false;
      }
    }
  }

  /** As written, a run of reads of positive sizes is right for every file of a size exactly
      when each of its reads is clean. */
  lemma RunRightExactlyWhenClean(size: nat, offset: nat, sizes: seq<nat>)
    requires offset <= size < BLOCK_SLOTS * FOUR_KB && Positive(sizes)
    ensures (forall img: Image, ino: Inode :: OnImage(img, ino) && ino.length == size ==>
              RightRun(img, ino, offset, sizes)) <==> CleanRun(size, offset, sizes)
  {
    if CleanRun(size, offset, sizes) {
      forall img: Image, ino: Inode | OnImage(img, ino) && ino.length == size
        ensures RightRun(img, ino, offset, sizes)
      {
        DeliveredIsPieces(img, ino, offset, sizes);
        CleanRunDelivers(Contents(img, ino), offset, sizes);
      }
    } else {
      var content := UncleanRunDiffers(size, offset, sizes);
      var img := ImageOf(content, Repeat(NUL, FILENAME_LEN));
      DeliveredIsPieces(img, img.inodes[0], offset, sizes);
      assert OnImage(img, img.inodes[0]) && !RightRun(img, img.inodes[0], offset, sizes);
    }
  }

  /** Reads whose sizes are whole blocks are clean from any block boundary on. */
  lemma {:induction false} BlockSizedRunIsClean(size: nat, offset: nat, sizes: seq<nat>)
    requires offset <= size && (offset % FOUR_KB == 0 || offset == size)
    requires forall n :: n in sizes ==> n % FOUR_KB == 0
    ensures CleanRun(size, offset, sizes)
    decreases |sizes|
  {
    if sizes != [] {
      assert sizes[0] in sizes && forall m :: m in sizes[1..] ==> m in sizes;
      BlockSizedRunIsClean(size, offset + Min(sizes[0], size - offset), sizes[1..]);
    }
  }

  /** A file read from the start in block-sized pieces until the first 0 comes back whole. */
  lemma WholeFile(img: Image, ino: Inode, sizes: seq<nat>, more: nat)
    requires |img.data| == FOUR_KB * img.dataCount && WellFormed(img, ino)
    requires Positive(sizes) && 0 < more < UINT32 / 2
    requires forall n :: n in sizes ==> n % FOUR_KB == 0
    requires FileResult(img, ino, OffsetAfter(img, ino, 0, sizes), more) == 0
    ensures Delivered(img, ino, 0, sizes) == Contents(img, ino)
  {
    DeliveredIsPieces(img, ino, 0, sizes);
    OffsetStopsAtEnd(img, ino, 0, sizes, more);
    BlockSizedRunIsClean(ino.length, 0, sizes);
    CleanRunDelivers(Contents(img, ino), 0, sizes);
  }

  lemma {:induction false} DeadDescriptor(img: Image, ino: Inode, offset: int, sizes: seq<nat>)
    requires InodeShape(ino) && -UINT32 / 2 < offset - |sizes| && offset < 0
    ensures OffsetAfter(img, ino, offset, sizes) == offset - |sizes|
    decreases |sizes|
  {
    if sizes != [] {
      assert offset % UINT32 == offset + UINT32;
      DeadDescriptor(img, ino, offset - 1, sizes[1..]);
    }
  }

  /** A read of size zero at the start of a file fails and makes every later read fail:
      each one takes another byte off the offset. */
  lemma ZeroReadKillsDescriptor(img: Image, ino: Inode, sizes: seq<nat>)
    requires InodeShape(ino) && |sizes| < UINT32 / 4
    ensures FileResult(img, ino, 0, 0) == -1
    ensures OffsetAfter(img, ino, 0, [0] + sizes) == -1 - |sizes|
  {
    assert ([0] + sizes)[1..] == sizes;
    DeadDescriptor(img, ino, -1, sizes);
  }
}
