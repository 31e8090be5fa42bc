/** The code of filesystem.c over a mounted image. */
module Volume {
  import opened Bytes
  import opened Options
  import opened Memory
  import opened FileSystem
  import opened Directory

  /** strncmp's result type is a difference of signed characters. */
  function Signed(b: Byte): int {
    if b < 128 then b else b - 256
  }

  /** strncmp over 32 bytes: 0 exactly when the names are the same, otherwise the difference
      of the first characters that differ, as signed characters. */
  method StrNCmp(s1: seq<Byte>, s2: seq<Byte>) returns (r: int)
    requires |s1| == FILENAME_LEN && (NUL in s2 || |s2| >= FILENAME_LEN)
    ensures r == 0 <==> NameOf(s1) == NameOf(s2)
    ensures r != 0 ==> exists i: nat ::
      && i < FILENAME_LEN && i < |s2| && s1[..i] == s2[..i] && NUL !in s1[..i]
      && s1[i] != s2[i] && r == Signed(s1[i]) - Signed(s2[i])
  {
    var i := 0;
    while i < FILENAME_LEN
      invariant 0 <= i <= FILENAME_LEN && i <= |s2|
      invariant s1[..i] == s2[..i] && NUL !in s1[..i]
    {
      if s1[i] != s2[i] || s1[i] == NUL {
        NamesFrom(s1, s2, i);
        return Signed(s1[i]) - Signed(s2[i]);
      }
      i := i + 1;
    }
    StrLenUnique(s1, FILENAME_LEN);
    StrLenUnique(s2[..FILENAME_LEN], FILENAME_LEN);
    assert s1[..FILENAME_LEN] == s1;
    return 0;
  }

  lemma NamesFrom(s1: seq<Byte>, s2: seq<Byte>, i: nat)
    requires i < FILENAME_LEN == |s1| && i < |s2|
    requires s1[..i] == s2[..i] && NUL !in s1[..i] && (s1[i] != s2[i] || s1[i] == NUL)
    ensures NameOf(s1) == NameOf(s2) <==> s1[i] == s2[i]
  {
    var f := if |s2| <= FILENAME_LEN then s2 else s2[..FILENAME_LEN];
    assert f[..i] == s1[..i] && f[i] == s2[i];
    assert forall k :: 0 <= k < i ==> s1[k] == s1[..i][k] && f[k] == s1[..i][k];
    if s1[i] == s2[i] {
      StrLenUnique(s1, i);
      StrLenUnique(f, i);
    }
  }

  lemma BlockByte(img: Image, ino: Inode, i: nat, pos: nat)
    requires |img.data| == FOUR_KB * img.dataCount && BlockOk(img, ino, i)
    requires pos < FOUR_KB && FOUR_KB * i + pos < ino.length
    ensures Contents(img, ino)[FOUR_KB * i + pos] == img.data[FOUR_KB * ino.blocks[i] + pos]
  {
    assert (FOUR_KB * i + pos) / FOUR_KB == i && (FOUR_KB * i + pos) % FOUR_KB == pos;
  }

  /** Where a chunk ends and what it starts from, as the two branches of the loop have it. */
  function ChunkLen(left: nat, done: nat, pos: nat): int {
    if left - done + pos < FOUR_KB then left - done else FOUR_KB - pos
  }

  function ChunkFrom(left: nat, done: nat, pos: nat, addsPos: bool): nat {
    if left - done + pos < FOUR_KB || addsPos then pos else 0
  }

  /** A chunk comes from consecutive positions, those the branches of the loop compute. */
  lemma ChunkPos(offset: nat, left: nat, done: nat, addsPos: bool, k: nat)
    requires done <= left && (done > 0 ==> (offset + done) % FOUR_KB == 0 && offset % FOUR_KB + left >= FOUR_KB)
    requires k < ChunkLen(left, done, (offset + done) % FOUR_KB)
    ensures
      var pos := (offset + done) % FOUR_KB;
      && done + k < left && ChunkFrom(left, done, pos, addsPos) + k < FOUR_KB
      && SourcePos(offset, left, done + k, addsPos) ==
         FOUR_KB * ((offset + done) / FOUR_KB) + ChunkFrom(left, done, pos, addsPos) + k
  {
    if done > 0 {
      assert offset + done >= offset - offset % FOUR_KB + FOUR_KB;
    }
  }

  /** The next chunk of `all` is on the disk where the loop looks for it. */
  ghost predicate NextChunk(img: Image, ino: Inode, offset: nat, done: nat, addsPos: bool, all: seq<Byte>)
    requires |img.data| == FOUR_KB * img.dataCount && BlockOk(img, ino, (offset + done) / FOUR_KB)
  {
    var pos := (offset + done) % FOUR_KB;
    var n, from := ChunkLen(|all|, done, pos), ChunkFrom(|all|, done, pos, addsPos);
    var src := FOUR_KB * ino.blocks[(offset + done) / FOUR_KB] + from;
    0 <= n && done + n <= |all| && from + n <= FOUR_KB && all[done..done + n] == img.data[src..src + n]
  }

  lemma ChunkByte(img: Image, ino: Inode, offset: nat, left: nat, done: nat, addsPos: bool, k: nat)
    requires |img.data| == FOUR_KB * img.dataCount && offset + left <= ino.length && done <= left
    requires done > 0 ==> (offset + done) % FOUR_KB == 0 && offset % FOUR_KB + left >= FOUR_KB
    requires BlockOk(img, ino, (offset + done) / FOUR_KB) && k < ChunkLen(left, done, (offset + done) % FOUR_KB)
    ensures
      var from := ChunkFrom(left, done, (offset + done) % FOUR_KB, addsPos);
      && done + k < left && from + k < FOUR_KB
      && Gathered(Contents(img, ino), offset, left, addsPos)[done + k] ==
         img.data[FOUR_KB * ino.blocks[(offset + done) / FOUR_KB] + from + k]
  {
    ChunkPos(offset, left, done, addsPos, k);
    BlockByte(img, ino, (offset + done) / FOUR_KB, ChunkFrom(left, done, (offset + done) % FOUR_KB, addsPos) + k);
  }

  lemma ChunkBounds(left: nat, done: nat, pos: nat, addsPos: bool)
    requires done <= left && pos < FOUR_KB
    ensures 0 <= ChunkLen(left, done, pos) <= left - done
    ensures ChunkFrom(left, done, pos, addsPos) + ChunkLen(left, done, pos) <= FOUR_KB
  {
  }

  lemma ChunkOnDisk(img: Image, ino: Inode, offset: nat, left: nat, done: nat, addsPos: bool)
    requires |img.data| == FOUR_KB * img.dataCount && offset + left <= ino.length && done <= left
    requires done > 0 ==> (offset + done) % FOUR_KB == 0 && offset % FOUR_KB + left >= FOUR_KB
    requires BlockOk(img, ino, (offset + done) / FOUR_KB)
    ensures NextChunk(img, ino, offset, done, addsPos, Gathered(Contents(img, ino), offset, left, addsPos))
  {
    hide Gathered, Contents, FlatByte, SourcePos;
    var pos := (offset + done) % FOUR_KB;
    ChunkBounds(left, done, pos, addsPos);
    var n, from := ChunkLen(left, done, pos), ChunkFrom(left, done, pos, addsPos);
    var src := FOUR_KB * ino.blocks[(offset + done) / FOUR_KB] + from;
    var all := Gathered(Contents(img, ino), offset, left, addsPos);
    var mine, theirs := all[done..done + n], img.data[src..src + n];
    forall k: nat | k < n
      ensures mine[k] == theirs[k]
    {
      ChunkByte(img, ino, offset, left, done, addsPos, k);
    }
    assert mine == theirs;
  }

  /** The first bad block number from `from` on, or the one behind `upTo`. */
  ghost function FirstBad(img: Image, ino: Inode, from: nat, upTo: nat): (i: nat)
    ensures from <= i && (from <= upTo + 1 ==> i <= upTo + 1)
    ensures forall k: nat :: from <= k < i ==> BlockOk(img, ino, k)
    ensures i <= upTo ==> !BlockOk(img, ino, i)
    decreases upTo + 1 - from
  {
    if from > upTo || !BlockOk(img, ino, from) then from else FirstBad(img, ino, from + 1, upTo)
  }

  /** How many of the `left` bytes are in the buffer when the loop ends: those before the
      first bad block. */
  ghost function Copied(img: Image, ino: Inode, offset: nat, left: nat): (n: nat)
    ensures n <= left
  {
    var i := FirstBad(img, ino, offset / FOUR_KB, (offset + left) / FOUR_KB);
    if i > (offset + left) / FOUR_KB then left
    else if FOUR_KB * i <= offset then 0
    else FOUR_KB * i - offset
  }

  /** They are the longest part of the request whose bytes are all in good blocks. */
  lemma CopiedExactly(img: Image, ino: Inode, offset: nat, left: nat)
    ensures HoldersOk(img, ino, offset, Copied(img, ino, offset, left))
    ensures Copied(img, ino, offset, left) < left ==>
      !BlockOk(img, ino, (offset + Copied(img, ino, offset, left)) / FOUR_KB)
  {
    var i := FirstBad(img, ino, offset / FOUR_KB, (offset + left) / FOUR_KB);
    var n := Copied(img, ino, offset, left);
    forall p: nat | offset <= p < offset + n
      ensures BlockOk(img, ino, p / FOUR_KB)
    {
      assert offset / FOUR_KB <= p / FOUR_KB < i;
    }
  }

  /** The buffer after a read: those bytes, and everything else as before. */
  ghost predicate Fetched(now: seq<Byte>, was: seq<Byte>, at: nat, all: seq<Byte>, n: nat) {
    n <= |all| && Patched(now, was, at, all[..n])
  }

  /** A read of no bytes copies none. */
  lemma NothingCopied(img: Image, ino: Inode, offset: nat, buf: seq<Byte>, at: nat, all: seq<Byte>)
    requires at <= |buf| && all == []
    ensures Fetched(buf, buf, at, all, Copied(img, ino, offset, 0))
  {
    assert all[..0] == [];
  }

  /** A chunk ends the read inside its block or ends its block. */
  lemma ChunkEnd(offset: nat, left: nat, done: nat)
    requires done <= left
    ensures
      var pos := (offset + done) % FOUR_KB;
      var next := done + ChunkLen(left, done, pos);
      if left - done + pos < FOUR_KB then next == left && (offset + next) / FOUR_KB == (offset + done) / FOUR_KB
      else done < next && (offset + next) % FOUR_KB == 0 && (offset + next) / FOUR_KB == (offset + done) / FOUR_KB + 1
  {
  }

  lemma PatchGrows(b0: seq<Byte>, b1: seq<Byte>, b2: seq<Byte>, at: nat, all: seq<Byte>, m: nat, n: nat)
    requires m <= n <= |all| && at + n <= |b0|
    requires Patched(b1, b0, at, all[..m]) && b2 == Patch(b1, at + m, all[m..n])
    ensures Patched(b2, b0, at, all[..n])
  {
  }

  /** The state of the loop after `done` of the `left` bytes of `all`. */
  ghost predicate Reading(img: Image, ino: Inode, offset: nat, all: seq<Byte>, done: int,
                          was: seq<Byte>, now: seq<Byte>, at: nat)
  {
    && 0 <= done <= |all|
    && (done > 0 ==> (offset + done) % FOUR_KB == 0 && offset % FOUR_KB + |all| >= FOUR_KB)
    && BlocksOk(img, ino, offset / FOUR_KB, (offset + done) / FOUR_KB - 1)
    && Patched(now, was, at, all[..done])
  }

  /** What the loop leaves. */
  ghost predicate ReadDone(img: Image, ino: Inode, offset: nat, all: seq<Byte>, r: int,
                           was: seq<Byte>, now: seq<Byte>, at: nat)
  {
    && r == (if BlocksOk(img, ino, offset / FOUR_KB, (offset + |all|) / FOUR_KB) then |all| else -1)
    && Fetched(now, was, at, all, Copied(img, ino, offset, |all|))
  }

  /** One chunk copied: the read is over with all its blocks good, or the loop goes on. */
  lemma ReadingStep(img: Image, ino: Inode, offset: nat, all: seq<Byte>, done: nat,
                    b0: seq<Byte>, b1: seq<Byte>, b2: seq<Byte>, at: nat, next: nat)
    requires at + |all| <= |b0| && Reading(img, ino, offset, all, done, b0, b1, at)
    requires BlockOk(img, ino, (offset + done) / FOUR_KB)
    requires next == done + ChunkLen(|all|, done, (offset + done) % FOUR_KB) && done <= next <= |all|
    requires b2 == Patch(b1, at + done, all[done..next])
    ensures
      if |all| - done + (offset + done) % FOUR_KB < FOUR_KB
      then next == |all| && ReadDone(img, ino, offset, all, next, b0, b2, at)
      else done < next && Reading(img, ino, offset, all, next, b0, b2, at)
  {
    ChunkEnd(offset, |all|, done);
    PatchGrows(b0, b1, b2, at, all, done, next);
    if next == |all| {
      assert all[..next] == all;
    }
  }

  /** The same for a chunk that comes from the disk. */
  lemma TurnStep(img: Image, ino: Inode, offset: nat, all: seq<Byte>, done: nat, addsPos: bool,
                 b0: seq<Byte>, b1: seq<Byte>, b2: seq<Byte>, at: nat, next: nat, src: nat)
    requires at + |all| <= |b0| && Reading(img, ino, offset, all, done, b0, b1, at)
    requires |img.data| == FOUR_KB * img.dataCount && BlockOk(img, ino, (offset + done) / FOUR_KB)
    requires NextChunk(img, ino, offset, done, addsPos, all)
    requires next == done + ChunkLen(|all|, done, (offset + done) % FOUR_KB) && done <= next <= |all|
    requires src == FOUR_KB * ino.blocks[(offset + done) / FOUR_KB] +
                    ChunkFrom(|all|, done, (offset + done) % FOUR_KB, addsPos)
    requires src + (next - done) <= |img.data| && at + next <= |b1|
    requires b2 == Patch(b1, at + done, img.data[src..src + (next - done)])
    ensures
      if |all| - done + (offset + done) % FOUR_KB < FOUR_KB
      then next == |all| && ReadDone(img, ino, offset, all, next, b0, b2, at)
      else done < next && Reading(img, ino, offset, all, next, b0, b2, at)
  {
    hide Reading, ReadDone, Patch, ChunkLen, ChunkFrom;
    ReadingStep(img, ino, offset, all, done, b0, b1, b2, at, next);
  }

  /** A bad block number: the read fails with what was copied so far in the buffer. */
  lemma ReadingFails(img: Image, ino: Inode, offset: nat, all: seq<Byte>, done: nat,
                     was: seq<Byte>, now: seq<Byte>, at: nat)
    requires Reading(img, ino, offset, all, done, was, now, at)
    requires !BlockOk(img, ino, (offset + done) / FOUR_KB)
    ensures ReadDone(img, ino, offset, all, -1, was, now, at)
  {
  }

  class FileVolume {
    const entries: nat
    const dataCount: nat
    const dentries: seq<Dentry>
    const inodes: seq<Inode>
    const disk: array<Byte>
    /** The 64 bytes behind the boot block, read as an entry. */
    const beyond: Dentry
    /** The filename field of the static dentry_global. */
    const current: array<Byte>
    var dirCount: nat

    ghost function Value(): Image
      reads disk
    {
      Image(entries, dataCount, dentries, inodes, disk[..])
    }

    ghost predicate Valid()
      reads this, disk, current
    {
      && Shape(Value()) && |beyond.name| == FILENAME_LEN
      && dirCount <= entries && disk != current && current.Length == FILENAME_LEN
    }

    /** fs_init on an image already in memory. */
    constructor (entries: nat, dataCount: nat, dentries: seq<Dentry>, inodes: seq<Inode>, disk: array<Byte>,
                 beyond: Dentry)
      requires Shape(Image(entries, dataCount, dentries, inodes, disk[..])) && |beyond.name| == FILENAME_LEN
      ensures Valid() && dirCount == 0 && fresh(current)
      ensures Value() == Image(entries, dataCount, dentries, inodes, disk[..]) && this.disk == disk
    {
      this.entries, this.dataCount, this.dentries, this.inodes := entries, dataCount, dentries, inodes;
      this.disk, this.beyond := disk, beyond;
      current := new Byte[FILENAME_LEN];
      dirCount := 0;
    }

    /** One turn of read_data's loop once the block number is known to be good. `addsPos`
        says whether the whole-block copy starts at the in-block position; the source's
        does not. */
    method ReadChunk(block: nat, inBlkPos: nat, buf: array<Byte>, at: nat, left: nat, readByte: nat, addsPos: bool)
      returns (next: nat, last: bool)
      requires buf != disk && block + FOUR_KB <= disk.Length && inBlkPos < FOUR_KB
      requires readByte <= left && at + left <= buf.Length
      modifies buf
      ensures last == (left - readByte + inBlkPos < FOUR_KB)
      ensures next == readByte + ChunkLen(left, readByte, inBlkPos) <= left
      ensures
        var src := block + ChunkFrom(left, readByte, inBlkPos, addsPos);
        buf[..] == Patch(old(buf[..]), at + readByte, disk[src..src + (next - readByte)])
    {
      if left - readByte + inBlkPos < FOUR_KB {
        MemCpy(buf, 0, at + readByte, disk, block + inBlkPos, left - readByte);
        return left, true;
      } else {
        var elseByte := if FOUR_KB - inBlkPos > left - readByte then left - readByte else FOUR_KB - inBlkPos;
        MemCpy(buf, 0, at + readByte, disk, block + (if addsPos then inBlkPos else 0), elseByte);
        return readByte + elseByte, false;
      }
    }

    /** The same turn, seen from the loop: the read is done or goes on. */
    method ReadTurn(ino: Inode, offset: nat, buf: array<Byte>, at: nat, left: nat, readByte: nat, addsPos: bool,
                    ghost all: seq<Byte>, ghost was: seq<Byte>)
      returns (next: nat, last: bool)
      requires |disk[..]| == FOUR_KB * dataCount && readByte <= left == |all|
      requires buf != disk && at + left <= buf.Length == |was|
      requires Reading(Value(), ino, offset, all, readByte, was, buf[..], at)
      requires BlockOk(Value(), ino, (offset + readByte) / FOUR_KB)
      requires NextChunk(Value(), ino, offset, readByte, addsPos, all)
      modifies buf
      ensures last ==> next == left && ReadDone(Value(), ino, offset, all, next, was, buf[..], at)
      ensures !last ==> readByte < next <= left && Reading(Value(), ino, offset, all, next, was, buf[..], at)
    {
      hide Reading, ReadDone, NextChunk, Patch, ChunkLen, ChunkFrom;
      ghost var img, before := Value(), buf[..];
      var inBlkPos := (readByte + offset) % FOUR_KB;
      var block := FOUR_KB * ino.blocks[(readByte + offset) / FOUR_KB];
      ChunkBounds(left, readByte, inBlkPos, addsPos);
      next, last := ReadChunk(block, inBlkPos, buf, at, left, readByte, addsPos);
      ghost var src := block + ChunkFrom(left, readByte, inBlkPos, addsPos);
      assert img.data[src..src + (next - readByte)] == disk[src..src + (next - readByte)];
      TurnStep(img, ino, offset, all, readByte, addsPos, was, before, buf[..], at, next, src);
    }

    /** The loop of read_data, entered with a length that is not negative. */
    method ReadBlocks(ino: Inode, offset: nat, buf: array<Byte>, at: nat, left: nat, addsPos: bool) returns (r: int)
      requires Valid() && InodeShape(ino) && offset + left <= ino.length
      requires buf != disk && at + left <= buf.Length
      modifies buf
      ensures ReadDone(Value(), ino, offset, Gathered(Contents(Value(), ino), offset, left, addsPos), r,
                       old(buf[..]), buf[..], at)
    {
      ghost var img, b0 := Value(), buf[..];
      ghost var all := Gathered(Contents(img, ino), offset, left, addsPos);
      var readByte := 0;
      while readByte <= left
        invariant 0 <= readByte <= left && Value() == img
        invariant Reading(img, ino, offset, all, readByte, b0, buf[..], at)
        decreases left - readByte
      {
        var i := (readByte + offset) / FOUR_KB;
        if ino.blocks[i] < 0 || ino.blocks[i] >= dataCount {
          ReadingFails(img, ino, offset, all, readByte, b0, buf[..], at);
          return -1;
        }
        ChunkOnDisk(img, ino, offset, left, readByte, addsPos);
        var last;
        readByte, last := ReadTurn(ino, offset, buf, at, left, readByte, addsPos, all, b0);
        if last {
          break;
        }
      }
      return readByte;
    }

    /** read_data, with either form of the whole-block copy. The inode number is used
        unchecked. A null buffer is refused. */
    method ReadWith(inode: nat, offset: nat, buf: array?<Byte>, at: nat, length: nat, addsPos: bool) returns (r: int)
      requires Valid() && inode < |inodes| && offset < UINT32 && length < UINT32
      requires buf != null ==> buf != disk && at + Window(inodes[inode].length, offset, length) <= buf.Length
      modifies if buf == null then {} else {buf}
      ensures Value() == old(Value())
      ensures r == if buf == null then -1 else ReadResult(Value(), inodes[inode], offset, length)
      ensures buf != null && offset > inodes[inode].length ==> buf[..] == old(buf[..])
      ensures buf != null && offset <= inodes[inode].length ==>
        var n := Window(inodes[inode].length, offset, length);
        && offset + n <= inodes[inode].length && (r >= 0 ==> r == n == Copied(Value(), inodes[inode], offset, n))
        && Fetched(buf[..], old(buf[..]), at, Gathered(Contents(Value(), inodes[inode]), offset, n, addsPos),
                   Copied(Value(), inodes[inode], offset, n))
    {
      var ino := inodes[inode];
      assert ino in Value().inodes && InodeShape(ino);
      if length == 0 || buf == null || offset > ino.length {
        if buf != null && offset <= ino.length {
          NothingCopied(Value(), ino, offset, buf[..], at, Gathered(Contents(Value(), ino), offset, 0, addsPos));
        }
        return -1;
      }
      var left := LeftLength(ino.length, offset, length);
      LeftFits(ino.length, offset, length);
      if left < 0 {
        NothingCopied(Value(), ino, offset, buf[..], at, Gathered(Contents(Value(), ino), offset, 0, addsPos));
        return 0;
      }
      r := ReadBlocks(ino, offset, buf, at, left, addsPos);
    }

    /** read_data as it is. */
    method ReadData(inode: nat, offset: nat, buf: array?<Byte>, at: nat, length: nat) returns (r: int)
      requires Valid() && inode < |inodes| && offset < UINT32 && length < UINT32
      requires buf != null ==> buf != disk && at + Window(inodes[inode].length, offset, length) <= buf.Length
      modifies if buf == null then {} else {buf}
      ensures Value() == old(Value())
      ensures r == if buf == null then -1 else ReadResult(Value(), inodes[inode], offset, length)
      ensures buf != null && offset > inodes[inode].length ==> buf[..] == old(buf[..])
      ensures buf != null && offset <= inodes[inode].length ==>
        var n := Window(inodes[inode].length, offset, length);
        && offset + n <= inodes[inode].length && (r >= 0 ==> r == n == Copied(Value(), inodes[inode], offset, n))
        && Fetched(buf[..], old(buf[..]), at, Gathered(Contents(Value(), inodes[inode]), offset, n, false),
                   Copied(Value(), inodes[inode], offset, n))
    {
      r := ReadWith(inode, offset, buf, at, length, false);
    }

    /** read_data with the copy that adds the in-block position: whenever it succeeds, the
        buffer holds the bytes of the file from `offset` on, for every offset and length. */
    method ReadDataRepaired(inode: nat, offset: nat, buf: array<Byte>, at: nat, length: nat) returns (r: int)
      requires Valid() && inode < |inodes| && offset < UINT32 && length < UINT32
      requires buf != disk && at + Window(inodes[inode].length, offset, length) <= buf.Length
      modifies buf
      ensures Value() == old(Value()) && r == ReadResult(Value(), inodes[inode], offset, length)
      ensures r >= 0 ==> offset + r <= inodes[inode].length
      ensures r >= 0 ==>
        buf[..] == Patch(old(buf[..]), at, Contents(Value(), inodes[inode])[offset..offset + r])
    {
      r := ReadWith(inode, offset, buf, at, length, true);
      if r >= 0 {
        ghost var all := Gathered(Contents(Value(), inodes[inode]), offset, r, true);
        RepairedGathers(Contents(Value(), inodes[inode]), offset, r);
        assert all[..r] == all;
      }
    }

    /** The entry at an index. The test lets 63 through, which is the 64 bytes behind the
        boot block. */
    method ReadDentryByIndex(index: nat) returns (r: Option<Dentry>)
      requires Valid()
      ensures r == if index > MAX_DENTRY_NUM then None
                   else Some(if index == MAX_DENTRY_NUM then beyond else dentries[index])
    {
      if index > MAX_DENTRY_NUM {
        return None;
      }
      return Some((dentries + [beyond])[index]);
    }

    /** read_dentry_by_name on a C string. */
    method ReadDentryByName(fname: seq<Byte>) returns (r: Option<Dentry>)
      requires Valid() && NUL in fname
      ensures var i := Lookup(Value(), fname); r == if i.None? then None else Some(dentries[i.value])
    {
      if StrLen(fname) == 0 {
        return None;
      }
      for i := 0 to MAX_DENTRY_NUM
        invariant MatchFrom(Value(), fname, i) == MatchFrom(Value(), fname, 0)
      {
        var c := StrNCmp(dentries[i].name, fname);
        if c == 0 {
          r := ReadDentryByIndex(i);
          return;
        }
      }
      return None;
    }

    /** The name of an entry, padded with zeros to 32 bytes, by way of the static entry. */
    method CopyName(entry: Dentry, buf: array<Byte>) returns (len: nat)
      requires |entry.name| == FILENAME_LEN == current.Length && buf.Length >= FILENAME_LEN && buf != current
      modifies buf, current
      ensures len == |NameOf(entry.name)|
      ensures
        var name := NameOf(entry.name);
        buf[..] == Patch(old(buf[..]), 0, name + Repeat(NUL, FILENAME_LEN - |name|))
    {
      hide Patch, Repeat, StrLen;
      forall k | 0 <= k < FILENAME_LEN {
        current[k] := entry.name[k];
      }
      assert current[..] == entry.name;
      ghost var was := buf[..];
      MemSet(buf, 0, 0, NUL, FILENAME_LEN);
      len := StrLen(entry.name);
      assert current[0..len] == current[..][..len] == NameOf(entry.name);
      MemCpy(buf, 0, 0, current, 0, len);
      PatchPadded(was, NameOf(entry.name), FILENAME_LEN);
    }

    /** fs_dir_read: the name at dir_count, padded with zeros to 32 bytes; the size that
        the caller passes is not looked at. */
    method DirRead(buf: array<Byte>) returns (r: nat)
      requires Valid() && buf.Length >= FILENAME_LEN && buf != disk && buf != current
      modifies this, buf, current
      ensures Valid() && Value() == old(Value())
      ensures r == DirResult(Value(), old(dirCount)) && dirCount == DirCount(Value(), old(dirCount))
      ensures r <= FILENAME_LEN
      ensures if old(dirCount) < entries then buf[..r] == Names(Value())[old(dirCount)] else r == 0
      ensures
        var name := NameOf((dentries + [beyond])[old(dirCount)].name);
        buf[..] == Patch(old(buf[..]), 0, name + Repeat(NUL, FILENAME_LEN - |name|))
    {
      var found := ReadDentryByIndex(dirCount);
      var len := CopyName(found.value, buf);
      dirCount := dirCount + 1;
      if dirCount > entries {
        dirCount := 0;
        return 0;
      }
      assert buf[..len] == NameOf(found.value.name);
      return len;
    }
  }
}
