/** The read-only block file system of filesystem.c. */
module FileSystem {
  import opened Bytes
  import opened Memory

  const FOUR_KB := 4096
  const BLOCK_SLOTS := 1023
  const MAX_DENTRY_NUM := 63
  const FILENAME_LEN := 32

  /** `blocks` holds block numbers exactly as they are on disk, valid or not. */
  datatype Inode = Inode(length: nat, blocks: seq<int>)

  datatype Dentry = Dentry(name: seq<Byte>, filetype: nat, inode: nat)

  /** `data` is the data area, `dataCount` blocks of 4 KB; `entries` is the directory
      count of the boot block. */
  datatype Image = Image(entries: nat, dataCount: nat, dentries: seq<Dentry>, inodes: seq<Inode>, data: seq<Byte>)

  /** Sizes of the on-disk structures. The loop of read_data looks up block number
      length / 4096, so that index has to exist. */
  ghost predicate InodeShape(ino: Inode) {
    |ino.blocks| == BLOCK_SLOTS && ino.length < BLOCK_SLOTS * FOUR_KB
  }

  ghost predicate Shape(img: Image) {
    && |img.data| == FOUR_KB * img.dataCount
    && |img.dentries| == MAX_DENTRY_NUM && img.entries <= MAX_DENTRY_NUM
    && (forall d :: d in img.dentries ==> |d.name| == FILENAME_LEN)
    && (forall ino :: ino in img.inodes ==> InodeShape(ino))
  }

  // ----- the flat file -----

  predicate BlockOk(img: Image, ino: Inode, i: nat) {
    i < |ino.blocks| && 0 <= ino.blocks[i] < img.dataCount
  }

  /** Every block number that a read up to the end of the file looks at is valid. */
  ghost predicate WellFormed(img: Image, ino: Inode) {
    InodeShape(ino) && forall i: nat :: i <= ino.length / FOUR_KB ==> BlockOk(img, ino, i)
  }

  /** Byte `p` of the file: byte p mod 4096 of block p / 4096. */
  function FlatByte(img: Image, ino: Inode, p: nat): Byte
    requires |img.data| == FOUR_KB * img.dataCount
  {
    if BlockOk(img, ino, p / FOUR_KB) then img.data[FOUR_KB * ino.blocks[p / FOUR_KB] + p % FOUR_KB] else 0
  }

  /** The whole file as one sequence. */
  function Contents(img: Image, ino: Inode): (r: seq<Byte>)
    requires |img.data| == FOUR_KB * img.dataCount
    ensures |r| == ino.length && forall p :: 0 <= p < ino.length ==> r[p] == FlatByte(img, ino, p)
  {
    seq<Byte>(ino.length, (p: nat) => FlatByte(img, ino, p))
  }

  // ----- what read_data returns and delivers -----

  /** left_length, with the 32-bit sum and the conversion to int32_t. */
  function LeftLength(size: nat, offset: nat, length: nat): int
    requires offset <= size
  {
    if (length + offset) % UINT32 > size then size - offset
    else if length < UINT32 / 2 then length else length - UINT32
  }

  lemma LeftFits(size: nat, offset: nat, length: nat)
    requires offset <= size < UINT32 / 2 && length < UINT32
    ensures LeftLength(size, offset, length) <= size - offset
  {
    if length + offset < UINT32 {
      assert (length + offset) % UINT32 == length + offset;
    } else {
      assert (length + offset) % UINT32 == length + offset - UINT32;
    }
  }

  /** Bytes a call may write. */
  function Window(size: nat, offset: nat, length: nat): nat {
    if length == 0 || offset > size then 0
    else var left := LeftLength(size, offset, length); if left < 0 then 0 else left
  }

  ghost predicate BlocksOk(img: Image, ino: Inode, from: nat, upTo: int) {
    forall i: nat :: from <= i <= upTo ==> BlockOk(img, ino, i)
  }

  /** The result: -1 for a bad request or when one of the block numbers from the first
      block to the one holding position offset + left is bad, that last one included
      even when the read ends on its first byte. */
  ghost function ReadResult(img: Image, ino: Inode, offset: nat, length: nat): (r: int)
    ensures r >= -1
  {
    if length == 0 || offset > ino.length then -1
    else
      var left := LeftLength(ino.length, offset, length);
      if left < 0 then 0
      else if BlocksOk(img, ino, offset / FOUR_KB, (offset + left) / FOUR_KB) then left else -1
  }

  /** File position that byte `k` of the buffer comes from. A first block that is copied
      to its end is copied from its start, unless the copy adds the in-block position. */
  function SourcePos(offset: nat, n: nat, k: nat, addsPos: bool): (p: nat)
    ensures p <= offset + k
  {
    var pos := offset % FOUR_KB;
    if !addsPos && pos + n >= FOUR_KB && k < FOUR_KB - pos then offset - pos + k else offset + k
  }

  /** The bytes put into the buffer. */
  function Gathered(content: seq<Byte>, offset: nat, n: nat, addsPos: bool): (r: seq<Byte>)
    requires offset + n <= |content|
    ensures |r| == n && forall k :: 0 <= k < n ==> r[k] == content[SourcePos(offset, n, k, addsPos)]
  {
    seq(n, (k: nat) requires k < n => content[SourcePos(offset, n, k, addsPos)])
  }

  /** On a well-formed file every request inside the file succeeds with exactly the bytes
      that are left; a request whose end wraps around 32 bits reads nothing. */
  lemma ReadNeverFails(img: Image, ino: Inode, offset: nat, length: nat)
    requires WellFormed(img, ino) && offset <= ino.length && 0 < length < UINT32
    ensures ReadResult(img, ino, offset, length) ==
            if length + offset >= UINT32 then 0
            else if length < ino.length - offset then length else ino.length - offset
  {
    if length + offset < UINT32 {
      assert (length + offset) % UINT32 == length + offset;
    } else {
      assert (length + offset) % UINT32 == length + offset - UINT32;
    }
  }

  /** The blocks that hold the bytes of a request. */
  ghost predicate HoldersOk(img: Image, ino: Inode, offset: nat, left: nat) {
    forall p: nat :: offset <= p < offset + left ==> BlockOk(img, ino, p / FOUR_KB)
  }

  /** A request inside the file succeeds exactly when the blocks that hold its bytes are
      good and, when it ends on a block boundary or asks for nothing, the block at its end
      is good too, though no byte of that one is delivered. */
  lemma ReadSucceedsExactly(img: Image, ino: Inode, offset: nat, length: nat)
    requires offset <= ino.length && 0 < length < UINT32
    ensures
      var left := LeftLength(ino.length, offset, length);
      left >= 0 ==>
        (ReadResult(img, ino, offset, length) != -1 <==>
         && HoldersOk(img, ino, offset, left)
         && (left == 0 || (offset + left) % FOUR_KB == 0 ==> BlockOk(img, ino, (offset + left) / FOUR_KB)))
  {
    var left := LeftLength(ino.length, offset, length);
    if left >= 0 && HoldersOk(img, ino, offset, left) &&
       (left == 0 || (offset + left) % FOUR_KB == 0 ==> BlockOk(img, ino, (offset + left) / FOUR_KB))
    {
      forall i: nat | offset / FOUR_KB <= i <= (offset + left) / FOUR_KB
        ensures BlockOk(img, ino, i)
      {
        var p := if FOUR_KB * i <= offset then offset else FOUR_KB * i;
        if p < offset + left {
          assert p / FOUR_KB == i;
        }
      }
    }
  }

  /** A file of exactly one good block whose next slot is bad: reading the block fails,
      reading all but its last byte does not. */
  lemma BoundaryReadFails(img: Image, ino: Inode)
    requires InodeShape(ino) && ino.length == FOUR_KB && BlockOk(img, ino, 0) && !BlockOk(img, ino, 1)
    ensures HoldersOk(img, ino, 0, FOUR_KB) && ReadResult(img, ino, 0, FOUR_KB) == -1
    ensures ReadResult(img, ino, 0, FOUR_KB - 1) == FOUR_KB - 1
  {
    assert FOUR_KB % UINT32 == FOUR_KB && (FOUR_KB - 1) % UINT32 == FOUR_KB - 1;
    assert !BlocksOk(img, ino, 0 / FOUR_KB, (0 + FOUR_KB) / FOUR_KB);
    ReadSucceedsExactly(img, ino, 0, FOUR_KB - 1);
  }

  // ----- when the delivered bytes are the file's -----

  /** The request starts on a block boundary or ends strictly inside its first block. */
  predicate Clean(offset: nat, n: nat) {
    offset % FOUR_KB == 0 || offset % FOUR_KB + n < FOUR_KB
  }

  /** An image with one file, in consecutive blocks and named in the first entry. */
  function ImageOf(content: seq<Byte>, name: seq<Byte>): (img: Image)
    requires |content| < BLOCK_SLOTS * FOUR_KB && |name| == FILENAME_LEN
    ensures Shape(img) && |img.inodes| == 1 && WellFormed(img, img.inodes[0])
    ensures img.dentries[0] == Dentry(name, 2, 0) && Contents(img, img.inodes[0]) == content
    ensures forall k :: 1 <= k < MAX_DENTRY_NUM ==> img.dentries[k] == Dentry(Repeat(NUL, FILENAME_LEN), 0, 0)
    ensures img.inodes[0].blocks == seq(BLOCK_SLOTS, (i: nat) => i)
  {
    var empty := Dentry(Repeat(NUL, FILENAME_LEN), 0, 0);
    var dentries := [Dentry(name, 2, 0)] + seq(MAX_DENTRY_NUM - 1, _ => empty);
    var ino := Inode(|content|, seq(BLOCK_SLOTS, (i: nat) => i));
    var img := Image(1, BLOCK_SLOTS, dentries, [ino], content + Repeat(0, BLOCK_SLOTS * FOUR_KB - |content|));
    assert forall p: nat :: p < |content| ==> FlatByte(img, ino, p) == content[p];
    img
  }

  /** Such an image: one file of 4096 bytes, its second slot holding -1. */
  function BoundaryImage(): Image {
    var img := ImageOf(Repeat(0, FOUR_KB), Repeat(NUL, FILENAME_LEN));
    img.(inodes := [img.inodes[0].(blocks := img.inodes[0].blocks[1 := -1])])
  }

  lemma BoundaryImageFails()
    ensures Shape(BoundaryImage()) && |BoundaryImage().inodes| == 1
    ensures
      var img := BoundaryImage();
      var ino := img.inodes[0];
      && ino.length == FOUR_KB && HoldersOk(img, ino, 0, FOUR_KB)
      && ReadResult(img, ino, 0, FOUR_KB) == -1 && ReadResult(img, ino, 0, FOUR_KB - 1) == FOUR_KB - 1
  {
    hide ReadResult, HoldersOk;
    BoundaryReadFails(BoundaryImage(), BoundaryImage().inodes[0]);
  }

  /** The copy that adds the in-block position gathers the file's bytes for every request. */
  lemma RepairedGathers(content: seq<Byte>, offset: nat, n: nat)
    requires offset + n <= |content|
    ensures Gathered(content, offset, n, true) == content[offset..offset + n]
  {
  }

  lemma CleanGathers(content: seq<Byte>, offset: nat, n: nat)
    requires offset + n <= |content| && Clean(offset, n)
    ensures Gathered(content, offset, n, false) == content[offset..offset + n]
  {
  }

  /** What any other request gets: the first bytes of its first block in place of the last
      ones, and the rest of the file right. */
  lemma UncleanGathers(content: seq<Byte>, offset: nat, n: nat)
    requires offset + n <= |content| && !Clean(offset, n)
    ensures
      var start := offset / FOUR_KB * FOUR_KB;
      Gathered(content, offset, n, false) ==
      content[start..start + (start + FOUR_KB - offset)] + content[start + FOUR_KB..offset + n]
  {
  }

  /** A file of `size` bytes, all zero but for a 1 at `mark`. */
  function Marked(size: nat, mark: nat): (r: seq<Byte>)
    requires mark < size
    ensures |r| == size && forall p :: 0 <= p < size ==> r[p] == if p == mark then 1 else 0
  {
    Repeat(0, size)[mark := 1]
  }

  /** A request that is not clean gets a wrong first byte from some file. */
  lemma UncleanDiffers(size: nat, offset: nat, n: nat)
    requires offset + n <= size && !Clean(offset, n)
    ensures n > 0 && Gathered(Marked(size, offset), offset, n, false) != Marked(size, offset)[offset..offset + n]
  {
    var content := Marked(size, offset);
    assert Gathered(content, offset, n, false)[0] == content[offset - offset % FOUR_KB];
    assert content[offset..offset + n][0] == content[offset];
  }

  /** A file on a mounted image, all its blocks good. */
  ghost predicate OnImage(img: Image, ino: Inode) {
    Shape(img) && ino in img.inodes && WellFormed(img, ino)
  }

  /** The bytes gathered for (offset, n) are the file's bytes, whatever the file and image. */
  ghost predicate AlwaysRight(size: nat, offset: nat, n: nat)
    requires offset + n <= size
  {
    forall img: Image, ino: Inode :: OnImage(img, ino) && ino.length == size ==>
      Gathered(Contents(img, ino), offset, n, false) == Contents(img, ino)[offset..offset + n]
  }

  /** As written, read_data is right for every file exactly on the clean requests. */
  lemma RightExactlyWhenClean(size: nat, offset: nat, n: nat)
    requires offset + n <= size < BLOCK_SLOTS * FOUR_KB
    ensures AlwaysRight(size, offset, n) <==> Clean(offset, n)
  {
    if Clean(offset, n) {
      forall img: Image, ino: Inode | OnImage(img, ino) && ino.length == size
        ensures Gathered(Contents(img, ino), offset, n, false) == Contents(img, ino)[offset..offset + n]
      {
        CleanGathers(Contents(img, ino), offset, n);
      }
    } else {
      UncleanDiffers(size, offset, n);
      var img := ImageOf(Marked(size, offset), Repeat(NUL, FILENAME_LEN));
      assert OnImage(img, img.inodes[0]);
    }
  }
}
