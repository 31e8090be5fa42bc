/** Bytes and the memory primitives of lib.c.

    A memory is an `array<Byte>`; `base` is the address of its first byte, so that
    the alignment tests of the assembly loops are made on real addresses. */
module Bytes {
  type Byte = x: int | 0 <= x < 256

  /** The number of 32-bit values. */
  const UINT32 := 0x1_0000_0000

  const NUL: Byte := 0
  const BACKSPACE: Byte := 8
  const TAB: Byte := 9
  const NEWLINE: Byte := 10
  const RETURN: Byte := 13
  const SPACE: Byte := 32

  /** `n` copies of `b`. */
  function Repeat(b: Byte, n: nat): (r: seq<Byte>)
    ensures |r| == n && forall k :: 0 <= k < n ==> r[k] == b
  {
    seq(n, _ => b)
  }

  /** `mem` with the bytes from `at` on replaced by `bytes`. */
  function Patch(mem: seq<Byte>, at: nat, bytes: seq<Byte>): (r: seq<Byte>)
    requires at + |bytes| <= |mem|
    ensures |r| == |mem|
    ensures forall k :: 0 <= k < |mem| ==> r[k] == if at <= k < at + |bytes| then bytes[k - at] else mem[k]
  {
    mem[..at] + bytes + mem[at + |bytes|..]
  }

  /** Length of the C string at the start of `s`, cut at `|s|`. */
  function StrLen(s: seq<Byte>): (n: nat)
    ensures n <= |s|
    ensures forall k :: 0 <= k < n ==> s[k] != NUL
    ensures n < |s| ==> s[n] == NUL
  {
    if s == [] || s[0] == NUL then 0 else 1 + StrLen(s[1..])
  }

  /** The C string at the start of `s`, cut at `|s|`. */
  function CStr(s: seq<Byte>): seq<Byte> {
    s[..StrLen(s)]
  }

  /** Bytes written over a cleared field leave themselves, padded with zeros. */
  lemma PatchPadded(mem: seq<Byte>, bytes: seq<Byte>, n: nat)
    requires |bytes| <= n <= |mem|
    ensures Patch(Patch(mem, 0, Repeat(NUL, n)), 0, bytes) == Patch(mem, 0, bytes + Repeat(NUL, n - |bytes|))
  {
  }

  lemma StrLenUnique(s: seq<Byte>, n: nat)
    requires n <= |s|
    requires forall k :: 0 <= k < n ==> s[k] != NUL
    requires n < |s| ==> s[n] == NUL
    ensures StrLen(s) == n
  {
  }
}

/** Sizes that several files of the kernel share. */
module Limits {
  const TERMS := 3
  const KBD_BUF_SIZE := 128
}

module Options {
  datatype Option<+T> = None | Some(value: T)
}

module Memory {
  import opened Bytes

  /** The part [lo, hi) of `now` holds `bytes` and the rest is as in `was`. */
  ghost predicate Patched(now: seq<Byte>, was: seq<Byte>, lo: nat, bytes: seq<Byte>) {
    && |now| == |was| && lo + |bytes| <= |was|
    && (forall k :: lo <= k < lo + |bytes| ==> now[k] == bytes[k - lo])
    && (forall k :: 0 <= k < |was| && !(lo <= k < lo + |bytes|) ==> now[k] == was[k])
  }

  /** Bytes `lo` to `hi` of a move have been made and nothing else has changed. */
  ghost predicate Moved(was: seq<Byte>, now: seq<Byte>, dest: nat, src: nat, lo: int, hi: int) {
    && |now| == |was| && 0 <= lo <= hi && dest + hi <= |was| && src + hi <= |was|
    && (forall k :: dest + lo <= k < dest + hi ==> now[k] == was[k - dest + src])
    && (forall k :: 0 <= k < dest + lo || dest + hi <= k < |was| ==> now[k] == was[k])
  }

  /** `rep movsb` with the direction flag clear. */
  method MoveUp(mem: array<Byte>, dest: nat, src: nat, n: nat)
    requires dest <= src && src + n <= mem.Length
    modifies mem
    ensures Moved(old(mem[..]), mem[..], dest, src, 0, n)
  {
    var edi, esi, ecx := dest, src, n;
    while ecx != 0
      invariant 0 <= ecx <= n && edi - dest == esi - src == n - ecx
      invariant Moved(old(mem[..]), mem[..], dest, src, 0, n - ecx)
    {
      mem[edi] := mem[esi];
      edi, esi, ecx := edi + 1, esi + 1, ecx - 1;
    }
  }

  /** `rep movsb` with the direction flag set, from the last byte on. */
  method MoveDown(mem: array<Byte>, dest: nat, src: nat, n: nat)
    requires src < dest && dest + n <= mem.Length
    modifies mem
    ensures Moved(old(mem[..]), mem[..], dest, src, 0, n)
  {
    var edi: int, esi: int, ecx := dest + n - 1, src + n - 1, n;
    while ecx != 0
      invariant 0 <= ecx <= n && edi - dest == esi - src == ecx - 1
      invariant Moved(old(mem[..]), mem[..], dest, src, ecx, n)
    {
      mem[edi] := mem[esi];
      edi, esi, ecx := edi - 1, esi - 1, ecx - 1;
    }
  }

  /** memmove: upwards when the source is not below the destination, downwards otherwise;
      the destination ends up with the bytes the source had, however the two overlap. */
  method MemMove(mem: array<Byte>, dest: nat, src: nat, n: nat)
    requires dest + n <= mem.Length && src + n <= mem.Length
    modifies mem
    ensures mem[..] == Patch(old(mem[..]), dest, old(mem[src..src + n]))
  {
    if src >= dest {
      MoveUp(mem, dest, src, n);
    } else {
      MoveDown(mem, dest, src, n);
    }
  }

  /** The byte that the little-endian store of a 32-bit register puts at offset `k`. */
  function ByteOf(word: nat, k: nat): Byte
    requires k < 4
  {
    if k == 0 then word % 0x100 else ByteOf(word / 0x100, k - 1)
  }

  /** stosl: the four bytes of a register at `at`. */
  method StoreWord(mem: array<Byte>, at: nat, word: nat)
    requires at + 4 <= mem.Length
    modifies mem
    ensures mem[..] == Patch(old(mem[..]), at, [ByteOf(word, 0), ByteOf(word, 1), ByteOf(word, 2), ByteOf(word, 3)])
  {
    mem[at], mem[at + 1], mem[at + 2], mem[at + 3] :=
      ByteOf(word, 0), ByteOf(word, 1), ByteOf(word, 2), ByteOf(word, 3);
  }

  /** The register that memset stores has the fill byte in each of its four places. */
  function Splat(al: Byte): (eax: nat)
    ensures ByteOf(eax, 0) == ByteOf(eax, 1) == ByteOf(eax, 2) == ByteOf(eax, 3) == al
  {
    var eax := al * 0x100_0000 + al * 0x1_0000 + al * 0x100 + al;
    assert eax == 0x100 * (al * 0x1_0000 + al * 0x100 + al) + al;
    assert eax / 0x100 == al * 0x1_0000 + al * 0x100 + al;
    assert eax / 0x100 / 0x100 == al * 0x100 + al;
    assert ByteOf(al * 0x100 + al, 1) == ByteOf(al, 0);
    assert ByteOf(eax, 2) == ByteOf(eax / 0x100, 1) == ByteOf(eax / 0x100 / 0x100, 0);
    assert ByteOf(eax, 3) == ByteOf(eax / 0x100, 2) == ByteOf(eax / 0x100 / 0x100, 1);
    eax
  }

  /** memset: bytes up to a 4-byte boundary, then whole words, then the rest. */
  method MemSet(mem: array<Byte>, base: nat, s: nat, c: int, n: nat)
    requires s + n <= mem.Length
    modifies mem
    ensures mem[..] == Patch(old(mem[..]), s, Repeat(c % 0x100, n))
  {
    ghost var was := mem[..];
    var al := c % 0x100;
    var eax := Splat(al);
    var edi, ecx := s, n;
    while ecx != 0 && (base + edi) % 4 != 0
      invariant 0 <= ecx <= n && edi + ecx == s + n
      invariant Patched(mem[..], was, s, Repeat(al, edi - s))
    {
      mem[edi] := al;
      edi, ecx := edi + 1, ecx - 1;
    }
    var edx := ecx % 4;
    ecx := ecx / 4;
    while ecx != 0
      invariant 0 <= ecx && 0 <= edx && s <= edi && edi + 4 * ecx + edx == s + n
      invariant Patched(mem[..], was, s, Repeat(al, edi - s))
    {
      StoreWord(mem, edi, eax);
      edi, ecx := edi + 4, ecx - 1;
    }
    while edx != 0
      invariant 0 <= edx && s <= edi && edi + edx == s + n
      invariant Patched(mem[..], was, s, Repeat(al, edi - s))
    {
      mem[edi] := al;
      edi, edx := edi + 1, edx - 1;
    }
  }

  /** The first `done` bytes are copied and the others are still to be read. */
  ghost predicate Copying(destMem: array<Byte>, was: seq<Byte>, dest: nat, srcMem: array<Byte>, src: nat,
                          bytes: seq<Byte>, done: int)
    requires dest + |bytes| <= destMem.Length == |was| && src + |bytes| <= srcMem.Length
    reads destMem, srcMem
  {
    && 0 <= done <= |bytes|
    && (forall k :: src + done <= k < src + |bytes| ==> srcMem[k] == bytes[k - src])
    && (forall k :: dest <= k < dest + done ==> destMem[k] == bytes[k - dest])
    && (forall k :: 0 <= k < dest || dest + done <= k < |was| ==> destMem[k] == was[k])
  }

  /** movsl: four bytes read before any is written. */
  method MoveWord(destMem: array<Byte>, ghost was: seq<Byte>, dest: nat, srcMem: array<Byte>, src: nat,
                  ghost bytes: seq<Byte>, done: nat)
    requires dest + |bytes| <= destMem.Length == |was| && src + |bytes| <= srcMem.Length
    requires destMem != srcMem || dest <= src || src + |bytes| <= dest
    requires Copying(destMem, was, dest, srcMem, src, bytes, done) && done + 4 <= |bytes|
    modifies destMem
    ensures Copying(destMem, was, dest, srcMem, src, bytes, done + 4)
  {
    var edi, esi := dest + done, src + done;
    destMem[edi], destMem[edi + 1], destMem[edi + 2], destMem[edi + 3] :=
      srcMem[esi], srcMem[esi + 1], srcMem[esi + 2], srcMem[esi + 3];
  }

  /** movb through %al. */
  method MoveByte(destMem: array<Byte>, ghost was: seq<Byte>, dest: nat, srcMem: array<Byte>, src: nat,
                  ghost bytes: seq<Byte>, done: nat)
    requires dest + |bytes| <= destMem.Length == |was| && src + |bytes| <= srcMem.Length
    requires destMem != srcMem || dest <= src || src + |bytes| <= dest
    requires Copying(destMem, was, dest, srcMem, src, bytes, done) && done < |bytes|
    modifies destMem
    ensures Copying(destMem, was, dest, srcMem, src, bytes, done + 1)
  {
    destMem[dest + done] := srcMem[src + done];
  }

  /** memcpy, between two memories or inside one. The word loop copies upwards, so
      inside one memory it is right for every placement but a destination that
      starts strictly inside the source. `done` is the distance both index
      registers have moved. */
  method MemCpy(destMem: array<Byte>, base: nat, dest: nat, srcMem: array<Byte>, src: nat, n: nat)
    requires dest + n <= destMem.Length && src + n <= srcMem.Length
    requires destMem != srcMem || dest <= src || src + n <= dest
    modifies destMem
    ensures destMem[..] == Patch(old(destMem[..]), dest, old(srcMem[src..src + n]))
  {
    ghost var was, bytes := destMem[..], srcMem[src..src + n];
    var done, ecx := 0, n;
    while ecx != 0 && (base + dest + done) % 4 != 0
      invariant 0 <= ecx && done == n - ecx
      invariant Copying(destMem, was, dest, srcMem, src, bytes, done)
    {
      MoveByte(destMem, was, dest, srcMem, src, bytes, done);
      done, ecx := done + 1, ecx - 1;
    }
    var edx := ecx % 4;
    ecx := ecx / 4;
    while ecx != 0
      invariant 0 <= ecx && 0 <= edx && done == n - 4 * ecx - edx
      invariant Copying(destMem, was, dest, srcMem, src, bytes, done)
    {
      MoveWord(destMem, was, dest, srcMem, src, bytes, done);
      done, ecx := done + 4, ecx - 1;
    }
    while edx != 0
      invariant 0 <= edx && done == n - edx
      invariant Copying(destMem, was, dest, srcMem, src, bytes, done)
    {
      MoveByte(destMem, was, dest, srcMem, src, bytes, done);
      done, edx := done + 1, edx - 1;
    }
  }

  /** The two low bytes of `word`, `n` times. */
  function Words(word: nat, n: nat): (r: seq<Byte>)
    ensures |r| == 2 * n
    ensures forall k :: 0 <= k < 2 * n ==> r[k] == ByteOf(word, k % 2)
  {
    seq(2 * n, k => ByteOf(word, k % 2))
  }

  /** memset_word: `rep stosw`. */
  method MemSetWord(mem: array<Byte>, s: nat, word: nat, n: nat)
    requires s + 2 * n <= mem.Length
    modifies mem
    ensures mem[..] == Patch(old(mem[..]), s, Words(word, n))
  {
    ghost var was := mem[..];
    var edi, ecx := s, n;
    while ecx != 0
      invariant 0 <= ecx <= n && edi == s + 2 * (n - ecx)
      invariant Patched(mem[..], was, s, Words(word, n - ecx))
    {
      mem[edi], mem[edi + 1] := ByteOf(word, 0), ByteOf(word, 1);
      edi, ecx := edi + 2, ecx - 1;
    }
  }
}
