/** The number printer of lib.c: itoa, strrev and the conversions of printf built on them. */
module Numbers {
  import opened Bytes

  const ZERO: Byte := 48
  const MINUS: Byte := 45
  const INT32_MAX := 0x7FFF_FFFF

  /** Entry `i` of the lookup string "0123456789ABCDEFGHIJKLMNOPQRSTUVWXYZ". */
  function Digit(i: nat): Byte
    requires i < 36
  {
    if i < 10 then ZERO + i else 55 + i
  }

  function DigitValue(b: Byte): nat {
    if ZERO <= b < ZERO + 10 then b - ZERO else if 65 <= b < 91 then b - 55 else 36
  }

  // ----- reading a numeral -----

  /** The number that a digit string denotes, most significant digit first. */
  function ValueOf(s: seq<Byte>, radix: nat): nat {
    if s == [] then 0 else ValueOf(s[..|s| - 1], radix) * radix + DigitValue(s[|s| - 1])
  }

  ghost predicate IsNumeral(s: seq<Byte>, radix: nat) {
    s != [] && forall k :: 0 <= k < |s| ==> DigitValue(s[k]) < radix
  }

  /** A numeral without leading zeros. */
  ghost predicate Canonical(s: seq<Byte>, radix: nat) {
    IsNumeral(s, radix) && (|s| > 1 ==> s[0] != ZERO)
  }

  lemma DivStep(q: nat, d: nat, radix: nat)
    requires d < radix
    ensures (q * radix + d) % radix == d && (q * radix + d) / radix == q
  {
    var v := q * radix + d;
    var e := v / radix - q;
    assert v == radix * (v / radix) + v % radix;
    assert radix * e == d - v % radix;
  }

  lemma DigitZero(b: Byte)
    ensures DigitValue(b) == 0 <==> b == ZERO
  {
  }

  lemma MulLe(a: nat, b: nat, c: nat)
    requires a <= b
    ensures a * c <= b * c
  {
  }

  lemma {:induction false} CanonicalPositive(s: seq<Byte>, radix: nat)
    requires 2 <= radix <= 36 && Canonical(s, radix) && s != [ZERO]
    ensures ValueOf(s, radix) > 0
  {
    var t := s[..|s| - 1];
    if |s| == 1 {
      DigitZero(s[0]);
    } else {
      CanonicalPositive(t, radix);
      MulLe(1, ValueOf(t, radix), radix);
    }
  }

  /** Two numerals without leading zeros that denote the same number are the same string. */
  lemma {:induction false} CanonicalUnique(s: seq<Byte>, t: seq<Byte>, radix: nat)
    requires 2 <= radix <= 36 && Canonical(s, radix) && Canonical(t, radix)
    requires ValueOf(s, radix) == ValueOf(t, radix)
    ensures s == t
    decreases |s| + |t|
  {
    var m, n := |s| - 1, |t| - 1;
    DivStep(ValueOf(s[..m], radix), DigitValue(s[m]), radix);
    DivStep(ValueOf(t[..n], radix), DigitValue(t[n]), radix);
    assert s[m] == t[n];
    assert ValueOf(s[..m], radix) == ValueOf(t[..n], radix);
    if m > 0 {
      CanonicalPositive(s[..m], radix);
    }
    if n > 0 {
      CanonicalPositive(t[..n], radix);
    }
    if m > 0 && n > 0 {
      CanonicalUnique(s[..m], t[..n], radix);
    }
    assert s == s[..m] + [s[m]] && t == t[..n] + [t[n]];
  }

  // ----- what itoa produces -----

  function Reversed(s: seq<Byte>): (r: seq<Byte>)
    ensures |r| == |s| && forall k :: 0 <= k < |s| ==> r[k] == s[|s| - 1 - k]
  {
    seq(|s|, k requires 0 <= k < |s| => s[|s| - 1 - k])
  }

  /** Digits of `v`, least significant first; none for zero. */
  function LowDigits(v: nat, radix: nat): seq<Byte>
    requires 2 <= radix <= 36
    decreases v
  {
    if v == 0 then []
    else
      DivLess(v, radix);
      [Digit(v % radix)] + LowDigits(v / radix, radix)
  }

  lemma DivLess(v: nat, radix: nat)
    requires v > 0 && radix >= 2
    ensures 0 <= v / radix < v
  {
    var q := v / radix;
    assert v == radix * q + v % radix;
    assert radix * q >= 2 * q;
  }

  /** The string itoa leaves in its buffer. */
  function Numeral(v: nat, radix: nat): seq<Byte>
    requires 2 <= radix <= 36
  {
    if v == 0 then [ZERO] else Reversed(LowDigits(v, radix))
  }

  lemma DigitRoundTrip(i: nat)
    requires i < 36
    ensures DigitValue(Digit(i)) == i && Digit(i) != NUL && (Digit(i) == ZERO <==> i == 0)
  {
  }

  lemma ReversedCons(d: Byte, low: seq<Byte>)
    ensures Reversed([d] + low) == Reversed(low) + [d]
  {
  }

  lemma DivBack(v: nat, radix: nat)
    requires radix > 0
    ensures v / radix * radix + v % radix == v
  {
  }

  lemma ValueSnoc(s: seq<Byte>, d: nat, radix: nat, v: nat)
    requires d < 36 && v == ValueOf(s, radix) * radix + d
    ensures ValueOf(s + [Digit(d)], radix) == v
  {
    DigitRoundTrip(d);
    assert (s + [Digit(d)])[..|s|] == s;
  }

  lemma {:induction false} LowDigitsValue(v: nat, radix: nat)
    requires 2 <= radix <= 36
    ensures ValueOf(Reversed(LowDigits(v, radix)), radix) == v
    decreases v
  {
    if v == 0 {
      assert Reversed(LowDigits(v, radix)) == [];
    } else {
      DivLess(v, radix);
      LowDigitsValue(v / radix, radix);
      DivBack(v, radix);
      var low := LowDigits(v / radix, radix);
      ValueSnoc(Reversed(low), v % radix, radix, v);
      ReversedCons(Digit(v % radix), low);
    }
  }

  lemma {:induction false} LowDigitsCanonical(v: nat, radix: nat)
    requires 2 <= radix <= 36 && v > 0
    ensures Canonical(Reversed(LowDigits(v, radix)), radix) && NUL !in LowDigits(v, radix)
    decreases v
  {
    var q, d := v / radix, v % radix;
    DivLess(v, radix);
    DigitRoundTrip(d);
    ReversedCons(Digit(d), LowDigits(q, radix));
    if q == 0 {
      assert v == radix * q + d;
      assert LowDigits(q, radix) == [];
    } else {
      LowDigitsCanonical(q, radix);
    }
  }

  /** Reading what itoa wrote gives the value back, with no leading zero; and it is the
      only such string. */
  lemma NumeralRoundTrip(v: nat, radix: nat, s: seq<Byte>)
    requires 2 <= radix <= 36
    ensures Canonical(Numeral(v, radix), radix) && NUL !in Numeral(v, radix)
    ensures Canonical(s, radix) && ValueOf(s, radix) == v <==> s == Numeral(v, radix)
  {
    if v > 0 {
      LowDigitsValue(v, radix);
      LowDigitsCanonical(v, radix);
    } else {
      assert [ZERO][..0] == [];
      assert ValueOf([ZERO], radix) == ValueOf([], radix) * radix + DigitValue(ZERO);
    }
    if Canonical(s, radix) && ValueOf(s, radix) == v {
      CanonicalUnique(s, Numeral(v, radix), radix);
    }
  }

  function Pow(b: nat, k: nat): nat {
    if k == 0 then 1 else b * Pow(b, k - 1)
  }

  lemma QuotientBound(v: nat, radix: nat, b: nat, p: nat)
    requires 2 <= b <= radix && v < b * p
    ensures v / radix < p
  {
    var q := v / radix;
    DivBack(v, radix);
    if q >= p {
      MulLe(b, radix, p);
      MulLe(p, q, radix);
      assert false;
    }
  }

  lemma {:induction false} LengthBound(v: nat, radix: nat, b: nat, k: nat)
    requires 2 <= b <= radix <= 36 && v < Pow(b, k)
    ensures |LowDigits(v, radix)| <= k
    decreases k
  {
    if v > 0 {
      DivLess(v, radix);
      QuotientBound(v, radix, b, Pow(b, k - 1));
      LengthBound(v / radix, radix, b, k - 1);
    }
  }

  lemma Powers()
    ensures Pow(2, 32) == UINT32 && Pow(16, 8) == UINT32
  {
    assert Pow(2, 8) == 0x100;
    assert Pow(2, 16) == 0x1_0000;
    assert Pow(2, 24) == 0x100_0000;
    assert Pow(16, 4) == 0x1_0000;
  }

  // ----- the loops -----

  method StrLength(buf: array<Byte>, at: nat) returns (len: nat)
    requires at <= buf.Length && NUL in buf[at..]
    ensures at + len < buf.Length && len == StrLen(buf[at..])
  {
    len := 0;
    while buf[at + len] != NUL
      invariant at + len < buf.Length
      invariant NUL !in buf[at..at + len] && NUL in buf[at + len..]
      decreases buf.Length - len
    {
      assert buf[at + len..] == [buf[at + len]] + buf[at + len + 1..];
      len := len + 1;
    }
    assert forall k :: 0 <= k < len ==> buf[at..][k] == buf[at..at + len][k];
    StrLenUnique(buf[at..], len);
  }

  /** strrev's loop: two indices that meet in the middle. */
  method SwapEnds(buf: array<Byte>, at: nat, len: nat)
    requires at + len <= buf.Length
    modifies buf
    ensures buf[..] == Patch(old(buf[..]), at, Reversed(old(buf[at..at + len])))
  {
    ghost var was := buf[..];
    var beg: int, end: int := 0, len - 1;
    while beg < end
      invariant 0 <= beg && end == len - 1 - beg && beg <= end + 1
      invariant forall k :: at <= k < at + beg || at + end < k < at + len ==> buf[k] == was[2 * at + len - 1 - k]
      invariant forall k :: 0 <= k < at || at + beg <= k <= at + end || at + len <= k < buf.Length ==>
        buf[k] == was[k]
    {
      var tmp := buf[at + end];
      buf[at + end] := buf[at + beg];
      buf[at + beg] := tmp;
      beg, end := beg + 1, end - 1;
    }
    SwappedIsReversed(was, buf[..], at, len);
  }

  lemma SwappedIsReversed(was: seq<Byte>, now: seq<Byte>, at: nat, len: nat)
    requires |now| == |was| && at + len <= |was|
    requires forall k :: at <= k < at + len ==> now[k] == was[2 * at + len - 1 - k]
    requires forall k :: 0 <= k < at || at + len <= k < |was| ==> now[k] == was[k]
    ensures now == Patch(was, at, Reversed(was[at..at + len]))
  {
  }

  /** strrev reverses the string in place and touches nothing else. */
  method StrRev(buf: array<Byte>, at: nat)
    requires at <= buf.Length && NUL in buf[at..]
    modifies buf
    ensures buf[..] == Patch(old(buf[..]), at, Reversed(CStr(old(buf[at..]))))
  {
    var len := StrLength(buf, at);
    assert buf[at..at + len] == CStr(buf[at..]);
    SwapEnds(buf, at, len);
  }

  /** itoa's digit loop. */
  method WriteDigits(value: nat, buf: array<Byte>, at: nat, radix: nat) returns (n: nat)
    requires 2 <= radix <= 36 && at + |LowDigits(value, radix)| <= buf.Length
    modifies buf
    ensures n == |LowDigits(value, radix)|
    ensures buf[..] == Patch(old(buf[..]), at, LowDigits(value, radix))
  {
    ghost var was, all := buf[..], LowDigits(value, radix);
    var newval: nat := value;
    n := 0;
    while newval > 0
      invariant n <= |all| && all[n..] == LowDigits(newval, radix)
      invariant forall k :: at <= k < at + n ==> buf[k] == all[k - at]
      invariant forall k :: 0 <= k < at || at + n <= k < buf.Length ==> buf[k] == was[k]
    {
      DivLess(newval, radix);
      assert all[n..][0] == Digit(newval % radix) && all[n..][1..] == LowDigits(newval / radix, radix);
      buf[at + n] := Digit(newval % radix);
      n := n + 1;
      newval := newval / radix;
    }
  }

  /** Reversing the first part of what was written leaves the reversal and the NUL. */
  lemma PatchReversed(was: seq<Byte>, at: nat, all: seq<Byte>)
    requires at + |all| < |was|
    ensures Patch(Patch(was, at, all + [NUL]), at, Reversed(all)) == Patch(was, at, Reversed(all) + [NUL])
  {
  }

  /** itoa of a value that is not zero: digits, NUL, reversal. */
  method WriteNumeral(value: nat, buf: array<Byte>, at: nat, radix: nat)
    requires value > 0 && 2 <= radix <= 36 && at + |LowDigits(value, radix)| < buf.Length
    modifies buf
    ensures buf[..] == Patch(old(buf[..]), at, Reversed(LowDigits(value, radix)) + [NUL])
  {
    ghost var was, all := buf[..], LowDigits(value, radix);
    LowDigitsCanonical(value, radix);
    hide LowDigits, Reversed;
    var n := WriteDigits(value, buf, at, radix);
    buf[at + n] := NUL;
    assert buf[..] == Patch(was, at, all + [NUL]);
    TerminatedString(was, at, all);
    assert buf[at..] == buf[..][at..];
    StrRev(buf, at);
    PatchReversed(was, at, all);
  }

  /** itoa: leaves the numeral of `value` and a NUL at `at`. */
  method Itoa(value: nat, buf: array<Byte>, at: nat, radix: nat) returns (ghost len: nat)
    requires value < UINT32 && 2 <= radix <= 36 && at + 33 <= buf.Length
    modifies buf
    ensures len == |Numeral(value, radix)| <= 32
    ensures buf[..] == Patch(old(buf[..]), at, Numeral(value, radix) + [NUL])
  {
    len := |Numeral(value, radix)|;
    if value == 0 {
      buf[at] := ZERO;
      buf[at + 1] := NUL;
      return;
    }
    Powers();
    LengthBound(value, radix, 2, 32);
    WriteNumeral(value, buf, at, radix);
  }

  // ----- printf's conversions; the result is the string handed to puts -----

  /** %#x: itoa at index 8, then zeros from the length of the numeral up to 8. */
  method AlternateHex(value: nat, conv: array<Byte>) returns (s: seq<Byte>)
    requires value < UINT32 && conv.Length == 64
    modifies conv
    ensures |s| == 8 && NUL !in s && IsNumeral(s, 16) && ValueOf(s, 16) == value
  {
    var len := Itoa(value, conv, 8, 16);
    ghost var digits, filled := Numeral(value, 16), conv[..];
    NumeralRoundTrip(value, 16, digits);
    HexLength(value);
    TerminatedString(old(conv[..]), 8, digits);
    assert conv[8..] == filled[8..];
    var start := StrLength(conv, 8);
    var i := start;
    while i < 8
      invariant start <= i <= 8
      invariant forall k :: start <= k < i ==> conv[k] == ZERO
      invariant conv[8..] == filled[8..]
    {
      conv[i] := ZERO;
      i := i + 1;
    }
    PaddedText(conv[..], start, digits);
    assert conv[..][8..] == conv[8..] && conv[..][start..] == conv[start..];
    s := CStr(conv[start..]);
    LeadingZeros(digits, 8 - start);
  }

  /** Zeros up to index 8 in front of the string at index 8. */
  lemma PaddedText(conv: seq<Byte>, start: nat, digits: seq<Byte>)
    requires |conv| == 64 && start <= 8 && |digits| == start && NUL !in digits && CStr(conv[8..]) == digits
    requires forall k :: start <= k < 8 ==> conv[k] == ZERO
    ensures CStr(conv[start..]) == Repeat(ZERO, 8 - start) + digits
  {
    var text := Repeat(ZERO, 8 - start) + digits;
    assert conv[8..][..start] == digits;
    assert conv[start..] == text + conv[8 + start..];
    StrLenUnique(conv[start..], 8);
  }

  lemma HexLength(value: nat)
    requires value < UINT32
    ensures |Numeral(value, 16)| <= 8
  {
    Powers();
    LengthBound(value, 16, 16, 8);
  }

  lemma TerminatedString(was: seq<Byte>, at: nat, s: seq<Byte>)
    requires at + |s| < |was| && NUL !in s
    ensures var now := Patch(was, at, s + [NUL]); NUL in now[at..] && StrLen(now[at..]) == |s| && CStr(now[at..]) == s
  {
    var tail := Patch(was, at, s + [NUL])[at..];
    assert tail[|s|] == NUL;
    assert forall k :: 0 <= k < |s| ==> tail[k] == s[k];
    StrLenUnique(tail, |s|);
  }

  lemma {:induction false} LeadingZeros(s: seq<Byte>, n: nat)
    ensures ValueOf(Repeat(ZERO, n) + s, 16) == ValueOf(s, 16)
    decreases |s|, n
  {
    var t := Repeat(ZERO, n) + s;
    if s != [] {
      assert t[..|t| - 1] == Repeat(ZERO, n) + s[..|s| - 1];
      LeadingZeros(s[..|s| - 1], n);
    } else if n > 0 {
      assert t[..|t| - 1] == Repeat(ZERO, n - 1) + s;
      LeadingZeros(s, n - 1);
    }
  }

  /** The integer that a decimal string with an optional minus sign denotes. */
  function SignedValueOf(s: seq<Byte>): int {
    if s != [] && s[0] == MINUS then 0 - (ValueOf(s[1..], 10) as int) else ValueOf(s, 10)
  }

  /** What %d prints for an integer. */
  function SignedNumeral(value: int): seq<Byte> {
    if value < 0 then [MINUS] + Numeral(-value, 10) else Numeral(value, 10)
  }

  lemma SignedRoundTrip(value: int)
    ensures SignedValueOf(SignedNumeral(value)) == value && NUL !in SignedNumeral(value)
  {
    var digits := Numeral(if value < 0 then -value else value, 10);
    NumeralRoundTrip(if value < 0 then -value else value, 10, digits);
    if value < 0 {
      assert SignedNumeral(value)[1..] == digits;
    } else {
      assert DigitValue(digits[0]) < 10;
    }
  }

  /** %d: the negation is made in 32 bits, so the least integer goes through as 2^31. */
  method SignedDecimal(value: int, conv: array<Byte>) returns (s: seq<Byte>)
    requires -INT32_MAX - 1 <= value <= INT32_MAX && conv.Length == 36
    modifies conv
    ensures s == SignedNumeral(value) && SignedValueOf(s) == value
  {
    ghost var was := conv[..];
    if value < 0 {
      conv[0] := MINUS;
      assert -value % UINT32 == -value;
      ghost var len := Itoa(-value % UINT32, conv, 1, 10);
    } else {
      ghost var len := Itoa(value, conv, 0, 10);
    }
    assert conv[..] == Patch(was, 0, SignedNumeral(value) + [NUL]);
    SignedRoundTrip(value);
    TerminatedString(was, 0, SignedNumeral(value));
    assert conv[0..] == conv[..];
    s := CStr(conv[..]);
  }
}
