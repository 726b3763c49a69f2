/** Unicode scalar values and their three encoding forms, after RFC 3629 and RFC 2781. */
module Unicode {
  /** A code unit of any of the three forms, as wide as the widest. */
  type Unit = u: int | 0 <= u < 0x1_0000_0000

  datatype Form = Utf8 | Utf16 | Utf32

  const SUR_HIGH_START: Unit := 0xD800
  const SUR_HIGH_END: Unit := 0xDBFF
  const SUR_LOW_START: Unit := 0xDC00
  const SUR_LOW_END: Unit := 0xDFFF
  const MAX_BMP: Unit := 0xFFFF
  const MAX_LEGAL: Unit := 0x10FFFF
  const REPLACEMENT: Unit := 0xFFFD
  const HALF_BASE: Unit := 0x10000

  predicate Surrogate(ch: Unit)
  {
    SUR_HIGH_START <= ch <= SUR_LOW_END
  }

  predicate Scalar(ch: Unit)
  {
    ch <= MAX_LEGAL && !Surrogate(ch)
  }

  predicate HighSurrogate(u: Unit)
  {
    SUR_HIGH_START <= u <= SUR_HIGH_END
  }

  predicate LowSurrogate(u: Unit)
  {
    SUR_LOW_START <= u <= SUR_LOW_END
  }

  /** UTF-8 of any value up to 0x10FFFF, surrogates included (section 3 of RFC 3629 gives the bit layout). */
  function Utf8Bytes(ch: Unit): (r: seq<Unit>)
    requires ch <= MAX_LEGAL
    ensures 1 <= |r| <= 4
    ensures forall i :: 0 <= i < |r| ==> r[i] < 256
  {
    if ch < 0x80 then [ch]
    else if ch < 0x800 then [0xC0 + ch / 64, 0x80 + ch % 64]
    else if ch < 0x10000 then [0xE0 + ch / 4096, 0x80 + ch / 64 % 64, 0x80 + ch % 64]
    else [0xF0 + ch / 262144, 0x80 + ch / 4096 % 64, 0x80 + ch / 64 % 64, 0x80 + ch % 64]
  }

  /** UTF-16: one unit, or a surrogate pair (section 2.1 of RFC 2781). */
  function Utf16Units(ch: Unit): (r: seq<Unit>)
    requires ch <= MAX_LEGAL
    ensures 1 <= |r| <= 2
    ensures forall i :: 0 <= i < |r| ==> r[i] < 65536
  {
    if ch <= MAX_BMP then [ch]
    else [(ch - HALF_BASE) / 1024 + SUR_HIGH_START, (ch - HALF_BASE) % 1024 + SUR_LOW_START]
  }

  function Encode(form: Form, ch: Unit): (r: seq<Unit>)
    requires ch <= MAX_LEGAL
    ensures 1 <= |r| <= 4
  {
    match form
    case Utf8 => Utf8Bytes(ch)
    case Utf16 => Utf16Units(ch)
    case Utf32 => [ch]
  }

  ghost predicate Scalars(s: seq<Unit>)
  {
    forall i :: 0 <= i < |s| ==> Scalar(s[i])
  }

  function EncodeAll(form: Form, s: seq<Unit>): (r: seq<Unit>)
    requires forall i :: 0 <= i < |s| ==> Scalar(s[i])
  {
    if s == [] then [] else assert Scalar(s[0]); Encode(form, s[0]) + EncodeAll(form, s[1..])
  }

  lemma {:induction false} EncodeAll32(s: seq<Unit>)
    requires Scalars(s)
    ensures EncodeAll(Utf32, s) == s
  {
    if s != [] { EncodeAll32(s[1..]); }
  }

  // ------------------------------------------------------------------ legal UTF-8

  predicate Tail(b: Unit)
  {
    0x80 <= b <= 0xBF
  }

  /** The byte sequences of section 4 of RFC 3629, case by case. */
  predicate RfcUtf8(s: seq<Unit>)
  {
    if |s| == 1 then s[0] <= 0x7F
    else if |s| == 2 then 0xC2 <= s[0] <= 0xDF && Tail(s[1])
    else if |s| == 3 then
      && Tail(s[2])
      && (|| (s[0] == 0xE0 && 0xA0 <= s[1] <= 0xBF)
          || (0xE1 <= s[0] <= 0xEC && Tail(s[1]))
          || (s[0] == 0xED && 0x80 <= s[1] <= 0x9F)
          || (0xEE <= s[0] <= 0xEF && Tail(s[1])))
    else if |s| == 4 then
      && Tail(s[2]) && Tail(s[3])
      && (|| (s[0] == 0xF0 && 0x90 <= s[1] <= 0xBF)
          || (0xF1 <= s[0] <= 0xF3 && Tail(s[1]))
          || (s[0] == 0xF4 && 0x80 <= s[1] <= 0x8F))
    else false
  }

  /** How many bytes should follow a first byte. */
  function TrailingBytes(b: Unit): (n: nat)
    ensures n <= 5
  {
    if b < 0xC0 then 0
    else if b < 0xE0 then 1
    else if b < 0xF0 then 2
    else if b < 0xF8 then 3
    else if b < 0xFC then 4
    else 5
  }

  /** The converters' own test. For the first bytes 0xED and 0xF4 it has no lower limit on the second. */
  predicate IsLegalUtf8(s: seq<Unit>)
    requires |s| >= 1
  {
    && |s| <= 4
    && (|s| >= 4 ==> 0x80 <= s[3] <= 0xBF)
    && (|s| >= 3 ==> 0x80 <= s[2] <= 0xBF)
    && (|s| >= 2 ==>
          && s[1] <= 0xBF
          && (if s[0] == 0xE0 then s[1] >= 0xA0
              else if s[0] == 0xED then s[1] <= 0x9F
              else if s[0] == 0xF0 then s[1] >= 0x90
              else if s[0] == 0xF4 then s[1] <= 0x8F
              else s[1] >= 0x80))
    && !(0x80 <= s[0] < 0xC2)
    && s[0] <= 0xF4
  }

  /** The extra sequences the converters' test lets through. */
  predicate LooseUtf8(s: seq<Unit>)
  {
    || (|s| == 3 && s[0] == 0xED && s[1] < 0x80 && Tail(s[2]))
    || (|s| == 4 && s[0] == 0xF4 && s[1] < 0x80 && Tail(s[2]) && Tail(s[3]))
  }

  /** With the length the first byte calls for, the test accepts the RFC's sequences and the loose ones, no others. */
  lemma LegalExactly(s: seq<Unit>)
    requires |s| >= 1 && |s| == TrailingBytes(s[0]) + 1
    ensures IsLegalUtf8(s) <==> RfcUtf8(s) || LooseUtf8(s)
    ensures !(RfcUtf8(s) && LooseUtf8(s))
  {
  }

  /** Bytes gathered six bits at a time, as the converters do before they subtract the offset. */
  function Gather(s: seq<Unit>): nat
  {
    if s == [] then 0 else 64 * Gather(s[..|s| - 1]) + s[|s| - 1]
  }

  /** What the marker bits of a sequence with this many trailing bytes add up to. */
  function Offset(extra: nat): nat
    requires extra <= 3
  {
    if extra == 0 then 0 else if extra == 1 then 0x3080 else if extra == 2 then 0xE2080 else 0x3C82080
  }

  lemma {:induction false} GatherFour(s: seq<Unit>)
    requires 1 <= |s| <= 4
    ensures |s| == 1 ==> Gather(s) == s[0]
    ensures |s| == 2 ==> Gather(s) == 64 * (s[0] as int) + s[1]
    ensures |s| == 3 ==> Gather(s) == 4096 * (s[0] as int) + 64 * (s[1] as int) + s[2]
    ensures |s| == 4 ==> Gather(s) == 262144 * (s[0] as int) + 4096 * (s[1] as int) + 64 * (s[2] as int) + s[3]
  {
    if |s| > 1 { GatherFour(s[..|s| - 1]); }
  }

  /** Everything the test accepts stands for a scalar value. */
  lemma LegalIsScalar(s: seq<Unit>)
    requires |s| >= 1 && |s| == TrailingBytes(s[0]) + 1 && IsLegalUtf8(s)
    ensures Offset(|s| - 1) <= Gather(s) < 0x1_0000_0000
    ensures Scalar(Gather(s) - Offset(|s| - 1))
  {
    hide Gather;
    GatherFour(s);
  }

  /** The digits of a number written to the base 64 under a leading part. */
  lemma Digits(a: nat, b: nat, c: nat, d: nat)
    requires b < 64 && c < 64 && d < 64
    ensures (var n := 262144 * a + 4096 * b + 64 * c + d;
             n % 64 == d && n / 64 % 64 == c && n / 4096 % 64 == b && n / 262144 == a
             && n / 64 == 4096 * a + 64 * b + c && n / 4096 == 64 * a + b)
  {
  }

  lemma Utf8OfDigits(a: nat, b: nat, c: nat, d: nat)
    requires b < 64 && c < 64 && d < 64
    requires (var n := 262144 * a + 4096 * b + 64 * c + d; n <= MAX_LEGAL)
    ensures (var n := 262144 * a + 4096 * b + 64 * c + d;
             && (0x80 <= n < 0x800 ==> Utf8Bytes(n) == [0xC0 + c, 0x80 + d])
             && (0x800 <= n < 0x10000 ==> Utf8Bytes(n) == [0xE0 + b, 0x80 + c, 0x80 + d])
             && (0x10000 <= n ==> Utf8Bytes(n) == [0xF0 + a, 0x80 + b, 0x80 + c, 0x80 + d]))
  {
    Digits(a, b, c, d);
  }

  /** A legal sequence for the RFC is the encoding of the value gathered from it. */
  lemma RfcIsEncoding(s: seq<Unit>)
    requires RfcUtf8(s)
    ensures (var n := Gather(s) - Offset(|s| - 1);
             0 <= n <= MAX_LEGAL && Scalar(n) && Utf8Bytes(n) == s)
  {
    hide Gather, Utf8Bytes;
    GatherFour(s);
    if |s| == 1 {
      AsciiBytes(s[0]);
    } else if |s| == 2 {
      Utf8OfDigits(0, 0, s[0] - 0xC0, s[1] - 0x80);
    } else if |s| == 3 {
      RfcThree(s);
    } else {
      RfcFour(s);
    }
  }

  lemma RfcThree(s: seq<Unit>)
    requires |s| == 3 && RfcUtf8(s)
    ensures (var n := 4096 * (s[0] as int) + 64 * (s[1] as int) + s[2] - Offset(2);
             0 <= n <= MAX_LEGAL && Scalar(n) && Utf8Bytes(n) == s)
  {
    hide Utf8Bytes;
    Utf8OfDigits(0, s[0] - 0xE0, s[1] - 0x80, s[2] - 0x80);
  }

  lemma RfcFour(s: seq<Unit>)
    requires |s| == 4 && RfcUtf8(s)
    ensures (var n := 262144 * (s[0] as int) + 4096 * (s[1] as int) + 64 * (s[2] as int) + s[3] - Offset(3);
             0 <= n <= MAX_LEGAL && Scalar(n) && Utf8Bytes(n) == s)
  {
    hide Utf8Bytes;
    Utf8OfDigits(s[0] - 0xF0, s[1] - 0x80, s[2] - 0x80, s[3] - 0x80);
  }

  lemma AsciiBytes(b: Unit)
    requires b < 0x80
    ensures Utf8Bytes(b) == [b]
  {
  }

  lemma DigitsOf(n: nat)
    requires n <= MAX_LEGAL
    ensures n == 262144 * (n / 262144) + 4096 * (n / 4096 % 64) + 64 * (n / 64 % 64) + n % 64
    ensures n < 0x10000 ==> n / 262144 == 0
    ensures n < 0x800 ==> n / 4096 % 64 == 0
    ensures n / 262144 <= 4
  {
    var (p, q) := (n / 64, n / 4096);
    assert n == 64 * p + n % 64;
    assert q == p / 64 && p == 64 * q + p % 64;
    assert n / 262144 == q / 64 && q == 64 * (q / 64) + q % 64;
  }

  /** Every scalar value's bytes are legal for the RFC, and gather back to it. */
  lemma EncodingIsRfc(ch: Unit)
    requires Scalar(ch)
    ensures RfcUtf8(Utf8Bytes(ch))
    ensures |Utf8Bytes(ch)| == TrailingBytes(Utf8Bytes(ch)[0]) + 1
    ensures Gather(Utf8Bytes(ch)) == ch + Offset(|Utf8Bytes(ch)| - 1)
  {
    hide Gather, Utf8Bytes;
    if ch < 0x80 { AsciiBytes(ch); }
    var (a: nat, b: nat, c: nat, d: nat) := (ch / 262144, ch / 4096 % 64, ch / 64 % 64, ch % 64);
    DigitsOf(ch);
    Utf8OfDigits(a, b, c, d);
    GatherFour(Utf8Bytes(ch));
  }
}
