/**
 The base64url encoder of the JWT signer and the base64 decoder of the value decoder.
 After exchanging the two alphabets' last letters they are inverse, although the decoder's
 32-bit accumulator is never cleared and wraps.
 */
module Base64 {
  import opened Text

  type Byte = x: int | 0 <= x < 256
  type Sextet = x: int | 0 <= x < 64

  // ----- Alphabets ------------------------------------------------------------

  function Letter(d: Sextet): char {
    if d < 26 then ('A' as int + d) as char
    else if d < 52 then ('a' as int + d - 26) as char
    else if d < 62 then ('0' as int + d - 52) as char
    else if d == 62 then '+' else '/'
  }

  function UrlLetter(d: Sextet): char {
    if d == 62 then '-' else if d == 63 then '_' else Letter(d)
  }

  /** The digit a letter stands for, or -1. */
  function DigitOf(c: char): (d: int)
    ensures -1 <= d < 64
  {
    if 'A' <= c <= 'Z' then c as int - 'A' as int
    else if 'a' <= c <= 'z' then c as int - 'a' as int + 26
    else if '0' <= c <= '9' then c as int - '0' as int + 52
    else if c == '+' then 62 else if c == '/' then 63 else -1
  }

  function ToStandard(c: char): char {
    if c == '-' then '+' else if c == '_' then '/' else c
  }

  function ToStandardText(s: string): (r: string)
    ensures |r| == |s| && forall i | 0 <= i < |s| :: r[i] == ToStandard(s[i])
  {
    seq(|s|, i requires 0 <= i < |s| => ToStandard(s[i]))
  }

  lemma LetterRoundTrip(d: Sextet)
    ensures DigitOf(ToStandard(UrlLetter(d))) == d
    ensures !Skipped(ToStandard(UrlLetter(d))) && ToStandard(UrlLetter(d)) as int < 256
  {
  }

  // ----- Encoder ----------------------------------------------------------------

  function Triple(a: Byte, b: Byte, c: Byte): int {
    a * 65536 + b * 256 + c
  }

  /** The k-th group of six bits, counted from the right. */
  function Sixth(n: int, k: nat): Sextet
    requires n >= 0 && k < 4
  {
    (if k == 3 then n / 262144 else if k == 2 then n / 4096 else if k == 1 then n / 64 else n) % 64
  }

  function Group(a: Byte, b: Byte, c: Byte): string {
    var n := Triple(a, b, c);
    [UrlLetter(Sixth(n, 3)), UrlLetter(Sixth(n, 2)), UrlLetter(Sixth(n, 1)), UrlLetter(Sixth(n, 0))]
  }

  /** One or two trailing bytes give two or three letters and no padding. */
  function Encode(data: seq<Byte>): string {
    if |data| == 0 then ""
    else if |data| == 1 then Group(data[0], 0, 0)[..2]
    else if |data| == 2 then Group(data[0], data[1], 0)[..3]
    else Group(data[0], data[1], data[2]) + Encode(data[3..])
  }

  method Base64Url(data: seq<Byte>) returns (out: string)
    ensures out == Encode(data)
  {
    out := "";
    var i := 0;
    while i + 3 <= |data|
      invariant 0 <= i <= |data| && out + Encode(data[i..]) == Encode(data)
    {
      assert data[i..][3..] == data[i + 3..];
      Assoc(out, Group(data[i], data[i + 1], data[i + 2]), Encode(data[i + 3..]));
      var n := Triple(data[i], data[i + 1], data[i + 2]);
      out := out + [UrlLetter(Sixth(n, 3)), UrlLetter(Sixth(n, 2)), UrlLetter(Sixth(n, 1)), UrlLetter(Sixth(n, 0))];
      i := i + 3;
    }
    if i < |data| {
      var two := i + 1 < |data|;
      var n := Triple(data[i], if two then data[i + 1] else 0, 0);
      out := out + [UrlLetter(Sixth(n, 3)), UrlLetter(Sixth(n, 2))];
      if two {
        out := out + [UrlLetter(Sixth(n, 1))];
      }
    }
  }

  // ----- Decoder ----------------------------------------------------------------

  /** Two's-complement wrap-around to 32 bits. */
  function Wrap32(x: int): int {
    (x + 0x8000_0000) % 0x1_0000_0000 - 0x8000_0000
  }

  predicate Skipped(c: char) {
    c == '=' || c == '\n' || c == '\r' || c == ' '
  }

  /** (val >> bits) & 0xFF with the accumulator's arithmetic shift. */
  function ByteAt(val: int, bits: int): Byte
    requires 0 <= bits < 6
  {
    val / Pow2(bits) % 256
  }

  function Pow2(k: int): (p: int)
    requires 0 <= k < 6
    ensures p > 0
  {
    if k == 0 then 1 else if k == 1 then 2 else if k == 2 then 4 else if k == 3 then 8 else if k == 4 then 16 else 32
  }

  function Prepend(b: Byte, r: Option<seq<Byte>>): Option<seq<Byte>> {
    match r case None => None case Some(bs) => Some([b] + bs)
  }

  /** What the rest of the text adds to the output; None is the exception. */
  function DecodeFrom(s: string, val: int, bits: int): Option<seq<Byte>>
    requires -8 <= bits < 0
  {
    if s == "" then Some([])
    else if Skipped(s[0]) then DecodeFrom(s[1..], val, bits)
    else if DigitOf(s[0]) < 0 then None
    else
      var val' := Wrap32(Wrap32(val * 64) + DigitOf(s[0]));
      if bits + 6 >= 0 then Prepend(ByteAt(val', bits + 6), DecodeFrom(s[1..], val', bits - 2))
      else DecodeFrom(s[1..], val', bits + 6)
  }

  function CodeDigit(code: int): int
    requires 0 <= code < 256
  {
    DigitOf(code as char)
  }

  method FillTable() returns (table: array<int>)
    ensures fresh(table) && table.Length == 256
    ensures forall c | 0 <= c < 256 :: table[c] == CodeDigit(c)
  {
    table := new int[256];
    for i := 0 to 256
      invariant forall c | 0 <= c < i :: table[c] == -1
    {
      table[i] := -1;
    }
    for i := 0 to 64
      invariant forall c | 0 <= c < 256 :: table[c] == if CodeDigit(c) < i then CodeDigit(c) else -1
    {
      table[Letter(i) as int] := i;
      forall c | 0 <= c < 256 ensures CodeDigit(c) == i <==> c == Letter(i) as int { LetterOf(c as char, i); }
    }
  }

  lemma LetterOf(c: char, d: Sextet)
    ensures DigitOf(c) == d <==> c == Letter(d)
  {
  }

  function Append(out: seq<Byte>, r: Option<seq<Byte>>): Option<seq<Byte>> {
    match r case None => None case Some(bs) => Some(out + bs)
  }

  lemma AppendPrepend(out: seq<Byte>, b: Byte, r: Option<seq<Byte>>)
    ensures Append(out, Prepend(b, r)) == Append(out + [b], r)
  {
    if r.Some? { assert out + ([b] + r.value) == out + [b] + r.value; }
  }

  method DecodeBase64(text: string) returns (r: Option<seq<Byte>>)
    ensures r == DecodeFrom(text, 0, -8)
  {
    var table := FillTable();
    var out: seq<Byte> := [];
    var val, bits := 0, -8;
    ghost var target := DecodeFrom(text, 0, -8);
    assert text[0..] == text;
    assert target.Some? ==> [] + target.value == target.value;
    for i := 0 to |text|
      invariant -8 <= bits < 0
      invariant forall c | 0 <= c < 256 :: table[c] == CodeDigit(c)
      invariant Append(out, DecodeFrom(text[i..], val, bits)) == target
    {
      assert text[i..][1..] == text[i + 1..];
      var c := text[i];
      if c == '=' || c == '\n' || c == '\r' || c == ' ' {
        continue;
      }
      var d := if c as int < 256 then table[c as int] else -1;
      assert d == DigitOf(c);
      if d == -1 {
        return None;
      }
      val := Wrap32(Wrap32(val * 64) + d);
      bits := bits + 6;
      if bits >= 0 {
        AppendPrepend(out, ByteAt(val, bits), DecodeFrom(text[i + 1..], val, bits - 8));
        out := out + [ByteAt(val, bits)];
        bits := bits - 8;
      }
    }
    assert text[|text|..] == "";
    assert out + [] == out;
    return Some(out);
  }

  // ----- Arithmetic -----------------------------------------------------------------

  lemma SmallMultiple(k: int, m: int)
    requires m > 0 && -m < k * m < m
    ensures k == 0
  {
  }

  /** Quotient and remainder are determined by the division equation. */
  lemma Divide(x: int, q: int, r: int, m: int)
    requires m > 0 && 0 <= r < m && x == q * m + r
    ensures x / m == q && x % m == r
  {
    var p, s := x / m, x % m;
    assert x == p * m + s && 0 <= s < m;
    assert (q - p) * m == s - r;
    SmallMultiple(q - p, m);
  }

  lemma WrapKeepsLowBits(x: int)
    ensures Wrap32(x) % 4096 == x % 4096
  {
    var k := (x + 0x8000_0000) / 0x1_0000_0000;
    Divide(Wrap32(x), x / 4096 - k * 1048576, x % 4096, 4096);
  }

  /** Wrapping does not touch the low twelve bits, and no output byte looks above them. */
  lemma WrapIsInvisible(val: int, d: Sextet)
    ensures Wrap32(Wrap32(val * 64) + d) % 4096 == val % 64 * 64 + d
  {
    var x := Wrap32(val * 64);
    WrapKeepsLowBits(val * 64);
    Divide(val * 64, val / 64, val % 64 * 64, 4096);
    WrapKeepsLowBits(x + d);
    Divide(x + d, x / 4096, val % 64 * 64 + d, 4096);
  }

  lemma ByteFromLowBits(val: int, bits: int)
    requires bits == 0 || bits == 2 || bits == 4
    ensures ByteAt(val, bits) == val % 4096 / Pow2(bits) % 256
  {
    var q, r := val / 4096, val % 4096;
    if bits == 0 {
      Divide(val, q * 16 + r / 256, r % 256, 256);
    } else if bits == 2 {
      Divide(val, q * 1024 + r / 4, r % 4, 4);
      Divide(q * 1024 + r / 4, q * 4 + r / 4 / 256, r / 4 % 256, 256);
    } else {
      Divide(val, q * 256 + r / 16, r % 16, 16);
      Divide(q * 256 + r / 16, q + r / 16 / 256, r / 16 % 256, 256);
    }
  }

  lemma FirstByteBits(a: Byte, b: Byte)
    ensures 0 <= a % 4 * 16 + b / 16 < 64 && (a / 4 * 64 + (a % 4 * 16 + b / 16)) / 16 % 256 == a
    ensures (a / 4 * 64 + (a % 4 * 16 + b / 16)) % 64 == a % 4 * 16 + b / 16
  {
    Divide(a / 4 * 64 + (a % 4 * 16 + b / 16), a, b / 16, 16);
    Divide(a / 4 * 64 + (a % 4 * 16 + b / 16), a / 4, a % 4 * 16 + b / 16, 64);
  }

  lemma SecondByteBits(a: Byte, b: Byte, c: Byte)
    ensures 0 <= b % 16 * 4 + c / 64 < 64
    ensures ((a % 4 * 16 + b / 16) * 64 + (b % 16 * 4 + c / 64)) / 4 % 256 == b
    ensures ((a % 4 * 16 + b / 16) * 64 + (b % 16 * 4 + c / 64)) % 64 == b % 16 * 4 + c / 64
  {
    var x := (a % 4 * 16 + b / 16) * 64 + (b % 16 * 4 + c / 64);
    Divide(x, a % 4 * 256 + b, c / 64, 4);
    Divide(a % 4 * 256 + b, a % 4, b, 256);
    Divide(x, a % 4 * 16 + b / 16, b % 16 * 4 + c / 64, 64);
  }

  lemma ThirdByteBits(b: Byte, c: Byte)
    ensures ((b % 16 * 4 + c / 64) * 64 + c % 64) % 256 == c
  {
    Divide((b % 16 * 4 + c / 64) * 64 + c % 64, b % 16, c, 256);
  }

  // ----- Round trip ---------------------------------------------------------------

  lemma SixthsOf(a: Byte, b: Byte, c: Byte)
    ensures var n := Triple(a, b, c);
            && Sixth(n, 3) == a / 4 && Sixth(n, 2) == a % 4 * 16 + b / 16
            && Sixth(n, 1) == b % 16 * 4 + c / 64 && Sixth(n, 0) == c % 64
  {
    var n := Triple(a, b, c);
    Divide(n, a * 1024 + b * 4 + c / 64, c % 64, 64);
    Divide(a * 1024 + b * 4 + c / 64, a * 16 + b / 16, b % 16 * 4 + c / 64, 64);
    Divide(n, a * 16 + b / 16, b % 16 * 256 + c, 4096);
    Divide(a * 16 + b / 16, a / 4, a % 4 * 16 + b / 16, 64);
    Divide(n, a / 4, a % 4 * 65536 + b * 256 + c, 262144);
  }

  lemma DecodeDigit(d: Sextet, rest: string, val: int, bits: int)
    requires -8 <= bits < 0
    ensures var val' := Wrap32(Wrap32(val * 64) + d);
            DecodeFrom([ToStandard(UrlLetter(d))] + rest, val, bits) ==
            (if bits + 6 >= 0 then Prepend(ByteAt(val', bits + 6), DecodeFrom(rest, val', bits - 2))
             else DecodeFrom(rest, val', bits + 6))
  {
    LetterRoundTrip(d);
    assert ([ToStandard(UrlLetter(d))] + rest)[1..] == rest;
  }

  function Std(d: Sextet): string {
    [ToStandard(UrlLetter(d))]
  }

  /** Two letters carry the first byte, whatever the accumulator held before. */
  lemma FirstByte(a: Byte, b: Byte, d0: Sextet, d1: Sextet, rest: string, val: int) returns (val': int)
    requires d0 == a / 4 && d1 == a % 4 * 16 + b / 16
    ensures val' % 64 == d1
    ensures DecodeFrom(Std(d0) + (Std(d1) + rest), val, -8) == Prepend(a, DecodeFrom(rest, val', -4))
  {
    var v0 := Wrap32(Wrap32(val * 64) + d0);
    val' := Wrap32(Wrap32(v0 * 64) + d1);
    DecodeDigit(d0, Std(d1) + rest, val, -8);
    DecodeDigit(d1, rest, v0, -2);
    WrapIsInvisible(val, d0);
    WrapIsInvisible(v0, d1);
    LowSix(v0, val % 64, d0);
    LowSix(val', d0, d1);
    ByteFromLowBits(val', 4);
    FirstByteBits(a, b);
  }

  lemma LowSix(v: int, hi: Sextet, lo: Sextet)
    requires v % 4096 == hi * 64 + lo
    ensures v % 64 == lo
  {
    Divide(v, v / 4096 * 64 + hi, lo, 64);
  }

  lemma SecondByte(a: Byte, b: Byte, c: Byte, d: Sextet, rest: string, val: int) returns (val': int)
    requires val % 64 == a % 4 * 16 + b / 16 && d == b % 16 * 4 + c / 64
    ensures val' % 64 == d
    ensures DecodeFrom(Std(d) + rest, val, -4) == Prepend(b, DecodeFrom(rest, val', -6))
  {
    val' := Wrap32(Wrap32(val * 64) + d);
    DecodeDigit(d, rest, val, -4);
    WrapIsInvisible(val, d);
    LowSix(val', val % 64, d);
    ByteFromLowBits(val', 2);
    SecondByteBits(a, b, c);
  }

  lemma ThirdByte(b: Byte, c: Byte, d: Sextet, rest: string, val: int) returns (val': int)
    requires val % 64 == b % 16 * 4 + c / 64 && d == c % 64
    ensures DecodeFrom(Std(d) + rest, val, -6) == Prepend(c, DecodeFrom(rest, val', -8))
  {
    val' := Wrap32(Wrap32(val * 64) + d);
    DecodeDigit(d, rest, val, -6);
    WrapIsInvisible(val, d);
    ByteFromLowBits(val', 0);
    ThirdByteBits(b, c);
  }

  /** A full group of four letters gives its three bytes back. */
  lemma GroupRoundTrip(a: Byte, b: Byte, c: Byte, rest: string, val: int) returns (val': int)
    ensures DecodeFrom(ToStandardText(Group(a, b, c)) + rest, val, -8) ==
            Prepend(a, Prepend(b, Prepend(c, DecodeFrom(rest, val', -8))))
  {
    SixthsOf(a, b, c);
    var n := Triple(a, b, c);
    var s0, s1, s2, s3 := Sixth(n, 3), Sixth(n, 2), Sixth(n, 1), Sixth(n, 0);
    var t2 := Std(s2) + (Std(s3) + rest);
    var v1 := FirstByte(a, b, s0, s1, t2, val);
    var v2 := SecondByte(a, b, c, s2, Std(s3) + rest, v1);
    val' := ThirdByte(b, c, s3, rest, v2);
    GroupText(a, b, c, rest);
  }

  lemma GroupText(a: Byte, b: Byte, c: Byte, rest: string)
    ensures var n := Triple(a, b, c);
            ToStandardText(Group(a, b, c)) + rest ==
            Std(Sixth(n, 3)) + (Std(Sixth(n, 2)) + (Std(Sixth(n, 1)) + (Std(Sixth(n, 0)) + rest)))
  {
    var n := Triple(a, b, c);
    FourLetters(Sixth(n, 3), Sixth(n, 2), Sixth(n, 1), Sixth(n, 0), rest);
  }

  lemma FourLetters(w: Sextet, x: Sextet, y: Sextet, z: Sextet, rest: string)
    ensures ToStandardText([UrlLetter(w), UrlLetter(x), UrlLetter(y), UrlLetter(z)]) + rest ==
            Std(w) + (Std(x) + (Std(y) + (Std(z) + rest)))
  {
    assert ToStandardText([UrlLetter(w), UrlLetter(x), UrlLetter(y), UrlLetter(z)]) ==
           [ToStandard(UrlLetter(w)), ToStandard(UrlLetter(x)), ToStandard(UrlLetter(y)), ToStandard(UrlLetter(z))];
  }

  lemma ToStandardAppend(a: string, b: string)
    ensures ToStandardText(a + b) == ToStandardText(a) + ToStandardText(b)
  {
  }

  lemma FirstGroup(data: seq<Byte>, val: int) returns (val': int)
    requires |data| >= 3
    ensures DecodeFrom(ToStandardText(Encode(data)), val, -8) ==
            Prepend(data[0], Prepend(data[1], Prepend(data[2],
              DecodeFrom(ToStandardText(Encode(data[3..])), val', -8))))
  {
    var a, b, c := data[0], data[1], data[2];
    ToStandardAppend(Group(a, b, c), Encode(data[3..]));
    val' := GroupRoundTrip(a, b, c, ToStandardText(Encode(data[3..])), val);
  }

  /** From any accumulator value: decoding what was encoded returns the bytes. */
  lemma {:induction false} DecodeEncoded(data: seq<Byte>, val: int)
    ensures DecodeFrom(ToStandardText(Encode(data)), val, -8) == Some(data)
    decreases |data|
  {
    if |data| < 3 {
      ShortRoundTrip(data, val);
    } else {
      var v := FirstGroup(data, val);
      DecodeEncoded(data[3..], v);
      FirstThree(data);
    }
  }

  lemma FirstThree(data: seq<Byte>)
    requires |data| >= 3
    ensures Prepend(data[0], Prepend(data[1], Prepend(data[2], Some(data[3..])))) == Some(data)
  {
    assert data == [data[0]] + ([data[1]] + ([data[2]] + data[3..]));
  }

  lemma ShortRoundTrip(data: seq<Byte>, val: int)
    requires |data| < 3
    ensures DecodeFrom(ToStandardText(Encode(data)), val, -8) == Some(data)
  {
    if |data| == 1 {
      OneByte(data[0], val);
      assert data == [data[0]];
    } else if |data| == 2 {
      TwoBytes(data[0], data[1], val);
      assert data == [data[0], data[1]];
    }
  }

  lemma OneByte(a: Byte, val: int)
    ensures DecodeFrom(ToStandardText(Encode([a])), val, -8) == Some([a])
  {
    SixthsOf(a, 0, 0);
    var n := Triple(a, 0, 0);
    var v := FirstByte(a, 0, Sixth(n, 3), Sixth(n, 2), "", val);
    assert ToStandardText(Encode([a])) == Std(Sixth(n, 3)) + (Std(Sixth(n, 2)) + "");
    assert [a] + [] == [a];
  }

  lemma TwoBytes(a: Byte, b: Byte, val: int)
    ensures DecodeFrom(ToStandardText(Encode([a, b])), val, -8) == Some([a, b])
  {
    SixthsOf(a, b, 0);
    var n := Triple(a, b, 0);
    var v := FirstByte(a, b, Sixth(n, 3), Sixth(n, 2), Std(Sixth(n, 1)) + "", val);
    var w := SecondByte(a, b, 0, Sixth(n, 1), "", v);
    assert ToStandardText(Encode([a, b])) == Std(Sixth(n, 3)) + (Std(Sixth(n, 2)) + (Std(Sixth(n, 1)) + ""));
    assert [a] + ([b] + []) == [a, b];
  }

  /** Base64Url, the alphabet exchange and DecodeBase64 return every byte string. */
  lemma RoundTrip(data: seq<Byte>)
    ensures DecodeFrom(ToStandardText(Encode(data)), 0, -8) == Some(data)
  {
    DecodeEncoded(data, 0);
  }

  // ----- Padding and line breaks --------------------------------------------------

  /** The text without padding, spaces and line breaks. */
  function Stripped(s: string): string {
    if s == "" then ""
    else (if s[0] in {'=', ' ', '\r', '\n'} then "" else [s[0]]) + Stripped(s[1..])
  }

  lemma {:induction false} StrippedAppend(a: string, b: string)
    ensures Stripped(a + b) == Stripped(a) + Stripped(b)
  {
    if a == "" {
      assert a + b == b;
    } else {
      assert (a + b)[1..] == a[1..] + b;
      StrippedAppend(a[1..], b);
      Assoc(if a[0] in {'=', ' ', '\r', '\n'} then "" else [a[0]], Stripped(a[1..]), Stripped(b));
    }
  }

  /** Padding, spaces and line breaks, wherever they stand, do not change the decoded bytes. */
  lemma {:induction false} PaddingIsIgnored(s: string, val: int, bits: int)
    requires -8 <= bits < 0
    ensures DecodeFrom(s, val, bits) == DecodeFrom(Stripped(s), val, bits)
    decreases |s|
  {
    if s != "" {
      if s[0] in {'=', ' ', '\r', '\n'} {
        PaddingIsIgnored(s[1..], val, bits);
        assert Stripped(s) == Stripped(s[1..]);
      } else {
        assert Stripped(s)[1..] == Stripped(s[1..]) && Stripped(s)[0] == s[0];
        if DigitOf(s[0]) >= 0 {
          var val' := Wrap32(Wrap32(val * 64) + DigitOf(s[0]));
          PaddingIsIgnored(s[1..], val', if bits + 6 >= 0 then bits - 2 else bits + 6);
        }
      }
    }
  }

  /** Encoded text with any padding and broken into any lines decodes to the same bytes. */
  lemma PaddedRoundTrip(data: seq<Byte>, text: string)
    requires Stripped(text) == Stripped(ToStandardText(Encode(data)))
    ensures DecodeFrom(text, 0, -8) == Some(data)
  {
    PaddingIsIgnored(text, 0, -8);
    PaddingIsIgnored(ToStandardText(Encode(data)), 0, -8);
    DecodeEncoded(data, 0);
  }

  lemma {:induction false} OnlyPadding(pad: string)
    requires forall i | 0 <= i < |pad| :: pad[i] == '='
    ensures Stripped(pad) == ""
  {
    if pad != "" { OnlyPadding(pad[1..]); }
  }

  /** In particular the padded form of section 4 of RFC 4648. */
  lemma PaddedAtTheEnd(data: seq<Byte>, pad: string)
    requires forall i | 0 <= i < |pad| :: pad[i] == '='
    ensures DecodeFrom(ToStandardText(Encode(data)) + pad, 0, -8) == Some(data)
  {
    var text := ToStandardText(Encode(data));
    StrippedAppend(text, pad);
    OnlyPadding(pad);
    assert Stripped(text) + "" == Stripped(text);
    PaddedRoundTrip(data, text + pad);
  }
}
