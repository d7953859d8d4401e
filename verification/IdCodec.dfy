/**
 Salesforce Ids as base-62 numbers. The digit alphabet is in byte order, so the
 number of an Id's first ten characters follows the lexical order of Ids, and
 turning a number back into an Id keeps that order. Arithmetic is on 64-bit
 words; nothing here wraps.
 */
module IdCodec {
  import opened Text

  const WORD: nat := 0x1_0000_0000_0000_0000
  const ID_PREC: nat := 10

  function Base62Val(c: char): (v: nat)
    ensures v < 62
  {
    if '0' <= c <= '9' then (c as int) - ('0' as int)
    else if 'A' <= c <= 'Z' then (c as int) - ('A' as int) + 10
    else if 'a' <= c <= 'z' then (c as int) - ('a' as int) + 36
    else 0
  }

  function Base62Char(v: nat): (c: char)
    requires v < 62
    ensures IsAlphaNumeric(c) && Base62Val(c) == v
  {
    if v < 10 then ('0' as int + v) as char
    else if v < 36 then ('A' as int + v - 10) as char
    else ('a' as int + v - 36) as char
  }

  predicate IsId(s: string) {
    forall i | 0 <= i < |s| :: IsAlphaNumeric(s[i])
  }

  function Zeros(k: nat): (z: string)
    ensures |z| == k && forall i | 0 <= i < k :: z[i] == '0'
  {
    seq(k, i => '0')
  }

  function Pow62(k: nat): nat {
    if k == 0 then 1 else 62 * Pow62(k - 1)
  }

  lemma TenDigitsFit()
    ensures Pow62(10) == 839299365868340224
    ensures 8 * Pow62(10) < WORD
  {
    assert Pow62(1) == 62;
    assert Pow62(2) == 3844;
    assert Pow62(3) == 238328;
    assert Pow62(4) == 14776336;
    assert Pow62(5) == 916132832;
    assert Pow62(6) == 56800235584;
    assert Pow62(7) == 3521614606208;
    assert Pow62(8) == 218340105584896;
    assert Pow62(9) == 13537086546263552;
  }

  // ----- Id to number -------------------------------------------------------

  function Digit(id: string, i: nat): (d: nat)
    ensures d < 62
  {
    if i < |id| then Base62Val(id[i]) else 0
  }

  /** The number spelled by the first k characters, missing ones counting as zero. */
  function Number(id: string, k: nat): nat {
    if k == 0 then 0 else Number(id, k - 1) * 62 + Digit(id, k - 1)
  }

  lemma {:induction false} NumberBound(id: string, k: nat)
    ensures Number(id, k) < Pow62(k)
  {
    if k > 0 { NumberBound(id, k - 1); }
  }

  method IdToNum(id: string) returns (v: nat)
    ensures v == Number(id, ID_PREC) < Pow62(ID_PREC)
  {
    v := 0;
    for i := 0 to ID_PREC
      invariant v == Number(id, i)
    {
      NumberBound(id, i + 1);
      PowMonotone(i + 1, ID_PREC);
      TenDigitsFit();
      v := (v * 62 + (if i < |id| then Base62Val(id[i]) else 0)) % WORD;
    }
    NumberBound(id, ID_PREC);
  }

  lemma {:induction false} PowMonotone(j: nat, k: nat)
    requires j <= k
    ensures Pow62(j) <= Pow62(k)
    decreases k - j
  {
    if j < k { PowMonotone(j, k - 1); }
  }

  // ----- Number to Id -------------------------------------------------------

  /** The k lowest base-62 digits of v, most significant first. */
  function Digits(v: nat, k: nat): (s: string)
    ensures |s| == k && IsId(s)
  {
    if k == 0 then "" else Digits(v / 62, k - 1) + [Base62Char(v % 62)]
  }

  /** Cut or zero-pad a prefix to the length asked for. */
  function Fit(prefix: string, len: nat): (s: string)
    ensures |s| == len && (IsId(prefix) ==> IsId(s))
  {
    if len <= |prefix| then prefix[..len] else prefix + Zeros(len - |prefix|)
  }

  function NumberToId(v: nat, len: nat): (s: string)
    ensures |s| == len && IsId(s)
  {
    Fit(Digits(v, ID_PREC), len)
  }

  method NumToId(v0: nat, len: nat) returns (id: string)
    ensures id == NumberToId(v0, len)
  {
    var v := v0;
    var prefix := Zeros(ID_PREC);
    var i := ID_PREC;
    while i > 0
      invariant 0 <= i <= ID_PREC && |prefix| == ID_PREC
      invariant Digits(v, i) + prefix[i..] == Digits(v0, ID_PREC)
    {
      i := i - 1;
      ghost var before := prefix;
      prefix := prefix[i := Base62Char(v % 62)];
      assert prefix[i..] == [Base62Char(v % 62)] + before[i + 1..];
      v := v / 62;
    }
    assert prefix[0..] == prefix;
    if len <= ID_PREC {
      return prefix[..len];
    }
    return prefix + Zeros(len - ID_PREC);
  }

  // ----- Round trips --------------------------------------------------------

  /** The first k characters, padded with '0'. */
  function Padded(s: string, k: nat): (r: string)
    ensures |r| == k
  {
    if k == 0 then ""
    else if s == "" then ['0'] + Padded("", k - 1)
    else [s[0]] + Padded(s[1..], k - 1)
  }

  lemma {:induction false} PaddedIs(s: string, k: nat)
    ensures Padded(s, k) == if k <= |s| then s[..k] else s + Zeros(k - |s|)
  {
    if k > 0 {
      if s == "" {
        PaddedIs("", k - 1);
        assert ['0'] + Zeros(k - 1) == Zeros(k);
      } else {
        PaddedIs(s[1..], k - 1);
        assert s == [s[0]] + s[1..];
      }
    }
  }

  lemma CharRoundTrip(c: char)
    requires IsAlphaNumeric(c)
    ensures Base62Char(Base62Val(c)) == c
  {
  }

  lemma PaddedSnoc(id: string, k: nat)
    requires IsId(id)
    ensures Padded(id, k + 1) == Padded(id, k) + [Base62Char(Digit(id, k))]
  {
    PaddedIs(id, k);
    PaddedIs(id, k + 1);
    if k < |id| {
      CharRoundTrip(id[k]);
      assert id[..k + 1] == id[..k] + [id[k]];
    } else {
      assert id + Zeros(k + 1 - |id|) == id + Zeros(k - |id|) + ['0'];
    }
  }

  lemma LastDigit(n: nat, d: nat)
    requires d < 62
    ensures (n * 62 + d) % 62 == d && (n * 62 + d) / 62 == n
  {
  }

  /** Numbering then spelling returns the first k characters, zero-padded. */
  lemma {:induction false} SpellNumber(id: string, k: nat)
    requires IsId(id)
    ensures Digits(Number(id, k), k) == Padded(id, k)
  {
    if k > 0 {
      SpellNumber(id, k - 1);
      LastDigit(Number(id, k - 1), Digit(id, k - 1));
      PaddedSnoc(id, k - 1);
    }
  }

  /** Spelling then numbering returns the number. */
  lemma {:induction false} NumberSpelling(v: nat, k: nat)
    requires v < Pow62(k)
    ensures Number(Digits(v, k), k) == v
  {
    if k > 0 {
      NumberSpelling(v / 62, k - 1);
      NumberPrefix(Digits(v / 62, k - 1), [Base62Char(v % 62)], k - 1);
      assert Digits(v, k)[k - 1] == Base62Char(v % 62);
    }
  }

  lemma {:induction false} NumberPrefix(a: string, b: string, k: nat)
    requires k <= |a|
    ensures Number(a + b, k) == Number(a, k)
  {
    if k > 0 { NumberPrefix(a, b, k - 1); }
  }

  /** NumToId(IdToNum(id)) is the first ten characters, zero-padded to the length asked for. */
  lemma IdRoundTrip(id: string, len: nat)
    requires IsId(id)
    ensures NumberToId(Number(id, ID_PREC), len) == Fit(Padded(id, 10), len)
  {
    SpellNumber(id, ID_PREC);
  }

  // ----- Order --------------------------------------------------------------

  lemma {:induction false} LessExtends(a: string, b: string, u: string, w: string)
    requires |a| == |b| && LexLess(a, b)
    ensures LexLess(a + u, b + w)
  {
    assert (a + u)[0] == a[0] && (b + w)[0] == b[0];
    if a[0] == b[0] {
      LessExtends(a[1..], b[1..], u, w);
      assert (a + u)[1..] == a[1..] + u && (b + w)[1..] == b[1..] + w;
    }
  }

  lemma {:induction false} CommonPrefix(a: string, u: string, w: string)
    ensures LexLess(a + u, a + w) <==> LexLess(u, w)
  {
    if a == "" {
      assert a + u == u && a + w == w;
    } else {
      CommonPrefix(a[1..], u, w);
      assert (a + u)[1..] == a[1..] + u && (a + w)[1..] == a[1..] + w;
    }
  }

  lemma PrefixLeq(a: string, b: string)
    ensures LexLeq(a, a + b)
  {
    CommonPrefix(a, b, "");
    assert a + "" == a;
  }

  lemma {:induction false} ZerosLeast(s: string, k: nat)
    requires IsId(s) && |s| >= k
    ensures LexLeq(Zeros(k), s)
  {
    if k > 0 {
      assert Zeros(k)[1..] == Zeros(k - 1);
      ZerosLeast(s[1..], k - 1);
    }
  }

  lemma CharOrder(v: nat, w: nat)
    requires v < w < 62
    ensures Base62Char(v) < Base62Char(w)
  {
  }

  /** Spelling is strictly monotone. */
  lemma {:induction false} DigitsMonotone(v: nat, w: nat, k: nat)
    requires v < w < Pow62(k)
    ensures LexLess(Digits(v, k), Digits(w, k))
  {
    if k > 0 {
      var a, b := [Base62Char(v % 62)], [Base62Char(w % 62)];
      if v / 62 < w / 62 {
        DigitsMonotone(v / 62, w / 62, k - 1);
        LessExtends(Digits(v / 62, k - 1), Digits(w / 62, k - 1), a, b);
      } else {
        CharOrder(v % 62, w % 62);
        CommonPrefix(Digits(v / 62, k - 1), a, b);
      }
    }
  }

  lemma {:induction false} PaddedMonotone(a: string, b: string, k: nat)
    requires IsId(a) && IsId(b) && LexLeq(a, b)
    ensures LexLeq(Padded(a, k), Padded(b, k))
  {
    LexTrichotomy(a, b);
    if k > 0 {
      if a == "" {
        PaddedIs("", k);
        PaddedIs(b, k);
        assert "" + Zeros(k) == Zeros(k);
        ZerosLeast(Padded(b, k), k);
      } else {
        var x, y := Padded(a, k), Padded(b, k);
        assert x[1..] == Padded(a[1..], k - 1) && y[1..] == Padded(b[1..], k - 1);
        if a[0] == b[0] { PaddedMonotone(a[1..], b[1..], k - 1); }
      }
    }
  }

  /** Numbering is monotone. */
  lemma NumberMonotone(a: string, b: string, k: nat)
    requires IsId(a) && IsId(b) && LexLeq(a, b)
    ensures Number(a, k) <= Number(b, k)
  {
    PaddedMonotone(a, b, k);
    SpellNumber(a, k);
    SpellNumber(b, k);
    NumberBound(a, k);
    if Number(b, k) < Number(a, k) { DigitsMonotone(Number(b, k), Number(a, k), k); }
  }

  lemma FitLeq(id: string, k: nat)
    requires IsId(id)
    ensures LexLeq(Fit(Padded(id, k), |id|), id)
  {
    PaddedIs(id, k);
    if |id| <= k {
      assert Padded(id, k)[..|id|] == id;
      LexTrichotomy(id, id);
    } else {
      ZerosLeast(id[k..], |id| - k);
      CommonPrefix(id[..k], id[k..], Zeros(|id| - k));
      assert id == id[..k] + id[k..];
    }
  }

  lemma FitPrefix(x: string, short: nat, long: nat)
    requires short <= long
    ensures LexLeq(Fit(x, short), Fit(x, long))
    ensures Fit(x, long)[..short] == Fit(x, short)
  {
    var a, b := Fit(x, short), Fit(x, long);
    assert b[..short] == a;
    PrefixLeq(a, b[short..]);
    assert b == a + b[short..];
  }

  /** Below the padded text of m means below m itself, already on the characters m has. */
  lemma {:induction false} BelowPadded(x: string, m: string, k: nat)
    requires |x| == k && IsId(x) && LexLess(x, Padded(m, k))
    ensures var j := if k <= |m| then k else |m|; LexLess(x[..j], m[..j])
  {
    var j := if k <= |m| then k else |m|;
    if m == "" {
      PaddedIs("", k);
      assert "" + Zeros(k) == Zeros(k);
      ZerosLeast(x, k);
      assert false;
    } else if x[0] == m[0] {
      assert Padded(m, k)[1..] == Padded(m[1..], k - 1);
      BelowPadded(x[1..], m[1..], k - 1);
      assert x[..j][1..] == x[1..][..j - 1] && m[..j][1..] == m[1..][..j - 1];
    } else {
      assert Padded(m, k)[0] == m[0];
    }
  }

  lemma FitLess(x: string, m: string, k: nat, len: nat)
    requires |x| == k && IsId(x) && LexLess(x, Padded(m, k)) && |m| <= len
    ensures LexLess(Fit(x, len), m)
  {
    BelowPadded(x, m, k);
    var j := if k <= |m| then k else |m|;
    var b := Fit(x, len);
    assert b[..j] == x[..j];
    LessExtends(x[..j], m[..j], b[j..], m[j..]);
    assert b == b[..j] + b[j..] && m == m[..j] + m[j..];
  }

  lemma ExtendedLeq(x: string, y: string, u: string)
    requires |x| == |y| && LexLess(x, y)
    ensures LexLeq(x + u, y + u)
  {
    LessExtends(x, y, u, u);
    LexTrichotomy(x + u, y + u);
  }

  lemma FitMonotone(x: string, y: string, len: nat)
    requires |x| == |y| && LexLess(x, y)
    ensures LexLeq(Fit(x, len), Fit(y, len))
  {
    if len <= |x| {
      TakeMonotone(x, y, len);
    } else {
      var zeros := Zeros(len - |x|);
      assert Fit(x, len) == x + zeros && Fit(y, len) == y + zeros;
      ExtendedLeq(x, y, zeros);
    }
  }

  /** A generated Id never passes the Id its number came from, at that Id's length. */
  lemma GeneratedLeq(id: string)
    requires IsId(id)
    ensures LexLeq(NumberToId(Number(id, ID_PREC), |id|), id)
  {
    SpellNumber(id, ID_PREC);
    FitLeq(id, ID_PREC);
  }

  /** A generated Id below m's number is below m, at any length m fits in. */
  lemma GeneratedLess(v: nat, m: string, len: nat)
    requires IsId(m) && v < Number(m, ID_PREC) && |m| <= len
    ensures LexLess(NumberToId(v, len), m)
  {
    NumberBound(m, ID_PREC);
    DigitsMonotone(v, Number(m, ID_PREC), ID_PREC);
    SpellNumber(m, ID_PREC);
    FitLess(Digits(v, ID_PREC), m, ID_PREC, len);
  }

  lemma GeneratedMonotone(v: nat, w: nat, len: nat)
    requires v <= w < Pow62(ID_PREC)
    ensures LexLeq(NumberToId(v, len), NumberToId(w, len))
  {
    if v < w {
      DigitsMonotone(v, w, ID_PREC);
      FitMonotone(Digits(v, ID_PREC), Digits(w, ID_PREC), len);
    } else {
      LexTrichotomy(NumberToId(v, len), NumberToId(v, len));
    }
  }

  lemma {:induction false} TakeMonotone(x: string, y: string, n: nat)
    requires LexLess(x, y) && n <= |x| && n <= |y|
    ensures LexLeq(x[..n], y[..n])
  {
    if n > 0 && x[0] == y[0] {
      TakeMonotone(x[1..], y[1..], n - 1);
      assert x[..n][1..] == x[1..][..n - 1] && y[..n][1..] == y[1..][..n - 1];
    }
  }
}
