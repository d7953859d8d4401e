/**
 Primary-key chunking: the ranges cut out of [min, max] by interpolating between
 the two Ids. The theorem says exactly when every Id of the interval falls into
 exactly one emitted range.
 */
module IdRanges {
  import opened Text
  import opened IdCodec

  const MAX_CHUNKS: nat := 8

  datatype Range = Range(lo: string, hi: string, inclusive: bool)

  predicate InRange(r: Range, id: string) {
    LexLeq(r.lo, id) && if r.inclusive then LexLeq(id, r.hi) else LexLess(id, r.hi)
  }

  /** How many ranges an Id falls into. */
  function Count(rs: seq<Range>, id: string): nat {
    if |rs| == 0 then 0 else (if InRange(rs[0], id) then 1 else 0) + Count(rs[1..], id)
  }

  // ----- Boundaries ---------------------------------------------------------

  /** The i-th interpolated number, in 64-bit unsigned arithmetic. */
  function Interpolate(lo: nat, hi: nat, n: nat, i: nat): nat
    requires n > 0
  {
    (lo + ((hi - lo) % WORD * i) % WORD / n) % WORD
  }

  function IdLength(min: string, max: string): nat {
    if |min| >= |max| then |min| else |max|
  }

  function Boundary(min: string, max: string, n: nat, i: nat): string
    requires n > 0
  {
    if i == 0 then min
    else if i >= n then max
    else NumberToId(Interpolate(Number(min, ID_PREC), Number(max, ID_PREC), n, i), IdLength(min, max))
  }

  function Boundaries(min: string, max: string, n: nat): (bs: seq<string>)
    requires n > 0
    ensures |bs| == n + 1 && forall i | 0 <= i <= n :: bs[i] == Boundary(min, max, n, i)
  {
    seq(n + 1, i requires 0 <= i <= n => Boundary(min, max, n, i))
  }

  /** The ranges from chunk i on; a collapsed one is skipped, the first never is. */
  function RangesFrom(bs: seq<string>, i: nat): seq<Range>
    requires |bs| >= 2
    decreases |bs| - i
  {
    if i + 1 >= |bs| then []
    else
      (if i > 0 && LexLeq(bs[i + 1], bs[i]) then [] else [Range(bs[i], bs[i + 1], i == |bs| - 2)]) +
      RangesFrom(bs, i + 1)
  }

  function Ranges(min: string, max: string, n: nat): seq<Range>
    requires n > 0
  {
    RangesFrom(Boundaries(min, max, n), 0)
  }

  // ----- Text ---------------------------------------------------------------

  function RangeText(r: Range): string {
    "Id >= '" + r.lo + (if r.inclusive then "' AND Id <= '" else "' AND Id < '") + r.hi + "'"
  }

  function Combine(pushed: string, range: string): string {
    if pushed == "" then range else "(" + pushed + ") AND (" + range + ")"
  }

  function RangeWheres(pushed: string, rs: seq<Range>): (ws: seq<string>)
    ensures |ws| == |rs| && forall i | 0 <= i < |rs| :: ws[i] == Combine(pushed, RangeText(rs[i]))
  {
    seq(|rs|, i requires 0 <= i < |rs| => Combine(pushed, RangeText(rs[i])))
  }

  method BuildBoundaries(min: string, max: string, n: nat) returns (b: seq<string>)
    requires n > 0
    ensures b == Boundaries(min, max, n)
  {
    var lo := IdToNum(min);
    var hi := IdToNum(max);
    var len := if |min| >= |max| then |min| else |max|;
    b := [min];
    for i := 1 to n
      invariant |b| == i && forall k | 0 <= k < i :: b[k] == Boundary(min, max, n, k)
    {
      var v := Interpolate(lo, hi, n, i);
      var id := NumToId(v, len);
      b := b + [id];
    }
    b := b + [max];
  }

  lemma RangeWheresSnoc(pushed: string, rs: seq<Range>, r: Range)
    ensures RangeWheres(pushed, rs + [r]) == RangeWheres(pushed, rs) + [Combine(pushed, RangeText(r))]
  {
  }

  predicate Collapsed(bs: seq<string>, i: nat)
    requires i + 1 < |bs|
  {
    i > 0 && LexLeq(bs[i + 1], bs[i])
  }

  /** The ranges kept before chunk i and those still to come are all the ranges. */
  ghost predicate KeptSoFar(bs: seq<string>, i: nat, kept: seq<Range>)
    requires |bs| >= 2
  {
    kept + RangesFrom(bs, i) == RangesFrom(bs, 0)
  }

  lemma SkipCollapsed(bs: seq<string>, i: nat, kept: seq<Range>)
    requires i + 1 < |bs| && Collapsed(bs, i) && KeptSoFar(bs, i, kept)
    ensures KeptSoFar(bs, i + 1, kept)
  {
    assert [] + RangesFrom(bs, i + 1) == RangesFrom(bs, i + 1);
  }

  lemma KeepRange(bs: seq<string>, i: nat, kept: seq<Range>)
    requires i + 1 < |bs| && !Collapsed(bs, i) && KeptSoFar(bs, i, kept)
    ensures KeptSoFar(bs, i + 1, kept + [Range(bs[i], bs[i + 1], i == |bs| - 2)])
  {
    Assoc(kept, [Range(bs[i], bs[i + 1], i == |bs| - 2)], RangesFrom(bs, i + 1));
  }

  method BuildIdRangeWheres(pushed: string, min: string, max: string, n: nat) returns (wheres: seq<string>)
    requires n > 0
    ensures wheres == RangeWheres(pushed, Ranges(min, max, n))
  {
    var b := BuildBoundaries(min, max, n);
    wheres := [];
    ghost var kept: seq<Range> := [];
    for i := 0 to n
      invariant wheres == RangeWheres(pushed, kept)
      invariant KeptSoFar(b, i, kept)
    {
      if i > 0 && LexLeq(b[i + 1], b[i]) {
        SkipCollapsed(b, i, kept);
        continue;
      }
      var range := Range(b[i], b[i + 1], i == n - 1);
      KeepRange(b, i, kept);
      RangeWheresSnoc(pushed, kept, range);
      kept := kept + [range];
      wheres := wheres + [Combine(pushed, RangeText(range))];
    }
    assert kept + [] == kept;
  }

  // ----- Interpolation ------------------------------------------------------

  lemma DivBelow(x: nat, d: nat, n: nat)
    requires n > 0 && x < d * n
    ensures x / n < d
  {
  }

  lemma DivMonotone(x: nat, y: nat, n: nat)
    requires n > 0 && x <= y
    ensures x / n <= y / n
  {
    assert y == (y / n) * n + y % n;
    assert (y / n + 1) * n == (y / n) * n + n;
    DivBelow(x, y / n + 1, n);
  }

  lemma ShareBelow(d: nat, n: nat, i: nat)
    requires 0 < i < n <= MAX_CHUNKS
    ensures d * i <= d * 8
    ensures d * i / n <= d && (d > 0 ==> d * i / n < d)
  {
    assert d * (8 - i) >= 0;
    if d > 0 {
      assert d * (n - i) > 0;
      DivBelow(d * i, d, n);
    }
  }

  /** Word arithmetic that stays inside a word is plain arithmetic. */
  lemma NoWrap(lo: nat, hi: nat, n: nat, i: nat)
    requires lo <= hi && 8 * hi < WORD && 0 < i < n <= MAX_CHUNKS
    ensures (hi - lo) * i < WORD
    ensures Interpolate(lo, hi, n, i) == lo + (hi - lo) * i / n
  {
    var d := hi - lo;
    ShareBelow(d, n, i);
    InWord(d);
    InWord(d * i);
    InWord(lo + d * i / n);
  }

  lemma InWord(x: nat)
    requires x < WORD
    ensures x % WORD == x
  {
  }

  /** With at most eight chunks the product never wraps, and the result stays in [lo, hi]. */
  lemma InterpolateIs(lo: nat, hi: nat, n: nat, i: nat)
    requires lo <= hi < Pow62(ID_PREC) && 0 < i < n <= MAX_CHUNKS
    ensures (hi - lo) * i < WORD
    ensures Interpolate(lo, hi, n, i) == lo + (hi - lo) * i / n <= hi
    ensures lo < hi ==> Interpolate(lo, hi, n, i) < hi
    ensures lo == hi ==> Interpolate(lo, hi, n, i) == lo
  {
    TenDigitsFit();
    NoWrap(lo, hi, n, i);
    ShareBelow(hi - lo, n, i);
  }

  lemma InterpolateMonotone(lo: nat, hi: nat, n: nat, i: nat)
    requires lo <= hi < Pow62(ID_PREC) && 0 < i && i + 1 < n <= MAX_CHUNKS
    ensures Interpolate(lo, hi, n, i) <= Interpolate(lo, hi, n, i + 1)
  {
    InterpolateIs(lo, hi, n, i);
    InterpolateIs(lo, hi, n, i + 1);
    ShareGrows(hi - lo, n, i);
  }

  lemma ShareGrows(d: nat, n: nat, i: nat)
    requires n > 0
    ensures d * i / n <= d * (i + 1) / n
  {
    assert d * (i + 1) == d * i + d;
    DivMonotone(d * i, d * (i + 1), n);
  }

  // ----- Partition ----------------------------------------------------------

  /** Interior boundaries never decrease. */
  predicate Ascending(bs: seq<string>) {
    forall i | 1 <= i < |bs| - 2 :: LexLeq(bs[i], bs[i + 1])
  }

  lemma CountCons(r: Range, rest: seq<Range>, id: string)
    ensures Count([r] + rest, id) == (if InRange(r, id) then 1 else 0) + Count(rest, id)
  {
    assert ([r] + rest)[1..] == rest;
  }

  /** The range between two neighbouring interior boundaries, if they have not collapsed. */
  function OwnRange(lo: string, hi: string): seq<Range> {
    if LexLeq(hi, lo) then [] else [Range(lo, hi, false)]
  }

  lemma CountStep(lo: string, hi: string, rest: seq<Range>, id: string)
    requires LexLeq(lo, hi) && Count(rest, id) == if LexLeq(hi, id) then 1 else 0
    ensures Count(OwnRange(lo, hi) + rest, id) == if LexLeq(lo, id) then 1 else 0
  {
    LexTrichotomy(lo, hi);
    if LexLeq(hi, lo) {
      assert OwnRange(lo, hi) + rest == rest;
    } else {
      CountCons(Range(lo, hi, false), rest, id);
      if LexLeq(hi, id) { LexLeqTransitive(lo, hi, id); }
    }
  }

  /** From chunk i >= 1 on, an Id up to the maximum is in one range if it reaches bs[i], else in none. */
  lemma {:induction false} CountFrom(bs: seq<string>, i: nat, id: string)
    requires |bs| >= 3 && Ascending(bs) && LexLess(bs[|bs| - 2], bs[|bs| - 1])
    requires 1 <= i <= |bs| - 2 && LexLeq(id, bs[|bs| - 1])
    ensures Count(RangesFrom(bs, i), id) == if LexLeq(bs[i], id) then 1 else 0
    decreases |bs| - i
  {
    var rest := RangesFrom(bs, i + 1);
    if i == |bs| - 2 {
      assert rest == [];
      LexTrichotomy(bs[i], bs[i + 1]);
      CountCons(Range(bs[i], bs[i + 1], true), rest, id);
    } else {
      CountFrom(bs, i + 1, id);
      CountStep(bs[i], bs[i + 1], rest, id);
      assert RangesFrom(bs, i) == OwnRange(bs[i], bs[i + 1]) + rest;
    }
  }

  lemma CountAll(bs: seq<string>, id: string)
    requires |bs| >= 2 && Ascending(bs) && LexLess(bs[|bs| - 2], bs[|bs| - 1])
    requires LexLeq(bs[0], id) && LexLeq(id, bs[|bs| - 1])
    ensures Count(RangesFrom(bs, 0), id) == 1
  {
    var rest := RangesFrom(bs, 1);
    CountCons(Range(bs[0], bs[1], |bs| == 2), rest, id);
    if |bs| > 2 { CountFrom(bs, 1, id); }
  }

  lemma BoundariesAscend(min: string, max: string, n: nat)
    requires IsId(min) && IsId(max) && LexLess(min, max) && 0 < n <= MAX_CHUNKS
    ensures Ascending(Boundaries(min, max, n))
  {
    LexTrichotomy(min, max);
    NumberMonotone(min, max, ID_PREC);
    NumberBound(max, ID_PREC);
    var lo, hi := Number(min, ID_PREC), Number(max, ID_PREC);
    forall i | 1 <= i < n - 1
      ensures LexLeq(Boundary(min, max, n, i), Boundary(min, max, n, i + 1))
    {
      InterpolateMonotone(lo, hi, n, i);
      InterpolateIs(lo, hi, n, i + 1);
      GeneratedMonotone(Interpolate(lo, hi, n, i), Interpolate(lo, hi, n, i + 1), IdLength(min, max));
    }
  }

  /** The maximum is the minimum's first ten characters followed by zeros. */
  predicate ZeroExtension(min: string, max: string) {
    max == NumberToId(Number(min, ID_PREC), |max|)
  }

  lemma LastBoundaryBelow(min: string, max: string, n: nat)
    requires IsId(min) && IsId(max) && LexLess(min, max) && 1 < n <= MAX_CHUNKS
    requires !ZeroExtension(min, max)
    ensures LexLess(Boundary(min, max, n, n - 1), max)
  {
    LexTrichotomy(min, max);
    NumberMonotone(min, max, ID_PREC);
    NumberBound(max, ID_PREC);
    var lo, hi := Number(min, ID_PREC), Number(max, ID_PREC);
    InterpolateIs(lo, hi, n, n - 1);
    var len := IdLength(min, max);
    if lo < hi {
      GeneratedLess(Interpolate(lo, hi, n, n - 1), max, len);
    } else {
      var t := NumberToId(lo, |max|);
      var b := NumberToId(lo, len);
      GeneratedLeq(max);
      LexTrichotomy(t, max);
      FitPrefix(Digits(lo, ID_PREC), |max|, len);
      LessExtends(t, max, b[|max|..], "");
      assert b == t + b[|max|..] && max + "" == max;
    }
  }

  /** When the maximum only extends the minimum by zeros, every interior boundary is the maximum. */
  lemma BoundariesCollapse(min: string, max: string, n: nat, i: nat)
    requires IsId(min) && IsId(max) && LexLess(min, max) && 0 < i < n <= MAX_CHUNKS
    requires ZeroExtension(min, max)
    ensures Boundary(min, max, n, i) == max
  {
    LexTrichotomy(min, max);
    var lo, hi := Number(min, ID_PREC), Number(max, ID_PREC);
    NumberMonotone(min, max, ID_PREC);
    NumberBound(max, ID_PREC);
    if |min| > |max| {
      FitPrefix(Digits(lo, ID_PREC), |max|, |min|);
      GeneratedLeq(min);
      LexLeqTransitive(max, NumberToId(lo, |min|), min);
    }
    if lo < hi {
      GeneratedLess(lo, max, |max|);
      LexTrichotomy(max, max);
    }
    InterpolateIs(lo, hi, n, i);
  }

  lemma {:induction false} CollapsedRanges(bs: seq<string>, i: nat)
    requires |bs| >= 2 && 1 <= i && forall k | 1 <= k < |bs| :: bs[k] == bs[1]
    ensures RangesFrom(bs, i) == []
    decreases |bs| - i
  {
    if i + 1 < |bs| {
      CollapsedRanges(bs, i + 1);
      LexTrichotomy(bs[i], bs[i + 1]);
    }
  }

  /** Every Id from min to max falls into exactly one range. */
  ghost predicate Partitions(rs: seq<Range>, min: string, max: string) {
    forall id | LexLeq(min, id) && LexLeq(id, max) :: Count(rs, id) == 1
  }

  /**
   The emitted ranges partition [min, max] if and only if there is one chunk, or the
   maximum is not the minimum's first ten characters followed by zeros.
   */
  lemma PartitionIff(min: string, max: string, n: nat)
    requires IsId(min) && IsId(max) && LexLess(min, max) && 0 < n <= MAX_CHUNKS
    ensures Partitions(Ranges(min, max, n), min, max) <==> n == 1 || !ZeroExtension(min, max)
  {
    var bs := Boundaries(min, max, n);
    if n == 1 || !ZeroExtension(min, max) {
      BoundariesAscend(min, max, n);
      if n > 1 { LastBoundaryBelow(min, max, n); }
      forall id | LexLeq(min, id) && LexLeq(id, max) ensures Count(Ranges(min, max, n), id) == 1 {
        CountAll(bs, id);
      }
    } else {
      MaximumInNoRange(min, max, n);
      LexTrichotomy(min, max);
      LexTrichotomy(max, max);
      assert Count(Ranges(min, max, n), max) != 1;
    }
  }

  /** In the failing family the maximum itself is in no range. */
  lemma MaximumInNoRange(min: string, max: string, n: nat)
    requires IsId(min) && IsId(max) && LexLess(min, max) && 1 < n <= MAX_CHUNKS && ZeroExtension(min, max)
    ensures Count(Ranges(min, max, n), max) == 0
  {
    var bs := Boundaries(min, max, n);
    forall i | 1 <= i < |bs| ensures bs[i] == max {
      if i < n { BoundariesCollapse(min, max, n, i); }
    }
    OnlyOpenRange(bs, max);
  }

  /** Ids of equal length, as one object's Ids are, always partition. */
  lemma EqualLengthPartitions(min: string, max: string, n: nat)
    requires IsId(min) && IsId(max) && LexLess(min, max) && 0 < n <= MAX_CHUNKS
    requires |min| == |max|
    ensures Partitions(Ranges(min, max, n), min, max)
  {
    PartitionIff(min, max, n);
    GeneratedLeq(min);
  }

  /** With mixed lengths the largest Id can be lost: here it is in no range at all. */
  lemma MixedLengthsLoseTheMaximum(min: string, n: nat)
    requires IsId(min) && |min| == ID_PREC && 1 < n <= MAX_CHUNKS
    ensures LexLess(min, min + "0") && Count(Ranges(min, min + "0", n), min + "0") == 0
  {
    var max := min + "0";
    PaddedIs(min, ID_PREC);
    SpellNumber(min, ID_PREC);
    assert min[..ID_PREC] == min && Zeros(1) == "0";
    PrefixLeq(min, "0");
    LexTrichotomy(min, max);
    MaximumInNoRange(min, max, n);
  }

  lemma OnlyOpenRange(bs: seq<string>, max: string)
    requires |bs| >= 3 && forall k | 1 <= k < |bs| :: bs[k] == max
    ensures Count(RangesFrom(bs, 0), max) == 0
  {
    CollapsedRanges(bs, 1);
    var only := Range(bs[0], max, false);
    assert RangesFrom(bs, 0) == [only] + RangesFrom(bs, 1) == [only];
    assert [only][1..] == [];
    LexTrichotomy(max, max);
  }

  lemma LostMaximumExample()
    ensures Count(Ranges("0010000000", "00100000000", 2), "00100000000") == 0
  {
    MixedLengthsLoseTheMaximum("0010000000", 2);
    assert "0010000000" + "0" == "00100000000";
  }
}
