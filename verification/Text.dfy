/**
 Plain text helpers shared by the other modules: ASCII case folding, byte-wise
 lexical order (the order std::string compares by), and separator joins.
 */
module Text {

  datatype Option<+T> = None | Some(value: T)

  function LowerChar(c: char): char {
    if 'A' <= c <= 'Z' then (c as int + 32) as char else c
  }

  function Lower(s: string): (r: string)
    ensures |r| == |s|
    ensures forall i :: 0 <= i < |s| ==> r[i] == LowerChar(s[i])
  {
    seq(|s|, i requires 0 <= i < |s| => LowerChar(s[i]))
  }

  /** StringUtil::CIEquals: equality after ASCII folding. */
  predicate CIEquals(a: string, b: string) {
    Lower(a) == Lower(b)
  }

  predicate IsAlphaNumeric(c: char) {
    '0' <= c <= '9' || 'A' <= c <= 'Z' || 'a' <= c <= 'z'
  }

  /** std::string operator<. */
  predicate LexLess(a: string, b: string) {
    if |b| == 0 then false
    else if |a| == 0 then true
    else if a[0] != b[0] then a[0] < b[0]
    else LexLess(a[1..], b[1..])
  }

  predicate LexLeq(a: string, b: string) {
    !LexLess(b, a)
  }

  /** Joins the pieces with `sep` between neighbours. */
  function Join(sep: string, pieces: seq<string>): string {
    if |pieces| == 0 then ""
    else if |pieces| == 1 then pieces[0]
    else pieces[0] + sep + Join(sep, pieces[1..])
  }

  lemma {:induction false} LexTrichotomy(a: string, b: string)
    ensures LexLess(a, b) || LexLess(b, a) || a == b
    ensures !(LexLess(a, b) && LexLess(b, a))
    ensures a == b ==> !LexLess(a, b)
  {
    if |a| > 0 && |b| > 0 && a[0] == b[0] {
      LexTrichotomy(a[1..], b[1..]);
      if a[1..] == b[1..] {
        assert a == [a[0]] + a[1..] == b;
      }
    }
  }

  lemma {:induction false} LexTransitive(a: string, b: string, c: string)
    requires LexLess(a, b) && LexLess(b, c)
    ensures LexLess(a, c)
  {
    if |a| > 0 && a[0] == b[0] == c[0] {
      LexTransitive(a[1..], b[1..], c[1..]);
    }
  }

  lemma LexLessLeq(a: string, b: string, c: string)
    requires LexLess(a, b) && LexLeq(b, c)
    ensures LexLess(a, c)
  {
    LexTrichotomy(b, c);
    if b != c { LexTransitive(a, b, c); }
  }

  lemma LexLeqTransitive(a: string, b: string, c: string)
    requires LexLeq(a, b) && LexLeq(b, c)
    ensures LexLeq(a, c)
  {
    LexTrichotomy(b, c);
    if LexLess(c, a) { LexLessLeq(c, a, b); }
  }

  /** Concatenation may be regrouped; stated once so that proofs can name the regrouping. */
  lemma Assoc<T>(a: seq<T>, b: seq<T>, c: seq<T>)
    ensures (a + b) + c == a + (b + c)
  {
  }

  /** Appending one more piece to a non-empty join. */
  lemma {:induction false} JoinSnoc(sep: string, pieces: seq<string>, last: string)
    requires |pieces| > 0
    ensures Join(sep, pieces + [last]) == Join(sep, pieces) + sep + last
  {
    if |pieces| == 1 {
      assert (pieces + [last])[1..] == [last];
    } else {
      assert (pieces + [last])[1..] == pieces[1..] + [last];
      JoinSnoc(sep, pieces[1..], last);
    }
  }
}
