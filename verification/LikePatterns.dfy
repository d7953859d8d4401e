/**
 LIKE matching, and why the LIKE pattern emitted for prefix, suffix, contains and
 LIKE itself accepts at least every value DuckDB accepts: a `%` or `_` inside the
 searched text turns into a wildcard, which can only widen the match.
 */
module LikePatterns {
  import opened Text

  /** `%` matches any run, `_` any one character; other characters compare alike, up to case when folding. */
  predicate Matches(s: string, p: string, fold: bool)
    decreases |p| + |s|
  {
    if p == "" then s == ""
    else if p[0] == '%' then Matches(s, p[1..], fold) || (s != "" && Matches(s[1..], p, fold))
    else s != "" && (p[0] == '_' || SameChar(s[0], p[0], fold)) && Matches(s[1..], p[1..], fold)
  }

  predicate SameChar(a: char, b: char, fold: bool) {
    if fold then LowerChar(a) == LowerChar(b) else a == b
  }

  datatype Search = Prefix | Suffix | Contains | Like

  /** DuckDB's own predicates. */
  ghost predicate Finds(k: Search, s: string, sub: string) {
    match k
    case Prefix => exists b :: s == sub + b
    case Suffix => exists a :: s == a + sub
    case Contains => exists a, b :: s == a + (sub + b)
    case Like => Matches(s, sub, false)
  }

  /** The pattern the translator emits for a search. */
  function PatternFor(k: Search, sub: string): string {
    match k
    case Prefix => sub + "%"
    case Suffix => "%" + sub
    case Contains => "%" + (sub + "%")
    case Like => sub
  }

  /** Every text matches itself as a pattern, wildcards and all. */
  lemma {:induction false} MatchesItself(s: string, fold: bool)
    ensures Matches(s, s, fold)
  {
    if s != "" {
      MatchesItself(s[1..], fold);
      if s[0] == '%' {
        SkipOne(s[1..], s[0], s[1..], fold);
      }
    }
  }

  /** A leading `%` may absorb one more character. */
  lemma SkipOne(s: string, c: char, p: string, fold: bool)
    requires Matches(s, p, fold)
    ensures Matches([c] + s, "%" + p, fold)
  {
    assert ("%" + p)[1..] == p;
    assert ([c] + s)[1..] == s;
    assert Matches(s, "%" + p, fold);
  }

  lemma {:induction false} AbsorbPrefix(a: string, s: string, p: string, fold: bool)
    requires Matches(s, p, fold)
    ensures Matches(a + s, "%" + p, fold)
  {
    assert ("%" + p)[1..] == p;
    if a == "" {
      assert a + s == s;
    } else {
      AbsorbPrefix(a[1..], s, p, fold);
      assert (a + s)[1..] == a[1..] + s;
    }
  }

  lemma AbsorbAll(s: string, fold: bool)
    ensures Matches(s, "%", fold)
  {
    AbsorbPrefix(s, "", "", fold);
    assert s + "" == s && "%" + "" == "%";
  }

  /** Matches concatenate. */
  lemma {:induction false} MatchesAppend(s: string, p: string, t: string, q: string, fold: bool)
    requires Matches(s, p, fold) && Matches(t, q, fold)
    ensures Matches(s + t, p + q, fold)
    decreases |p| + |s|
  {
    if p == "" {
      assert s + t == t && p + q == q;
    } else {
      assert (p + q)[1..] == p[1..] + q;
      if s != "" { assert (s + t)[1..] == s[1..] + t; }
      if p[0] == '%' && Matches(s, p[1..], fold) {
        MatchesAppend(s, p[1..], t, q, fold);
      } else if p[0] == '%' {
        MatchesAppend(s[1..], p, t, q, fold);
      } else {
        MatchesAppend(s[1..], p[1..], t, q, fold);
      }
    }
  }

  /** Case-insensitive matching accepts whatever case-sensitive matching does. */
  lemma {:induction false} FoldWidens(s: string, p: string)
    requires Matches(s, p, false)
    ensures Matches(s, p, true)
    decreases |p| + |s|
  {
    if p != "" {
      if p[0] == '%' && Matches(s, p[1..], false) {
        FoldWidens(s, p[1..]);
      } else if p[0] == '%' {
        FoldWidens(s[1..], p);
      } else {
        FoldWidens(s[1..], p[1..]);
      }
    }
  }

  /** The emitted pattern is a superset prefilter for every search and every text. */
  lemma PatternIsSuperset(k: Search, s: string, sub: string)
    requires Finds(k, s, sub)
    ensures Matches(s, PatternFor(k, sub), true)
  {
    MatchesItself(sub, true);
    match k
    case Prefix =>
      var b :| s == sub + b;
      AbsorbAll(b, true);
      MatchesAppend(sub, sub, b, "%", true);
    case Suffix =>
      var a :| s == a + sub;
      AbsorbPrefix(a, sub, sub, true);
    case Contains =>
      var a, b :| s == a + (sub + b);
      AbsorbAll(b, true);
      MatchesAppend(sub, sub, b, "%", true);
      AbsorbPrefix(a, sub + b, sub + "%", true);
    case Like =>
      FoldWidens(s, sub);
  }

  /** The superset is proper: a searched `%` is emitted as a wildcard. */
  lemma SupersetIsProper()
    ensures Matches("aXb", PatternFor(Contains, "%"), true) && !Finds(Contains, "aXb", "%")
  {
    AbsorbAll("aXb", true);
    AbsorbPrefix("", "aXb", "%", true);
    AbsorbPrefix("", "aXb", "%" + "%", true);
    assert "" + "aXb" == "aXb";
    forall a, b ensures "aXb" != a + ("%" + b) {
      assert (a + ("%" + b))[|a|] == '%';
    }
  }

  // ----- Without wildcards the pattern is the search ------------------------------

  predicate NoWildcards(s: string) {
    forall i | 0 <= i < |s| :: s[i] != '%' && s[i] != '_'
  }

  /** A plain text, matched as the beginning of a pattern, is the beginning of the value. */
  lemma {:induction false} PlainPrefix(s: string, sub: string, rest: string)
    requires NoWildcards(sub)
    ensures Matches(s, sub + rest, false) <==> |sub| <= |s| && s[..|sub|] == sub && Matches(s[|sub|..], rest, false)
    decreases |sub|
  {
    var p := sub + rest;
    if sub == "" {
      assert p == rest && s[0..] == s && s[..0] == "";
    } else {
      assert p[0] == sub[0] && p[1..] == sub[1..] + rest;
      if s != "" {
        PlainPrefix(s[1..], sub[1..], rest);
        if |sub| <= |s| {
          assert s[1..][|sub| - 1..] == s[|sub|..];
          assert s[..|sub|] == [s[0]] + s[1..][..|sub| - 1] && sub == [sub[0]] + sub[1..];
        }
      }
    }
  }

  /** A leading wildcard skips any number of characters. */
  lemma {:induction false} SkipsAny(s: string, p: string)
    ensures Matches(s, "%" + p, false) <==> exists i | 0 <= i <= |s| :: Matches(s[i..], p, false)
    decreases |s|
  {
    assert ("%" + p)[1..] == p && s[0..] == s;
    if s != "" {
      SkipsAny(s[1..], p);
      assert forall i | 1 <= i <= |s| :: s[i..] == s[1..][i - 1..];
      if i :| 0 <= i <= |s| && Matches(s[i..], p, false) {
        if i > 0 { assert Matches(s[1..][i - 1..], p, false); }
      }
      if Matches(s[1..], "%" + p, false) {
        var j :| 0 <= j <= |s| - 1 && Matches(s[1..][j..], p, false);
        assert s[j + 1..] == s[1..][j..];
      }
    }
  }

  lemma PlainWhole(s: string, sub: string)
    requires NoWildcards(sub)
    ensures Matches(s, sub, false) <==> s == sub
  {
    PlainPrefix(s, sub, "");
    assert sub + "" == sub;
    if |sub| <= |s| { assert s == s[..|sub|] + s[|sub|..]; }
  }

  lemma PlainStart(s: string, sub: string)
    requires NoWildcards(sub)
    ensures Matches(s, sub + "%", false) <==> exists b :: s == sub + b
  {
    PlainPrefix(s, sub, "%");
    if |sub| <= |s| && s[..|sub|] == sub {
      AbsorbAll(s[|sub|..], false);
      assert s == sub + s[|sub|..];
    }
    if b :| s == sub + b { assert s[..|sub|] == sub; }
  }

  lemma PlainEnd(s: string, sub: string)
    requires NoWildcards(sub)
    ensures Matches(s, "%" + sub, false) <==> exists a :: s == a + sub
  {
    SkipsAny(s, sub);
    forall i | 0 <= i <= |s| ensures Matches(s[i..], sub, false) <==> s[i..] == sub { PlainWhole(s[i..], sub); }
    if i :| 0 <= i <= |s| && s[i..] == sub { assert s == s[..i] + sub; }
    if a :| s == a + sub { assert s[|a|..] == sub; }
  }

  lemma PlainMiddle(s: string, sub: string)
    requires NoWildcards(sub)
    ensures Matches(s, "%" + (sub + "%"), false) <==> exists a, b :: s == a + (sub + b)
  {
    SkipsAny(s, sub + "%");
    if i :| 0 <= i <= |s| && Matches(s[i..], sub + "%", false) {
      PlainStart(s[i..], sub);
      var b :| s[i..] == sub + b;
      assert s == s[..i] + (sub + b);
    }
    if a, b :| s == a + (sub + b) {
      assert s[|a|..] == sub + b;
      PlainStart(s[|a|..], sub);
    }
  }

  /**
   Where the searched text holds neither % nor _, the emitted pattern, matched with case, finds exactly
   what the search finds: it is no wider than its wildcards and the folding of case make it.
   */
  lemma PatternIsSearch(k: Search, s: string, sub: string)
    requires NoWildcards(sub)
    ensures Matches(s, PatternFor(k, sub), false) <==> Finds(k, s, sub)
  {
    match k
    case Like =>
    case Prefix => PlainStart(s, sub);
    case Suffix => PlainEnd(s, sub);
    case Contains => PlainMiddle(s, sub);
  }
}
