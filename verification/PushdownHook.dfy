/**
 The scan's filter hook. DuckDB may call it several times for one scan, with an
 empty list or with the filters the previous call left behind; the pushed WHERE
 accumulates across calls.
 */
module PushdownHook {
  import opened Text
  import opened Describe
  import opened SoqlSyntax
  import opened SoqlPushdown
  import opened SoqlMeaning

  /** What query_explain reports of one filter: sent to the server, left to DuckDB. */
  datatype ExplainItem = ExplainItem(pushed: bool, residual: bool)

  /** The part of the bind data the hook writes. */
  datatype BindState = BindState(
    where: string,
    pushedCount: int,
    residualCount: int,
    explain: seq<ExplainItem>,
    captured: bool)

  const FRESH_BIND := BindState("", 0, 0, [], false)

  // ----- One call -----------------------------------------------------------

  function ExplainItems(info: seq<ConjunctInfo>): (r: seq<ExplainItem>)
    ensures |r| == |info|
    ensures forall i | 0 <= i < |r| ::
              r[i].pushed == info[i].translated && r[i].residual == !(info[i].translated && info[i].exact)
  {
    seq(|info|, i requires 0 <= i < |info| =>
      ExplainItem(info[i].translated, !(info[i].translated && info[i].exact)))
  }

  datatype HookResult = Thrown | Called(state: BindState, remaining: seq<Expr>)

  function HookCall(st: BindState, filters: seq<Expr>, cols: Columns): HookResult {
    if |filters| == 0 then Called(st, filters)
    else
      match Push(filters, cols)
      case Rejected => Thrown
      case Pushed(where, remaining, info) =>
        var where' := if where == "" then st.where
                      else if st.where == "" then where else st.where + (" AND " + where);
        PushInfoLength(filters, cols);
        var explain' := if st.captured then st.explain else st.explain + ExplainItems(info);
        Called(BindState(where', st.pushedCount + |filters| - |remaining|, |remaining|, explain', true), remaining)
  }

  lemma PushInfoLength(filters: seq<Expr>, cols: Columns)
    ensures Push(filters, cols).Pushed? ==> |Push(filters, cols).info| == |filters|
  {
  }

  /** The bind data itself, updated in place by ScanPushdownComplexFilter. */
  class ScanBindData {
    var pushedWhere: string
    var pushedFilterCount: int
    var residualFilterCount: int
    var explainFilters: seq<ExplainItem>
    var explainCaptured: bool

    function State(): BindState
      reads this
    {
      BindState(pushedWhere, pushedFilterCount, residualFilterCount, explainFilters, explainCaptured)
    }

    constructor ()
      ensures State() == FRESH_BIND
    {
      pushedWhere, pushedFilterCount, residualFilterCount, explainFilters, explainCaptured := "", 0, 0, [], false;
    }

    method PushdownComplexFilter(cols: Columns, filters: seq<Expr>) returns (thrown: bool, remaining: seq<Expr>)
      modifies this
      ensures thrown <==> HookCall(old(State()), filters, cols).Thrown?
      ensures thrown ==> State() == old(State())
      ensures !thrown ==> HookCall(old(State()), filters, cols) == Called(State(), remaining)
    {
      var before := |filters|;
      if before == 0 {
        return false, filters;
      }
      var r := PushdownToSoql(cols, filters);
      if r.Rejected? {
        return true, filters;
      }
      PushInfoLength(filters, cols);
      if r.where != "" {
        pushedWhere := if pushedWhere == "" then r.where else pushedWhere + (" AND " + r.where);
      }
      if !explainCaptured {
        explainFilters := explainFilters + ExplainItems(r.info);
        explainCaptured := true;
      }
      pushedFilterCount := pushedFilterCount + before - |r.remaining|;
      residualFilterCount := |r.remaining|;
      return false, r.remaining;
    }
  }

  // ----- Any sequence of calls ----------------------------------------------

  /** Each later call presents either nothing or what the previous call left. */
  function Calls(st: BindState, pending: seq<Expr>, presented: seq<bool>, cols: Columns): HookResult
    decreases |presented|
  {
    if |presented| == 0 then Called(st, pending)
    else if !presented[0] then
      match HookCall(st, [], cols)
      case Thrown => Thrown
      case Called(st', _) => Calls(st', pending, presented[1..], cols)
    else
      match HookCall(st, pending, cols)
      case Thrown => Thrown
      case Called(st', pending') => Calls(st', pending', presented[1..], cols)
  }

  lemma {:induction false} RemainingMembers(filters: seq<Expr>, cols: Columns)
    ensures forall e :: e in Remaining(filters, cols) ==> e in filters && !IsExact(e, cols)
    ensures |Remaining(filters, cols)| <= |filters|
  {
    if |filters| > 0 { RemainingMembers(filters[1..], cols); }
  }

  lemma {:induction false} NothingToDrop(filters: seq<Expr>, cols: Columns)
    requires forall e :: e in filters ==> !IsExact(e, cols)
    ensures Remaining(filters, cols) == filters
  {
    if |filters| > 0 {
      NothingToDrop(filters[1..], cols);
      assert filters == [filters[0]] + filters[1..];
    }
  }

  /** Presenting a residual again leaves it as it is, and throws nothing new. */
  lemma ResidualIsStable(filters: seq<Expr>, cols: Columns)
    requires Push(filters, cols).Pushed?
    ensures var rest := Push(filters, cols).remaining;
            Push(rest, cols).Pushed? && Push(rest, cols).remaining == rest
    ensures forall e :: e in Push(filters, cols).remaining ==> e in filters
  {
    var rest := Push(filters, cols).remaining;
    RemainingMembers(filters, cols);
    forall i | 0 <= i < |rest| ensures !Malformed(rest[i], cols) {
      assert rest[i] in filters;
    }
    if |Join(Separator(And), Clauses(filters, cols))| <= MAX_WHERE_CHARS {
      NothingToDrop(rest, cols);
    }
  }

  /** `items` is the conjunction the accumulated text spells out. */
  ghost predicate Spells(where: string, items: seq<Predicate>) {
    where == PrintItems(And, items) && forall p :: p in items ==> Valid(p)
  }

  lemma {:induction false} PrintItemsAppend(a: seq<Predicate>, b: seq<Predicate>)
    requires |a| > 0 && |b| > 0
    ensures PrintItems(And, a + b) == PrintItems(And, a) + (Separator(And) + PrintItems(And, b))
  {
    if |a| == 1 {
      assert (a + b)[1..] == b;
    } else {
      assert (a + b)[1..] == a[1..] + b;
      PrintItemsAppend(a[1..], b);
      Assoc(Separator(And), PrintItems(And, a[1..]), Separator(And) + PrintItems(And, b));
      Assoc(Print(a[0]), Separator(And) + PrintItems(And, a[1..]), Separator(And) + PrintItems(And, b));
    }
  }

  lemma SpelledMeaning(srv: Server, where: string, items: seq<Predicate>, row: Row)
    requires Spells(where, items)
    ensures Returns(srv, where, row) <==> AllAccepted(srv, items, row)
    ensures where == "" <==> items == []
  {
    if |items| > 0 {
      PrintedIsNonEmpty(items);
      WhereRoundTrip(And, items);
    }
  }

  lemma PushSpells(filters: seq<Expr>, cols: Columns)
    requires ValidColumns(cols) && AllWellFormed(filters) && Push(filters, cols).Pushed?
    ensures exists items :: Spells(Push(filters, cols).where, items)
  {
    ClausesArePrinted(filters, cols);
    ClauseTreesValid(filters, cols);
    assert Spells(Join(Separator(And), Clauses(filters, cols)), ClauseTrees(filters, cols));
    assert Spells("", []);
  }

  /** AND-ing one spelled text onto another intersects what they select. */
  lemma AccumulatedMeaning(srv: Server, w: string, items: seq<Predicate>, v: string, more: seq<Predicate>, row: Row)
    requires Spells(w, items) && Spells(v, more) && v != ""
    ensures var w' := if w == "" then v else w + (" AND " + v);
            Spells(w', items + more) && (Returns(srv, w', row) <==> Returns(srv, w, row) && Returns(srv, v, row))
  {
    var w' := if w == "" then v else w + (" AND " + v);
    SpelledMeaning(srv, w, items, row);
    SpelledMeaning(srv, v, more, row);
    if w == "" {
      assert items + more == more;
    } else {
      PrintItemsAppend(items, more);
    }
    SpelledMeaning(srv, w', items + more, row);
    assert AllAccepted(srv, items + more, row) <==> AllAccepted(srv, items, row) && AllAccepted(srv, more, row) by {
      var both := items + more;
      assert forall i | 0 <= i < |items| :: both[i] == items[i];
      assert forall i | 0 <= i < |more| :: both[|items| + i] == more[i];
    }
  }

  /** The accumulated WHERE and the pending filters still say what the filters said. */
  ghost predicate Equivalent(srv: Server, eng: Engine, cols: Columns, filters: seq<Expr>,
                             where: string, pending: seq<Expr>) {
    && (exists items :: Spells(where, items))
    && (forall e :: e in pending ==> e in filters)
    && forall row | TypedRow(filters, cols, row) ::
         Returns(srv, where, row) && AllTrue(eng, cols, pending, row) <==> AllTrue(eng, cols, filters, row)
  }

  lemma PendingInherits(srv: Server, filters: seq<Expr>, pending: seq<Expr>, cols: Columns)
    requires forall e :: e in pending ==> e in filters
    requires AllWellFormed(filters) && DroppedAreNullSafe(srv, filters, cols)
    ensures AllWellFormed(pending) && DroppedAreNullSafe(srv, pending, cols)
    ensures forall row | TypedRow(filters, cols, row) :: TypedRow(pending, cols, row)
  {
    forall i | 0 <= i < |pending|
      ensures exists j | 0 <= j < |filters| :: filters[j] == pending[i]
    {
      assert pending[i] in filters;
    }
  }

  /** One call on the pending filters keeps the equivalence. */
  lemma CallKeepsEquivalence(srv: Server, eng: Engine, cols: Columns, filters: seq<Expr>,
                             st: BindState, pending: seq<Expr>)
    requires Faithful(srv, eng) && ValidColumns(cols)
    requires AllWellFormed(filters) && DroppedAreNullSafe(srv, filters, cols)
    requires Equivalent(srv, eng, cols, filters, st.where, pending)
    requires HookCall(st, pending, cols).Called?
    ensures var r := HookCall(st, pending, cols);
            Equivalent(srv, eng, cols, filters, r.state.where, r.remaining)
  {
    if |pending| > 0 {
      var r := Push(pending, cols);
      var st' := HookCall(st, pending, cols).state;
      ResidualIsStable(pending, cols);
      PendingInherits(srv, filters, pending, cols);
      PushSpells(pending, cols);
      var items :| Spells(st.where, items);
      var more :| Spells(r.where, more);
      if r.where != "" {
        var any: Row := Row(map[]);
        AccumulatedMeaning(srv, st.where, items, r.where, more, any);
      }
      forall row | TypedRow(filters, cols, row)
        ensures Returns(srv, st'.where, row) && AllTrue(eng, cols, r.remaining, row) <==>
                AllTrue(eng, cols, filters, row)
      {
        assert TypedRow(pending, cols, row);
        PushdownSound(srv, eng, pending, cols, row);
        if r.where != "" { AccumulatedMeaning(srv, st.where, items, r.where, more, row); }
      }
    }
  }

  lemma StartEquivalent(srv: Server, eng: Engine, cols: Columns, filters: seq<Expr>)
    ensures Equivalent(srv, eng, cols, filters, "", filters)
  {
    assert Spells("", []);
  }

  /** Bookkeeping after the filters have been presented once. */
  ghost predicate Accounted(st: BindState, filters: seq<Expr>, pending: seq<Expr>, cols: Columns) {
    && Push(filters, cols).Pushed?
    && pending == Push(filters, cols).remaining
    && st.pushedCount + |pending| == |filters| && st.residualCount == |pending|
    && st.captured
    && |Push(filters, cols).info| == |filters|
    && st.explain == ExplainItems(Push(filters, cols).info)
  }

  lemma CallAccounts(st: BindState, filters: seq<Expr>, pending: seq<Expr>, cols: Columns)
    requires |filters| > 0
    requires (st.pushedCount == 0 && !st.captured && st.explain == [] && pending == filters) ||
             Accounted(st, filters, pending, cols)
    ensures Push(filters, cols).Pushed? <==> HookCall(st, pending, cols).Called?
    ensures HookCall(st, pending, cols).Called? ==>
              Accounted(HookCall(st, pending, cols).state, filters, HookCall(st, pending, cols).remaining, cols)
  {
    PushInfoLength(filters, cols);
    if Accounted(st, filters, pending, cols) {
      ResidualIsStable(filters, cols);
    } else if Push(filters, cols).Pushed? {
      assert [] + ExplainItems(Push(filters, cols).info) ==
             ExplainItems(Push(filters, cols).info);
    }
  }

  /**
   However often and in whatever order the hook is called again, the accumulated WHERE
   plus the final residual is equivalent to the original filters, nothing is counted
   twice, and the explain flags describe the final split.
   */
  lemma {:induction false} CallsKeepTheFilters(srv: Server, eng: Engine, cols: Columns, filters: seq<Expr>,
                                               st: BindState, pending: seq<Expr>, presented: seq<bool>)
    requires Faithful(srv, eng) && ValidColumns(cols)
    requires AllWellFormed(filters) && DroppedAreNullSafe(srv, filters, cols)
    requires |filters| > 0 && Equivalent(srv, eng, cols, filters, st.where, pending)
    requires (st == FRESH_BIND && pending == filters) || Accounted(st, filters, pending, cols)
    ensures var r := Calls(st, pending, presented, cols);
            && (r.Thrown? ==> Push(filters, cols).Rejected?)
            && (r.Called? ==> Equivalent(srv, eng, cols, filters, r.state.where, r.remaining))
            && (r.Called? && true in presented ==> Accounted(r.state, filters, r.remaining, cols))
            && (r.Called? && Accounted(st, filters, pending, cols) ==> Accounted(r.state, filters, r.remaining, cols))
    decreases |presented|
  {
    if |presented| > 0 {
      if !presented[0] {
        assert true in presented ==> true in presented[1..];
        CallsKeepTheFilters(srv, eng, cols, filters, st, pending, presented[1..]);
      } else {
        CallAccounts(st, filters, pending, cols);
        if HookCall(st, pending, cols).Called? {
          CallKeepsEquivalence(srv, eng, cols, filters, st, pending);
          var r := HookCall(st, pending, cols);
          CallsKeepTheFilters(srv, eng, cols, filters, r.state, r.remaining, presented[1..]);
        }
      }
    }
  }

  lemma {:induction false} NoFilters(st: BindState, presented: seq<bool>, cols: Columns)
    ensures Calls(st, [], presented, cols) == Called(st, [])
    decreases |presented|
  {
    if |presented| > 0 { NoFilters(st, presented[1..], cols); }
  }

  /** Whatever is presented, even nothing at all, the split still says what the filters said. */
  lemma HookKeepsMeaning(srv: Server, eng: Engine, cols: Columns, filters: seq<Expr>, presented: seq<bool>)
    requires Faithful(srv, eng) && ValidColumns(cols)
    requires AllWellFormed(filters) && DroppedAreNullSafe(srv, filters, cols)
    ensures var r := Calls(FRESH_BIND, filters, presented, cols);
            r.Called? ==> Equivalent(srv, eng, cols, filters, r.state.where, r.remaining)
  {
    StartEquivalent(srv, eng, cols, filters);
    if |filters| == 0 {
      NoFilters(FRESH_BIND, presented, cols);
    } else {
      CallsKeepTheFilters(srv, eng, cols, filters, FRESH_BIND, filters, presented);
    }
  }

  /** Once the filters have been presented, from the fresh bind data. */
  lemma HookIsSafe(srv: Server, eng: Engine, cols: Columns, filters: seq<Expr>, presented: seq<bool>)
    requires Faithful(srv, eng) && ValidColumns(cols)
    requires AllWellFormed(filters) && DroppedAreNullSafe(srv, filters, cols)
    requires |filters| > 0 && true in presented
    ensures var r := Calls(FRESH_BIND, filters, presented, cols);
            && (r.Thrown? <==> Push(filters, cols).Rejected?)
            && (r.Called? ==> Equivalent(srv, eng, cols, filters, r.state.where, r.remaining))
            && (r.Called? ==> Accounted(r.state, filters, r.remaining, cols))
  {
    StartEquivalent(srv, eng, cols, filters);
    CallsKeepTheFilters(srv, eng, cols, filters, FRESH_BIND, filters, presented);
  }

  // ----- The length of the accumulated WHERE --------------------------------

  function Presentations(presented: seq<bool>): nat {
    if |presented| == 0 then 0 else (if presented[0] then 1 else 0) + Presentations(presented[1..])
  }

  /** What AND-ing one more text onto a non-empty one adds to its length. */
  function Joined(part: string): nat {
    if part == "" then 0 else |Separator(And)| + |part|
  }

  /** The accumulated length after k calls that presented the filters, k counting the first. */
  function LengthAfter(before: string, first: string, again: string, k: nat): int {
    if k == 0 then |before|
    else |before| + (if before == "" then |first| else Joined(first)) + (k - 1) * Joined(again)
  }

  /** What a second presentation pushes: the clauses of the filters the first one left behind. */
  function PushedAgain(filters: seq<Expr>, cols: Columns): string
    requires Push(filters, cols).Pushed?
  {
    match Push(Push(filters, cols).remaining, cols)
    case Rejected => ""
    case Pushed(where, _, _) => where
  }

  lemma TextIsNonEmpty(e: Expr, cols: Columns)
    requires IsTranslated(e, cols)
    ensures Translate(e, cols).text != ""
  {
  }

  lemma {:induction false} NoClauses(filters: seq<Expr>, cols: Columns)
    requires Join(Separator(And), Clauses(filters, cols)) == ""
    ensures Remaining(filters, cols) == filters
  {
    if |filters| > 0 {
      var rest := Clauses(filters[1..], cols);
      if IsTranslated(filters[0], cols) {
        TextIsNonEmpty(filters[0], cols);
        assert false;
      }
      assert Clauses(filters, cols) == rest;
      NoClauses(filters[1..], cols);
      assert filters == [filters[0]] + filters[1..];
    }
  }

  /** A first presentation that pushes nothing leaves the list as it was. */
  lemma NothingPushedAgain(filters: seq<Expr>, cols: Columns)
    requires Push(filters, cols).Pushed? && Push(filters, cols).where == ""
    ensures Push(filters, cols).remaining == filters
  {
    if |Join(Separator(And), Clauses(filters, cols))| <= MAX_WHERE_CHARS { NoClauses(filters, cols); }
  }

  lemma {:induction false} RepeatedLength(st: BindState, rest: seq<Expr>, presented: seq<bool>, cols: Columns)
    requires Push(rest, cols).Pushed? && Push(rest, cols).remaining == rest
    requires Push(rest, cols).where == "" || st.where != ""
    ensures var r := Calls(st, rest, presented, cols);
            r.Called? && |r.state.where| == |st.where| + Presentations(presented) * Joined(Push(rest, cols).where)
    decreases |presented|
  {
    if |presented| > 0 {
      if !presented[0] {
        RepeatedLength(st, rest, presented[1..], cols);
      } else {
        var r := HookCall(st, rest, cols);
        RepeatedLength(r.state, r.remaining, presented[1..], cols);
        OneMoreTime(Presentations(presented[1..]), Joined(Push(rest, cols).where));
      }
    }
  }

  lemma OneMoreTime(k: nat, n: nat)
    ensures (1 + k) * n == n + k * n
  {
  }

  lemma FirstAndMore(before: string, first: string, again: string, k: nat)
    ensures LengthAfter(before, first, again, 1 + k) == LengthAfter(before, first, again, 1) + k * Joined(again)
  {
  }

  /**
   The guard is per call. After any sequence of calls the accumulated text has grown by what the
   first presentation pushed, and by the same amount for every further one.
   */
  lemma {:induction false} AccumulatedLength(st: BindState, filters: seq<Expr>, presented: seq<bool>, cols: Columns)
    requires Push(filters, cols).Pushed?
    ensures var r := Calls(st, filters, presented, cols);
            r.Called? && |r.state.where| == LengthAfter(st.where, Push(filters, cols).where,
                                                        PushedAgain(filters, cols), Presentations(presented))
    decreases |presented|
  {
    if |presented| > 0 {
      if !presented[0] {
        AccumulatedLength(st, filters, presented[1..], cols);
      } else {
        var r := HookCall(st, filters, cols);
        ResidualIsStable(filters, cols);
        if Push(filters, cols).where == "" { NothingPushedAgain(filters, cols); }
        RepeatedLength(r.state, r.remaining, presented[1..], cols);
        var first, again, k := Push(filters, cols).where, PushedAgain(filters, cols), Presentations(presented[1..]);
        assert |r.state.where| == LengthAfter(st.where, first, again, 1);
        FirstAndMore(st.where, first, again, k);
      }
    }
  }

  /**
   From fresh bind data the accumulated WHERE keeps the limit that each call keeps if and only if
   the filters are presented at most once, or nothing is pushed a second time, or the lengths of
   all presentations add up to no more than the limit.
   */
  lemma AccumulatedWithinLimitIff(filters: seq<Expr>, presented: seq<bool>, cols: Columns)
    requires Push(filters, cols).Pushed?
    ensures var r := Calls(FRESH_BIND, filters, presented, cols);
            var first, again, k := Push(filters, cols).where, PushedAgain(filters, cols), Presentations(presented);
            && r.Called?
            && (|r.state.where| <= MAX_WHERE_CHARS <==>
                  k <= 1 || again == "" || |first| + (k - 1) * (|Separator(And)| + |again|) <= MAX_WHERE_CHARS)
  {
    AccumulatedLength(FRESH_BIND, filters, presented, cols);
    LengthWithin(Push(filters, cols).where, PushedAgain(filters, cols), Presentations(presented), MAX_WHERE_CHARS);
  }

  lemma LengthWithin(first: string, again: string, k: nat, limit: nat)
    requires |first| <= limit
    ensures LengthAfter("", first, again, k) <= limit <==>
            k <= 1 || again == "" || |first| + (k - 1) * (|Separator(And)| + |again|) <= limit
  {
    if again == "" { assert (k - 1) * Joined(again) == 0; }
    if k == 1 { assert (k - 1) * Joined(again) == 0; }
  }

  lemma {:induction false} PlainEscape(s: string)
    requires forall i | 0 <= i < |s| :: s[i] != '\\' && s[i] != '\''
    ensures Escape(s) == s
  {
    if s != "" {
      PlainEscape(s[1..]);
      assert s == [s[0]] + s[1..];
    }
  }

  /** One `contains` filter with a text of more than 2000 characters, presented twice: over the limit. */
  lemma AccumulatedOverLimitExample(text: string) returns (filter: Expr, cols: Columns)
    requires 2000 < |text| <= 3000 && forall i | 0 <= i < |text| :: text[i] == 'a'
    ensures filter == Call("contains", [ColumnRef(0), Constant(Varchar(text))])
    ensures Push([filter], cols).Pushed?
    ensures Calls(FRESH_BIND, [filter], [true, true], cols).Called?
    ensures |Calls(FRESH_BIND, [filter], [true, true], cols).state.where| > MAX_WHERE_CHARS
  {
    var name := Field("Name", "string", VarcharType, true, true, "", [], false, []);
    cols := Columns([name], [0]);
    filter := Call("contains", [ColumnRef(0), Constant(Varchar(text))]);
    ContainsLength(filter, cols, text);
    PushSuperset(filter, cols);
    AccumulatedLength(FRESH_BIND, [filter], [true, true], cols);
    assert Presentations([true, true]) == 2 by { assert [true, true][1..] == [true] && [true][1..] == []; }
  }

  lemma ContainsLength(filter: Expr, cols: Columns, text: string)
    requires filter == Call("contains", [ColumnRef(0), Constant(Varchar(text))])
    requires FieldFor(ColumnRef(0), cols) == Some("Name") && forall i | 0 <= i < |text| :: text[i] == 'a'
    ensures IsTranslated(filter, cols) && !IsExact(filter, cols) && |Translate(filter, cols).text| == |text| + 14
  {
    PlainEscape("%" + (text + "%"));
  }

  /** Pushing one superset filter: its clause is sent and the filter stays. */
  lemma PushSuperset(e: Expr, cols: Columns)
    requires IsTranslated(e, cols) && !IsExact(e, cols) && |Translate(e, cols).text| <= MAX_WHERE_CHARS
    ensures Push([e], cols).Pushed?
    ensures Push([e], cols).remaining == [e] && Push([e], cols).where == Translate(e, cols).text
  {
    assert [e][1..] == [];
    assert Clauses([e], cols) == OwnClause(e, cols) + [];
    assert Remaining([e], cols) == OwnRemainder(e, cols) + [];
  }

  /** Exactly the filters whose explain item says so are left for DuckDB, in order. */
  lemma {:induction false} ExplainMatchesResidual(filters: seq<Expr>, cols: Columns)
    requires Push(filters, cols).Pushed? && |Push(filters, cols).info| == |filters|
    ensures var items := ExplainItems(Push(filters, cols).info);
            Push(filters, cols).remaining == Flagged(filters, items)
    decreases |filters|
  {
    var r := Push(filters, cols);
    var items := ExplainItems(r.info);
    if |Join(Separator(And), Clauses(filters, cols))| > MAX_WHERE_CHARS {
      AllFlagged(filters, items);
    } else {
      FlaggedIsRemaining(filters, items, cols);
    }
  }

  function Flagged(filters: seq<Expr>, items: seq<ExplainItem>): seq<Expr>
    requires |items| == |filters|
  {
    if |filters| == 0 then []
    else (if items[0].residual then [filters[0]] else []) + Flagged(filters[1..], items[1..])
  }

  lemma {:induction false} AllFlagged(filters: seq<Expr>, items: seq<ExplainItem>)
    requires |items| == |filters| && forall i | 0 <= i < |items| :: items[i].residual
    ensures Flagged(filters, items) == filters
  {
    if |filters| > 0 {
      AllFlagged(filters[1..], items[1..]);
      assert filters == [filters[0]] + filters[1..];
    }
  }

  lemma {:induction false} FlaggedIsRemaining(filters: seq<Expr>, items: seq<ExplainItem>, cols: Columns)
    requires |items| == |filters|
    requires forall i | 0 <= i < |items| :: items[i].residual == !IsExact(filters[i], cols)
    ensures Flagged(filters, items) == Remaining(filters, cols)
  {
    if |filters| > 0 {
      FlaggedIsRemaining(filters[1..], items[1..], cols);
    }
  }

  /**
   What the explain items say of each filter: sent to the server if it is pushable, and left to DuckDB
   unless its translation is exact; where the WHERE would be too long, nothing sent and all left.
   */
  lemma ExplainSays(filters: seq<Expr>, cols: Columns, i: nat)
    requires Push(filters, cols).Pushed? && |Push(filters, cols).info| == |filters| && i < |filters|
    ensures var item := ExplainItems(Push(filters, cols).info)[i];
            if |Join(" AND ", Clauses(filters, cols))| > 4000 then !item.pushed && item.residual
            else (item.pushed <==> Pushable(filters[i], cols)) &&
                 (item.residual <==> !(Pushable(filters[i], cols) && SelectsExactly(filters[i])))
  {
    assert !Malformed(filters[i], cols);
    TranslatedIff(filters[i], cols);
  }
}
