/**
 The user's own SOQL predicate, salesforce_scan(..., filter := ...). ScanInitGlobal joins it to the
 pushed WHERE without parentheses. The joined text can be read, and then means both, if and only if
 nothing was pushed or the predicate is not an OR at its top level.
 */
module UserPredicate {
  import opened Text
  import opened SoqlSyntax
  import opened SoqlMeaning
  import opened PushdownHook

  /** The combined WHERE of the global state. */
  function CombinedWhere(pushed: string, raw: string): string {
    if raw == "" then pushed else if pushed == "" then raw else pushed + " AND " + raw
  }

  /** The user's predicate as items under one connective, or no predicate. */
  ghost predicate Writes(raw: string, c: Connective, items: seq<Predicate>) {
    (raw == "" && c == And && items == []) || (ValidItems(c, items) && raw == PrintItems(c, items))
  }

  lemma JoinedText(pushed: string, raw: string)
    ensures pushed + " AND " + raw == pushed + (Separator(And) + raw)
  {
    Assoc(pushed, " AND ", raw);
  }

  /** Whatever the user wrote, the joined text selects no row that the pushed WHERE does not. */
  lemma JoinNeverWidens(srv: Server, pushed: string, items: seq<Predicate>, raw: string, row: Row)
    requires Spells(pushed, items) && Returns(srv, CombinedWhere(pushed, raw), row)
    ensures Returns(srv, pushed, row)
  {
    SpelledMeaning(srv, pushed, items, row);
    if raw != "" && pushed != "" {
      JoinedText(pushed, raw);
      JoinedReads(items, raw);
      var ps := ReadMore(And, Separator(And) + raw).value;
      var all := ReadWhere(CombinedWhere(pushed, raw)).value.items;
      assert all == items + ps;
      forall i | 0 <= i < |items| ensures Accepts(srv, items[i], row) { assert all[i] == items[i]; }
    }
  }

  /** A predicate that is an AND at its top level is joined as meant. */
  lemma ConjunctionJoins(srv: Server, pushed: string, items: seq<Predicate>, raw: string, own: seq<Predicate>,
                         row: Row)
    requires Spells(pushed, items) && Writes(raw, And, own)
    ensures Returns(srv, CombinedWhere(pushed, raw), row) <==> Returns(srv, pushed, row) && Returns(srv, raw, row)
  {
    if raw != "" && pushed != "" {
      JoinedText(pushed, raw);
      AccumulatedMeaning(srv, pushed, items, raw, own, row);
    }
  }

  /** Reading an OR list as the continuation of an AND list stops before its first OR. */
  lemma ReadsUpToOr(own: seq<Predicate>)
    requires ValidItems(Or, own)
    ensures ReadMore(And, Separator(And) + PrintItems(Or, own)) ==
            Got([own[0]], Separator(Or) + PrintItems(Or, own[1..]))
  {
    var tail := Separator(Or) + PrintItems(Or, own[1..]);
    SeparatorStops(Or, PrintItems(Or, own[1..]));
    ItemRoundTrip(own[0], tail);
    ReadThenMore(And, PrintItems(Or, own), own[0], tail);
    OrIsNotAnd(PrintItems(Or, own[1..]));
    assert [own[0]] + [] == [own[0]];
  }

  lemma OrIsNotAnd(rest: string)
    ensures ReadMore(And, Separator(Or) + rest) == Got([], Separator(Or) + rest)
  {
    NotPrefix(Separator(Or) + rest, Separator(And), 1);
  }

  /** A predicate that is an OR at its top level, joined to pushed clauses, is no WHERE at all. */
  lemma DisjunctionIsUnreadable(pushed: string, items: seq<Predicate>, raw: string, own: seq<Predicate>)
    requires Spells(pushed, items) && pushed != "" && Writes(raw, Or, own)
    ensures ReadWhere(CombinedWhere(pushed, raw)) == None
  {
    JoinedText(pushed, raw);
    JoinedReads(items, raw);
    ReadsUpToOr(own);
  }

  /** Where the predicate was joined at all, it can be read and means both exactly when it is no OR. */
  lemma JoinReadableIff(srv: Server, pushed: string, items: seq<Predicate>, raw: string, c: Connective,
                        own: seq<Predicate>)
    requires Spells(pushed, items) && Writes(raw, c, own)
    ensures var w := CombinedWhere(pushed, raw);
            && (w == "" || ReadWhere(w).Some? <==> pushed == "" || c == And)
            && (w == "" || ReadWhere(w).Some? ==>
                  forall row :: Returns(srv, w, row) <==> Returns(srv, pushed, row) && Returns(srv, raw, row))
  {
    var w := CombinedWhere(pushed, raw);
    if pushed == "" {
      if raw != "" { WhereRoundTrip(c, own); }
    } else if c == Or {
      DisjunctionIsUnreadable(pushed, items, raw, own);
    } else {
      forall row ensures Returns(srv, w, row) <==> Returns(srv, pushed, row) && Returns(srv, raw, row) {
        ConjunctionJoins(srv, pushed, items, raw, own, row);
      }
      JoinedItems(pushed, items, raw, own);
    }
  }

  lemma JoinedItems(pushed: string, items: seq<Predicate>, raw: string, own: seq<Predicate>)
    requires Spells(pushed, items) && pushed != "" && Writes(raw, And, own)
    ensures ReadWhere(CombinedWhere(pushed, raw)) == Some(Group(And, items + own))
  {
    if own == [] {
      assert items + own == items;
      WhereRoundTrip(And, items);
    } else {
      PrintedIsNonEmpty(own);
      JoinedText(pushed, raw);
      PrintItemsAppend(items, own);
      WhereRoundTrip(And, items + own);
    }
  }

  /** `Name = null`, the predicate of the examples, rejects a row that has a name. */
  lemma NamedRowRejected(srv: Server, row: Row)
    requires NullTestsAgree(srv) && !Cell(row, "Name").Null?
    ensures !Returns(srv, "Name = null", row)
  {
    var own := Condition(Comparison("Name", Eq, NullLit));
    assert PrintItems(And, [own]) == "Name = null";
    WhereRoundTrip(And, [own]);
    assert !Accepts(srv, own, row);
    assert [own][0] == own;
  }
}
