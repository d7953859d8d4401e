/**
 Filter pushdown: the recursive translation of one bound filter expression into
 SOQL text, and the pass over a scan's filter list that pushes what it can and
 drops only the filters whose translation is exact.
 */
module SoqlPushdown {
  import opened Text
  import opened Describe
  import opened SoqlSyntax
  import LikePatterns

  const MAX_WHERE_CHARS: nat := 4000
  const MAX_IN_ITEMS: nat := 200

  /** A DuckDB constant with the text its ToString yields. */
  datatype Value =
    | Null
    | Varchar(text: string)
    | Boolean(truth: bool)
    | Number(text: string)
    | Date(text: string)
    | Timestamp(text: string)
    | Time(text: string)
    | Unsupported(text: string)

  datatype CompareKind = Plain(op: CompareOp) | OtherComparison

  datatype Expr =
    | ColumnRef(column: nat)
    | Constant(value: Value)
    | Compare(kind: CompareKind, left: Expr, right: Expr)
    | Between(input: Expr, lower: Expr, upper: Expr, lowerInclusive: bool, upperInclusive: bool)
    | NullTest(wantNull: bool, args: seq<Expr>)
    | InList(args: seq<Expr>)
    | Call(name: string, args: seq<Expr>)
    | Conjunction(connective: Connective, args: seq<Expr>)
    | Opaque(tag: nat, args: seq<Expr>)

  /** The scan's fields and the map from column references to field indices. */
  datatype Columns = Columns(fields: seq<Field>, projection: seq<nat>)

  datatype Translation =
    | Residual                             // left to DuckDB
    | Translated(text: string, exact: bool)
    | InvalidId                            // the BinderException for a malformed Id constant

  // ----- Constants ----------------------------------------------------------

  function SpaceToT(s: string): (r: string)
    ensures |r| == |s|
  {
    if s == "" then ""
    else if s[0] == ' ' then "T" + s[1..]
    else [s[0]] + SpaceToT(s[1..])
  }

  predicate Supported(v: Value) {
    !v.Unsupported?
  }

  function LiteralOf(v: Value): Literal
    requires Supported(v)
  {
    match v
    case Null => NullLit
    case Varchar(s) => StringLit(s)
    case Boolean(b) => BareLit(if b then "true" else "false")
    case Number(t) => BareLit(t)
    case Date(t) => BareLit(t)
    case Timestamp(t) => BareLit(SpaceToT(t) + "Z")
    case Time(t) => BareLit(t + "Z")
  }

  /** SoqlString builds the quoted text one character at a time. */
  method SoqlString(s: string) returns (out: string)
    ensures out == Quote(s)
  {
    out := "'";
    for i := 0 to |s|
      invariant out + (Escape(s[i..]) + "'") == Quote(s)
    {
      ghost var before := out;
      assert s[i..][1..] == s[i + 1..];
      if s[i] == '\\' || s[i] == '\'' {
        out := out + ['\\'];
      }
      out := out + [s[i]];
      assert out == before + EscapeChar(s[i]);
      Assoc(before, EscapeChar(s[i]), Escape(s[i + 1..]) + "'");
      Assoc(EscapeChar(s[i]), Escape(s[i + 1..]), "'");
    }
    assert s[|s|..] == "";
    out := out + "'";
  }

  function ValueText(v: Value): string {
    match v
    case Null => "NULL"
    case Boolean(b) => if b then "true" else "false"
    case _ => v.text
  }

  // ----- Fields -------------------------------------------------------------

  function FieldFor(e: Expr, cols: Columns): Option<string> {
    if !e.ColumnRef? || e.column >= |cols.projection| then None
    else
      var i := cols.projection[e.column];
      if i >= |cols.fields| || !cols.fields[i].filterable then None
      else Some(cols.fields[i].name)
  }

  predicate ValidIdText(s: string) {
    (|s| == 15 || |s| == 18) && forall c :: c in s ==> IsAlphaNumeric(c)
  }

  /** The first field whose name matches, whatever its case. */
  function FieldNamed(fields: seq<Field>, name: string): Option<Field> {
    if |fields| == 0 then None
    else if CIEquals(fields[0].name, name) then Some(fields[0])
    else FieldNamed(fields[1..], name)
  }

  predicate IdLiteralsValid(fields: seq<Field>, field: string, values: seq<Value>) {
    var f := FieldNamed(fields, field);
    f.None? || Lower(f.value.sfType) != "id" ||
    forall v :: v in values && !v.Null? ==> ValidIdText(ValueText(v))
  }

  // ----- Translation --------------------------------------------------------

  function Flip(op: CompareOp): CompareOp {
    match op
    case Eq => Eq
    case Ne => Ne
    case Lt => Gt
    case Gt => Lt
    case Le => Ge
    case Ge => Le
  }

  /** The `field op constant` reading of a comparison, from either side. */
  datatype Oriented = NotOriented | Oriented(field: string, op: CompareOp, value: Value)

  function Orient(kind: CompareKind, left: Expr, right: Expr, cols: Columns): Oriented {
    if kind.OtherComparison? then NotOriented
    else if FieldFor(left, cols).Some? && right.Constant? then
      Oriented(FieldFor(left, cols).value, kind.op, right.value)
    else if FieldFor(right, cols).Some? && left.Constant? then
      Oriented(FieldFor(right, cols).value, Flip(kind.op), left.value)
    else NotOriented
  }

  function TranslateComparison(o: Oriented, cols: Columns): Translation
    requires o.Oriented?
  {
    if (o.op == Eq || o.op == Ne) && !IdLiteralsValid(cols.fields, o.field, [o.value]) then InvalidId
    else if !Supported(o.value) then Residual
    else Translated(PrintAtom(Comparison(o.field, o.op, LiteralOf(o.value))), true)
  }

  predicate BetweenBounds(lower: Expr, upper: Expr) {
    && lower.Constant? && upper.Constant?
    && !lower.value.Null? && !upper.value.Null?
    && Supported(lower.value) && Supported(upper.value)
  }

  function LowerOp(inclusive: bool): CompareOp { if inclusive then Ge else Gt }
  function UpperOp(inclusive: bool): CompareOp { if inclusive then Le else Lt }

  function TranslateBetween(e: Expr, cols: Columns): Translation
    requires e.Between?
  {
    var f := FieldFor(e.input, cols);
    if f.None? || !BetweenBounds(e.lower, e.upper) then Residual
    else
      var lo := PrintAtom(Comparison(f.value, LowerOp(e.lowerInclusive), LiteralOf(e.lower.value)));
      var hi := PrintAtom(Comparison(f.value, UpperOp(e.upperInclusive), LiteralOf(e.upper.value)));
      Translated("(" + (lo + (" AND " + hi) + ")"), true)
  }

  predicate ConstantList(args: seq<Expr>) {
    forall k | 1 <= k < |args| :: args[k].Constant? && Supported(args[k].value)
  }

  function ListValues(args: seq<Expr>): (vs: seq<Value>)
    requires |args| >= 1 && ConstantList(args)
    ensures |vs| == |args| - 1
    ensures forall k | 0 <= k < |vs| :: vs[k] == args[k + 1].value && Supported(vs[k])
  {
    seq(|args| - 1, k requires 0 <= k < |args| - 1 => args[k + 1].value)
  }

  function LiteralsOf(vs: seq<Value>): (ls: seq<Literal>)
    requires forall v :: v in vs ==> Supported(v)
    ensures |ls| == |vs| && forall k | 0 <= k < |vs| :: ls[k] == LiteralOf(vs[k])
  {
    seq(|vs|, k requires 0 <= k < |vs| => LiteralOf(vs[k]))
  }

  function TranslateIn(args: seq<Expr>, cols: Columns): Translation {
    if |args| < 2 || FieldFor(args[0], cols).None? then Residual
    else if |args| - 1 > MAX_IN_ITEMS || !ConstantList(args) then Residual
    else
      var f := FieldFor(args[0], cols).value;
      var vs := ListValues(args);
      if !IdLiteralsValid(cols.fields, f, vs) then InvalidId
      else Translated(PrintAtom(Membership(f, LiteralsOf(vs))), false)
  }

  function SearchNamed(name: string): Option<LikePatterns.Search> {
    if name == "~~" then Some(LikePatterns.Like)
    else if name == "prefix" then Some(LikePatterns.Prefix)
    else if name == "suffix" then Some(LikePatterns.Suffix)
    else if name == "contains" then Some(LikePatterns.Contains)
    else None
  }

  predicate SearchCall(name: string, args: seq<Expr>, cols: Columns) {
    && SearchNamed(name).Some? && |args| == 2
    && FieldFor(args[0], cols).Some?
    && args[1].Constant? && args[1].value.Varchar?
  }

  function TranslateCall(name: string, args: seq<Expr>, cols: Columns): Translation {
    if !SearchCall(name, args, cols) then Residual
    else
      var p := LikePatterns.PatternFor(SearchNamed(name).value, args[1].value.text);
      Translated(PrintAtom(LikeTest(FieldFor(args[0], cols).value, p)), false)
  }

  /** The translated members of a conjunction, or the first reason there are none. */
  datatype Members = Stop(why: Translation) | All(texts: seq<string>, exact: bool)

  function Translate(e: Expr, cols: Columns): Translation
    decreases e
  {
    match e
    case Compare(kind, l, r) =>
      var o := Orient(kind, l, r, cols);
      if o.NotOriented? then Residual else TranslateComparison(o, cols)
    case Between(_, _, _, _, _) => TranslateBetween(e, cols)
    case NullTest(wantNull, args) =>
      if |args| != 1 || FieldFor(args[0], cols).None? then Residual
      else Translated(PrintAtom(Comparison(FieldFor(args[0], cols).value, if wantNull then Eq else Ne, NullLit)), true)
    case InList(args) => TranslateIn(args, cols)
    case Call(name, args) => TranslateCall(name, args, cols)
    case Conjunction(c, args) =>
      (match TranslateMembers(args, cols)
       case Stop(why) => why
       case All(texts, exact) => Translated("(" + (Join(Separator(c), texts) + ")"), c == And && exact))
    case _ => Residual
  }

  function TranslateMembers(args: seq<Expr>, cols: Columns): (m: Members)
    ensures m.Stop? ==> !m.why.Translated?
    ensures m.All? ==> |m.texts| == |args|
    decreases args
  {
    if |args| == 0 then All([], true)
    else
      match Translate(args[0], cols)
      case Residual => Stop(Residual)
      case InvalidId => Stop(InvalidId)
      case Translated(text, exact) =>
        match TranslateMembers(args[1..], cols)
        case Stop(why) => Stop(why)
        case All(texts, allExact) => All([text] + texts, exact && allExact)
  }

  predicate IsTranslated(e: Expr, cols: Columns) {
    Translate(e, cols).Translated?
  }

  predicate IsExact(e: Expr, cols: Columns) {
    Translate(e, cols).Translated? && Translate(e, cols).exact
  }

  // ----- The pass over the filter list --------------------------------------

  datatype ConjunctInfo = ConjunctInfo(translated: bool, exact: bool)

  datatype Pushdown =
    | Rejected
    | Pushed(where: string, remaining: seq<Expr>, info: seq<ConjunctInfo>)

  /** What one filter contributes to the WHERE. */
  function OwnClause(e: Expr, cols: Columns): seq<string> {
    if IsTranslated(e, cols) then [Translate(e, cols).text] else []
  }

  function Clauses(filters: seq<Expr>, cols: Columns): seq<string> {
    if |filters| == 0 then []
    else OwnClause(filters[0], cols) + Clauses(filters[1..], cols)
  }

  /** What one filter leaves to be evaluated locally. */
  function OwnRemainder(e: Expr, cols: Columns): seq<Expr> {
    if IsExact(e, cols) then [] else [e]
  }

  function Remaining(filters: seq<Expr>, cols: Columns): seq<Expr> {
    if |filters| == 0 then []
    else OwnRemainder(filters[0], cols) + Remaining(filters[1..], cols)
  }

  /** How one filter is tagged. */
  function OwnInfo(e: Expr, cols: Columns): ConjunctInfo {
    ConjunctInfo(IsTranslated(e, cols), IsExact(e, cols))
  }

  function Infos(filters: seq<Expr>, cols: Columns): (r: seq<ConjunctInfo>)
    ensures |r| == |filters|
    ensures forall i | 0 <= i < |filters| :: r[i] == OwnInfo(filters[i], cols)
  {
    seq(|filters|, i requires 0 <= i < |filters| => OwnInfo(filters[i], cols))
  }

  function Nothing(n: nat): (r: seq<ConjunctInfo>)
    ensures |r| == n && forall i | 0 <= i < n :: r[i] == ConjunctInfo(false, false)
  {
    seq(n, i => ConjunctInfo(false, false))
  }

  /** The filter compares an Id field with a text that is not an Id. */
  predicate Malformed(e: Expr, cols: Columns) {
    Translate(e, cols).InvalidId?
  }

  predicate AnyMalformed(filters: seq<Expr>, cols: Columns) {
    exists i | 0 <= i < |filters| :: Malformed(filters[i], cols)
  }

  function Push(filters: seq<Expr>, cols: Columns): Pushdown {
    if AnyMalformed(filters, cols) then Rejected
    else
      var where := Join(Separator(And), Clauses(filters, cols));
      if |where| > MAX_WHERE_CHARS then Pushed("", filters, Nothing(|filters|))
      else Pushed(where, Remaining(filters, cols), Infos(filters, cols))
  }

  lemma {:induction false} ClausesSnoc(filters: seq<Expr>, e: Expr, cols: Columns)
    ensures Clauses(filters + [e], cols) == Clauses(filters, cols) + OwnClause(e, cols)
  {
    if |filters| > 0 {
      assert (filters + [e])[1..] == filters[1..] + [e];
      ClausesSnoc(filters[1..], e, cols);
      Assoc(OwnClause(filters[0], cols), Clauses(filters[1..], cols), OwnClause(e, cols));
    } else {
      assert (filters + [e])[1..] == [];
    }
  }

  lemma {:induction false} RemainingSnoc(filters: seq<Expr>, e: Expr, cols: Columns)
    ensures Remaining(filters + [e], cols) == Remaining(filters, cols) + OwnRemainder(e, cols)
  {
    if |filters| > 0 {
      assert (filters + [e])[1..] == filters[1..] + [e];
      RemainingSnoc(filters[1..], e, cols);
      Assoc(OwnRemainder(filters[0], cols), Remaining(filters[1..], cols), OwnRemainder(e, cols));
    } else {
      assert (filters + [e])[1..] == [];
    }
  }

  /** One more filter adds its own clause and its own tag. */
  lemma PassSnoc(filters: seq<Expr>, i: nat, cols: Columns)
    requires i < |filters|
    ensures Clauses(filters[..i + 1], cols) == Clauses(filters[..i], cols) + OwnClause(filters[i], cols)
    ensures Infos(filters[..i + 1], cols) == Infos(filters[..i], cols) + [OwnInfo(filters[i], cols)]
    ensures AnyMalformed(filters[..i + 1], cols) <==> AnyMalformed(filters[..i], cols) || Malformed(filters[i], cols)
    ensures Malformed(filters[i], cols) ==> AnyMalformed(filters, cols)
  {
    assert filters[..i + 1] == filters[..i] + [filters[i]];
    ClausesSnoc(filters[..i], filters[i], cols);
    MalformedSnoc(filters[..i], filters[i], cols);
  }

  lemma MalformedSnoc(filters: seq<Expr>, e: Expr, cols: Columns)
    ensures AnyMalformed(filters + [e], cols) <==> AnyMalformed(filters, cols) || Malformed(e, cols)
  {
    var all := filters + [e];
    assert all[|filters|] == e && forall i | 0 <= i < |filters| :: all[i] == filters[i];
  }

  /** One filter: no clause unless it translates, and no verdict at all for a malformed Id constant. */
  method TranslateFilter(cols: Columns, e: Expr) returns (ok: bool, clause: seq<string>, tag: ConjunctInfo)
    ensures ok == !Malformed(e, cols)
    ensures ok ==> clause == OwnClause(e, cols) && tag == OwnInfo(e, cols)
  {
    match Translate(e, cols)
    case InvalidId => return false, [], ConjunctInfo(false, false);
    case Residual => return true, [], ConjunctInfo(false, false);
    case Translated(text, exact) => return true, [text], ConjunctInfo(true, exact);
  }

  /** The first pass: translate every filter, stopping at a malformed Id constant. */
  method TranslateFilters(cols: Columns, filters: seq<Expr>)
    returns (valid: bool, info: seq<ConjunctInfo>, clauses: seq<string>)
    ensures valid == !AnyMalformed(filters, cols)
    ensures valid ==> info == Infos(filters, cols) && clauses == Clauses(filters, cols)
  {
    valid, info, clauses := true, [], [];
    for i := 0 to |filters|
      invariant valid && clauses == Clauses(filters[..i], cols)
      invariant info == Infos(filters[..i], cols)
      invariant !AnyMalformed(filters[..i], cols)
    {
      PassSnoc(filters, i, cols);
      var ok, clause, tag := TranslateFilter(cols, filters[i]);
      if !ok {
        return false, info, clauses;
      }
      clauses, info := clauses + clause, info + [tag];
    }
    assert filters[..|filters|] == filters;
  }

  /** The second pass: one AND between neighbouring clauses. */
  method JoinClauses(clauses: seq<string>) returns (where: string)
    ensures where == Join(Separator(And), clauses)
  {
    where := "";
    for i := 0 to |clauses|
      invariant where == Join(Separator(And), clauses[..i])
    {
      assert clauses[..i + 1] == clauses[..i] + [clauses[i]];
      if i > 0 {
        JoinSnoc(Separator(And), clauses[..i], clauses[i]);
        where := where + " AND ";
      }
      where := where + clauses[i];
    }
    assert clauses[..|clauses|] == clauses;
  }

  /** The third pass: only exactly translated filters are dropped. */
  method DropExact(cols: Columns, filters: seq<Expr>, info: seq<ConjunctInfo>) returns (remaining: seq<Expr>)
    requires info == Infos(filters, cols)
    ensures remaining == Remaining(filters, cols)
  {
    remaining := [];
    for i := 0 to |filters|
      invariant remaining == Remaining(filters[..i], cols)
    {
      RemainingSnoc(filters[..i], filters[i], cols);
      assert filters[..i + 1] == filters[..i] + [filters[i]];
      if !(info[i].translated && info[i].exact) {
        remaining := remaining + [filters[i]];
      }
    }
    assert filters[..|filters|] == filters;
  }

  /** PushdownToSoql: an over-long WHERE pushes nothing and leaves every filter behind. */
  method PushdownToSoql(cols: Columns, filters: seq<Expr>) returns (r: Pushdown)
    ensures r == Push(filters, cols)
  {
    var valid, info, clauses := TranslateFilters(cols, filters);
    if !valid {
      return Rejected;
    }
    var where := JoinClauses(clauses);
    if |where| > MAX_WHERE_CHARS {
      return Pushed("", filters, Nothing(|filters|));
    }
    var remaining := DropExact(cols, filters, info);
    r := Pushed(where, remaining, info);
  }

  // ----- Timestamps ---------------------------------------------------------

  lemma {:induction false} SpaceToTIs(date: string, time: string)
    requires forall i | 0 <= i < |date| :: date[i] != ' '
    ensures SpaceToT(date + " " + time) == date + "T" + time
  {
    var s := date + " " + time;
    if date == "" {
      assert s[1..] == time;
    } else {
      assert s[0] == date[0];
      assert s[1..] == date[1..] + " " + time;
      SpaceToTIs(date[1..], time);
      assert [date[0]] + (date[1..] + "T" + time) == date + "T" + time;
    }
  }

  /** A timestamp's date and time come out as one ISO-8601 token. */
  lemma TimestampLiteral(date: string, time: string)
    requires (forall c :: c in date ==> IsTokenChar(c)) && (forall c :: c in time ==> IsTokenChar(c))
    ensures LiteralOf(Timestamp(date + " " + time)) == BareLit(date + "T" + time + "Z")
    ensures ValidLiteral(LiteralOf(Timestamp(date + " " + time)))
  {
    forall i | 0 <= i < |date| ensures date[i] != ' ' { assert date[i] in date; }
    SpaceToTIs(date, time);
    var t := date + "T" + time + "Z";
    assert t[|t| - 1] == 'Z';
  }

  // ----- The tree behind the text -------------------------------------------

  /** The predicate a translated expression stands for. */
  function Tree(e: Expr, cols: Columns): Predicate
    requires IsTranslated(e, cols)
    decreases e
  {
    match e
    case Compare(kind, l, r) =>
      var o := Orient(kind, l, r, cols);
      Condition(Comparison(o.field, o.op, LiteralOf(o.value)))
    case Between(input, lower, upper, loInc, hiInc) =>
      var f := FieldFor(input, cols).value;
      Group(And, [Condition(Comparison(f, LowerOp(loInc), LiteralOf(lower.value))),
                  Condition(Comparison(f, UpperOp(hiInc), LiteralOf(upper.value)))])
    case NullTest(wantNull, args) =>
      Condition(Comparison(FieldFor(args[0], cols).value, if wantNull then Eq else Ne, NullLit))
    case InList(args) =>
      Condition(Membership(FieldFor(args[0], cols).value, LiteralsOf(ListValues(args))))
    case Call(name, args) =>
      Condition(LikeTest(FieldFor(args[0], cols).value,
                         LikePatterns.PatternFor(SearchNamed(name).value, args[1].value.text)))
    case Conjunction(c, args) => Group(if |args| == 1 then And else c, Trees(args, cols))
  }

  function Trees(args: seq<Expr>, cols: Columns): (ps: seq<Predicate>)
    requires TranslateMembers(args, cols).All?
    ensures |ps| == |args|
    decreases args
  {
    if |args| == 0 then [] else [Tree(args[0], cols)] + Trees(args[1..], cols)
  }

  lemma {:induction false} TreesAt(args: seq<Expr>, cols: Columns, k: nat)
    requires TranslateMembers(args, cols).All? && k < |args|
    ensures IsTranslated(args[k], cols) && Trees(args, cols)[k] == Tree(args[k], cols)
    ensures TranslateMembers(args, cols).exact ==> IsExact(args[k], cols)
  {
    if k > 0 { TreesAt(args[1..], cols, k - 1); }
  }

  lemma PrintPair(c: Connective, items: seq<Predicate>)
    requires |items| == 2
    ensures PrintItems(c, items) == Print(items[0]) + (Separator(c) + Print(items[1]))
  {
    assert items[1..] == [items[1]];
  }

  /** The translator's text is the printed tree. */
  lemma {:induction false} TextIsTree(e: Expr, cols: Columns)
    requires IsTranslated(e, cols)
    ensures Translate(e, cols).text == Print(Tree(e, cols))
    decreases e
  {
    match e
    case Between(_, _, _, _, _) => PrintPair(And, Tree(e, cols).items);
    case Conjunction(c, args) => MembersAreTrees(args, cols, c);
    case _ =>
  }

  lemma {:induction false} MembersAreTrees(args: seq<Expr>, cols: Columns, c: Connective)
    requires TranslateMembers(args, cols).All?
    ensures Join(Separator(c), TranslateMembers(args, cols).texts) ==
            PrintItems(if |args| == 1 then And else c, Trees(args, cols))
    ensures |args| > 1 ==> Join(Separator(c), TranslateMembers(args, cols).texts) == PrintItems(c, Trees(args, cols))
    decreases args
  {
    if |args| > 0 {
      var m := TranslateMembers(args, cols);
      TextIsTree(args[0], cols);
      MembersAreTrees(args[1..], cols, c);
      assert m.texts[1..] == TranslateMembers(args[1..], cols).texts;
      assert Trees(args, cols)[1..] == Trees(args[1..], cols);
      if |args| > 1 {
        assert m.texts[0] == Print(Trees(args, cols)[0]);
        Assoc(m.texts[0], Separator(c), Join(Separator(c), m.texts[1..]));
      }
    }
  }

  // ----- Id constants -------------------------------------------------------

  /** The condition compares no Id field for equality with a constant that does not read as an Id. */
  predicate IdSafeAtom(a: Atom, fields: seq<Field>) {
    var f := FieldNamed(fields, a.field);
    f.Some? && Lower(f.value.sfType) == "id" ==>
      match a
      case Comparison(_, op, l) => op == Eq || op == Ne ==> IdLiteral(l)
      case Membership(_, items) => forall l :: l in items ==> IdLiteral(l)
      case _ => true
  }

  /** A literal whose constant reads as an Id; a time is emitted with a Z behind its text. */
  predicate IdLiteral(l: Literal) {
    match l
    case NullLit => true
    case StringLit(s) => ReadsAsId(s)
    case BareLit(t) => ReadsAsId(t) || (t != "" && t[|t| - 1] == 'Z' && ReadsAsId(t[..|t| - 1]))
  }

  /** Fifteen or eighteen letters and digits. */
  predicate ReadsAsId(s: string) {
    && |s| in {15, 18}
    && forall i | 0 <= i < |s| :: '0' <= s[i] <= '9' || 'A' <= s[i] <= 'Z' || 'a' <= s[i] <= 'z'
  }

  lemma ValidIsRead(s: string)
    ensures ValidIdText(s) <==> ReadsAsId(s)
  {
    if ReadsAsId(s) {
      forall c | c in s ensures IsAlphaNumeric(c) {
        var i :| 0 <= i < |s| && s[i] == c;
      }
    } else if ValidIdText(s) {
      forall i | 0 <= i < |s| ensures IsAlphaNumeric(s[i]) { assert s[i] in s; }
    }
  }

  lemma IdValueLiteral(v: Value)
    requires Supported(v) && (v.Null? || ValidIdText(ValueText(v)))
    ensures IdLiteral(LiteralOf(v))
  {
    ValidIsRead(ValueText(v));
    match v
    case Timestamp(t) =>
      NoSpace(t);
      assert (t + "Z")[..|t|] == t;
    case Time(t) => assert (t + "Z")[..|t|] == t;
    case _ =>
  }

  lemma {:induction false} NoSpace(s: string)
    requires forall c :: c in s ==> IsAlphaNumeric(c)
    ensures SpaceToT(s) == s
  {
    if s != "" {
      assert s[0] in s;
      NoSpace(s[1..]);
      assert s == [s[0]] + s[1..];
    }
  }

  predicate IdSafe(p: Predicate, fields: seq<Field>)
    decreases p
  {
    match p
    case Condition(a) => IdSafeAtom(a, fields)
    case Group(_, items) => forall i | 0 <= i < |items| :: IdSafe(items[i], fields)
  }

  lemma ListedLiteral(vs: seq<Value>, l: Literal)
    requires forall v :: v in vs ==> Supported(v) && (v.Null? || ValidIdText(ValueText(v)))
    requires l in LiteralsOf(vs)
    ensures IdLiteral(l)
  {
    var k :| 0 <= k < |vs| && LiteralsOf(vs)[k] == l;
    IdValueLiteral(vs[k]);
  }

  lemma ComparedIdIsValid(e: Expr, cols: Columns)
    requires e.Compare? && IsTranslated(e, cols)
    ensures IdSafe(Tree(e, cols), cols.fields)
  {
    var o := Orient(e.kind, e.left, e.right, cols);
    assert o.value in [o.value];
    if o.value.Null? || ValidIdText(ValueText(o.value)) { IdValueLiteral(o.value); }
  }

  lemma ListedIdsAreValid(e: Expr, cols: Columns)
    requires e.InList? && IsTranslated(e, cols)
    ensures IdSafe(Tree(e, cols), cols.fields)
  {
    var vs := ListValues(e.args);
    var ls := LiteralsOf(vs);
    var field := FieldFor(e.args[0], cols).value;
    assert Tree(e, cols) == Condition(Membership(field, ls));
    var f := FieldNamed(cols.fields, field);
    if f.Some? && Lower(f.value.sfType) == "id" {
      forall l | l in ls ensures IdLiteral(l) { ListedLiteral(vs, l); }
    }
  }

  /** A malformed Id constant never reaches the server: the translation rejects it first. */
  lemma {:induction false} EmittedIdsAreValid(e: Expr, cols: Columns)
    requires IsTranslated(e, cols)
    ensures IdSafe(Tree(e, cols), cols.fields)
    decreases e
  {
    match e
    case Compare(_, _, _) => ComparedIdIsValid(e, cols);
    case InList(args) => ListedIdsAreValid(e, cols);
    case Conjunction(_, args) =>
      forall k | 0 <= k < |args| ensures IdSafe(Trees(args, cols)[k], cols.fields) {
        TreesAt(args, cols, k);
        EmittedIdsAreValid(args[k], cols);
      }
    case _ =>
  }

  /** The first field of that name, whatever its case, is an Id. */
  predicate IsIdField(fields: seq<Field>, name: string) {
    FieldNamed(fields, name).Some? && Lower(FieldNamed(fields, name).value.sfType) == "id"
  }

  /** A comparison is rejected exactly when it tests an Id field against a constant that is no Id. */
  lemma MalformedComparisonIff(e: Expr, cols: Columns)
    requires e.Compare?
    ensures var o := Orient(e.kind, e.left, e.right, cols);
            Malformed(e, cols) <==>
            && o.Oriented? && (o.op == Eq || o.op == Ne) && IsIdField(cols.fields, o.field)
            && !o.value.Null? && !ReadsAsId(ValueText(o.value))
  {
    var o := Orient(e.kind, e.left, e.right, cols);
    if o.Oriented? {
      assert o.value in [o.value];
      ValidIsRead(ValueText(o.value));
    }
  }

  // ----- What is translated, and how it is tagged ------------------------------

  /** A reference to a projected field that the server can filter on. */
  predicate FilterableColumn(e: Expr, cols: Columns) {
    && e.ColumnRef? && e.column < |cols.projection| && cols.projection[e.column] < |cols.fields|
    && cols.fields[cols.projection[e.column]].filterable
  }

  predicate SupportedConstant(e: Expr) {
    e.Constant? && !e.value.Unsupported?
  }

  /**
   The filters that reach the server: comparisons of a filterable column with a supported constant,
   BETWEEN with two such bounds that are not NULL, null tests, IN lists of up to 200 constants, the
   four text searches, and ANDs and ORs of these.
   */
  predicate Pushable(e: Expr, cols: Columns)
    decreases e
  {
    match e
    case Compare(Plain(_), l, r) =>
      (FilterableColumn(l, cols) && SupportedConstant(r)) || (FilterableColumn(r, cols) && SupportedConstant(l))
    case Between(x, lo, hi, _, _) =>
      && FilterableColumn(x, cols) && SupportedConstant(lo) && SupportedConstant(hi)
      && !lo.value.Null? && !hi.value.Null?
    case NullTest(_, args) => |args| == 1 && FilterableColumn(args[0], cols)
    case InList(args) =>
      && 2 <= |args| <= 201 && FilterableColumn(args[0], cols)
      && forall k | 1 <= k < |args| :: SupportedConstant(args[k])
    case Call(name, args) =>
      && (name == "prefix" || name == "suffix" || name == "contains" || name == "~~")
      && |args| == 2 && FilterableColumn(args[0], cols) && args[1].Constant? && args[1].value.Varchar?
    case Conjunction(_, args) => forall i | 0 <= i < |args| :: Pushable(args[i], cols)
    case _ => false
  }

  /** The filters whose translation selects no row too many: no IN, no text search, no OR anywhere. */
  predicate SelectsExactly(e: Expr)
    decreases e
  {
    match e
    case Compare(_, _, _) => true
    case Between(_, _, _, _, _) => true
    case NullTest(_, _) => true
    case Conjunction(And, args) => forall i | 0 <= i < |args| :: SelectsExactly(args[i])
    case _ => false
  }

  lemma ColumnHasField(e: Expr, cols: Columns)
    ensures FieldFor(e, cols).Some? <==> FilterableColumn(e, cols)
    ensures FilterableColumn(e, cols) ==> FieldFor(e, cols) == Some(cols.fields[cols.projection[e.column]].name)
  {
  }

  /**
   Unless an Id constant is malformed, a filter is translated if and only if it is pushable, and
   tagged exact if and only if it also selects exactly.
   */
  lemma {:induction false} TranslatedIff(e: Expr, cols: Columns)
    requires !Malformed(e, cols)
    ensures IsTranslated(e, cols) <==> Pushable(e, cols)
    ensures IsExact(e, cols) <==> Pushable(e, cols) && SelectsExactly(e)
    decreases e
  {
    match e
    case Compare(_, l, r) =>
      ColumnHasField(l, cols);
      ColumnHasField(r, cols);
    case Between(x, _, _, _, _) => ColumnHasField(x, cols);
    case NullTest(_, args) => if |args| == 1 { ColumnHasField(args[0], cols); }
    case InList(args) => ListTranslatedIff(args, cols);
    case Call(_, args) => if |args| == 2 { ColumnHasField(args[0], cols); }
    case Conjunction(_, args) => MembersTranslatedIff(args, cols);
    case _ =>
  }

  lemma ListTranslatedIff(args: seq<Expr>, cols: Columns)
    requires !Malformed(InList(args), cols)
    ensures IsTranslated(InList(args), cols) <==> Pushable(InList(args), cols)
    ensures !IsExact(InList(args), cols)
  {
    if |args| >= 2 { ColumnHasField(args[0], cols); }
  }

  lemma {:induction false} MembersTranslatedIff(args: seq<Expr>, cols: Columns)
    requires !(TranslateMembers(args, cols).Stop? && TranslateMembers(args, cols).why.InvalidId?)
    ensures TranslateMembers(args, cols).All? <==> forall i | 0 <= i < |args| :: Pushable(args[i], cols)
    ensures TranslateMembers(args, cols).All? ==>
              (TranslateMembers(args, cols).exact <==> forall i | 0 <= i < |args| :: SelectsExactly(args[i]))
    decreases args
  {
    if |args| > 0 {
      var rest := args[1..];
      TranslatedIff(args[0], cols);
      assert forall i | 1 <= i < |args| :: args[i] == rest[i - 1];
      if IsTranslated(args[0], cols) {
        MembersTranslatedIff(rest, cols);
        assert (forall i | 0 <= i < |args| :: Pushable(args[i], cols)) <==>
               Pushable(args[0], cols) && forall i | 0 <= i < |rest| :: Pushable(rest[i], cols);
        assert (forall i | 0 <= i < |args| :: SelectsExactly(args[i])) <==>
               SelectsExactly(args[0]) && forall i | 0 <= i < |rest| :: SelectsExactly(rest[i]);
      }
    }
  }

  /** No WHERE of one call is longer than 4000 characters. */
  lemma PushedWithinLimit(filters: seq<Expr>, cols: Columns)
    requires Push(filters, cols).Pushed?
    ensures |Push(filters, cols).where| <= 4000
    ensures |Join(" AND ", Clauses(filters, cols))| <= 4000 ==>
              Push(filters, cols).where == Join(" AND ", Clauses(filters, cols))
    ensures |Join(" AND ", Clauses(filters, cols))| > 4000 ==> Push(filters, cols).remaining == filters
  {
  }

  /** An IN list is rejected exactly when it tests an Id field and some constant in it is no Id. */
  lemma MalformedListIff(args: seq<Expr>, cols: Columns)
    requires 2 <= |args| <= 201 && FilterableColumn(args[0], cols)
    requires forall k | 1 <= k < |args| :: SupportedConstant(args[k])
    ensures Malformed(InList(args), cols) <==>
            && IsIdField(cols.fields, cols.fields[cols.projection[args[0].column]].name)
            && exists k | 1 <= k < |args| ::
                 args[k].Constant? && !args[k].value.Null? && !ReadsAsId(ValueText(args[k].value))
  {
    ColumnHasField(args[0], cols);
    var vs := ListValues(args);
    forall k | 1 <= k < |args| ensures args[k].value in vs {
      assert vs[k - 1] == args[k].value;
    }
    forall v | v in vs ensures exists k | 1 <= k < |args| :: args[k].value == v {
      var j :| 0 <= j < |vs| && vs[j] == v;
      assert args[j + 1].value == v;
    }
    forall v | v in vs { ValidIsRead(ValueText(v)); }
  }
}
