/**
 What filters mean to DuckDB (three-valued) and what the emitted text means to the
 server, and why splitting a filter list between the two changes no answer.

 The two engines are opaque except for the named assumptions in `Faithful`.
 */
module SoqlMeaning {
  import opened Text
  import opened Describe
  import opened SoqlSyntax
  import opened SoqlPushdown
  import LikePatterns

  datatype Row = Row(cells: map<string, Value>)

  function Cell(row: Row, field: string): Value {
    if field in row.cells then row.cells[field] else Null
  }

  datatype Tri = True | False | Unknown

  /** DuckDB: its order on values, and its answers for expressions not modelled here. */
  datatype Engine = Engine(
    order: (Value, Value) -> int,
    value: (Expr, Row) -> Value,
    truth: (Expr, Row) -> Tri)

  /** Salesforce: how it decides each kind of condition on a field's value. */
  datatype Server = Server(
    compare: (string, CompareOp, Value, Literal) -> bool,
    member: (string, Value, seq<Literal>) -> bool,
    like: (string, Value, string) -> bool)

  // ----- DuckDB -------------------------------------------------------------

  predicate Holds(op: CompareOp, order: int) {
    match op
    case Eq => order == 0
    case Ne => order != 0
    case Lt => order < 0
    case Gt => order > 0
    case Le => order <= 0
    case Ge => order >= 0
  }

  function ToTri(b: bool): Tri { if b then True else False }

  function AndTri(a: Tri, b: Tri): Tri {
    if a == False || b == False then False
    else if a == Unknown || b == Unknown then Unknown
    else True
  }

  function OrTri(a: Tri, b: Tri): Tri {
    if a == True || b == True then True
    else if a == Unknown || b == Unknown then Unknown
    else False
  }

  function CompareTri(eng: Engine, op: CompareOp, a: Value, b: Value): Tri {
    if a.Null? || b.Null? then Unknown else ToTri(Holds(op, eng.order(a, b)))
  }

  /** The value lies above the bound, or on it where the bound is included. */
  function AboveTri(eng: Engine, v: Value, bound: Value, inclusive: bool): Tri {
    if v.Null? || bound.Null? then Unknown
    else ToTri(eng.order(v, bound) > 0 || (inclusive && eng.order(v, bound) == 0))
  }

  /** The value lies below the bound, or on it where the bound is included. */
  function BelowTri(eng: Engine, v: Value, bound: Value, inclusive: bool): Tri {
    if v.Null? || bound.Null? then Unknown
    else ToTri(eng.order(v, bound) < 0 || (inclusive && eng.order(v, bound) == 0))
  }

  function ValueOf(eng: Engine, cols: Columns, e: Expr, row: Row): Value {
    match e
    case Constant(v) => v
    case ColumnRef(c) =>
      if c < |cols.projection| && cols.projection[c] < |cols.fields|
      then Cell(row, cols.fields[cols.projection[c]].name)
      else eng.value(e, row)
    case _ => eng.value(e, row)
  }

  /** DuckDB's text searches, by the names its binder gives them. */
  predicate IsSearchName(name: string) {
    name == "prefix" || name == "suffix" || name == "contains" || name == "~~"
  }

  ghost predicate Found(name: string, s: string, sub: string)
    requires IsSearchName(name)
  {
    if name == "prefix" then exists after :: s == sub + after
    else if name == "suffix" then exists before :: s == before + sub
    else if name == "contains" then exists before, after :: s == before + (sub + after)
    else LikePatterns.Matches(s, sub, false)
  }

  ghost function SearchTri(eng: Engine, e: Expr, row: Row, name: string, s: Value, sub: Value): Tri
    requires IsSearchName(name)
  {
    if s.Null? || sub.Null? then Unknown
    else if s.Varchar? && sub.Varchar? then ToTri(Found(name, s.text, sub.text))
    else eng.truth(e, row)
  }

  ghost function Truth(eng: Engine, cols: Columns, e: Expr, row: Row): Tri
    decreases e
  {
    match e
    case Compare(Plain(op), l, r) => CompareTri(eng, op, ValueOf(eng, cols, l, row), ValueOf(eng, cols, r, row))
    case Between(input, lo, hi, loInc, hiInc) =>
      var v := ValueOf(eng, cols, input, row);
      AndTri(AboveTri(eng, v, ValueOf(eng, cols, lo, row), loInc), BelowTri(eng, v, ValueOf(eng, cols, hi, row), hiInc))
    case NullTest(wantNull, args) =>
      if |args| != 1 then eng.truth(e, row) else ToTri(ValueOf(eng, cols, args[0], row).Null? == wantNull)
    case InList(args) =>
      if |args| < 2 then eng.truth(e, row) else InTri(eng, cols, ValueOf(eng, cols, args[0], row), args[1..], row)
    case Call(name, args) =>
      if |args| != 2 || !IsSearchName(name) then eng.truth(e, row)
      else SearchTri(eng, e, row, name, ValueOf(eng, cols, args[0], row), ValueOf(eng, cols, args[1], row))
    case Conjunction(c, args) => Fold(eng, cols, c, args, row)
    case _ => eng.truth(e, row)
  }

  ghost function InTri(eng: Engine, cols: Columns, v: Value, items: seq<Expr>, row: Row): Tri {
    if |items| == 0 then False
    else OrTri(CompareTri(eng, Eq, v, ValueOf(eng, cols, items[0], row)), InTri(eng, cols, v, items[1..], row))
  }

  ghost function Fold(eng: Engine, cols: Columns, c: Connective, args: seq<Expr>, row: Row): Tri
    decreases args
  {
    if |args| == 0 then (if c == And then True else False)
    else if c == And then AndTri(Truth(eng, cols, args[0], row), Fold(eng, cols, c, args[1..], row))
    else OrTri(Truth(eng, cols, args[0], row), Fold(eng, cols, c, args[1..], row))
  }

  /** A filter operator keeps a row only when every filter is TRUE on it. */
  ghost predicate AllTrue(eng: Engine, cols: Columns, filters: seq<Expr>, row: Row) {
    forall i | 0 <= i < |filters| :: Truth(eng, cols, filters[i], row) == True
  }

  // ----- Salesforce ---------------------------------------------------------

  predicate AcceptsAtom(srv: Server, a: Atom, row: Row) {
    match a
    case Comparison(f, op, l) => srv.compare(f, op, Cell(row, f), l)
    case Membership(f, ls) => srv.member(f, Cell(row, f), ls)
    case LikeTest(f, p) => srv.like(f, Cell(row, f), p)
  }

  predicate Accepts(srv: Server, p: Predicate, row: Row)
    decreases p
  {
    match p
    case Condition(a) => AcceptsAtom(srv, a, row)
    case Group(And, items) => forall i | 0 <= i < |items| :: Accepts(srv, items[i], row)
    case Group(Or, items) => exists i | 0 <= i < |items| :: Accepts(srv, items[i], row)
  }

  /** The server reads the WHERE text; no text means no WHERE clause. */
  predicate Returns(srv: Server, where: string, row: Row) {
    where == "" || (ReadWhere(where).Some? && Accepts(srv, ReadWhere(where).value, row))
  }

  /** The rows a WHERE selects, in order. */
  function Select(srv: Server, rows: seq<Row>, where: string): seq<Row> {
    if |rows| == 0 then []
    else (if Returns(srv, where, rows[0]) then [rows[0]] else []) + Select(srv, rows[1..], where)
  }

  // ----- Named assumptions --------------------------------------------------

  /** Swapping the operands of DuckDB's order swaps its sign. */
  ghost predicate OrderIsSymmetric(eng: Engine) {
    forall a, b :: eng.order(a, b) < 0 <==> eng.order(b, a) > 0
  }

  /**
   What a literal of the emitted text stands for: a quoted text for itself, a bare token for the
   boolean, number or date it spells, a timestamp with T between date and time and Z for UTC at
   its end, a time with Z at its end.
   */
  predicate Denotes(l: Literal, c: Value) {
    match c
    case Varchar(s) => l == StringLit(s)
    case Boolean(b) => l == BareLit(if b then "true" else "false")
    case Number(t) => l == BareLit(t)
    case Date(t) => l == BareLit(t)
    case Timestamp(t) => l.BareLit? && UtcTimestamp(t, l.token)
    case Time(t) => l.BareLit? && |l.token| == |t| + 1 && l.token[..|t|] == t && l.token[|t|] == 'Z'
    case _ => false
  }

  /** `token` is `t` with its first space turned into a T, and a Z behind it. */
  predicate UtcTimestamp(t: string, token: string) {
    && |token| == |t| + 1 && token[|t|] == 'Z'
    && forall i | 0 <= i < |t| :: token[i] == if t[i] == ' ' && ' ' !in t[..i] then 'T' else t[i]
  }

  /** A comparison with a literal that stands for a constant selects the rows DuckDB finds TRUE. */
  ghost predicate ComparisonsAgree(srv: Server, eng: Engine) {
    forall f, op, v: Value, c: Value, l | Denotes(l, c) ::
      srv.compare(f, op, v, l) <==> !v.Null? && Holds(op, eng.order(v, c))
  }

  /** `= null` and `!= null` are the null tests. */
  ghost predicate NullTestsAgree(srv: Server) {
    && (forall f, v: Value :: srv.compare(f, Eq, v, NullLit) <==> v.Null?)
    && (forall f, v: Value :: srv.compare(f, Ne, v, NullLit) <==> !v.Null?)
  }

  /** The server answers no row for an ordering comparison with null. */
  ghost predicate NullOrderingSelectsNothing(srv: Server) {
    forall f, op, v: Value | IsOrdering(op) :: !srv.compare(f, op, v, NullLit)
  }

  /** IN selects at least the rows whose value equals a constant that a listed literal stands for. */
  ghost predicate MembershipIsSuperset(srv: Server, eng: Engine) {
    forall f, v: Value, c: Value, ls: seq<Literal>, k |
      0 <= k < |ls| && Denotes(ls[k], c) && !v.Null? && eng.order(v, c) == 0 ::
      srv.member(f, v, ls)
  }

  /** LIKE selects at least what case-insensitive wildcard matching selects. */
  ghost predicate LikeIsSuperset(srv: Server) {
    forall f, s, p | LikePatterns.Matches(s, p, true) :: srv.like(f, Varchar(s), p)
  }

  ghost predicate Faithful(srv: Server, eng: Engine) {
    && OrderIsSymmetric(eng) && ComparisonsAgree(srv, eng) && NullTestsAgree(srv)
    && MembershipIsSuperset(srv, eng) && LikeIsSuperset(srv)
  }

  // ----- Well-formed inputs -------------------------------------------------

  predicate ValidColumns(cols: Columns) {
    forall f :: f in cols.fields && f.filterable ==> ValidName(f.name)
  }

  predicate ValidConstant(v: Value) {
    Supported(v) ==> ValidLiteral(LiteralOf(v))
  }

  /** Bare constants print as one token, and a conjunction has members. */
  predicate WellFormed(e: Expr)
    decreases e
  {
    match e
    case Constant(v) => ValidConstant(v)
    case Compare(_, l, r) => WellFormed(l) && WellFormed(r)
    case Between(x, lo, hi, _, _) => WellFormed(x) && WellFormed(lo) && WellFormed(hi)
    case InList(args) => forall i | 0 <= i < |args| :: WellFormed(args[i])
    case Conjunction(_, args) => |args| > 0 && forall i | 0 <= i < |args| :: WellFormed(args[i])
    case _ => true
  }

  predicate AllWellFormed(filters: seq<Expr>) {
    forall i | 0 <= i < |filters| :: WellFormed(filters[i])
  }

  predicate IsOrdering(op: CompareOp) {
    op != Eq && op != Ne
  }

  /**
   No comparison inside the filter is an equality test against a NULL constant. An ordering
   comparison with NULL is harmless where the server selects nothing for it.
   */
  ghost predicate NullSafe(srv: Server, e: Expr)
    decreases e
  {
    match e
    case Compare(kind, l, r) =>
      || (l != Constant(Null) && r != Constant(Null))
      || (kind.Plain? && IsOrdering(kind.op) && NullOrderingSelectsNothing(srv))
    case Conjunction(_, args) => forall i | 0 <= i < |args| :: NullSafe(srv, args[i])
    case _ => true
  }

  ghost predicate DroppedAreNullSafe(srv: Server, filters: seq<Expr>, cols: Columns) {
    forall i | 0 <= i < |filters| && IsExact(filters[i], cols) :: NullSafe(srv, filters[i])
  }

  // ----- The emitted tree is well formed -------------------------------------

  lemma FieldForValid(e: Expr, cols: Columns)
    requires ValidColumns(cols) && FieldFor(e, cols).Some?
    ensures ValidName(FieldFor(e, cols).value)
  {
    assert cols.fields[cols.projection[e.column]] in cols.fields;
  }

  lemma {:induction false} TreeIsValid(e: Expr, cols: Columns)
    requires ValidColumns(cols) && WellFormed(e) && IsTranslated(e, cols)
    ensures Valid(Tree(e, cols))
    decreases e
  {
    match e
    case Compare(kind, l, r) =>
      if FieldFor(l, cols).Some? { FieldForValid(l, cols); }
      if FieldFor(r, cols).Some? { FieldForValid(r, cols); }
    case Between(input, _, _, _, _) => FieldForValid(input, cols);
    case NullTest(_, args) => FieldForValid(args[0], cols);
    case InList(args) =>
      FieldForValid(args[0], cols);
      forall l | l in LiteralsOf(ListValues(args)) ensures ValidLiteral(l) {
        var k :| 0 <= k < |args| - 1 && LiteralsOf(ListValues(args))[k] == l;
        assert WellFormed(args[k + 1]);
      }
    case Call(_, args) => FieldForValid(args[0], cols);
    case Conjunction(_, args) =>
      forall k | 0 <= k < |args| ensures Valid(Trees(args, cols)[k]) {
        TreesAt(args, cols, k);
        TreeIsValid(args[k], cols);
      }
  }

  // ----- Emitted literals ------------------------------------------------------

  lemma {:induction false} SpaceToTIs(t: string)
    ensures forall i | 0 <= i < |t| :: SpaceToT(t)[i] == if t[i] == ' ' && ' ' !in t[..i] then 'T' else t[i]
  {
    if t != "" && t[0] != ' ' {
      SpaceToTIs(t[1..]);
      forall i | 1 <= i < |t| ensures SpaceToT(t)[i] == if t[i] == ' ' && ' ' !in t[..i] then 'T' else t[i] {
        assert t[..i] == [t[0]] + t[1..][..i - 1];
        assert SpaceToT(t)[i] == SpaceToT(t[1..])[i - 1];
      }
    } else if t != "" {
      forall i | 1 <= i < |t| ensures SpaceToT(t)[i] == if t[i] == ' ' && ' ' !in t[..i] then 'T' else t[i] {
        assert t[..i][0] == ' ';
      }
    }
  }

  /** Every emitted literal stands for the constant it was made from. */
  lemma LiteralDenotes(c: Value)
    requires Supported(c) && !c.Null?
    ensures Denotes(LiteralOf(c), c)
  {
    match c
    case Timestamp(t) =>
      SpaceToTIs(t);
      assert forall i | 0 <= i < |t| :: (SpaceToT(t) + "Z")[i] == SpaceToT(t)[i];
    case Time(t) => assert (t + "Z")[..|t|] == t;
    case _ =>
  }

  // ----- Superset: TRUE locally implies accepted remotely --------------------

  lemma {:induction false} FoldAnd(eng: Engine, cols: Columns, args: seq<Expr>, row: Row)
    ensures Fold(eng, cols, And, args, row) == True <==> AllTrue(eng, cols, args, row)
    decreases |args|
  {
    if |args| > 0 {
      FoldAnd(eng, cols, args[1..], row);
      assert AllTrue(eng, cols, args, row) <==>
             Truth(eng, cols, args[0], row) == True && AllTrue(eng, cols, args[1..], row) by {
        assert forall i | 1 <= i < |args| :: args[i] == args[1..][i - 1];
      }
    }
  }

  lemma {:induction false} FoldOr(eng: Engine, cols: Columns, args: seq<Expr>, row: Row)
    requires Fold(eng, cols, Or, args, row) == True
    ensures exists i | 0 <= i < |args| :: Truth(eng, cols, args[i], row) == True
    decreases |args|
  {
    if Truth(eng, cols, args[0], row) != True {
      FoldOr(eng, cols, args[1..], row);
      var i :| 0 <= i < |args| - 1 && Truth(eng, cols, args[1..][i], row) == True;
      assert args[1..][i] == args[i + 1];
    }
  }

  lemma {:induction false} InTrue(eng: Engine, cols: Columns, v: Value, items: seq<Expr>, row: Row)
    requires InTri(eng, cols, v, items, row) == True
    ensures exists i | 0 <= i < |items| :: CompareTri(eng, Eq, v, ValueOf(eng, cols, items[i], row)) == True
    decreases |items|
  {
    if CompareTri(eng, Eq, v, ValueOf(eng, cols, items[0], row)) != True {
      InTrue(eng, cols, v, items[1..], row);
      var i :| 0 <= i < |items| - 1 && CompareTri(eng, Eq, v, ValueOf(eng, cols, items[1..][i], row)) == True;
      assert items[1..][i] == items[i + 1];
    }
  }

  lemma FieldValue(eng: Engine, cols: Columns, e: Expr, row: Row)
    requires FieldFor(e, cols).Some?
    ensures ValueOf(eng, cols, e, row) == Cell(row, FieldFor(e, cols).value)
  {
  }

  /** Reading a comparison from its other side keeps its truth. */
  lemma FlipKeepsTruth(eng: Engine, op: CompareOp, a: Value, b: Value)
    requires OrderIsSymmetric(eng)
    ensures CompareTri(eng, op, a, b) == CompareTri(eng, Flip(op), b, a)
  {
    assert eng.order(a, b) < 0 <==> eng.order(b, a) > 0;
    assert eng.order(b, a) < 0 <==> eng.order(a, b) > 0;
  }

  /** A comparison, oriented, and a non-NULL constant: both engines agree. */
  lemma ComparisonAgrees(srv: Server, eng: Engine, cols: Columns, e: Expr, row: Row)
    requires Faithful(srv, eng)
    requires e.Compare? && IsTranslated(e, cols)
    requires !Orient(e.kind, e.left, e.right, cols).value.Null?
    ensures Accepts(srv, Tree(e, cols), row) <==> Truth(eng, cols, e, row) == True
  {
    var o := Orient(e.kind, e.left, e.right, cols);
    LiteralDenotes(o.value);
    if FieldFor(e.left, cols).Some? && e.right.Constant? {
      FieldValue(eng, cols, e.left, row);
    } else {
      FieldValue(eng, cols, e.right, row);
      FlipKeepsTruth(eng, e.kind.op, o.value, Cell(row, o.field));
    }
    assert Truth(eng, cols, e, row) == CompareTri(eng, o.op, Cell(row, o.field), o.value);
  }

  lemma NullComparisonNeverTrue(eng: Engine, cols: Columns, e: Expr, row: Row)
    requires e.Compare? && Orient(e.kind, e.left, e.right, cols).Oriented?
    requires Orient(e.kind, e.left, e.right, cols).value.Null?
    ensures Truth(eng, cols, e, row) != True
  {
  }

  /**
   BETWEEN: accepted exactly where it is TRUE, that is where the cell is not NULL, lies above the
   lower bound or on it when inclusive, and below the upper bound or on it when inclusive.
   */
  lemma BetweenAgrees(srv: Server, eng: Engine, cols: Columns, e: Expr, row: Row)
    requires Faithful(srv, eng)
    requires e.Between? && IsTranslated(e, cols)
    ensures Accepts(srv, Tree(e, cols), row) <==> Truth(eng, cols, e, row) == True
    ensures var v := Cell(row, FieldFor(e.input, cols).value);
            var low, high := eng.order(v, e.lower.value), eng.order(v, e.upper.value);
            Accepts(srv, Tree(e, cols), row) <==>
            && !v.Null?
            && (low > 0 || (low == 0 && e.lowerInclusive))
            && (high < 0 || (high == 0 && e.upperInclusive))
  {
    var f := FieldFor(e.input, cols).value;
    var v := Cell(row, f);
    FieldValue(eng, cols, e.input, row);
    BoundsAgree(srv, eng, f, v, e.lower.value, e.lowerInclusive);
    BoundsAgree(srv, eng, f, v, e.upper.value, e.upperInclusive);
    var items := Tree(e, cols).items;
    assert items == [Condition(Comparison(f, LowerOp(e.lowerInclusive), LiteralOf(e.lower.value))),
                     Condition(Comparison(f, UpperOp(e.upperInclusive), LiteralOf(e.upper.value)))];
    assert Accepts(srv, Tree(e, cols), row) <==> Accepts(srv, items[0], row) && Accepts(srv, items[1], row);
  }

  /** A bound as the server compares with it and as BETWEEN means it. */
  lemma BoundsAgree(srv: Server, eng: Engine, f: string, v: Value, bound: Value, inclusive: bool)
    requires Faithful(srv, eng) && Supported(bound) && !bound.Null?
    ensures var order := eng.order(v, bound);
            && (srv.compare(f, LowerOp(inclusive), v, LiteralOf(bound)) <==>
                  !v.Null? && (order > 0 || (order == 0 && inclusive)))
            && (srv.compare(f, UpperOp(inclusive), v, LiteralOf(bound)) <==>
                  !v.Null? && (order < 0 || (order == 0 && inclusive)))
  {
    LiteralDenotes(bound);
  }

  lemma InIsSuperset(srv: Server, eng: Engine, cols: Columns, e: Expr, row: Row)
    requires Faithful(srv, eng)
    requires e.InList? && IsTranslated(e, cols)
    requires Truth(eng, cols, e, row) == True
    ensures Accepts(srv, Tree(e, cols), row)
  {
    var vs := ListValues(e.args);
    FieldValue(eng, cols, e.args[0], row);
    var v := Cell(row, FieldFor(e.args[0], cols).value);
    InTrue(eng, cols, v, e.args[1..], row);
    var i :| 0 <= i < |e.args| - 1 && CompareTri(eng, Eq, v, ValueOf(eng, cols, e.args[1..][i], row)) == True;
    assert e.args[1..][i] == e.args[i + 1];
    LiteralDenotes(vs[i]);
    assert LiteralsOf(vs)[i] == LiteralOf(vs[i]) && eng.order(v, vs[i]) == 0;
  }

  /** The translator knows the four searches by the names DuckDB has for them. */
  lemma FoundIsFinds(name: string, s: string, sub: string)
    ensures SearchNamed(name).Some? <==> IsSearchName(name)
    ensures IsSearchName(name) ==> (Found(name, s, sub) <==> LikePatterns.Finds(SearchNamed(name).value, s, sub))
  {
  }

  lemma SearchIsSuperset(srv: Server, eng: Engine, cols: Columns, e: Expr, row: Row)
    requires Faithful(srv, eng)
    requires e.Call? && IsTranslated(e, cols)
    requires Cell(row, FieldFor(e.args[0], cols).value).Varchar? || Cell(row, FieldFor(e.args[0], cols).value).Null?
    requires Truth(eng, cols, e, row) == True
    ensures Accepts(srv, Tree(e, cols), row)
  {
    FieldValue(eng, cols, e.args[0], row);
    var s := Cell(row, FieldFor(e.args[0], cols).value);
    FoundIsFinds(e.name, s.text, e.args[1].value.text);
    LikePatterns.PatternIsSuperset(SearchNamed(e.name).value, s.text, e.args[1].value.text);
  }

  /** String searches are bound only over text columns. */
  ghost predicate SearchedAreText(e: Expr, cols: Columns, row: Row)
    decreases e
  {
    match e
    case Call(_, args) =>
      |args| > 0 && FieldFor(args[0], cols).Some? ==>
        var v := Cell(row, FieldFor(args[0], cols).value); v.Varchar? || v.Null?
    case Conjunction(_, args) => forall i | 0 <= i < |args| :: SearchedAreText(args[i], cols, row)
    case _ => true
  }

  ghost predicate TypedRow(filters: seq<Expr>, cols: Columns, row: Row) {
    forall i | 0 <= i < |filters| :: SearchedAreText(filters[i], cols, row)
  }

  /** Whatever is translated is accepted by the server on every row where it is TRUE. */
  lemma {:induction false} TranslationIsSuperset(srv: Server, eng: Engine, cols: Columns, e: Expr, row: Row)
    requires Faithful(srv, eng) && SearchedAreText(e, cols, row)
    requires IsTranslated(e, cols)
    requires Truth(eng, cols, e, row) == True
    ensures Accepts(srv, Tree(e, cols), row)
    decreases e
  {
    match e
    case Compare(kind, l, r) =>
      if Orient(kind, l, r, cols).value.Null? {
        NullComparisonNeverTrue(eng, cols, e, row);
      } else {
        ComparisonAgrees(srv, eng, cols, e, row);
      }
    case Between(_, _, _, _, _) => BetweenAgrees(srv, eng, cols, e, row);
    case NullTest(_, args) => FieldValue(eng, cols, args[0], row);
    case InList(_) => InIsSuperset(srv, eng, cols, e, row);
    case Call(_, _) => SearchIsSuperset(srv, eng, cols, e, row);
    case Conjunction(c, args) =>
      if c == Or && |args| != 1 {
        FoldOr(eng, cols, args, row);
        var i :| 0 <= i < |args| && Truth(eng, cols, args[i], row) == True;
        TreesAt(args, cols, i);
        TranslationIsSuperset(srv, eng, cols, args[i], row);
        assert Accepts(srv, Trees(args, cols)[i], row);
      } else {
        if c == Or { FoldOr(eng, cols, args, row); } else { FoldAnd(eng, cols, args, row); }
        forall i | 0 <= i < |args| ensures Accepts(srv, Trees(args, cols)[i], row) {
          TreesAt(args, cols, i);
          TranslationIsSuperset(srv, eng, cols, args[i], row);
        }
      }
  }

  lemma ComparisonIsSound(srv: Server, eng: Engine, cols: Columns, e: Expr, row: Row)
    requires Faithful(srv, eng) && NullSafe(srv, e)
    requires e.Compare? && IsTranslated(e, cols) && Accepts(srv, Tree(e, cols), row)
    ensures Truth(eng, cols, e, row) == True
  {
    var o := Orient(e.kind, e.left, e.right, cols);
    if o.value.Null? {
      assert false;
    }
    ComparisonAgrees(srv, eng, cols, e, row);
  }

  /** An exact translation without equality tests against NULL is accepted only where it is TRUE. */
  lemma {:induction false} ExactIsSound(srv: Server, eng: Engine, cols: Columns, e: Expr, row: Row)
    requires Faithful(srv, eng)
    requires IsExact(e, cols) && NullSafe(srv, e)
    requires Accepts(srv, Tree(e, cols), row)
    ensures Truth(eng, cols, e, row) == True
    decreases e
  {
    match e
    case Compare(_, _, _) => ComparisonIsSound(srv, eng, cols, e, row);
    case Between(_, _, _, _, _) => BetweenAgrees(srv, eng, cols, e, row);
    case NullTest(_, args) => FieldValue(eng, cols, args[0], row);
    case Conjunction(_, args) =>
      forall i | 0 <= i < |args| ensures Truth(eng, cols, args[i], row) == True {
        TreesAt(args, cols, i);
        ExactIsSound(srv, eng, cols, args[i], row);
      }
      FoldAnd(eng, cols, args, row);
  }

  // ----- The whole list ------------------------------------------------------

  /** The trees of the emitted clauses, in order. */
  function ClauseTrees(filters: seq<Expr>, cols: Columns): seq<Predicate> {
    if |filters| == 0 then []
    else
      (if IsTranslated(filters[0], cols) then [Tree(filters[0], cols)] else []) +
      ClauseTrees(filters[1..], cols)
  }

  lemma {:induction false} ClausesArePrinted(filters: seq<Expr>, cols: Columns)
    ensures |Clauses(filters, cols)| == |ClauseTrees(filters, cols)|
    ensures Join(Separator(And), Clauses(filters, cols)) == PrintItems(And, ClauseTrees(filters, cols))
  {
    if |filters| > 0 {
      ClausesArePrinted(filters[1..], cols);
      var cs, ts := Clauses(filters[1..], cols), ClauseTrees(filters[1..], cols);
      if IsTranslated(filters[0], cols) {
        TextIsTree(filters[0], cols);
        assert ([Translate(filters[0], cols).text] + cs)[1..] == cs;
        assert ([Tree(filters[0], cols)] + ts)[1..] == ts;
        Assoc(Translate(filters[0], cols).text, Separator(And), Join(Separator(And), cs));
      } else {
        assert [] + cs == cs && [] + ts == ts;
      }
    }
  }

  lemma {:induction false} ClauseTreesValid(filters: seq<Expr>, cols: Columns)
    requires ValidColumns(cols) && AllWellFormed(filters)
    ensures forall p :: p in ClauseTrees(filters, cols) ==> Valid(p)
  {
    if |filters| > 0 {
      ClauseTreesValid(filters[1..], cols);
      if IsTranslated(filters[0], cols) { TreeIsValid(filters[0], cols); }
    }
  }

  ghost predicate AllAccepted(srv: Server, ps: seq<Predicate>, row: Row) {
    forall i | 0 <= i < |ps| :: Accepts(srv, ps[i], row)
  }

  lemma PrintedIsNonEmpty(items: seq<Predicate>)
    requires |items| > 0 && Valid(items[0])
    ensures PrintItems(And, items) != ""
  {
    assert Print(items[0]) != "";
  }

  /** The server, reading the emitted text, applies exactly the translated predicates. */
  lemma WhereMeansClauses(srv: Server, filters: seq<Expr>, cols: Columns, row: Row)
    requires ValidColumns(cols) && AllWellFormed(filters)
    ensures Returns(srv, Join(Separator(And), Clauses(filters, cols)), row) <==>
            AllAccepted(srv, ClauseTrees(filters, cols), row)
  {
    var ts := ClauseTrees(filters, cols);
    ClausesArePrinted(filters, cols);
    ClauseTreesValid(filters, cols);
    if |ts| > 0 {
      PrintedIsNonEmpty(ts);
      WhereRoundTrip(And, ts);
    }
  }

  lemma {:induction false} SplitKeepsTruth(srv: Server, eng: Engine, filters: seq<Expr>, cols: Columns, row: Row)
    requires Faithful(srv, eng) && TypedRow(filters, cols, row) && DroppedAreNullSafe(srv, filters, cols)
    ensures AllAccepted(srv, ClauseTrees(filters, cols), row) && AllTrue(eng, cols, Remaining(filters, cols), row) <==>
            AllTrue(eng, cols, filters, row)
  {
    if |filters| > 0 {
      var e, rest := filters[0], filters[1..];
      assert filters == [e] + rest;
      SplitKeepsTruth(srv, eng, rest, cols, row);
      AllTrueCons(eng, cols, e, rest, row);
      AllTrueCons(eng, cols, e, Remaining(rest, cols), row);
      if IsTranslated(e, cols) {
        AllAcceptedCons(srv, Tree(e, cols), ClauseTrees(rest, cols), row);
        if Truth(eng, cols, e, row) == True { TranslationIsSuperset(srv, eng, cols, e, row); }
        if IsExact(e, cols) && Accepts(srv, Tree(e, cols), row) { ExactIsSound(srv, eng, cols, e, row); }
      } else {
        assert ClauseTrees(filters, cols) == ClauseTrees(rest, cols);
      }
      if IsExact(e, cols) {
        assert Remaining(filters, cols) == Remaining(rest, cols);
      }
    }
  }

  lemma AllTrueCons(eng: Engine, cols: Columns, e: Expr, rest: seq<Expr>, row: Row)
    ensures AllTrue(eng, cols, [e] + rest, row) <==> Truth(eng, cols, e, row) == True && AllTrue(eng, cols, rest, row)
  {
    var all := [e] + rest;
    assert all[0] == e && forall i | 0 <= i < |rest| :: rest[i] == all[i + 1];
  }

  lemma AllAcceptedCons(srv: Server, p: Predicate, rest: seq<Predicate>, row: Row)
    ensures AllAccepted(srv, [p] + rest, row) <==> Accepts(srv, p, row) && AllAccepted(srv, rest, row)
  {
    var all := [p] + rest;
    assert all[0] == p && forall i | 0 <= i < |rest| :: rest[i] == all[i + 1];
  }

  /**
   Pushdown soundness, end to end through the text: on every row, the server's reading
   of the emitted WHERE together with the filters left to DuckDB keeps the row exactly
   when every original filter is TRUE on it, the over-long guard included.
   */
  lemma PushdownSound(srv: Server, eng: Engine, filters: seq<Expr>, cols: Columns, row: Row)
    requires Faithful(srv, eng) && ValidColumns(cols) && AllWellFormed(filters)
    requires TypedRow(filters, cols, row) && DroppedAreNullSafe(srv, filters, cols)
    requires Push(filters, cols).Pushed?
    ensures var r := Push(filters, cols);
            Returns(srv, r.where, row) && AllTrue(eng, cols, r.remaining, row) <==> AllTrue(eng, cols, filters, row)
  {
    WhereMeansClauses(srv, filters, cols, row);
    SplitKeepsTruth(srv, eng, filters, cols, row);
  }

  // ----- NULL constants: where the exact tag is wrong ------------------------

  /** Pushing one comparison is sound on every row. */
  ghost predicate SoundOnEveryRow(srv: Server, eng: Engine, e: Expr, cols: Columns) {
    var r := Push([e], cols);
    r.Pushed? && forall row ::
      (Returns(srv, r.where, row) && AllTrue(eng, cols, r.remaining, row) <==> AllTrue(eng, cols, [e], row))
  }

  lemma PushOne(e: Expr, cols: Columns)
    requires IsExact(e, cols) && |Translate(e, cols).text| <= MAX_WHERE_CHARS
    ensures Push([e], cols).Pushed?
    ensures Push([e], cols).remaining == [] && Push([e], cols).where == Translate(e, cols).text
    ensures ClauseTrees([e], cols) == [Tree(e, cols)]
  {
    assert [e][1..] == [];
    assert Clauses([e], cols) == OwnClause(e, cols) + [];
    assert Remaining([e], cols) == OwnRemainder(e, cols) + [];
  }

  /** What the server and the residual filters make of one exactly translated filter. */
  lemma PushOneMeaning(srv: Server, eng: Engine, e: Expr, cols: Columns, row: Row)
    requires ValidColumns(cols) && WellFormed(e)
    requires IsExact(e, cols) && |Translate(e, cols).text| <= MAX_WHERE_CHARS
    ensures Push([e], cols).Pushed? && Push([e], cols).remaining == []
    ensures Returns(srv, Push([e], cols).where, row) <==> Accepts(srv, Tree(e, cols), row)
    ensures AllTrue(eng, cols, [e], row) <==> Truth(eng, cols, e, row) == True
  {
    PushOne(e, cols);
    WhereMeansClauses(srv, [e], cols, row);
    assert Clauses([e], cols) == [Push([e], cols).where] by { assert [e][1..] == []; }
    AllAcceptedCons(srv, Tree(e, cols), [], row);
    assert [Tree(e, cols)] + [] == [Tree(e, cols)];
    AllTrueCons(eng, cols, e, [], row);
    assert [e] + [] == [e];
  }

  /**
   A pushed comparison changes no answer if and only if its constant is not NULL, or
   its operator is an ordering one: `= NULL` and `<> NULL` are never TRUE for DuckDB but
   reach the server as null tests and are dropped from the residual filters.
   */
  lemma ComparisonPushedSoundIff(srv: Server, eng: Engine, e: Expr, cols: Columns)
    requires Faithful(srv, eng) && NullOrderingSelectsNothing(srv) && ValidColumns(cols) && WellFormed(e)
    requires e.Compare? && IsTranslated(e, cols) && |Translate(e, cols).text| <= MAX_WHERE_CHARS
    ensures var o := Orient(e.kind, e.left, e.right, cols);
            SoundOnEveryRow(srv, eng, e, cols) <==> !o.value.Null? || IsOrdering(o.op)
  {
    var o := Orient(e.kind, e.left, e.right, cols);
    forall row { PushOneMeaning(srv, eng, e, cols, row); }
    if !o.value.Null? {
      forall row ensures Accepts(srv, Tree(e, cols), row) <==> Truth(eng, cols, e, row) == True {
        ComparisonAgrees(srv, eng, cols, e, row);
      }
    } else {
      var row := Row(map[o.field := if o.op == Eq then Null else Varchar("")]);
      NullComparisonNeverTrue(eng, cols, e, row);
      if o.op == Eq || o.op == Ne {
        assert Accepts(srv, Tree(e, cols), row);
        assert !SoundOnEveryRow(srv, eng, e, cols);
      } else {
        forall row ensures !Accepts(srv, Tree(e, cols), row) && Truth(eng, cols, e, row) != True {
          NullComparisonNeverTrue(eng, cols, e, row);
        }
      }
    }
  }

  lemma NullEqualityTranslates(e: Expr, cols: Columns)
    requires e == Compare(Plain(Eq), ColumnRef(0), Constant(Null)) && FieldFor(ColumnRef(0), cols) == Some("Name")
    ensures Translate(e, cols) == Translated("Name = null", true)
  {
    assert PrintAtom(Comparison("Name", Eq, NullLit)) == "Name = null";
    assert IdLiteralsValid(cols.fields, "Name", [Null]);
  }

  /** `Name = NULL` over a row without a name: DuckDB keeps no such row, the pushed query returns it. */
  lemma NullEqualityExample(srv: Server, eng: Engine) returns (e: Expr, cols: Columns, row: Row)
    requires NullTestsAgree(srv)
    ensures e == Compare(Plain(Eq), ColumnRef(0), Constant(Null)) && Cell(row, "Name") == Null
    ensures Push([e], cols).Pushed?
    ensures Push([e], cols).where == "Name = null" && Push([e], cols).remaining == []
    ensures Returns(srv, Push([e], cols).where, row) && !AllTrue(eng, cols, [e], row)
  {
    var name := Field("Name", "string", VarcharType, true, true, "", [], false, []);
    cols, row := Columns([name], [0]), Row(map[]);
    e := Compare(Plain(Eq), ColumnRef(0), Constant(Null));
    NullEqualityTranslates(e, cols);
    PushOne(e, cols);
    PushOneMeaning(srv, eng, e, cols, row);
    assert Tree(e, cols) == Condition(Comparison("Name", Eq, NullLit));
  }
}
