/**
 The aggregate pass over a bound plan: an ungrouped COUNT/MIN/MAX aggregate directly
 over a Salesforce scan becomes a projection over a scan that asks the server for the
 one aggregate row. The pass keeps every plan's rows and column bindings, and running
 it twice changes nothing more.
 */
module AggregatePushdown {
  import opened Text
  import opened Describe
  import opened SoqlPushdown
  import opened SoqlSyntax
  import opened SoqlMeaning
  import opened PushdownHook
  import opened UserPredicate

  // ----- Plans --------------------------------------------------------------

  datatype Binding = Binding(table: nat, column: nat)

  datatype PlanExpr = Ref(binding: Binding) | OtherExpr(tag: nat)

  /** One entry of the aggregate operator's expression list. */
  datatype Term = Term(
    isAggregate: bool,
    func: string,
    distinct: bool,
    filterOrOrder: bool,
    args: seq<PlanExpr>,
    display: string)

  datatype AggHead = AggHead(
    groupIndex: nat,
    aggregateIndex: nat,
    groups: seq<PlanExpr>,
    groupingSets: nat,
    groupingFunctions: nat,
    terms: seq<Term>)

  datatype ServerFunc = COUNT | COUNT_DISTINCT | MIN | MAX

  /** `alias` i stands for the result key "a<i>". */
  datatype PushedAggregate = PushedAggregate(
    func: ServerFunc, field: string, outName: string, alias: nat, emitType: DuckType, sfType: string)

  /** `bulk` is the transport a row scan of this binding ends up on. */
  datatype ScanBind = ScanBind(
    objectName: string,
    fields: seq<Field>,
    where: string,
    rawWhere: string,
    bulk: bool,
    residualCount: int,
    aggregates: seq<PushedAggregate>)

  datatype ScanGet = ScanGet(
    tableIndex: nat,
    functionName: string,
    bind: Option<ScanBind>,
    columnIds: seq<nat>,
    hasTableFilters: bool,
    types: seq<DuckType>,
    names: seq<string>)

  datatype Plan =
    | Get(get: ScanGet)
    | Aggregate(head: AggHead, children: seq<Plan>)
    | Projection(tableIndex: nat, refs: seq<Binding>, child: Plan)
    | Operator(tag: nat, children: seq<Plan>)

  // ----- Rows ---------------------------------------------------------------

  datatype Datum = Scalar(value: Value) | Big(count: nat)

  /** A tuple holds one list of column values per table index. */
  type Tuple = map<nat, seq<Datum>>
  type Relation = seq<Tuple>

  /** The server, the objects' rows, and DuckDB's operators that this pass does not touch. */
  datatype World = World(
    server: Server,
    rows: string -> seq<Row>,
    serverAggregate: (ServerFunc, string, seq<Datum>) -> Datum,
    least: seq<Datum> -> Datum,
    greatest: seq<Datum> -> Datum,
    expr: (nat, Tuple) -> Datum,
    term: (Term, Relation) -> Datum,
    otherGet: ScanGet -> Relation,
    otherAggregate: (AggHead, seq<Relation>) -> Relation,
    operator: (nat, seq<Relation>) -> Relation)

  predicate IsNull(d: Datum) { d == Scalar(Null) }

  function CountNonNull(vals: seq<Datum>): nat {
    if |vals| == 0 then 0 else (if IsNull(vals[0]) then 0 else 1) + CountNonNull(vals[1..])
  }

  function NonNull(vals: seq<Datum>): set<Datum> {
    set d | d in vals && !IsNull(d)
  }

  /** What the server's aggregates are over a column. */
  function LocalAggregate(w: World, f: ServerFunc, vals: seq<Datum>): Datum {
    match f
    case COUNT => Big(CountNonNull(vals))
    case COUNT_DISTINCT => Big(|NonNull(vals)|)
    case MIN => w.least(vals)
    case MAX => w.greatest(vals)
  }

  function Lookup(b: Binding, t: Tuple): Datum {
    if b.table in t && b.column < |t[b.table]| then t[b.table][b.column] else Scalar(Null)
  }

  function ExprValue(w: World, e: PlanExpr, t: Tuple): Datum {
    match e
    case Ref(b) => Lookup(b, t)
    case OtherExpr(tag) => w.expr(tag, t)
  }

  function ExprColumn(w: World, e: PlanExpr, rel: Relation): (vals: seq<Datum>)
    ensures |vals| == |rel| && forall k | 0 <= k < |rel| :: vals[k] == ExprValue(w, e, rel[k])
  {
    seq(|rel|, k requires 0 <= k < |rel| => ExprValue(w, e, rel[k]))
  }

  /** The function a term names, when it is a plain call of one this pass knows. */
  function TermFunc(t: Term): Option<ServerFunc> {
    var f := Lower(t.func);
    if !t.isAggregate || t.filterOrOrder then None
    else if f == "count" then Some(if t.distinct then COUNT_DISTINCT else COUNT)
    else if t.distinct then None
    else if f == "min" then Some(MIN)
    else if f == "max" then Some(MAX)
    else None
  }

  /** What DuckDB computes for a term: by its name, its DISTINCT and its argument alone. */
  function TermValue(w: World, t: Term, rel: Relation): Datum {
    var name := Lower(t.func);
    if !t.isAggregate || t.filterOrOrder || |t.args| > 1 then w.term(t, rel)
    else if |t.args| == 0 then
      if name == "count" && !t.distinct then Big(|rel|) else w.term(t, rel)
    else
      var vals := ExprColumn(w, t.args[0], rel);
      if name == "count" then Big(if t.distinct then |NonNull(vals)| else CountNonNull(vals))
      else if name == "max" && !t.distinct then w.greatest(vals)
      else if name == "min" && !t.distinct then w.least(vals)
      else w.term(t, rel)
  }

  function TermValues(w: World, ts: seq<Term>, rel: Relation): (vals: seq<Datum>)
    ensures |vals| == |ts| && forall i | 0 <= i < |ts| :: vals[i] == TermValue(w, ts[i], rel)
  {
    seq(|ts|, i requires 0 <= i < |ts| => TermValue(w, ts[i], rel))
  }

  /** Distinct values, in order of first appearance. */
  function Dedup(vals: seq<Datum>): seq<Datum> {
    if |vals| == 0 then []
    else
      var rest := Dedup(vals[..|vals| - 1]);
      if vals[|vals| - 1] in rest then rest else rest + [vals[|vals| - 1]]
  }

  function GroupTuples(groupIndex: nat, vals: seq<Datum>): (rel: Relation)
    ensures |rel| == |vals| && forall k | 0 <= k < |vals| :: rel[k] == map[groupIndex := [vals[k]]]
  {
    seq(|vals|, k requires 0 <= k < |vals| => map[groupIndex := [vals[k]]])
  }

  predicate Ungrouped(h: AggHead) {
    h.groups == [] && h.groupingSets == 0 && h.groupingFunctions == 0
  }

  predicate OneGroup(h: AggHead) {
    h.terms == [] && |h.groups| == 1 && h.groupingFunctions == 0 && h.groupingSets <= 1
  }

  function EvalAggregate(w: World, h: AggHead, rels: seq<Relation>): Relation {
    if |rels| == 1 && Ungrouped(h) then [map[h.aggregateIndex := TermValues(w, h.terms, rels[0])]]
    else if |rels| == 1 && OneGroup(h) then
      GroupTuples(h.groupIndex, Dedup(ExprColumn(w, h.groups[0], rels[0])))
    else w.otherAggregate(h, rels)
  }

  // ----- Scans --------------------------------------------------------------

  /** A REST row scan sends the user's own predicate too; the Bulk chunks are built without it. */
  function RowWhere(b: ScanBind): string {
    if b.bulk then b.where else CombinedWhere(b.where, b.rawWhere)
  }

  function ColumnDatum(b: ScanBind, id: nat, row: Row): Datum {
    if id < |b.fields| then Scalar(Cell(row, b.fields[id].name)) else Scalar(Null)
  }

  function ScanTuple(g: ScanGet, b: ScanBind, row: Row): Tuple {
    map[g.tableIndex := seq(|g.columnIds|, k requires 0 <= k < |g.columnIds| => ColumnDatum(b, g.columnIds[k], row))]
  }

  function ScanTuples(g: ScanGet, b: ScanBind, rows: seq<Row>): (rel: Relation)
    ensures |rel| == |rows| && forall k | 0 <= k < |rows| :: rel[k] == ScanTuple(g, b, rows[k])
  {
    seq(|rows|, k requires 0 <= k < |rows| => ScanTuple(g, b, rows[k]))
  }

  function FieldColumn(rows: seq<Row>, field: string): (vals: seq<Datum>)
    ensures |vals| == |rows| && forall k | 0 <= k < |rows| :: vals[k] == Scalar(Cell(rows[k], field))
  {
    seq(|rows|, k requires 0 <= k < |rows| => Scalar(Cell(rows[k], field)))
  }

  /** The one record of the server-side aggregate query, whose WHERE is the pushed one alone. */
  function AggregateRecord(w: World, b: ScanBind): (vals: seq<Datum>)
    ensures |vals| == |b.aggregates|
  {
    var rows := Select(w.server, w.rows(b.objectName), b.where);
    seq(|b.aggregates|, i requires 0 <= i < |b.aggregates| =>
      w.serverAggregate(b.aggregates[i].func, b.aggregates[i].field, FieldColumn(rows, b.aggregates[i].field)))
  }

  predicate IsSalesforceScan(g: ScanGet) {
    g.functionName == "salesforce_scan" && g.bind.Some?
  }

  function EvalGet(w: World, g: ScanGet): Relation {
    if !IsSalesforceScan(g) || g.hasTableFilters then w.otherGet(g)
    else
      var b := g.bind.value;
      if b.aggregates != [] then [map[g.tableIndex := AggregateRecord(w, b)]]
      else ScanTuples(g, b, Select(w.server, w.rows(b.objectName), RowWhere(b)))
  }

  function ProjectTuple(tableIndex: nat, refs: seq<Binding>, t: Tuple): Tuple {
    map[tableIndex := seq(|refs|, i requires 0 <= i < |refs| => Lookup(refs[i], t))]
  }

  function Project(tableIndex: nat, refs: seq<Binding>, rel: Relation): (r: Relation)
    ensures |r| == |rel| && forall k | 0 <= k < |rel| :: r[k] == ProjectTuple(tableIndex, refs, rel[k])
  {
    seq(|rel|, k requires 0 <= k < |rel| => ProjectTuple(tableIndex, refs, rel[k]))
  }

  function Eval(w: World, p: Plan): Relation
    decreases p
  {
    match p
    case Get(g) => EvalGet(w, g)
    case Projection(t, refs, child) => Project(t, refs, Eval(w, child))
    case Aggregate(h, children) => EvalAggregate(w, h, EvalAll(w, children))
    case Operator(tag, children) => w.operator(tag, EvalAll(w, children))
  }

  function EvalAll(w: World, ps: seq<Plan>): (rels: seq<Relation>)
    ensures |rels| == |ps|
    decreases ps
  {
    if |ps| == 0 then [] else [Eval(w, ps[0])] + EvalAll(w, ps[1..])
  }

  // ----- The pass -----------------------------------------------------------

  predicate PushableExtremeType(t: DuckType) {
    !t.VarcharType? && !t.BlobType? && !t.StructType?
  }

  /** Top-level, non-relationship, non-blob. */
  predicate PlainField(f: Field) {
    !f.isRelationship && f.children == [] && '.' !in f.name && Lower(f.sfType) != "base64"
  }

  predicate Aggregable(f: Field, func: ServerFunc) {
    PlainField(f) && (func == MIN || func == MAX ==> f.sortable && PushableExtremeType(f.duckType))
  }

  /** The scan may be rewritten at all. */
  predicate Eligible(g: ScanGet, enabled: bool) {
    && IsSalesforceScan(g)
    && g.bind.value.residualCount == 0 && g.bind.value.aggregates == []
    && !g.hasTableFilters && enabled
  }

  /** The field a column reference reaches through the scan's column ids. */
  function ReferencedField(e: PlanExpr, g: ScanGet): Option<Field>
    requires g.bind.Some?
  {
    if !e.Ref? || e.binding.table != g.tableIndex || e.binding.column >= |g.columnIds| then None
    else
      var i := g.columnIds[e.binding.column];
      if i >= |g.bind.value.fields| then None else Some(g.bind.value.fields[i])
  }

  function PushTerm(t: Term, g: ScanGet, alias: nat): Option<PushedAggregate>
    requires g.bind.Some?
  {
    var func := TermFunc(t);
    if func.None? || |t.args| != 1 then None
    else
      var field := ReferencedField(t.args[0], g);
      if field.None? || !Aggregable(field.value, func.value) then None
      else
        var counts := func.value == COUNT || func.value == COUNT_DISTINCT;
        var emitType := if counts then IntegerType else field.value.duckType;
        Some(PushedAggregate(func.value, field.value.name, t.display, alias, emitType, field.value.sfType))
  }

  /** Every term, or nothing. */
  function PushTerms(ts: seq<Term>, g: ScanGet): Option<seq<PushedAggregate>>
    requires g.bind.Some?
  {
    if |ts| == 0 then Some([])
    else
      var rest := PushTerms(ts[..|ts| - 1], g);
      var last := PushTerm(ts[|ts| - 1], g, |ts| - 1);
      if rest.None? || last.None? then None else Some(rest.value + [last.value])
  }

  /** The commit: identity column ids over the new schema, and the pushed list in the bind data. */
  function Rebuild(g: ScanGet, pushed: seq<PushedAggregate>): ScanGet
    requires g.bind.Some?
  {
    g.(bind := Some(g.bind.value.(aggregates := pushed)),
       columnIds := seq(|pushed|, i => i),
       types := seq(|pushed|, i requires 0 <= i < |pushed| => pushed[i].emitType),
       names := seq(|pushed|, i requires 0 <= i < |pushed| => pushed[i].outName))
  }

  function Bindings(g: ScanGet, n: nat): (bs: seq<Binding>)
    ensures |bs| == n && forall i | 0 <= i < n :: bs[i] == Binding(g.tableIndex, i)
  {
    seq(n, i requires 0 <= i < n => Binding(g.tableIndex, i))
  }

  function OverScan(aggregateIndex: nat, g: ScanGet, pushed: seq<PushedAggregate>): Plan
    requires g.bind.Some?
  {
    Projection(aggregateIndex, Bindings(g, |pushed|), Get(Rebuild(g, pushed)))
  }

  function RewriteAggregate(h: AggHead, children: seq<Plan>, enabled: bool): Option<Plan> {
    if !Ungrouped(h) || h.terms == [] || |children| != 1 || !children[0].Get? || !Eligible(children[0].get, enabled)
    then None
    else
      match PushTerms(h.terms, children[0].get)
      case None => None
      case Some(pushed) => Some(OverScan(h.aggregateIndex, children[0].get, pushed))
  }

  /** The loop of TryRewriteCountAggregate over the aggregate expressions. */
  method CollectTerms(ts: seq<Term>, g: ScanGet) returns (r: Option<seq<PushedAggregate>>)
    requires g.bind.Some?
    ensures r == PushTerms(ts, g)
  {
    var pushed: seq<PushedAggregate> := [];
    for i := 0 to |ts|
      invariant PushTerms(ts[..i], g) == Some(pushed) && |pushed| == i
    {
      assert ts[..i + 1][..i] == ts[..i];
      var pa := PushTerm(ts[i], g, |pushed|);
      if pa.None? {
        PushTermsFail(ts, g, i + 1);
        return None;
      }
      pushed := pushed + [pa.value];
    }
    assert ts[..|ts|] == ts;
    return Some(pushed);
  }

  lemma {:induction false} PushTermsFail(ts: seq<Term>, g: ScanGet, n: nat)
    requires g.bind.Some? && n <= |ts| && PushTerms(ts[..n], g).None?
    ensures PushTerms(ts, g).None?
    decreases |ts|
  {
    if n < |ts| {
      assert ts[..|ts| - 1][..n] == ts[..n];
      PushTermsFail(ts[..|ts| - 1], g, n);
    } else {
      assert ts[..n] == ts;
    }
  }

  /** COUNT over a one-column GROUP BY over a scan; the count's argument is not looked at. */
  function RewriteCountDistinct(outer: AggHead, children: seq<Plan>, enabled: bool): Option<Plan> {
    if !Ungrouped(outer) || |outer.terms| != 1 || TermFunc(outer.terms[0]) != Some(COUNT) then None
    else if |children| != 1 || !children[0].Aggregate? then None
    else
      var inner, below := children[0].head, children[0].children;
      if !OneGroup(inner) || !inner.groups[0].Ref? || |below| != 1 || !below[0].Get? || !Eligible(below[0].get, enabled)
      then None
      else
        var field := ReferencedField(inner.groups[0], below[0].get);
        if field.None? || !PlainField(field.value) then None
        else
          var pa := PushedAggregate(COUNT_DISTINCT, field.value.name, "count(DISTINCT " + field.value.name + ")",
                                    0, IntegerType, field.value.sfType);
          Some(OverScan(outer.aggregateIndex, below[0].get, [pa]))
  }

  function Rewrite(h: AggHead, children: seq<Plan>, enabled: bool): Option<Plan> {
    var first := RewriteAggregate(h, children, enabled);
    if first.Some? then first else RewriteCountDistinct(h, children, enabled)
  }

  function Walk(p: Plan, enabled: bool): Plan
    decreases p
  {
    match p
    case Get(_) => p
    case Projection(t, refs, child) => Projection(t, refs, Walk(child, enabled))
    case Operator(tag, children) => Operator(tag, WalkAll(children, enabled))
    case Aggregate(h, children) =>
      match Rewrite(h, children, enabled)
      case Some(q) => q
      case None => Aggregate(h, WalkAll(children, enabled))
  }

  function WalkAll(ps: seq<Plan>, enabled: bool): (qs: seq<Plan>)
    ensures |qs| == |ps|
    decreases ps
  {
    if |ps| == 0 then [] else [Walk(ps[0], enabled)] + WalkAll(ps[1..], enabled)
  }

  // ----- Assumptions ---------------------------------------------------------

  /**
   The fields the server is trusted to aggregate as DuckDB does: plain fields of the object itself,
   and for MIN and MAX those it can sort by whose order is not a text collation.
   */
  predicate Trusted(f: Field, func: ServerFunc) {
    && !f.isRelationship && f.children == [] && (forall i | 0 <= i < |f.name| :: f.name[i] != '.')
    && Lower(f.sfType) != "base64"
    && (func in {MIN, MAX} ==> f.sortable && f.duckType !in {VarcharType, BlobType, StructType})
  }

  ghost predicate ServerAggregates(w: World, fields: seq<Field>) {
    forall f, func, vals | f in fields && Trusted(f, func) ::
      w.serverAggregate(func, f.name, vals) == LocalAggregate(w, func, vals)
  }

  /** The pass pushes exactly the aggregates the server is trusted with. */
  lemma AggregableIffTrusted(f: Field, func: ServerFunc)
    ensures Aggregable(f, func) <==> Trusted(f, func)
  {
    if '.' in f.name {
      var i :| 0 <= i < |f.name| && f.name[i] == '.';
    }
  }

  /** Every scan in the plan: a faithful server, and no predicate of the user's own that a row scan would send. */
  ghost predicate ScansOk(w: World, p: Plan)
    decreases p
  {
    match p
    case Get(g) =>
      IsSalesforceScan(g) ==>
        ServerAggregates(w, g.bind.value.fields) && (g.bind.value.rawWhere == "" || g.bind.value.bulk)
    case Projection(_, _, child) => ScansOk(w, child)
    case Aggregate(_, children) => forall i | 0 <= i < |children| :: ScansOk(w, children[i])
    case Operator(_, children) => forall i | 0 <= i < |children| :: ScansOk(w, children[i])
  }

  /** The nested form counts the grouped column itself. */
  predicate CountsGroupedColumn(h: AggHead, children: seq<Plan>) {
    && |h.terms| == 1 && |children| == 1 && children[0].Aggregate?
    && h.terms[0].args == [Ref(Binding(children[0].head.groupIndex, 0))]
  }

  /** The nested form counts the groups, and no scanned row is NULL in the grouped column. */
  predicate CountsAllGroups(w: World, h: AggHead, children: seq<Plan>, enabled: bool)
    requires RewriteCountDistinct(h, children, enabled).Some?
  {
    h.terms[0].args == [] && Scalar(Null) !in GroupedColumn(w, children[0].head, children[0].children[0].get)
  }

  /** Wherever the nested form would be rewritten, it counts the grouped column or groups without NULL. */
  predicate NestedCountsOk(w: World, p: Plan, enabled: bool)
    decreases p
  {
    match p
    case Get(_) => true
    case Projection(_, _, child) => NestedCountsOk(w, child, enabled)
    case Operator(_, children) => forall i | 0 <= i < |children| :: NestedCountsOk(w, children[i], enabled)
    case Aggregate(h, children) =>
      && (RewriteCountDistinct(h, children, enabled).Some? ==>
            CountsGroupedColumn(h, children) || CountsAllGroups(w, h, children, enabled))
      && forall i | 0 <= i < |children| :: NestedCountsOk(w, children[i], enabled)
  }

  // ----- Meaning is kept ------------------------------------------------------

  lemma {:induction false} PushTermsAt(ts: seq<Term>, g: ScanGet, i: nat)
    requires g.bind.Some? && PushTerms(ts, g).Some? && i < |ts|
    ensures |PushTerms(ts, g).value| == |ts|
    ensures PushTerm(ts[i], g, i) == Some(PushTerms(ts, g).value[i])
    decreases |ts|
  {
    PushTermsLength(ts, g);
    if i < |ts| - 1 {
      PushTermsLength(ts[..|ts| - 1], g);
      PushTermsAt(ts[..|ts| - 1], g, i);
    } else {
      PushTermsLength(ts[..|ts| - 1], g);
    }
  }

  lemma {:induction false} PushTermsLength(ts: seq<Term>, g: ScanGet)
    requires g.bind.Some? && PushTerms(ts, g).Some?
    ensures |PushTerms(ts, g).value| == |ts|
    decreases |ts|
  {
    if |ts| > 0 { PushTermsLength(ts[..|ts| - 1], g); }
  }

  /** A reference to a scan column is, over all rows, the column of the field it reaches. */
  lemma ReferenceIsColumn(w: World, e: PlanExpr, g: ScanGet, rows: seq<Row>)
    requires g.bind.Some? && ReferencedField(e, g).Some?
    ensures ExprColumn(w, e, ScanTuples(g, g.bind.value, rows)) == FieldColumn(rows, ReferencedField(e, g).value.name)
  {
    var vals := ExprColumn(w, e, ScanTuples(g, g.bind.value, rows));
    var col := FieldColumn(rows, ReferencedField(e, g).value.name);
    forall k | 0 <= k < |rows| ensures vals[k] == col[k] {
      var t := ScanTuple(g, g.bind.value, rows[k]);
      assert t[g.tableIndex][e.binding.column] == ColumnDatum(g.bind.value, g.columnIds[e.binding.column], rows[k]);
    }
  }

  lemma PushedTermAgrees(w: World, t: Term, g: ScanGet, alias: nat, rows: seq<Row>)
    requires g.bind.Some? && ServerAggregates(w, g.bind.value.fields)
    requires PushTerm(t, g, alias).Some?
    ensures var pa := PushTerm(t, g, alias).value;
            TermValue(w, t, ScanTuples(g, g.bind.value, rows)) ==
            w.serverAggregate(pa.func, pa.field, FieldColumn(rows, pa.field))
  {
    ReferenceIsColumn(w, t.args[0], g, rows);
    var f := ReferencedField(t.args[0], g).value;
    assert f in g.bind.value.fields;
    AggregableIffTrusted(f, TermFunc(t).value);
    var col := FieldColumn(rows, f.name);
    assert w.serverAggregate(TermFunc(t).value, f.name, col) == LocalAggregate(w, TermFunc(t).value, col);
  }

  /** What the projection over the rewritten scan yields. */
  lemma OverScanYields(w: World, aggregateIndex: nat, g: ScanGet, pushed: seq<PushedAggregate>)
    requires Eligible(g, true) && pushed != []
    ensures var b := g.bind.value.(aggregates := pushed);
            Eval(w, OverScan(aggregateIndex, g, pushed)) == [map[aggregateIndex := AggregateRecord(w, b)]]
  {
    var b := g.bind.value.(aggregates := pushed);
    var rel := EvalGet(w, Rebuild(g, pushed));
    assert rel == [map[g.tableIndex := AggregateRecord(w, b)]];
    var refs := Bindings(g, |pushed|);
    var t := ProjectTuple(aggregateIndex, refs, rel[0]);
    assert t[aggregateIndex] == AggregateRecord(w, b);
    assert t == map[aggregateIndex := AggregateRecord(w, b)];
    assert Project(aggregateIndex, refs, rel) == [t];
  }

  lemma ScanYields(w: World, g: ScanGet)
    requires Eligible(g, true) && (g.bind.value.rawWhere == "" || g.bind.value.bulk)
    ensures EvalGet(w, g) ==
            ScanTuples(g, g.bind.value, Select(w.server, w.rows(g.bind.value.objectName), g.bind.value.where))
  {
  }

  lemma EvalOne(w: World, ps: seq<Plan>)
    requires |ps| == 1
    ensures EvalAll(w, ps) == [Eval(w, ps[0])]
  {
    assert EvalAll(w, ps[1..]) == [];
  }

  lemma RewriteAggregateKeepsRows(w: World, h: AggHead, children: seq<Plan>, enabled: bool)
    requires RewriteAggregate(h, children, enabled).Some? && ScansOk(w, children[0])
    ensures Eval(w, RewriteAggregate(h, children, enabled).value) == Eval(w, Aggregate(h, children))
  {
    var g := children[0].get;
    var b := g.bind.value;
    var pushed := PushTerms(h.terms, g).value;
    PushTermsLength(h.terms, g);
    OverScanYields(w, h.aggregateIndex, g, pushed);
    ScanYields(w, g);
    EvalOne(w, children);
    var rows := Select(w.server, w.rows(b.objectName), b.where);
    var record := AggregateRecord(w, b.(aggregates := pushed));
    var vals := TermValues(w, h.terms, ScanTuples(g, b, rows));
    forall i | 0 <= i < |h.terms| ensures vals[i] == record[i] {
      PushTermsAt(h.terms, g, i);
      PushedTermAgrees(w, h.terms[i], g, i, rows);
    }
    assert vals == record;
  }

  /**
   The rebuilt scan has one column per term, in order: the server is asked for the function the term
   names, of the field it refers to, and the column has the term's name and result type.
   */
  lemma RewrittenSchema(h: AggHead, children: seq<Plan>, enabled: bool, i: nat)
    requires RewriteAggregate(h, children, enabled).Some? && i < |h.terms|
    ensures var q := RewriteAggregate(h, children, enabled).value;
            && q.Projection? && q.tableIndex == h.aggregateIndex && q.child.Get?
            && |h.terms[i].args| == 1 && ReferencedField(h.terms[i].args[0], children[0].get).Some?
            && var g := q.child.get;
               var field := ReferencedField(h.terms[i].args[0], children[0].get).value;
               && |q.refs| == |g.columnIds| == |g.types| == |g.names| == |h.terms|
               && q.refs[i] == Binding(g.tableIndex, i) && g.columnIds[i] == i
               && g.names[i] == h.terms[i].display && g.bind.value.aggregates[i].alias == i
               && g.types[i] == (if Lower(h.terms[i].func) == "count" then IntegerType else field.duckType)
               && var name, pushed := Lower(h.terms[i].func), g.bind.value.aggregates[i];
                  && pushed.field == field.name && pushed.outName == h.terms[i].display
                  && (pushed.func == MAX <==> name == "max") && (pushed.func == MIN <==> name == "min")
                  && (pushed.func == COUNT_DISTINCT <==> name == "count" && h.terms[i].distinct)
                  && (pushed.func == COUNT <==> name == "count" && !h.terms[i].distinct)
  {
    PushTermsAt(h.terms, children[0].get, i);
  }

  /** A plain call of count, min or max over one column of the scan that the server is trusted with. */
  predicate PushableTerm(t: Term, g: ScanGet)
    requires g.bind.Some?
  {
    var name := Lower(t.func);
    && t.isAggregate && !t.filterOrOrder && name in {"count", "min", "max"} && (t.distinct ==> name == "count")
    && |t.args| == 1 && t.args[0].Ref? && t.args[0].binding.table == g.tableIndex
    && t.args[0].binding.column < |g.columnIds|
    && var id := g.columnIds[t.args[0].binding.column];
       id < |g.bind.value.fields| &&
       Trusted(g.bind.value.fields[id], if name == "min" then MIN else if name == "max" then MAX else COUNT)
  }

  lemma PushTermIff(t: Term, g: ScanGet, alias: nat)
    requires g.bind.Some?
    ensures PushTerm(t, g, alias).Some? <==> PushableTerm(t, g)
  {
    var field := if |t.args| == 1 then ReferencedField(t.args[0], g) else None;
    if field.Some? {
      AggregableIffTrusted(field.value, COUNT);
      AggregableIffTrusted(field.value, COUNT_DISTINCT);
      AggregableIffTrusted(field.value, MIN);
      AggregableIffTrusted(field.value, MAX);
    }
  }

  lemma {:induction false} PushTermsIff(ts: seq<Term>, g: ScanGet)
    requires g.bind.Some?
    ensures PushTerms(ts, g).Some? <==> forall i | 0 <= i < |ts| :: PushableTerm(ts[i], g)
    decreases |ts|
  {
    if |ts| > 0 {
      PushTermsIff(ts[..|ts| - 1], g);
      PushTermIff(ts[|ts| - 1], g, |ts| - 1);
      assert forall i | 0 <= i < |ts| - 1 :: ts[..|ts| - 1][i] == ts[i];
    }
  }

  /**
   When an aggregate is rewritten: the pass is on, and an ungrouped aggregate of pushable terms
   stands directly on a Salesforce scan without residual or table filters and not yet rewritten.
   */
  lemma RewriteAggregateIff(h: AggHead, children: seq<Plan>, enabled: bool)
    ensures RewriteAggregate(h, children, enabled).Some? <==>
            && enabled && h.groups == [] && h.groupingSets == 0 && h.groupingFunctions == 0 && |h.terms| > 0
            && |children| == 1 && children[0].Get?
            && var g := children[0].get;
               && g.functionName == "salesforce_scan" && g.bind.Some? && !g.hasTableFilters
               && g.bind.value.residualCount == 0 && g.bind.value.aggregates == []
               && forall i | 0 <= i < |h.terms| :: PushableTerm(h.terms[i], g)
  {
    if |children| == 1 && children[0].Get? && children[0].get.bind.Some? { PushTermsIff(h.terms, children[0].get); }
  }

  /**
   When the nested form is rewritten: the pass is on, and one plain COUNT, of whatever argument, stands
   over a GROUP BY of one plain column of a Salesforce scan without residual or table filters.
   */
  lemma RewriteCountDistinctIff(outer: AggHead, children: seq<Plan>, enabled: bool)
    ensures RewriteCountDistinct(outer, children, enabled).Some? <==>
            && enabled && outer.groups == [] && outer.groupingSets == 0 && outer.groupingFunctions == 0
            && |outer.terms| == 1 && outer.terms[0].isAggregate && Lower(outer.terms[0].func) == "count"
            && !outer.terms[0].distinct && !outer.terms[0].filterOrOrder
            && |children| == 1 && children[0].Aggregate?
            && var inner, below := children[0].head, children[0].children;
               && inner.terms == [] && |inner.groups| == 1 && inner.groups[0].Ref?
               && inner.groupingFunctions == 0 && inner.groupingSets <= 1 && |below| == 1 && below[0].Get?
               && var g := below[0].get;
                  && g.functionName == "salesforce_scan" && g.bind.Some? && !g.hasTableFilters
                  && g.bind.value.residualCount == 0 && g.bind.value.aggregates == []
                  && ReferencedField(inner.groups[0], g).Some?
                  && Trusted(ReferencedField(inner.groups[0], g).value, COUNT_DISTINCT)
  {
    if |children| == 1 && children[0].Aggregate? && |children[0].head.groups| == 1 && |children[0].children| == 1 &&
       children[0].children[0].Get? && children[0].children[0].get.bind.Some? {
      var field := ReferencedField(children[0].head.groups[0], children[0].children[0].get);
      if field.Some? { AggregableIffTrusted(field.value, COUNT_DISTINCT); }
    }
  }

  // ----- Counting distinct values ----------------------------------------------

  lemma {:induction false} DedupFacts(vals: seq<Datum>)
    ensures forall d :: d in Dedup(vals) <==> d in vals
    ensures |Dedup(vals)| == |NonNull(vals)| + (if Scalar(Null) in vals then 1 else 0)
    ensures CountNonNull(Dedup(vals)) == |NonNull(vals)|
    decreases |vals|
  {
    if |vals| > 0 {
      var rest, last := vals[..|vals| - 1], vals[|vals| - 1];
      DedupFacts(rest);
      assert vals == rest + [last];
      if last in Dedup(rest) {
        assert NonNull(vals) == NonNull(rest);
      } else {
        CountSnoc(Dedup(rest), last);
        if IsNull(last) {
          assert NonNull(vals) == NonNull(rest);
        } else {
          assert NonNull(vals) == NonNull(rest) + {last};
        }
      }
    }
  }

  lemma {:induction false} CountSnoc(vals: seq<Datum>, d: Datum)
    ensures CountNonNull(vals + [d]) == CountNonNull(vals) + (if IsNull(d) then 0 else 1)
  {
    if |vals| == 0 {
      assert vals + [d] == [d];
    } else {
      assert (vals + [d])[1..] == vals[1..] + [d];
      CountSnoc(vals[1..], d);
    }
  }

  /** The column the nested form groups by, over the scanned rows. */
  function GroupedColumn(w: World, inner: AggHead, g: ScanGet): seq<Datum>
    requires g.bind.Some? && |inner.groups| == 1 && ReferencedField(inner.groups[0], g).Some?
  {
    var b := g.bind.value;
    FieldColumn(Select(w.server, w.rows(b.objectName), b.where), ReferencedField(inner.groups[0], g).value.name)
  }

  lemma NestedYields(w: World, outer: AggHead, children: seq<Plan>, enabled: bool)
    requires RewriteCountDistinct(outer, children, enabled).Some? && ScansOk(w, children[0])
    ensures var inner, g := children[0].head, children[0].children[0].get;
            var col := GroupedColumn(w, inner, g);
            && Eval(w, children[0]) == GroupTuples(inner.groupIndex, Dedup(col))
            && Eval(w, RewriteCountDistinct(outer, children, enabled).value) ==
               [map[outer.aggregateIndex := [Big(|NonNull(col)|)]]]
  {
    var inner, below := children[0].head, children[0].children;
    var g := below[0].get;
    var b := g.bind.value;
    assert ScansOk(w, below[0]);
    var rows := Select(w.server, w.rows(b.objectName), b.where);
    var f := ReferencedField(inner.groups[0], g).value;
    EvalOne(w, below);
    ScanYields(w, g);
    ReferenceIsColumn(w, inner.groups[0], g, rows);
    assert f in b.fields;
    AggregableIffTrusted(f, COUNT_DISTINCT);
    var pa := PushedAggregate(COUNT_DISTINCT, f.name, "count(DISTINCT " + f.name + ")", 0, IntegerType, f.sfType);
    OverScanYields(w, outer.aggregateIndex, g, [pa]);
    assert w.serverAggregate(COUNT_DISTINCT, f.name, FieldColumn(rows, f.name)) ==
           LocalAggregate(w, COUNT_DISTINCT, FieldColumn(rows, f.name));
    var record := AggregateRecord(w, b.(aggregates := [pa]));
    assert record[0] == w.serverAggregate(pa.func, pa.field, FieldColumn(rows, pa.field));
    assert record == [Big(|NonNull(FieldColumn(rows, f.name))|)];
  }

  lemma GroupColumnValues(w: World, groupIndex: nat, vals: seq<Datum>)
    ensures ExprColumn(w, Ref(Binding(groupIndex, 0)), GroupTuples(groupIndex, vals)) == vals
  {
    var col := ExprColumn(w, Ref(Binding(groupIndex, 0)), GroupTuples(groupIndex, vals));
    forall k | 0 <= k < |vals| ensures col[k] == vals[k] {
      assert GroupTuples(groupIndex, vals)[k] == map[groupIndex := [vals[k]]];
    }
  }

  lemma OuterYields(w: World, outer: AggHead, children: seq<Plan>)
    requires Ungrouped(outer) && |outer.terms| == 1 && |children| == 1
    ensures Eval(w, Aggregate(outer, children)) ==
            [map[outer.aggregateIndex := [TermValue(w, outer.terms[0], Eval(w, children[0]))]]]
  {
    EvalOne(w, children);
    assert TermValues(w, outer.terms, Eval(w, children[0])) == [TermValue(w, outer.terms[0], Eval(w, children[0]))];
  }

  /** Counting the grouped column: the nested form is kept. */
  lemma RewriteCountDistinctKeepsRows(w: World, outer: AggHead, children: seq<Plan>, enabled: bool)
    requires RewriteCountDistinct(outer, children, enabled).Some? && ScansOk(w, children[0])
    requires CountsGroupedColumn(outer, children)
    ensures Eval(w, RewriteCountDistinct(outer, children, enabled).value) == Eval(w, Aggregate(outer, children))
  {
    var inner, g := children[0].head, children[0].children[0].get;
    var col := GroupedColumn(w, inner, g);
    NestedYields(w, outer, children, enabled);
    OuterYields(w, outer, children);
    GroupColumnValues(w, inner.groupIndex, Dedup(col));
    DedupFacts(col);
  }

  /**
   The nested form with COUNT(*), which the guards let through: the rewrite keeps the rows
   if and only if no scanned row is NULL in the grouped column.
   */
  lemma CountStarRewriteIff(w: World, outer: AggHead, children: seq<Plan>, enabled: bool)
    requires RewriteCountDistinct(outer, children, enabled).Some? && ScansOk(w, children[0])
    requires outer.terms[0].args == []
    ensures Eval(w, RewriteCountDistinct(outer, children, enabled).value) == Eval(w, Aggregate(outer, children)) <==>
            Scalar(Null) !in GroupedColumn(w, children[0].head, children[0].children[0].get)
  {
    var inner, g := children[0].head, children[0].children[0].get;
    var col := GroupedColumn(w, inner, g);
    NestedYields(w, outer, children, enabled);
    OuterYields(w, outer, children);
    DedupFacts(col);
    var a, b := [Big(|NonNull(col)|)], [Big(|Dedup(col)|)];
    assert TermValue(w, outer.terms[0], Eval(w, children[0])) == b[0];
    SingleTuple(outer.aggregateIndex, a, b);
  }

  lemma SingleTuple(t: nat, a: seq<Datum>, b: seq<Datum>)
    ensures [map[t := a]] == [map[t := b]] <==> a == b
  {
    if [map[t := a]] == [map[t := b]] {
      assert [map[t := a]][0][t] == [map[t := b]][0][t];
    }
  }

  /** The pass keeps every plan's rows under the same bindings. */
  lemma {:induction false} WalkKeepsRows(w: World, p: Plan, enabled: bool)
    requires ScansOk(w, p) && NestedCountsOk(w, p, enabled)
    ensures Eval(w, Walk(p, enabled)) == Eval(w, p)
    decreases p
  {
    match p
    case Get(_) =>
    case Projection(_, _, child) => WalkKeepsRows(w, child, enabled);
    case Operator(_, children) => WalkAllKeepsRows(w, children, enabled);
    case Aggregate(h, children) =>
      if RewriteAggregate(h, children, enabled).Some? {
        RewriteAggregateKeepsRows(w, h, children, enabled);
      } else if RewriteCountDistinct(h, children, enabled).Some? {
        if CountsGroupedColumn(h, children) {
          RewriteCountDistinctKeepsRows(w, h, children, enabled);
        } else {
          CountStarRewriteIff(w, h, children, enabled);
        }
      } else {
        WalkAllKeepsRows(w, children, enabled);
      }
  }

  lemma {:induction false} WalkAllKeepsRows(w: World, ps: seq<Plan>, enabled: bool)
    requires forall i | 0 <= i < |ps| :: ScansOk(w, ps[i]) && NestedCountsOk(w, ps[i], enabled)
    ensures EvalAll(w, WalkAll(ps, enabled)) == EvalAll(w, ps)
    decreases ps
  {
    if |ps| > 0 {
      WalkKeepsRows(w, ps[0], enabled);
      WalkAllKeepsRows(w, ps[1..], enabled);
      assert WalkAll(ps, enabled)[1..] == WalkAll(ps[1..], enabled);
    }
  }

  // ----- The user's own predicate ----------------------------------------------

  predicate HasValue(row: Row, field: string) { !IsNull(Scalar(Cell(row, field))) }

  lemma {:induction false} CountsCompare(srv: Server, rows: seq<Row>, wide: string, narrow: string, field: string)
    requires forall row | row in rows && Returns(srv, narrow, row) :: Returns(srv, wide, row)
    ensures var a, b := CountNonNull(FieldColumn(Select(srv, rows, wide), field)),
                        CountNonNull(FieldColumn(Select(srv, rows, narrow), field));
            && b <= a
            && (a == b <==> forall row | row in rows && Returns(srv, wide, row) && HasValue(row, field) ::
                              Returns(srv, narrow, row))
    decreases |rows|
  {
    if |rows| > 0 {
      CountsCompare(srv, rows[1..], wide, narrow, field);
      CountSelected(srv, rows, wide, field);
      CountSelected(srv, rows, narrow, field);
      assert rows == [rows[0]] + rows[1..] && rows[0] in rows;
    }
  }

  lemma CountSelected(srv: Server, rows: seq<Row>, where: string, field: string)
    requires |rows| > 0
    ensures CountNonNull(FieldColumn(Select(srv, rows, where), field)) ==
            (if Returns(srv, where, rows[0]) && HasValue(rows[0], field) then 1 else 0) +
            CountNonNull(FieldColumn(Select(srv, rows[1..], where), field))
  {
    var rest := Select(srv, rows[1..], where);
    var all := Select(srv, rows, where);
    if Returns(srv, where, rows[0]) {
      assert all == [rows[0]] + rest;
      assert FieldColumn(all, field)[1..] == FieldColumn(rest, field);
    } else {
      assert all == rest;
    }
  }

  /** What a rewritten and an unrewritten one-term COUNT yield. */
  lemma CountYields(w: World, h: AggHead, children: seq<Plan>, enabled: bool)
    requires RewriteAggregate(h, children, enabled).Some? && |h.terms| == 1 && TermFunc(h.terms[0]) == Some(COUNT)
    requires ServerAggregates(w, children[0].get.bind.value.fields)
    ensures var g := children[0].get;
            var b, table := g.bind.value, w.rows(g.bind.value.objectName);
            && |h.terms[0].args| == 1 && ReferencedField(h.terms[0].args[0], g).Some?
            && var field := ReferencedField(h.terms[0].args[0], g).value.name;
               var sent, scanned := Select(w.server, table, b.where), Select(w.server, table, RowWhere(b));
               && Eval(w, RewriteAggregate(h, children, enabled).value) ==
                  [map[h.aggregateIndex := [Big(CountNonNull(FieldColumn(sent, field)))]]]
               && Eval(w, Aggregate(h, children)) ==
                  [map[h.aggregateIndex := [Big(CountNonNull(FieldColumn(scanned, field)))]]]
  {
    var g := children[0].get;
    var b := g.bind.value;
    PushTermsAt(h.terms, g, 0);
    var pushed := PushTerms(h.terms, g).value;
    var f := ReferencedField(h.terms[0].args[0], g).value;
    assert pushed == [pushed[0]] && pushed[0].func == COUNT && pushed[0].field == f.name;
    OverScanYields(w, h.aggregateIndex, g, pushed);
    OuterYields(w, h, children);
    var all, some := Select(w.server, w.rows(b.objectName), b.where),
                     Select(w.server, w.rows(b.objectName), RowWhere(b));
    ReferenceIsColumn(w, h.terms[0].args[0], g, some);
    assert f in b.fields;
    AggregableIffTrusted(f, COUNT);
    assert w.serverAggregate(COUNT, f.name, FieldColumn(all, f.name)) ==
           LocalAggregate(w, COUNT, FieldColumn(all, f.name));
    var record := AggregateRecord(w, b.(aggregates := pushed));
    assert record[0] == w.serverAggregate(COUNT, f.name, FieldColumn(all, f.name));
    assert record == [Big(CountNonNull(FieldColumn(all, f.name)))];
  }

  /**
   A COUNT over a scan that carries the user's own predicate: the server aggregate omits
   that predicate, as the Bulk chunks do, so the rewrite keeps the rows if and only if the scan
   goes over Bulk or the predicate rejects no row that the pushed WHERE selects and whose
   counted field has a value.
   */
  lemma RawWhereRewriteIff(w: World, h: AggHead, children: seq<Plan>, enabled: bool, items: seq<Predicate>)
    requires RewriteAggregate(h, children, enabled).Some? && |h.terms| == 1 && TermFunc(h.terms[0]) == Some(COUNT)
    requires ServerAggregates(w, children[0].get.bind.value.fields)
    requires Spells(children[0].get.bind.value.where, items)
    ensures |h.terms[0].args| == 1 && ReferencedField(h.terms[0].args[0], children[0].get).Some?
    ensures var b := children[0].get.bind.value;
            var field := ReferencedField(h.terms[0].args[0], children[0].get).value.name;
            Eval(w, RewriteAggregate(h, children, enabled).value) == Eval(w, Aggregate(h, children)) <==>
            b.bulk ||
            forall row | row in w.rows(b.objectName) && Returns(w.server, b.where, row) && HasValue(row, field) ::
              Returns(w.server, CombinedWhere(b.where, b.rawWhere), row)
  {
    var b := children[0].get.bind.value;
    CountYields(w, h, children, enabled);
    var field := ReferencedField(h.terms[0].args[0], children[0].get).value.name;
    var table, narrow := w.rows(b.objectName), CombinedWhere(b.where, b.rawWhere);
    forall row | row in table && Returns(w.server, narrow, row) ensures Returns(w.server, b.where, row) {
      JoinNeverWidens(w.server, b.where, items, b.rawWhere, row);
    }
    CountsCompare(w.server, table, b.where, narrow, field);
    SingleTuple(h.aggregateIndex, [Big(CountNonNull(FieldColumn(Select(w.server, table, b.where), field)))],
                [Big(CountNonNull(FieldColumn(Select(w.server, table, RowWhere(b)), field)))]);
  }

  // ----- Inputs on which the rewrites change the answer -------------------------

  const NAME_FIELD: Field := Field("Name", "string", VarcharType, true, true, "", [], false, [])

  /** A scan of Account's names, table index 0. */
  function NameScan(rawWhere: string): ScanGet {
    ScanGet(0, "salesforce_scan", Some(ScanBind("Account", [NAME_FIELD], "", rawWhere, false, 0, [])), [0], false,
            [VarcharType], ["Name"])
  }

  lemma NameFieldIsPlain()
    ensures Aggregable(NAME_FIELD, COUNT)
  {
    assert Lower(NAME_FIELD.sfType)[0] == 's';
  }

  /** COUNT(Name) under the predicate `Name = null`, over one row that has a name: one instead of none. */
  lemma RawWhereExample(w: World, text: string) returns (h: AggHead, children: seq<Plan>)
    requires NullTestsAgree(w.server) && ServerAggregates(w, [NAME_FIELD])
    requires w.rows("Account") == [Row(map["Name" := Varchar(text)])]
    ensures children == [Get(NameScan("Name = null"))] && RewriteAggregate(h, children, true).Some?
    ensures Eval(w, RewriteAggregate(h, children, true).value) != Eval(w, Aggregate(h, children))
  {
    var row := Row(map["Name" := Varchar(text)]);
    var g := NameScan("Name = null");
    var term := Term(true, "count", false, false, [Ref(Binding(0, 0))], "count(Name)");
    h, children := AggHead(1, 2, [], 0, 0, [term]), [Get(g)];
    CountTermPushes(term, g);
    assert TermFunc(term) == Some(COUNT);
    assert Spells("", []);
    RawWhereRewriteIff(w, h, children, true, []);
    NamedRowRejected(w.server, row);
    assert row in w.rows("Account");
  }

  lemma CountTermPushes(term: Term, g: ScanGet)
    requires g.bind.Some? && g == NameScan(g.bind.value.rawWhere)
    requires term == Term(true, "count", false, false, [Ref(Binding(0, 0))], "count(Name)")
    ensures PushTerms([term], g).Some? && TermFunc(term) == Some(COUNT)
  {
    NameFieldIsPlain();
    assert Lower("count") == "count";
    assert [term][..0] == [];
    assert PushTerm(term, g, 0).Some?;
  }

  /** COUNT(*) over GROUP BY Name, over one row without a name: one group, but no distinct value. */
  lemma CountStarExample(w: World) returns (outer: AggHead, children: seq<Plan>)
    requires ServerAggregates(w, [NAME_FIELD]) && w.rows("Account") == [Row(map[])]
    ensures RewriteCountDistinct(outer, children, true).Some? && outer.terms[0].args == []
    ensures Eval(w, RewriteCountDistinct(outer, children, true).value) != Eval(w, Aggregate(outer, children))
  {
    var g := NameScan("");
    var inner := AggHead(1, 2, [Ref(Binding(0, 0))], 0, 0, []);
    var term := Term(true, "count", false, false, [], "count_star()");
    outer := AggHead(3, 4, [], 0, 0, [term]);
    children := [Aggregate(inner, [Get(g)])];
    NameFieldIsPlain();
    assert Lower("count") == "count";
    assert ReferencedField(inner.groups[0], g) == Some(NAME_FIELD);
    assert RewriteCountDistinct(outer, children, true).Some?;
    assert ScansOk(w, Get(g));
    CountStarRewriteIff(w, outer, children, true);
    assert Select(w.server, [Row(map[])], "") == [Row(map[])];
    assert GroupedColumn(w, inner, g)[0] == Scalar(Null);
  }

  // ----- The switch -------------------------------------------------------------

  /** Switched off, the pass returns every plan as it is. */
  lemma {:induction false} DisabledWalk(p: Plan)
    ensures Walk(p, false) == p
    decreases p
  {
    match p
    case Get(_) =>
    case Projection(_, _, child) => DisabledWalk(child);
    case Operator(_, children) => DisabledWalkAll(children);
    case Aggregate(_, children) => DisabledWalkAll(children);
  }

  lemma {:induction false} DisabledWalkAll(ps: seq<Plan>)
    ensures WalkAll(ps, false) == ps
    decreases ps
  {
    if |ps| > 0 {
      DisabledWalk(ps[0]);
      DisabledWalkAll(ps[1..]);
      assert ps == [ps[0]] + ps[1..];
    }
  }

  // ----- A second pass changes nothing ----------------------------------------

  lemma {:induction false} WalkAllAt(ps: seq<Plan>, enabled: bool, i: nat)
    requires i < |ps|
    ensures WalkAll(ps, enabled)[i] == Walk(ps[i], enabled)
  {
    if i > 0 { WalkAllAt(ps[1..], enabled, i - 1); }
  }

  /** A child that is still a Get, or still an aggregate, was left as it was at its root. */
  lemma WalkRoot(p: Plan, enabled: bool)
    ensures Walk(p, enabled).Get? ==> p == Walk(p, enabled)
    ensures Walk(p, enabled).Aggregate? ==>
              p.Aggregate? && p.head == Walk(p, enabled).head && Rewrite(p.head, p.children, enabled).None?
              && Walk(p, enabled).children == WalkAll(p.children, enabled)
  {
  }

  /** Walking the children never makes a node rewritable. */
  lemma RewriteStaysOff(h: AggHead, children: seq<Plan>, enabled: bool)
    requires Rewrite(h, children, enabled).None?
    ensures Rewrite(h, WalkAll(children, enabled), enabled).None?
  {
    var after := WalkAll(children, enabled);
    if |children| == 1 {
      WalkAllAt(children, enabled, 0);
      WalkRoot(children[0], enabled);
      if after[0].Get? {
        assert after == children;
      } else if after[0].Aggregate? && |after[0].children| == 1 {
        var below := children[0].children;
        WalkAllAt(below, enabled, 0);
        WalkRoot(below[0], enabled);
        if after[0].children[0].Get? {
          assert after[0].children == below;
          assert after == children;
        }
      }
    }
  }

  lemma {:induction false} WalkIdempotent(p: Plan, enabled: bool)
    ensures Walk(Walk(p, enabled), enabled) == Walk(p, enabled)
    decreases p
  {
    match p
    case Get(_) =>
    case Projection(_, _, child) => WalkIdempotent(child, enabled);
    case Operator(_, children) => WalkAllIdempotent(children, enabled);
    case Aggregate(h, children) =>
      if Rewrite(h, children, enabled).None? {
        RewriteStaysOff(h, children, enabled);
        WalkAllIdempotent(children, enabled);
      }
  }

  lemma {:induction false} WalkAllIdempotent(ps: seq<Plan>, enabled: bool)
    ensures WalkAll(WalkAll(ps, enabled), enabled) == WalkAll(ps, enabled)
    decreases ps
  {
    if |ps| > 0 {
      WalkIdempotent(ps[0], enabled);
      WalkAllIdempotent(ps[1..], enabled);
      assert WalkAll(ps, enabled)[1..] == WalkAll(ps[1..], enabled);
    }
  }
}
