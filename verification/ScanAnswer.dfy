/**
 The paths put together. Bulk: filters split by the hook, the object cut into Id ranges,
 the ranges scanned by any number of threads in any interleaving, the residual filters
 applied by DuckDB. REST: the same split over lazily fetched pages. Either way the answer
 is the one the original filters give over the object's rows.
 */
module ScanAnswer {
  import opened Text
  import opened SoqlSyntax
  import opened SoqlStatement
  import opened SoqlPushdown
  import opened SoqlMeaning
  import opened PushdownHook
  import opened UserPredicate
  import opened QueryUrl
  import opened IdCodec
  import opened IdRanges
  import BulkScan
  import opened BulkProgress
  import LazyScan

  // ----- Chunk WHERE clauses ------------------------------------------------

  function Distance(a: int, b: int): nat {
    if a <= b then b - a else a - b
  }

  /** The chunk count from one to eight that is nearest to the requested one. */
  function ClampChunks(requested: int): (n: nat)
    ensures 1 <= n <= MAX_CHUNKS
    ensures forall m | 1 <= m <= MAX_CHUNKS :: Distance(n, requested) <= Distance(m, requested)
  {
    if requested < 1 then 1 else if requested > 8 then 8 else requested
  }

  datatype Probe = NoProbe | Probed(min: string, max: string)

  /** One WHERE per chunk; a single chunk when chunking is off or the MIN/MAX probe fails. */
  function ChunkWheres(pushed: string, requested: int, probe: Probe): seq<string> {
    var n := ClampChunks(requested);
    var wheres := if n > 1 && probe.Probed? then RangeWheres(pushed, Ranges(probe.min, probe.max, n)) else [];
    if wheres == [] then [pushed] else wheres
  }

  /** The statement each chunk's job is created with. */
  function ChunkSoqls(objectName: string, fields: seq<string>, wheres: seq<string>): (ss: seq<string>)
    ensures |ss| == |wheres|
    ensures forall c | 0 <= c < |wheres| :: ss[c] == PrintStatement(Statement(fields, objectName, wheres[c]))
  {
    seq(|wheres|, c requires 0 <= c < |wheres| => PrintStatement(Statement(fields, objectName, wheres[c])))
  }

  // ----- Named assumptions about the server ----------------------------------

  predicate HoldsLexically(op: CompareOp, a: string, b: string) {
    match op
    case Eq => a == b
    case Ne => a != b
    case Lt => LexLess(a, b)
    case Gt => LexLess(b, a)
    case Le => LexLeq(a, b)
    case Ge => LexLeq(b, a)
  }

  /** Salesforce orders Ids as byte strings. */
  ghost predicate IdsOrderedLexically(srv: Server) {
    forall op, a, b :: srv.compare("Id", op, Varchar(a), StringLit(b)) <==> HoldsLexically(op, a, b)
  }

  ghost predicate HasIds(table: seq<Row>) {
    forall row :: row in table ==> Cell(row, "Id").Varchar?
  }

  /** MIN(Id) and MAX(Id) bound the Ids of the rows the pushed WHERE selects. */
  ghost predicate ProbeHolds(srv: Server, table: seq<Row>, pushed: string, probe: Probe) {
    probe.Probed? ==>
      && IsId(probe.min) && IsId(probe.max) && LexLess(probe.min, probe.max)
      && forall row :: row in table && Returns(srv, pushed, row) && Cell(row, "Id").Varchar? ==>
           LexLeq(probe.min, Cell(row, "Id").text) && LexLeq(Cell(row, "Id").text, probe.max)
  }

  /** MAX(Id) is the Id of a row the pushed WHERE selects. */
  ghost predicate ProbeAttained(srv: Server, table: seq<Row>, pushed: string, probe: Probe) {
    probe.Probed? ==>
      exists row :: row in table && Returns(srv, pushed, row) && Cell(row, "Id") == Varchar(probe.max)
  }

  /** One chunk, or a maximum that is not the minimum's first ten characters followed by zeros. */
  predicate ChunksPartition(requested: int, probe: Probe) {
    ClampChunks(requested) == 1 || probe.NoProbe? || !ZeroExtension(probe.min, probe.max)
  }

  /** A job's pages, read to the end, hold the rows selected by the statement it was created with. */
  ghost predicate Serves(srv: Server, table: seq<Row>, jobs: BulkScan.Jobs<Row>, soqls: seq<string>) {
    && jobs.chunks == |soqls|
    && forall c, pages | 0 <= c < |soqls| && BulkScan.CompleteChain(jobs, c, pages) && ReadStatement(soqls[c]).Some? ::
         multiset(BulkScan.Rows(pages)) == multiset(Select(srv, table, ReadStatement(soqls[c]).value.where))
  }

  /** The field list and the object name are plain names. */
  predicate ValidTarget(objectName: string, fields: seq<string>) {
    ValidStatement(Statement(fields, objectName, ""))
  }

  // ----- What a chunk's text selects -----------------------------------------

  lemma {:induction false} EscapeId(s: string)
    requires IsId(s)
    ensures Escape(s) == s
  {
    if s != "" {
      EscapeId(s[1..]);
      assert s == [s[0]] + s[1..];
    }
  }

  function RangeItems(r: Range): seq<Predicate> {
    [Condition(Comparison("Id", Ge, StringLit(r.lo))),
     Condition(Comparison("Id", if r.inclusive then Le else Lt, StringLit(r.hi)))]
  }

  lemma IdConditionText(op: CompareOp, id: string)
    requires IsId(id)
    ensures Print(Condition(Comparison("Id", op, StringLit(id)))) ==
            "Id" + (" " + (OpText(op) + (" " + ("'" + (id + "'")))))
  {
    EscapeId(id);
  }

  lemma RangeTextIsPrinted(r: Range)
    requires IsId(r.lo) && IsId(r.hi)
    ensures RangeText(r) == PrintItems(And, RangeItems(r))
    ensures ValidItems(And, RangeItems(r))
  {
    var op := if r.inclusive then Le else Lt;
    IdConditionText(Ge, r.lo);
    IdConditionText(op, r.hi);
    PrintPair(And, RangeItems(r));
    var hi := "Id" + (" " + (OpText(op) + (" " + ("'" + (r.hi + "'")))));
    LowerText(r.lo);
    RangeTextPieces(r, hi);
  }

  lemma LowerText(lo: string)
    ensures "Id" + (" " + (">=" + (" " + ("'" + (lo + "'"))))) == "Id >= '" + (lo + "'")
  {
  }

  lemma RangeTextPieces(r: Range, hi: string)
    requires hi == "Id" + (" " + (OpText(if r.inclusive then Le else Lt) + (" " + ("'" + (r.hi + "'")))))
    ensures RangeText(r) == "Id >= '" + (r.lo + "'") + (" AND " + hi)
  {
    var mid := if r.inclusive then "' AND Id <= '" else "' AND Id < '";
    assert hi == (if r.inclusive then "Id <= '" else "Id < '") + (r.hi + "'");
    assert "'" + (" AND " + hi) == mid + (r.hi + "'");
    Assoc("Id >= '", r.lo + "'", " AND " + hi);
    Assoc(r.lo, "'", " AND " + hi);
    Assoc("Id >= '", r.lo, mid);
    Assoc("Id >= '", r.lo + mid, r.hi);
    Assoc("Id >= '", r.lo + mid + r.hi, "'");
    Assoc(r.lo, mid, r.hi);
    Assoc(r.lo, mid + r.hi, "'");
    Assoc(mid, r.hi, "'");
  }

  lemma CombinedIsPrinted(pushed: string, items: seq<Predicate>, r: Range)
    requires pushed != "" && Spells(pushed, items) && IsId(r.lo) && IsId(r.hi)
    ensures Combine(pushed, RangeText(r)) == PrintItems(And, [Group(And, items), Group(And, RangeItems(r))])
  {
    RangeTextIsPrinted(r);
    var range := RangeText(r);
    PrintPair(And, [Group(And, items), Group(And, RangeItems(r))]);
    CombinePieces(pushed, range);
  }

  lemma CombinePieces(pushed: string, range: string)
    requires pushed != ""
    ensures Combine(pushed, range) == "(" + (pushed + ")") + (" AND " + ("(" + (range + ")")))
  {
    Assoc("(", pushed, ") AND (");
    Assoc("(", pushed + ") AND (", range);
    Assoc("(", pushed + ") AND (" + range, ")");
    Assoc(pushed, ") AND (", range);
    Assoc(pushed, ") AND (" + range, ")");
    Assoc(") AND (", range, ")");
    Assoc("(", pushed + ")", " AND " + ("(" + (range + ")")));
    Assoc(pushed, ")", " AND " + ("(" + (range + ")")));
    assert ")" + (" AND " + ("(" + (range + ")"))) == ") AND (" + (range + ")");
  }

  lemma RangeMeaning(srv: Server, r: Range, row: Row)
    requires IdsOrderedLexically(srv) && Cell(row, "Id").Varchar?
    ensures AllAccepted(srv, RangeItems(r), row) <==> InRange(r, Cell(row, "Id").text)
  {
    var items := RangeItems(r);
    var id := Cell(row, "Id").text;
    assert Accepts(srv, items[0], row) <==> HoldsLexically(Ge, id, r.lo);
    assert Accepts(srv, items[1], row) <==> HoldsLexically(if r.inclusive then Le else Lt, id, r.hi);
  }

  /** A chunk's WHERE selects the rows the pushed WHERE selects whose Id is in the chunk's range. */
  lemma ChunkMeaning(srv: Server, pushed: string, items: seq<Predicate>, r: Range, row: Row)
    requires IdsOrderedLexically(srv) && Spells(pushed, items) && Cell(row, "Id").Varchar?
    requires IsId(r.lo) && IsId(r.hi)
    ensures Returns(srv, Combine(pushed, RangeText(r)), row) <==>
            Returns(srv, pushed, row) && InRange(r, Cell(row, "Id").text)
  {
    RangeTextIsPrinted(r);
    RangeMeaning(srv, r, row);
    SpelledMeaning(srv, pushed, items, row);
    var range := RangeItems(r);
    if pushed == "" {
      SpelledMeaning(srv, RangeText(r), range, row);
    } else {
      CombinedIsPrinted(pushed, items, r);
      var both := [Group(And, items), Group(And, range)];
      assert Spells(Combine(pushed, RangeText(r)), both);
      SpelledMeaning(srv, Combine(pushed, RangeText(r)), both, row);
      assert Accepts(srv, both[0], row) <==> AllAccepted(srv, items, row);
      assert Accepts(srv, both[1], row) <==> AllAccepted(srv, range, row);
    }
  }

  // ----- Counting -----------------------------------------------------------

  /** How many of the WHERE clauses select the row. */
  ghost function Selecting(srv: Server, wheres: seq<string>, row: Row): nat {
    if |wheres| == 0 then 0
    else (if Returns(srv, wheres[0], row) then 1 else 0) + Selecting(srv, wheres[1..], row)
  }

  lemma {:induction false} RangesAreIds(bs: seq<string>, i: nat)
    requires |bs| >= 2 && forall k | 0 <= k < |bs| :: IsId(bs[k])
    ensures forall r :: r in RangesFrom(bs, i) ==> IsId(r.lo) && IsId(r.hi)
    decreases |bs| - i
  {
    if i + 1 < |bs| { RangesAreIds(bs, i + 1); }
  }

  lemma {:induction false} SelectingCounts(srv: Server, pushed: string, items: seq<Predicate>, rs: seq<Range>,
                                           row: Row)
    requires IdsOrderedLexically(srv) && Spells(pushed, items) && Cell(row, "Id").Varchar?
    requires forall r :: r in rs ==> IsId(r.lo) && IsId(r.hi)
    ensures Selecting(srv, RangeWheres(pushed, rs), row) ==
            if Returns(srv, pushed, row) then Count(rs, Cell(row, "Id").text) else 0
    decreases |rs|
  {
    if |rs| > 0 {
      assert rs[0] in rs;
      ChunkMeaning(srv, pushed, items, rs[0], row);
      SelectingCounts(srv, pushed, items, rs[1..], row);
      assert RangeWheres(pushed, rs)[1..] == RangeWheres(pushed, rs[1..]);
    }
  }

  /** A row is selected by as many chunks as ranges hold its Id. */
  lemma ChunksSelecting(srv: Server, pushed: string, requested: int, probe: Probe, row: Row)
    requires IdsOrderedLexically(srv) && Cell(row, "Id").Varchar? && exists items :: Spells(pushed, items)
    requires ClampChunks(requested) > 1 && probe.Probed? && IsId(probe.min) && IsId(probe.max)
    ensures Selecting(srv, ChunkWheres(pushed, requested, probe), row) ==
            if !Returns(srv, pushed, row) then 0
            else Count(Ranges(probe.min, probe.max, ClampChunks(requested)), Cell(row, "Id").text)
  {
    var n := ClampChunks(requested);
    var items :| Spells(pushed, items);
    RangesAreIds(Boundaries(probe.min, probe.max, n), 0);
    SelectingCounts(srv, pushed, items, Ranges(probe.min, probe.max, n), row);
    FirstRangeKept(probe.min, probe.max, n);
  }

  /** Every row the pushed WHERE selects is selected by exactly one chunk, and no other row is. */
  lemma ExactlyOneChunk(srv: Server, table: seq<Row>, pushed: string, requested: int, probe: Probe, row: Row)
    requires IdsOrderedLexically(srv) && HasIds(table) && ProbeHolds(srv, table, pushed, probe)
    requires ChunksPartition(requested, probe)
    requires (exists items :: Spells(pushed, items)) && row in table
    ensures Selecting(srv, ChunkWheres(pushed, requested, probe), row) == if Returns(srv, pushed, row) then 1 else 0
  {
    var n := ClampChunks(requested);
    if n > 1 && probe.Probed? {
      ChunksSelecting(srv, pushed, requested, probe, row);
      PartitionIff(probe.min, probe.max, n);
    } else {
      var wheres := ChunkWheres(pushed, requested, probe);
      assert wheres == [pushed] && wheres[1..] == [];
    }
  }

  /** Where the chunks do not partition, a row with the largest Id is selected by no chunk. */
  lemma MaximumInNoChunk(srv: Server, table: seq<Row>, pushed: string, requested: int, probe: Probe, row: Row)
    requires IdsOrderedLexically(srv) && ProbeHolds(srv, table, pushed, probe) && !ChunksPartition(requested, probe)
    requires (exists items :: Spells(pushed, items)) && Cell(row, "Id") == Varchar(probe.max)
    ensures Selecting(srv, ChunkWheres(pushed, requested, probe), row) == 0
  {
    ChunksSelecting(srv, pushed, requested, probe, row);
    MaximumInNoRange(probe.min, probe.max, ClampChunks(requested));
  }

  lemma FirstRangeKept(min: string, max: string, n: nat)
    requires n > 0
    ensures Ranges(min, max, n) != []
  {
  }

  lemma {:induction false} SelectMultiplicity(srv: Server, table: seq<Row>, where: string, row: Row)
    ensures multiset(Select(srv, table, where))[row] == if Returns(srv, where, row) then multiset(table)[row] else 0
  {
    if |table| > 0 {
      SelectMultiplicity(srv, table[1..], where, row);
      assert table == [table[0]] + table[1..];
      assert multiset(table) == multiset{table[0]} + multiset(table[1..]);
    }
  }

  /** The fetched pages of each chunk hold what the chunk's WHERE selects. */
  ghost predicate Holding(srv: Server, table: seq<Row>, wheres: seq<string>, fetched: seq<seq<BulkScan.Page<Row>>>) {
    && |fetched| == |wheres|
    && forall c | 0 <= c < |wheres| :: HoldsSelection(srv, table, wheres[c], fetched[c])
  }

  ghost predicate HoldsSelection(srv: Server, table: seq<Row>, where: string, pages: seq<BulkScan.Page<Row>>) {
    multiset(BulkScan.Rows(pages)) == multiset(Select(srv, table, where))
  }

  lemma FirstCopies(fetched: seq<seq<BulkScan.Page<Row>>>, row: Row)
    requires |fetched| > 0
    ensures BulkScan.AllFetched(fetched)[row] ==
            multiset(BulkScan.Rows(fetched[0]))[row] + BulkScan.AllFetched(fetched[1..])[row]
  {
  }

  /** Copies of a row over all chunks: copies in the table times chunks selecting it. */
  lemma {:induction false} FetchedMultiplicity(srv: Server, table: seq<Row>, wheres: seq<string>,
                                               fetched: seq<seq<BulkScan.Page<Row>>>, row: Row)
    requires Holding(srv, table, wheres, fetched)
    ensures BulkScan.AllFetched(fetched)[row] == Selecting(srv, wheres, row) * multiset(table)[row]
    decreases |wheres|
  {
    if |wheres| == 0 {
      assert BulkScan.AllFetched(fetched) == multiset{};
    } else {
      HoldingParts(srv, table, wheres, fetched);
      FetchedMultiplicity(srv, table, wheres[1..], fetched[1..], row);
      FirstMultiplicity(srv, table, wheres[0], fetched[0], row);
      FirstCopies(fetched, row);
      var copies, selected, k := multiset(table)[row], Returns(srv, wheres[0], row), Selecting(srv, wheres[1..], row);
      OneMore(selected, k, copies);
      assert Selecting(srv, wheres, row) == (if selected then 1 else 0) + k;
      assert BulkScan.AllFetched(fetched)[row] == (if selected then copies else 0) + k * copies;
    }
  }

  lemma HoldingParts(srv: Server, table: seq<Row>, wheres: seq<string>, fetched: seq<seq<BulkScan.Page<Row>>>)
    requires Holding(srv, table, wheres, fetched) && |wheres| > 0
    ensures HoldsSelection(srv, table, wheres[0], fetched[0]) && Holding(srv, table, wheres[1..], fetched[1..])
  {
    forall c | 0 <= c < |wheres| - 1 ensures HoldsSelection(srv, table, wheres[1..][c], fetched[1..][c]) {
      assert HoldsSelection(srv, table, wheres[c + 1], fetched[c + 1]);
    }
  }

  lemma FirstMultiplicity(srv: Server, table: seq<Row>, where: string, pages: seq<BulkScan.Page<Row>>, row: Row)
    requires HoldsSelection(srv, table, where, pages)
    ensures multiset(BulkScan.Rows(pages))[row] == if Returns(srv, where, row) then multiset(table)[row] else 0
  {
    SelectMultiplicity(srv, table, where, row);
  }

  lemma OneMore(selected: bool, k: nat, m: nat)
    ensures ((if selected then 1 else 0) + k) * m == (if selected then m else 0) + k * m
  {
  }

  // ----- The answer ---------------------------------------------------------

  /** Copies of a row that survive the residual filters. */
  ghost function Kept(eng: Engine, cols: Columns, filters: seq<Expr>, rows: multiset<Row>, row: Row): nat {
    if AllTrue(eng, cols, filters, row) then rows[row] else 0
  }

  /** Each row is emitted once per copy in the object and chunk that selects it. */
  lemma ScanEmitsPerChunk(srv: Server, table: seq<Row>, objectName: string, fields: seq<string>, wheres: seq<string>,
                          jobs: BulkScan.Jobs<Row>, workers: nat, schedule: seq<nat>, row: Row)
    requires ValidTarget(objectName, fields)
    requires Serves(srv, table, jobs, ChunkSoqls(objectName, fields, wheres))
    requires workers > 0 && forall t :: t in schedule ==> t < workers
    requires BulkScan.AllReportedZero(BulkScan.Run(jobs, BulkScan.Init(jobs, workers), schedule))
    ensures BulkScan.Run(jobs, BulkScan.Init(jobs, workers), schedule).emitted[row] ==
            Selecting(srv, wheres, row) * multiset(table)[row]
  {
    var s := BulkScan.Run(jobs, BulkScan.Init(jobs, workers), schedule);
    BulkScan.ParallelScanComplete(jobs, workers, schedule);
    forall c | 0 <= c < |wheres| ensures HoldsSelection(srv, table, wheres[c], s.fetched[c]) {
      assert BulkScan.CompleteChain(jobs, c, s.fetched[c]);
      StatementRoundTrip(Statement(fields, objectName, wheres[c]));
    }
    FetchedMultiplicity(srv, table, wheres, s.fetched, row);
  }

  /** Copies of a row on which all filters are TRUE and which the user's own predicate selects. */
  ghost function Wanted(srv: Server, eng: Engine, cols: Columns, filters: seq<Expr>, raw: string,
                        rows: multiset<Row>, row: Row): nat {
    if Returns(srv, raw, row) then Kept(eng, cols, filters, rows, row) else 0
  }

  /** The parallel scan emits exactly the rows the pushed WHERE selects, each as often as the object holds it. */
  lemma ScanEmitsSelection(srv: Server, table: seq<Row>, objectName: string, fields: seq<string>,
                           pushed: string, requested: int, probe: Probe,
                           jobs: BulkScan.Jobs<Row>, workers: nat, schedule: seq<nat>, row: Row)
    requires IdsOrderedLexically(srv) && HasIds(table) && ProbeHolds(srv, table, pushed, probe)
    requires ChunksPartition(requested, probe) && exists items :: Spells(pushed, items)
    requires ValidTarget(objectName, fields)
    requires Serves(srv, table, jobs, ChunkSoqls(objectName, fields, ChunkWheres(pushed, requested, probe)))
    requires workers > 0 && forall t :: t in schedule ==> t < workers
    requires BulkScan.AllReportedZero(BulkScan.Run(jobs, BulkScan.Init(jobs, workers), schedule))
    ensures var s := BulkScan.Run(jobs, BulkScan.Init(jobs, workers), schedule);
            s.emitted[row] == if Returns(srv, pushed, row) then multiset(table)[row] else 0
  {
    var wheres := ChunkWheres(pushed, requested, probe);
    ScanEmitsPerChunk(srv, table, objectName, fields, wheres, jobs, workers, schedule, row);
    if row in table {
      ExactlyOneChunk(srv, table, pushed, requested, probe, row);
    } else {
      assert multiset(table)[row] == 0;
    }
  }

  /**
   With the MIN/MAX probe's maximum the Id of a selected row, as MAX(Id) is: the scan emits exactly
   the selected rows if and only if the chunks partition. Otherwise every run loses that row.
   */
  lemma ScanEmitsSelectionIff(srv: Server, table: seq<Row>, objectName: string, fields: seq<string>,
                              pushed: string, requested: int, probe: Probe,
                              jobs: BulkScan.Jobs<Row>, workers: nat, schedule: seq<nat>)
    requires IdsOrderedLexically(srv) && HasIds(table)
    requires ProbeHolds(srv, table, pushed, probe) && ProbeAttained(srv, table, pushed, probe)
    requires ValidTarget(objectName, fields) && exists items :: Spells(pushed, items)
    requires Serves(srv, table, jobs, ChunkSoqls(objectName, fields, ChunkWheres(pushed, requested, probe)))
    requires workers > 0 && forall t :: t in schedule ==> t < workers
    requires BulkScan.AllReportedZero(BulkScan.Run(jobs, BulkScan.Init(jobs, workers), schedule))
    ensures var s := BulkScan.Run(jobs, BulkScan.Init(jobs, workers), schedule);
            (forall row :: s.emitted[row] == if Returns(srv, pushed, row) then multiset(table)[row] else 0) <==>
            ChunksPartition(requested, probe)
  {
    var s := BulkScan.Run(jobs, BulkScan.Init(jobs, workers), schedule);
    if ChunksPartition(requested, probe) {
      forall row ensures s.emitted[row] == if Returns(srv, pushed, row) then multiset(table)[row] else 0 {
        ScanEmitsSelection(srv, table, objectName, fields, pushed, requested, probe, jobs, workers, schedule, row);
      }
    } else {
      var row :| row in table && Returns(srv, pushed, row) && Cell(row, "Id") == Varchar(probe.max);
      var wheres := ChunkWheres(pushed, requested, probe);
      ScanEmitsPerChunk(srv, table, objectName, fields, wheres, jobs, workers, schedule, row);
      MaximumInNoChunk(srv, table, pushed, requested, probe, row);
      assert s.emitted[row] == 0 && multiset(table)[row] > 0;
    }
  }

  /**
   The answer is unchanged: for every filter list, every sequence of hook calls, every
   chunk count, every number of threads and every interleaving, the rows emitted and then
   filtered locally are the rows of the object on which all original filters are TRUE,
   each as often as the object holds it.
   */
  lemma BulkScanAnswersQuery(srv: Server, eng: Engine, cols: Columns, filters: seq<Expr>, presented: seq<bool>,
                             table: seq<Row>, objectName: string, fields: seq<string>, requested: int, probe: Probe,
                             jobs: BulkScan.Jobs<Row>, workers: nat, schedule: seq<nat>, row: Row)
    requires Faithful(srv, eng) && IdsOrderedLexically(srv)
    requires ValidColumns(cols) && AllWellFormed(filters) && DroppedAreNullSafe(srv, filters, cols)
    requires Calls(FRESH_BIND, filters, presented, cols).Called?
    requires HasIds(table) && forall r :: r in table ==> TypedRow(filters, cols, r)
    requires ProbeHolds(srv, table, Calls(FRESH_BIND, filters, presented, cols).state.where, probe)
    requires ChunksPartition(requested, probe)
    requires ValidTarget(objectName, fields)
    requires Serves(srv, table, jobs, ChunkSoqls(objectName, fields,
                    ChunkWheres(Calls(FRESH_BIND, filters, presented, cols).state.where, requested, probe)))
    requires workers > 0 && forall t :: t in schedule ==> t < workers
    requires BulkScan.AllReportedZero(BulkScan.Run(jobs, BulkScan.Init(jobs, workers), schedule))
    ensures Kept(eng, cols, Calls(FRESH_BIND, filters, presented, cols).remaining,
                 BulkScan.Run(jobs, BulkScan.Init(jobs, workers), schedule).emitted, row) ==
            Kept(eng, cols, filters, multiset(table), row)
  {
    var hook := Calls(FRESH_BIND, filters, presented, cols);
    HookKeepsMeaning(srv, eng, cols, filters, presented);
    ScanEmitsSelection(srv, table, objectName, fields, hook.state.where, requested, probe,
                       jobs, workers, schedule, row);
    if row in table {
      assert TypedRow(filters, cols, row);
    } else {
      assert multiset(table)[row] == 0;
    }
  }

  /**
   With a predicate of the user's own, which the chunks are built without: the Bulk answer is the
   rows that satisfy the filters and the predicate if and only if the predicate rejects no row that
   the pushed WHERE selects and the residual filters keep.
   */
  lemma BulkPredicateIff(srv: Server, eng: Engine, cols: Columns, filters: seq<Expr>, presented: seq<bool>,
                         raw: string,
                         table: seq<Row>, objectName: string, fields: seq<string>, requested: int, probe: Probe,
                         jobs: BulkScan.Jobs<Row>, workers: nat, schedule: seq<nat>)
    requires Faithful(srv, eng) && IdsOrderedLexically(srv)
    requires ValidColumns(cols) && AllWellFormed(filters) && DroppedAreNullSafe(srv, filters, cols)
    requires Calls(FRESH_BIND, filters, presented, cols).Called?
    requires HasIds(table) && forall r :: r in table ==> TypedRow(filters, cols, r)
    requires ProbeHolds(srv, table, Calls(FRESH_BIND, filters, presented, cols).state.where, probe)
    requires ChunksPartition(requested, probe)
    requires ValidTarget(objectName, fields)
    requires Serves(srv, table, jobs, ChunkSoqls(objectName, fields,
                    ChunkWheres(Calls(FRESH_BIND, filters, presented, cols).state.where, requested, probe)))
    requires workers > 0 && forall t :: t in schedule ==> t < workers
    requires BulkScan.AllReportedZero(BulkScan.Run(jobs, BulkScan.Init(jobs, workers), schedule))
    ensures var hook := Calls(FRESH_BIND, filters, presented, cols);
            var s := BulkScan.Run(jobs, BulkScan.Init(jobs, workers), schedule);
            (forall row :: Kept(eng, cols, hook.remaining, s.emitted, row) ==
                           Wanted(srv, eng, cols, filters, raw, multiset(table), row)) <==>
            forall row | && row in table && Returns(srv, hook.state.where, row)
                         && AllTrue(eng, cols, hook.remaining, row) ::
              Returns(srv, raw, row)
  {
    var hook := Calls(FRESH_BIND, filters, presented, cols);
    var s := BulkScan.Run(jobs, BulkScan.Init(jobs, workers), schedule);
    HookKeepsMeaning(srv, eng, cols, filters, presented);
    forall row
      ensures Kept(eng, cols, hook.remaining, s.emitted, row) == Kept(eng, cols, filters, multiset(table), row)
    {
      BulkScanAnswersQuery(srv, eng, cols, filters, presented, table, objectName, fields, requested, probe,
                           jobs, workers, schedule, row);
    }
    forall row | row in table
      ensures AllTrue(eng, cols, filters, row) <==>
              Returns(srv, hook.state.where, row) && AllTrue(eng, cols, hook.remaining, row)
    {
      assert TypedRow(filters, cols, row);
    }
    if row :| row in table && AllTrue(eng, cols, filters, row) && !Returns(srv, raw, row) {
      assert Kept(eng, cols, hook.remaining, s.emitted, row) > 0;
      assert Wanted(srv, eng, cols, filters, raw, multiset(table), row) == 0;
    }
  }

  /** Following the pages of a query path to the end delivers the rows its statement selects. */
  ghost predicate ServesPages(srv: Server, table: seq<Row>, objectName: string, version: string, queryAll: bool,
                              fetch: string -> LazyScan.Reply<Row>) {
    forall path | AsksFor(version, queryAll, path, objectName).Some? ::
      DeliversSelection(srv, table, fetch, path, AsksFor(version, queryAll, path, objectName).value.where)
  }

  /** The statement a path asks for, if it is one over the object. */
  function AsksFor(version: string, queryAll: bool, path: string, objectName: string): Option<Statement> {
    match ReadPath(version, queryAll, path)
    case None => None
    case Some(soql) =>
      var q := ReadStatement(soql);
      if q.Some? && q.value.objectName == objectName then q else None
  }

  ghost predicate DeliversSelection(srv: Server, table: seq<Row>, fetch: string -> LazyScan.Reply<Row>,
                                    path: string, where: string) {
    var all := LazyScan.Deliver(fetch, path, {}, 0);
    all.error.None? ==> multiset(all.records) == multiset(Select(srv, table, where))
  }

  /** The statement of the REST scan: the pushed WHERE joined with the user's own predicate. */
  function RestSoql(objectName: string, fields: seq<string>, pushed: string, raw: string): string {
    PrintStatement(Statement(fields, objectName, CombinedWhere(pushed, raw)))
  }

  /** The path of a statement asks for that statement. */
  lemma AsksForStatement(version: string, queryAll: bool, objectName: string, fields: seq<string>, where: string)
    requires ValidTarget(objectName, fields) && IsBytes(PrintStatement(Statement(fields, objectName, where)))
    ensures var q := Statement(fields, objectName, where);
            AsksFor(version, queryAll, QueryPath(version, queryAll, PrintStatement(q)), objectName) == Some(q)
  {
    PathRoundTrip(version, queryAll, PrintStatement(Statement(fields, objectName, where)));
    StatementRoundTrip(Statement(fields, objectName, where));
  }

  /**
   The REST path: once the lazy scan has been called to its end, the rows it emitted and the
   residual filters then kept are the rows on which all original filters are TRUE and which the
   user's own predicate, if there is one, selects.
   */
  lemma RestScanAnswersQuery(srv: Server, eng: Engine, cols: Columns, filters: seq<Expr>, presented: seq<bool>,
                             raw: string, own: seq<Predicate>,
                             table: seq<Row>, objectName: string, fields: seq<string>, version: string, queryAll: bool,
                             fetch: string -> LazyScan.Reply<Row>, calls: nat, row: Row)
    requires Faithful(srv, eng)
    requires ValidColumns(cols) && AllWellFormed(filters) && DroppedAreNullSafe(srv, filters, cols)
    requires Calls(FRESH_BIND, filters, presented, cols).Called? && Writes(raw, And, own)
    requires forall r :: r in table ==> TypedRow(filters, cols, r)
    requires ValidTarget(objectName, fields) && ServesPages(srv, table, objectName, version, queryAll, fetch)
    requires IsBytes(RestSoql(objectName, fields, Calls(FRESH_BIND, filters, presented, cols).state.where, raw))
    requires var soql := RestSoql(objectName, fields, Calls(FRESH_BIND, filters, presented, cols).state.where, raw);
             LazyScan.Scan(fetch, LazyScan.Start(QueryPath(version, queryAll, soql)), calls).Finished?
    ensures var hook := Calls(FRESH_BIND, filters, presented, cols);
            var path := QueryPath(version, queryAll, RestSoql(objectName, fields, hook.state.where, raw));
            Kept(eng, cols, hook.remaining, multiset(LazyScan.Scan(fetch, LazyScan.Start(path), calls).emitted), row) ==
            Wanted(srv, eng, cols, filters, raw, multiset(table), row)
  {
    var hook := Calls(FRESH_BIND, filters, presented, cols);
    var where := CombinedWhere(hook.state.where, raw);
    var soql := RestSoql(objectName, fields, hook.state.where, raw);
    var path := QueryPath(version, queryAll, soql);
    HookKeepsMeaning(srv, eng, cols, filters, presented);
    AsksForStatement(version, queryAll, objectName, fields, where);
    LazyScan.LazyRefinesEager(fetch, path, calls);
    SelectMultiplicity(srv, table, where, row);
    var items :| Spells(hook.state.where, items);
    ConjunctionJoins(srv, hook.state.where, items, raw, own, row);
    if row in table {
      assert TypedRow(filters, cols, row);
    } else {
      assert multiset(table)[row] == 0;
    }
  }

  // ----- The assumptions can be met -------------------------------------------

  function TextOrder(a: Value, b: Value): int {
    if a.Varchar? && b.Varchar? then (if LexLess(a.text, b.text) then -1 else if LexLess(b.text, a.text) then 1 else 0)
    else 0
  }

  function TextCompare(op: CompareOp, v: Value, l: Literal): bool {
    match l
    case NullLit => (op == Eq && v.Null?) || (op == Ne && !v.Null?)
    case StringLit(s) => !v.Null? && Holds(op, TextOrder(v, Varchar(s)))
    case BareLit(_) => !v.Null? && Holds(op, 0)
  }

  /** An engine and a server that satisfy every assumption on filters and Ids together. */
  lemma AssumptionsAreConsistent() returns (srv: Server, eng: Engine)
    ensures Faithful(srv, eng) && NullOrderingSelectsNothing(srv) && IdsOrderedLexically(srv)
  {
    eng := Engine((a, b) => TextOrder(a, b), (e, row) => Null, (e, row) => Unknown);
    srv := Server((f, op, v, l) => TextCompare(op, v, l), (f, v, ls) => true, (f, v, p) => true);
    forall a, b ensures eng.order(a, b) < 0 <==> eng.order(b, a) > 0 {
      if a.Varchar? && b.Varchar? { LexTrichotomy(a.text, b.text); }
    }
    forall op, a: string, b: string
      ensures srv.compare("Id", op, Varchar(a), StringLit(b)) <==> HoldsLexically(op, a, b)
    {
      LexTrichotomy(a, b);
    }
    forall f, op, v: Value, c: Value, l | Denotes(l, c)
      ensures srv.compare(f, op, v, l) <==> !v.Null? && Holds(op, eng.order(v, c))
    {
    }
  }

  function OnePage(srv: Server, table: seq<Row>, wheres: seq<string>, c: nat): BulkScan.Page<Row> {
    BulkScan.Page(if c < |wheres| then Select(srv, table, wheres[c]) else [], "")
  }

  /** Jobs of one page each, holding what the chunk's WHERE selects. */
  function OnePageJobs(srv: Server, table: seq<Row>, wheres: seq<string>): BulkScan.Jobs<Row> {
    BulkScan.Jobs(|wheres|, c => true, (c: nat, locator: string) => BulkScan.Got(OnePage(srv, table, wheres, c)))
  }

  function OnePageChains(srv: Server, table: seq<Row>, wheres: seq<string>): (chains: seq<seq<BulkScan.Page<Row>>>)
    ensures |chains| == |wheres|
    ensures forall c | 0 <= c < |wheres| :: chains[c] == [OnePage(srv, table, wheres, c)]
  {
    seq(|wheres|, c requires 0 <= c < |wheres| => [OnePage(srv, table, wheres, c)])
  }

  lemma {:induction false} OnePageEach(chains: seq<seq<BulkScan.Page<Row>>>)
    requires forall c | 0 <= c < |chains| :: |chains[c]| == 1
    ensures TotalPages(chains) == |chains|
  {
    if |chains| > 0 { OnePageEach(chains[1..]); }
  }

  /** For any object, WHERE and chunk count and any number of threads: jobs that serve it and a run to its end. */
  lemma ServedRunExists(srv: Server, table: seq<Row>, pushed: string, requested: int, probe: Probe, workers: nat,
                        objectName: string, fields: seq<string>)
    returns (jobs: BulkScan.Jobs<Row>, schedule: seq<nat>)
    requires ValidTarget(objectName, fields)
    ensures Serves(srv, table, jobs, ChunkSoqls(objectName, fields, ChunkWheres(pushed, requested, probe)))
    ensures forall t :: t in schedule ==> t < workers
    ensures BulkScan.AllReportedZero(BulkScan.Run(jobs, BulkScan.Init(jobs, workers), schedule))
  {
    var wheres := ChunkWheres(pushed, requested, probe);
    FewChunks(pushed, requested, probe);
    jobs := OnePageJobs(srv, table, wheres);
    OnePageJobsAreHealthy(srv, table, wheres);
    schedule := HealthyScansCanFinish(jobs, OnePageChains(srv, table, wheres), workers, []);
    assert [] + schedule == schedule;
    OnePageJobsServe(srv, table, wheres, objectName, fields);
  }

  lemma OnePageJobsAreHealthy(srv: Server, table: seq<Row>, wheres: seq<string>)
    requires |wheres| <= 1_000_000
    ensures Healthy(OnePageJobs(srv, table, wheres), OnePageChains(srv, table, wheres))
  {
    var jobs, chains := OnePageJobs(srv, table, wheres), OnePageChains(srv, table, wheres);
    OnePageEach(chains);
    forall c | 0 <= c < |chains| ensures HealthyChunk(jobs, c, chains[c]) {
      assert jobs.fetch(c, "") == BulkScan.Got(chains[c][0]);
    }
  }

  lemma OnePageJobsServe(srv: Server, table: seq<Row>, wheres: seq<string>, objectName: string, fields: seq<string>)
    requires ValidTarget(objectName, fields) && |wheres| <= 1_000_000
    ensures Serves(srv, table, OnePageJobs(srv, table, wheres), ChunkSoqls(objectName, fields, wheres))
  {
    var jobs, chains := OnePageJobs(srv, table, wheres), OnePageChains(srv, table, wheres);
    var soqls := ChunkSoqls(objectName, fields, wheres);
    OnePageJobsAreHealthy(srv, table, wheres);
    forall c, pages | 0 <= c < |soqls| && BulkScan.CompleteChain(jobs, c, pages)
      ensures ReadStatement(soqls[c]) == Some(Statement(fields, objectName, wheres[c]))
      ensures BulkScan.Rows(pages) == Select(srv, table, wheres[c])
    {
      StatementRoundTrip(Statement(fields, objectName, wheres[c]));
      assert HealthyChunk(jobs, c, chains[c]);
      BulkScan.CompleteChainUnique(jobs, c, pages, chains[c]);
      assert chains[c][1..] == [];
    }
  }

  lemma FewChunks(pushed: string, requested: int, probe: Probe)
    ensures |ChunkWheres(pushed, requested, probe)| <= 9
  {
    var n := ClampChunks(requested);
    if n > 1 && probe.Probed? { FewRanges(Boundaries(probe.min, probe.max, n), 0); }
  }

  lemma {:induction false} FewRanges(bs: seq<string>, i: nat)
    requires |bs| >= 2 && i <= |bs|
    ensures |RangesFrom(bs, i)| <= |bs| - i
    decreases |bs| - i
  {
    if i + 1 < |bs| { FewRanges(bs, i + 1); }
  }

  /**
   A whole Bulk run under the user's predicate `Name = null`, over one row that has a name: every
   requirement of the theorems is met, and the row the predicate rejects is in the answer.
   */
  lemma BulkPredicateExample(id: string, name: string)
    returns (srv: Server, eng: Engine, row: Row, jobs: BulkScan.Jobs<Row>, schedule: seq<nat>)
    ensures row == Row(map["Id" := Varchar(id), "Name" := Varchar(name)])
    ensures Faithful(srv, eng) && IdsOrderedLexically(srv) && ValidTarget("Account", ["Id", "Name"])
    ensures Serves(srv, [row], jobs, ChunkSoqls("Account", ["Id", "Name"], ChunkWheres("", 1, NoProbe)))
    ensures forall t :: t in schedule ==> t < 1
    ensures BulkScan.AllReportedZero(BulkScan.Run(jobs, BulkScan.Init(jobs, 1), schedule))
    ensures !Returns(srv, "Name = null", row)
    ensures BulkScan.Run(jobs, BulkScan.Init(jobs, 1), schedule).emitted[row] == 1
  {
    srv, eng := AssumptionsAreConsistent();
    row := Row(map["Id" := Varchar(id), "Name" := Varchar(name)]);
    var cols := Columns([], []);
    PlainTarget();
    jobs, schedule := ServedRunExists(srv, [row], "", 1, NoProbe, 1, "Account", ["Id", "Name"]);
    assert Calls(FRESH_BIND, [], [], cols) == Called(FRESH_BIND, []);
    BulkScanAnswersQuery(srv, eng, cols, [], [], [row], "Account", ["Id", "Name"], 1, NoProbe, jobs, 1, schedule, row);
    assert Kept(eng, cols, [], multiset([row]), row) == 1;
    NamedRowRejected(srv, row);
  }

  lemma PlainTarget()
    ensures ValidTarget("Account", ["Id", "Name"])
  {
    assert ValidName("Id") && ValidName("Name") && ValidName("Account");
  }
}
