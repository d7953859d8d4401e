/**
 The Bulk path down to the bytes: result pages arrive as CSV text, are parsed, and each row is
 decoded by the header into the projected columns. The tuples a parallel scan hands to DuckDB are
 those of the rows the query asks for, each as often as there is such a row.
 */
module BulkText {
  import opened Describe
  import opened BulkDecode
  import opened SoqlStatement
  import opened SoqlPushdown
  import opened SoqlMeaning
  import opened PushdownHook
  import opened ScanAnswer
  import Csv
  import BulkScan

  // ----- Pages ----------------------------------------------------------------

  /** A response: its body, and its Sforce-Locator header. */
  datatype Response = HttpError | Body(text: string, locator: string)

  datatype TextJobs = TextJobs(chunks: nat, starts: nat -> bool, fetch: (nat, string) -> Response)

  /** SalesforceBulkPage. */
  datatype CsvPage = CsvPage(columns: seq<string>, rows: seq<seq<string>>, next: string)

  function PageOf(text: string, locator: string): CsvPage {
    var table := Csv.Read(text, Csv.FRESH);
    var next := if locator == "null" then "" else locator;
    if table == [] then CsvPage([], [], next) else CsvPage(table[0], table[1..], next)
  }

  /** Row 0 is the header, the others are the page's rows; the locator "null" means no next page. */
  method BulkFetchResultPage(text: string, locator: string) returns (page: CsvPage)
    ensures page == PageOf(text, locator)
  {
    var rows := Csv.Parse(text);
    var columns: seq<string>, body: seq<seq<string>> := [], [];
    if rows != [] {
      columns := rows[0];
      for r := 1 to |rows|
        invariant body == rows[1..r]
      {
        body := body + [rows[r]];
      }
      assert rows[1..|rows|] == rows[1..];
    }
    return CsvPage(columns, body, if locator != "null" then locator else "");
  }

  // ----- Tuples ---------------------------------------------------------------

  type Tuple = seq<Decoded>

  /** The scan's fields, the projected columns, and the header the thread keeps. */
  datatype Layout = Layout(fields: seq<Field>, columnIds: seq<nat>, header: seq<string>)

  function DecodeRow(l: Layout, cells: seq<string>): (t: Tuple)
    ensures |t| == |l.columnIds|
    ensures forall j | 0 <= j < |t| :: t[j] == DecodeColumn(l.fields, l.columnIds[j], cells, l.header)
  {
    seq(|l.columnIds|, j requires 0 <= j < |l.columnIds| => DecodeColumn(l.fields, l.columnIds[j], cells, l.header))
  }

  function DecodeRows(l: Layout, rows: seq<seq<string>>): (ts: seq<Tuple>)
    ensures |ts| == |rows| && forall i | 0 <= i < |rows| :: ts[i] == DecodeRow(l, rows[i])
  {
    seq(|rows|, i requires 0 <= i < |rows| => DecodeRow(l, rows[i]))
  }

  /** The tuple of a record itself. */
  function AssembleRow(l: Layout, r: Record): (t: Tuple)
    ensures |t| == |l.columnIds|
    ensures forall j | 0 <= j < |t| :: t[j] == AssembleColumn(l.fields, l.columnIds[j], r)
  {
    seq(|l.columnIds|, j requires 0 <= j < |l.columnIds| => AssembleColumn(l.fields, l.columnIds[j], r))
  }

  function TupleOf(l: Layout, render: Row -> Record, row: Row): Tuple {
    AssembleRow(l, render(row))
  }

  function TuplesOf(l: Layout, render: Row -> Record, rows: seq<Row>): (ts: seq<Tuple>)
    ensures |ts| == |rows| && forall i | 0 <= i < |rows| :: ts[i] == TupleOf(l, render, rows[i])
  {
    seq(|rows|, i requires 0 <= i < |rows| => TupleOf(l, render, rows[i]))
  }

  /** What a reply becomes once its text is parsed and decoded. */
  function DecodeReply(l: Layout, reply: Response): BulkScan.Reply<Tuple> {
    match reply
    case HttpError => BulkScan.HttpError
    case Body(text, locator) =>
      var page := PageOf(text, locator);
      BulkScan.Got(BulkScan.Page(DecodeRows(l, page.rows), page.next))
  }

  function DecodedJobs(l: Layout, jobs: TextJobs): BulkScan.Jobs<Tuple> {
    BulkScan.Jobs(jobs.chunks, jobs.starts, (c, locator) => DecodeReply(l, jobs.fetch(c, locator)))
  }

  // ----- What the server prints -------------------------------------------------

  /** The header has every path the scan selects. */
  predicate HeaderCovers(l: Layout) {
    forall j | 0 <= j < |l.columnIds| :: Covers(l.header, SelectPaths(l.fields, l.columnIds[j]))
  }

  lemma SelectedIsCovered(l: Layout)
    requires Covers(l.header, SelectList(l.fields, l.columnIds))
    ensures HeaderCovers(l)
  {
    forall j | 0 <= j < |l.columnIds| ensures Covers(l.header, SelectPaths(l.fields, l.columnIds[j])) {
      ListCovers(l.header, l.fields, l.columnIds, j);
    }
  }

  /** The lines are the header and the rows' records, in any legal quoting and with any line ends. */
  ghost predicate Lines(l: Layout, render: Row -> Record, rows: seq<Row>, lines: seq<Csv.Line>) {
    && Csv.LegalLines(lines) && |lines| == |rows| + 1
    && Csv.Texts(lines[0].cells) == l.header
    && forall i | 0 <= i < |rows| :: RowOf(render(rows[i]), l.header, Csv.Texts(lines[i + 1].cells))
  }

  ghost predicate PrintsPage(l: Layout, render: Row -> Record, page: BulkScan.Page<Row>, text: string,
                             locator: string) {
    && page.next == (if locator == "null" then "" else locator)
    && exists lines: seq<Csv.Line> :: Lines(l, render, page.rows, lines) && text == Csv.PrintLines(lines)
  }

  ghost predicate PrintsReply(l: Layout, render: Row -> Record, reply: BulkScan.Reply<Row>, response: Response) {
    match reply
    case HttpError => response.HttpError?
    case Got(page) => response.Body? && PrintsPage(l, render, page, response.text, response.locator)
  }

  /** The responses are the pages of `rows`, printed under one header. */
  ghost predicate Prints(l: Layout, render: Row -> Record, rows: BulkScan.Jobs<Row>, jobs: TextJobs) {
    && jobs.chunks == rows.chunks
    && forall c, locator :: PrintsReply(l, render, rows.fetch(c, locator), jobs.fetch(c, locator))
  }

  // ----- A page is read back ----------------------------------------------------

  lemma RowDecodes(l: Layout, r: Record, cells: seq<string>)
    requires HeaderCovers(l) && RowOf(r, l.header, cells)
    ensures DecodeRow(l, cells) == AssembleRow(l, r)
  {
    forall j | 0 <= j < |l.columnIds| ensures DecodeRow(l, cells)[j] == AssembleRow(l, r)[j] {
      SelectAndDecodeAgree(l.fields, l.columnIds[j], r, l.header, cells);
    }
  }

  /** From the text of a page to its decoded columns. */
  lemma PageDecodes(l: Layout, render: Row -> Record, page: BulkScan.Page<Row>, text: string, locator: string)
    requires HeaderCovers(l) && PrintsPage(l, render, page, text, locator)
    ensures PageOf(text, locator).columns == l.header
    ensures DecodeReply(l, Body(text, locator)) ==
            BulkScan.Got(BulkScan.Page(TuplesOf(l, render, page.rows), page.next))
  {
    var lines: seq<Csv.Line> :| Lines(l, render, page.rows, lines) && text == Csv.PrintLines(lines);
    Csv.RoundTrip(lines);
    var table := Csv.Table(lines);
    var decoded := DecodeRows(l, table[1..]);
    forall i | 0 <= i < |page.rows| ensures decoded[i] == TuplesOf(l, render, page.rows)[i] {
      assert table[1..][i] == Csv.Texts(lines[i + 1].cells);
      RowDecodes(l, render(page.rows[i]), table[1..][i]);
    }
    assert decoded == TuplesOf(l, render, page.rows);
  }

  // ----- Chains -----------------------------------------------------------------

  function TuplePage(l: Layout, render: Row -> Record, page: BulkScan.Page<Row>): BulkScan.Page<Tuple> {
    BulkScan.Page(TuplesOf(l, render, page.rows), page.next)
  }

  function TuplePages(l: Layout, render: Row -> Record,
                      pages: seq<BulkScan.Page<Row>>): (ps: seq<BulkScan.Page<Tuple>>)
    ensures |ps| == |pages| && forall i | 0 <= i < |pages| :: ps[i] == TuplePage(l, render, pages[i])
  {
    seq(|pages|, i requires 0 <= i < |pages| => TuplePage(l, render, pages[i]))
  }

  lemma FetchDecodes(l: Layout, render: Row -> Record, rows: BulkScan.Jobs<Row>, jobs: TextJobs, c: nat,
                     locator: string)
    requires HeaderCovers(l) && Prints(l, render, rows, jobs)
    ensures DecodedJobs(l, jobs).fetch(c, locator).Got? <==> rows.fetch(c, locator).Got?
    ensures rows.fetch(c, locator).Got? ==>
              DecodedJobs(l, jobs).fetch(c, locator) == BulkScan.Got(TuplePage(l, render, rows.fetch(c, locator).page))
  {
    assert PrintsReply(l, render, rows.fetch(c, locator), jobs.fetch(c, locator));
    var reply, response := rows.fetch(c, locator), jobs.fetch(c, locator);
    if reply.Got? {
      PageDecodes(l, render, reply.page, response.text, response.locator);
    }
  }

  /** Every chain of decoded pages comes from a chain of pages of rows. */
  lemma {:induction false} ChainDecodes(l: Layout, render: Row -> Record, rows: BulkScan.Jobs<Row>, jobs: TextJobs,
                                        c: nat, decoded: seq<BulkScan.Page<Tuple>>)
    returns (pages: seq<BulkScan.Page<Row>>)
    requires HeaderCovers(l) && Prints(l, render, rows, jobs) && BulkScan.Chain(DecodedJobs(l, jobs), c, decoded)
    ensures BulkScan.Chain(rows, c, pages) && decoded == TuplePages(l, render, pages)
    decreases |decoded|
  {
    var n := |decoded|;
    if n == 0 {
      return [];
    }
    var before, last := decoded[..n - 1], decoded[n - 1];
    forall k | 0 <= k < |before| - 1 ensures BulkScan.Follows(DecodedJobs(l, jobs), c, before[k], before[k + 1]) {
      assert BulkScan.Follows(DecodedJobs(l, jobs), c, decoded[k], decoded[k + 1]);
    }
    var earlier := ChainDecodes(l, render, rows, jobs, c, before);
    var locator := if n == 1 then "" else before[n - 2].next;
    assert DecodedJobs(l, jobs).fetch(c, locator) == BulkScan.Got(last) by {
      if n > 1 { assert BulkScan.Follows(DecodedJobs(l, jobs), c, decoded[n - 2], decoded[n - 2 + 1]); }
    }
    FetchDecodes(l, render, rows, jobs, c, locator);
    var page := rows.fetch(c, locator).page;
    if n > 1 { assert BulkScan.Follows(DecodedJobs(l, jobs), c, decoded[n - 2], decoded[n - 2 + 1]); }
    BulkScan.ChainSnoc(rows, c, earlier, page);
    pages := earlier + [page];
    assert decoded == before + [last];
  }

  // ----- Counting tuples ----------------------------------------------------------

  /** How many of the rows have this tuple. */
  function CountTuple(l: Layout, render: Row -> Record, rows: seq<Row>, t: Tuple): nat {
    if |rows| == 0 then 0 else (if TupleOf(l, render, rows[0]) == t then 1 else 0) + CountTuple(l, render, rows[1..], t)
  }

  lemma {:induction false} CountIsMultiplicity(l: Layout, render: Row -> Record, rows: seq<Row>, t: Tuple)
    ensures multiset(TuplesOf(l, render, rows))[t] == CountTuple(l, render, rows, t)
  {
    if |rows| > 0 {
      CountIsMultiplicity(l, render, rows[1..], t);
      var ts := TuplesOf(l, render, rows);
      assert ts == [ts[0]] + TuplesOf(l, render, rows[1..]);
    }
  }

  lemma {:induction false} CountAppend(l: Layout, render: Row -> Record, a: seq<Row>, b: seq<Row>, t: Tuple)
    ensures CountTuple(l, render, a + b, t) == CountTuple(l, render, a, t) + CountTuple(l, render, b, t)
  {
    if |a| == 0 {
      assert a + b == b;
    } else {
      assert (a + b)[1..] == a[1..] + b;
      CountAppend(l, render, a[1..], b, t);
    }
  }

  /** The order of the rows does not matter. */
  lemma {:induction false} CountReordered(l: Layout, render: Row -> Record, a: seq<Row>, b: seq<Row>, t: Tuple)
    requires multiset(a) == multiset(b)
    ensures CountTuple(l, render, a, t) == CountTuple(l, render, b, t)
    decreases |a|
  {
    if |a| == 0 {
      assert |multiset(b)| == 0;
    } else {
      assert a[0] in multiset(b);
      var i :| 0 <= i < |b| && b[i] == a[0];
      var rest := b[..i] + b[i + 1..];
      TakeOut(a, 0);
      TakeOut(b, i);
      assert a[..0] + a[1..] == a[1..];
      BulkScan.Cancel(multiset(a[1..]), multiset(rest), multiset{a[0]});
      CountReordered(l, render, a[1..], rest, t);
      CountWithout(l, render, b, i, t);
    }
  }

  lemma TakeOut<T>(s: seq<T>, i: nat)
    requires i < |s|
    ensures multiset(s) == multiset(s[..i] + s[i + 1..]) + multiset{s[i]}
  {
    assert s == s[..i] + ([s[i]] + s[i + 1..]);
  }

  lemma CountWithout(l: Layout, render: Row -> Record, b: seq<Row>, i: nat, t: Tuple)
    requires i < |b|
    ensures CountTuple(l, render, b, t) ==
            (if TupleOf(l, render, b[i]) == t then 1 else 0) + CountTuple(l, render, b[..i] + b[i + 1..], t)
  {
    CountAppend(l, render, b[..i], b[i + 1..], t);
    CountAppend(l, render, b[..i], [b[i]] + b[i + 1..], t);
    assert b == b[..i] + ([b[i]] + b[i + 1..]);
    assert ([b[i]] + b[i + 1..])[1..] == b[i + 1..];
  }

  lemma {:induction false} RowsDecode(l: Layout, render: Row -> Record, pages: seq<BulkScan.Page<Row>>)
    ensures BulkScan.Rows(TuplePages(l, render, pages)) == TuplesOf(l, render, BulkScan.Rows(pages))
  {
    if |pages| > 0 {
      RowsDecode(l, render, pages[1..]);
      assert TuplePages(l, render, pages)[1..] == TuplePages(l, render, pages[1..]);
    }
  }

  /** How many tuples the chunks hold together, chunk by chunk. */
  function CountSelected(srv: Server, table: seq<Row>, l: Layout, render: Row -> Record, wheres: seq<string>,
                         t: Tuple): nat {
    if |wheres| == 0 then 0
    else CountTuple(l, render, Select(srv, table, wheres[0]), t) + CountSelected(srv, table, l, render, wheres[1..], t)
  }

  /** A chunk's decoded pages hold the tuples of the rows its WHERE selects. */
  ghost predicate HoldsTuples(srv: Server, table: seq<Row>, l: Layout, render: Row -> Record, where: string,
                              pages: seq<BulkScan.Page<Tuple>>) {
    forall t :: multiset(BulkScan.Rows(pages))[t] == CountTuple(l, render, Select(srv, table, where), t)
  }

  lemma {:induction false} FetchedTuples(srv: Server, table: seq<Row>, l: Layout, render: Row -> Record,
                                         wheres: seq<string>, fetched: seq<seq<BulkScan.Page<Tuple>>>, t: Tuple)
    requires |fetched| == |wheres|
    requires forall c | 0 <= c < |wheres| :: HoldsTuples(srv, table, l, render, wheres[c], fetched[c])
    ensures BulkScan.AllFetched(fetched)[t] == CountSelected(srv, table, l, render, wheres, t)
    decreases |wheres|
  {
    if |wheres| > 0 {
      assert HoldsTuples(srv, table, l, render, wheres[0], fetched[0]);
      forall c | 0 <= c < |wheres| - 1 ensures HoldsTuples(srv, table, l, render, wheres[1..][c], fetched[1..][c]) {
        assert HoldsTuples(srv, table, l, render, wheres[c + 1], fetched[c + 1]);
      }
      FetchedTuples(srv, table, l, render, wheres[1..], fetched[1..], t);
    }
  }

  /** One more row of the object adds its tuple once per chunk that selects it. */
  lemma {:induction false} CountOneRow(srv: Server, table: seq<Row>, l: Layout, render: Row -> Record,
                                       wheres: seq<string>, t: Tuple)
    requires |table| > 0
    ensures CountSelected(srv, table, l, render, wheres, t) ==
            (if TupleOf(l, render, table[0]) == t then Selecting(srv, wheres, table[0]) else 0) +
            CountSelected(srv, table[1..], l, render, wheres, t)
    decreases |wheres|
  {
    if |wheres| > 0 {
      CountOneRow(srv, table, l, render, wheres[1..], t);
      SelectOneRow(srv, table, l, render, wheres[0], t);
    }
  }

  lemma SelectOneRow(srv: Server, table: seq<Row>, l: Layout, render: Row -> Record, where: string, t: Tuple)
    requires |table| > 0
    ensures CountTuple(l, render, Select(srv, table, where), t) ==
            (if Returns(srv, where, table[0]) && TupleOf(l, render, table[0]) == t then 1 else 0) +
            CountTuple(l, render, Select(srv, table[1..], where), t)
  {
    var rest := Select(srv, table[1..], where);
    if Returns(srv, where, table[0]) {
      assert Select(srv, table, where)[1..] == rest;
    } else {
      assert Select(srv, table, where) == rest;
    }
  }

  /** Chunks that select each row exactly as often as `where` does hold what `where` selects. */
  lemma {:induction false} ChunksHold(srv: Server, table: seq<Row>, l: Layout, render: Row -> Record,
                                      wheres: seq<string>, where: string, t: Tuple)
    requires forall row :: row in table ==> Selecting(srv, wheres, row) == if Returns(srv, where, row) then 1 else 0
    ensures CountSelected(srv, table, l, render, wheres, t) == CountTuple(l, render, Select(srv, table, where), t)
    decreases |table|
  {
    if |table| == 0 {
      NothingSelected(srv, l, render, wheres, t);
    } else {
      ChunksHold(srv, table[1..], l, render, wheres, where, t);
      CountOneRow(srv, table, l, render, wheres, t);
      SelectOneRow(srv, table, l, render, where, t);
    }
  }

  lemma {:induction false} NothingSelected(srv: Server, l: Layout, render: Row -> Record, wheres: seq<string>,
                                           t: Tuple)
    ensures CountSelected(srv, [], l, render, wheres, t) == 0
    decreases |wheres|
  {
    if |wheres| > 0 { NothingSelected(srv, l, render, wheres[1..], t); }
  }

  // ----- The answer -------------------------------------------------------------

  lemma ChunkHoldsTuples(srv: Server, table: seq<Row>, l: Layout, render: Row -> Record,
                         rows: BulkScan.Jobs<Row>, jobs: TextJobs, soqls: seq<string>,
                         objectName: string, fields: seq<string>, where: string, c: nat,
                         decoded: seq<BulkScan.Page<Tuple>>)
    requires HeaderCovers(l) && Prints(l, render, rows, jobs) && Serves(srv, table, rows, soqls)
    requires ValidTarget(objectName, fields) && c < |soqls|
    requires soqls[c] == PrintStatement(Statement(fields, objectName, where))
    requires BulkScan.CompleteChain(DecodedJobs(l, jobs), c, decoded)
    ensures HoldsTuples(srv, table, l, render, where, decoded)
  {
    var pages := ChainDecodes(l, render, rows, jobs, c, decoded);
    assert BulkScan.CompleteChain(rows, c, pages);
    StatementRoundTrip(Statement(fields, objectName, where));
    RowsDecode(l, render, pages);
    forall t ensures multiset(BulkScan.Rows(decoded))[t] == CountTuple(l, render, Select(srv, table, where), t) {
      CountIsMultiplicity(l, render, BulkScan.Rows(pages), t);
      CountReordered(l, render, BulkScan.Rows(pages), Select(srv, table, where), t);
    }
  }

  /**
   From page texts to tuples: whatever the quoting, the line ends, the header's order and case, the
   number of threads and the interleaving, each tuple is emitted as often as the pushed WHERE
   selects a row that has it.
   */
  lemma TextScanEmitsSelection(srv: Server, table: seq<Row>, l: Layout, render: Row -> Record,
                               objectName: string, fields: seq<string>, pushed: string, requested: int, probe: Probe,
                               rows: BulkScan.Jobs<Row>, jobs: TextJobs, workers: nat, schedule: seq<nat>, t: Tuple)
    requires IdsOrderedLexically(srv) && HasIds(table) && ProbeHolds(srv, table, pushed, probe)
    requires ChunksPartition(requested, probe) && exists items :: Spells(pushed, items)
    requires ValidTarget(objectName, fields) && fields == SelectList(l.fields, l.columnIds)
    requires Covers(l.header, fields) && Prints(l, render, rows, jobs)
    requires Serves(srv, table, rows, ChunkSoqls(objectName, fields, ChunkWheres(pushed, requested, probe)))
    requires workers > 0 && forall w :: w in schedule ==> w < workers
    requires BulkScan.AllReportedZero(
               BulkScan.Run(DecodedJobs(l, jobs), BulkScan.Init(DecodedJobs(l, jobs), workers), schedule))
    ensures BulkScan.Run(DecodedJobs(l, jobs), BulkScan.Init(DecodedJobs(l, jobs), workers), schedule).emitted[t] ==
            CountTuple(l, render, Select(srv, table, pushed), t)
  {
    var decoding := DecodedJobs(l, jobs);
    var wheres := ChunkWheres(pushed, requested, probe);
    var soqls := ChunkSoqls(objectName, fields, wheres);
    var s := BulkScan.Run(decoding, BulkScan.Init(decoding, workers), schedule);
    SelectedIsCovered(l);
    BulkScan.ParallelScanComplete(decoding, workers, schedule);
    forall c | 0 <= c < |wheres| ensures HoldsTuples(srv, table, l, render, wheres[c], s.fetched[c]) {
      ChunkHoldsTuples(srv, table, l, render, rows, jobs, soqls, objectName, fields, wheres[c], c, s.fetched[c]);
    }
    FetchedTuples(srv, table, l, render, wheres, s.fetched, t);
    forall row | row in table
      ensures Selecting(srv, wheres, row) == if Returns(srv, pushed, row) then 1 else 0
    {
      ExactlyOneChunk(srv, table, pushed, requested, probe, row);
    }
    ChunksHold(srv, table, l, render, wheres, pushed, t);
  }

  /** The rows on which all filters are TRUE. */
  ghost function Answer(eng: Engine, cols: Columns, filters: seq<Expr>, table: seq<Row>): seq<Row> {
    if |table| == 0 then []
    else (if AllTrue(eng, cols, filters, table[0]) then [table[0]] else []) + Answer(eng, cols, filters, table[1..])
  }

  /** DuckDB evaluates the residual filters on tuples; it finds on a row's tuple what they are on the row. */
  ghost predicate SeesTuples(eng: Engine, cols: Columns, residual: seq<Expr>, l: Layout, render: Row -> Record,
                             table: seq<Row>, keeps: Tuple -> bool) {
    forall row :: row in table ==> (keeps(TupleOf(l, render, row)) <==> AllTrue(eng, cols, residual, row))
  }

  lemma {:induction false} KeptTuples(srv: Server, eng: Engine, cols: Columns, filters: seq<Expr>,
                                      residual: seq<Expr>,
                                      where: string, l: Layout, render: Row -> Record, table: seq<Row>,
                                      keeps: Tuple -> bool, t: Tuple)
    requires SeesTuples(eng, cols, residual, l, render, table, keeps)
    requires forall row :: row in table ==>
               (Returns(srv, where, row) && AllTrue(eng, cols, residual, row) <==> AllTrue(eng, cols, filters, row))
    ensures CountTuple(l, render, Answer(eng, cols, filters, table), t) ==
            if keeps(t) then CountTuple(l, render, Select(srv, table, where), t) else 0
    decreases |table|
  {
    if |table| > 0 {
      assert table[0] in table;
      KeptTuples(srv, eng, cols, filters, residual, where, l, render, table[1..], keeps, t);
      SelectOneRow(srv, table, l, render, where, t);
      AnswerOneRow(eng, cols, filters, l, render, table, t);
    }
  }

  lemma AnswerOneRow(eng: Engine, cols: Columns, filters: seq<Expr>, l: Layout, render: Row -> Record,
                     table: seq<Row>, t: Tuple)
    requires |table| > 0
    ensures CountTuple(l, render, Answer(eng, cols, filters, table), t) ==
            (if AllTrue(eng, cols, filters, table[0]) && TupleOf(l, render, table[0]) == t then 1 else 0) +
            CountTuple(l, render, Answer(eng, cols, filters, table[1..]), t)
  {
    var rest := Answer(eng, cols, filters, table[1..]);
    if AllTrue(eng, cols, filters, table[0]) {
      assert Answer(eng, cols, filters, table)[1..] == rest;
    } else {
      assert Answer(eng, cols, filters, table) == rest;
    }
  }

  /**
   The whole Bulk path, from the filters to the decoded columns: each tuple the residual filters keep
   is emitted as often as the object has a row with that tuple on which all original filters are TRUE,
   and no other tuple is kept.
   */
  lemma BulkTextAnswersQuery(srv: Server, eng: Engine, cols: Columns, filters: seq<Expr>, presented: seq<bool>,
                             table: seq<Row>, l: Layout, render: Row -> Record, keeps: Tuple -> bool,
                             objectName: string, fields: seq<string>, requested: int, probe: Probe,
                             rows: BulkScan.Jobs<Row>, jobs: TextJobs, workers: nat, schedule: seq<nat>, t: Tuple)
    requires Faithful(srv, eng) && IdsOrderedLexically(srv)
    requires ValidColumns(cols) && AllWellFormed(filters) && DroppedAreNullSafe(srv, filters, cols)
    requires Calls(FRESH_BIND, filters, presented, cols).Called?
    requires HasIds(table) && forall r :: r in table ==> TypedRow(filters, cols, r)
    requires ProbeHolds(srv, table, Calls(FRESH_BIND, filters, presented, cols).state.where, probe)
    requires ChunksPartition(requested, probe)
    requires ValidTarget(objectName, fields) && fields == SelectList(l.fields, l.columnIds)
    requires Covers(l.header, fields) && Prints(l, render, rows, jobs)
    requires Serves(srv, table, rows, ChunkSoqls(objectName, fields,
                    ChunkWheres(Calls(FRESH_BIND, filters, presented, cols).state.where, requested, probe)))
    requires SeesTuples(eng, cols, Calls(FRESH_BIND, filters, presented, cols).remaining, l, render, table, keeps)
    requires workers > 0 && forall w :: w in schedule ==> w < workers
    requires BulkScan.AllReportedZero(
               BulkScan.Run(DecodedJobs(l, jobs), BulkScan.Init(DecodedJobs(l, jobs), workers), schedule))
    ensures var s := BulkScan.Run(DecodedJobs(l, jobs), BulkScan.Init(DecodedJobs(l, jobs), workers), schedule);
            (if keeps(t) then s.emitted[t] else 0) == CountTuple(l, render, Answer(eng, cols, filters, table), t)
  {
    var hook := Calls(FRESH_BIND, filters, presented, cols);
    HookKeepsMeaning(srv, eng, cols, filters, presented);
    TextScanEmitsSelection(srv, table, l, render, objectName, fields, hook.state.where, requested, probe,
                           rows, jobs, workers, schedule, t);
    forall row | row in table
      ensures Returns(srv, hook.state.where, row) && AllTrue(eng, cols, hook.remaining, row) <==>
              AllTrue(eng, cols, filters, row)
    {
      assert TypedRow(filters, cols, row);
    }
    KeptTuples(srv, eng, cols, filters, hook.remaining, hook.state.where, l, render, table, keeps, t);
  }
}
