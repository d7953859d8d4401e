/**
 The REST scan fetches pages only when the rows it holds are used up; the eager query
 fetches them all at once. Over the same pages both deliver the same records in the
 same order and end in the same error, if any.
 */
module LazyScan {
  import opened Text

  const MAX_PAGES: nat := 1000000
  const VECTOR_SIZE: nat := 2048

  datatype Reply<T> = HttpError | Page(records: seq<T>, done: bool, next: string)

  datatype Error = FetchFailed | TooManyPages | LoopDetected

  /** The records delivered, and the error that ended the delivery. */
  datatype Stream<T> = Stream(records: seq<T>, error: Option<Error>)

  function Prepend<T>(records: seq<T>, s: Stream<T>): Stream<T> {
    Stream(records + s.records, s.error)
  }

  predicate IsLast<T>(p: Reply<T>)
    requires p.Page?
  {
    p.done || p.next == ""
  }

  /** Why the scan cannot go on after `count` pages and this one. */
  function Blocked<T>(p: Reply<T>, seen: set<string>, count: nat): Option<Error>
    requires p.Page?
  {
    if IsLast(p) then None
    else if count + 1 >= MAX_PAGES then Some(TooManyPages)
    else if p.next in seen then Some(LoopDetected)
    else None
  }

  /**
   The reference: everything from `path` on. A page that ends in an error delivers nothing,
   since the exception is raised before any of its records is handed over.
   */
  function Deliver<T>(fetch: string -> Reply<T>, path: string, seen: set<string>, count: nat): Stream<T>
    decreases if count < MAX_PAGES then MAX_PAGES - count else 0
  {
    match fetch(path)
    case HttpError => Stream([], Some(FetchFailed))
    case Page(records, done, next) =>
      var p := fetch(path);
      if Blocked(p, seen, count).Some? then Stream([], Blocked(p, seen, count))
      else if IsLast(p) then Stream(records, None)
      else Prepend(records, Deliver(fetch, next, seen + {next}, count + 1))
  }

  // ----- Eager --------------------------------------------------------------

  datatype QueryResult<T> = Records(records: seq<T>, pageCount: nat) | Thrown(error: Error)

  /** SalesforceSession::Query: all pages, or an exception and nothing. */
  method Query<T>(fetch: string -> Reply<T>, start: string) returns (r: QueryResult<T>)
    ensures var all := Deliver(fetch, start, {}, 0);
            match all.error
            case None => r.Records? && r.records == all.records && 1 <= r.pageCount <= MAX_PAGES
            case Some(e) => r == Thrown(e)
  {
    var records: seq<T> := [];
    var path, seen, count := start, {}, 0;
    while true
      invariant count < MAX_PAGES
      invariant Prepend(records, Deliver(fetch, path, seen, count)) == Deliver(fetch, start, {}, 0)
      decreases MAX_PAGES - count
    {
      var pg := fetch(path);
      if pg.HttpError? {
        return Thrown(FetchFailed);
      }
      ghost var rest := Deliver(fetch, path, seen, count);
      ghost var before := records;
      records := records + pg.records;
      count := count + 1;
      if pg.done || pg.next == "" {
        return Records(records, count);
      }
      if count >= MAX_PAGES {
        return Thrown(TooManyPages);
      }
      if pg.next in seen {
        return Thrown(LoopDetected);
      }
      seen := seen + {pg.next};
      path := pg.next;
      PrependTwice(before, pg.records, Deliver(fetch, path, seen, count));
    }
  }

  lemma PrependTwice<T>(a: seq<T>, b: seq<T>, s: Stream<T>)
    ensures Prepend(a, Prepend(b, s)) == Prepend(a + b, s)
  {
  }

  // ----- Lazy ---------------------------------------------------------------

  /** The pagination fields of ScanGlobalState. */
  datatype Cursor<T> = Cursor(
    nextPath: string,
    done: bool,
    page: seq<T>,
    cursor: nat,
    pagesFetched: nat,
    seen: set<string>)

  function Start<T>(path: string): Cursor<T> {
    Cursor(path, false, [], 0, 0, {})
  }

  datatype Advanced<T> = Threw(error: Error) | NoMore(state: Cursor<T>) | Ready(state: Cursor<T>)

  /** The fields once a page is in. */
  function After<T>(s: Cursor<T>, p: Reply<T>): Cursor<T>
    requires p.Page?
  {
    var got := s.(page := p.records, cursor := 0, pagesFetched := s.pagesFetched + 1);
    if IsLast(p) then got.(done := true) else got.(seen := s.seen + {p.next}, nextPath := p.next)
  }

  /** ScanAdvancePage: fetch until a page has rows, skipping empty ones that are not the last. */
  function Advance<T>(fetch: string -> Reply<T>, s: Cursor<T>): Advanced<T>
    decreases if s.pagesFetched < MAX_PAGES then MAX_PAGES - s.pagesFetched else 0
  {
    if s.done then NoMore(s)
    else
      match fetch(s.nextPath)
      case HttpError => Threw(FetchFailed)
      case Page(records, done, next) =>
        var p := fetch(s.nextPath);
        if Blocked(p, s.seen, s.pagesFetched).Some? then Threw(Blocked(p, s.seen, s.pagesFetched).value)
        else
          var s' := After(s, p);
          if |records| > 0 then Ready(s')
          else if s'.done then NoMore(s')
          else Advance(fetch, s')
  }

  datatype Called<T> = Failed(error: Error) | Rows(rows: seq<T>, state: Cursor<T>)

  function Take<T>(s: Cursor<T>): Called<T> {
    if s.cursor > |s.page| then Rows([], s)
    else
      var left := |s.page| - s.cursor;
      var n := if left < VECTOR_SIZE then left else VECTOR_SIZE;
      Rows(s.page[s.cursor..s.cursor + n], s.(cursor := s.cursor + n))
  }

  /** One ScanFunction call on the REST path. */
  function Call<T>(fetch: string -> Reply<T>, s: Cursor<T>): Called<T> {
    if s.cursor < |s.page| then Take(s)
    else
      match Advance(fetch, s)
      case Threw(e) => Failed(e)
      case NoMore(s') => Rows([], s')
      case Ready(s') => Take(s')
  }

  /** The scan's global state, updated in place call by call. */
  class ScanState<T> {
    const fetch: string -> Reply<T>
    var nextPath: string
    var done: bool
    var page: seq<T>
    var cursor: nat
    var pagesFetched: nat
    var seen: set<string>

    function State(): Cursor<T>
      reads this
    {
      Cursor(nextPath, done, page, cursor, pagesFetched, seen)
    }

    constructor (fetch: string -> Reply<T>, path: string)
      ensures this.fetch == fetch && State() == Start(path)
    {
      this.fetch := fetch;
      nextPath, done, page, cursor, pagesFetched, seen := path, false, [], 0, 0, {};
    }

    method AdvancePage() returns (error: Option<Error>, more: bool)
      modifies this
      ensures match Advance(fetch, old(State()))
              case Threw(e) => error == Some(e)
              case NoMore(s) => error.None? && !more && State() == s
              case Ready(s) => error.None? && more && State() == s
    {
      more := false;
      while true
        invariant Advance(fetch, State()) == Advance(fetch, old(State()))
        decreases !done, if pagesFetched < MAX_PAGES then MAX_PAGES - pagesFetched else 0
      {
        if done {
          return None, false;
        }
        ghost var s := State();
        var pg := fetch(nextPath);
        if pg.HttpError? {
          return Some(FetchFailed), false;
        }
        pagesFetched := pagesFetched + 1;
        page, cursor := pg.records, 0;
        var last := pg.done || pg.next == "";
        if !last {
          if pagesFetched >= MAX_PAGES {
            return Some(TooManyPages), false;
          }
          if pg.next in seen {
            return Some(LoopDetected), false;
          }
          seen := seen + {pg.next};
          nextPath := pg.next;
        } else {
          done := true;
        }
        assert State() == After(s, pg);
        if |page| > 0 {
          return None, true;
        }
        if done {
          return None, false;
        }
      }
    }

    method ScanFunction() returns (error: Option<Error>, rows: seq<T>)
      modifies this
      ensures match Call(fetch, old(State()))
              case Failed(e) => error == Some(e)
              case Rows(out, s) => error.None? && rows == out && State() == s
    {
      rows := [];
      if cursor >= |page| {
        var more;
        error, more := AdvancePage();
        if error.Some? || !more {
          return;
        }
      }
      error := None;
      ghost var s := State();
      while |rows| < VECTOR_SIZE && cursor < |page|
        invariant s.cursor <= cursor && State() == s.(cursor := cursor)
        invariant s.cursor <= |page| ==> cursor <= |page| && rows == page[s.cursor..cursor]
        invariant s.cursor > |page| ==> rows == [] && cursor == s.cursor
        invariant |rows| <= VECTOR_SIZE
      {
        assert page[s.cursor..cursor + 1] == page[s.cursor..cursor] + [page[cursor]];
        rows := rows + [page[cursor]];
        cursor := cursor + 1;
      }
    }
  }

  // ----- Refinement ---------------------------------------------------------

  predicate Sane<T>(s: Cursor<T>) {
    s.cursor <= |s.page| && s.pagesFetched <= MAX_PAGES && (!s.done ==> s.pagesFetched < MAX_PAGES)
  }

  /** What the scan still has to deliver. */
  function Pending<T>(fetch: string -> Reply<T>, s: Cursor<T>): Stream<T>
    requires s.cursor <= |s.page|
  {
    Prepend(s.page[s.cursor..],
            if s.done then Stream([], None) else Deliver(fetch, s.nextPath, s.seen, s.pagesFetched))
  }

  /** Fetching ahead of an exhausted page delivers nothing and loses nothing. */
  lemma {:induction false} AdvanceKeepsPending<T>(fetch: string -> Reply<T>, s: Cursor<T>)
    requires Sane(s) && s.cursor == |s.page|
    ensures match Advance(fetch, s)
            case Threw(e) => Pending(fetch, s) == Stream([], Some(e))
            case NoMore(s') => Sane(s') && s'.done && s'.cursor == |s'.page| && Pending(fetch, s) == Stream([], None)
            case Ready(s') => Sane(s') && |s'.page| > 0 && s'.cursor == 0 && Pending(fetch, s) == Pending(fetch, s')
    decreases MAX_PAGES - s.pagesFetched
  {
    if !s.done && fetch(s.nextPath).Page? {
      var p := fetch(s.nextPath);
      if Blocked(p, s.seen, s.pagesFetched).None? {
        var got := s.(page := p.records, cursor := 0, pagesFetched := s.pagesFetched + 1);
        var s' := if IsLast(p) then got.(done := true) else got.(seen := s.seen + {p.next}, nextPath := p.next);
        assert s'.page[0..] == p.records;
        assert Pending(fetch, s) == Pending(fetch, s') by {
          assert s.page[s.cursor..] == [];
        }
        if |p.records| == 0 && !s'.done {
          AdvanceKeepsPending(fetch, s');
        }
      }
    }
  }

  lemma TakeKeepsPending<T>(fetch: string -> Reply<T>, s: Cursor<T>)
    requires Sane(s)
    ensures Take(s).Rows? && Sane(Take(s).state) && |Take(s).rows| <= VECTOR_SIZE
    ensures Pending(fetch, s) == Prepend(Take(s).rows, Pending(fetch, Take(s).state))
    ensures s.cursor < |s.page| ==> Take(s).rows != []
  {
    var r := Take(s);
    var rest := if s.done then Stream([], None) else Deliver(fetch, s.nextPath, s.seen, s.pagesFetched);
    assert s.page[s.cursor..] == r.rows + s.page[r.state.cursor..];
    PrependTwice(r.rows, s.page[r.state.cursor..], rest);
  }

  /**
   One call: the rows handed out are the next records due; it hands out none only at the
   end; it raises an error only when that error is all there is left; and it fetches only
   when the rows it holds are used up.
   */
  lemma CallRefines<T>(fetch: string -> Reply<T>, s: Cursor<T>)
    requires Sane(s)
    ensures match Call(fetch, s)
            case Failed(e) => Pending(fetch, s) == Stream([], Some(e))
            case Rows(rows, s') =>
              && Sane(s') && |rows| <= VECTOR_SIZE
              && Pending(fetch, s) == Prepend(rows, Pending(fetch, s'))
              && (rows == [] ==> Pending(fetch, s') == Stream([], None))
              && (s.cursor < |s.page| ==> s'.pagesFetched == s.pagesFetched)
  {
    if s.cursor < |s.page| {
      TakeKeepsPending(fetch, s);
    } else {
      AdvanceKeepsPending(fetch, s);
      match Advance(fetch, s)
      case Threw(_) =>
      case NoMore(s') => assert s'.page[s'.cursor..] == [];
      case Ready(s') => TakeKeepsPending(fetch, s');
    }
  }

  /** A whole scan: call until no rows come back or an error is raised, at most n times. */
  datatype Run<T> =
    | Running(emitted: seq<T>, state: Cursor<T>)
    | Finished(emitted: seq<T>)
    | Raised(emitted: seq<T>, error: Error)

  function Scan<T>(fetch: string -> Reply<T>, s: Cursor<T>, n: nat): Run<T>
    decreases n
  {
    if n == 0 then Running([], s)
    else
      match Call(fetch, s)
      case Failed(e) => Raised([], e)
      case Rows(rows, s') =>
        if rows == [] then Finished([])
        else
          match Scan(fetch, s', n - 1)
          case Running(more, t) => Running(rows + more, t)
          case Finished(more) => Finished(rows + more)
          case Raised(more, e) => Raised(rows + more, e)
  }

  lemma {:induction false} ScanRefines<T>(fetch: string -> Reply<T>, s: Cursor<T>, n: nat)
    requires Sane(s)
    ensures var all := Pending(fetch, s);
            match Scan(fetch, s, n)
            case Running(rows, t) =>
              Sane(t) && all == Prepend(rows, Pending(fetch, t)) && |rows| >= n
            case Finished(rows) => all == Stream(rows, None)
            case Raised(rows, e) => all == Stream(rows, Some(e))
    decreases n
  {
    if n > 0 {
      CallRefines(fetch, s);
      match Call(fetch, s)
      case Failed(_) =>
      case Rows(rows, s') =>
        if rows != [] {
          ScanRefines(fetch, s', n - 1);
          match Scan(fetch, s', n - 1)
          case Running(more, t) => PrependTwice(rows, more, Pending(fetch, t));
          case Finished(more) =>
          case Raised(more, e) =>
        } else {
          assert Prepend(rows, Stream([], None)) == Stream([], None);
        }
    } else {
      assert Prepend([], Pending(fetch, s)) == Pending(fetch, s);
    }
  }

  /**
   Lazy refines eager: over any pages, the scan that is called to its end emits exactly the
   records the eager query returns, or ends in the error the eager query raises; and it does
   end, within as many calls as there are records, plus one.
   */
  lemma LazyRefinesEager<T>(fetch: string -> Reply<T>, path: string, n: nat)
    ensures var all := Deliver(fetch, path, {}, 0);
            && (n > |all.records| ==> !Scan(fetch, Start(path), n).Running?)
            && match Scan(fetch, Start(path), n)
               case Running(rows, t) => rows <= all.records && t.pagesFetched <= MAX_PAGES
               case Finished(rows) => all == Stream(rows, None)
               case Raised(rows, e) => all == Stream(rows, Some(e))
  {
    var s := Start(path);
    ScanRefines(fetch, s, n);
    assert Pending(fetch, s) == Deliver(fetch, path, {}, 0) by { assert s.page[0..] == []; }
  }

  // ----- Laziness -----------------------------------------------------------

  /** The path of the page after n pages, and the records of those n pages. */
  function PathAfter<T>(fetch: string -> Reply<T>, path: string, n: nat): string {
    if n == 0 then path
    else
      var p := fetch(PathAfter(fetch, path, n - 1));
      if p.Page? then p.next else ""
  }

  function RecordsOf<T>(fetch: string -> Reply<T>, path: string, n: nat): seq<T> {
    if n == 0 then []
    else
      var p := fetch(PathAfter(fetch, path, n - 1));
      RecordsOf(fetch, path, n - 1) + (if p.Page? then p.records else [])
  }

  /** What was fetched is what was emitted plus what is left of the last page. */
  ghost predicate Drained<T>(fetch: string -> Reply<T>, path: string, emitted: seq<T>, s: Cursor<T>) {
    && s.cursor <= |s.page|
    && RecordsOf(fetch, path, s.pagesFetched) == emitted + s.page[s.cursor..]
    && (!s.done ==> s.nextPath == PathAfter(fetch, path, s.pagesFetched))
  }

  lemma {:induction false} AdvanceDrained<T>(fetch: string -> Reply<T>, path: string, emitted: seq<T>, s: Cursor<T>)
    requires Drained(fetch, path, emitted, s) && s.cursor == |s.page|
    ensures Advance(fetch, s).Ready? ==> Drained(fetch, path, emitted, Advance(fetch, s).state)
    decreases if s.pagesFetched < MAX_PAGES then MAX_PAGES - s.pagesFetched else 0
  {
    if !s.done && fetch(s.nextPath).Page? {
      var p := fetch(s.nextPath);
      if Blocked(p, s.seen, s.pagesFetched).None? {
        var got := s.(page := p.records, cursor := 0, pagesFetched := s.pagesFetched + 1);
        var s' := if IsLast(p) then got.(done := true) else got.(seen := s.seen + {p.next}, nextPath := p.next);
        assert s.page[s.cursor..] == [] && s'.page[0..] == p.records;
        assert RecordsOf(fetch, path, s'.pagesFetched) == emitted + [] + p.records;
        if |p.records| == 0 && !s'.done {
          AdvanceDrained(fetch, path, emitted, s');
        }
      }
    }
  }

  /** Page k+1 is requested only once every record of the first k pages has been handed out. */
  lemma CallDrained<T>(fetch: string -> Reply<T>, path: string, emitted: seq<T>, s: Cursor<T>)
    requires Drained(fetch, path, emitted, s)
    requires Call(fetch, s).Rows? && Call(fetch, s).rows != []
    ensures var r := Call(fetch, s);
            && Drained(fetch, path, emitted + r.rows, r.state)
            && (r.state.pagesFetched > s.pagesFetched ==> RecordsOf(fetch, path, s.pagesFetched) == emitted)
  {
    var before := if s.cursor < |s.page| then s else Advance(fetch, s).state;
    if s.cursor >= |s.page| {
      AdvanceDrained(fetch, path, emitted, s);
      assert s.page[s.cursor..] == [];
    }
    var r := Take(before);
    assert before.page[before.cursor..] == r.rows + before.page[r.state.cursor..];
    assert emitted + before.page[before.cursor..] == (emitted + r.rows) + before.page[r.state.cursor..];
  }

  /** Over a whole scan: nothing is fetched beyond the page the last emitted row came from. */
  lemma {:induction false} ScanDrained<T>(fetch: string -> Reply<T>, path: string, emitted: seq<T>,
                                          s: Cursor<T>, n: nat)
    requires Drained(fetch, path, emitted, s) && Scan(fetch, s, n).Running?
    ensures Drained(fetch, path, emitted + Scan(fetch, s, n).emitted, Scan(fetch, s, n).state)
    decreases n
  {
    if n > 0 {
      CallDrained(fetch, path, emitted, s);
      var r := Call(fetch, s);
      ScanDrained(fetch, path, emitted + r.rows, r.state, n - 1);
      var more := Scan(fetch, r.state, n - 1).emitted;
      Assoc(emitted, r.rows, more);
    } else {
      assert emitted + [] == emitted;
    }
  }

  lemma ScanFetchesLazily<T>(fetch: string -> Reply<T>, path: string, n: nat)
    requires Scan(fetch, Start(path), n).Running?
    ensures var r := Scan(fetch, Start(path), n);
            r.state.cursor <= |r.state.page| &&
            RecordsOf(fetch, path, r.state.pagesFetched) == r.emitted + r.state.page[r.state.cursor..]
  {
    var s := Start(path);
    assert s.page[0..] == [];
    assert Drained(fetch, path, [], s);
    ScanDrained(fetch, path, [], s, n);
    assert [] + Scan(fetch, s, n).emitted == Scan(fetch, s, n).emitted;
  }

  // ----- What is delivered, page by page -----------------------------------------

  function Concat<T>(pages: seq<Reply<T>>): seq<T>
    requires forall k | 0 <= k < |pages| :: pages[k].Page?
  {
    if |pages| == 0 then [] else pages[0].records + Concat(pages[1..])
  }

  /** Pages that each lead on to the next: none is done, none is without a cursor. */
  predicate LeadsOn<T>(p: Reply<T>) {
    p.Page? && !p.done && p.next != ""
  }

  /** The pages met from a path on, every one of them leading on. */
  ghost predicate Along<T>(fetch: string -> Reply<T>, path: string, pages: seq<Reply<T>>) {
    && (forall k | 0 <= k < |pages| :: LeadsOn(pages[k]))
    && (|pages| > 0 ==> fetch(path) == pages[0])
    && forall k | 0 <= k < |pages| - 1 :: fetch(pages[k].next) == pages[k + 1]
  }

  /** No cursor comes twice, and none was seen before. */
  predicate NewCursors<T>(pages: seq<Reply<T>>, seen: set<string>)
    requires forall k | 0 <= k < |pages| :: pages[k].Page?
  {
    && (forall k | 0 <= k < |pages| :: pages[k].next !in seen)
    && forall i, j | 0 <= i < j < |pages| :: pages[i].next != pages[j].next
  }

  function Cursors<T>(pages: seq<Reply<T>>): set<string>
    requires forall k | 0 <= k < |pages| :: pages[k].Page?
  {
    set k | 0 <= k < |pages| :: pages[k].next
  }

  function NextAfter<T>(path: string, pages: seq<Reply<T>>): string
    requires forall k | 0 <= k < |pages| :: pages[k].Page?
  {
    if |pages| == 0 then path else pages[|pages| - 1].next
  }

  /** Pages that lead on are delivered one after another, and then what comes after them. */
  lemma {:induction false} DeliversAlong<T>(fetch: string -> Reply<T>, path: string, pages: seq<Reply<T>>,
                                            seen: set<string>, count: nat)
    requires Along(fetch, path, pages) && NewCursors(pages, seen) && count + |pages| < 1_000_000
    ensures Deliver(fetch, path, seen, count) ==
            Prepend(Concat(pages), Deliver(fetch, NextAfter(path, pages), seen + Cursors(pages), count + |pages|))
    decreases |pages|
  {
    if |pages| == 0 {
      assert seen + Cursors(pages) == seen;
      var rest := Deliver(fetch, path, seen, count);
      assert [] + rest.records == rest.records;
    } else {
      var p, more := pages[0], pages[1..];
      AlongRest(fetch, path, pages, seen);
      CursorsRest(pages, seen);
      DeliverOne(fetch, path, p, seen, count);
      DeliversAlong(fetch, p.next, more, seen + {p.next}, count + 1);
      PrependTwice(p.records, Concat(more),
                   Deliver(fetch, NextAfter(path, pages), seen + Cursors(pages), count + |pages|));
    }
  }

  lemma AlongRest<T>(fetch: string -> Reply<T>, path: string, pages: seq<Reply<T>>, seen: set<string>)
    requires |pages| > 0 && Along(fetch, path, pages) && NewCursors(pages, seen)
    ensures Along(fetch, pages[0].next, pages[1..]) && NewCursors(pages[1..], seen + {pages[0].next})
    ensures NextAfter(pages[0].next, pages[1..]) == NextAfter(path, pages)
  {
    var more := pages[1..];
    assert forall k | 0 <= k < |more| :: more[k] == pages[k + 1];
  }

  lemma CursorsRest<T>(pages: seq<Reply<T>>, seen: set<string>)
    requires |pages| > 0 && forall k | 0 <= k < |pages| :: pages[k].Page?
    ensures seen + {pages[0].next} + Cursors(pages[1..]) == seen + Cursors(pages)
  {
    var more := pages[1..];
    assert forall k | 0 <= k < |more| :: more[k] == pages[k + 1];
    forall x | x in Cursors(pages) ensures x in {pages[0].next} + Cursors(more) {
      var k :| 0 <= k < |pages| && pages[k].next == x;
      if k > 0 { assert more[k - 1].next == x; }
    }
  }

  lemma DeliverOne<T>(fetch: string -> Reply<T>, path: string, p: Reply<T>, seen: set<string>, count: nat)
    requires fetch(path) == p && LeadsOn(p) && p.next !in seen && count + 1 < 1_000_000
    ensures Deliver(fetch, path, seen, count) == Prepend(p.records, Deliver(fetch, p.next, seen + {p.next}, count + 1))
  {
  }

  /**
   Up to a million pages with different cursors, the last of them done or without a cursor: the query
   delivers all their records in order and no error.
   */
  lemma DeliversAll<T>(fetch: string -> Reply<T>, path: string, pages: seq<Reply<T>>, last: Reply<T>)
    requires Along(fetch, path, pages) && NewCursors(pages, {}) && |pages| + 1 <= 1_000_000
    requires fetch(NextAfter(path, pages)) == last && last.Page? && (last.done || last.next == "")
    ensures Deliver(fetch, path, {}, 0) == Stream(Concat(pages) + last.records, None)
  {
    DeliversAlong(fetch, path, pages, {}, 0);
  }

  /** Otherwise it ends in the error that is met: a failed request, a cursor that came before, or too many pages. */
  lemma DeliversUntilError<T>(fetch: string -> Reply<T>, path: string, pages: seq<Reply<T>>)
    requires Along(fetch, path, pages) && NewCursors(pages, {}) && |pages| + 1 <= 1_000_000
    ensures var p := fetch(NextAfter(path, pages));
            && (p.HttpError? ==> Deliver(fetch, path, {}, 0) == Stream(Concat(pages), Some(FetchFailed)))
            && (LeadsOn(p) && |pages| + 1 == 1_000_000 ==>
                  Deliver(fetch, path, {}, 0) == Stream(Concat(pages), Some(TooManyPages)))
            && (LeadsOn(p) && |pages| + 1 < 1_000_000 && p.next in Cursors(pages) ==>
                  Deliver(fetch, path, {}, 0) == Stream(Concat(pages), Some(LoopDetected)))
  {
    DeliversAlong(fetch, path, pages, {}, 0);
    assert {} + Cursors(pages) == Cursors(pages);
    assert Concat(pages) + [] == Concat(pages);
  }

  /** A call that has rows on its page hands out the next 2048 of them, or what is left. */
  lemma TakesAVector<T>(s: Cursor<T>)
    requires s.cursor <= |s.page|
    ensures var left := |s.page| - s.cursor;
            var n := if left <= 2048 then left else 2048;
            Take(s) == Rows(s.page[s.cursor..s.cursor + n], s.(cursor := s.cursor + n))
  {
  }
}
