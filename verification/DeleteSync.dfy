/**
 getDeleted in slices: the API may cover less than the window asked for and says how far it
 got; the loop resumes from there. Whatever the replies, every deletion up to the reported
 frontier has been collected, and no id twice.
 */
module DeleteSync {
  import opened Text

  const MAX_LOOPS: nat := 10000
  const EPOCH: Time := 0

  /** Milliseconds since the epoch. */
  type Time = int

  /** API timestamps are cut to whole seconds before they are used. */
  function ToSecond(t: Time): (r: Time)
    ensures r <= t < r + 1000 && r % 1000 == 0
  {
    t - t % 1000
  }

  datatype Deletion = Deletion(id: string, date: Time)

  datatype Reply = HttpError | Slice(records: seq<Deletion>, covered: Option<Time>)

  datatype State = State(since: Time, rows: seq<Deletion>, seen: set<string>, latest: Time)

  datatype Outcome = Failed | Loaded(rows: seq<Deletion>, latest: Time)

  /** Collect one slice's records, skipping ids already collected. */
  function Collect(rows: seq<Deletion>, seen: set<string>, records: seq<Deletion>): (seq<Deletion>, set<string>)
    decreases |records|
  {
    if |records| == 0 then (rows, seen)
    else if records[0].id in seen then Collect(rows, seen, records[1..])
    else Collect(rows + [Deletion(records[0].id, ToSecond(records[0].date))], seen + {records[0].id}, records[1..])
  }

  /** One turn of the loop, after the reply has come. */
  function Absorb(s: State, reply: Reply): State
    requires reply.Slice?
  {
    var (rows, seen) := Collect(s.rows, s.seen, reply.records);
    var latest := if reply.covered.Some? && ToSecond(reply.covered.value) > s.latest
                  then ToSecond(reply.covered.value) else s.latest;
    State(s.since, rows, seen, latest)
  }

  /** Where to resume, if the loop goes on. */
  function Resume(s: State, reply: Reply, until: Time): Option<Time>
    requires reply.Slice?
  {
    if reply.covered.None? then None
    else
      var c := ToSecond(reply.covered.value);
      if c <= s.since || c >= until then None else Some(c)
  }

  function Load(api: (Time, Time) -> Reply, s: State, until: Time, loops: nat): Outcome
    decreases loops
  {
    if loops == 0 || s.since >= until then Loaded(s.rows, s.latest)
    else
      var reply := api(s.since, until);
      if reply.HttpError? then Failed
      else
        var s' := Absorb(s, reply);
        match Resume(s, reply, until)
        case None => Loaded(s'.rows, s'.latest)
        case Some(c) => Load(api, s'.(since := c), until, loops - 1)
  }

  function Begin(since: Time): State {
    State(since, [], {}, EPOCH)
  }

  method CollectSlice(rows: seq<Deletion>, seen: set<string>, records: seq<Deletion>)
    returns (rows': seq<Deletion>, seen': set<string>)
    ensures (rows', seen') == Collect(rows, seen, records)
  {
    rows', seen' := rows, seen;
    for i := 0 to |records|
      invariant Collect(rows', seen', records[i..]) == Collect(rows, seen, records)
    {
      assert records[i..][1..] == records[i + 1..];
      if records[i].id !in seen' {
        seen' := seen' + {records[i].id};
        rows' := rows' + [Deletion(records[i].id, ToSecond(records[i].date))];
      }
    }
  }

  method LoadViaGetDeleted(api: (Time, Time) -> Reply, since0: Time, until: Time) returns (r: Outcome)
    ensures r == Load(api, Begin(since0), until, MAX_LOOPS)
  {
    var since, rows, seen, latest := since0, [], {}, EPOCH;
    var loop := 0;
    while loop < MAX_LOOPS && since < until
      invariant 0 <= loop <= MAX_LOOPS
      invariant Load(api, State(since, rows, seen, latest), until, MAX_LOOPS - loop) ==
                Load(api, Begin(since0), until, MAX_LOOPS)
    {
      var reply := api(since, until);
      if reply.HttpError? {
        return Failed;
      }
      rows, seen := CollectSlice(rows, seen, reply.records);
      if reply.covered.None? {
        break;
      }
      var covered := ToSecond(reply.covered.value);
      if covered > latest {
        latest := covered;
      }
      if covered <= since {
        break;
      }
      if covered >= until {
        break;
      }
      since := covered;
      loop := loop + 1;
    }
    return Loaded(rows, latest);
  }

  // ----- Coverage -------------------------------------------------------------

  /** Each reply holds every deletion of its window up to its own covered date. */
  ghost predicate Honest(api: (Time, Time) -> Reply, log: set<Deletion>) {
    forall start, end, d | d in log && api(start, end).Slice? && api(start, end).covered.Some?
                           && start <= d.date < end && d.date <= api(start, end).covered.value ::
      HasId(api(start, end).records, d.id)
  }

  predicate HasId(rows: seq<Deletion>, id: string) {
    exists i | 0 <= i < |rows| :: rows[i].id == id
  }

  predicate NoIdTwice(rows: seq<Deletion>) {
    forall i, j | 0 <= i < j < |rows| :: rows[i].id != rows[j].id
  }

  ghost predicate Consistent(rows: seq<Deletion>, seen: set<string>) {
    NoIdTwice(rows) && forall id :: id in seen <==> HasId(rows, id)
  }

  lemma HasIdSnoc(rows: seq<Deletion>, d: Deletion, id: string)
    ensures HasId(rows + [d], id) <==> HasId(rows, id) || d.id == id
  {
    var all := rows + [d];
    assert forall i | 0 <= i < |rows| :: all[i] == rows[i];
    assert all[|rows|] == d;
  }

  /** Collecting keeps the ids distinct and adds exactly the slice's ids. */
  lemma {:induction false} CollectAdds(rows: seq<Deletion>, seen: set<string>, records: seq<Deletion>)
    requires Consistent(rows, seen)
    ensures var r := Collect(rows, seen, records);
            Consistent(r.0, r.1) && forall id :: HasId(r.0, id) <==> HasId(rows, id) || HasId(records, id)
    decreases |records|
  {
    if |records| > 0 {
      forall id ensures HasId(records, id) <==> records[0].id == id || HasId(records[1..], id) {
        assert forall i | 1 <= i < |records| :: records[i] == records[1..][i - 1];
      }
      if records[0].id in seen {
        CollectAdds(rows, seen, records[1..]);
      } else {
        var d := Deletion(records[0].id, ToSecond(records[0].date));
        forall id ensures HasId(rows + [d], id) <==> HasId(rows, id) || d.id == id { HasIdSnoc(rows, d, id); }
        forall i | 0 <= i < |rows| ensures rows[i].id != d.id { assert HasId(rows, rows[i].id); }
        CollectAdds(rows + [d], seen + {d.id}, records[1..]);
      }
    }
  }

  /** Everything from the window's start, before `since` or up to the frontier, has been collected. */
  ghost predicate CoveredSoFar(log: set<Deletion>, from: Time, until: Time, s: State) {
    && Consistent(s.rows, s.seen)
    && forall d | && d in log && from <= d.date < until
                  && (d.date < s.since || (s.latest > EPOCH && d.date <= s.latest)) ::
         HasId(s.rows, d.id)
  }

  lemma AbsorbCovers(api: (Time, Time) -> Reply, log: set<Deletion>, from: Time, until: Time, s: State)
    requires Honest(api, log) && CoveredSoFar(log, from, until, s) && s.since < until && api(s.since, until).Slice?
    ensures CoveredSoFar(log, from, until, Absorb(s, api(s.since, until)))
    ensures var c := Resume(s, api(s.since, until), until);
            c.Some? ==> CoveredSoFar(log, from, until, Absorb(s, api(s.since, until)).(since := c.value))
  {
    var reply := api(s.since, until);
    var s' := Absorb(s, reply);
    CollectAdds(s.rows, s.seen, reply.records);
    forall d | d in log && from <= d.date < until && reply.covered.Some? && d.date <= ToSecond(reply.covered.value)
      ensures HasId(s'.rows, d.id)
    {
      if d.date >= s.since { assert HasId(reply.records, d.id); }
    }
  }

  /**
   Coverage: on return every deletion from the start of the window up to the reported frontier
   (inside the window) is among the rows, no id appears twice, and resuming at whole seconds
   leaves no gap.
   */
  lemma {:induction false} LoadCovers(api: (Time, Time) -> Reply, log: set<Deletion>, from: Time, until: Time,
                                      s: State, loops: nat)
    requires Honest(api, log) && CoveredSoFar(log, from, until, s)
    ensures var r := Load(api, s, until, loops);
            r.Loaded? ==>
              && NoIdTwice(r.rows)
              && (r.latest > EPOCH ==>
                    forall d | d in log && from <= d.date < until && d.date <= r.latest :: HasId(r.rows, d.id))
    decreases loops
  {
    if loops > 0 && s.since < until && api(s.since, until).Slice? {
      AbsorbCovers(api, log, from, until, s);
      var c := Resume(s, api(s.since, until), until);
      if c.Some? {
        LoadCovers(api, log, from, until, Absorb(s, api(s.since, until)).(since := c.value), loops - 1);
      }
    }
  }

  lemma DeleteSyncCovers(api: (Time, Time) -> Reply, log: set<Deletion>, since: Time, until: Time)
    requires Honest(api, log)
    ensures var r := Load(api, Begin(since), until, MAX_LOOPS);
            r.Loaded? ==>
              && NoIdTwice(r.rows)
              && (r.latest > EPOCH ==>
                    forall d | d in log && since <= d.date < until && d.date <= r.latest :: HasId(r.rows, d.id))
  {
    LoadCovers(api, log, since, until, Begin(since), MAX_LOOPS);
  }

  // ----- The frontier ------------------------------------------------------------

  /** The covered dates of the slices read, in order. */
  function Frontiers(api: (Time, Time) -> Reply, s: State, until: Time, loops: nat): seq<Time>
    decreases loops
  {
    if loops == 0 || s.since >= until then []
    else
      var reply := api(s.since, until);
      if reply.HttpError? || reply.covered.None? then []
      else
        [ToSecond(reply.covered.value)] +
        (match Resume(s, reply, until)
         case None => []
         case Some(c) => Frontiers(api, Absorb(s, reply).(since := c), until, loops - 1))
  }

  /** `m` is the greatest of `start` and the dates in `fs`. */
  predicate IsMaximum(m: Time, start: Time, fs: seq<Time>) {
    && start <= m
    && (forall i | 0 <= i < |fs| :: fs[i] <= m)
    && (m == start || m in fs)
  }

  lemma MaximumOfMore(m: Time, start: Time, first: Time, rest: seq<Time>)
    requires IsMaximum(m, if first > start then first else start, rest)
    ensures IsMaximum(m, start, [first] + rest)
  {
    var fs := [first] + rest;
    assert fs[0] == first;
    assert forall i | 1 <= i < |fs| :: fs[i] == rest[i - 1];
  }

  /** The reported frontier is the greatest covered date, over the slices and the starting value. */
  lemma {:induction false} FrontierIsMaximum(api: (Time, Time) -> Reply, s: State, until: Time, loops: nat)
    requires Load(api, s, until, loops).Loaded?
    ensures IsMaximum(Load(api, s, until, loops).latest, s.latest, Frontiers(api, s, until, loops))
    decreases loops
  {
    if loops > 0 && s.since < until && api(s.since, until).covered.Some? {
      var reply := api(s.since, until);
      var s', first := Absorb(s, reply), ToSecond(reply.covered.value);
      match Resume(s, reply, until)
      case None =>
        MaximumOfMore(s'.latest, s.latest, first, []);
      case Some(c) =>
        FrontierIsMaximum(api, s'.(since := c), until, loops - 1);
        MaximumOfMore(Load(api, s, until, loops).latest, s.latest, first,
                      Frontiers(api, s'.(since := c), until, loops - 1));
    }
  }

  /** The collected rows are real: every row came from some slice, with its date cut to the second. */
  lemma {:induction false} CollectIsReal(rows: seq<Deletion>, seen: set<string>, records: seq<Deletion>,
                                         row: Deletion)
    ensures row in Collect(rows, seen, records).0 ==>
              row in rows || exists r | r in records :: row == Deletion(r.id, ToSecond(r.date))
    decreases |records|
  {
    if |records| > 0 {
      if records[0].id in seen {
        CollectIsReal(rows, seen, records[1..], row);
      } else {
        var kept := Deletion(records[0].id, ToSecond(records[0].date));
        CollectIsReal(rows + [kept], seen + {records[0].id}, records[1..], row);
      }
    }
  }

  // ----- When the loop ends ------------------------------------------------------

  /** The reply covers more than was covered before, and not yet the whole window. */
  predicate Advances(s: State, reply: Reply, until: Time) {
    reply.Slice? && reply.covered.Some? && s.since < ToSecond(reply.covered.value) < until
  }

  /** The state after n replies that advanced, each asked for from where the one before had got. */
  function AfterTurns(api: (Time, Time) -> Reply, s: State, until: Time, n: nat): Option<State>
    decreases n
  {
    if n == 0 then Some(s)
    else if s.since >= until || !Advances(s, api(s.since, until), until) then None
    else
      var reply := api(s.since, until);
      AfterTurns(api, Absorb(s, reply).(since := ToSecond(reply.covered.value)), until, n - 1)
  }

  /** The loop goes on as long as it advances: it ends after n turns, and not earlier than it must. */
  lemma {:induction false} EndsOnlyWhen(api: (Time, Time) -> Reply, s: State, until: Time, loops: nat)
    returns (n: nat, last: State)
    ensures n <= loops && AfterTurns(api, s, until, n) == Some(last)
    ensures n == loops || last.since >= until || !Advances(last, api(last.since, until), until)
    ensures Load(api, s, until, loops) == Load(api, last, until, loops - n)
    decreases loops
  {
    var reply := api(s.since, until);
    if loops == 0 || s.since >= until || !Advances(s, reply, until) {
      return 0, s;
    }
    n, last := EndsOnlyWhen(api, Absorb(s, reply).(since := ToSecond(reply.covered.value)), until, loops - 1);
    n := n + 1;
  }

  /**
   On return the window is used up, a reply covered no date or none later than the one before, a
   reply covered the rest of the window, or ten thousand slices were read.
   */
  lemma StopsOnlyWhen(api: (Time, Time) -> Reply, since: Time, until: Time) returns (n: nat, last: State)
    requires Load(api, Begin(since), until, MAX_LOOPS).Loaded?
    ensures n <= 10_000 && AfterTurns(api, Begin(since), until, n) == Some(last)
    ensures n < 10_000 && last.since < until ==>
              var reply := api(last.since, until);
              reply.Slice? && (reply.covered.None? || ToSecond(reply.covered.value) <= last.since ||
                               ToSecond(reply.covered.value) >= until)
  {
    n, last := EndsOnlyWhen(api, Begin(since), until, MAX_LOOPS);
  }
}
