/**
 When the parallel Bulk scan fails, and that otherwise it gets to its end. A scan whose jobs start and
 whose page chains end without repeating a locator fails in no interleaving, and can be finished from
 wherever it stands; a scan that did fail met a refused start, an HTTP error, a repeated locator or
 the page limit.
 */
module BulkProgress {
  import opened BulkScan

  // ----- Counting pages -------------------------------------------------------

  function TotalPages<T>(cs: seq<seq<Page<T>>>): nat {
    if |cs| == 0 then 0 else |cs[0]| + TotalPages(cs[1..])
  }

  lemma {:induction false} TotalUpdate<T>(cs: seq<seq<Page<T>>>, c: nat, pages: seq<Page<T>>)
    requires c < |cs|
    ensures TotalPages(cs[c := pages]) + |cs[c]| == TotalPages(cs) + |pages|
  {
    if c == 0 {
      assert cs[c := pages][1..] == cs[1..];
    } else {
      assert cs[c := pages][1..] == cs[1..][c - 1 := pages];
      TotalUpdate(cs[1..], c - 1, pages);
    }
  }

  lemma {:induction false} NoPages<T>(cs: seq<seq<Page<T>>>)
    requires forall c | 0 <= c < |cs| :: cs[c] == []
    ensures TotalPages(cs) == 0
  {
    if |cs| > 0 { NoPages(cs[1..]); }
  }

  /** No list longer, and list c shorter: fewer in all. */
  lemma {:induction false} FewerPages<T>(a: seq<seq<Page<T>>>, b: seq<seq<Page<T>>>, c: nat)
    requires |a| == |b| && (forall i | 0 <= i < |a| :: |a[i]| <= |b[i]|)
    ensures TotalPages(a) <= TotalPages(b)
    ensures c < |a| && |a[c]| < |b[c]| ==> TotalPages(a) < TotalPages(b)
  {
    if |a| > 0 {
      forall i | 0 <= i < |a| - 1 ensures |a[1..][i]| <= |b[1..][i]| { assert |a[i + 1]| <= |b[i + 1]|; }
      FewerPages(a[1..], b[1..], if c > 0 then c - 1 else 0);
      if c > 0 { FewerPages(a[1..], b[1..], c - 1); }
    }
  }

  // ----- What the guards look at ------------------------------------------------

  /** Every locator noted as seen was given by a page. */
  predicate Given<T>(seen: set<string>, pages: seq<Page<T>>) {
    forall x :: x in seen ==> exists k | 0 <= k < |pages| :: pages[k].next == x
  }

  predicate SeenOk<T>(s: State<T>, t: nat)
    requires t < |s.threads|
  {
    var l := s.threads[t];
    l.hasChunk ==> l.chunk < |s.fetched| && Given(l.seen, s.fetched[l.chunk])
  }

  /** The page count is the number of pages fetched, and each thread's locators are its chunk's. */
  predicate Tracked<T>(s: State<T>) {
    s.totalPages == TotalPages(s.fetched) && forall t | 0 <= t < |s.threads| :: SeenOk(s, t)
  }

  lemma InitTracked<T>(jobs: Jobs<T>, workers: nat)
    ensures Tracked(Init(jobs, workers))
  {
    NoPages(Init(jobs, workers).fetched);
  }

  lemma GivenMore<T>(seen: set<string>, pages: seq<Page<T>>, pg: Page<T>)
    requires Given(seen, pages)
    ensures Given(seen, pages + [pg]) && Given(seen + {pg.next}, pages + [pg])
  {
    var all := pages + [pg];
    forall x | x in seen + {pg.next} ensures exists k | 0 <= k < |all| :: all[k].next == x {
      if x in seen {
        var k :| 0 <= k < |pages| && pages[k].next == x;
        assert all[k].next == x;
      } else {
        assert all[|pages|].next == x;
      }
    }
    forall x | x in seen ensures exists k | 0 <= k < |all| :: all[k].next == x { assert x in seen + {pg.next}; }
  }

  /** A fetch that does not fail. */
  lemma FetchTracked<T>(jobs: Jobs<T>, s: State<T>, t: nat)
    requires Inv(s, jobs) && Tracked(s) && t < |s.threads| && s.threads[t].phase == Working
    requires s.threads[t].hasChunk && !s.threads[t].done && Fetch(jobs, s, t).threads[t].phase != Failed
    ensures Tracked(Fetch(jobs, s, t))
  {
    var l, s' := s.threads[t], Fetch(jobs, s, t);
    assert ThreadOk(s, jobs, t) && SeenOk(s, t);
    var pg := jobs.fetch(l.chunk, if l.started then l.locator else "").page;
    TotalUpdate(s.fetched, l.chunk, s.fetched[l.chunk] + [pg]);
    GivenMore(l.seen, s.fetched[l.chunk], pg);
    forall u | 0 <= u < |s'.threads| ensures SeenOk(s', u) {
      if u != t {
        assert SeenOk(s, u);
        if s.threads[u].hasChunk && s.threads[u].chunk == l.chunk {
          GivenMore(s.threads[u].seen, s.fetched[l.chunk], pg);
        }
      }
    }
  }

  predicate Fetches<T>(l: Local<T>) {
    l.phase == Working && l.hasChunk && !l.done
  }

  /** A step that fetches nothing changes no page and notes no locator. */
  lemma QuietStep<T>(jobs: Jobs<T>, s: State<T>, t: nat)
    requires t < |s.threads| && !Fetches(s.threads[t])
    ensures var s' := Step(jobs, s, t);
            var l, l' := s.threads[t], s'.threads[t];
            && s'.fetched == s.fetched && s'.totalPages == s.totalPages && s'.threads == s.threads[t := l']
            && (l'.hasChunk ==> (l.hasChunk && l'.chunk == l.chunk && l'.seen == l.seen) || l.phase == Starting)
            && (l.phase == Starting && l'.phase != Failed ==> l'.chunk == l.chunk && l'.seen == {})
  {
  }

  lemma StepTracked<T>(jobs: Jobs<T>, s: State<T>, t: nat)
    requires Inv(s, jobs) && Tracked(s) && t < |s.threads| && NoFailure(Step(jobs, s, t))
    ensures Tracked(Step(jobs, s, t))
  {
    var s' := Step(jobs, s, t);
    assert s'.threads[t].phase != Failed && ThreadOk(s, jobs, t);
    if Fetches(s.threads[t]) {
      FetchTracked(jobs, s, t);
    } else {
      QuietStep(jobs, s, t);
      forall u | 0 <= u < |s'.threads| ensures SeenOk(s', u) { assert SeenOk(s, u); }
    }
  }

  // ----- Healthy jobs never fail --------------------------------------------------

  /** No two pages give the same locator. */
  predicate DistinctLocators<T>(pages: seq<Page<T>>) {
    forall i, j | 0 <= i < j < |pages| :: pages[i].next != pages[j].next
  }

  ghost predicate HealthyChunk<T>(jobs: Jobs<T>, c: nat, pages: seq<Page<T>>) {
    jobs.starts(c) && CompleteChain(jobs, c, pages) && DistinctLocators(pages)
  }

  /** Every job starts, its pages come to an end without repeating a locator, and there are not too many. */
  ghost predicate Healthy<T>(jobs: Jobs<T>, chains: seq<seq<Page<T>>>) {
    && |chains| == jobs.chunks && TotalPages(chains) <= 1_000_000
    && forall c | 0 <= c < |chains| :: HealthyChunk(jobs, c, chains[c])
  }

  /** What was fetched of a chunk is the beginning of its chain. */
  lemma FetchedIsPrefix<T>(jobs: Jobs<T>, chains: seq<seq<Page<T>>>, s: State<T>, c: nat)
    requires Inv(s, jobs) && Healthy(jobs, chains) && c < jobs.chunks
    ensures |s.fetched[c]| <= |chains[c]| && forall k | 0 <= k < |s.fetched[c]| :: s.fetched[c][k] == chains[c][k]
  {
    assert ChunkOk(s, jobs, c) && HealthyChunk(jobs, c, chains[c]);
    NothingFollows(jobs, c, chains[c], s.fetched[c]);
    forall k | 0 <= k < |s.fetched[c]| ensures s.fetched[c][k] == chains[c][k] {
      ChainsAgree(jobs, c, s.fetched[c], chains[c], k);
    }
  }

  /** A thread that is not done with its chunk gets the next page of the chunk's chain. */
  lemma NextPage<T>(jobs: Jobs<T>, chains: seq<seq<Page<T>>>, s: State<T>, t: nat)
    requires Inv(s, jobs) && Healthy(jobs, chains) && t < |s.threads| && s.threads[t].phase == Working
    requires s.threads[t].hasChunk && !s.threads[t].done
    ensures var l := s.threads[t];
            && l.chunk < jobs.chunks && |s.fetched[l.chunk]| < |chains[l.chunk]|
            && jobs.fetch(l.chunk, if l.started then l.locator else "") == Got(chains[l.chunk][|s.fetched[l.chunk]|])
  {
    assert ThreadOk(s, jobs, t);
    var l := s.threads[t];
    var got, all := s.fetched[l.chunk], chains[l.chunk];
    FetchedIsPrefix(jobs, chains, s, l.chunk);
    assert HealthyChunk(jobs, l.chunk, all);
    if |got| > 0 {
      assert got[|got| - 1] == all[|got| - 1];
      assert |got| < |all|;
      assert Follows(jobs, l.chunk, all[|got| - 1], all[|got| - 1 + 1]);
    }
  }

  lemma HealthyFetch<T>(jobs: Jobs<T>, chains: seq<seq<Page<T>>>, s: State<T>, t: nat)
    requires Inv(s, jobs) && Tracked(s) && Healthy(jobs, chains) && t < |s.threads| && s.threads[t].phase == Working
    requires s.threads[t].hasChunk && !s.threads[t].done
    ensures Fetch(jobs, s, t).threads[t].phase != Failed
  {
    var l := s.threads[t];
    NextPage(jobs, chains, s, t);
    var n, all := |s.fetched[l.chunk]|, chains[l.chunk];
    var pg := all[n];
    assert HealthyChunk(jobs, l.chunk, all) && SeenOk(s, t);
    FetchedIsPrefix(jobs, chains, s, l.chunk);
    if pg.next != "" {
      assert forall k | 0 <= k < n :: s.fetched[l.chunk][k].next == all[k].next != pg.next;
      assert pg.next !in l.seen;
      var after := s.fetched[l.chunk := s.fetched[l.chunk] + [pg]];
      TotalUpdate(s.fetched, l.chunk, s.fetched[l.chunk] + [pg]);
      assert n + 1 < |all|;
      forall c | 0 <= c < |after| ensures |after[c]| <= |chains[c]| { FetchedIsPrefix(jobs, chains, s, c); }
      FewerPages(after, chains, l.chunk);
    }
  }

  lemma HealthyThread<T>(jobs: Jobs<T>, chains: seq<seq<Page<T>>>, s: State<T>, t: nat)
    requires Inv(s, jobs) && Tracked(s) && NoFailure(s) && Healthy(jobs, chains) && t < |s.threads|
    ensures Step(jobs, s, t).threads[t].phase != Failed
  {
    var l := s.threads[t];
    assert ThreadOk(s, jobs, t);
    if Fetches(l) {
      HealthyFetch(jobs, chains, s, t);
    } else if l.phase == Starting {
      assert HealthyChunk(jobs, l.chunk, chains[l.chunk]);
    }
  }

  lemma HealthyStep<T>(jobs: Jobs<T>, chains: seq<seq<Page<T>>>, s: State<T>, t: nat)
    requires Inv(s, jobs) && Tracked(s) && NoFailure(s) && Healthy(jobs, chains) && t < |s.threads|
    ensures NoFailure(Step(jobs, s, t)) && Inv(Step(jobs, s, t), jobs) && Tracked(Step(jobs, s, t))
  {
    HealthyThread(jobs, chains, s, t);
    OnlyOneMoves(jobs, s, t);
    StepInv(jobs, s, t);
    StepTracked(jobs, s, t);
  }

  /** A step of one thread leaves the others where they are. */
  lemma OnlyOneMoves<T>(jobs: Jobs<T>, s: State<T>, t: nat)
    requires t < |s.threads|
    ensures forall u | 0 <= u < |s.threads| && u != t :: Step(jobs, s, t).threads[u] == s.threads[u]
  {
  }

  /** A state a healthy scan can be in. */
  ghost predicate Sound<T>(jobs: Jobs<T>, s: State<T>) {
    Inv(s, jobs) && Tracked(s) && NoFailure(s)
  }

  lemma {:induction false} HealthyRun<T>(jobs: Jobs<T>, chains: seq<seq<Page<T>>>, s: State<T>, schedule: seq<nat>)
    requires Sound(jobs, s) && Healthy(jobs, chains) && forall t :: t in schedule ==> t < |s.threads|
    ensures Sound(jobs, Run(jobs, s, schedule))
    decreases |schedule|
  {
    if |schedule| > 0 {
      assert schedule[0] in schedule && forall t :: t in schedule[1..] ==> t in schedule;
      HealthyStep(jobs, chains, s, schedule[0]);
      HealthyRun(jobs, chains, Step(jobs, s, schedule[0]), schedule[1..]);
    }
  }

  /** Healthy jobs fail in no interleaving of any number of threads. */
  lemma HealthyScansDoNotFail<T>(jobs: Jobs<T>, chains: seq<seq<Page<T>>>, workers: nat, schedule: seq<nat>)
    requires Healthy(jobs, chains) && forall t :: t in schedule ==> t < workers
    ensures NoFailure(Run(jobs, Init(jobs, workers), schedule))
    ensures Sound(jobs, Run(jobs, Init(jobs, workers), schedule))
  {
    InitInv(jobs, workers);
    InitTracked(jobs, workers);
    HealthyRun(jobs, chains, Init(jobs, workers), schedule);
  }

  // ----- Why a scan fails ------------------------------------------------------------

  /** The request after the pages of a chain fails. */
  ghost predicate BreaksOff<T(!new)>(jobs: Jobs<T>, c: nat, pages: seq<Page<T>>) {
    && Chain(jobs, c, pages) && (|pages| > 0 ==> pages[|pages| - 1].next != "")
    && jobs.fetch(c, if |pages| == 0 then "" else pages[|pages| - 1].next).HttpError?
  }

  /** The last page of a chain gives a locator that an earlier one gave. */
  ghost predicate Repeats<T(!new)>(jobs: Jobs<T>, c: nat, pages: seq<Page<T>>) {
    && Chain(jobs, c, pages) && |pages| > 0 && pages[|pages| - 1].next != ""
    && exists k | 0 <= k < |pages| - 1 :: pages[k].next == pages[|pages| - 1].next
  }

  ghost predicate Faulty<T(!new)>(jobs: Jobs<T>, c: nat) {
    !jobs.starts(c) || (exists pages :: BreaksOff(jobs, c, pages)) || (exists pages :: Repeats(jobs, c, pages))
  }

  /** A chunk is at fault, or a million pages were fetched. */
  ghost predicate Cause<T(!new)>(jobs: Jobs<T>, s: State<T>) {
    s.totalPages >= 1_000_000 || exists c | 0 <= c < jobs.chunks :: Faulty(jobs, c)
  }

  lemma FailingFetch<T(!new)>(jobs: Jobs<T>, s: State<T>, t: nat)
    requires Inv(s, jobs) && Tracked(s) && t < |s.threads| && s.threads[t].phase == Working
    requires s.threads[t].hasChunk && !s.threads[t].done && Fetch(jobs, s, t).threads[t].phase == Failed
    ensures Cause(jobs, Fetch(jobs, s, t))
  {
    assert ThreadOk(s, jobs, t) && SeenOk(s, t);
    var l := s.threads[t];
    var pages := s.fetched[l.chunk];
    assert ChunkOk(s, jobs, l.chunk);
    var reply := jobs.fetch(l.chunk, if l.started then l.locator else "");
    if reply.HttpError? {
      assert BreaksOff(jobs, l.chunk, pages);
      assert Faulty(jobs, l.chunk);
    } else if s.totalPages + 1 < BULK_MAX_PAGES {
      var all := pages + [reply.page];
      ChainSnoc(jobs, l.chunk, pages, reply.page);
      var k :| 0 <= k < |pages| && pages[k].next == reply.page.next;
      assert all[k].next == all[|all| - 1].next;
      assert Repeats(jobs, l.chunk, all);
      assert Faulty(jobs, l.chunk);
    }
  }

  lemma FailingStep<T(!new)>(jobs: Jobs<T>, s: State<T>, t: nat)
    requires Sound(jobs, s) && t < |s.threads| && !NoFailure(Step(jobs, s, t))
    ensures Cause(jobs, Step(jobs, s, t))
  {
    assert ThreadOk(s, jobs, t);
    var l := s.threads[t];
    var u :| 0 <= u < |s.threads| && Step(jobs, s, t).threads[u].phase == Failed;
    assert u == t;
    if l.phase == Working && l.hasChunk && !l.done {
      FailingFetch(jobs, s, t);
    } else {
      assert Faulty(jobs, l.chunk);
    }
  }

  lemma StepCounts<T(!new)>(jobs: Jobs<T>, s: State<T>, t: nat)
    requires t < |s.threads| && Cause(jobs, s)
    ensures Cause(jobs, Step(jobs, s, t))
  {
    assert s.totalPages <= Step(jobs, s, t).totalPages;
  }

  lemma {:induction false} FailingRun<T(!new)>(jobs: Jobs<T>, s: State<T>, schedule: seq<nat>)
    requires forall t :: t in schedule ==> t < |s.threads|
    requires Sound(jobs, s) || Cause(jobs, s)
    requires !NoFailure(Run(jobs, s, schedule))
    ensures Cause(jobs, Run(jobs, s, schedule))
    decreases |schedule|
  {
    if |schedule| > 0 {
      assert schedule[0] in schedule && forall t :: t in schedule[1..] ==> t in schedule;
      var t := schedule[0];
      var s' := Step(jobs, s, t);
      if Cause(jobs, s) {
        StepCounts(jobs, s, t);
      } else if NoFailure(s') {
        StepInv(jobs, s, t);
        StepTracked(jobs, s, t);
      } else {
        FailingStep(jobs, s, t);
      }
      FailingRun(jobs, s', schedule[1..]);
    }
  }

  /**
   A failed thread has its reason: some job could not be started, a request on the way along some
   chunk's pages failed, a locator came a second time, or a million pages were fetched.
   */
  lemma FailuresHaveCauses<T(!new)>(jobs: Jobs<T>, workers: nat, schedule: seq<nat>)
    requires forall t :: t in schedule ==> t < workers
    requires !NoFailure(Run(jobs, Init(jobs, workers), schedule))
    ensures Cause(jobs, Run(jobs, Init(jobs, workers), schedule))
  {
    InitInv(jobs, workers);
    InitTracked(jobs, workers);
    FailingRun(jobs, Init(jobs, workers), schedule);
  }

  // ----- A scan can be finished ------------------------------------------------------

  /** How far thread t is from reporting zero rows, if it alone went on. */
  function PagesLeft<T>(chains: seq<seq<Page<T>>>, s: State<T>): int {
    TotalPages(chains) - TotalPages(s.fetched)
  }

  function ChunksLeft<T>(jobs: Jobs<T>, s: State<T>): nat {
    if s.nextChunk < jobs.chunks then jobs.chunks - s.nextChunk else 0
  }

  function Hold<T>(l: Local<T>): nat {
    if l.phase == Starting then 2 else if l.hasChunk then 1 else 0
  }

  function RowsLeft<T>(l: Local<T>): nat {
    if l.cursor <= |l.page| then |l.page| - l.cursor else 0
  }

  function Rank<T>(l: Local<T>): nat {
    if RowsLeft(l) > 0 then (if l.phase == Idle then 2 else 1)
    else if l.phase == Emitting then 3
    else if l.phase == Idle then 2 else 1
  }

  predicate Finished<T>(l: Local<T>) {
    l.zero && l.phase == Idle
  }

  lemma PagesLeftIsNat<T>(jobs: Jobs<T>, chains: seq<seq<Page<T>>>, s: State<T>)
    requires Inv(s, jobs) && Healthy(jobs, chains)
    ensures PagesLeft(chains, s) >= 0
  {
    forall c | 0 <= c < |s.fetched| ensures |s.fetched[c]| <= |chains[c]| { FetchedIsPrefix(jobs, chains, s, c); }
    FewerPages(s.fetched, chains, 0);
  }

  /** A fetch uses up one page; the thread's other measures do not matter then. */
  lemma FetchProgress<T>(jobs: Jobs<T>, chains: seq<seq<Page<T>>>, s: State<T>, t: nat)
    requires Sound(jobs, s) && Healthy(jobs, chains) && t < |s.threads| && s.threads[t].phase == Working
    requires s.threads[t].hasChunk && !s.threads[t].done
    ensures PagesLeft(chains, Fetch(jobs, s, t)) < PagesLeft(chains, s)
  {
    NextPage(jobs, chains, s, t);
    HealthyFetch(jobs, chains, s, t);
    var l := s.threads[t];
    var pg := chains[l.chunk][|s.fetched[l.chunk]|];
    TotalUpdate(s.fetched, l.chunk, s.fetched[l.chunk] + [pg]);
  }

  /** Thread t is nearer to its end. */
  predicate Nearer<T>(jobs: Jobs<T>, chains: seq<seq<Page<T>>>, s: State<T>, s': State<T>, t: nat)
    requires t < |s.threads| == |s'.threads|
  {
    var l, l' := s.threads[t], s'.threads[t];
    || PagesLeft(chains, s') < PagesLeft(chains, s)
    || (&& s'.fetched == s.fetched
        && (|| ChunksLeft(jobs, s') < ChunksLeft(jobs, s)
            || (&& ChunksLeft(jobs, s') == ChunksLeft(jobs, s)
                && (|| Hold(l') < Hold(l)
                    || (&& Hold(l') == Hold(l)
                        && (RowsLeft(l') < RowsLeft(l) || (RowsLeft(l') == RowsLeft(l) && Rank(l') < Rank(l))))))))
  }

  lemma BeginProgress<T>(jobs: Jobs<T>, chains: seq<seq<Page<T>>>, s: State<T>, t: nat)
    requires t < |s.threads| && s.threads[t].phase == Idle && s.threads[t].cursor <= |s.threads[t].page|
    ensures Nearer(jobs, chains, s, Begin(s, t), t)
  {
  }

  lemma EmitProgress<T>(jobs: Jobs<T>, chains: seq<seq<Page<T>>>, s: State<T>, t: nat)
    requires t < |s.threads| && s.threads[t].phase == Emitting && s.threads[t].cursor <= |s.threads[t].page|
    ensures Nearer(jobs, chains, s, Emit(s, t), t)
  {
  }

  lemma StartProgress<T>(jobs: Jobs<T>, chains: seq<seq<Page<T>>>, s: State<T>, t: nat)
    requires t < |s.threads| && s.threads[t].phase == Starting && jobs.starts(s.threads[t].chunk)
    ensures Nearer(jobs, chains, s, StartJob(jobs, s, t), t)
  {
  }

  lemma ReleaseProgress<T>(jobs: Jobs<T>, chains: seq<seq<Page<T>>>, s: State<T>, t: nat)
    requires t < |s.threads| && s.threads[t].phase == Working && s.threads[t].hasChunk
    ensures Nearer(jobs, chains, s, Release(s, t), t)
  {
  }

  lemma ClaimProgress<T>(jobs: Jobs<T>, chains: seq<seq<Page<T>>>, s: State<T>, t: nat)
    requires t < |s.threads| && s.threads[t].phase == Working
    ensures Finished(Claim(jobs, s, t).threads[t]) || Nearer(jobs, chains, s, Claim(jobs, s, t), t)
  {
  }

  /** Every step of an unfinished thread brings it nearer to its end. */
  lemma StepProgress<T>(jobs: Jobs<T>, chains: seq<seq<Page<T>>>, s: State<T>, t: nat)
    requires Sound(jobs, s) && Healthy(jobs, chains) && t < |s.threads| && !Finished(s.threads[t])
    ensures Finished(Step(jobs, s, t).threads[t]) || Nearer(jobs, chains, s, Step(jobs, s, t), t)
  {
    assert ThreadOk(s, jobs, t) && s.threads[t].phase != Failed;
    var l := s.threads[t];
    match l.phase
    case Idle => BeginProgress(jobs, chains, s, t);
    case Emitting => EmitProgress(jobs, chains, s, t);
    case Starting =>
      assert HealthyChunk(jobs, l.chunk, chains[l.chunk]);
      StartProgress(jobs, chains, s, t);
    case Working =>
      if Fetches(l) {
        FetchProgress(jobs, chains, s, t);
      } else if l.hasChunk {
        ReleaseProgress(jobs, chains, s, t);
      } else {
        ClaimProgress(jobs, chains, s, t);
      }
  }

  lemma RunCons<T>(jobs: Jobs<T>, s: State<T>, t: nat, rest: seq<nat>)
    requires t < |s.threads| && forall u :: u in rest ==> u < |s.threads|
    ensures Run(jobs, s, [t] + rest) == Run(jobs, Step(jobs, s, t), rest)
  {
    assert ([t] + rest)[1..] == rest;
  }

  /** From any sound state, running thread t alone brings it to report zero rows. */
  lemma {:induction false} FinishThread<T>(jobs: Jobs<T>, chains: seq<seq<Page<T>>>, s: State<T>, t: nat)
    returns (schedule: seq<nat>)
    requires Sound(jobs, s) && Healthy(jobs, chains) && t < |s.threads|
    ensures forall u :: u in schedule ==> u == t
    ensures Sound(jobs, Run(jobs, s, schedule)) && Finished(Run(jobs, s, schedule).threads[t])
    ensures forall u | 0 <= u < |s.threads| && u != t :: Run(jobs, s, schedule).threads[u] == s.threads[u]
    decreases PagesLeft(chains, s), ChunksLeft(jobs, s), Hold(s.threads[t]), RowsLeft(s.threads[t]), Rank(s.threads[t]),
              if Finished(s.threads[t]) then 0 else 1
  {
    if Finished(s.threads[t]) {
      return [];
    }
    var s' := Step(jobs, s, t);
    HealthyStep(jobs, chains, s, t);
    OnlyOneMoves(jobs, s, t);
    PagesLeftIsNat(jobs, chains, s);
    PagesLeftIsNat(jobs, chains, s');
    if Finished(s'.threads[t]) {
      schedule := [t];
      RunCons(jobs, s, t, []);
      assert [t] + [] == [t];
      return;
    }
    StepProgress(jobs, chains, s, t);
    var rest := FinishThread(jobs, chains, s', t);
    schedule := [t] + rest;
    RunCons(jobs, s, t, rest);
  }

  lemma {:induction false} RunAppend<T>(jobs: Jobs<T>, s: State<T>, a: seq<nat>, b: seq<nat>)
    requires forall t :: t in a + b ==> t < |s.threads|
    ensures (forall t :: t in a ==> t < |s.threads|) && (forall t :: t in b ==> t < |Run(jobs, s, a).threads|)
    ensures Run(jobs, s, a + b) == Run(jobs, Run(jobs, s, a), b)
    decreases |a|
  {
    forall t | t in a ensures t < |s.threads| { assert t in a + b; }
    forall t | t in b ensures t < |s.threads| { assert t in a + b; }
    if |a| == 0 {
      assert a + b == b;
    } else {
      assert (a + b)[1..] == a[1..] + b && (a + b)[0] == a[0] && a[0] in a;
      forall t | t in a[1..] + b ensures t < |s.threads| { assert t in a + b; }
      RunAppend(jobs, Step(jobs, s, a[0]), a[1..], b);
    }
  }

  /** The first k threads have reported zero rows; the others can be brought there one after another. */
  lemma {:induction false} FinishFrom<T>(jobs: Jobs<T>, chains: seq<seq<Page<T>>>, s: State<T>, k: nat)
    returns (schedule: seq<nat>)
    requires Sound(jobs, s) && Healthy(jobs, chains) && k <= |s.threads|
    requires forall u | 0 <= u < k :: Finished(s.threads[u])
    ensures forall u :: u in schedule ==> u < |s.threads|
    ensures AllReportedZero(Run(jobs, s, schedule))
    decreases |s.threads| - k
  {
    if k == |s.threads| {
      return [];
    }
    var first := FinishThread(jobs, chains, s, k);
    var s' := Run(jobs, s, first);
    forall u | 0 <= u < k + 1 ensures Finished(s'.threads[u]) {
      if u < k { assert s'.threads[u] == s.threads[u]; }
    }
    var rest := FinishFrom(jobs, chains, s', k + 1);
    schedule := first + rest;
    RunAppend(jobs, s, first, rest);
  }

  /** However a healthy scan has gone so far, it can go on to its end. */
  lemma HealthyScansCanFinish<T>(jobs: Jobs<T>, chains: seq<seq<Page<T>>>, workers: nat, schedule: seq<nat>)
    returns (rest: seq<nat>)
    requires Healthy(jobs, chains) && forall t :: t in schedule ==> t < workers
    ensures forall t :: t in schedule + rest ==> t < workers
    ensures AllReportedZero(Run(jobs, Init(jobs, workers), schedule + rest))
  {
    HealthyScansDoNotFail(jobs, chains, workers, schedule);
    rest := FinishFrom(jobs, chains, Run(jobs, Init(jobs, workers), schedule), 0);
    RunAppend(jobs, Init(jobs, workers), schedule, rest);
  }

  /** And at its end it has emitted the rows of all chains, each once. */
  lemma HealthyScansDeliver<T>(jobs: Jobs<T>, chains: seq<seq<Page<T>>>, workers: nat, schedule: seq<nat>)
    requires Healthy(jobs, chains) && workers > 0 && forall t :: t in schedule ==> t < workers
    requires AllReportedZero(Run(jobs, Init(jobs, workers), schedule))
    ensures Run(jobs, Init(jobs, workers), schedule).emitted == AllFetched(chains)
  {
    var s := Run(jobs, Init(jobs, workers), schedule);
    ParallelScanComplete(jobs, workers, schedule);
    forall c | 0 <= c < |chains| ensures s.fetched[c] == chains[c] {
      assert HealthyChunk(jobs, c, chains[c]);
      CompleteChainUnique(jobs, c, s.fetched[c], chains[c]);
    }
    assert s.fetched == chains;
  }

  /** A step hands out at most one vector of 2048 rows, and only an emitting thread hands out any. */
  lemma StepIsBounded<T>(jobs: Jobs<T>, s: State<T>, t: nat)
    requires t < |s.threads|
    ensures var s' := Step(jobs, s, t);
            && |s'.emitted| <= |s.emitted| + 2048
            && (s.threads[t].phase != Emitting ==> s'.emitted == s.emitted)
  {
  }
}
