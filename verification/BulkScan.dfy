/**
 The parallel Bulk scan. Threads claim chunk indices from a shared counter and
 stream the result pages of their chunk; the schedule is arbitrary. Once every
 thread has reported zero rows without an error, the rows emitted are the rows of
 all chunks, each once.
 */
module BulkScan {

  const VECTOR_SIZE: nat := 2048
  const BULK_MAX_PAGES: nat := 1000000

  /** A result page; an empty `next` is the last page. */
  datatype Page<T> = Page(rows: seq<T>, next: string)

  datatype Reply<T> = HttpError | Got(page: Page<T>)

  /** The jobs behind the chunks: whether one can be started, and its pages by locator. */
  datatype Jobs<!T> = Jobs(chunks: nat, starts: nat -> bool, fetch: (nat, string) -> Reply<T>)

  datatype Phase = Idle | Working | Starting | Emitting | Failed

  /** ScanLocalState, with the point the thread has reached inside its call. */
  datatype Local<T> = Local(
    phase: Phase,
    zero: bool,          // the last call returned no rows
    hasChunk: bool,
    chunk: nat,
    started: bool,
    done: bool,
    locator: string,
    seen: set<string>,
    page: seq<T>,
    cursor: nat)

  /**
   ScanGlobalState and the thread states, with what has been observed so far: the
   claims made, the pages fetched per chunk, the rows handed to DuckDB.
   */
  datatype State<T> = State(
    nextChunk: nat,
    totalPages: nat,
    threads: seq<Local<T>>,
    claims: seq<nat>,            // claims[i] is the thread that claimed chunk i
    fetched: seq<seq<Page<T>>>,  // per chunk
    emitted: multiset<T>)

  function FreshLocal<T>(): Local<T> {
    Local(Idle, false, false, 0, false, false, "", {}, [], 0)
  }

  function Init<T>(jobs: Jobs<T>, workers: nat): State<T> {
    State(0, 0, seq(workers, i => FreshLocal()), [], seq(jobs.chunks, i => []), multiset{})
  }

  // ----- One thread's next action -------------------------------------------

  function WithThread<T>(s: State<T>, t: nat, l: Local<T>): State<T>
    requires t < |s.threads|
  {
    s.(threads := s.threads[t := l])
  }

  /** A call begins: rows left on the page are emitted, otherwise a page is needed. */
  function Begin<T>(s: State<T>, t: nat): State<T>
    requires t < |s.threads|
  {
    var l := s.threads[t];
    WithThread(s, t, l.(phase := if l.cursor < |l.page| then Emitting else Working, zero := false))
  }

  /** The dispenser: one atomic fetch_add. */
  function Claim<T>(jobs: Jobs<T>, s: State<T>, t: nat): State<T>
    requires t < |s.threads|
  {
    var l := s.threads[t];
    var index := s.nextChunk;
    if index >= jobs.chunks then
      WithThread(s.(nextChunk := index + 1), t, l.(phase := Idle, zero := true))
    else
      WithThread(s.(nextChunk := index + 1, claims := s.claims + [t]), t, l.(phase := Starting, chunk := index))
  }

  function StartJob<T>(jobs: Jobs<T>, s: State<T>, t: nat): State<T>
    requires t < |s.threads|
  {
    var l := s.threads[t];
    if !jobs.starts(l.chunk) then WithThread(s, t, l.(phase := Failed))
    else
      WithThread(s, t, l.(phase := Working, started := false, done := false, locator := "", seen := {},
                          hasChunk := true))
  }

  /** One turn of BulkAdvancePage's loop. */
  function Fetch<T>(jobs: Jobs<T>, s: State<T>, t: nat): State<T>
    requires t < |s.threads|
  {
    var l := s.threads[t];
    match jobs.fetch(l.chunk, if l.started then l.locator else "")
    case HttpError => WithThread(s, t, l.(phase := Failed))
    case Got(pg) =>
      var total := s.totalPages + 1;
      var s' := s.(totalPages := total);
      var l' := l.(started := true, page := pg.rows, cursor := 0);
      if pg.next != "" && (total >= BULK_MAX_PAGES || pg.next in l.seen) then
        WithThread(s', t, l'.(phase := Failed))
      else
        var l'' := if pg.next == "" then l'.(done := true) else l'.(seen := l.seen + {pg.next}, locator := pg.next);
        var recorded := if l.chunk < |s.fetched|
                        then s'.(fetched := s.fetched[l.chunk := s.fetched[l.chunk] + [pg]]) else s';
        WithThread(recorded, t, l''.(phase := if |pg.rows| > 0 then Emitting else Working))
  }

  /** The chunk is drained; the thread will claim another. */
  function Release<T>(s: State<T>, t: nat): State<T>
    requires t < |s.threads|
  {
    WithThread(s, t, s.threads[t].(hasChunk := false))
  }

  function Emit<T>(s: State<T>, t: nat): State<T>
    requires t < |s.threads| && s.threads[t].cursor <= |s.threads[t].page|
  {
    var l := s.threads[t];
    var left := |l.page| - l.cursor;
    var n := if left < VECTOR_SIZE then left else VECTOR_SIZE;
    WithThread(s.(emitted := s.emitted + multiset(l.page[l.cursor..l.cursor + n])), t,
               l.(phase := Idle, cursor := l.cursor + n))
  }

  /** What thread t does next; a failed thread does nothing more. */
  function Step<T>(jobs: Jobs<T>, s: State<T>, t: nat): (r: State<T>)
    requires t < |s.threads|
    ensures |r.threads| == |s.threads|
  {
    var l := s.threads[t];
    match l.phase
    case Idle => Begin(s, t)
    case Starting => StartJob(jobs, s, t)
    case Failed => s
    case Emitting => if l.cursor <= |l.page| then Emit(s, t) else s
    case Working =>
      if !l.hasChunk then Claim(jobs, s, t)
      else if l.done then Release(s, t)
      else Fetch(jobs, s, t)
  }

  /** A schedule names which thread moves next. */
  function Run<T>(jobs: Jobs<T>, s: State<T>, schedule: seq<nat>): (r: State<T>)
    requires forall t :: t in schedule ==> t < |s.threads|
    ensures |r.threads| == |s.threads|
    decreases |schedule|
  {
    if |schedule| == 0 then s
    else
      assert schedule[0] in schedule && forall t :: t in schedule[1..] ==> t in schedule;
      Run(jobs, Step(jobs, s, schedule[0]), schedule[1..])
  }

  // ----- Pages of a chunk ---------------------------------------------------

  function Rows<T>(pages: seq<Page<T>>): seq<T> {
    if |pages| == 0 then [] else pages[0].rows + Rows(pages[1..])
  }

  /** The pages a job serves when each page's locator is followed. */
  ghost predicate Chain<T>(jobs: Jobs<T>, c: nat, pages: seq<Page<T>>) {
    && (|pages| > 0 ==> jobs.fetch(c, "") == Got(pages[0]))
    && forall k | 0 <= k < |pages| - 1 :: Follows(jobs, c, pages[k], pages[k + 1])
  }

  ghost predicate Follows<T>(jobs: Jobs<T>, c: nat, a: Page<T>, b: Page<T>) {
    a.next != "" && jobs.fetch(c, a.next) == Got(b)
  }

  lemma ChainSnoc<T>(jobs: Jobs<T>, c: nat, pages: seq<Page<T>>, pg: Page<T>)
    requires Chain(jobs, c, pages)
    requires if |pages| == 0 then jobs.fetch(c, "") == Got(pg) else Follows(jobs, c, pages[|pages| - 1], pg)
    ensures Chain(jobs, c, pages + [pg])
  {
    var all := pages + [pg];
    forall k | 0 <= k < |all| - 1 ensures Follows(jobs, c, all[k], all[k + 1]) {
      if k < |pages| - 1 { assert Follows(jobs, c, pages[k], pages[k + 1]); }
    }
  }

  ghost predicate CompleteChain<T>(jobs: Jobs<T>, c: nat, pages: seq<Page<T>>) {
    Chain(jobs, c, pages) && |pages| > 0 && pages[|pages| - 1].next == ""
  }

  /** A job's complete chain is unique, so "the rows of chunk c" is well defined. */
  lemma {:induction false} ChainsAgree<T>(jobs: Jobs<T>, c: nat, a: seq<Page<T>>, b: seq<Page<T>>, k: nat)
    requires Chain(jobs, c, a) && Chain(jobs, c, b) && k < |a| && k < |b|
    ensures a[k] == b[k]
  {
    if k > 0 {
      ChainsAgree(jobs, c, a, b, k - 1);
      assert Follows(jobs, c, a[k - 1], a[k - 1 + 1]) && Follows(jobs, c, b[k - 1], b[k - 1 + 1]);
    }
  }

  lemma HasNext<T>(jobs: Jobs<T>, c: nat, pages: seq<Page<T>>, k: nat)
    requires Chain(jobs, c, pages) && k + 1 < |pages|
    ensures pages[k].next != ""
  {
    assert Follows(jobs, c, pages[k], pages[k + 1]);
  }

  lemma NothingFollows<T>(jobs: Jobs<T>, c: nat, a: seq<Page<T>>, b: seq<Page<T>>)
    requires CompleteChain(jobs, c, a) && Chain(jobs, c, b)
    ensures |b| <= |a|
  {
    if |a| < |b| {
      HasNext(jobs, c, b, |a| - 1);
      ChainsAgree(jobs, c, a, b, |a| - 1);
    }
  }

  lemma CompleteChainUnique<T>(jobs: Jobs<T>, c: nat, a: seq<Page<T>>, b: seq<Page<T>>)
    requires CompleteChain(jobs, c, a) && CompleteChain(jobs, c, b)
    ensures a == b
  {
    var n := if |a| <= |b| then |a| else |b|;
    forall k | 0 <= k < n ensures a[k] == b[k] { ChainsAgree(jobs, c, a, b, k); }
    NothingFollows(jobs, c, a, b);
    NothingFollows(jobs, c, b, a);
  }

  // ----- Multiset sums ------------------------------------------------------

  /** Sums may be regrouped and reordered. */
  lemma Regroup<T>(a: multiset<T>, b: multiset<T>, c: multiset<T>)
    ensures (a + b) + c == a + (b + c)
    ensures (a + b) + c == (c + b) + a
    ensures a + b == b + a
  {
  }

  lemma Cancel<T>(a: multiset<T>, b: multiset<T>, x: multiset<T>)
    requires a + x == b + x
    ensures a == b
  {
    forall y ensures a[y] == b[y] {
      assert (a + x)[y] == a[y] + x[y];
      assert (b + x)[y] == b[y] + x[y];
    }
  }

  function Pending<T>(l: Local<T>): multiset<T> {
    if l.cursor <= |l.page| then multiset(l.page[l.cursor..]) else multiset{}
  }

  function AllPending<T>(ls: seq<Local<T>>): multiset<T> {
    if |ls| == 0 then multiset{} else Pending(ls[0]) + AllPending(ls[1..])
  }

  function AllFetched<T>(chunks: seq<seq<Page<T>>>): multiset<T> {
    if |chunks| == 0 then multiset{} else multiset(Rows(chunks[0])) + AllFetched(chunks[1..])
  }

  lemma {:induction false} PendingUpdate<T>(ls: seq<Local<T>>, t: nat, l: Local<T>)
    requires t < |ls|
    ensures AllPending(ls[t := l]) + Pending(ls[t]) == AllPending(ls) + Pending(l)
  {
    if t == 0 {
      assert ls[t := l][1..] == ls[1..];
      Regroup(Pending(l), AllPending(ls[1..]), Pending(ls[0]));
    } else {
      assert ls[t := l][1..] == ls[1..][t - 1 := l];
      PendingUpdate(ls[1..], t - 1, l);
      Regroup(Pending(ls[0]), AllPending(ls[1..][t - 1 := l]), Pending(ls[t]));
      Regroup(Pending(ls[0]), AllPending(ls[1..]), Pending(l));
    }
  }

  lemma {:induction false} FetchedUpdate<T>(cs: seq<seq<Page<T>>>, c: nat, pages: seq<Page<T>>)
    requires c < |cs|
    ensures AllFetched(cs[c := pages]) + multiset(Rows(cs[c])) == AllFetched(cs) + multiset(Rows(pages))
  {
    if c == 0 {
      assert cs[c := pages][1..] == cs[1..];
      Regroup(multiset(Rows(pages)), AllFetched(cs[1..]), multiset(Rows(cs[0])));
    } else {
      assert cs[c := pages][1..] == cs[1..][c - 1 := pages];
      FetchedUpdate(cs[1..], c - 1, pages);
      Regroup(multiset(Rows(cs[0])), AllFetched(cs[1..][c - 1 := pages]), multiset(Rows(cs[c])));
      Regroup(multiset(Rows(cs[0])), AllFetched(cs[1..]), multiset(Rows(pages)));
    }
  }

  lemma {:induction false} RowsSnoc<T>(pages: seq<Page<T>>, pg: Page<T>)
    ensures Rows(pages + [pg]) == Rows(pages) + pg.rows
  {
    if |pages| == 0 {
      assert pages + [pg] == [pg];
    } else {
      assert (pages + [pg])[1..] == pages[1..] + [pg];
      RowsSnoc(pages[1..], pg);
    }
  }

  lemma {:induction false} NothingFetched<T>(cs: seq<seq<Page<T>>>)
    requires forall c | 0 <= c < |cs| :: cs[c] == []
    ensures AllFetched(cs) == multiset{}
  {
    if |cs| > 0 { NothingFetched(cs[1..]); }
  }

  lemma {:induction false} NothingPending<T>(ls: seq<Local<T>>)
    requires forall t | 0 <= t < |ls| :: Pending(ls[t]) == multiset{}
    ensures AllPending(ls) == multiset{}
  {
    if |ls| > 0 { NothingPending(ls[1..]); }
  }

  // ----- Invariant ----------------------------------------------------------

  /** The thread still owns its chunk: it is starting it, streaming it, or died on it. */
  predicate Holds<T>(l: Local<T>) {
    l.phase == Starting || l.hasChunk || l.phase == Failed
  }

  /** The thread's streaming position is where its chunk's fetched pages end. */
  predicate InStep<T>(l: Local<T>, pages: seq<Page<T>>) {
    && l.started == (|pages| > 0)
    && (|pages| == 0 ==> !l.done)
    && (|pages| > 0 ==> l.done == (pages[|pages| - 1].next == ""))
    && (|pages| > 0 && !l.done ==> l.locator == pages[|pages| - 1].next)
  }

  predicate ThreadOk<T>(s: State<T>, jobs: Jobs<T>, t: nat)
    requires t < |s.threads| && |s.fetched| == jobs.chunks
  {
    var l := s.threads[t];
    && l.cursor <= |l.page|
    && (l.phase == Starting || l.hasChunk ==> l.chunk < |s.claims| && l.chunk < jobs.chunks && s.claims[l.chunk] == t)
    && (l.phase == Starting ==> !l.hasChunk && s.fetched[l.chunk] == [])
    && (l.phase == Starting || l.phase == Working ==> l.cursor == |l.page|)
    && (l.hasChunk && l.phase != Failed ==> InStep(l, s.fetched[l.chunk]))
    && (l.zero ==> l.phase == Idle && !l.hasChunk && l.cursor == |l.page| && s.nextChunk >= jobs.chunks)
  }

  /** A chunk is untouched, owned by the thread that claimed it, or complete. */
  ghost predicate ChunkOk<T>(s: State<T>, jobs: Jobs<T>, c: nat)
    requires c < |s.fetched|
  {
    && Chain(jobs, c, s.fetched[c])
    && (c >= |s.claims| ==> s.fetched[c] == [])
    && (c < |s.claims| && s.claims[c] < |s.threads| ==>
          var l := s.threads[s.claims[c]];
          (Holds(l) && l.chunk == c) || CompleteChain(jobs, c, s.fetched[c]))
  }

  predicate NoFailure<T>(s: State<T>) {
    forall t | 0 <= t < |s.threads| :: s.threads[t].phase != Failed
  }

  ghost predicate Accounts<T>(s: State<T>) {
    s.emitted + AllPending(s.threads) == AllFetched(s.fetched)
  }

  ghost predicate Shape<T>(s: State<T>, jobs: Jobs<T>) {
    && |s.fetched| == jobs.chunks
    && |s.claims| == (if s.nextChunk < jobs.chunks then s.nextChunk else jobs.chunks)
    && (forall i | 0 <= i < |s.claims| :: s.claims[i] < |s.threads|)
  }

  /** While no thread has failed, nothing is lost and nothing is duplicated. */
  ghost predicate Inv<T>(s: State<T>, jobs: Jobs<T>) {
    && Shape(s, jobs)
    && (forall t | 0 <= t < |s.threads| :: ThreadOk(s, jobs, t))
    && (forall c | 0 <= c < jobs.chunks :: ChunkOk(s, jobs, c))
    && Accounts(s)
  }

  lemma InitAccounts<T>(jobs: Jobs<T>, workers: nat)
    ensures Accounts(Init(jobs, workers))
  {
    var s := Init(jobs, workers);
    NothingFetched(s.fetched);
    NothingPending(s.threads);
  }

  lemma InitInv<T>(jobs: Jobs<T>, workers: nat)
    ensures Inv(Init(jobs, workers), jobs) && NoFailure(Init(jobs, workers))
  {
    var s := Init(jobs, workers);
    InitAccounts(jobs, workers);
    forall t | 0 <= t < |s.threads| ensures ThreadOk(s, jobs, t) {
      assert s.threads[t] == FreshLocal<T>();
    }
    forall c | 0 <= c < jobs.chunks ensures ChunkOk(s, jobs, c) {
      assert s.fetched[c] == [];
    }
  }

  /** Only thread t moved, and only chunks it claimed gained pages. */
  predicate Moved<T>(s: State<T>, s': State<T>, t: nat) {
    && t < |s.threads| == |s'.threads| && |s.fetched| == |s'.fetched|
    && (forall u | 0 <= u < |s.threads| && u != t :: s'.threads[u] == s.threads[u])
    && s.nextChunk <= s'.nextChunk && s.claims <= s'.claims
    && (forall i | |s.claims| <= i < |s'.claims| :: s'.claims[i] == t)
    && (forall c | 0 <= c < |s.fetched| && !(c < |s.claims| && s.claims[c] == t) :: s'.fetched[c] == s.fetched[c])
  }

  /** What is left to check when one thread moved: that thread and the chunks it claimed. */
  lemma MoveKeepsInv<T>(jobs: Jobs<T>, s: State<T>, s': State<T>, t: nat)
    requires Inv(s, jobs) && Moved(s, s', t) && Shape(s', jobs) && Accounts(s')
    requires ThreadOk(s', jobs, t)
    requires forall c | 0 <= c < |s'.claims| && s'.claims[c] == t :: ChunkOk(s', jobs, c)
    ensures Inv(s', jobs)
  {
    forall u | 0 <= u < |s'.threads| ensures ThreadOk(s', jobs, u) {
      assert ThreadOk(s, jobs, u);
    }
    forall c | 0 <= c < jobs.chunks ensures ChunkOk(s', jobs, c) {
      assert ChunkOk(s, jobs, c);
    }
  }

  /** A move that neither emits nor fetches nor drops rows keeps the accounts. */
  lemma SamePending<T>(s: State<T>, s': State<T>, t: nat)
    requires Accounts(s) && t < |s.threads| == |s'.threads| && s'.threads == s.threads[t := s'.threads[t]]
    requires s'.emitted == s.emitted && s'.fetched == s.fetched
    requires Pending(s'.threads[t]) == Pending(s.threads[t])
    ensures Accounts(s')
  {
    PendingUpdate(s.threads, t, s'.threads[t]);
    Cancel(AllPending(s'.threads), AllPending(s.threads), Pending(s.threads[t]));
  }

  /** A move of thread t that touches nothing shared but the rows, and keeps hold of its chunk. */
  lemma LocalMoveInv<T>(jobs: Jobs<T>, s: State<T>, s': State<T>, t: nat)
    requires Inv(s, jobs) && t < |s.threads| == |s'.threads| && s'.threads == s.threads[t := s'.threads[t]]
    requires s'.claims == s.claims && s'.nextChunk == s.nextChunk && s'.fetched == s.fetched
    requires Accounts(s') && ThreadOk(s', jobs, t)
    requires Holds(s.threads[t]) ==> Holds(s'.threads[t]) && s'.threads[t].chunk == s.threads[t].chunk
    ensures Inv(s', jobs)
  {
    forall c | 0 <= c < |s'.claims| && s'.claims[c] == t ensures ChunkOk(s', jobs, c) { assert ChunkOk(s, jobs, c); }
    MoveKeepsInv(jobs, s, s', t);
  }

  lemma BeginInv<T>(jobs: Jobs<T>, s: State<T>, t: nat)
    requires Inv(s, jobs) && t < |s.threads| && s.threads[t].phase == Idle
    ensures Inv(Begin(s, t), jobs)
  {
    assert ThreadOk(s, jobs, t);
    var s' := Begin(s, t);
    SamePending(s, s', t);
    LocalMoveInv(jobs, s, s', t);
  }

  lemma ClaimInv<T>(jobs: Jobs<T>, s: State<T>, t: nat)
    requires Inv(s, jobs) && t < |s.threads| && s.threads[t].phase == Working && !s.threads[t].hasChunk
    ensures Inv(Claim(jobs, s, t), jobs)
  {
    assert ThreadOk(s, jobs, t);
    var s' := Claim(jobs, s, t);
    SamePending(s, s', t);
    if s.nextChunk < jobs.chunks { assert ChunkOk(s, jobs, s.nextChunk); }
    forall c | 0 <= c < |s'.claims| && s'.claims[c] == t ensures ChunkOk(s', jobs, c) { assert ChunkOk(s, jobs, c); }
    MoveKeepsInv(jobs, s, s', t);
  }

  lemma StartInv<T>(jobs: Jobs<T>, s: State<T>, t: nat)
    requires Inv(s, jobs) && t < |s.threads| && s.threads[t].phase == Starting && jobs.starts(s.threads[t].chunk)
    ensures Inv(StartJob(jobs, s, t), jobs)
  {
    assert ThreadOk(s, jobs, t);
    var s' := StartJob(jobs, s, t);
    SamePending(s, s', t);
    LocalMoveInv(jobs, s, s', t);
  }

  lemma ReleaseInv<T>(jobs: Jobs<T>, s: State<T>, t: nat)
    requires Inv(s, jobs) && t < |s.threads| && s.threads[t].phase == Working
    requires s.threads[t].hasChunk && s.threads[t].done
    ensures Inv(Release(s, t), jobs)
  {
    assert ThreadOk(s, jobs, t);
    var s' := Release(s, t);
    SamePending(s, s', t);
    forall c | 0 <= c < |s'.claims| && s'.claims[c] == t ensures ChunkOk(s', jobs, c) { assert ChunkOk(s, jobs, c); }
    MoveKeepsInv(jobs, s, s', t);
  }

  lemma EmitSums<T>(before: multiset<T>, after: multiset<T>, out: multiset<T>, left: multiset<T>)
    requires after + (out + left) == before + left
    ensures out + after == before
  {
    assert after + (out + left) == (out + after) + left;
    Cancel(out + after, before, left);
  }

  lemma FetchSums<T>(before: multiset<T>, after: multiset<T>, held: multiset<T>, rows: multiset<T>)
    requires after + held == before + (held + rows)
    ensures after == before + rows
  {
    assert before + (held + rows) == (before + rows) + held;
    Cancel(after, before + rows, held);
  }

  lemma SplitPage<T>(page: seq<T>, i: nat, j: nat)
    requires i <= j <= |page|
    ensures multiset(page[i..]) == multiset(page[i..j]) + multiset(page[j..])
  {
    assert page[i..] == page[i..j] + page[j..];
  }

  lemma EmitAccounts<T>(s: State<T>, s': State<T>, t: nat, out: multiset<T>)
    requires Accounts(s) && t < |s.threads| == |s'.threads| && s'.threads == s.threads[t := s'.threads[t]]
    requires s'.fetched == s.fetched && s'.emitted == s.emitted + out
    requires Pending(s.threads[t]) == out + Pending(s'.threads[t])
    ensures Accounts(s')
  {
    PendingUpdate(s.threads, t, s'.threads[t]);
    EmitSums(AllPending(s.threads), AllPending(s'.threads), out, Pending(s'.threads[t]));
    Regroup(s.emitted, out, AllPending(s'.threads));
  }

  lemma EmitInv<T>(jobs: Jobs<T>, s: State<T>, t: nat)
    requires Inv(s, jobs) && t < |s.threads| && s.threads[t].phase == Emitting
    requires s.threads[t].cursor <= |s.threads[t].page|
    ensures Inv(Emit(s, t), jobs)
  {
    assert ThreadOk(s, jobs, t);
    var s' := Emit(s, t);
    var l, l' := s.threads[t], s'.threads[t];
    assert Accounts(s') by {
      SplitPage(l.page, l.cursor, l'.cursor);
      EmitAccounts(s, s', t, multiset(l.page[l.cursor..l'.cursor]));
    }
    LocalMoveInv(jobs, s, s', t);
  }

  lemma PageAccounts<T>(s: State<T>, s': State<T>, t: nat, c: nat, pg: Page<T>)
    requires Accounts(s) && t < |s.threads| == |s'.threads| && c < |s.fetched|
    requires s'.threads == s.threads[t := s'.threads[t]] && s'.emitted == s.emitted
    requires s'.fetched == s.fetched[c := s.fetched[c] + [pg]]
    requires Pending(s.threads[t]) == multiset{} && Pending(s'.threads[t]) == multiset(pg.rows)
    ensures Accounts(s')
  {
    PendingUpdate(s.threads, t, s'.threads[t]);
    FetchedUpdate(s.fetched, c, s.fetched[c] + [pg]);
    RowsSnoc(s.fetched[c], pg);
    FetchSums(AllFetched(s.fetched), AllFetched(s'.fetched), multiset(Rows(s.fetched[c])), multiset(pg.rows));
    Regroup(s.emitted, AllPending(s.threads), multiset(pg.rows));
  }

  /** A page that does not end the scan in an error. */
  lemma FetchedPage<T>(jobs: Jobs<T>, s: State<T>, t: nat) returns (pg: Page<T>)
    requires Inv(s, jobs) && t < |s.threads| && s.threads[t].phase == Working
    requires s.threads[t].hasChunk && !s.threads[t].done
    requires Fetch(jobs, s, t).threads[t].phase != Failed
    ensures var l, s' := s.threads[t], Fetch(jobs, s, t);
            && l.chunk < |s.fetched|
            && s'.fetched == s.fetched[l.chunk := s.fetched[l.chunk] + [pg]]
            && s'.threads == s.threads[t := s'.threads[t]] && s'.emitted == s.emitted
            && s'.claims == s.claims && s'.nextChunk == s.nextChunk
            && s'.threads[t].page == pg.rows && s'.threads[t].cursor == 0
            && s'.threads[t].hasChunk && s'.threads[t].chunk == l.chunk && s'.threads[t].zero == l.zero
            && InStep(s'.threads[t], s'.fetched[l.chunk])
            && (s'.threads[t].phase == Emitting || (s'.threads[t].phase == Working && |pg.rows| == 0))
    ensures Chain(jobs, s.threads[t].chunk, s.fetched[s.threads[t].chunk] + [pg])
  {
    assert ThreadOk(s, jobs, t);
    var l := s.threads[t];
    assert ChunkOk(s, jobs, l.chunk);
    pg := jobs.fetch(l.chunk, if l.started then l.locator else "").page;
    ChainSnoc(jobs, l.chunk, s.fetched[l.chunk], pg);
  }

  /** A page arrives, is recorded as the next page of its chunk, and becomes the thread's page. */
  lemma FetchInv<T>(jobs: Jobs<T>, s: State<T>, t: nat)
    requires Inv(s, jobs) && t < |s.threads| && s.threads[t].phase == Working
    requires s.threads[t].hasChunk && !s.threads[t].done
    requires Fetch(jobs, s, t).threads[t].phase != Failed
    ensures Inv(Fetch(jobs, s, t), jobs)
  {
    assert ThreadOk(s, jobs, t);
    var pg := FetchedPage(jobs, s, t);
    var s' := Fetch(jobs, s, t);
    assert s'.threads[t].page[0..] == pg.rows;
    PageAccounts(s, s', t, s.threads[t].chunk, pg);
    MovedByFetch(jobs, s, s', t, pg);
  }

  lemma MovedByFetch<T>(jobs: Jobs<T>, s: State<T>, s': State<T>, t: nat, pg: Page<T>)
    requires Inv(s, jobs) && t < |s.threads| == |s'.threads| && Accounts(s')
    requires s.threads[t].hasChunk && s.threads[t].chunk < |s.fetched| && s.threads[t].phase == Working
    requires s'.fetched == s.fetched[s.threads[t].chunk := s.fetched[s.threads[t].chunk] + [pg]]
    requires s'.threads == s.threads[t := s'.threads[t]]
    requires s'.claims == s.claims && s'.nextChunk == s.nextChunk
    requires s'.threads[t].page == pg.rows && s'.threads[t].cursor == 0
    requires s'.threads[t].hasChunk && s'.threads[t].chunk == s.threads[t].chunk
    requires s'.threads[t].zero == s.threads[t].zero
    requires InStep(s'.threads[t], s'.fetched[s.threads[t].chunk])
    requires s'.threads[t].phase == Emitting || (s'.threads[t].phase == Working && |pg.rows| == 0)
    requires Chain(jobs, s.threads[t].chunk, s'.fetched[s.threads[t].chunk])
    ensures Inv(s', jobs)
  {
    assert ThreadOk(s, jobs, t);
    assert ThreadOk(s', jobs, t);
    forall c | 0 <= c < |s'.claims| && s'.claims[c] == t ensures ChunkOk(s', jobs, c) { assert ChunkOk(s, jobs, c); }
    MoveKeepsInv(jobs, s, s', t);
  }

  /** Failures are permanent. */
  lemma StepFailure<T>(jobs: Jobs<T>, s: State<T>, t: nat)
    requires t < |s.threads|
    ensures !NoFailure(s) ==> !NoFailure(Step(jobs, s, t))
  {
    if u :| 0 <= u < |s.threads| && s.threads[u].phase == Failed {
      assert Step(jobs, s, t).threads[u].phase == Failed;
    }
  }

  /** Every step of every thread keeps the invariant, unless it fails. */
  lemma StepInv<T>(jobs: Jobs<T>, s: State<T>, t: nat)
    requires Inv(s, jobs) && t < |s.threads| && NoFailure(Step(jobs, s, t))
    ensures Inv(Step(jobs, s, t), jobs)
  {
    assert ThreadOk(s, jobs, t);
    var l := s.threads[t];
    assert Step(jobs, s, t).threads[t].phase != Failed;
    match l.phase
    case Idle => BeginInv(jobs, s, t);
    case Starting => StartInv(jobs, s, t);
    case Failed =>
    case Emitting => EmitInv(jobs, s, t);
    case Working =>
      if !l.hasChunk { ClaimInv(jobs, s, t); }
      else if l.done { ReleaseInv(jobs, s, t); }
      else { FetchInv(jobs, s, t); }
  }

  lemma {:induction false} RunFailure<T>(jobs: Jobs<T>, s: State<T>, schedule: seq<nat>)
    requires forall t :: t in schedule ==> t < |s.threads|
    ensures !NoFailure(s) ==> !NoFailure(Run(jobs, s, schedule))
    decreases |schedule|
  {
    if |schedule| > 0 {
      assert schedule[0] in schedule && forall t :: t in schedule[1..] ==> t in schedule;
      StepFailure(jobs, s, schedule[0]);
      RunFailure(jobs, Step(jobs, s, schedule[0]), schedule[1..]);
    }
  }

  lemma {:induction false} RunInv<T>(jobs: Jobs<T>, s: State<T>, schedule: seq<nat>)
    requires Inv(s, jobs) && forall t :: t in schedule ==> t < |s.threads|
    requires NoFailure(Run(jobs, s, schedule))
    ensures Inv(Run(jobs, s, schedule), jobs)
    decreases |schedule|
  {
    if |schedule| > 0 {
      assert schedule[0] in schedule && forall t :: t in schedule[1..] ==> t in schedule;
      var s' := Step(jobs, s, schedule[0]);
      RunFailure(jobs, s', schedule[1..]);
      StepInv(jobs, s, schedule[0]);
      RunInv(jobs, s', schedule[1..]);
    }
  }

  // ----- Main result --------------------------------------------------------

  /** Every thread's last call returned zero rows. */
  predicate AllReportedZero<T>(s: State<T>) {
    forall t | 0 <= t < |s.threads| :: s.threads[t].zero && s.threads[t].phase == Idle
  }

  /**
   For every number of workers and every interleaving: once all have reported zero rows
   without an error, each chunk index was claimed by exactly one thread, each chunk's page
   chain was read to its end, and the rows emitted are the rows of all chunks, each once.
   */
  lemma ParallelScanComplete<T>(jobs: Jobs<T>, workers: nat, schedule: seq<nat>)
    requires workers > 0 && forall t :: t in schedule ==> t < workers
    requires AllReportedZero(Run(jobs, Init(jobs, workers), schedule))
    ensures var s := Run(jobs, Init(jobs, workers), schedule);
            && |s.claims| == jobs.chunks && |s.fetched| == jobs.chunks
            && (forall c | 0 <= c < jobs.chunks :: s.claims[c] < workers)
            && (forall c | 0 <= c < jobs.chunks :: CompleteChain(jobs, c, s.fetched[c]))
            && s.emitted == AllFetched(s.fetched)
  {
    var s := Run(jobs, Init(jobs, workers), schedule);
    InitInv(jobs, workers);
    assert NoFailure(s);
    RunInv(jobs, Init(jobs, workers), schedule);
    assert s.threads[0].zero;
    forall t | 0 <= t < |s.threads| ensures Pending(s.threads[t]) == multiset{} {
      assert ThreadOk(s, jobs, t);
    }
    NothingPending(s.threads);
    assert ThreadOk(s, jobs, 0);
    forall c | 0 <= c < jobs.chunks ensures CompleteChain(jobs, c, s.fetched[c]) {
      assert ChunkOk(s, jobs, c);
      assert ThreadOk(s, jobs, s.claims[c]);
    }
  }

  /** Before the end, what has been emitted is part of what the chunks hold. */
  lemma NeverTooMany<T>(jobs: Jobs<T>, workers: nat, schedule: seq<nat>)
    requires forall t :: t in schedule ==> t < workers
    requires NoFailure(Run(jobs, Init(jobs, workers), schedule))
    ensures var s := Run(jobs, Init(jobs, workers), schedule);
            |s.fetched| == jobs.chunks && s.emitted <= AllFetched(s.fetched)
            && forall c | 0 <= c < jobs.chunks :: Chain(jobs, c, s.fetched[c])
  {
    var s := Run(jobs, Init(jobs, workers), schedule);
    InitInv(jobs, workers);
    RunInv(jobs, Init(jobs, workers), schedule);
    forall c | 0 <= c < jobs.chunks ensures Chain(jobs, c, s.fetched[c]) { assert ChunkOk(s, jobs, c); }
  }
}
