/** `mapGuardianPage`: a bounded pool of workers sharing one cursor and one result array. A worker runs
    from one `await` to the next as a single turn; any worker that can move may move next. */
module WorkerPool {
  import opened Prelude

  /** How one mapper call settles. */
  datatype Outcome<+R> = Resolved(value: R) | Rejected

  datatype Worker = Ready | Mapping(index: nat) | Stopped | Failed

  datatype Pool<+R> = Pool(next: nat, results: seq<Option<R>>, workers: seq<Worker>, claims: seq<nat>)

  /** The configured limit, or one worker when it is not a positive integer. */
  function Limit(concurrency: real): nat {
    if concurrency > 0.0 && concurrency == concurrency.Floor as real then concurrency.Floor else 1
  }

  function WorkerCount(concurrency: real, n: nat): nat {
    if Limit(concurrency) < n then Limit(concurrency) else n
  }

  function Start<R>(n: nat, workers: nat): Pool<R> {
    Pool(0, seq(n, _ => None), seq(workers, _ => Ready), [])
  }

  predicate Enabled(w: Worker) {
    w.Ready? || w.Mapping?
  }

  /** One turn of worker `w`: claim the next index, or store a settled mapping. */
  function Turn<T, R>(items: seq<T>, mapper: (T, nat) -> Outcome<R>, p: Pool<R>, w: nat): Pool<R>
    requires w < |p.workers| && Enabled(p.workers[w]) && |p.results| == |items|
    requires p.workers[w].Mapping? ==> p.workers[w].index < |items|
  {
    match p.workers[w]
    case Ready =>
      if p.next >= |items| then p.(next := p.next + 1, workers := p.workers[w := Stopped])
      else p.(next := p.next + 1, workers := p.workers[w := Mapping(p.next)], claims := p.claims + [p.next])
    case Mapping(index) =>
      match mapper(items[index], index)
      case Resolved(value) => p.(results := p.results[index := Some(value)], workers := p.workers[w := Ready])
      case Rejected => p.(workers := p.workers[w := Failed])
  }

  // ---- the invariant -------------------------------------------------------

  function Claimed(p: Pool, n: nat): nat {
    if p.next < n then p.next else n
  }

  /** Every claimed index is stored with the mapper's own value, in some worker's hands, or was rejected. */
  ghost predicate Accounted<T, R>(items: seq<T>, mapper: (T, nat) -> Outcome<R>, p: Pool<R>, i: nat)
    requires i < |items| == |p.results|
  {
    || (p.results[i].Some? && mapper(items[i], i) == Resolved(p.results[i].value))
    || (p.results[i].None? && exists w :: 0 <= w < |p.workers| && p.workers[w] == Mapping(i))
    || (p.results[i].None? && mapper(items[i], i).Rejected? && exists w :: 0 <= w < |p.workers| && p.workers[w].Failed?)
  }

  ghost predicate Inv<T, R>(items: seq<T>, mapper: (T, nat) -> Outcome<R>, p: Pool<R>) {
    && |p.results| == |items|
    && p.claims == seq(Claimed(p, |items|), i => i)
    && (forall i :: 0 <= i < Claimed(p, |items|) ==> Accounted(items, mapper, p, i))
    && (forall i :: Claimed(p, |items|) <= i < |items| ==> p.results[i].None?)
    && (forall w :: 0 <= w < |p.workers| && p.workers[w].Mapping? ==>
          p.workers[w].index < Claimed(p, |items|) && p.results[p.workers[w].index].None?)
    && (forall v, w :: 0 <= v < w < |p.workers| && p.workers[v].Mapping? && p.workers[w].Mapping? ==>
          p.workers[v].index != p.workers[w].index)
    && (forall w :: 0 <= w < |p.workers| && p.workers[w].Stopped? ==> p.next >= |items|)
    && (forall w :: 0 <= w < |p.workers| && p.workers[w].Failed? ==>
          exists i :: 0 <= i < |items| && mapper(items[i], i).Rejected?)
  }

  lemma StartInv<T, R>(items: seq<T>, mapper: (T, nat) -> Outcome<R>, workers: nat)
    ensures Inv(items, mapper, Start(|items|, workers))
  {
  }

  /** A turn keeps the account of every index but the one it is about. */
  lemma TurnAccounts<T, R>(items: seq<T>, mapper: (T, nat) -> Outcome<R>, p: Pool<R>, w: nat, i: nat)
    requires Inv(items, mapper, p) && w < |p.workers| && Enabled(p.workers[w])
    requires i < Claimed(Turn(items, mapper, p, w), |items|)
    ensures Accounted(items, mapper, Turn(items, mapper, p, w), i)
  {
    var q := Turn(items, mapper, p, w);
    assert q.workers[w] == Turn(items, mapper, p, w).workers[w];
    if i < Claimed(p, |items|) {
      assert Accounted(items, mapper, p, i);
      if p.results[i].None? && p.workers[w] != Mapping(i) {
        if v :| 0 <= v < |p.workers| && p.workers[v] == Mapping(i) {
          assert q.workers[v] == Mapping(i);
        } else {
          var v :| 0 <= v < |p.workers| && p.workers[v].Failed?;
          assert q.workers[v].Failed?;
        }
      }
    }
  }

  lemma TurnInv<T, R>(items: seq<T>, mapper: (T, nat) -> Outcome<R>, p: Pool<R>, w: nat)
    requires Inv(items, mapper, p) && w < |p.workers| && Enabled(p.workers[w])
    ensures Inv(items, mapper, Turn(items, mapper, p, w))
  {
    hide Accounted;
    var q := Turn(items, mapper, p, w);
    forall i | 0 <= i < Claimed(q, |items|) ensures Accounted(items, mapper, q, i) {
      TurnAccounts(items, mapper, p, w, i);
    }
    assert q.claims == seq(Claimed(q, |items|), i => i);
  }

  // ---- termination ---------------------------------------------------------

  function Weight(w: Worker): nat {
    match w
    case Mapping(_) => 2
    case Ready => 1
    case _ => 0
  }

  function Weights(workers: seq<Worker>): nat {
    if workers == [] then 0 else Weight(workers[0]) + Weights(workers[1..])
  }

  lemma {:induction false} WeightsUpdate(workers: seq<Worker>, w: nat, to: Worker)
    requires w < |workers|
    ensures Weights(workers[w := to]) == Weights(workers) - Weight(workers[w]) + Weight(to)
  {
    if w == 0 {
      assert workers[w := to][1..] == workers[1..];
    } else {
      WeightsUpdate(workers[1..], w - 1, to);
      assert workers[w := to][1..] == workers[1..][w - 1 := to];
    }
  }

  /** Turns left at most: two for each unclaimed index, and what the workers still have in hand. */
  function Remaining(p: Pool, n: nat): nat {
    2 * (n - Claimed(p, n)) + Weights(p.workers)
  }

  lemma TurnSpends<T, R>(items: seq<T>, mapper: (T, nat) -> Outcome<R>, p: Pool<R>, w: nat)
    requires Inv(items, mapper, p) && w < |p.workers| && Enabled(p.workers[w])
    ensures Remaining(Turn(items, mapper, p, w), |items|) < Remaining(p, |items|)
  {
    hide Accounted, Weights;
    WeightsUpdate(p.workers, w, Turn(items, mapper, p, w).workers[w]);
    assert Turn(items, mapper, p, w).workers == p.workers[w := Turn(items, mapper, p, w).workers[w]];
  }

  // ---- every schedule ------------------------------------------------------

  /** The pool after a schedule, a list of the workers that moved; `None` if one of them could not. */
  ghost function Execute<T, R>(items: seq<T>, mapper: (T, nat) -> Outcome<R>, p: Pool<R>,
                               schedule: seq<nat>)
    : Option<Pool<R>>
    requires Inv(items, mapper, p)
    decreases |schedule|
  {
    if schedule == [] then Some(p)
    else if schedule[0] >= |p.workers| || !Enabled(p.workers[schedule[0]]) then None
    else
      TurnInv(items, mapper, p, schedule[0]);
      Execute(items, mapper, Turn(items, mapper, p, schedule[0]), schedule[1..])
  }

  predicate AllStopped(p: Pool) {
    forall w :: 0 <= w < |p.workers| ==> !Enabled(p.workers[w])
  }

  ghost predicate NoneRejects<T, R>(items: seq<T>, mapper: (T, nat) -> Outcome<R>) {
    forall i :: 0 <= i < |items| ==> mapper(items[i], i).Resolved?
  }

  /** A stopped pool of at least one worker has mapped everything in input order, unless some mapping
      rejects, and then some worker has failed. */
  lemma StoppedPoolIsComplete<T, R>(items: seq<T>, mapper: (T, nat) -> Outcome<R>, p: Pool<R>)
    requires Inv(items, mapper, p) && AllStopped(p) && (|items| > 0 ==> |p.workers| > 0)
    ensures NoneRejects(items, mapper) <==> forall w :: 0 <= w < |p.workers| ==> !p.workers[w].Failed?
    ensures NoneRejects(items, mapper) ==>
              forall i :: 0 <= i < |items| ==> p.results[i] == Some(mapper(items[i], i).value)
  {
    if forall w :: 0 <= w < |p.workers| ==> !p.workers[w].Failed? {
      if |items| > 0 { assert p.workers[0].Stopped?; }
      forall i | 0 <= i < |items| ensures mapper(items[i], i).Resolved? { assert Accounted(items, mapper, p, i); }
    }
    if NoneRejects(items, mapper) && |items| > 0 {
      assert p.workers[0].Stopped?;
      forall i | 0 <= i < |items| ensures p.results[i] == Some(mapper(items[i], i).value) {
        assert Accounted(items, mapper, p, i);
      }
    }
  }

  /** Under every schedule: the pool stays consistent (each index is claimed once, in order, and held by
      at most one of the `min(limit, n)` workers), and the schedule has at most 2n turns plus one a worker. */
  lemma {:induction false} EverySchedule<T, R>(items: seq<T>, mapper: (T, nat) -> Outcome<R>, p: Pool<R>,
                                               schedule: seq<nat>)
    requires Inv(items, mapper, p) && Execute(items, mapper, p, schedule).Some?
    ensures var q := Execute(items, mapper, p, schedule).value;
            && Inv(items, mapper, q) && |q.workers| == |p.workers|
            && |schedule| + Remaining(q, |items|) <= Remaining(p, |items|)
    decreases |schedule|
  {
    hide Accounted, Remaining;
    if schedule != [] {
      TurnInv(items, mapper, p, schedule[0]);
      TurnSpends(items, mapper, p, schedule[0]);
      EverySchedule(items, mapper, Turn(items, mapper, p, schedule[0]), schedule[1..]);
    }
  }

  lemma {:induction false} ReadyWeights(k: nat)
    ensures Weights(seq(k, _ => Ready)) == k
  {
    var workers := seq(k, _ => Ready);
    if k > 0 {
      ReadyWeights(k - 1);
      assert workers[1..] == seq(k - 1, _ => Ready);
    }
  }

  /** A page's pool, from its start through a schedule. */
  ghost function RunPool<T, R>(items: seq<T>, mapper: (T, nat) -> Outcome<R>, concurrency: real,
                               schedule: seq<nat>)
    : Option<Pool<R>>
  {
    var p := Start(|items|, WorkerCount(concurrency, |items|));
    StartInv(items, mapper, WorkerCount(concurrency, |items|));
    Execute(items, mapper, p, schedule)
  }

  /** Under every schedule from the start: there are as many workers as items, or as the limit when that is a
      smaller positive integer, or one; the claimed indices are 0, 1, 2, ... each once, no two workers map the
      same one, and none in flight has a result; at most two turns an item and one a worker are taken; and
      when all workers have stopped and no mapping rejected, the results are the sequential map in input
      order. */
  lemma PoolMapsInOrder<T, R>(items: seq<T>, mapper: (T, nat) -> Outcome<R>, concurrency: real, schedule: seq<nat>)
    requires RunPool(items, mapper, concurrency, schedule).Some?
    ensures var q := RunPool(items, mapper, concurrency, schedule).value;
            && |q.workers| <= |items|
            && (concurrency > 0.0 && concurrency.Floor as real == concurrency ==>
                  |q.workers| == if concurrency.Floor < |items| then concurrency.Floor else |items|)
            && (concurrency <= 0.0 || concurrency.Floor as real != concurrency ==> |q.workers| <= 1)
            && |q.results| == |items| && |q.claims| <= |items|
            && (forall i :: 0 <= i < |q.claims| ==> q.claims[i] == i)
            && (forall w :: 0 <= w < |q.workers| && q.workers[w].Mapping? ==>
                  q.workers[w].index < |q.claims| && q.results[q.workers[w].index].None?)
            && (forall v, w :: 0 <= v < w < |q.workers| && q.workers[v].Mapping? && q.workers[w].Mapping? ==>
                  q.workers[v].index != q.workers[w].index)
            && |schedule| <= 2 * |items| + |q.workers|
            && (AllStopped(q) && NoneRejects(items, mapper) ==>
                  forall i :: 0 <= i < |items| ==> q.results[i] == Some(mapper(items[i], i).value))
  {
    hide Accounted;
    var p := Start(|items|, WorkerCount(concurrency, |items|));
    StartInv(items, mapper, WorkerCount(concurrency, |items|));
    var q := Execute(items, mapper, p, schedule).value;
    EverySchedule(items, mapper, p, schedule);
    ReadyWeights(WorkerCount(concurrency, |items|));
    if AllStopped(q) && NoneRejects(items, mapper) { StoppedPoolIsComplete(items, mapper, q); }
  }

  // ---- the shared state itself ---------------------------------------------

  /** The closure's shared variables: the cursor, the result array and the suspended workers. */
  class SharedPool<T, R> {
    const items: seq<T>
    const mapper: (T, nat) -> Outcome<R>
    var nextIndex: nat
    var results: array<Option<R>>
    var workers: seq<Worker>
    ghost var claims: seq<nat>

    ghost function State(): Pool<R>
      reads this, results
    {
      Pool(nextIndex, results[..], workers, claims)
    }

    constructor (items: seq<T>, concurrency: real, mapper: (T, nat) -> Outcome<R>)
      ensures this.items == items && this.mapper == mapper && fresh(results)
      ensures State() == Start(|items|, WorkerCount(concurrency, |items|))
    {
      this.items, this.mapper := items, mapper;
      nextIndex := 0;
      results := new Option<R>[|items|](_ => None);
      workers := seq(WorkerCount(concurrency, |items|), _ => Ready);
      claims := [];
    }

    /** What a worker does when the scheduler resumes it. */
    method Resume(w: nat)
      requires w < |workers| && Enabled(workers[w]) && Inv(items, mapper, State())
      modifies this, results
      ensures results == old(results)
      ensures State() == Turn(items, mapper, old(State()), w)
    {
      if workers[w].Ready? {
        var index := nextIndex;
        nextIndex := nextIndex + 1;
        if index >= |items| {
          workers := workers[w := Stopped];
        } else {
          workers := workers[w := Mapping(index)];
          claims := claims + [index];
        }
      } else {
        var index := workers[w].index;
        var outcome := mapper(items[index], index);
        if outcome.Resolved? {
          results[index] := Some(outcome.value);
          workers := workers[w := Ready];
        } else {
          workers := workers[w := Failed];
        }
      }
    }
  }

  /** `mapGuardianPage` under an arbitrary scheduler: it resolves, to the sequential map, exactly when no
      mapping rejects. */
  method MapGuardianPage<T, R>(items: seq<T>, concurrency: real, mapper: (T, nat) -> Outcome<R>)
    returns (ok: bool, mapped: seq<R>)
    ensures ok <==> NoneRejects(items, mapper)
    ensures ok ==> |mapped| == |items| && forall i :: 0 <= i < |items| ==> mapper(items[i], i) == Resolved(mapped[i])
  {
    hide Inv, Turn, Remaining;
    var pool := new SharedPool(items, concurrency, mapper);
    StartInv(items, mapper, WorkerCount(concurrency, |items|));
    while exists w :: 0 <= w < |pool.workers| && Enabled(pool.workers[w])
      invariant fresh(pool) && fresh(pool.results) && pool.items == items && pool.mapper == mapper
      invariant Inv(items, mapper, pool.State()) && |pool.workers| == WorkerCount(concurrency, |items|)
      decreases Remaining(pool.State(), |items|)
    {
      var w: nat :| w < |pool.workers| && Enabled(pool.workers[w]);
      TurnInv(items, mapper, pool.State(), w);
      TurnSpends(items, mapper, pool.State(), w);
      SameWorkers(items, mapper, pool.State(), w);
      pool.Resume(w);
    }
    StoppedPoolIsComplete(items, mapper, pool.State());
    ResultsLength(items, mapper, pool.State());
    if exists w :: 0 <= w < |pool.workers| && pool.workers[w].Failed? { return false, []; }
    ok := true;
    mapped := seq(|items|, i requires 0 <= i < pool.results.Length
                  && pool.results[i].Some? reads pool, pool.results => pool.results[i].value);
  }

  lemma SameWorkers<T, R>(items: seq<T>, mapper: (T, nat) -> Outcome<R>, p: Pool<R>, w: nat)
    requires w < |p.workers| && Enabled(p.workers[w]) && Inv(items, mapper, p)
    ensures |Turn(items, mapper, p, w).workers| == |p.workers|
  {
  }

  lemma ResultsLength<T, R>(items: seq<T>, mapper: (T, nat) -> Outcome<R>, p: Pool<R>)
    requires Inv(items, mapper, p)
    ensures |p.results| == |items|
  {
  }
}
