/** The limiters as the objects the routes hold: a map mutated on every call, with a ghost history of the
    calls served. What the history implies is proved in `RateLimits`. */
module Limiters {
  import opened RateLimits

  lemma NothingSwept(all: seq<Entry>, now: int)
    ensures Sweep(all[..0], now) == [] && all[0..] == all
  {
  }

  lemma SweepSnoc(all: seq<Entry>, seen: nat, now: int)
    requires seen < |all|
    ensures Sweep(all[..seen + 1], now)
            == if now > all[seen].resetAt then Sweep(all[..seen], now) else Sweep(all[..seen], now) + [all[seen]]
  {
    assert all[..seen + 1][..seen] == all[..seen];
  }

  lemma DropAt<T>(kept: seq<T>, all: seq<T>, seen: nat)
    requires seen < |all|
    ensures (kept + all[seen..])[|kept|] == all[seen]
    ensures (kept + all[seen..])[..|kept|] + (kept + all[seen..])[|kept| + 1..] == kept + all[seen + 1..]
  {
  }

  lemma KeepAt<T>(kept: seq<T>, all: seq<T>, seen: nat)
    requires seen < |all|
    ensures kept + [all[seen]] + all[seen + 1..] == kept + all[seen..]
  {
  }

  /** An insertion-ordered map of buckets and its two clean-up loops. */
  class Buckets {
    var entries: seq<Entry>

    constructor ()
      ensures entries == []
    {
      entries := [];
    }

    /** Deletes, while walking the map, every bucket whose window has passed. */
    method DeleteExpired(now: int)
      modifies this
      ensures entries == Sweep(old(entries), now)
    {
      hide Sweep;
      ghost var all, seen := entries, 0;
      NothingSwept(all, now);
      var i := 0;
      while i < |entries|
        invariant 0 <= seen <= |all|
        invariant i == |Sweep(all[..seen], now)| && entries == Sweep(all[..seen], now) + all[seen..]
        decreases |all| - seen
      {
        SweepSnoc(all, seen, now);
        if now > entries[i].resetAt {
          DropAt(Sweep(all[..seen], now), all, seen);
          entries := entries[..i] + entries[i + 1..];
        } else {
          KeepAt(Sweep(all[..seen], now), all, seen);
          i := i + 1;
        }
        seen := seen + 1;
      }
      assert all[seen..] == [] && all[..seen] == all;
    }

    /** Deletes the first key again and again until at most `size` buckets are left. */
    method DeleteOldest(size: nat)
      modifies this
      ensures entries == Newest(old(entries), size)
    {
      while |entries| > size
        invariant Newest(entries, size) == Newest(old(entries), size)
        decreases |entries|
      {
        assert entries[|entries| - size..] == entries[1..][|entries| - 1 - size..];
        entries := entries[1..];
      }
    }

    method Set(e: Entry)
      modifies this
      ensures entries == Put(old(entries), e)
    {
      var i := Position(entries, e.key);
      if i < |entries| { entries := entries[i := e]; } else { entries := entries + [e]; }
    }

    /** Counts one more call in the bucket a lookup found. */
    method Count(i: nat) returns (count: nat)
      requires i < |entries|
      modifies this
      ensures count == old(entries)[i].count + 1
      ensures entries == old(entries)[i := old(entries)[i].(count := count)]
    {
      count := entries[i].count + 1;
      entries := entries[i := entries[i].(count := count)];
    }
  }

  lemma HistoryStep(d: Discipline, cap: nat, history: seq<Call>, call: Call)
    requires cap > 0
    ensures After(d, cap, history + [call]).0 == Served(d, cap, After(d, cap, history).0, call)
    ensures After(d, cap, history + [call]).1 == After(d, cap, history).1 + [Refused(After(d, cap, history).0, call)]
  {
  }

  /** `createRateLimit(max, windowMs)`: at most 5,000 buckets, room made before inserting. */
  class RateLimit {
    const max: int
    const windowMs: nat
    const maxBuckets: nat := 5000
    const buckets: Buckets
    ghost var history: seq<Call>

    ghost predicate Valid()
      reads this, buckets
    {
      && buckets.entries == After(EvictThenInsert, maxBuckets, history).0
      && forall call :: call in history ==> call.max == max && call.window == windowMs
    }

    constructor (max: int, windowMs: nat)
      ensures Valid() && history == [] && this.max == max && this.windowMs == windowMs && fresh(buckets)
    {
      this.max, this.windowMs := max, windowMs;
      buckets := new Buckets();
      history := [];
    }

    method IsLimited(identifier: string, now: int) returns (refused: bool)
      requires Valid()
      modifies this, buckets
      ensures Valid() && history == old(history) + [Call(identifier, now, max, windowMs)]
      ensures refused == After(EvictThenInsert, maxBuckets, history).1[|history| - 1]
    {
      hide Sweep, Put, Newest, Position, After;
      var i := Position(buckets.entries, identifier);
      ghost var call := Call(identifier, now, max, windowMs);
      HistoryStep(EvictThenInsert, maxBuckets, history, call);
      if i == |buckets.entries| || now > buckets.entries[i].resetAt {
        if i == |buckets.entries| && |buckets.entries| >= maxBuckets {
          buckets.DeleteExpired(now);
          buckets.DeleteOldest(maxBuckets - 1);
        }
        buckets.Set(Entry(identifier, 1, now + windowMs));
        refused := false;
      } else {
        var count := buckets.Count(i);
        refused := count > max;
      }
      history := history + [call];
    }
  }

  /** `serverRateLimit` over its one shared map of at most 10,000 buckets, trimmed after inserting; the
      key already carries the caller's namespace, and each call brings its own limit. */
  class RelayRateLimit {
    const maxBuckets: nat := 10000
    const buckets: Buckets
    ghost var history: seq<Call>

    ghost predicate Valid()
      reads this, buckets
    {
      buckets.entries == After(InsertThenEvict, maxBuckets, history).0
    }

    constructor ()
      ensures Valid() && history == [] && fresh(buckets)
    {
      buckets := new Buckets();
      history := [];
    }

    method Limit(call: Call) returns (limited: bool, retryAfterSeconds: nat)
      requires Valid()
      modifies this, buckets
      ensures Valid() && history == old(history) + [call]
      ensures limited == After(InsertThenEvict, maxBuckets, history).1[|history| - 1]
      ensures limited ==> HasOpenBucket(old(buckets.entries), call)
                          && retryAfterSeconds == RetryAfterSeconds(TimeLeft(old(buckets.entries), call))
      ensures !limited ==> retryAfterSeconds == 0
    {
      hide Sweep, Put, Newest, Position, After, RetryAfterSeconds;
      var i := Position(buckets.entries, call.key);
      HistoryStep(InsertThenEvict, maxBuckets, history, call);
      retryAfterSeconds := 0;
      if i == |buckets.entries| || call.now > buckets.entries[i].resetAt {
        buckets.Set(Entry(call.key, 1, call.now + call.window));
        if |buckets.entries| > maxBuckets {
          buckets.DeleteExpired(call.now);
          buckets.DeleteOldest(maxBuckets);
        }
        limited := false;
      } else {
        var left := buckets.entries[i].resetAt - call.now;
        var count := buckets.Count(i);
        limited := count > call.max;
        if limited { retryAfterSeconds := RetryAfterSeconds(left); }
      }
      history := history + [call];
    }
  }
}
