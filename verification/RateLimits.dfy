/** The two in-memory limiters (`rate-limit.ts`, `relay-rate-limit.ts`): insertion-ordered maps of
    buckets with eviction. One makes room before it inserts, the other after. */
module RateLimits {

  datatype Entry = Entry(key: string, count: nat, resetAt: int)

  /** One request: who asks, when, and under which limit. */
  datatype Call = Call(key: string, now: int, max: int, window: nat)

  datatype Discipline = EvictThenInsert | InsertThenEvict

  // ---- one call on the map -------------------------------------------------

  /** Position of the key in insertion order, or the size when it is absent. */
  function Position(entries: seq<Entry>, key: string): (i: nat)
    ensures i <= |entries|
    ensures i < |entries| ==> entries[i].key == key
    ensures forall j :: 0 <= j < i ==> entries[j].key != key
  {
    if entries == [] || entries[0].key == key then 0 else 1 + Position(entries[1..], key)
  }

  /** `Map.set`: an existing key keeps its place. */
  function Put(entries: seq<Entry>, e: Entry): seq<Entry> {
    var i := Position(entries, e.key);
    if i < |entries| then entries[i := e] else entries + [e]
  }

  /** The entries whose window has not passed. */
  function Sweep(entries: seq<Entry>, now: int): seq<Entry> {
    if entries == [] then []
    else
      var front, last := Sweep(entries[..|entries| - 1], now), entries[|entries| - 1];
      if now > last.resetAt then front else front + [last]
  }

  /** Drop the oldest entries until at most `size` are left. */
  function Newest(entries: seq<Entry>, size: nat): seq<Entry> {
    if |entries| <= size then entries else entries[|entries| - size..]
  }

  /** The caller has a bucket whose window has not passed. */
  predicate HasOpenBucket(entries: seq<Entry>, call: Call) {
    var i := Position(entries, call.key);
    i < |entries| && call.now <= entries[i].resetAt
  }

  /** What a call writes for its own key: a new window, or one more in the open one. */
  function CallersBucket(entries: seq<Entry>, call: Call): Entry {
    if HasOpenBucket(entries, call) then
      var e := entries[Position(entries, call.key)];
      e.(count := e.count + 1)
    else Entry(call.key, 1, call.now + call.window)
  }

  /** The map after one call. */
  function Served(d: Discipline, cap: nat, entries: seq<Entry>, call: Call): seq<Entry>
    requires cap > 0
  {
    var mine := CallersBucket(entries, call);
    if HasOpenBucket(entries, call) then entries[Position(entries, call.key) := mine]
    else match d
      case EvictThenInsert =>
        if Position(entries, call.key) == |entries| && |entries| >= cap then
          Put(Newest(Sweep(entries, call.now), cap - 1), mine)
        else Put(entries, mine)
      case InsertThenEvict =>
        var put := Put(entries, mine);
        if |put| > cap then Newest(Sweep(put, call.now), cap) else put
  }

  /** Whether the call is refused: only an open bucket that has counted past the limit refuses. */
  predicate Refused(entries: seq<Entry>, call: Call) {
    HasOpenBucket(entries, call) && CallersBucket(entries, call).count > call.max
  }

  function Serve(d: Discipline, cap: nat, entries: seq<Entry>, call: Call): (seq<Entry>, bool)
    requires cap > 0
  {
    (Served(d, cap, entries, call), Refused(entries, call))
  }

  /** The map after a history of calls, and the verdict on each. */
  function After(d: Discipline, cap: nat, calls: seq<Call>): (r: (seq<Entry>, seq<bool>))
    requires cap > 0
    ensures |r.1| == |calls|
  {
    if calls == [] then ([], [])
    else
      var (entries, verdicts) := After(d, cap, calls[..|calls| - 1]);
      var (served, refused) := Serve(d, cap, entries, calls[|calls| - 1]);
      (served, verdicts + [refused])
  }

  // ---- the map stays a bounded map -----------------------------------------

  ghost predicate DistinctKeys(entries: seq<Entry>) {
    forall i, j :: 0 <= i < j < |entries| ==> entries[i].key != entries[j].key
  }

  lemma {:induction false} SweepMembers(entries: seq<Entry>, now: int, e: Entry)
    ensures e in Sweep(entries, now) <==> e in entries && now <= e.resetAt
  {
    if entries != [] {
      SweepMembers(entries[..|entries| - 1], now, e);
      assert entries == entries[..|entries| - 1] + [entries[|entries| - 1]];
    }
  }

  lemma {:induction false} SweepDistinct(entries: seq<Entry>, now: int)
    requires DistinctKeys(entries)
    ensures DistinctKeys(Sweep(entries, now))
  {
    if entries != [] {
      var front, last := entries[..|entries| - 1], entries[|entries| - 1];
      SweepDistinct(front, now);
      var s := Sweep(front, now);
      forall i | 0 <= i < |s| ensures s[i].key != last.key {
        SweepMembers(front, now, s[i]);
        var j :| 0 <= j < |front| && front[j] == s[i];
        assert entries[j].key != entries[|entries| - 1].key;
      }
    }
  }

  lemma SweepSpec(entries: seq<Entry>, now: int)
    ensures DistinctKeys(entries) ==> DistinctKeys(Sweep(entries, now))
    ensures forall e :: e in Sweep(entries, now) <==> e in entries && now <= e.resetAt
    ensures entries != [] && now <= entries[|entries| - 1].resetAt ==>
              Sweep(entries, now) != [] && Sweep(entries, now)[|Sweep(entries, now)| - 1] == entries[|entries| - 1]
  {
  }

  lemma PutSpec(entries: seq<Entry>, e: Entry)
    requires DistinctKeys(entries)
    ensures var put := Put(entries, e);
            && DistinctKeys(put) && e in put
            && (forall x :: x in put ==> x == e || (x in entries && x.key != e.key))
            && |put| == (if Position(entries, e.key) < |entries| then |entries| else |entries| + 1)
            && (Position(entries, e.key) == |entries| ==> put[|entries|] == e)
  {
    var i, put := Position(entries, e.key), Put(entries, e);
    assert put[i] == e;
    forall x | x in put ensures x == e || (x in entries && x.key != e.key) {
      var j :| 0 <= j < |put| && put[j] == x;
      if j != i { assert entries[j] == x; }
    }
  }

  lemma NewestSpec(entries: seq<Entry>, size: nat)
    requires DistinctKeys(entries)
    ensures var n := Newest(entries, size);
            && DistinctKeys(n) && |n| <= size && (forall x :: x in n ==> x in entries)
            && (size > 0 && entries != [] ==> entries[|entries| - 1] in n)
  {
  }

  /** A bounded map again: the caller's bucket is in it, and everything else was there before. */
  ghost predicate Kept(before: seq<Entry>, after: seq<Entry>, mine: Entry, cap: nat) {
    && DistinctKeys(after) && |after| <= cap && mine in after
    && forall e :: e in after ==> e == mine || (e in before && e.key != mine.key)
  }

  lemma MakingRoomKeeps(entries: seq<Entry>, now: int, mine: Entry, cap: nat)
    requires cap > 0 && DistinctKeys(entries) && Position(entries, mine.key) == |entries|
    ensures Kept(entries, Put(Newest(Sweep(entries, now), cap - 1), mine), mine, cap)
  {
    hide Sweep, Put, Newest, DistinctKeys, Position;
    SweepSpec(entries, now);
    NewestSpec(Sweep(entries, now), cap - 1);
    PutSpec(Newest(Sweep(entries, now), cap - 1), mine);
  }

  lemma PuttingKeeps(entries: seq<Entry>, mine: Entry, cap: nat)
    requires DistinctKeys(entries) && |entries| <= cap
    ensures |Put(entries, mine)| <= cap ==> Kept(entries, Put(entries, mine), mine, cap)
  {
    hide Put, DistinctKeys;
    PutSpec(entries, mine);
  }

  lemma TrimmingKeeps(entries: seq<Entry>, now: int, mine: Entry, cap: nat)
    requires cap > 0 && DistinctKeys(entries) && |entries| <= cap && |Put(entries, mine)| > cap && now <= mine.resetAt
    ensures Kept(entries, Newest(Sweep(Put(entries, mine), now), cap), mine, cap)
  {
    hide Sweep, Put, Newest, DistinctKeys;
    PutSpec(entries, mine);
    SweepSpec(Put(entries, mine), now);
    NewestSpec(Sweep(Put(entries, mine), now), cap);
  }

  /** One call keeps keys distinct and the map within its cap, touches no other caller's bucket except
      to evict it, and never evicts the caller being served. */
  lemma ServeKeepsMap(d: Discipline, cap: nat, entries: seq<Entry>, call: Call)
    requires cap > 0 && DistinctKeys(entries) && |entries| <= cap
    ensures Kept(entries, Serve(d, cap, entries, call).0, CallersBucket(entries, call), cap)
  {
    hide Sweep, Put, Newest, DistinctKeys, Kept;
    var i, mine := Position(entries, call.key), CallersBucket(entries, call);
    PuttingKeeps(entries, mine, cap);
    PutSize(entries, mine);
    if HasOpenBucket(entries, call) {
      ReplaceIsPut(entries, mine);
    } else if d.EvictThenInsert? {
      if i == |entries| && |entries| >= cap { MakingRoomKeeps(entries, call.now, mine, cap); }
    } else if |Put(entries, mine)| > cap {
      TrimmingKeeps(entries, call.now, mine, cap);
    }
  }

  lemma PutSize(entries: seq<Entry>, e: Entry)
    ensures |Put(entries, e)| == if Position(entries, e.key) < |entries| then |entries| else |entries| + 1
  {
  }

  lemma ReplaceIsPut(entries: seq<Entry>, e: Entry)
    requires Position(entries, e.key) < |entries|
    ensures entries[Position(entries, e.key) := e] == Put(entries, e)
  {
  }

  // ---- one call, exactly ---------------------------------------------------

  /** Both in the map, in this order. */
  ghost predicate InOrder(entries: seq<Entry>, e: Entry, f: Entry) {
    exists i, j :: 0 <= i < j < |entries| && entries[i] == e && entries[j] == f
  }

  /** The buckets whose window has not passed, in their order. */
  ghost predicate IsUnexpired(entries: seq<Entry>, kept: seq<Entry>, now: int) {
    && (forall e :: e in kept <==> e in entries && now <= e.resetAt)
    && (forall x, y :: 0 <= x < y < |kept| ==> InOrder(entries, kept[x], kept[y]))
  }

  lemma InOrderSnoc(front: seq<Entry>, last: Entry)
    ensures forall e, f :: InOrder(front, e, f) ==> InOrder(front + [last], e, f)
    ensures forall e :: e in front ==> InOrder(front + [last], e, last)
  {
    var entries := front + [last];
    forall e, f | InOrder(front, e, f) ensures InOrder(entries, e, f) {
      var i, j :| 0 <= i < j < |front| && front[i] == e && front[j] == f;
      assert entries[i] == e && entries[j] == f;
    }
    forall e | e in front ensures InOrder(entries, e, last) {
      var i :| 0 <= i < |front| && front[i] == e;
      assert entries[i] == e && entries[|front|] == last;
    }
  }

  lemma {:induction false} SweepInOrder(entries: seq<Entry>, now: int)
    ensures IsUnexpired(entries, Sweep(entries, now), now)
  {
    hide InOrder;
    forall e ensures e in Sweep(entries, now) <==> e in entries && now <= e.resetAt {
      SweepMembers(entries, now, e);
    }
    if entries != [] {
      var front, last := entries[..|entries| - 1], entries[|entries| - 1];
      SweepInOrder(front, now);
      InOrderSnoc(front, last);
      assert entries == front + [last];
    }
  }

  lemma SweepOne(front: seq<Entry>, last: Entry, now: int)
    ensures Sweep(front + [last], now) == Sweep(front, now) + if now > last.resetAt then [] else [last]
    ensures Sweep([], now) == []
  {
    assert (front + [last])[..|front|] == front;
  }

  lemma {:induction false} SweepSize(entries: seq<Entry>, now: int)
    ensures |Sweep(entries, now)| <= |entries|
    ensures |Sweep(entries, now)| == |entries| <==> forall e :: e in entries ==> now <= e.resetAt
    ensures |Sweep(entries, now)| == |entries| ==> Sweep(entries, now) == entries
  {
    hide Sweep;
    if entries == [] {
      SweepOne([], Entry("", 0, 0), now);
    } else {
      var front, last := entries[..|entries| - 1], entries[|entries| - 1];
      SweepSize(front, now);
      SweepOne(front, last, now);
      assert entries == front + [last];
    }
  }

  /** The caller's bucket has its place in the map. */
  ghost predicate Placed(entries: seq<Entry>, key: string, i: int) {
    0 <= i < |entries| && entries[i].key == key
  }

  /** What the call leaves: a known caller's bucket counts one more, or opens again once its window has passed,
      in its place; a new caller's opens behind the others; and only a full map makes room, of its expired
      buckets, or of the oldest when none has expired. */
  ghost predicate Leaves(cap: nat, entries: seq<Entry>, call: Call, served: seq<Entry>) {
    var begun := Entry(call.key, 1, call.now + call.window);
    && (forall i :: Placed(entries, call.key, i) ==>
          served == entries[i := if call.now <= entries[i].resetAt then
                                   Entry(call.key, entries[i].count + 1, entries[i].resetAt)
                                 else begun])
    && ((forall i :: !Placed(entries, call.key, i)) ==>
          && |served| > 0 && served[|served| - 1] == begun
          && (|entries| < cap ==> served[..|served| - 1] == entries)
          && (|entries| == cap && (exists e :: e in entries && e.resetAt < call.now) ==>
                IsUnexpired(entries, served[..|served| - 1], call.now))
          && (|entries| == cap > 0 && !(exists e :: e in entries && e.resetAt < call.now) ==>
                served[..|served| - 1] == entries[1..]))
  }

  lemma PlacedExactly(entries: seq<Entry>, key: string)
    requires DistinctKeys(entries)
    ensures forall i :: Placed(entries, key, i) <==> i == Position(entries, key) && i < |entries|
  {
  }

  /** The other buckets once a new caller's is added. */
  ghost function Others(cap: nat, entries: seq<Entry>, now: int): seq<Entry>
    requires 0 < cap
  {
    if |entries| < cap || entries == [] then entries
    else if |Sweep(entries, now)| < |entries| then Sweep(entries, now) else entries[1..]
  }

  lemma RoomBefore(cap: nat, entries: seq<Entry>, now: int)
    requires |entries| == cap > 0
    ensures Newest(Sweep(entries, now), cap - 1) == Others(cap, entries, now)
  {
    hide Sweep;
    SweepSize(entries, now);
  }

  lemma RoomAfter(cap: nat, entries: seq<Entry>, now: int, mine: Entry)
    requires |entries| == cap > 0 && now <= mine.resetAt
    ensures Newest(Sweep(entries + [mine], now), cap) == Others(cap, entries, now) + [mine]
  {
    SweepSize(entries, now);
    assert (entries + [mine])[..|entries|] == entries;
    NewestSnoc(Sweep(entries, now), mine, cap);
    RoomBefore(cap, entries, now);
  }

  lemma NewestSnoc(entries: seq<Entry>, mine: Entry, size: nat)
    requires size > 0
    ensures Newest(entries + [mine], size) == Newest(entries, size - 1) + [mine]
  {
  }

  lemma OthersAreOld(cap: nat, entries: seq<Entry>, now: int, e: Entry)
    requires cap > 0 && e in Others(cap, entries, now)
    ensures e in entries
  {
    hide Sweep;
    SweepMembers(entries, now, e);
  }

  lemma PutNew(entries: seq<Entry>, e: Entry)
    requires forall x :: x in entries ==> x.key != e.key
    ensures Position(entries, e.key) == |entries| && Put(entries, e) == entries + [e]
  {
    AbsentPosition(entries, e.key);
  }

  lemma NewBucket(entries: seq<Entry>, call: Call)
    requires Position(entries, call.key) == |entries|
    ensures !HasOpenBucket(entries, call)
    ensures CallersBucket(entries, call) == Entry(call.key, 1, call.now + call.window)
    ensures forall x :: x in entries ==> x.key != call.key
  {
  }

  lemma NewCallerServed(d: Discipline, cap: nat, entries: seq<Entry>, call: Call)
    requires cap > 0 && |entries| <= cap && Position(entries, call.key) == |entries|
    ensures Served(d, cap, entries, call)
            == Others(cap, entries, call.now) + [Entry(call.key, 1, call.now + call.window)]
  {
    hide Sweep, Newest, Others, Position, Put, HasOpenBucket, CallersBucket;
    var mine := Entry(call.key, 1, call.now + call.window);
    NewBucket(entries, call);
    PutNew(entries, mine);
    if |entries| < cap {
      RoomLeft(cap, entries, call.now);
    } else if d.EvictThenInsert? {
      RoomBefore(cap, entries, call.now);
      forall e | e in Others(cap, entries, call.now) ensures e.key != call.key {
        OthersAreOld(cap, entries, call.now, e);
      }
      PutNew(Others(cap, entries, call.now), mine);
    } else {
      RoomAfter(cap, entries, call.now, mine);
    }
  }

  lemma RoomLeft(cap: nat, entries: seq<Entry>, now: int)
    requires |entries| < cap
    ensures Others(cap, entries, now) == entries
  {
  }

  lemma AbsentPosition(entries: seq<Entry>, key: string)
    requires forall e :: e in entries ==> e.key != key
    ensures Position(entries, key) == |entries|
  {
  }

  /** Either limiter, making room before it inserts or after, leaves the same map, and refuses exactly the
      caller whose open bucket has already counted up to the limit. */
  lemma ServeExactly(d: Discipline, cap: nat, entries: seq<Entry>, call: Call)
    requires cap > 0 && DistinctKeys(entries) && |entries| <= cap
    ensures Leaves(cap, entries, call, Serve(d, cap, entries, call).0)
    ensures Serve(d, cap, entries, call).1 <==>
            exists i :: Placed(entries, call.key, i) && call.now <= entries[i].resetAt
                        && entries[i].count + 1 > call.max
  {
    hide Position, Sweep, Newest, IsUnexpired;
    PlacedExactly(entries, call.key);
    var i := Position(entries, call.key);
    if i < |entries| {
      assert Placed(entries, call.key, i);
    } else {
      NewCallerServed(d, cap, entries, call);
      SweepInOrder(entries, call.now);
      SweepSize(entries, call.now);
    }
  }

  lemma ServeAlike(cap: nat, entries: seq<Entry>, call: Call)
    requires cap > 0 && |entries| <= cap
    ensures Serve(EvictThenInsert, cap, entries, call) == Serve(InsertThenEvict, cap, entries, call)
  {
    hide Position, Sweep, Newest, Others;
    if Position(entries, call.key) == |entries| {
      NewCallerServed(EvictThenInsert, cap, entries, call);
      NewCallerServed(InsertThenEvict, cap, entries, call);
    }
  }

  /** Over every history the two limiters answer alike and keep the same map. */
  lemma {:induction false} DisciplinesAgree(cap: nat, calls: seq<Call>)
    requires cap > 0
    ensures After(EvictThenInsert, cap, calls) == After(InsertThenEvict, cap, calls)
    ensures DistinctKeys(After(EvictThenInsert, cap, calls).0) && |After(EvictThenInsert, cap, calls).0| <= cap
  {
    hide Serve;
    if calls != [] {
      var front, last := calls[..|calls| - 1], calls[|calls| - 1];
      DisciplinesAgree(cap, front);
      ServeAlike(cap, After(EvictThenInsert, cap, front).0, last);
      ServeKeepsMap(EvictThenInsert, cap, After(EvictThenInsert, cap, front).0, last);
    }
  }

// ---- what a bucket remembers ---------------------------------------------

  function CallsBy(calls: seq<Call>, key: string): nat {
    if calls == [] then 0
    else CallsBy(calls[..|calls| - 1], key) + if calls[|calls| - 1].key == key then 1 else 0
  }

  function AdmittedTo(calls: seq<Call>, verdicts: seq<bool>, key: string): nat
    requires |calls| == |verdicts|
  {
    if calls == [] then 0
    else AdmittedTo(calls[..|calls| - 1], verdicts[..|calls| - 1], key)
         + if calls[|calls| - 1].key == key && !verdicts[|calls| - 1] then 1 else 0
  }

  function AtLeastOne(max: int): nat {
    if max < 1 then 1 else max
  }

  /** The bucket was opened by call `j` and has counted every call of its key since, admitting at most
      the limit (and always the first). */
  ghost predicate OpenedBy(calls: seq<Call>, verdicts: seq<bool>, e: Entry, j: nat)
    requires |calls| == |verdicts|
  {
    && j < |calls| && calls[j].key == e.key && e.resetAt == calls[j].now + calls[j].window
    && e.count == CallsBy(calls[j..], e.key) >= 1
    && AdmittedTo(calls[j..], verdicts[j..], e.key)
       == if e.count < AtLeastOne(calls[j].max) then e.count else AtLeastOne(calls[j].max)
  }

  /** Calls under one key always state the same limit. */
  ghost predicate Uniform(calls: seq<Call>) {
    forall i, j :: 0 <= i < |calls| && 0 <= j < |calls| && calls[i].key == calls[j].key ==>
                     calls[i].max == calls[j].max && calls[i].window == calls[j].window
  }

  ghost predicate Remembers(calls: seq<Call>, verdicts: seq<bool>, entries: seq<Entry>)
    requires |calls| == |verdicts|
  {
    forall e :: e in entries ==> exists j :: OpenedBy(calls, verdicts, e, j)
  }

  lemma CountsExtend(calls: seq<Call>, verdicts: seq<bool>, call: Call, refused: bool, j: nat, key: string)
    requires |calls| == |verdicts| && j <= |calls|
    ensures CallsBy((calls + [call])[j..], key) == CallsBy(calls[j..], key) + if call.key == key then 1 else 0
    ensures AdmittedTo((calls + [call])[j..], (verdicts + [refused])[j..], key)
            == AdmittedTo(calls[j..], verdicts[j..], key) + if call.key == key && !refused then 1 else 0
  {
    var cs, vs := (calls + [call])[j..], (verdicts + [refused])[j..];
    assert cs[..|cs| - 1] == calls[j..] && vs[..|cs| - 1] == verdicts[j..];
  }

  /** A call by someone else leaves what a bucket remembers unchanged. */
  lemma OthersUndisturbed(calls: seq<Call>, verdicts: seq<bool>, call: Call, refused: bool, e: Entry, j: nat)
    requires |calls| == |verdicts| && OpenedBy(calls, verdicts, e, j) && call.key != e.key
    ensures OpenedBy(calls + [call], verdicts + [refused], e, j)
  {
    CountsExtend(calls, verdicts, call, refused, j, e.key);
  }

  /** A call on an open bucket is counted, and refused exactly when the count passes the limit. */
  lemma OpenBucketCounts(calls: seq<Call>, verdicts: seq<bool>, call: Call, e: Entry, j: nat)
    requires |calls| == |verdicts| && OpenedBy(calls, verdicts, e, j) && call.key == e.key && call.max == calls[j].max
    ensures OpenedBy(calls + [call], verdicts + [e.count + 1 > call.max], e.(count := e.count + 1), j)
  {
    CountsExtend(calls, verdicts, call, e.count + 1 > call.max, j, e.key);
  }

  lemma FreshBucketOpens(calls: seq<Call>, verdicts: seq<bool>, call: Call)
    requires |calls| == |verdicts|
    ensures OpenedBy(calls + [call], verdicts + [false], Entry(call.key, 1, call.now + call.window), |calls|)
  {
  }

  /** One call keeps every surviving bucket's memory. */
  lemma ServeRemembers(d: Discipline, cap: nat, calls: seq<Call>, verdicts: seq<bool>, entries: seq<Entry>, call: Call)
    requires cap > 0 && |calls| == |verdicts| && Uniform(calls + [call])
    requires DistinctKeys(entries) && |entries| <= cap && Remembers(calls, verdicts, entries)
    ensures var (served, refused) := Serve(d, cap, entries, call);
            Remembers(calls + [call], verdicts + [refused], served)
  {
    hide OpenedBy, Uniform, Sweep, CallsBy, AdmittedTo;
    var (served, refused) := Serve(d, cap, entries, call);
    ServeKeepsMap(d, cap, entries, call);
    forall e | e in served ensures exists j :: OpenedBy(calls + [call], verdicts + [refused], e, j) {
      if e.key != call.key {
        var j :| OpenedBy(calls, verdicts, e, j);
        OthersUndisturbed(calls, verdicts, call, refused, e, j);
      } else {
        var i := Position(entries, call.key);
        if !HasOpenBucket(entries, call) {
          FreshBucketOpens(calls, verdicts, call);
        } else {
          assert entries[i] in entries;
          var j :| OpenedBy(calls, verdicts, entries[i], j);
          OpenerAgrees(calls, verdicts, call, entries[i], j);
          OpenBucketCounts(calls, verdicts, call, entries[i], j);
        }
      }
    }
  }

  lemma OpenerAgrees(calls: seq<Call>, verdicts: seq<bool>, call: Call, e: Entry, j: nat)
    requires |calls| == |verdicts| && OpenedBy(calls, verdicts, e, j) && call.key == e.key && Uniform(calls + [call])
    ensures j < |calls| && call.max == calls[j].max && call.window == calls[j].window
  {
    var all := calls + [call];
    assert all[j] == calls[j] && all[|calls|] == call;
  }

  /** Over every history: distinct keys, never more than the cap, and every bucket accounts for exactly
      the calls of its key since it was opened. */
  lemma {:induction false} EveryHistory(d: Discipline, cap: nat, calls: seq<Call>)
    requires cap > 0 && Uniform(calls)
    ensures var (entries, verdicts) := After(d, cap, calls);
            DistinctKeys(entries) && |entries| <= cap && Remembers(calls, verdicts, entries)
  {
    hide OpenedBy, Serve;
    if calls != [] {
      var front, last := calls[..|calls| - 1], calls[|calls| - 1];
      assert calls == front + [last];
      EveryHistory(d, cap, front);
      var (entries, verdicts) := After(d, cap, front);
      ServeKeepsMap(d, cap, entries, last);
      ServeRemembers(d, cap, front, verdicts, entries, last);
    }
  }

  // ---- what a verdict means ------------------------------------------------

  ghost predicate NonDecreasing(calls: seq<Call>) {
    forall i, j :: 0 <= i < j < |calls| ==> calls[i].now <= calls[j].now
  }

  /** A refusal is never arbitrary: the caller made more than `max` calls, this one included, within the
      last `window` milliseconds. */
  lemma RefusalMeansBurst(d: Discipline, cap: nat, calls: seq<Call>)
    requires cap > 0 && calls != [] && Uniform(calls) && NonDecreasing(calls)
    requires After(d, cap, calls).1[|calls| - 1]
    ensures var last := calls[|calls| - 1];
            exists j :: 0 <= j < |calls| && CallsBy(calls[j..], last.key) > last.max
                        && forall k :: j <= k < |calls| ==> last.now - last.window <= calls[k].now <= last.now
  {
    hide CallsBy, AdmittedTo, Remembers;
    var front, last := calls[..|calls| - 1], calls[|calls| - 1];
    assert calls == front + [last];
    var (entries, verdicts) := After(d, cap, front);
    EveryHistory(d, cap, front);
    var i := Position(entries, last.key);
    assert entries[i] in entries;
    var j := Opener(front, verdicts, entries, entries[i]);
    OpenerAgrees(front, verdicts, last, entries[i], j);
    CountsExtend(front, verdicts, last, true, j, last.key);
    assert calls[j] == front[j];
  }

  lemma Opener(calls: seq<Call>, verdicts: seq<bool>, entries: seq<Entry>, e: Entry) returns (j: nat)
    requires |calls| == |verdicts| && Remembers(calls, verdicts, entries) && e in entries
    ensures OpenedBy(calls, verdicts, e, j)
  {
    j :| OpenedBy(calls, verdicts, e, j);
  }

  /** As long as a caller's bucket survives, the window it opened admits exactly the smaller of its calls
      and its limit; a limit below one still admits the opening call. */
  lemma WindowAdmitsLimit(d: Discipline, cap: nat, calls: seq<Call>, e: Entry)
    requires cap > 0 && Uniform(calls) && e in After(d, cap, calls).0
    ensures var verdicts := After(d, cap, calls).1;
            exists j: nat :: OpenedBy(calls, verdicts, e, j)
                        && AdmittedTo(calls[j..], verdicts[j..], e.key) <= AtLeastOne(calls[j].max)
                        && (calls[j].max >= 1 ==> AdmittedTo(calls[j..], verdicts[j..], e.key) <= calls[j].max)
  {
    hide CallsBy, AdmittedTo, Remembers;
    EveryHistory(d, cap, calls);
    var j := Opener(calls, After(d, cap, calls).1, After(d, cap, calls).0, e);
  }

  // ---- Retry-After ---------------------------------------------------------

  /** Whole seconds to wait, rounded up and at least one, for a call refused with `left` milliseconds to go. */
  function RetryAfterSeconds(left: nat): nat {
    if left == 0 then 1 else (left + 999) / 1000
  }

  predicate WholeSeconds(left: nat) {
    left > 0 && left % 1000 == 0
  }

  lemma RetryArithmetic(left: nat)
    ensures 1000 * RetryAfterSeconds(left) <= left <==> WholeSeconds(left)
  {
  }

  /** The time left in the window that refuses the call. */
  function TimeLeft(entries: seq<Entry>, call: Call): nat
    requires HasOpenBucket(entries, call)
  {
    entries[Position(entries, call.key)].resetAt - call.now
  }

  /** The same caller coming back, to an otherwise untouched map, after being refused. */
  lemma RefusedAgain(d: Discipline, cap: nat, entries: seq<Entry>, call: Call, wait: nat)
    requires cap > 0 && Refused(entries, call)
    ensures Refused(Served(d, cap, entries, call), call.(now := call.now + wait)) <==> wait <= TimeLeft(entries, call)
  {
    hide Position, Put, Newest, Sweep;
    var i := Position(entries, call.key);
    SamePosition(entries, entries[i := CallersBucket(entries, call)], call.key);
  }

  /** Waiting the advertised time is not always enough: a caller who returns after exactly that long, to
      the bucket that refused it, is refused again precisely when the time left was a positive whole
      number of seconds, because the window only ends strictly after `resetAt`. */
  lemma RetryAfterIsEnoughExactly(d: Discipline, cap: nat, entries: seq<Entry>, call: Call)
    requires cap > 0 && Refused(entries, call)
    ensures var left := TimeLeft(entries, call);
            Refused(Served(d, cap, entries, call), call.(now := call.now + 1000 * RetryAfterSeconds(left))) <==>
              WholeSeconds(left)
  {
    hide Served, RetryAfterSeconds, WholeSeconds;
    var left := TimeLeft(entries, call);
    RetryArithmetic(left);
    RefusedAgain(d, cap, entries, call, 1000 * RetryAfterSeconds(left));
  }

  lemma {:induction false} SamePosition(a: seq<Entry>, b: seq<Entry>, key: string)
    requires |a| == |b| && forall i :: 0 <= i < |a| ==> a[i].key == b[i].key
    ensures Position(a, key) == Position(b, key)
  {
  }
}
