/** What `profile.ts` and `activity.ts` share: event logs, the rows made from them, totals per key and the
    newest-first order. */
module Ledger {
  import opened Prelude
  import opened Decimals
  import opened Routes

  /** A `ZapCreated` log. */
  datatype Creation = Creation(
    zap: Address, owner: Address, factory: Address, policyHash: nat, tx: nat, block: nat, index: nat)

  /** Which standing authorization produced an automated run. */
  datatype RunKind = Recurring | RecurringRelative | RecurringStack | TriggerRun

  /** Any other log. `actor` is the recipient, executor or owner the event names; `authorization` its nonce
      or series id; fields an event does not declare are never read from its list. */
  datatype Log = Log(
    emitter: Address, actor: Address, asset: Address, amount: nat, executorFee: nat, potFee: nat,
    stackIn: Option<nat>, zapsOut: Option<nat>, policyHash: nat, authorization: nat, run: Option<nat>,
    runKind: RunKind, tx: nat, block: nat, index: nat)

  datatype History = History(
    created: seq<Creation>, executed: seq<Log>, automated: seq<Log>, exits: seq<Log>,
    invalidated: seq<Log>, finished: seq<Log>, halted: seq<Log>)

  datatype Kind = Created | Executed | Automated | Recovered | Halted | Revoked | SeriesFinished

  datatype Row = Row(
    kind: Kind, zap: Address, lineage: Option<string>, tx: nat, block: nat, index: nat, timestamp: Option<nat>,
    actor: Option<Address>, amount: Option<nat>, symbol: Option<string>, detail: Option<string>,
    authorization: Option<nat>, run: Option<nat>, automationKind: Option<RunKind>)

  /** Token labels, factory lineages and block times, as configured or fetched. */
  datatype Names = Names(symbolFor: Address -> string, lineageFor: Address -> string, timestamps: map<nat, nat>)

  /** `describeAutomatedRun`. */
  function DescribeRun(kind: RunKind, run: Option<nat>): string {
    if kind == TriggerRun then "price trigger"
    else
      var kindLabel := match kind
        case RecurringStack => "recurring · stacks 0xZAPS"
        case RecurringRelative => "recurring · spot floor"
        case _ => "recurring";
      if run.None? then kindLabel else "run " + Show(run.value) + " · " + kindLabel
  }

  function TimeOf(names: Names, block: nat): Option<nat> {
    if block in names.timestamps then Some(names.timestamps[block]) else None
  }

  // ---- the provenance gate -------------------------------------------------

  ghost function ZapsOf(created: seq<Creation>): set<Address> {
    set c | c in created :: c.zap
  }

  /** Position of the zap's creation, or the size when it has none. */
  function Position(created: seq<Creation>, zap: Address): (i: nat)
    ensures i <= |created|
    ensures i < |created| ==> created[i].zap == zap
    ensures forall j :: 0 <= j < i ==> created[j].zap != zap
  {
    if created == [] || created[0].zap == zap then 0 else 1 + Position(created[1..], zap)
  }

  predicate Belongs(created: seq<Creation>, emitter: Address) {
    Position(created, emitter) < |created|
  }

  lemma BelongsIsMembership(created: seq<Creation>, emitter: Address)
    ensures Belongs(created, emitter) <==> emitter in ZapsOf(created)
  {
  }

  /** The logs whose emitter the factory created. */
  function Verified(created: seq<Creation>, logs: seq<Log>): seq<Log> {
    if logs == [] then []
    else
      var front := Verified(created, logs[..|logs| - 1]);
      if Belongs(created, logs[|logs| - 1].emitter) then front + [logs[|logs| - 1]] else front
  }

  lemma {:induction false} VerifiedMembers(created: seq<Creation>, logs: seq<Log>, log: Log)
    ensures log in Verified(created, logs) <==> log in logs && Belongs(created, log.emitter)
  {
    if logs != [] {
      VerifiedMembers(created, logs[..|logs| - 1], log);
      assert logs == logs[..|logs| - 1] + [logs[|logs| - 1]];
    }
  }

  /** `b` is `a` with any number of logs from other emitters mixed in, anywhere. */
  ghost predicate Spoofed(a: seq<Log>, b: seq<Log>, zaps: set<Address>) {
    if b == [] then a == []
    else
      var last := b[|b| - 1];
      || (last.emitter !in zaps && Spoofed(a, b[..|b| - 1], zaps))
      || (a != [] && a[|a| - 1] == last && Spoofed(a[..|a| - 1], b[..|b| - 1], zaps))
  }

  lemma {:induction false} SpoofsVanish(created: seq<Creation>, a: seq<Log>, b: seq<Log>)
    requires Spoofed(a, b, ZapsOf(created))
    ensures Verified(created, a) == Verified(created, b)
  {
    hide Belongs, ZapsOf;
    if b != [] {
      var last := b[|b| - 1];
      BelongsIsMembership(created, last.emitter);
      if last.emitter !in ZapsOf(created) && Spoofed(a, b[..|b| - 1], ZapsOf(created)) {
        SpoofsVanish(created, a, b[..|b| - 1]);
      } else {
        SpoofsVanish(created, a[..|a| - 1], b[..|b| - 1]);
      }
    }
  }

  // ---- totals per key ------------------------------------------------------

  function At<K(==)>(entries: seq<(K, nat)>, key: K): nat {
    if entries == [] then 0
    else At(entries[..|entries| - 1], key) + if entries[|entries| - 1].0 == key then entries[|entries| - 1].1 else 0
  }

  function All<K>(entries: seq<(K, nat)>): nat {
    if entries == [] then 0 else All(entries[..|entries| - 1]) + entries[|entries| - 1].1
  }

  function Over<K(==)>(keys: seq<K>, entries: seq<(K, nat)>): nat {
    if keys == [] then 0 else Over(keys[..|keys| - 1], entries) + At(entries, keys[|keys| - 1])
  }

  ghost predicate Distinct<K(!new)>(keys: seq<K>) {
    forall i, j :: 0 <= i < j < |keys| ==> keys[i] != keys[j]
  }

  lemma {:induction false} OverEmpty<K>(keys: seq<K>)
    ensures Over(keys, []) == 0
  {
    if keys != [] { OverEmpty(keys[..|keys| - 1]); }
  }

  lemma {:induction false} OverSnoc<K(!new)>(keys: seq<K>, front: seq<(K, nat)>, last: (K, nat))
    requires Distinct(keys)
    ensures Over(keys, front + [last]) == Over(keys, front) + if last.0 in keys then last.1 else 0
  {
    if keys != [] {
      OverSnoc(keys[..|keys| - 1], front, last);
      assert (front + [last])[..|front|] == front;
      assert keys == keys[..|keys| - 1] + [keys[|keys| - 1]];
    }
  }

  /** Summing per key over every key that occurs loses and repeats nothing. */
  lemma {:induction false} PartitionSums<K(!new)>(keys: seq<K>, entries: seq<(K, nat)>)
    requires Distinct(keys) && forall e :: e in entries ==> e.0 in keys
    ensures Over(keys, entries) == All(entries)
  {
    if entries == [] {
      OverEmpty(keys);
    } else {
      var front, last := entries[..|entries| - 1], entries[|entries| - 1];
      assert entries == front + [last];
      PartitionSums(keys, front);
      OverSnoc(keys, front, last);
    }
  }

  // ---- volumes -------------------------------------------------------------

  /** The amount added under its symbol, a new symbol starting from zero. */
  function Credited(volume: map<string, nat>, symbol: string, amount: nat): map<string, nat> {
    volume[symbol := (if symbol in volume then volume[symbol] else 0) + amount]
  }

  function Volume(entries: seq<(string, nat)>): map<string, nat> {
    if entries == [] then map[]
    else Credited(Volume(entries[..|entries| - 1]), entries[|entries| - 1].0, entries[|entries| - 1].1)
  }

  lemma VolumeSnoc(entries: seq<(string, nat)>, i: nat)
    requires i < |entries|
    ensures Volume(entries[..i + 1]) == Credited(Volume(entries[..i]), entries[i].0, entries[i].1)
    ensures Volume(entries[..0]) == map[] && entries[..|entries|] == entries
  {
    assert entries[..i + 1][..i] == entries[..i];
  }

  lemma {:induction false} VolumeAt(entries: seq<(string, nat)>, symbol: string)
    ensures symbol in Volume(entries) <==> exists e :: e in entries && e.0 == symbol
    ensures At(entries, symbol) == if symbol in Volume(entries) then Volume(entries)[symbol] else 0
  {
    if entries != [] {
      VolumeAt(entries[..|entries| - 1], symbol);
      assert entries == entries[..|entries| - 1] + [entries[|entries| - 1]];
    }
  }

  function SumValues(keys: seq<string>, volume: map<string, nat>): nat
    requires forall key :: key in keys ==> key in volume
  {
    if keys == [] then 0
    else SumValues(keys[..|keys| - 1], volume) + volume[keys[|keys| - 1]]
  }

  lemma {:induction false} SumsAgree(keys: seq<string>, entries: seq<(string, nat)>)
    requires forall key :: key in keys ==> key in Volume(entries)
    ensures SumValues(keys, Volume(entries)) == Over(keys, entries)
  {
    hide Volume, At;
    if keys != [] {
      SumsAgree(keys[..|keys| - 1], entries);
      VolumeAt(entries, keys[|keys| - 1]);
      assert keys[|keys| - 1] in keys;
    }
  }

  /** However the symbols are listed, the volumes add up to everything that was verified. */
  lemma VolumesConserve(keys: seq<string>, entries: seq<(string, nat)>)
    requires Distinct(keys) && forall key :: key in keys <==> key in Volume(entries)
    ensures SumValues(keys, Volume(entries)) == All(entries)
  {
    hide Volume;
    SumsAgree(keys, entries);
    forall e | e in entries ensures e.0 in keys { VolumeAt(entries, e.0); }
    PartitionSums(keys, entries);
  }

  // ---- totals over logs ----------------------------------------------------

  /** What is added up over logs: their number, what they paid or were charged under a symbol, or all of it. */
  datatype Measure = Number | PaidIn(symbol: string) | ChargedIn(symbol: string) | Paid | ExecutorFees | PotFees

  function WeightOf(names: Names, m: Measure, log: Log): nat {
    match m
    case Number => 1
    case PaidIn(symbol) => if names.symbolFor(log.asset) == symbol then log.amount else 0
    case ChargedIn(symbol) => if names.symbolFor(log.asset) == symbol then log.executorFee + log.potFee else 0
    case Paid => log.amount
    case ExecutorFees => log.executorFee
    case PotFees => log.potFee
  }

  function Weight(names: Names, m: Measure, logs: seq<Log>): nat {
    if logs == [] then 0 else Weight(names, m, logs[..|logs| - 1]) + WeightOf(names, m, logs[|logs| - 1])
  }

  lemma WeightSnoc(names: Names, m: Measure, front: seq<Log>, last: Log)
    ensures Weight(names, m, front + [last]) == Weight(names, m, front) + WeightOf(names, m, last)
  {
    assert (front + [last])[..|front|] == front;
  }

  /** The total over the logs that the capsules in `zaps` emitted. */
  ghost function Tally(names: Names, m: Measure, logs: seq<Log>, zaps: set<Address>): nat {
    if logs == [] then 0
    else Tally(names, m, logs[..|logs| - 1], zaps)
         + if logs[|logs| - 1].emitter in zaps then WeightOf(names, m, logs[|logs| - 1]) else 0
  }

  /** The gate keeps exactly the logs of created capsules, each as often as it occurs. */
  lemma {:induction false} VerifiedTally(names: Names, m: Measure, created: seq<Creation>, logs: seq<Log>)
    ensures Weight(names, m, Verified(created, logs)) == Tally(names, m, logs, ZapsOf(created))
  {
    hide Belongs, ZapsOf, WeightOf;
    if logs != [] {
      var front, last := logs[..|logs| - 1], logs[|logs| - 1];
      VerifiedTally(names, m, created, front);
      BelongsIsMembership(created, last.emitter);
      WeightSnoc(names, m, Verified(created, front), last);
    }
  }

  // ---- newest first --------------------------------------------------------

  /** Where an item stands on the chain: its block, then its log index. */
  type Place = (nat, nat)

  predicate Later(a: Place, b: Place) {
    a.0 > b.0 || (a.0 == b.0 && a.1 > b.1)
  }

  function RowPlace(row: Row): Place {
    (row.block, row.index)
  }

  ghost predicate NewestFirst<T>(items: seq<T>, place: T -> Place) {
    forall i, j :: 0 <= i < j < |items| ==> !Later(place(items[j]), place(items[i]))
  }

  /** Behind every item that is not older: items at one place keep their order. */
  function Insert<T>(items: seq<T>, item: T, place: T -> Place): (r: seq<T>)
    ensures |r| == |items| + 1
  {
    if items == [] || !Later(place(item), place(items[|items| - 1])) then items + [item]
    else Insert(items[..|items| - 1], item, place) + [items[|items| - 1]]
  }

  /** The language's stable sort, newest first. */
  function Sorted<T>(items: seq<T>, place: T -> Place): (r: seq<T>)
    ensures |r| == |items|
  {
    if items == [] then [] else Insert(Sorted(items[..|items| - 1], place), items[|items| - 1], place)
  }

  lemma {:induction false} InsertKeeps<T>(items: seq<T>, item: T, place: T -> Place)
    ensures multiset(Insert(items, item, place)) == multiset(items) + multiset{item}
  {
    if items != [] && Later(place(item), place(items[|items| - 1])) {
      var front, last := items[..|items| - 1], items[|items| - 1];
      InsertKeeps(front, item, place);
      assert items == front + [last];
    }
  }

  lemma {:induction false} InsertOrders<T>(items: seq<T>, item: T, place: T -> Place)
    requires NewestFirst(items, place)
    ensures NewestFirst(Insert(items, item, place), place)
  {
    if items == [] || !Later(place(item), place(items[|items| - 1])) {
      AppendOrders(items, item, place);
    } else {
      var front, last := items[..|items| - 1], items[|items| - 1];
      InsertOrders(front, item, place);
      InsertKeeps(front, item, place);
      var r := Insert(front, item, place);
      forall i | 0 <= i < |r| ensures !Later(place(last), place(r[i])) {
        assert r[i] in multiset(r);
        assert r[i] == item || r[i] in front;
      }
    }
  }

  lemma AppendOrders<T>(items: seq<T>, item: T, place: T -> Place)
    requires NewestFirst(items, place) && (items == [] || !Later(place(item), place(items[|items| - 1])))
    ensures NewestFirst(items + [item], place)
  {
  }

  /** Sorting loses nothing and puts the newest first. */
  lemma {:induction false} SortedSpec<T>(items: seq<T>, place: T -> Place)
    ensures multiset(Sorted(items, place)) == multiset(items) && NewestFirst(Sorted(items, place), place)
  {
    hide Insert, NewestFirst;
    if items == [] {
      assert NewestFirst(items, place) by { NothingToOrder(items, place); }
    } else {
      var front, last := items[..|items| - 1], items[|items| - 1];
      SortedSpec(front, place);
      InsertKeeps(Sorted(front, place), last, place);
      InsertOrders(Sorted(front, place), last, place);
      assert items == front + [last];
    }
  }

  lemma NothingToOrder<T>(items: seq<T>, place: T -> Place)
    requires items == []
    ensures NewestFirst(items, place)
  {
  }

  /** No two items stand at one place. */
  ghost predicate Apart<T>(items: seq<T>, place: T -> Place) {
    forall i, j :: 0 <= i < j < |items| ==> place(items[i]) != place(items[j])
  }

  /** Then newest-first determines the list: every correct sort answers the same. */
  lemma {:induction false} OneOrder<T>(a: seq<T>, b: seq<T>, place: T -> Place)
    requires NewestFirst(a, place) && NewestFirst(b, place) && Apart(a, place) && multiset(a) == multiset(b)
    ensures a == b
  {
    SameLength(a, b);
    if a != [] {
      hide NewestFirst, Apart;
      var x := a[|a| - 1];
      SameLast(a, b, place);
      var front, rest := a[..|a| - 1], b[..|b| - 1];
      assert front + [x] == a && rest + [x] == b;
      FrontsAgree(front, rest, x);
      FrontStays(a, place);
      FrontStays(b, place);
      OneOrder(front, rest, place);
    }
  }

  lemma FrontStays<T>(a: seq<T>, place: T -> Place)
    requires a != []
    ensures NewestFirst(a, place) ==> NewestFirst(a[..|a| - 1], place)
    ensures Apart(a, place) ==> Apart(a[..|a| - 1], place)
  {
  }

  lemma SameLast<T>(a: seq<T>, b: seq<T>, place: T -> Place)
    requires NewestFirst(a, place) && NewestFirst(b, place) && Apart(a, place) && multiset(a) == multiset(b) && a != []
    ensures |a| == |b| && a[|a| - 1] == b[|b| - 1]
  {
    SameLength(a, b);
    var x, y := a[|a| - 1], b[|b| - 1];
    assert x in multiset(b) && y in multiset(a);
    var i :| 0 <= i < |a| && a[i] == y;
    var j :| 0 <= j < |b| && b[j] == x;
    assert !Later(place(x), place(y)) && !Later(place(y), place(x));
  }

  lemma FrontsAgree<T>(a: seq<T>, b: seq<T>, x: T)
    requires multiset(a + [x]) == multiset(b + [x])
    ensures multiset(a) == multiset(b)
  {
    assert multiset(a) == multiset(a + [x]) - multiset{x};
    assert multiset(b) == multiset(b + [x]) - multiset{x};
  }

  lemma SameLength<T>(a: seq<T>, b: seq<T>)
    requires multiset(a) == multiset(b)
    ensures |a| == |b|
  {
    assert |multiset(a)| == |a| && |multiset(b)| == |b|;
  }
}
