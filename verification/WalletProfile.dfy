/** One wallet's history (`profile.ts`): a provenance gate, totals, rows and per-capsule counts. */
module WalletProfile {
  import opened Prelude
  import opened Decimals
  import opened Routes
  import opened Ledger

  // ---- creations -----------------------------------------------------------

  function OwnedBy(created: seq<Creation>, owner: Address): seq<Creation> {
    if created == [] then []
    else
      var front := OwnedBy(created[..|created| - 1], owner);
      if created[|created| - 1].owner == owner then front + [created[|created| - 1]] else front
  }

  /** A capsule's earliest creation stays, at the place the capsule was first seen. */
  function Noted(table: seq<Creation>, log: Creation): seq<Creation> {
    var i := Position(table, log.zap);
    if i == |table| then table + [log]
    else if log.block < table[i].block then table[i := log]
    else table
  }

  function Deduped(created: seq<Creation>): seq<Creation> {
    if created == [] then [] else Noted(Deduped(created[..|created| - 1]), created[|created| - 1])
  }

  /** `dedupeCreations`, over an insertion-ordered map keyed by capsule. */
  method DedupeCreations(created: seq<Creation>) returns (byZap: seq<Creation>)
    ensures byZap == Deduped(created)
  {
    byZap := [];
    for k := 0 to |created|
      invariant byZap == Deduped(created[..k])
    {
      assert created[..k + 1][..k] == created[..k];
      var log := created[k];
      var i := Position(byZap, log.zap);
      if i == |byZap| {
        byZap := byZap + [log];
      } else if log.block < byZap[i].block {
        byZap := byZap[i := log];
      }
    }
    assert created[..|created|] == created;
  }

  ghost predicate OnePerZap(table: seq<Creation>) {
    forall i, j :: 0 <= i < j < |table| ==> table[i].zap != table[j].zap
  }

  /** The table holds a creation of this capsule at least as early. */
  ghost predicate Covers(table: seq<Creation>, c: Creation) {
    exists i :: 0 <= i < |table| && table[i].zap == c.zap && table[i].block <= c.block
  }

  /** One entry per capsule, each an earliest of that capsule's creations, and no capsule missing. */
  ghost predicate EarliestOf(table: seq<Creation>, created: seq<Creation>) {
    && OnePerZap(table) && (forall c :: c in table ==> c in created) && (forall c :: c in created ==> Covers(table, c))
  }

  lemma NotedTable(table: seq<Creation>, log: Creation)
    requires OnePerZap(table)
    ensures OnePerZap(Noted(table, log))
    ensures forall c :: c in Noted(table, log) ==> c in table || c == log
  {
  }

  lemma NotedCovers(table: seq<Creation>, log: Creation, c: Creation)
    requires Covers(table, c) || c == log
    ensures Covers(Noted(table, log), c)
  {
    var next, i := Noted(table, log), Position(table, log.zap);
    if c == log {
      assert next[i].zap == c.zap && next[i].block <= c.block;
    } else {
      var k :| 0 <= k < |table| && table[k].zap == c.zap && table[k].block <= c.block;
      assert next[k].zap == c.zap && next[k].block <= c.block;
    }
  }

  lemma NotedStep(table: seq<Creation>, front: seq<Creation>, log: Creation)
    requires EarliestOf(table, front)
    ensures EarliestOf(Noted(table, log), front + [log])
  {
    hide Noted, OnePerZap, Covers;
    NotedTable(table, log);
    forall c | c in front + [log] ensures Covers(Noted(table, log), c) { NotedCovers(table, log, c); }
  }

  lemma {:induction false} DedupedSpec(created: seq<Creation>)
    ensures EarliestOf(Deduped(created), created)
  {
    hide Noted, EarliestOf;
    if created == [] {
      assert EarliestOf([], []) by { NothingDeduped(); }
    } else {
      var front, last := created[..|created| - 1], created[|created| - 1];
      DedupedSpec(front);
      NotedStep(Deduped(front), front, last);
      assert created == front + [last];
    }
  }

  lemma NothingDeduped()
    ensures EarliestOf([], [])
  {
  }

  /** The first of its capsule's earliest creations. */
  ghost predicate FirstEarliest(created: seq<Creation>, i: int) {
    && 0 <= i < |created|
    && (forall j :: 0 <= j < i && created[j].zap == created[i].zap ==> created[i].block < created[j].block)
    && (forall j :: i < j < |created| && created[j].zap == created[i].zap ==> created[i].block <= created[j].block)
  }

  lemma FirstSnoc(front: seq<Creation>, last: Creation, i: int)
    ensures 0 <= i < |front| ==>
              (FirstEarliest(front + [last], i) <==>
               FirstEarliest(front, i) && (last.zap == front[i].zap ==> front[i].block <= last.block))
    ensures FirstEarliest(front + [last], |front|) <==>
            forall c :: c in front && c.zap == last.zap ==> last.block < c.block
  {
    var all := front + [last];
    if 0 <= i < |front| && FirstEarliest(all, i) {
      assert all[|front|] == last;
      forall j | 0 <= j < i && front[j].zap == front[i].zap ensures front[i].block < front[j].block {
        assert all[j] == front[j];
      }
      forall j | i < j < |front| && front[j].zap == front[i].zap ensures front[i].block <= front[j].block {
        assert all[j] == front[j];
      }
    }
    if FirstEarliest(all, |front|) {
      forall c | c in front && c.zap == last.zap ensures last.block < c.block {
        var j :| 0 <= j < |front| && front[j] == c;
        assert all[j] == c;
      }
    }
  }

  /** The creation is the first of its capsule's earliest. */
  ghost predicate KeptAt(created: seq<Creation>, i: int, c: Creation) {
    0 <= i < |created| && created[i] == c && FirstEarliest(created, i)
  }

  /** De-duplication keeps the first of each capsule's earliest creations and nothing else. */
  lemma {:induction false} DedupedExactly(created: seq<Creation>, c: Creation)
    ensures c in Deduped(created) <==> exists i :: KeptAt(created, i, c)
  {
    hide FirstEarliest, Noted, EarliestOf;
    if created != [] {
      var front, last := created[..|created| - 1], created[|created| - 1];
      assert created == front + [last];
      DedupedSpec(front);
      DedupedExactly(front, c);
      NotedMembers(Deduped(front), front, last, c);
      FirstSnoc(front, last, 0);
      forall i | 0 <= i < |front|
        ensures KeptAt(created, i, c) <==> KeptAt(front, i, c) && (c.zap == last.zap ==> c.block <= last.block)
      {
        FirstSnoc(front, last, i);
      }
      assert KeptAt(created, |front|, c) <==>
             c == last && forall d :: d in front && d.zap == last.zap ==> last.block < d.block;
    }
  }

  lemma NotedMembers(table: seq<Creation>, front: seq<Creation>, log: Creation, c: Creation)
    requires EarliestOf(table, front)
    ensures c in Noted(table, log) <==>
            || (c == log && forall d :: d in front && d.zap == log.zap ==> log.block < d.block)
            || (c in table && (c.zap == log.zap ==> c.block <= log.block))
  {
    var i, next := Position(table, log.zap), Noted(table, log);
    if c in table {
      var k :| 0 <= k < |table| && table[k] == c;
      assert i != k ==> next[k] == c;
    }
    if i < |table| { assert table[i] in front; }
    forall d | d in front && d.zap == log.zap ensures i < |table| && table[i].block <= d.block {
      assert Covers(table, d);
    }
    assert i == |table| || log.block < table[i].block ==> next[i] == log;
  }

  // ---- the gate ------------------------------------------------------------

  predicate HaltCapable(lineage: string) {
    lineage == "v1.2" || lineage == "v3.2"
  }

  /** `matchesPolicyHaltCreation`, on a lineage that can halt. */
  predicate HaltProven(names: Names, created: seq<Creation>, log: Log) {
    var i := Position(created, log.emitter);
    && i < |created| && HaltCapable(names.lineageFor(created[i].factory))
    && log.actor == created[i].owner && log.policyHash == created[i].policyHash
  }

  function ProvenHalts(names: Names, created: seq<Creation>, logs: seq<Log>): seq<Log> {
    if logs == [] then []
    else
      var front := ProvenHalts(names, created, logs[..|logs| - 1]);
      if HaltProven(names, created, logs[|logs| - 1]) then front + [logs[|logs| - 1]] else front
  }

  /** What survives of a history: everything later is computed from this alone. */
  function Gate(names: Names, owner: Address, h: History): History {
    var created := Deduped(OwnedBy(h.created, owner));
    History(created, Verified(created, h.executed), Verified(created, h.automated), Verified(created, h.exits),
            Verified(created, h.invalidated), Verified(created, h.finished), ProvenHalts(names, created, h.halted))
  }

  // ---- rows ----------------------------------------------------------------

  function LineageOf(names: Names, created: seq<Creation>, zap: Address): string {
    var i := Position(created, zap);
    if i < |created| then names.lineageFor(created[i].factory) else "unknown"
  }

  function CreationRow(names: Names, created: seq<Creation>, owner: Address, c: Creation): Row {
    var lineage := LineageOf(names, created, c.zap);
    Row(Created, c.zap, Some(lineage), c.tx, c.block, c.index, TimeOf(names, c.block), Some(owner), None, None,
        Some(lineage + " capsule created"), None, None, None)
  }

  function DetailOf(kind: Kind, log: Log): string {
    match kind
    case Automated => DescribeRun(log.runKind, log.run)
    case Recovered => "tracked asset recovered to owner"
    case Halted => "execution policy permanently halted"
    case Revoked => "authorization revoked onchain"
    case SeriesFinished =>
      "series finished after " + Show(log.run.GetOr(0)) + (if log.run == Some(1) then " run" else " runs")
    case _ => "one-time execution confirmed"
  }

  function LogRow(names: Names, created: seq<Creation>, owner: Address, kind: Kind, log: Log): Row {
    var priced := kind == Executed || kind == Automated || kind == Recovered;
    Row(kind, log.emitter, Some(LineageOf(names, created, log.emitter)), log.tx, log.block, log.index,
        TimeOf(names, log.block),
        if kind == Revoked then Some(owner) else if kind == SeriesFinished then None else Some(log.actor),
        if priced then Some(log.amount) else None,
        if priced then Some(names.symbolFor(log.asset)) else None,
        Some(DetailOf(kind, log)),
        if kind == Automated || kind == Revoked || kind == SeriesFinished then Some(log.authorization) else None,
        if kind == Automated || kind == SeriesFinished then log.run else None,
        if kind == Automated then Some(log.runKind) else if kind == SeriesFinished then Some(Recurring) else None)
  }

  function CreationRows(names: Names, owner: Address, created: seq<Creation>): (rows: seq<Row>)
    ensures |rows| == |created|
    ensures forall i :: 0 <= i < |rows| ==>
            rows[i].kind == Created && rows[i].zap == created[i].zap && rows[i].block == created[i].block
  {
    seq(|created|, i requires 0 <= i < |created| => CreationRow(names, created, owner, created[i]))
  }

  function LogRows(names: Names, created: seq<Creation>, owner: Address, kind: Kind, logs: seq<Log>): (rows: seq<Row>)
    ensures |rows| == |logs|
    ensures forall i :: 0 <= i < |rows| ==>
            rows[i].kind == kind && rows[i].zap == logs[i].emitter && rows[i].block == logs[i].block
  {
    seq(|logs|, i requires 0 <= i < |logs| => LogRow(names, created, owner, kind, logs[i]))
  }

  /** Every row, in the order the lists are concatenated. */
  function Rows(names: Names, owner: Address, g: History): seq<Row> {
    CreationRows(names, owner, g.created)
    + LogRows(names, g.created, owner, Executed, g.executed)
    + LogRows(names, g.created, owner, Automated, g.automated)
    + LogRows(names, g.created, owner, Recovered, g.exits)
    + LogRows(names, g.created, owner, Halted, g.halted)
    + LogRows(names, g.created, owner, Revoked, g.invalidated)
    + LogRows(names, g.created, owner, SeriesFinished, g.finished)
  }

  // ---- summaries -----------------------------------------------------------

  datatype HaltStatus = Unsupported | Active | HaltedNow | Unavailable

  /** A capsule's management read: its tracked assets and halt flag, either of which can fail. */
  datatype ZapRead = ZapRead(tracked: Option<seq<Address>>, halted: Option<bool>)

  datatype Summary = Summary(
    zap: Address, factory: Address, lineage: string, policyHash: nat, createdAt: Option<nat>, createdBlock: nat,
    createdTx: nat, tracked: Option<seq<Address>>, readsLive: bool, haltStatus: HaltStatus, policyHalted: Option<bool>,
    haltedAt: Option<nat>, haltedTx: Option<nat>, executions: nat, automatedRuns: nat, recoveries: nat,
    revocations: nat, lastActivityAt: Option<nat>, lastActivityBlock: nat)

  datatype Stats = Stats(
    zapsCreated: nat, oneShotExecutions: nat, automatedRuns: nat, recoveries: nat, authorizationsRevoked: nat,
    policiesHalted: nat, executedVolume: map<string, nat>)

  function CapsulePlace(s: Summary): Place {
    (s.createdBlock, 0)
  }

  /** Capsules newest first. The source's comparator leaves capsules of one block in no particular order;
      here they keep the order of their logs. */
  datatype Profile = Profile(degraded: bool, stats: Stats, zaps: seq<Summary>, activity: seq<Row>)

  /** `policyHaltStatus`; `None` is its exception for a flag on a lineage without one. */
  function StatusOf(lineage: string, halted: Option<bool>): Option<HaltStatus> {
    if !HaltCapable(lineage) then (if halted.Some? then None else Some(Unsupported))
    else if halted.None? then Some(Unavailable)
    else if halted.value then Some(HaltedNow) else Some(Active)
  }

  function OfZap(rows: seq<Row>, zap: Address): seq<Row> {
    if rows == [] then []
    else
      var front := OfZap(rows[..|rows| - 1], zap);
      if rows[|rows| - 1].zap == zap then front + [rows[|rows| - 1]] else front
  }

  function OfKind(rows: seq<Row>, kind: Kind): seq<Row> {
    if rows == [] then []
    else
      var front := OfKind(rows[..|rows| - 1], kind);
      if rows[|rows| - 1].kind == kind then front + [rows[|rows| - 1]] else front
  }

  function ReadOf(answers: map<Address, ZapRead>, zap: Address): ZapRead {
    if zap in answers then answers[zap] else ZapRead(None, None)
  }

  function SummaryOf(names: Names, created: seq<Creation>, c: Creation, activity: seq<Row>, read: ZapRead)
    : Option<Summary>
  {
    var rows := OfZap(activity, c.zap);
    var halts := OfKind(rows, Halted);
    var lineage := LineageOf(names, created, c.zap);
    var status := StatusOf(lineage, read.halted);
    if status.None? then None
    else
      var contradicted := (status.value == Active && |halts| != 0) || (status.value == HaltedNow && |halts| != 1);
      var shown := if contradicted then Unavailable else status.value;
      Some(Summary(
        c.zap, c.factory, lineage, c.policyHash, TimeOf(names, c.block), c.block, c.tx, read.tracked,
        read.tracked.Some? && shown != Unavailable, shown, if contradicted then None else read.halted,
        if halts == [] then None else halts[0].timestamp, if halts == [] then None else Some(halts[0].tx),
        |OfKind(rows, Executed)|, |OfKind(rows, Automated)|, |OfKind(rows, Recovered)|, |OfKind(rows, Revoked)|,
        if rows == [] || rows[0].timestamp.None? then TimeOf(names, c.block) else rows[0].timestamp,
        if rows == [] then c.block else rows[0].block))
  }

  function Summaries(names: Names, created: seq<Creation>, todo: seq<Creation>, activity: seq<Row>,
                     answers: map<Address, ZapRead>): (r: Option<seq<Summary>>)
    ensures r.Some? ==> |r.value| == |todo|
    ensures r.Some? ==> forall i :: 0 <= i < |todo| ==>
              SummaryOf(names, created, todo[i], activity, ReadOf(answers, todo[i].zap)) == Some(r.value[i])
  {
    if todo == [] then Some([])
    else
      var front := Summaries(names, created, todo[..|todo| - 1], activity, answers);
      var c := todo[|todo| - 1];
      var last := SummaryOf(names, created, c, activity, ReadOf(answers, c.zap));
      if front.None? || last.None? then None else Some(front.value + [last.value])
  }

  // ---- totals --------------------------------------------------------------

  /** What each log paid out, under its asset's label. */
  function Outputs(names: Names, logs: seq<Log>): (entries: seq<(string, nat)>)
    ensures |entries| == |logs|
  {
    seq(|logs|, i requires 0 <= i < |logs| => (names.symbolFor(logs[i].asset), logs[i].amount))
  }

  /** The volume loop over one-shot and automated output. */
  method SumVolume(names: Names, executed: seq<Log>, automated: seq<Log>) returns (volume: map<string, nat>)
    ensures volume == Volume(Outputs(names, executed + automated))
  {
    var logs := executed + automated;
    ghost var entries := Outputs(names, logs);
    volume := map[];
    for i := 0 to |logs|
      invariant volume == Volume(entries[..i])
    {
      assert entries[..i + 1][..i] == entries[..i];
      volume := Credited(volume, names.symbolFor(logs[i].asset), logs[i].amount);
    }
    assert entries[..|logs|] == entries;
  }

  function Degraded(zaps: seq<Summary>): bool {
    exists i :: 0 <= i < |zaps| && !zaps[i].readsLive
  }

  /** The payload, from what passed the gate. */
  function ProfileFrom(names: Names, owner: Address, g: History, answers: map<Address, ZapRead>): Option<Profile> {
    var activity := Sorted(Rows(names, owner, g), RowPlace);
    var summaries := Summaries(names, g.created, g.created, activity, answers);
    if summaries.None? then None
    else
      var zaps := Sorted(summaries.value, CapsulePlace);
      var stats := Stats(|g.created|, |g.executed|, |g.automated|, |g.exits|, |g.invalidated|, |g.halted|,
                         Volume(Outputs(names, g.executed + g.automated)));
      Some(Profile(Degraded(zaps), stats, zaps, activity))
  }

  /** `aggregateWalletProfile`; `None` is its exception. */
  function ProfileOf(names: Names, owner: Address, h: History, answers: map<Address, ZapRead>): Option<Profile> {
    ProfileFrom(names, owner, Gate(names, owner, h), answers)
  }

  method AggregateWalletProfile(names: Names, owner: Address, h: History, answers: map<Address, ZapRead>)
    returns (r: Option<Profile>)
    ensures r == ProfileOf(names, owner, h, answers)
  {
    hide Deduped, Verified, ProvenHalts, Summaries, Rows, Volume;
    var created := DedupeCreations(OwnedBy(h.created, owner));
    var executed, automated := Verified(created, h.executed), Verified(created, h.automated);
    var exits, invalidated, finished :=
      Verified(created, h.exits), Verified(created, h.invalidated), Verified(created, h.finished);
    var halted := ProvenHalts(names, created, h.halted);
    var volume := SumVolume(names, executed, automated);
    var g := History(created, executed, automated, exits, invalidated, finished, halted);
    var activity := Sorted(Rows(names, owner, g), RowPlace);
    var summaries := Summaries(names, created, created, activity, answers);
    if summaries.None? { return None; }
    var zaps := Sorted(summaries.value, CapsulePlace);
    var stats := Stats(|created|, |executed|, |automated|, |exits|, |invalidated|, |halted|, volume);
    r := Some(Profile(Degraded(zaps), stats, zaps, activity));
  }
}
