/** The protocol-wide feed (`activity.ts`), and how its totals relate to the wallet profiles. */
module ActivityFeed {
  import opened Prelude
  import opened Routes
  import opened Ledger
  import opened WalletProfile
  import opened ProfileTotals

  const ACTIVITY_FEED_LIMIT: nat := 50

  // ---- decoding automated runs ---------------------------------------------

  /** A run log as fetched: every argument optional. */
  datatype RawRun = RawRun(
    emitter: Address, executor: Option<Address>, outAsset: Option<Address>, amountOut: Option<nat>,
    executorFee: Option<nat>, potFee: Option<nat>, stackIn: Option<nat>, zapsOut: Option<nat>,
    seriesId: Option<nat>, nonce: Option<nat>, run: Option<nat>, tx: nat, block: nat, index: nat)

  /** Who submitted it, what came out and how much; a stacked run also needs both stack amounts. */
  predicate Complete(raw: RawRun, kind: RunKind) {
    && raw.executor.Some? && raw.outAsset.Some? && raw.amountOut.Some?
    && (kind == RecurringStack ==> raw.stackIn.Some? && raw.zapsOut.Some?)
  }

  function Decoded(raw: RawRun, kind: RunKind): Log
    requires Complete(raw, kind)
  {
    Log(raw.emitter, raw.executor.value, raw.outAsset.value, raw.amountOut.value,
        raw.executorFee.GetOr(0), raw.potFee.GetOr(0),
        if kind == RecurringStack then raw.stackIn else None, if kind == RecurringStack then raw.zapsOut else None,
        0, raw.seriesId.GetOr(raw.nonce.GetOr(0)), raw.run, kind, raw.tx, raw.block, raw.index)
  }

  /** `decodeAutomatedRuns`: an incomplete run is dropped, never defaulted. */
  function DecodeRuns(raws: seq<RawRun>, kind: RunKind): seq<Log> {
    if raws == [] then []
    else
      var front, last := DecodeRuns(raws[..|raws| - 1], kind), raws[|raws| - 1];
      if Complete(last, kind) then front + [Decoded(last, kind)] else front
  }

  // ---- the feed ------------------------------------------------------------

  datatype FeedStats = FeedStats(
    zapsCreated: nat, executions: nat, automatedRuns: nat, recoveries: nat, policiesHalted: nat,
    executedVolume: map<string, nat>, automatedFees: map<string, nat>, lastActivityBlock: Option<nat>)

  datatype Feed = Feed(stats: FeedStats, activity: seq<Row>)

  /** A map built from the list: a capsule's last creation wins, at the place it was first seen. */
  function LastWins(created: seq<Creation>): seq<Creation> {
    if created == [] then []
    else
      var table, log := LastWins(created[..|created| - 1]), created[|created| - 1];
      var i := Position(table, log.zap);
      if i < |table| then table[i := log] else table + [log]
  }

  function FeedRow(names: Names, kind: Kind, log: Log): Row {
    var priced := kind == Executed || kind == Automated || kind == Recovered;
    Row(kind, log.emitter, None, log.tx, log.block, log.index, TimeOf(names, log.block), Some(log.actor),
        if priced then Some(log.amount) else None, if priced then Some(names.symbolFor(log.asset)) else None,
        if kind == Automated then Some(DescribeRun(log.runKind, log.run))
        else if kind == Halted then Some("execution policy permanently halted") else None,
        None, None, None)
  }

  function FeedRows(names: Names, kind: Kind, logs: seq<Log>): (rows: seq<Row>)
    ensures |rows| == |logs|
  {
    seq(|logs|, i requires 0 <= i < |logs| => FeedRow(names, kind, logs[i]))
  }

  function CreatedRows(names: Names, created: seq<Creation>): (rows: seq<Row>)
    ensures |rows| == |created|
  {
    seq(|created|, i requires 0 <= i < |created| =>
      Row(Created, created[i].zap, None, created[i].tx, created[i].block, created[i].index,
          TimeOf(names, created[i].block), Some(created[i].owner), None, None, None, None, None, None))
  }

  /** Everything that passed the gate; the feed shows every creation log, repeated or not. */
  function FeedGate(names: Names, h: History): History {
    var table := LastWins(h.created);
    History(h.created, Verified(table, h.executed), Verified(table, h.automated), Verified(table, h.exits), [], [],
            ProvenHalts(names, table, h.halted))
  }

  function FeedEntries(names: Names, g: History): seq<Row> {
    CreatedRows(names, g.created) + FeedRows(names, Executed, g.executed) + FeedRows(names, Automated, g.automated)
    + FeedRows(names, Recovered, g.exits) + FeedRows(names, Halted, g.halted)
  }

  function FeeOf(log: Log): nat {
    log.executorFee + log.potFee
  }

  function Fees(names: Names, logs: seq<Log>): (entries: seq<(string, nat)>)
    ensures |entries| == |logs|
  {
    seq(|logs|, i requires 0 <= i < |logs| => (names.symbolFor(logs[i].asset), FeeOf(logs[i])))
  }

  function FirstRows(rows: seq<Row>): seq<Row> {
    if |rows| <= ACTIVITY_FEED_LIMIT then rows else rows[..ACTIVITY_FEED_LIMIT]
  }

  function FeedFrom(names: Names, g: History): Feed {
    var entries := Sorted(FeedEntries(names, g), RowPlace);
    Feed(FeedStats(|g.created|, |g.executed|, |g.automated|, |g.exits|, |g.halted|,
                   Volume(Outputs(names, g.executed + g.automated)), Volume(Fees(names, g.automated)),
                   if entries == [] then None else Some(entries[0].block)),
         FirstRows(entries))
  }

  function FeedOf(names: Names, h: History): Feed {
    FeedFrom(names, FeedGate(names, h))
  }

  /** The two accumulation loops: one-shot output, then automated output together with its fees. */
  method SumFeed(names: Names, executed: seq<Log>, automated: seq<Log>)
    returns (volume: map<string, nat>, fees: map<string, nat>)
    ensures volume == Volume(Outputs(names, executed + automated)) && fees == Volume(Fees(names, automated))
  {
    hide Volume, Credited;
    ghost var outputs, charged := Outputs(names, executed + automated), Fees(names, automated);
    NoVolume(outputs);
    NoVolume(charged);
    volume, fees := map[], map[];
    for i := 0 to |executed|
      invariant volume == Volume(outputs[..i])
    {
      VolumeSnoc(outputs, i);
      volume := Credited(volume, names.symbolFor(executed[i].asset), executed[i].amount);
    }
    for i := 0 to |automated|
      invariant volume == Volume(outputs[..|executed| + i]) && fees == Volume(charged[..i])
    {
      VolumeSnoc(outputs, |executed| + i);
      VolumeSnoc(charged, i);
      var symbol := names.symbolFor(automated[i].asset);
      volume := Credited(volume, symbol, automated[i].amount);
      fees := Credited(fees, symbol, FeeOf(automated[i]));
    }
    assert outputs[..|executed| + |automated|] == outputs && charged[..|automated|] == charged;
  }

  lemma NoVolume(entries: seq<(string, nat)>)
    ensures Volume(entries[..0]) == map[]
  {
  }

  /** `aggregateActivity`. */
  method AggregateActivity(names: Names, h: History) returns (feed: Feed)
    ensures feed == FeedOf(names, h)
  {
    hide LastWins, Verified, ProvenHalts, FeedEntries, Sorted, Volume, Outputs, Fees;
    var g := FeedGate(names, h);
    var volume, fees := SumFeed(names, g.executed, g.automated);
    var entries := Sorted(FeedEntries(names, g), RowPlace);
    var last := if entries == [] then None else Some(entries[0].block);
    feed := Feed(FeedStats(|g.created|, |g.executed|, |g.automated|, |g.exits|, |g.halted|, volume, fees, last),
                 FirstRows(entries));
  }

  // ---- what the feed guarantees --------------------------------------------

  lemma {:induction false} LastWinsZaps(created: seq<Creation>, emitter: Address)
    ensures Belongs(LastWins(created), emitter) <==> Belongs(created, emitter)
  {
    BelongsIsMembership(created, emitter);
    BelongsIsMembership(LastWins(created), emitter);
    LastWinsMembers(created);
  }

  lemma {:induction false} LastWinsMembers(created: seq<Creation>)
    ensures ZapsOf(LastWins(created)) == ZapsOf(created)
  {
    if created != [] {
      var front, last := created[..|created| - 1], created[|created| - 1];
      LastWinsMembers(front);
      assert created == front + [last];
      PutZaps(LastWins(front), last);
      assert ZapsOf(created) == ZapsOf(front) + {last.zap};
    }
  }

  lemma PutZaps(table: seq<Creation>, log: Creation)
    ensures var i := Position(table, log.zap);
            ZapsOf(if i < |table| then table[i := log] else table + [log]) == ZapsOf(table) + {log.zap}
  {
    var i := Position(table, log.zap);
    var next := if i < |table| then table[i := log] else table + [log];
    assert next[i] in next;
    forall c | c in table ensures c.zap in ZapsOf(next) {
      var k :| 0 <= k < |table| && table[k] == c;
      assert next[k].zap == c.zap && next[k] in next;
    }
    forall c | c in next ensures c.zap in ZapsOf(table) + {log.zap} {
      var k :| 0 <= k < |next| && next[k] == c;
    }
  }

  /** Logs from emitters no factory created change neither the feed nor its statistics. */
  lemma SpoofsChangeNothing(names: Names, a: History, b: History)
    requires a.created == b.created
    requires var zaps := ZapsOf(a.created);
             && Spoofed(a.executed, b.executed, zaps) && Spoofed(a.automated, b.automated, zaps)
             && Spoofed(a.exits, b.exits, zaps) && Spoofed(a.halted, b.halted, zaps)
    ensures FeedOf(names, a) == FeedOf(names, b)
  {
    hide Spoofed, FeedFrom, LastWins, Verified, ProvenHalts, ZapsOf;
    var table := LastWins(a.created);
    LastWinsMembers(a.created);
    SpoofsVanish(table, a.executed, b.executed);
    SpoofsVanish(table, a.automated, b.automated);
    SpoofsVanish(table, a.exits, b.exits);
    FalseHaltsVanish(names, table, a.halted, b.halted);
  }

  /** The feed is the start of a newest-first permutation of every verified row: nothing left out of it is
      newer than anything shown, and the last activity block is the greatest there is, or absent with no row. */
  lemma FeedIsNewest(names: Names, h: History)
    ensures var feed, rows := FeedOf(names, h), FeedEntries(names, FeedGate(names, h));
            exists rest: seq<Row> ::
              && multiset(feed.activity + rest) == multiset(rows) && NewestFirst(feed.activity + rest, RowPlace)
              && |feed.activity| == (if |rows| < ACTIVITY_FEED_LIMIT then |rows| else ACTIVITY_FEED_LIMIT)
    ensures var feed, rows := FeedOf(names, h), FeedEntries(names, FeedGate(names, h));
            forall row :: row in rows ==>
              feed.stats.lastActivityBlock.Some? && row.block <= feed.stats.lastActivityBlock.value
    ensures var feed, rows := FeedOf(names, h), FeedEntries(names, FeedGate(names, h));
            && (feed.stats.lastActivityBlock.None? <==> rows == [])
            && (rows != [] ==> exists row :: row in rows && feed.stats.lastActivityBlock == Some(row.block))
  {
    hide FeedGate, FeedEntries, Sorted, Volume, Outputs, Fees, NewestFirst;
    var rows := FeedEntries(names, FeedGate(names, h));
    var sorted := Sorted(rows, RowPlace);
    SortedSpec(rows, RowPlace);
    var shown := FeedOf(names, h).activity;
    assert shown == FirstRows(sorted);
    var rest := sorted[|shown|..];
    assert shown + rest == sorted;
    assert multiset(shown + rest) == multiset(rows) && NewestFirst(shown + rest, RowPlace);
    FirstIsNewestRow(rows);
  }

  /** The first row of the sorted list is a row with the greatest block. */
  lemma FirstIsNewestRow(rows: seq<Row>)
    ensures var sorted := Sorted(rows, RowPlace);
            && (sorted == [] <==> rows == [])
            && (rows != [] ==> sorted[0] in rows && forall row :: row in rows ==> row.block <= sorted[0].block)
  {
    hide Sorted;
    var sorted := Sorted(rows, RowPlace);
    SortedSpec(rows, RowPlace);
    forall row | row in rows ensures sorted != [] && row.block <= sorted[0].block {
      assert row in multiset(sorted);
      var i :| 0 <= i < |sorted| && sorted[i] == row;
    }
    if rows != [] { assert sorted[0] in multiset(sorted); }
  }

  /** Volume and fees, however their symbols are listed, add up to all verified output and all fees. */
  lemma FeedConserves(names: Names, h: History, sold: seq<string>, charged: seq<string>)
    requires Distinct(sold) && forall s :: s in sold <==> s in FeedOf(names, h).stats.executedVolume
    requires Distinct(charged) && forall s :: s in charged <==> s in FeedOf(names, h).stats.automatedFees
    ensures var g := FeedGate(names, h);
            && SumValues(sold, FeedOf(names, h).stats.executedVolume) == All(Outputs(names, g.executed + g.automated))
            && SumValues(charged, FeedOf(names, h).stats.automatedFees) == All(Fees(names, g.automated))
  {
    hide FeedGate, FeedEntries, Sorted, Volume, Outputs, Fees;
    var g := FeedGate(names, h);
    VolumesConserve(sold, Outputs(names, g.executed + g.automated));
    VolumesConserve(charged, Fees(names, g.automated));
  }

  // ---- one protocol, many wallets ------------------------------------------

  /** No capsule is created for two owners. */
  ghost predicate OneOwner(created: seq<Creation>) {
    forall c, d :: c in created && d in created && c.zap == d.zap ==> c.owner == d.owner
  }

  /** The owner of a created capsule; any address for the others. */
  function OwnerOf(created: seq<Creation>, zap: Address): Address {
    var i := Position(created, zap);
    if i < |created| then created[i].owner else 0
  }

  lemma {:induction false} OwnedMembers(created: seq<Creation>, owner: Address, c: Creation)
    ensures c in OwnedBy(created, owner) <==> c in created && c.owner == owner
  {
    if created != [] {
      OwnedMembers(created[..|created| - 1], owner, c);
      assert created == created[..|created| - 1] + [created[|created| - 1]];
    }
  }

  lemma MineExactly(created: seq<Creation>, owner: Address, emitter: Address)
    requires OneOwner(created)
    ensures Belongs(Deduped(OwnedBy(created, owner)), emitter)
            <==> Belongs(created, emitter) && OwnerOf(created, emitter) == owner
  {
    hide Deduped, OwnedBy;
    var mine := OwnedBy(created, owner);
    DedupedZaps(mine);
    BelongsIsMembership(Deduped(mine), emitter);
    BelongsIsMembership(created, emitter);
    var i := Position(created, emitter);
    if i < |created| {
      assert created[i] in created;
      OwnedMembers(created, owner, created[i]);
      if emitter in ZapsOf(mine) {
        var c :| c in mine && c.zap == emitter;
        OwnedMembers(created, owner, c);
      }
    } else if emitter in ZapsOf(mine) {
      var c :| c in mine && c.zap == emitter;
      OwnedMembers(created, owner, c);
      assert false;
    }
  }

  /** One entry per verified log, under its capsule's owner. */
  function ByOwner(names: Names, m: Measure, created: seq<Creation>, logs: seq<Log>): (entries: seq<(Address, nat)>)
    ensures |entries| == |logs|
  {
    seq(|logs|, i requires 0 <= i < |logs| => (OwnerOf(created, logs[i].emitter), WeightOf(names, m, logs[i])))
  }

  lemma ByOwnerSnoc(names: Names, m: Measure, created: seq<Creation>, front: seq<Log>, last: Log)
    ensures ByOwner(names, m, created, front + [last])
            == ByOwner(names, m, created, front) + [(OwnerOf(created, last.emitter), WeightOf(names, m, last))]
  {
  }

  lemma {:induction false} OwnersShare(names: Names, m: Measure, created: seq<Creation>, logs: seq<Log>, owner: Address)
    requires OneOwner(created)
    ensures Weight(names, m, Verified(Deduped(OwnedBy(created, owner)), logs))
            == At(ByOwner(names, m, created, Verified(LastWins(created), logs)), owner)
  {
    hide OneOwner, Deduped, OwnedBy, LastWins, Belongs, OwnerOf, WeightOf;
    if logs != [] {
      var front, last := logs[..|logs| - 1], logs[|logs| - 1];
      OwnersShare(names, m, created, front, owner);
      MineExactly(created, owner, last.emitter);
      LastWinsZaps(created, last.emitter);
      var kept := Verified(LastWins(created), front);
      ByOwnerSnoc(names, m, created, kept, last);
      AtSnoc(ByOwner(names, m, created, kept), (OwnerOf(created, last.emitter), WeightOf(names, m, last)), owner);
      WeightSnoc(names, m, Verified(Deduped(OwnedBy(created, owner)), front), last);
    }
  }

  /** Each wallet's share of the verified logs of one list. */
  function Shares(names: Names, m: Measure, owners: seq<Address>, created: seq<Creation>, logs: seq<Log>): nat {
    if owners == [] then 0
    else Shares(names, m, owners[..|owners| - 1], created, logs)
         + Weight(names, m, Verified(Deduped(OwnedBy(created, owners[|owners| - 1])), logs))
  }

  lemma {:induction false} SharesAreOver(names: Names, m: Measure, owners: seq<Address>, created: seq<Creation>,
                                         logs: seq<Log>)
    requires OneOwner(created)
    ensures Shares(names, m, owners, created, logs)
            == Over(owners, ByOwner(names, m, created, Verified(LastWins(created), logs)))
  {
    hide OneOwner, Deduped, OwnedBy, LastWins, Verified, ByOwner, Weight;
    if owners != [] {
      SharesAreOver(names, m, owners[..|owners| - 1], created, logs);
      OwnersShare(names, m, created, logs, owners[|owners| - 1]);
    }
  }

  lemma {:induction false} WeightsAddUp(names: Names, m: Measure, created: seq<Creation>, logs: seq<Log>)
    ensures All(ByOwner(names, m, created, logs)) == Weight(names, m, logs)
  {
    hide OwnerOf, WeightOf, ByOwner;
    if logs != [] {
      var front, last := logs[..|logs| - 1], logs[|logs| - 1];
      WeightsAddUp(names, m, created, front);
      assert logs == front + [last];
      ByOwnerSnoc(names, m, created, front, last);
      var early, late := ByOwner(names, m, created, front), (OwnerOf(created, last.emitter), WeightOf(names, m, last));
      assert (early + [late])[..|front|] == early;
    } else {
      assert ByOwner(names, m, created, logs) == [];
    }
  }

  lemma SharesAddUp(names: Names, m: Measure, owners: seq<Address>, created: seq<Creation>, logs: seq<Log>)
    requires OneOwner(created) && Distinct(owners) && forall c :: c in created ==> c.owner in owners
    ensures Shares(names, m, owners, created, logs) == Weight(names, m, Verified(LastWins(created), logs))
  {
    hide OneOwner, LastWins, Verified, Belongs, OwnerOf, Weight, WeightOf;
    var kept := Verified(LastWins(created), logs);
    var entries := ByOwner(names, m, created, kept);
    SharesAreOver(names, m, owners, created, logs);
    WeightsAddUp(names, m, created, kept);
    forall e | e in entries ensures e.0 in owners {
      var i :| 0 <= i < |kept| && entries[i] == e;
      VerifiedMembers(LastWins(created), logs, kept[i]);
      LastWinsZaps(created, kept[i].emitter);
      OwnerIsCreator(created, kept[i].emitter);
    }
    PartitionSums(owners, entries);
  }

  lemma {:induction false} NumberIsLength(names: Names, logs: seq<Log>)
    ensures Weight(names, Number, logs) == |logs|
  {
    if logs != [] { NumberIsLength(names, logs[..|logs| - 1]); }
  }

  lemma {:induction false} PaidIsOutput(names: Names, logs: seq<Log>, symbol: string)
    ensures Weight(names, PaidIn(symbol), logs) == At(Outputs(names, logs), symbol)
  {
    if logs != [] {
      var front, outputs := logs[..|logs| - 1], Outputs(names, logs);
      PaidIsOutput(names, front, symbol);
      assert outputs[..|outputs| - 1] == Outputs(names, front);
    }
  }

  lemma OwnerIsCreator(created: seq<Creation>, zap: Address)
    requires Belongs(created, zap)
    ensures exists c :: c in created && c.owner == OwnerOf(created, zap)
  {
  }

  /** The counts a profile and the feed both show. */
  predicate Shared(kind: Kind) {
    kind == Executed || kind == Automated || kind == Recovered
  }

  function ListOf(h: History, kind: Kind): seq<Log>
    requires Shared(kind)
  {
    if kind == Executed then h.executed else if kind == Automated then h.automated else h.exits
  }

  function FeedTotal(s: FeedStats, kind: Kind): nat
    requires Shared(kind)
  {
    if kind == Executed then s.executions else if kind == Automated then s.automatedRuns else s.recoveries
  }

  function SumTotals(profiles: seq<Profile>, kind: Kind): nat
    requires Shared(kind)
  {
    if profiles == [] then 0
    else SumTotals(profiles[..|profiles| - 1], kind) + TotalOf(profiles[|profiles| - 1].stats, kind)
  }

  ghost predicate ProfilesOf(names: Names, h: History, answers: map<Address, ZapRead>, owners: seq<Address>,
                             profiles: seq<Profile>)
  {
    |profiles| == |owners|
    && forall i :: 0 <= i < |owners| ==> ProfileOf(names, owners[i], h, answers) == Some(profiles[i])
  }

  lemma ProfileShare(names: Names, h: History, answers: map<Address, ZapRead>, owner: Address, kind: Kind)
    requires Shared(kind) && ProfileOf(names, owner, h, answers).Some?
    ensures TotalOf(ProfileOf(names, owner, h, answers).value.stats, kind)
            == Weight(names, Number, Verified(Deduped(OwnedBy(h.created, owner)), ListOf(h, kind)))
  {
    hide Deduped, OwnedBy, Verified, ProvenHalts, Rows, Sorted, Summaries, Volume, Outputs, Weight;
    NumberIsLength(names, Verified(Deduped(OwnedBy(h.created, owner)), ListOf(h, kind)));
  }

  lemma {:induction false} TotalsAreShares(names: Names, h: History, answers: map<Address, ZapRead>,
                                           owners: seq<Address>, profiles: seq<Profile>, kind: Kind)
    requires Shared(kind) && ProfilesOf(names, h, answers, owners, profiles)
    ensures SumTotals(profiles, kind) == Shares(names, Number, owners, h.created, ListOf(h, kind))
  {
    hide ProfileOf, Deduped, OwnedBy, Verified, ListOf, TotalOf, Weight;
    if owners != [] {
      TotalsAreShares(names, h, answers, owners[..|owners| - 1], profiles[..|profiles| - 1], kind);
      ProfileShare(names, h, answers, owners[|owners| - 1], kind);
    }
  }

  /** The two readers agree: the profiles of all owners together count exactly the executions, automated
      runs and recoveries the protocol feed counts. */
  lemma ProfilesSumToFeed(names: Names, h: History, answers: map<Address, ZapRead>, owners: seq<Address>,
                          profiles: seq<Profile>, kind: Kind)
    requires kind in {Executed, Automated, Recovered} && ProfilesOf(names, h, answers, owners, profiles)
    requires OneOwner(h.created) && Distinct(owners) && forall c :: c in h.created ==> c.owner in owners
    ensures SumTotals(profiles, kind) == FeedTotal(FeedOf(names, h).stats, kind)
  {
    hide OneOwner, LastWins, Verified, ProvenHalts, ProfilesOf, FeedEntries, Sorted, Volume, Outputs, Fees, Shares,
         Weight;
    TotalsAreShares(names, h, answers, owners, profiles, kind);
    SharesAddUp(names, Number, owners, h.created, ListOf(h, kind));
    NumberIsLength(names, Verified(LastWins(h.created), ListOf(h, kind)));
  }

  function ShownVolume(volume: map<string, nat>, symbol: string): nat {
    if symbol in volume then volume[symbol] else 0
  }

  function SumVolumes(profiles: seq<Profile>, symbol: string): nat {
    if profiles == [] then 0
    else SumVolumes(profiles[..|profiles| - 1], symbol)
         + ShownVolume(profiles[|profiles| - 1].stats.executedVolume, symbol)
  }

  /** The volume of two lists under a symbol is what each of them paid. */
  lemma VolumeIsPaid(names: Names, a: seq<Log>, b: seq<Log>, symbol: string)
    ensures ShownVolume(Volume(Outputs(names, a + b)), symbol)
            == Weight(names, PaidIn(symbol), a) + Weight(names, PaidIn(symbol), b)
  {
    hide Volume, Outputs, Weight, At;
    VolumeAt(Outputs(names, a + b), symbol);
    OutputsConcat(names, a, b, symbol);
    PaidIsOutput(names, a, symbol);
    PaidIsOutput(names, b, symbol);
  }

  lemma {:induction false} VolumesAreShares(names: Names, h: History, answers: map<Address, ZapRead>,
                                            owners: seq<Address>, profiles: seq<Profile>, symbol: string)
    requires ProfilesOf(names, h, answers, owners, profiles)
    ensures SumVolumes(profiles, symbol) == Shares(names, PaidIn(symbol), owners, h.created, h.executed)
                                            + Shares(names, PaidIn(symbol), owners, h.created, h.automated)
  {
    hide Deduped, OwnedBy, Verified, Weight, ShownVolume, Rows, Sorted, Summaries, ProvenHalts, Volume, Outputs;
    if owners != [] {
      VolumesAreShares(names, h, answers, owners[..|owners| - 1], profiles[..|profiles| - 1], symbol);
      var mine := Deduped(OwnedBy(h.created, owners[|owners| - 1]));
      VolumeIsPaid(names, Verified(mine, h.executed), Verified(mine, h.automated), symbol);
    }
  }

  /** Symbol by symbol, the volumes of all owners' profiles add up to the feed's. */
  lemma ProfileVolumesSumToFeed(names: Names, h: History, answers: map<Address, ZapRead>, owners: seq<Address>,
                                profiles: seq<Profile>, symbol: string)
    requires ProfilesOf(names, h, answers, owners, profiles)
    requires OneOwner(h.created) && Distinct(owners) && forall c :: c in h.created ==> c.owner in owners
    ensures SumVolumes(profiles, symbol) == ShownVolume(FeedOf(names, h).stats.executedVolume, symbol)
  {
    hide OneOwner, LastWins, Verified, ProvenHalts, ProfilesOf, FeedEntries, Sorted, Volume, Outputs, Fees, Shares,
         Weight, ShownVolume;
    VolumesAreShares(names, h, answers, owners, profiles, symbol);
    SharesAddUp(names, PaidIn(symbol), owners, h.created, h.executed);
    SharesAddUp(names, PaidIn(symbol), owners, h.created, h.automated);
    var table := LastWins(h.created);
    VolumeIsPaid(names, Verified(table, h.executed), Verified(table, h.automated), symbol);
  }

  /** The log says what the run stated: who submitted it, what came out and how much, fees of zero where none is
      stated, the stack amounts of a stacked run alone, and the series, else the nonce, it ran under. */
  ghost predicate Tells(raw: RawRun, kind: RunKind, log: Log) {
    && raw.executor == Some(log.actor) && raw.outAsset == Some(log.asset) && raw.amountOut == Some(log.amount)
    && (if raw.executorFee.Some? then raw.executorFee == Some(log.executorFee) else log.executorFee == 0)
    && (if raw.potFee.Some? then raw.potFee == Some(log.potFee) else log.potFee == 0)
    && (kind == RecurringStack ==> raw.stackIn.Some? && log.stackIn == raw.stackIn
                                   && raw.zapsOut.Some? && log.zapsOut == raw.zapsOut)
    && (kind != RecurringStack ==> log.stackIn == None && log.zapsOut == None)
    && (if raw.seriesId.Some? then raw.seriesId == Some(log.authorization)
        else if raw.nonce.Some? then raw.nonce == Some(log.authorization) else log.authorization == 0)
    && log.run == raw.run && log.runKind == kind && log.policyHash == 0
    && log.emitter == raw.emitter && log.tx == raw.tx && log.block == raw.block && log.index == raw.index
  }

  lemma DecodedTells(raw: RawRun, kind: RunKind, log: Log)
    ensures Complete(raw, kind) && Decoded(raw, kind) == log <==> Tells(raw, kind, log)
  {
  }

  /** Some log says what the run stated. */
  ghost predicate Readable(raw: RawRun, kind: RunKind) {
    exists log :: Tells(raw, kind, log)
  }

  lemma ReadableIsComplete(raw: RawRun, kind: RunKind)
    ensures Readable(raw, kind) <==> Complete(raw, kind)
  {
    if Complete(raw, kind) { DecodedTells(raw, kind, Decoded(raw, kind)); }
  }

  /** Decoding keeps exactly the runs that state a submitter, an output and its amount, and for a stacked one
      both stack amounts, each with what it stated. */
  lemma {:induction false} DecodedAreComplete(raws: seq<RawRun>, kind: RunKind, log: Log)
    ensures log in DecodeRuns(raws, kind) <==> exists raw :: raw in raws && Tells(raw, kind, log)
    ensures |DecodeRuns(raws, kind)| <= |raws|
    ensures |DecodeRuns(raws, kind)| == |raws| <==>
            forall raw :: raw in raws ==> Readable(raw, kind)
  {
    hide Tells, Decoded, Complete, Readable;
    if raws != [] {
      var front, last := raws[..|raws| - 1], raws[|raws| - 1];
      DecodedAreComplete(front, kind, log);
      DecodedTells(last, kind, log);
      ReadableIsComplete(last, kind);
      assert raws == front + [last];
    }
  }
}
