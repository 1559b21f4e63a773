/** The numbers a wallet profile and the protocol feed show, as sums over the logs that their capsules emitted:
    how many, how much was paid, and how much was charged, written on the logs' own fields. */
module Tallies {
  import opened Prelude
  import opened Routes
  import opened Ledger
  import opened WalletProfile
  import opened ProfileTotals
  import opened ActivityFeed

  lemma {:induction false} ChargedIsFees(names: Names, logs: seq<Log>, symbol: string)
    ensures Weight(names, ChargedIn(symbol), logs) == At(Fees(names, logs), symbol)
  {
    if logs != [] {
      var front, fees := logs[..|logs| - 1], Fees(names, logs);
      ChargedIsFees(names, front, symbol);
      assert fees[..|fees| - 1] == Fees(names, front);
    }
  }

  lemma {:induction false} AllPaid(names: Names, logs: seq<Log>)
    ensures All(Outputs(names, logs)) == Weight(names, Paid, logs)
  {
    if logs != [] {
      var front, outputs := logs[..|logs| - 1], Outputs(names, logs);
      AllPaid(names, front);
      assert outputs[..|outputs| - 1] == Outputs(names, front);
    }
  }

  lemma {:induction false} AllCharged(names: Names, logs: seq<Log>)
    ensures All(Fees(names, logs)) == Weight(names, ExecutorFees, logs) + Weight(names, PotFees, logs)
  {
    if logs != [] {
      var front, last, fees := logs[..|logs| - 1], logs[|logs| - 1], Fees(names, logs);
      AllCharged(names, front);
      assert fees[..|fees| - 1] == Fees(names, front);
      assert fees[|fees| - 1] == (names.symbolFor(last.asset), FeeOf(last));
    }
  }

  lemma {:induction false} WeightConcat(names: Names, m: Measure, a: seq<Log>, b: seq<Log>)
    ensures Weight(names, m, a + b) == Weight(names, m, a) + Weight(names, m, b)
  {
    hide WeightOf;
    if b == [] {
      assert a + b == a;
    } else {
      WeightConcat(names, m, a, b[..|b| - 1]);
      assert a + b == (a + b[..|b| - 1]) + [b[|b| - 1]];
      WeightSnoc(names, m, a + b[..|b| - 1], b[|b| - 1]);
    }
  }

  /** The count, volume and fees the feed shows, symbol by symbol. */
  lemma FeedShows(names: Names, h: History, symbol: string)
    ensures var stats, zaps := FeedOf(names, h).stats, ZapsOf(h.created);
            && stats.zapsCreated == |h.created|
            && stats.executions == Tally(names, Number, h.executed, zaps)
            && stats.automatedRuns == Tally(names, Number, h.automated, zaps)
            && stats.recoveries == Tally(names, Number, h.exits, zaps)
            && ShownVolume(stats.executedVolume, symbol)
               == Tally(names, PaidIn(symbol), h.executed, zaps) + Tally(names, PaidIn(symbol), h.automated, zaps)
            && ShownVolume(stats.automatedFees, symbol) == Tally(names, ChargedIn(symbol), h.automated, zaps)
  {
    hide Verified, ProvenHalts, FeedEntries, Sorted, Volume, Outputs, Fees, Weight, Tally, LastWins, ZapsOf, At;
    var table := LastWins(h.created);
    LastWinsMembers(h.created);
    var executed, automated := Verified(table, h.executed), Verified(table, h.automated);
    NumberIsLength(names, executed);
    NumberIsLength(names, automated);
    NumberIsLength(names, Verified(table, h.exits));
    VerifiedTally(names, Number, table, h.executed);
    VerifiedTally(names, Number, table, h.automated);
    VerifiedTally(names, Number, table, h.exits);
    VolumeIsPaid(names, executed, automated, symbol);
    VerifiedTally(names, PaidIn(symbol), table, h.executed);
    VerifiedTally(names, PaidIn(symbol), table, h.automated);
    VolumeAt(Fees(names, automated), symbol);
    ChargedIsFees(names, automated, symbol);
    VerifiedTally(names, ChargedIn(symbol), table, h.automated);
  }

  /** However the symbols are listed, the feed's volumes add up to everything its capsules paid, and its fees
      to all executor fees plus all pot fees. */
  lemma FeedAddsUp(names: Names, h: History, sold: seq<string>, charged: seq<string>)
    requires Distinct(sold) && forall s :: s in sold <==> s in FeedOf(names, h).stats.executedVolume
    requires Distinct(charged) && forall s :: s in charged <==> s in FeedOf(names, h).stats.automatedFees
    ensures var stats, zaps := FeedOf(names, h).stats, ZapsOf(h.created);
            && SumValues(sold, stats.executedVolume)
               == Tally(names, Paid, h.executed, zaps) + Tally(names, Paid, h.automated, zaps)
            && SumValues(charged, stats.automatedFees)
               == Tally(names, ExecutorFees, h.automated, zaps) + Tally(names, PotFees, h.automated, zaps)
  {
    hide Verified, ProvenHalts, FeedEntries, Sorted, Volume, Outputs, Fees, Weight, Tally, LastWins, ZapsOf;
    var table := LastWins(h.created);
    LastWinsMembers(h.created);
    FeedConserves(names, h, sold, charged);
    var executed, automated := Verified(table, h.executed), Verified(table, h.automated);
    AllPaid(names, executed + automated);
    AllCharged(names, automated);
    WeightConcat(names, Paid, executed, automated);
    VerifiedTally(names, Paid, table, h.executed);
    VerifiedTally(names, Paid, table, h.automated);
    VerifiedTally(names, ExecutorFees, table, h.automated);
    VerifiedTally(names, PotFees, table, h.automated);
  }

  /** The counts and volume a wallet's profile shows, over the capsules created for its owner. */
  lemma ProfileShows(names: Names, owner: Address, h: History, answers: map<Address, ZapRead>, symbol: string)
    requires ProfileOf(names, owner, h, answers).Some?
    ensures var stats := ProfileOf(names, owner, h, answers).value.stats;
            var zaps := set c | c in h.created && c.owner == owner :: c.zap;
            && stats.zapsCreated == |zaps|
            && stats.oneShotExecutions == Tally(names, Number, h.executed, zaps)
            && stats.automatedRuns == Tally(names, Number, h.automated, zaps)
            && stats.recoveries == Tally(names, Number, h.exits, zaps)
            && stats.authorizationsRevoked == Tally(names, Number, h.invalidated, zaps)
            && ShownVolume(stats.executedVolume, symbol)
               == Tally(names, PaidIn(symbol), h.executed, zaps) + Tally(names, PaidIn(symbol), h.automated, zaps)
  {
    hide Verified, ProvenHalts, Rows, Sorted, Summaries, Volume, Outputs, Weight, Tally, Deduped, OwnedBy, ZapsOf,
         OnePerZap;
    var created := Deduped(OwnedBy(h.created, owner));
    var zaps := set c | c in h.created && c.owner == owner :: c.zap;
    OwnersZaps(h.created, owner);
    assert ZapsOf(created) == zaps;
    var executed, automated := Verified(created, h.executed), Verified(created, h.automated);
    NumberIsLength(names, executed);
    NumberIsLength(names, automated);
    NumberIsLength(names, Verified(created, h.exits));
    NumberIsLength(names, Verified(created, h.invalidated));
    VerifiedTally(names, Number, created, h.executed);
    VerifiedTally(names, Number, created, h.automated);
    VerifiedTally(names, Number, created, h.exits);
    VerifiedTally(names, Number, created, h.invalidated);
    VolumeIsPaid(names, executed, automated, symbol);
    VerifiedTally(names, PaidIn(symbol), created, h.executed);
    VerifiedTally(names, PaidIn(symbol), created, h.automated);
  }

  /** The gate's capsules are exactly those created for the owner, one entry each. */
  lemma OwnersZaps(created: seq<Creation>, owner: Address)
    ensures var table := Deduped(OwnedBy(created, owner));
            && ZapsOf(table) == (set c | c in created && c.owner == owner :: c.zap)
            && |table| == |ZapsOf(table)|
  {
    hide Deduped, OwnedBy;
    var mine := OwnedBy(created, owner);
    DedupedZaps(mine);
    DedupedSpec(mine);
    forall c ensures c in mine <==> c in created && c.owner == owner { OwnedMembers(created, owner, c); }
    OnePerZapCounts(Deduped(mine));
  }

  lemma ZapsSnoc(front: seq<Creation>, last: Creation)
    ensures ZapsOf(front + [last]) == ZapsOf(front) + {last.zap}
  {
    var all := front + [last];
    assert forall c :: c in all <==> c in front || c == last;
  }

  lemma {:induction false} OnePerZapCounts(table: seq<Creation>)
    requires OnePerZap(table)
    ensures |ZapsOf(table)| == |table|
  {
    hide ZapsOf;
    if table == [] {
      NoZaps();
    } else {
      var front, last := table[..|table| - 1], table[|table| - 1];
      OnePerZapCounts(front);
      assert table == front + [last];
      ZapsSnoc(front, last);
      BelongsIsMembership(front, last.zap);
    }
  }

  lemma NoZaps()
    ensures ZapsOf([]) == {}
  {
  }
}
