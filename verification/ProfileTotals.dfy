/** What a wallet profile guarantees: strangers' logs never reach it, its counts and volumes add up, and its
    activity is every verified event, newest first. */
module ProfileTotals {
  import opened Prelude
  import opened Routes
  import opened Ledger
  import opened WalletProfile

  // ---- noninterference -----------------------------------------------------

  /** `b` is `a` with any number of creations for other owners mixed in. */
  ghost predicate Crowded(a: seq<Creation>, b: seq<Creation>, owner: Address) {
    if b == [] then a == []
    else
      var last := b[|b| - 1];
      || (last.owner != owner && Crowded(a, b[..|b| - 1], owner))
      || (a != [] && a[|a| - 1] == last && Crowded(a[..|a| - 1], b[..|b| - 1], owner))
  }

  lemma {:induction false} CrowdVanishes(a: seq<Creation>, b: seq<Creation>, owner: Address)
    requires Crowded(a, b, owner)
    ensures OwnedBy(a, owner) == OwnedBy(b, owner)
  {
    if b != [] {
      if b[|b| - 1].owner != owner && Crowded(a, b[..|b| - 1], owner) {
        CrowdVanishes(a, b[..|b| - 1], owner);
      } else {
        CrowdVanishes(a[..|a| - 1], b[..|b| - 1], owner);
      }
    }
  }

  lemma {:induction false} FalseHaltsVanish(names: Names, created: seq<Creation>, a: seq<Log>, b: seq<Log>)
    requires Spoofed(a, b, ZapsOf(created))
    ensures ProvenHalts(names, created, a) == ProvenHalts(names, created, b)
  {
    hide HaltProven, ZapsOf;
    if b != [] {
      var last := b[|b| - 1];
      BelongsIsMembership(created, last.emitter);
      if last.emitter !in ZapsOf(created) && Spoofed(a, b[..|b| - 1], ZapsOf(created)) {
        StrangersHaltNothing(names, created, last);
        FalseHaltsVanish(names, created, a, b[..|b| - 1]);
      } else {
        FalseHaltsVanish(names, created, a[..|a| - 1], b[..|b| - 1]);
      }
    }
  }

  lemma StrangersHaltNothing(names: Names, created: seq<Creation>, log: Log)
    ensures HaltProven(names, created, log) ==> Belongs(created, log.emitter)
  {
  }

  /** The capsules the factory created for this owner. */
  ghost function Canonical(owner: Address, h: History): set<Address> {
    ZapsOf(OwnedBy(h.created, owner))
  }

  lemma DedupedZaps(created: seq<Creation>)
    ensures ZapsOf(Deduped(created)) == ZapsOf(created)
  {
    hide Deduped;
    DedupedSpec(created);
    var table := Deduped(created);
    forall c | c in created ensures c.zap in ZapsOf(table) {
      assert Covers(table, c);
      var i :| 0 <= i < |table| && table[i].zap == c.zap && table[i].block <= c.block;
      assert table[i] in table;
    }
  }

  /** `b` is `a` plus other owners' creations and any logs of any kind from any other emitter. */
  ghost predicate Noisier(a: History, b: History, owner: Address) {
    var zaps := Canonical(owner, a);
    && Crowded(a.created, b.created, owner)
    && Spoofed(a.executed, b.executed, zaps) && Spoofed(a.automated, b.automated, zaps)
    && Spoofed(a.exits, b.exits, zaps) && Spoofed(a.invalidated, b.invalidated, zaps)
    && Spoofed(a.finished, b.finished, zaps) && Spoofed(a.halted, b.halted, zaps)
  }

  /** No log from an address the factory did not create for this owner changes anything in the payload. */
  lemma StrangersChangeNothing(names: Names, owner: Address, a: History, b: History, answers: map<Address, ZapRead>)
    requires Noisier(a, b, owner)
    ensures ProfileOf(names, owner, a, answers) == ProfileOf(names, owner, b, answers)
  {
    hide Spoofed, Crowded, ProfileFrom, Deduped, Verified, ProvenHalts, ZapsOf;
    CrowdVanishes(a.created, b.created, owner);
    var created := Deduped(OwnedBy(a.created, owner));
    DedupedZaps(OwnedBy(a.created, owner));
    SpoofsVanish(created, a.executed, b.executed);
    SpoofsVanish(created, a.automated, b.automated);
    SpoofsVanish(created, a.exits, b.exits);
    SpoofsVanish(created, a.invalidated, b.invalidated);
    SpoofsVanish(created, a.finished, b.finished);
    FalseHaltsVanish(names, created, a.halted, b.halted);
  }

  // ---- counts --------------------------------------------------------------

  /** One entry per row of the kind, under its capsule. */
  function Tags(rows: seq<Row>, kind: Kind): seq<(Address, nat)> {
    if rows == [] then []
    else
      var front := Tags(rows[..|rows| - 1], kind);
      if rows[|rows| - 1].kind == kind then front + [(rows[|rows| - 1].zap, 1)] else front
  }

  lemma {:induction false} KindLength(rows: seq<Row>, kind: Kind)
    ensures |OfKind(rows, kind)| == All(Tags(rows, kind))
  {
    if rows != [] { KindLength(rows[..|rows| - 1], kind); }
  }

  lemma TagsSnoc(front: seq<Row>, last: Row, kind: Kind)
    ensures Tags(front + [last], kind) == Tags(front, kind) + if last.kind == kind then [(last.zap, 1)] else []
    ensures OfKind(front + [last], kind) == OfKind(front, kind) + if last.kind == kind then [last] else []
  {
  }

  lemma AtSnoc(front: seq<(Address, nat)>, last: (Address, nat), zap: Address)
    ensures At(front + [last], zap) == At(front, zap) + if last.0 == zap then last.1 else 0
  {
  }

  /** Counting a capsule's rows of a kind reads the same total. */
  lemma {:induction false} ZapCount(rows: seq<Row>, zap: Address, kind: Kind)
    ensures |OfKind(OfZap(rows, zap), kind)| == At(Tags(rows, kind), zap)
  {
    if rows != [] {
      var front, last := rows[..|rows| - 1], rows[|rows| - 1];
      ZapCount(front, zap, kind);
      if last.zap == zap { TagsSnoc(OfZap(front, zap), last, kind); }
      AtSnoc(Tags(front, kind), (last.zap, 1), zap);
    }
  }

  lemma {:induction false} InsertCounts(rows: seq<Row>, row: Row, kind: Kind)
    ensures |OfKind(Insert(rows, row, RowPlace), kind)| == |OfKind(rows, kind)| + if row.kind == kind then 1 else 0
  {
    if rows == [] || !Later(RowPlace(row), RowPlace(rows[|rows| - 1])) {
      TagsSnoc(rows, row, kind);
    } else {
      var front, last := rows[..|rows| - 1], rows[|rows| - 1];
      InsertCounts(front, row, kind);
      TagsSnoc(Insert(front, row, RowPlace), last, kind);
    }
  }

  lemma {:induction false} SortedCounts(rows: seq<Row>, kind: Kind)
    ensures |OfKind(Sorted(rows, RowPlace), kind)| == |OfKind(rows, kind)|
  {
    hide Insert;
    if rows != [] {
      SortedCounts(rows[..|rows| - 1], kind);
      InsertCounts(Sorted(rows[..|rows| - 1], RowPlace), rows[|rows| - 1], kind);
    }
  }

  lemma {:induction false} KindsConcat(a: seq<Row>, b: seq<Row>, kind: Kind)
    ensures OfKind(a + b, kind) == OfKind(a, kind) + OfKind(b, kind)
  {
    hide OfKind, Tags;
    if b == [] {
      assert a + b == a;
      NoRows(kind);
    } else {
      var front, last := b[..|b| - 1], b[|b| - 1];
      KindsConcat(a, front, kind);
      assert a + b == (a + front) + [last] && b == front + [last];
      TagsSnoc(a + front, last, kind);
      TagsSnoc(front, last, kind);
    }
  }

  lemma NoRows(kind: Kind)
    ensures OfKind([], kind) == []
  {
  }

  lemma {:induction false} AllOneKind(rows: seq<Row>, made: Kind, kind: Kind)
    requires forall i :: 0 <= i < |rows| ==> rows[i].kind == made
    ensures |OfKind(rows, kind)| == if made == kind then |rows| else 0
  {
    if rows != [] { AllOneKind(rows[..|rows| - 1], made, kind); }
  }

  function ListLength(g: History, kind: Kind): nat {
    match kind
    case Created => |g.created|
    case Executed => |g.executed|
    case Automated => |g.automated|
    case Recovered => |g.exits|
    case Halted => |g.halted|
    case Revoked => |g.invalidated|
    case SeriesFinished => |g.finished|
  }

  /** Each list contributes exactly its own kind of row. */
  lemma RowsPerKind(names: Names, owner: Address, g: History, kind: Kind)
    ensures |OfKind(Rows(names, owner, g), kind)| == ListLength(g, kind)
  {
    hide OfKind;
    var a, b := CreationRows(names, owner, g.created), LogRows(names, g.created, owner, Executed, g.executed);
    var c := LogRows(names, g.created, owner, Automated, g.automated);
    var d := LogRows(names, g.created, owner, Recovered, g.exits);
    var e := LogRows(names, g.created, owner, Halted, g.halted);
    var f := LogRows(names, g.created, owner, Revoked, g.invalidated);
    var z := LogRows(names, g.created, owner, SeriesFinished, g.finished);
    KindsConcat(a, b, kind);
    KindsConcat(a + b, c, kind);
    KindsConcat(a + b + c, d, kind);
    KindsConcat(a + b + c + d, e, kind);
    KindsConcat(a + b + c + d + e, f, kind);
    KindsConcat(a + b + c + d + e + f, z, kind);
    AllOneKind(a, Created, kind);
    AllOneKind(b, Executed, kind);
    AllOneKind(c, Automated, kind);
    AllOneKind(d, Recovered, kind);
    AllOneKind(e, Halted, kind);
    AllOneKind(f, Revoked, kind);
    AllOneKind(z, SeriesFinished, kind);
  }

  // ---- every row stands under a created capsule ----------------------------

  lemma {:induction false} ProvenMembers(names: Names, created: seq<Creation>, logs: seq<Log>, log: Log)
    ensures log in ProvenHalts(names, created, logs) <==> log in logs && HaltProven(names, created, log)
  {
    hide HaltProven;
    if logs != [] {
      ProvenMembers(names, created, logs[..|logs| - 1], log);
      assert logs == logs[..|logs| - 1] + [logs[|logs| - 1]];
    }
    if HaltProven(names, created, log) { StrangersHaltNothing(names, created, log); }
  }

  ghost predicate AllBelong(created: seq<Creation>, logs: seq<Log>) {
    forall log :: log in logs ==> Belongs(created, log.emitter)
  }

  /** A gated history: one entry per capsule, and only its capsules' logs. */
  ghost predicate Gated(g: History) {
    && OnePerZap(g.created) && AllBelong(g.created, g.executed) && AllBelong(g.created, g.automated)
    && AllBelong(g.created, g.exits) && AllBelong(g.created, g.halted) && AllBelong(g.created, g.invalidated)
    && AllBelong(g.created, g.finished)
  }

  lemma GateIsGated(names: Names, owner: Address, h: History)
    ensures Gated(Gate(names, owner, h))
  {
    hide Belongs, Verified, ProvenHalts, Deduped, AllBelong;
    var created := Deduped(OwnedBy(h.created, owner));
    DedupedSpec(OwnedBy(h.created, owner));
    VerifiedBelong(created, h.executed);
    VerifiedBelong(created, h.automated);
    VerifiedBelong(created, h.exits);
    VerifiedBelong(created, h.invalidated);
    VerifiedBelong(created, h.finished);
    ProvenBelong(names, created, h.halted);
  }

  lemma VerifiedBelong(created: seq<Creation>, logs: seq<Log>)
    ensures AllBelong(created, Verified(created, logs))
  {
    hide Belongs, Verified;
    forall log | log in Verified(created, logs) ensures Belongs(created, log.emitter) {
      VerifiedMembers(created, logs, log);
    }
  }

  lemma ProvenBelong(names: Names, created: seq<Creation>, logs: seq<Log>)
    ensures AllBelong(created, ProvenHalts(names, created, logs))
  {
    hide Belongs, ProvenHalts, HaltProven;
    forall log | log in ProvenHalts(names, created, logs) ensures Belongs(created, log.emitter) {
      ProvenMembers(names, created, logs, log);
      StrangersHaltNothing(names, created, log);
    }
  }

  lemma RowsBelong(names: Names, owner: Address, g: History, row: Row)
    requires Gated(g) && row in Rows(names, owner, g)
    ensures Belongs(g.created, row.zap)
  {
  }

  // ---- conservation --------------------------------------------------------

  /** The four counts the payload shows both per capsule and per wallet. */
  predicate Counted(kind: Kind) {
    kind == Executed || kind == Automated || kind == Recovered || kind == Revoked
  }

  function CountOf(s: Summary, kind: Kind): nat
    requires Counted(kind)
  {
    if kind == Executed then s.executions
    else if kind == Automated then s.automatedRuns
    else if kind == Recovered then s.recoveries else s.revocations
  }

  function TotalOf(s: Stats, kind: Kind): nat
    requires Counted(kind)
  {
    if kind == Executed then s.oneShotExecutions
    else if kind == Automated then s.automatedRuns
    else if kind == Recovered then s.recoveries else s.authorizationsRevoked
  }

  function SumCounts(zaps: seq<Summary>, kind: Kind): nat
    requires Counted(kind)
  {
    if zaps == [] then 0 else SumCounts(zaps[..|zaps| - 1], kind) + CountOf(zaps[|zaps| - 1], kind)
  }

  function Zaps(created: seq<Creation>): (zaps: seq<Address>)
    ensures |zaps| == |created|
    ensures forall i :: 0 <= i < |zaps| ==> zaps[i] == created[i].zap
  {
    seq(|created|, i requires 0 <= i < |created| => created[i].zap)
  }

  lemma SumSnoc(front: seq<Summary>, last: Summary, kind: Kind)
    requires Counted(kind)
    ensures SumCounts(front + [last], kind) == SumCounts(front, kind) + CountOf(last, kind)
  {
    assert (front + [last])[..|front|] == front;
  }

  lemma {:induction false} InsertSums(zaps: seq<Summary>, z: Summary, kind: Kind)
    requires Counted(kind)
    ensures SumCounts(Insert(zaps, z, CapsulePlace), kind) == SumCounts(zaps, kind) + CountOf(z, kind)
  {
    hide CountOf;
    if zaps == [] || !Later(CapsulePlace(z), CapsulePlace(zaps[|zaps| - 1])) {
      SumSnoc(zaps, z, kind);
    } else {
      InsertSums(zaps[..|zaps| - 1], z, kind);
      SumSnoc(Insert(zaps[..|zaps| - 1], z, CapsulePlace), zaps[|zaps| - 1], kind);
    }
  }

  /** The order capsules are listed in does not change their totals. */
  lemma {:induction false} SortedSums(zaps: seq<Summary>, kind: Kind)
    requires Counted(kind)
    ensures SumCounts(Sorted(zaps, CapsulePlace), kind) == SumCounts(zaps, kind)
  {
    hide Insert, CountOf;
    if zaps != [] {
      SortedSums(zaps[..|zaps| - 1], kind);
      InsertSums(Sorted(zaps[..|zaps| - 1], CapsulePlace), zaps[|zaps| - 1], kind);
    }
  }

  ghost predicate CountsFrom(zaps: seq<Summary>, keys: seq<Address>, tags: seq<(Address, nat)>, kind: Kind)
    requires Counted(kind)
  {
    |zaps| == |keys| && forall i :: 0 <= i < |zaps| ==> CountOf(zaps[i], kind) == At(tags, keys[i])
  }

  lemma {:induction false} SumCountsIsOver(zaps: seq<Summary>, keys: seq<Address>, tags: seq<(Address, nat)>,
                                           kind: Kind)
    requires Counted(kind) && CountsFrom(zaps, keys, tags, kind)
    ensures SumCounts(zaps, kind) == Over(keys, tags)
  {
    if zaps != [] { SumCountsIsOver(zaps[..|zaps| - 1], keys[..|keys| - 1], tags, kind); }
  }

  lemma {:induction false} TagKeys(rows: seq<Row>, kind: Kind, keys: seq<Address>)
    requires forall i :: 0 <= i < |rows| ==> rows[i].zap in keys
    ensures forall e :: e in Tags(rows, kind) ==> e.0 in keys
  {
    if rows != [] { TagKeys(rows[..|rows| - 1], kind, keys); }
  }

  lemma SummaryCounts(names: Names, created: seq<Creation>, c: Creation, activity: seq<Row>, answer: ZapRead,
                      kind: Kind)
    requires Counted(kind) && SummaryOf(names, created, c, activity, answer).Some?
    ensures CountOf(SummaryOf(names, created, c, activity, answer).value, kind)
            == |OfKind(OfZap(activity, c.zap), kind)|
  {
  }

  lemma ActivityBelongs(names: Names, owner: Address, g: History, i: nat)
    requires Gated(g) && i < |Sorted(Rows(names, owner, g), RowPlace)|
    ensures Sorted(Rows(names, owner, g), RowPlace)[i].zap in Zaps(g.created)
  {
    hide Rows, Gated, Sorted;
    var rows := Rows(names, owner, g);
    var row := Sorted(rows, RowPlace)[i];
    SortedSpec(rows, RowPlace);
    assert row in multiset(Sorted(rows, RowPlace));
    RowsBelong(names, owner, g, row);
    assert Zaps(g.created)[Position(g.created, row.zap)] == row.zap;
  }

  /** Per-capsule counts add up to the wallet's totals: no run, recovery or revocation is lost, and none is
      shown under two capsules. */
  lemma CountsAddUp(names: Names, owner: Address, h: History, answers: map<Address, ZapRead>, kind: Kind)
    requires kind in {Executed, Automated, Recovered, Revoked} && ProfileOf(names, owner, h, answers).Some?
    ensures var p := ProfileOf(names, owner, h, answers).value;
            SumCounts(p.zaps, kind) == TotalOf(p.stats, kind)
  {
    hide Gate, Rows, Sorted, SummaryOf, OfKind, OfZap, Tags, Gated, Volume, Outputs;
    var g := Gate(names, owner, h);
    GateIsGated(names, owner, h);
    var rows := Rows(names, owner, g);
    var activity := Sorted(rows, RowPlace);
    var zaps := Summaries(names, g.created, g.created, activity, answers).value;
    var keys, tags := Zaps(g.created), Tags(activity, kind);
    forall i | 0 <= i < |zaps| ensures CountOf(zaps[i], kind) == At(tags, keys[i]) {
      SummaryCounts(names, g.created, g.created[i], activity, ReadOf(answers, g.created[i].zap), kind);
      ZapCount(activity, keys[i], kind);
    }
    SumCountsIsOver(zaps, keys, tags, kind);
    SortedSums(zaps, kind);
    forall i | 0 <= i < |activity| ensures activity[i].zap in keys { ActivityBelongs(names, owner, g, i); }
    TagKeys(activity, kind, keys);
    KeysDistinct(g);
    PartitionSums(keys, tags);
    KindLength(activity, kind);
    SortedCounts(rows, kind);
    RowsPerKind(names, owner, g, kind);
  }

  lemma KeysDistinct(g: History)
    requires Gated(g)
    ensures Distinct(Zaps(g.created))
  {
  }

  /** The volumes shown, however listed, add up to every verified one-shot and automated output. */
  lemma VolumesAddUp(names: Names, owner: Address, h: History, answers: map<Address, ZapRead>, symbols: seq<string>)
    requires ProfileOf(names, owner, h, answers).Some?
    requires Distinct(symbols)
    requires forall s :: s in symbols <==> s in ProfileOf(names, owner, h, answers).value.stats.executedVolume
    ensures var g := Gate(names, owner, h);
            SumValues(symbols, ProfileOf(names, owner, h, answers).value.stats.executedVolume)
            == All(Outputs(names, g.executed + g.automated))
  {
    hide Gate, Rows, Sorted, Summaries, Volume, Outputs;
    var g := Gate(names, owner, h);
    VolumesConserve(symbols, Outputs(names, g.executed + g.automated));
  }

  function PaidOut(row: Row, symbol: string): nat {
    if (row.kind == Executed || row.kind == Automated) && row.symbol == Some(symbol) then row.amount.GetOr(0) else 0
  }

  /** What the execution rows show under a symbol. */
  function ShownUnder(rows: seq<Row>, symbol: string): nat {
    if rows == [] then 0 else ShownUnder(rows[..|rows| - 1], symbol) + PaidOut(rows[|rows| - 1], symbol)
  }

  lemma ShownSnoc(front: seq<Row>, last: Row, symbol: string)
    ensures ShownUnder(front + [last], symbol) == ShownUnder(front, symbol) + PaidOut(last, symbol)
  {
  }

  lemma {:induction false} InsertShows(rows: seq<Row>, row: Row, symbol: string)
    ensures ShownUnder(Insert(rows, row, RowPlace), symbol) == ShownUnder(rows, symbol) + PaidOut(row, symbol)
  {
    hide PaidOut;
    if rows == [] || !Later(RowPlace(row), RowPlace(rows[|rows| - 1])) {
      ShownSnoc(rows, row, symbol);
    } else {
      InsertShows(rows[..|rows| - 1], row, symbol);
      ShownSnoc(Insert(rows[..|rows| - 1], row, RowPlace), rows[|rows| - 1], symbol);
    }
  }

  lemma {:induction false} SortedShows(rows: seq<Row>, symbol: string)
    ensures ShownUnder(Sorted(rows, RowPlace), symbol) == ShownUnder(rows, symbol)
  {
    hide Insert, PaidOut;
    if rows != [] {
      SortedShows(rows[..|rows| - 1], symbol);
      InsertShows(Sorted(rows[..|rows| - 1], RowPlace), rows[|rows| - 1], symbol);
    }
  }

  lemma {:induction false} ConcatShows(a: seq<Row>, b: seq<Row>, symbol: string)
    ensures ShownUnder(a + b, symbol) == ShownUnder(a, symbol) + ShownUnder(b, symbol)
  {
    hide PaidOut;
    if b == [] {
      assert a + b == a;
    } else {
      ConcatShows(a, b[..|b| - 1], symbol);
      assert a + b == (a + b[..|b| - 1]) + [b[|b| - 1]];
      ShownSnoc(a + b[..|b| - 1], b[|b| - 1], symbol);
    }
  }

  lemma {:induction false} OthersShowNothing(rows: seq<Row>, symbol: string)
    requires forall i :: 0 <= i < |rows| ==> rows[i].kind != Executed && rows[i].kind != Automated
    ensures ShownUnder(rows, symbol) == 0
  {
    if rows != [] { OthersShowNothing(rows[..|rows| - 1], symbol); }
  }

  lemma RunRowPays(names: Names, created: seq<Creation>, owner: Address, kind: Kind, log: Log, symbol: string)
    requires kind == Executed || kind == Automated
    ensures PaidOut(LogRow(names, created, owner, kind, log), symbol)
            == if names.symbolFor(log.asset) == symbol then log.amount else 0
  {
    hide LineageOf, DetailOf, TimeOf;
  }

  lemma OutputsSnoc(names: Names, front: seq<Log>, last: Log, symbol: string)
    ensures At(Outputs(names, front + [last]), symbol)
            == At(Outputs(names, front), symbol) + if names.symbolFor(last.asset) == symbol then last.amount else 0
  {
    var all := Outputs(names, front + [last]);
    assert all[..|front|] == Outputs(names, front);
  }

  lemma {:induction false} RunRowsShow(names: Names, created: seq<Creation>, owner: Address, kind: Kind, logs: seq<Log>,
                                       symbol: string)
    requires kind == Executed || kind == Automated
    ensures ShownUnder(LogRows(names, created, owner, kind, logs), symbol) == At(Outputs(names, logs), symbol)
  {
    hide PaidOut, LogRow, At, Outputs;
    if logs == [] {
      assert At(Outputs(names, logs), symbol) == 0 by { NoOutput(names, symbol); }
    } else {
      var front, last := logs[..|logs| - 1], logs[|logs| - 1];
      RunRowsShow(names, created, owner, kind, front, symbol);
      var rows := LogRows(names, created, owner, kind, logs);
      assert rows[..|rows| - 1] == LogRows(names, created, owner, kind, front);
      assert logs == front + [last];
      RunRowPays(names, created, owner, kind, last, symbol);
      OutputsSnoc(names, front, last, symbol);
    }
  }

  lemma NoOutput(names: Names, symbol: string)
    ensures At(Outputs(names, []), symbol) == 0
  {
  }

  lemma {:induction false} OutputsConcat(names: Names, a: seq<Log>, b: seq<Log>, symbol: string)
    ensures At(Outputs(names, a + b), symbol) == At(Outputs(names, a), symbol) + At(Outputs(names, b), symbol)
  {
    if b == [] {
      assert a + b == a;
    } else {
      var front := b[..|b| - 1];
      OutputsConcat(names, a, front, symbol);
      var all, late := Outputs(names, a + b), Outputs(names, b);
      assert (a + b)[..|a + b| - 1] == a + front;
      assert all[..|all| - 1] == Outputs(names, a + front) && late[..|late| - 1] == Outputs(names, front);
    }
  }

  lemma RowsShow(names: Names, owner: Address, g: History, symbol: string)
    ensures ShownUnder(Rows(names, owner, g), symbol) == At(Outputs(names, g.executed + g.automated), symbol)
  {
    hide ShownUnder, Outputs, At;
    var a, b := CreationRows(names, owner, g.created), LogRows(names, g.created, owner, Executed, g.executed);
    var c := LogRows(names, g.created, owner, Automated, g.automated);
    var d := LogRows(names, g.created, owner, Recovered, g.exits);
    var e := LogRows(names, g.created, owner, Halted, g.halted);
    var f := LogRows(names, g.created, owner, Revoked, g.invalidated);
    var z := LogRows(names, g.created, owner, SeriesFinished, g.finished);
    ConcatShows(a, b, symbol);
    ConcatShows(a + b, c, symbol);
    ConcatShows(a + b + c, d, symbol);
    ConcatShows(a + b + c + d, e, symbol);
    ConcatShows(a + b + c + d + e, f, symbol);
    ConcatShows(a + b + c + d + e + f, z, symbol);
    OthersShowNothing(a, symbol);
    OthersShowNothing(d, symbol);
    OthersShowNothing(e, symbol);
    OthersShowNothing(f, symbol);
    OthersShowNothing(z, symbol);
    RunRowsShow(names, g.created, owner, Executed, g.executed, symbol);
    RunRowsShow(names, g.created, owner, Automated, g.automated, symbol);
    OutputsConcat(names, g.executed, g.automated, symbol);
  }

  /** What a reader adds up from the rows is the volume the statistics show, symbol by symbol. */
  lemma RowsMatchVolume(names: Names, owner: Address, h: History, answers: map<Address, ZapRead>, symbol: string)
    requires ProfileOf(names, owner, h, answers).Some?
    ensures var p := ProfileOf(names, owner, h, answers).value;
            ShownUnder(p.activity, symbol)
            == if symbol in p.stats.executedVolume then p.stats.executedVolume[symbol] else 0
  {
    hide Gate, Rows, Sorted, Summaries, Volume, Outputs, At, ShownUnder;
    var g := Gate(names, owner, h);
    SortedShows(Rows(names, owner, g), symbol);
    RowsShow(names, owner, g, symbol);
    VolumeAt(Outputs(names, g.executed + g.automated), symbol);
  }

  /** Activity is exactly the verified rows, newest first; with distinct log positions no other order exists. */
  lemma ActivityIsEverything(names: Names, owner: Address, h: History, answers: map<Address, ZapRead>)
    requires ProfileOf(names, owner, h, answers).Some?
    ensures var p := ProfileOf(names, owner, h, answers).value;
            var rows := Rows(names, owner, Gate(names, owner, h));
            && multiset(p.activity) == multiset(rows) && NewestFirst(p.activity, RowPlace)
            && forall other | NewestFirst(other, RowPlace) && multiset(other) == multiset(rows) ::
                 Apart(p.activity, RowPlace) ==> other == p.activity
  {
    hide Gate, Rows, Sorted, Summaries, NewestFirst, Apart;
    var rows := Rows(names, owner, Gate(names, owner, h));
    SortedSpec(rows, RowPlace);
    forall other | NewestFirst(other, RowPlace) && multiset(other) == multiset(rows)
      && Apart(Sorted(rows, RowPlace), RowPlace)
      ensures other == Sorted(rows, RowPlace)
    {
      OneOrder(Sorted(rows, RowPlace), other, RowPlace);
    }
  }

  /** One summary per created capsule, newest first; when no two were created in one block, no other order
      exists. */
  lemma CapsulesAreListed(names: Names, owner: Address, h: History, answers: map<Address, ZapRead>)
    requires ProfileOf(names, owner, h, answers).Some?
    ensures var p, g := ProfileOf(names, owner, h, answers).value, Gate(names, owner, h);
            var all := Summaries(names, g.created, g.created, p.activity, answers);
            && all.Some? && |all.value| == |g.created|
            && multiset(p.zaps) == multiset(all.value) && NewestFirst(p.zaps, CapsulePlace)
            && forall other | NewestFirst(other, CapsulePlace) && multiset(other) == multiset(all.value) ::
                 Apart(p.zaps, CapsulePlace) ==> other == p.zaps
  {
    hide Gate, Rows, Sorted, SummaryOf, NewestFirst, Apart, Volume, Outputs;
    var p, g := ProfileOf(names, owner, h, answers).value, Gate(names, owner, h);
    var all := Summaries(names, g.created, g.created, p.activity, answers).value;
    SortedSpec(all, CapsulePlace);
    forall other | NewestFirst(other, CapsulePlace) && multiset(other) == multiset(all) && Apart(p.zaps, CapsulePlace)
      ensures other == p.zaps
    {
      OneOrder(p.zaps, other, CapsulePlace);
    }
  }

  // ---- last activity -------------------------------------------------------

  lemma {:induction false} OfZapMembers(rows: seq<Row>, zap: Address, row: Row)
    ensures row in OfZap(rows, zap) <==> row in rows && row.zap == zap
  {
    if rows != [] {
      OfZapMembers(rows[..|rows| - 1], zap, row);
      assert rows == rows[..|rows| - 1] + [rows[|rows| - 1]];
    }
  }

  lemma {:induction false} OfZapOrdered(rows: seq<Row>, zap: Address)
    requires NewestFirst(rows, RowPlace)
    ensures NewestFirst(OfZap(rows, zap), RowPlace)
  {
    if rows != [] {
      var front, last := rows[..|rows| - 1], rows[|rows| - 1];
      OfZapOrdered(front, zap);
      var kept := OfZap(front, zap);
      forall i | 0 <= i < |kept| ensures !Later(RowPlace(last), RowPlace(kept[i])) {
        OfZapMembers(front, zap, kept[i]);
        var j :| 0 <= j < |front| && front[j] == kept[i];
        assert rows[j] == kept[i];
      }
    }
  }

  lemma FirstIsNewest(rows: seq<Row>, zap: Address, row: Row)
    requires NewestFirst(rows, RowPlace) && row in rows && row.zap == zap
    ensures OfZap(rows, zap) != [] && row.block <= OfZap(rows, zap)[0].block && OfZap(rows, zap)[0] in rows
    ensures OfZap(rows, zap)[0].zap == zap
  {
    hide OfZap;
    OfZapMembers(rows, zap, row);
    OfZapOrdered(rows, zap);
    var kept := OfZap(rows, zap);
    OfZapMembers(rows, zap, kept[0]);
    var i :| 0 <= i < |kept| && kept[i] == row;
  }

  /** A capsule's last activity is the block of its newest row, and every capsule has one. */
  lemma LastActivityIsNewest(names: Names, owner: Address, h: History, answers: map<Address, ZapRead>, z: Summary)
    requires ProfileOf(names, owner, h, answers).Some? && z in ProfileOf(names, owner, h, answers).value.zaps
    ensures var p := ProfileOf(names, owner, h, answers).value;
            && (exists row :: row in p.activity && row.zap == z.zap && row.block == z.lastActivityBlock)
            && (forall row :: row in p.activity && row.zap == z.zap ==> row.block <= z.lastActivityBlock)
  {
    hide Gate, Rows, Sorted, OfZap, OfKind, NewestFirst, Volume, Outputs, Apart, SummaryOf;
    var g := Gate(names, owner, h);
    var rows := Rows(names, owner, g);
    var activity := Sorted(rows, RowPlace);
    SortedSpec(rows, RowPlace);
    CapsulesAreListed(names, owner, h, answers);
    var all := Summaries(names, g.created, g.created, activity, answers).value;
    assert z in multiset(all);
    var i :| 0 <= i < |all| && all[i] == z;
    SummaryLast(names, g.created, g.created[i], activity, ReadOf(answers, g.created[i].zap));
    CreationShows(names, owner, g, i);
    var made := CreationRows(names, owner, g.created)[i];
    assert made in multiset(activity);
    FirstIsNewest(activity, z.zap, made);
    forall row | row in activity && row.zap == z.zap ensures row.block <= OfZap(activity, z.zap)[0].block {
      FirstIsNewest(activity, z.zap, row);
    }
  }

  lemma SummaryLast(names: Names, created: seq<Creation>, c: Creation, activity: seq<Row>, answer: ZapRead)
    requires SummaryOf(names, created, c, activity, answer).Some?
    ensures var s, rows := SummaryOf(names, created, c, activity, answer).value, OfZap(activity, c.zap);
            s.zap == c.zap && s.lastActivityBlock == if rows == [] then c.block else rows[0].block
  {
    hide OfKind, OfZap, LineageOf;
  }

  lemma CreationShows(names: Names, owner: Address, g: History, i: nat)
    requires i < |g.created|
    ensures CreationRows(names, owner, g.created)[i] in Rows(names, owner, g)
    ensures CreationRows(names, owner, g.created)[i].zap == g.created[i].zap
  {
  }
}
