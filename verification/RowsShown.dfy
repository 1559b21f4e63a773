/** What the rows and capsules of a profile, and the rows of the feed, say of the logs and reads behind them,
    field by field. */
module RowsShown {
  import opened Prelude
  import opened Decimals
  import opened Routes
  import opened Ledger
  import opened WalletProfile
  import opened ProfileTotals
  import opened ActivityFeed

  // ---- which logs pass -----------------------------------------------------

  /** The capsule's creation the gate goes by; a profile keeps an earliest one, the feed the last. */
  ghost predicate CreatedAs(table: seq<Creation>, zap: Address, c: Creation) {
    c in table && c.zap == zap && forall d :: d in table && d.zap == zap ==> d == c
  }

  /** A halt is believed exactly when its capsule's creation names a lineage that can halt, the same owner and
      the same policy. */
  lemma HaltsBelieved(names: Names, table: seq<Creation>, logs: seq<Log>, log: Log)
    requires OnePerZap(table)
    ensures log in ProvenHalts(names, table, logs) <==>
            && log in logs
            && exists c :: CreatedAs(table, log.emitter, c) && names.lineageFor(c.factory) in {"v1.2", "v3.2"}
                           && log.actor == c.owner && log.policyHash == c.policyHash
  {
    ProvenMembers(names, table, logs, log);
    CreationFound(table, log.emitter);
  }

  lemma CreationFound(table: seq<Creation>, zap: Address)
    requires OnePerZap(table)
    ensures var i := Position(table, zap);
            forall c :: CreatedAs(table, zap, c) <==> i < |table| && c == table[i]
  {
    var i := Position(table, zap);
    forall c | c in table && c.zap == zap ensures i < |table| && c == table[i] {
      var k :| 0 <= k < |table| && table[k] == c;
    }
  }

  /** No later creation of the same capsule. */
  ghost predicate IsLast(created: seq<Creation>, i: nat)
    requires i < |created|
  {
    forall j :: i < j < |created| ==> created[j].zap != created[i].zap
  }

  lemma LastSnoc(front: seq<Creation>, last: Creation, i: nat)
    requires i < |front|
    ensures IsLast(front + [last], i) <==> IsLast(front, i) && front[i].zap != last.zap
  {
    var all := front + [last];
    if IsLast(all, i) {
      assert all[|front|] == last && all[i] == front[i];
      forall j | i < j < |front| ensures front[j].zap != front[i].zap { assert all[j] == front[j]; }
    }
  }

  /** The feed goes by each capsule's last creation. */
  lemma {:induction false} LastWinsSpec(created: seq<Creation>)
    ensures OnePerZap(LastWins(created))
    ensures forall i :: 0 <= i < |created| && IsLast(created, i) ==> created[i] in LastWins(created)
  {
    hide OnePerZap, IsLast;
    if created == [] {
      NothingTwice();
    } else {
      var front, last := created[..|created| - 1], created[|created| - 1];
      LastWinsSpec(front);
      LastPut(LastWins(front), last);
      assert created == front + [last];
      forall i | 0 <= i < |created| && IsLast(created, i) ensures created[i] in LastWins(created) {
        if i < |front| { LastSnoc(front, last, i); }
      }
    }
  }

  lemma NothingTwice()
    ensures OnePerZap([])
  {
  }

  lemma LastPut(table: seq<Creation>, log: Creation)
    requires OnePerZap(table)
    ensures var i := Position(table, log.zap);
            var next := if i < |table| then table[i := log] else table + [log];
            OnePerZap(next) && log in next && forall c :: c in table && c.zap != log.zap ==> c in next
  {
    var i := Position(table, log.zap);
    var next := if i < |table| then table[i := log] else table + [log];
    assert next[i] == log;
    forall c | c in table && c.zap != log.zap ensures c in next {
      var k :| 0 <= k < |table| && table[k] == c;
      assert next[k] == c;
    }
  }

  // ---- profile rows --------------------------------------------------------

  ghost predicate SaysPlace(names: Names, row: Row, zap: Address, tx: nat, block: nat, index: nat) {
    && row.zap == zap && row.tx == tx && row.block == block && row.index == index
    && row.timestamp == if block in names.timestamps then Some(names.timestamps[block]) else None
  }

  /** The wording under a run: its number where it has one, and what kind of authorization it ran on. */
  ghost predicate WordsRun(log: Log, detail: string) {
    match log.runKind
    case TriggerRun => detail == "price trigger"
    case Recurring => detail == Numbered(log.run) + "recurring"
    case RecurringRelative => detail == Numbered(log.run) + "recurring · spot floor"
    case RecurringStack => detail == Numbered(log.run) + "recurring · stacks 0xZAPS"
  }

  ghost function Numbered(run: Option<nat>): string {
    if run.None? then "" else "run " + Show(run.value) + " · "
  }

  ghost predicate Words(kind: Kind, log: Log, detail: string) {
    match kind
    case Created => false
    case Executed => detail == "one-time execution confirmed"
    case Automated => WordsRun(log, detail)
    case Recovered => detail == "tracked asset recovered to owner"
    case Halted => detail == "execution policy permanently halted"
    case Revoked => detail == "authorization revoked onchain"
    case SeriesFinished =>
      if log.run == Some(1) then detail == "series finished after 1 run"
      else detail == "series finished after " + Show(log.run.GetOr(0)) + " runs"
  }

  lemma RunsWorded(log: Log)
    ensures WordsRun(log, DescribeRun(log.runKind, log.run))
  {
    hide Show;
    assert "" + "recurring" == "recurring";
    if log.run.Some? {
      var numbered := "run " + Show(log.run.value);
      assert numbered + " · " + "recurring" == numbered + (" · " + "recurring");
    }
  }

  lemma Worded(kind: Kind, log: Log)
    requires kind != Created
    ensures Words(kind, log, DetailOf(kind, log))
  {
    hide WordsRun, DescribeRun;
    RunsWorded(log);
    assert Show(1) == "1";
    assert "series finished after " + "1" + " run" == "series finished after 1 run";
  }

  /** A row of a profile and the log it shows. */
  ghost predicate Shows(names: Names, table: seq<Creation>, owner: Address, row: Row, kind: Kind, log: Log) {
    && row.kind == kind && SaysPlace(names, row, log.emitter, log.tx, log.block, log.index)
    && (forall c :: CreatedAs(table, log.emitter, c) ==> row.lineage == Some(names.lineageFor(c.factory)))
    && row.detail.Some? && Words(kind, log, row.detail.value)
    && match kind
       case Created => false
       case Executed =>
         && row.actor == Some(log.actor) && row.amount == Some(log.amount)
         && row.symbol == Some(names.symbolFor(log.asset))
         && row.authorization == None && row.run == None && row.automationKind == None
       case Automated =>
         && row.actor == Some(log.actor) && row.amount == Some(log.amount)
         && row.symbol == Some(names.symbolFor(log.asset))
         && row.authorization == Some(log.authorization) && row.run == log.run
         && row.automationKind == Some(log.runKind)
       case Recovered =>
         && row.actor == Some(log.actor) && row.amount == Some(log.amount)
         && row.symbol == Some(names.symbolFor(log.asset))
         && row.authorization == None && row.run == None && row.automationKind == None
       case Halted =>
         && row.actor == Some(log.actor) && row.amount == None && row.symbol == None
         && row.authorization == None && row.run == None && row.automationKind == None
       case Revoked =>
         && row.actor == Some(owner) && row.amount == None && row.symbol == None
         && row.authorization == Some(log.authorization) && row.run == None && row.automationKind == None
       case SeriesFinished =>
         && row.actor == None && row.amount == None && row.symbol == None
         && row.authorization == Some(log.authorization) && row.run == log.run
         && row.automationKind == Some(Recurring)
  }

  ghost predicate ShowsCreation(names: Names, owner: Address, row: Row, c: Creation) {
    && row.kind == Created && SaysPlace(names, row, c.zap, c.tx, c.block, c.index) && row.actor == Some(owner)
    && row.lineage == Some(names.lineageFor(c.factory))
    && row.detail == Some(names.lineageFor(c.factory) + " capsule created")
    && row.amount == None && row.symbol == None && row.authorization == None && row.run == None
    && row.automationKind == None
  }

  function LogsOf(g: History, kind: Kind): seq<Log> {
    match kind
    case Created => []
    case Executed => g.executed
    case Automated => g.automated
    case Recovered => g.exits
    case Halted => g.halted
    case Revoked => g.invalidated
    case SeriesFinished => g.finished
  }

  lemma LogRowShows(names: Names, table: seq<Creation>, owner: Address, kind: Kind, log: Log)
    requires kind != Created && OnePerZap(table)
    ensures Shows(names, table, owner, LogRow(names, table, owner, kind, log), kind, log)
  {
    hide DetailOf, Words;
    Worded(kind, log);
    CreationFound(table, log.emitter);
  }

  lemma CreationRowShows(names: Names, table: seq<Creation>, owner: Address, c: Creation)
    requires OnePerZap(table) && c in table
    ensures ShowsCreation(names, owner, CreationRow(names, table, owner, c), c)
  {
    CreationFound(table, c.zap);
    var k :| 0 <= k < |table| && table[k] == c;
  }

  lemma ListRows(names: Names, table: seq<Creation>, owner: Address, kind: Kind, logs: seq<Log>)
    ensures forall row :: row in LogRows(names, table, owner, kind, logs) <==>
              exists log :: log in logs && row == LogRow(names, table, owner, kind, log)
  {
    hide LogRow;
    var rows := LogRows(names, table, owner, kind, logs);
    forall row ensures row in rows <==> exists log :: log in logs && row == LogRow(names, table, owner, kind, log) {
      if row in rows {
        var i :| 0 <= i < |rows| && rows[i] == row;
        assert logs[i] in logs;
      }
      if log :| log in logs && row == LogRow(names, table, owner, kind, log) {
        var i :| 0 <= i < |logs| && logs[i] == log;
        assert rows[i] == row;
      }
    }
  }

  lemma CreatedList(names: Names, owner: Address, table: seq<Creation>)
    ensures forall row :: row in CreationRows(names, owner, table) <==>
              exists c :: c in table && row == CreationRow(names, table, owner, c)
  {
    hide CreationRow;
    var rows := CreationRows(names, owner, table);
    forall row ensures row in rows <==> exists c :: c in table && row == CreationRow(names, table, owner, c) {
      if row in rows {
        var i :| 0 <= i < |rows| && rows[i] == row;
        assert table[i] in table;
      }
      if c :| c in table && row == CreationRow(names, table, owner, c) {
        var i :| 0 <= i < |table| && table[i] == c;
        assert rows[i] == row;
      }
    }
  }

  lemma RowsAre(names: Names, owner: Address, g: History, row: Row)
    ensures row in Rows(names, owner, g) <==>
            || row in CreationRows(names, owner, g.created)
            || exists kind :: kind != Created && row in LogRows(names, g.created, owner, kind, LogsOf(g, kind))
  {
    hide LogRows, CreationRows;
    if kind :| kind != Created && row in LogRows(names, g.created, owner, kind, LogsOf(g, kind)) {
      match kind
      case Executed =>
      case Automated =>
      case Recovered =>
      case Halted =>
      case Revoked =>
      case SeriesFinished =>
      case _ =>
    }
    if row in Rows(names, owner, g) && row !in CreationRows(names, owner, g.created) {
      if row in LogRows(names, g.created, owner, Executed, LogsOf(g, Executed)) {
      } else if row in LogRows(names, g.created, owner, Automated, LogsOf(g, Automated)) {
      } else if row in LogRows(names, g.created, owner, Recovered, LogsOf(g, Recovered)) {
      } else if row in LogRows(names, g.created, owner, Halted, LogsOf(g, Halted)) {
      } else if row in LogRows(names, g.created, owner, Revoked, LogsOf(g, Revoked)) {
      } else {
        assert row in LogRows(names, g.created, owner, SeriesFinished, LogsOf(g, SeriesFinished));
      }
    }
  }

  /** Every row of a profile shows a creation kept for the owner or a log that passed the gate, and each of
      those has its row. */
  lemma ProfileRowsShow(names: Names, owner: Address, h: History, answers: map<Address, ZapRead>)
    requires ProfileOf(names, owner, h, answers).Some?
    ensures var p, g := ProfileOf(names, owner, h, answers).value, Gate(names, owner, h);
            && (forall row :: row in p.activity ==>
                  || (exists c :: c in g.created && ShowsCreation(names, owner, row, c))
                  || exists kind, log :: log in LogsOf(g, kind) && Shows(names, g.created, owner, row, kind, log))
            && (forall c :: c in g.created ==> exists row :: row in p.activity && ShowsCreation(names, owner, row, c))
            && (forall kind, log :: log in LogsOf(g, kind) ==>
                  exists row :: row in p.activity && Shows(names, g.created, owner, row, kind, log))
  {
    hide Gate, Rows, Sorted, Summaries, Shows, ShowsCreation, LogRow, CreationRow, Volume, Outputs, LogRows,
         CreationRows, OnePerZap, LogsOf, NewestFirst;
    var p, g := ProfileOf(names, owner, h, answers).value, Gate(names, owner, h);
    SortedSpec(Rows(names, owner, g), RowPlace);
    assert forall row :: row in p.activity <==> row in multiset(p.activity);
    assert forall row :: row in Rows(names, owner, g) <==> row in multiset(Rows(names, owner, g));
    GateIsGated(names, owner, h);
    GatedOnce(g);
    CreatedList(names, owner, g.created);
    forall row | row in p.activity
      ensures || (exists c :: c in g.created && ShowsCreation(names, owner, row, c))
              || exists kind, log :: log in LogsOf(g, kind) && Shows(names, g.created, owner, row, kind, log)
    {
      RowShows(names, owner, g, row);
    }
    forall c | c in g.created ensures exists row :: row in p.activity && ShowsCreation(names, owner, row, c) {
      var row := CreationRow(names, g.created, owner, c);
      CreationRowShows(names, g.created, owner, c);
      RowsAre(names, owner, g, row);
      assert row in p.activity;
    }
    forall kind, log | log in LogsOf(g, kind)
      ensures exists row :: row in p.activity && Shows(names, g.created, owner, row, kind, log)
    {
      LogIsShown(names, owner, g, kind, log);
      assert LogRow(names, g.created, owner, kind, log) in p.activity;
    }
  }

  lemma GatedOnce(g: History)
    requires Gated(g)
    ensures OnePerZap(g.created)
  {
  }

  lemma RowShows(names: Names, owner: Address, g: History, row: Row)
    requires OnePerZap(g.created) && row in Rows(names, owner, g)
    ensures || (exists c :: c in g.created && ShowsCreation(names, owner, row, c))
            || exists kind, log :: log in LogsOf(g, kind) && Shows(names, g.created, owner, row, kind, log)
  {
    hide Rows, Shows, ShowsCreation, LogRow, CreationRow, LogRows, CreationRows, OnePerZap, LogsOf;
    RowsAre(names, owner, g, row);
    CreatedList(names, owner, g.created);
    if row in CreationRows(names, owner, g.created) {
      var c :| c in g.created && row == CreationRow(names, g.created, owner, c);
      CreationRowShows(names, g.created, owner, c);
    } else {
      var kind :| kind != Created && row in LogRows(names, g.created, owner, kind, LogsOf(g, kind));
      ListRows(names, g.created, owner, kind, LogsOf(g, kind));
      var log :| log in LogsOf(g, kind) && row == LogRow(names, g.created, owner, kind, log);
      LogRowShows(names, g.created, owner, kind, log);
    }
  }

  lemma LogIsShown(names: Names, owner: Address, g: History, kind: Kind, log: Log)
    requires OnePerZap(g.created) && log in LogsOf(g, kind)
    ensures LogRow(names, g.created, owner, kind, log) in Rows(names, owner, g)
    ensures Shows(names, g.created, owner, LogRow(names, g.created, owner, kind, log), kind, log)
  {
    hide Rows, Shows, LogRow, LogRows, OnePerZap;
    var row := LogRow(names, g.created, owner, kind, log);
    LogRowShows(names, g.created, owner, kind, log);
    ListRows(names, g.created, owner, kind, LogsOf(g, kind));
    RowsAre(names, owner, g, row);
  }

  // ---- capsules ------------------------------------------------------------

  /** What a capsule's summary says: its creation, its management read, and a halt status that never claims
      more than the read and the events agree on. */
  ghost predicate Summarizes(names: Names, activity: seq<Row>, c: Creation, answer: ZapRead, s: Summary) {
    var rows := OfZap(activity, c.zap);
    var halts := OfKind(rows, Halted);
    var capable := names.lineageFor(c.factory) in {"v1.2", "v3.2"};
    && s.zap == c.zap && s.factory == c.factory && s.policyHash == c.policyHash && s.createdBlock == c.block
    && s.createdTx == c.tx && s.lineage == names.lineageFor(c.factory) && s.tracked == answer.tracked
    && s.createdAt == (if c.block in names.timestamps then Some(names.timestamps[c.block]) else None)
    && (s.haltStatus == Unsupported <==> !capable)
    && (s.haltStatus == Active <==> capable && answer.halted == Some(false) && |halts| == 0)
    && (s.haltStatus == HaltedNow <==> capable && answer.halted == Some(true) && |halts| == 1)
    && (s.policyHalted == Some(true) <==> s.haltStatus == HaltedNow)
    && (s.policyHalted == Some(false) <==> s.haltStatus == Active)
    && (s.readsLive <==> answer.tracked.Some? && s.haltStatus != Unavailable)
    && s.haltedTx == (if |halts| == 0 then None else Some(halts[0].tx))
    && s.haltedAt == (if |halts| == 0 then None else halts[0].timestamp)
    && s.executions == |OfKind(rows, Executed)| && s.automatedRuns == |OfKind(rows, Automated)|
    && s.recoveries == |OfKind(rows, Recovered)| && s.revocations == |OfKind(rows, Revoked)|
    && s.lastActivityBlock == (if |rows| == 0 then c.block else rows[0].block)
    && s.lastActivityAt == (if |rows| > 0 && rows[0].timestamp.Some? then rows[0].timestamp else s.createdAt)
  }

  lemma SummarySays(names: Names, activity: seq<Row>, table: seq<Creation>, c: Creation, answer: ZapRead)
    requires OnePerZap(table) && c in table
    ensures var s := SummaryOf(names, table, c, activity, answer);
            && (s.None? <==> answer.halted.Some? && names.lineageFor(c.factory) !in {"v1.2", "v3.2"})
            && (s.Some? ==> Summarizes(names, activity, c, answer, s.value))
  {
    hide OfKind, OfZap;
    CreationFound(table, c.zap);
    var k :| 0 <= k < |table| && table[k] == c;
  }

  /** Every capsule shown summarizes a creation kept for the owner and the read for it; the profile is degraded
      exactly when one of them has no live reads; and there is no profile exactly when some read claims a halt
      flag for a lineage that has none. */
  lemma CapsulesShow(names: Names, owner: Address, h: History, answers: map<Address, ZapRead>)
    ensures var g := Gate(names, owner, h);
            && (ProfileOf(names, owner, h, answers).None? <==>
                exists c :: c in g.created && names.lineageFor(c.factory) !in {"v1.2", "v3.2"}
                            && c.zap in answers && answers[c.zap].halted.Some?)
            && (ProfileOf(names, owner, h, answers).Some? ==>
                var p := ProfileOf(names, owner, h, answers).value;
                && (forall s :: s in p.zaps ==>
                      exists c :: c in g.created
                                  && Summarizes(names, p.activity, c, ReadOf(answers, c.zap), s))
                && (p.degraded <==> exists s :: s in p.zaps && !s.readsLive))
  {
    hide Gate, Rows, Sorted, SummaryOf, Summarizes, Volume, Outputs, OnePerZap, NewestFirst, Apart;
    var g := Gate(names, owner, h);
    GateIsGated(names, owner, h);
    GatedOnce(g);
    var activity := Sorted(Rows(names, owner, g), RowPlace);
    forall c | c in g.created
      ensures SummaryOf(names, g.created, c, activity, ReadOf(answers, c.zap)).None? <==>
              names.lineageFor(c.factory) !in {"v1.2", "v3.2"} && c.zap in answers && answers[c.zap].halted.Some?
    {
      SummarySays(names, activity, g.created, c, ReadOf(answers, c.zap));
    }
    SummariesRefuse(names, g.created, g.created, activity, answers);
    if ProfileOf(names, owner, h, answers).Some? {
      var p := ProfileOf(names, owner, h, answers).value;
      CapsulesAreListed(names, owner, h, answers);
      var all := Summaries(names, g.created, g.created, activity, answers).value;
      forall s | s in p.zaps
        ensures exists c :: c in g.created && Summarizes(names, p.activity, c, ReadOf(answers, c.zap), s)
      {
        assert s in multiset(all);
        var i :| 0 <= i < |all| && all[i] == s;
        SummarySays(names, activity, g.created, g.created[i], ReadOf(answers, g.created[i].zap));
        assert g.created[i] in g.created;
      }
      assert forall s :: s in p.zaps <==> exists i :: 0 <= i < |p.zaps| && p.zaps[i] == s;
    }
  }

  lemma {:induction false} SummariesRefuse(names: Names, table: seq<Creation>, todo: seq<Creation>, activity: seq<Row>,
                                           answers: map<Address, ZapRead>)
    ensures Summaries(names, table, todo, activity, answers).None? <==>
            exists c :: c in todo && SummaryOf(names, table, c, activity, ReadOf(answers, c.zap)).None?
  {
    hide SummaryOf;
    if todo != [] {
      SummariesRefuse(names, table, todo[..|todo| - 1], activity, answers);
      assert todo == todo[..|todo| - 1] + [todo[|todo| - 1]];
    }
  }

  // ---- feed rows -----------------------------------------------------------

  /** A row of the feed and the log it shows. */
  ghost predicate FeedShowsLog(names: Names, row: Row, kind: Kind, log: Log) {
    && row.kind == kind && SaysPlace(names, row, log.emitter, log.tx, log.block, log.index)
    && row.actor == Some(log.actor)
    && (kind == Automated || kind == Halted ==> row.detail.Some? && Words(kind, log, row.detail.value))
    && (kind == Executed || kind == Recovered ==> row.detail == None)
    && (kind == Halted ==> row.amount == None && row.symbol == None)
    && (kind == Executed || kind == Automated || kind == Recovered ==>
          row.amount == Some(log.amount) && row.symbol == Some(names.symbolFor(log.asset)))
  }

  ghost predicate FeedShowsCreation(names: Names, row: Row, c: Creation) {
    && row.kind == Created && SaysPlace(names, row, c.zap, c.tx, c.block, c.index) && row.actor == Some(c.owner)
    && row.amount == None && row.symbol == None && row.detail == None
  }

  lemma FeedList(names: Names, kind: Kind, logs: seq<Log>)
    requires kind == Executed || kind == Automated || kind == Recovered || kind == Halted
    ensures |FeedRows(names, kind, logs)| == |logs|
    ensures forall i :: 0 <= i < |logs| ==> FeedShowsLog(names, FeedRows(names, kind, logs)[i], kind, logs[i])
  {
    hide DescribeRun, WordsRun;
    forall i | 0 <= i < |logs| ensures WordsRun(logs[i], DescribeRun(logs[i].runKind, logs[i].run)) {
      RunsWorded(logs[i]);
    }
  }

  /** Row for row, the feed's entries before sorting show the creations, then the one-shot executions, automated
      runs, recoveries and halts that passed the gate. */
  lemma FeedEntriesShow(names: Names, h: History)
    ensures var g := FeedGate(names, h);
            var e, a := |g.created|, |g.created| + |g.executed|;
            var r, l := a + |g.automated|, a + |g.automated| + |g.exits|;
            var rows := FeedEntries(names, g);
            && |rows| == l + |g.halted|
            && (forall i :: 0 <= i < |g.created| ==> FeedShowsCreation(names, rows[i], g.created[i]))
            && (forall i :: 0 <= i < |g.executed| ==> FeedShowsLog(names, rows[e + i], Executed, g.executed[i]))
            && (forall i :: 0 <= i < |g.automated| ==> FeedShowsLog(names, rows[a + i], Automated, g.automated[i]))
            && (forall i :: 0 <= i < |g.exits| ==> FeedShowsLog(names, rows[r + i], Recovered, g.exits[i]))
            && (forall i :: 0 <= i < |g.halted| ==> FeedShowsLog(names, rows[l + i], Halted, g.halted[i]))
  {
    hide FeedGate, FeedRows, FeedShowsLog;
    var g := FeedGate(names, h);
    FeedList(names, Executed, g.executed);
    FeedList(names, Automated, g.automated);
    FeedList(names, Recovered, g.exits);
    FeedList(names, Halted, g.halted);
  }
}
