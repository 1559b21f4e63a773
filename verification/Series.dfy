/** The recurring series as the capsule keeps it (`executeRecurring` and `executeRecurringRelative`, whose
    gates are the same), over every run of time, submissions, revocations and halts, and what the lifecycle
    view says about it. Signature, submitter, gas and allowlist checks are taken to pass. */
module Series {
  import opened Prelude
  import opened Observers
  import opened Settlement

  const U64: nat := 0x1_0000_0000_0000_0000

  /** The signed schedule and floor. */
  datatype Terms = Terms(validAfter: nat, deadline: nat, interval: nat, maxRuns: nat, floor: Floor)

  /** Capsule state for one series id, with the clock and the history of executed runs. */
  datatype State = State(
    now: nat, halted: bool, nonceUsed: bool, runs: nat, lastRun: nat, revoked: bool, finished: bool, log: seq<nat>)

  datatype Event =
    | Tick(seconds: nat)
    | Submit(fill: Fill)
    | Revoke           // invalidateNonce by the owner
    | ConsumeElsewhere // a one-shot or trigger that used the same id
    | Halt             // haltPolicy by the owner

  function Initial(now: nat): State {
    State(now, false, false, 0, 0, false, false, [])
  }

  predicate UintTerms(t: Terms) {
    t.validAfter < U64 && t.deadline < U64 && t.interval < U64
  }

  /** Every check made on the clock and the stored progress. */
  predicate GateOpen(t: Terms, s: State) {
    && !s.halted && t.interval != 0 && t.maxRuns != 0
    && t.validAfter <= s.now <= t.deadline && !s.nonceUsed
    && (s.runs != 0 ==> s.lastRun + t.interval < U64 && s.now >= s.lastRun + t.interval)
  }

  /** A submission executes when the gate is open and its run settles; any other reverts. */
  predicate Executes(t: Terms, s: State, fill: Fill) {
    GateOpen(t, s) && Settles(t.floor, fill)
  }

  function Step(t: Terms, s: State, e: Event): State {
    match e
    case Tick(seconds) => s.(now := s.now + seconds)
    case Revoke => s.(nonceUsed := true, revoked := true)
    case ConsumeElsewhere => s.(nonceUsed := true)
    case Halt => s.(halted := true)
    case Submit(fill) =>
      if !Executes(t, s, fill) then s
      else
        var last := s.runs + 1 == t.maxRuns;
        s.(runs := s.runs + 1, lastRun := s.now % U64, log := s.log + [s.now],
           nonceUsed := s.nonceUsed || last, finished := s.finished || last)
  }

  function Run(t: Terms, s: State, events: seq<Event>): State {
    if events == [] then s else Step(t, Run(t, s, events[..|events| - 1]), events[|events| - 1])
  }

  // ---- safety over every run -----------------------------------------------

  ghost predicate Safe(t: Terms, s: State) {
    && s.runs == |s.log| <= t.maxRuns
    && (s.finished <==> s.runs == t.maxRuns && t.maxRuns > 0)
    && (s.finished || s.revoked ==> s.nonceUsed)
    && (s.runs > 0 ==> s.lastRun == s.log[s.runs - 1] <= s.now)
    && (forall i :: 0 <= i < |s.log| ==> t.validAfter <= s.log[i] <= t.deadline)
    && (forall i :: 0 < i < |s.log| ==> s.log[i] >= s.log[i - 1] + t.interval)
  }

  lemma StepSafe(t: Terms, s: State, e: Event)
    requires UintTerms(t) && Safe(t, s)
    ensures Safe(t, Step(t, s, e))
  {
    hide Settles;
  }

  /** Over every run from a fresh series: never more than `maxRuns` executions, each inside the validity
      window, consecutive ones at least an interval apart, and the id is spent when the count is full. */
  lemma {:induction false} EveryRunIsSafe(t: Terms, now: nat, events: seq<Event>)
    requires UintTerms(t)
    ensures Safe(t, Run(t, Initial(now), events))
  {
    if events != [] {
      EveryRunIsSafe(t, now, events[..|events| - 1]);
      StepSafe(t, Run(t, Initial(now), events[..|events| - 1]), events[|events| - 1]);
    }
  }

  lemma {:induction false} LogCounts(t: Terms, now: nat, events: seq<Event>)
    ensures var s := Run(t, Initial(now), events); s.runs == |s.log|
  {
    hide Settles;
    if events != [] { LogCounts(t, now, events[..|events| - 1]); }
  }

  predicate Ended(t: Terms, s: State) {
    s.nonceUsed || s.now > t.deadline
  }

  /** Once spent or past its deadline a series never executes again, whatever happens next. */
  lemma {:induction false} EndedIsAbsorbing(t: Terms, s: State, events: seq<Event>)
    requires Ended(t, s)
    ensures var r := Run(t, s, events); Ended(t, r) && r.runs == s.runs && r.log == s.log && r.now >= s.now
  {
    hide Settles;
    if events != [] { EndedIsAbsorbing(t, s, events[..|events| - 1]); }
  }

  // ---- what the lifecycle view sees ----------------------------------------

  /** The view of a series whose state and events are all readable. */
  function View(t: Terms, s: State): Lifecycle {
    DeriveLifecycle(Some(Recurring(t.validAfter, t.deadline, t.interval, t.maxRuns)),
                    Some(ChainState(Some(s.nonceUsed), Some((s.runs, s.lastRun)), None)),
                    Evidence(s.revoked, s.finished), s.now)
  }

  /** In every reachable state a submission executes exactly when the view says "due" and its run settles,
      unless the policy was halted or the schedule has no interval, neither of which the view reads. */
  lemma DueIsSubmittable(t: Terms, now: nat, events: seq<Event>)
    requires UintTerms(t) && t.maxRuns > 0
    ensures var s := Run(t, Initial(now), events);
            && (GateOpen(t, s) <==> View(t, s) == Due && !s.halted && t.interval > 0)
            && forall fill :: Executes(t, s, fill) <==>
                 View(t, s) == Due && !s.halted && t.interval > 0 && Settles(t.floor, fill)
  {
    hide Settles;
    EveryRunIsSafe(t, now, events);
  }

  /** Both exceptions are reachable: a first run that looks due after a halt, or under a schedule without an
      interval, is one the capsule refuses. */
  lemma HaltLooksDue(t: Terms, now: nat)
    requires t.validAfter <= now <= t.deadline && t.maxRuns > 0
    ensures var s := Run(t, Initial(now), [Halt]);
            View(t, s) == Due && forall fill :: !Executes(t, s, fill)
    ensures t.interval == 0 ==>
              View(t, Initial(now)) == Due && forall fill :: !Executes(t, Initial(now), fill)
  {
    assert [Halt][..0] == [];
    assert Run(t, Initial(now), [Halt]) == Step(t, Run(t, Initial(now), []), Halt);
  }

  /** In every reachable state the guardian reaches its fee gate exactly when the capsule's gate is open,
      under the same two exceptions; whether the run then settles is what its simulation finds out. */
  lemma FeeGateIsSubmittable(t: Terms, now: nat, events: seq<Event>, receiptFinalized: bool)
    requires UintTerms(t) && t.maxRuns > 0
    ensures var s := Run(t, Initial(now), events);
            var chain := ChainState(Some(s.nonceUsed), Some((s.runs, s.lastRun)), None);
            GateOpen(t, s) <==>
            Guardian(Recurring(t.validAfter, t.deadline, t.interval, t.maxRuns), true, chain, receiptFinalized, s.now)
              == FeeGate
            && !s.halted && t.interval > 0
  {
    EveryRunIsSafe(t, now, events);
  }

  /** In every reachable state the series has ended exactly when the view shows a terminal label, and
      every later view does too. */
  lemma EndedIsTerminal(t: Terms, now: nat, events: seq<Event>, later: seq<Event>)
    requires UintTerms(t) && t.maxRuns > 0
    ensures var s := Run(t, Initial(now), events);
            && (Ended(t, s) <==> TerminalView(View(t, s)))
            && (Ended(t, s) ==> TerminalView(View(t, Run(t, s, later))) && Run(t, s, later).log == s.log)
  {
    var s := Run(t, Initial(now), events);
    EveryRunIsSafe(t, now, events);
    if Ended(t, s) { EndedIsAbsorbing(t, s, later); }
  }

  predicate TerminalView(view: Lifecycle) {
    view in {Expired, Completed, Revoked, Consumed}
  }

  // ---- the suggested deadline ----------------------------------------------

  function Times(interval: nat, n: nat): nat {
    if n == 0 then 0 else Times(interval, n - 1) + interval
  }

  lemma {:induction false} TimesIsProduct(interval: nat, n: nat)
    ensures Times(interval, n) == interval * n
  {
    if n > 0 {
      TimesIsProduct(interval, n - 1);
      assert interval * n == interval * (n - 1) + interval;
    }
  }

  function Headroom(interval: nat, maxRuns: nat): nat {
    var span := Times(interval, if maxRuns < 1 then 1 else maxRuns);
    if span / 4 > 86400 then span / 4 else 86400
  }

  /** `suggestedSeriesDeadline`; `TimesIsProduct` gives the span as the source's product. */
  function SuggestedDeadline(now: nat, interval: nat, maxRuns: nat): nat {
    now + Times(interval, if maxRuns < 1 then 1 else maxRuns) + Headroom(interval, maxRuns)
  }

  function Sum(lateness: seq<nat>): nat {
    if lateness == [] then 0 else Sum(lateness[..|lateness| - 1]) + lateness[|lateness| - 1]
  }

  /** Submission `i` made `lateness[i]` seconds after its run became due, with the fill it finds. */
  function Script(interval: nat, lateness: seq<nat>, fills: seq<Fill>): seq<Event>
    requires |fills| == |lateness|
  {
    if lateness == [] then []
    else
      var k := |lateness| - 1;
      Script(interval, lateness[..k], fills[..k])
      + [Tick((if k == 0 then 0 else interval) + lateness[k]), Submit(fills[k])]
  }

  /** Every fill settles. */
  predicate AllSettle(floor: Floor, fills: seq<Fill>) {
    forall i :: 0 <= i < |fills| ==> Settles(floor, fills[i])
  }

  lemma AllSettleSnoc(floor: Floor, fills: seq<Fill>)
    requires fills != []
    ensures AllSettle(floor, fills) <==>
            AllSettle(floor, fills[..|fills| - 1]) && Settles(floor, fills[|fills| - 1])
  {
    hide Settles;
    var front, last := fills[..|fills| - 1], fills[|fills| - 1];
    assert fills == front + [last];
    if AllSettle(floor, fills) {
      forall i | 0 <= i < |front| ensures Settles(floor, front[i]) { assert fills[i] == front[i]; }
    }
  }

  /** The moment of the last submission of the script. */
  function LastMoment(now: nat, interval: nat, lateness: seq<nat>): nat
    requires lateness != []
  {
    now + Times(interval, |lateness| - 1) + Sum(lateness)
  }

  lemma RunScript(t: Terms, s: State, interval: nat, lateness: seq<nat>, fills: seq<Fill>)
    requires lateness != [] && |fills| == |lateness|
    ensures var k := |lateness| - 1;
            Run(t, s, Script(interval, lateness, fills))
            == Step(t, Step(t, Run(t, s, Script(interval, lateness[..k], fills[..k])),
                            Tick((if k == 0 then 0 else interval) + lateness[k])), Submit(fills[k]))
  {
    hide Step;
    var k, events := |lateness| - 1, Script(interval, lateness, fills);
    var front := Script(interval, lateness[..k], fills[..k]);
    var tick := Tick((if k == 0 then 0 else interval) + lateness[k]);
    assert events[..|events| - 1] == front + [tick];
    assert (front + [tick])[..|front|] == front;
  }

  lemma SumSnoc(lateness: seq<nat>)
    requires lateness != []
    ensures Sum(lateness) == Sum(lateness[..|lateness| - 1]) + lateness[|lateness| - 1]
    ensures |lateness| == 1 ==> Sum(lateness[..0]) == 0
  {
  }

  lemma TimesSnoc(interval: nat, k: nat)
    ensures Times(interval, k) == if k == 0 then 0 else Times(interval, k - 1) + interval
  {
  }

  /** Where the script stands after each submission: every run so far executed exactly when the last one met
      the deadline and all of them settled. */
  lemma {:induction false} ScriptProgress(t: Terms, now: nat, lateness: seq<nat>, fills: seq<Fill>)
    requires t.validAfter == 0 && t.interval > 0 && t.deadline < U64 && |fills| == |lateness| <= t.maxRuns
    ensures var s := Run(t, Initial(now), Script(t.interval, lateness, fills));
            && !s.halted && s.runs <= |lateness| && (s.nonceUsed <==> s.runs == t.maxRuns && t.maxRuns > 0)
            && s.now == (if lateness == [] then now else LastMoment(now, t.interval, lateness))
            && (lateness != [] ==> (s.runs == |lateness| <==> s.now <= t.deadline && AllSettle(t.floor, fills)))
            && (lateness != [] && s.runs == |lateness| ==> s.lastRun == s.now)
            && (lateness == [] ==> s == Initial(now))
  {
    hide AllSettle, Settles;
    if lateness != [] {
      hide Run, Script, Times, Sum;
      var k := |lateness| - 1;
      RunScript(t, Initial(now), t.interval, lateness, fills);
      ScriptProgress(t, now, lateness[..k], fills[..k]);
      SumSnoc(lateness);
      TimesSnoc(t.interval, k);
      AllSettleSnoc(t.floor, fills);
      NothingToSettle(t.floor);
    }
  }

  lemma NothingToSettle(floor: Floor)
    ensures AllSettle(floor, [])
  {
  }

  /** The suggested deadline leaves the scheduled span, of one run at least, and a quarter of it, or a day where
      that is more. */
  lemma HeadroomExactly(now: nat, interval: nat, maxRuns: nat)
    ensures var span := interval * (if maxRuns == 0 then 1 else maxRuns);
            && Headroom(interval, maxRuns) == (if span / 4 > 86400 then span / 4 else 86400)
            && SuggestedDeadline(now, interval, maxRuns) == now + span + Headroom(interval, maxRuns)
  {
    hide Times;
    TimesIsProduct(interval, if maxRuns == 0 then 1 else maxRuns);
  }

  /** With the suggested deadline, a series completes exactly when all its runs settle and its total lateness
      is at most one interval plus a quarter of the scheduled span, or a day where that is more, however the
      lateness is spread over the runs. */
  lemma SuggestedDeadlineIsExact(now: nat, interval: nat, floor: Floor, lateness: seq<nat>, fills: seq<Fill>)
    requires interval > 0 && lateness != [] && |fills| == |lateness|
    requires SuggestedDeadline(now, interval, |lateness|) < U64
    ensures var t := Terms(0, SuggestedDeadline(now, interval, |lateness|), interval, |lateness|, floor);
            var s := Run(t, Initial(now), Script(interval, lateness, fills));
            (s.runs == t.maxRuns && s.nonceUsed) <==>
            && (forall i :: 0 <= i < |fills| ==> Settles(floor, fills[i]))
            && var span := interval * |lateness|;
               Sum(lateness) <= interval + if span / 4 > 86400 then span / 4 else 86400
  {
    hide Run, Script, Settles;
    HeadroomExactly(now, interval, |lateness|);
    var t := Terms(0, SuggestedDeadline(now, interval, |lateness|), interval, |lateness|, floor);
    ScriptProgress(t, now, lateness, fills);
  }

  /** No submission in the events settles. */
  predicate NoneSettles(floor: Floor, events: seq<Event>) {
    forall i :: 0 <= i < |events| && events[i].Submit? ==> !Settles(floor, events[i].fill)
  }

  /** Then nothing ever executes, whatever else happens. */
  lemma {:induction false} UnsettledNeverRuns(t: Terms, s: State, events: seq<Event>)
    requires NoneSettles(t.floor, events)
    ensures Run(t, s, events).runs == s.runs && Run(t, s, events).log == s.log
  {
    hide Settles;
    if events != [] { UnsettledNeverRuns(t, s, events[..|events| - 1]); }
  }
}
