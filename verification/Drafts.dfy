/** The intents the Automate form signs from a design (`automate.ts`), and how the series drafted from a
    designed schedule plays out on the capsule. */
module Drafts {
  import opened Prelude
  import opened ExecutionPolicy
  import opened Automation
  import opened Blocks
  import opened Settlement
  import S = Series
  import T = Triggers

  const MAX_EXECUTION_GAS := 3000000
  const MAX_EXECUTION_FEE_PER_GAS := 10000000000

  /** The computed fields of a drafted intent; the others are copied from the input. */
  datatype Draft = Draft(deadline: nat, interval: nat, maxRuns: int, maxGas: int, maxFeePerGas: int,
                         maxSlippageBps: int)

  /** `executionBound`; `None` is its exception. */
  function ExecutionBound(value: Option<int>, maximum: int): Option<int> {
    var resolved := value.GetOr(maximum);
    if resolved <= 0 || resolved > maximum then None else Some(resolved)
  }

  function Max(a: int, b: int): int {
    if a < b then b else a
  }

  /** `draftRecurringRelativeIntent`; `None` is one of its exceptions. A zero `validDays` counts as absent. */
  function DraftRecurring(now: nat, interval: nat, maxRuns: int, validDays: Option<int>, maxGas: Option<int>,
                          maxFeePerGas: Option<int>, slippageBps: int): Option<Draft> {
    var gas, fee := ExecutionBound(maxGas, MAX_EXECUTION_GAS), ExecutionBound(maxFeePerGas, MAX_EXECUTION_FEE_PER_GAS);
    var dated := validDays.GetOr(0) != 0;
    var explicit := now + Max(validDays.GetOr(0), 1) * DAY;
    if dated && explicit < now + S.Times(interval, Max(maxRuns - 1, 0)) then None
    else if gas.None? || fee.None? then None
    else Some(Draft(if dated then explicit else S.SuggestedDeadline(now, interval, Max(maxRuns, 0)), interval, maxRuns,
                    gas.value, fee.value, Max(if slippageBps > 9999 then 9999 else slippageBps, 1)))
  }

  /** A series drafts exactly when its gas and fee bounds are positive and within the limits, and a stated
      window, of a day at least, lasts past the last scheduled run; the tolerance is kept between 1 and 9999. */
  lemma DraftedExactly(now: nat, interval: nat, maxRuns: nat, validDays: Option<nat>, maxGas: int, maxFeePerGas: int,
                       slippageBps: int, d: Draft)
    requires maxRuns > 0
    ensures DraftRecurring(now, interval, maxRuns, validDays, Some(maxGas), Some(maxFeePerGas), slippageBps) == Some(d)
            <==>
            && 0 < maxGas == d.maxGas <= 3000000 && 0 < maxFeePerGas == d.maxFeePerGas <= 10000000000
            && d.interval == interval && d.maxRuns == maxRuns
            && (if validDays.Some? && validDays.value > 0 then
                  d.deadline == now + validDays.value * 86400 >= now + interval * (maxRuns - 1)
                else
                  var span := interval * maxRuns;
                  d.deadline == now + span + if span / 4 > 86400 then span / 4 else 86400)
            && d.maxSlippageBps == if slippageBps < 1 then 1 else if slippageBps > 9999 then 9999 else slippageBps
    ensures DraftRecurring(now, interval, maxRuns, validDays, None, None, slippageBps)
            == DraftRecurring(now, interval, maxRuns, validDays, Some(3000000), Some(10000000000), slippageBps)
  {
    hide S.SuggestedDeadline, S.Times, S.Headroom;
    S.HeadroomExactly(now, interval, maxRuns);
    S.TimesIsProduct(interval, maxRuns - 1);
  }

  function WeiOf(policy: Policy): int {
    policy.maxFeePerGasGwei * 1000000000
  }

  /** What the form drafts for a preset it has read. */
  function DraftPreset(p: Preset, now: nat): Option<Draft> {
    var seconds := IntervalSeconds(p.intervalId);
    if seconds.None? then None
    else DraftRecurring(now, seconds.value, p.maxRuns, p.validDays, Some(p.executionPolicy.maxGas),
                        Some(WeiOf(p.executionPolicy)), p.slippageBps)
  }

  function LastScheduledRun(now: nat, draft: Draft): nat {
    now + S.Times(draft.interval, Max(draft.maxRuns - 1, 0))
  }

  /** A recurring design never makes the draft throw: its deadline covers the last scheduled run, its gas
      and fee bounds are legal and are the designed ones, and its slippage is signed as designed. */
  lemma DesignedSeriesDrafts(d: Design, automationRoutes: seq<string>, now: nat)
    requires LegalDesign(d, automationRoutes) && d.mode.Recurring?
    ensures DraftPreset(Intended(d), now).Some?
    ensures var draft := DraftPreset(Intended(d), now).value;
            && draft.deadline >= LastScheduledRun(now, draft)
            && (d.mode.intervalId, draft.interval) in {("daily", 86400), ("weekly", 604800), ("monthly", 2592000)}
            && draft.maxRuns == d.mode.maxRuns
            && 0 < draft.maxGas == d.executionPolicy.maxGas <= MAX_EXECUTION_GAS
            && 0 < draft.maxFeePerGas == d.executionPolicy.maxFeePerGasGwei * 1000000000 <= MAX_EXECUTION_FEE_PER_GAS
            && draft.maxSlippageBps == d.slippageBps
            && (d.mode.window.Some? ==> draft.deadline == now + d.mode.window.value * 86400)
            && (d.mode.window.None? ==>
                  var span := draft.interval * draft.maxRuns;
                  draft.deadline == now + span + if span / 4 > 86400 then span / 4 else 86400)
  {
    hide S.SuggestedDeadline, S.Times, S.Headroom, IsHandoffAmount;
    CadenceIsOffered(d.mode.intervalId);
    var seconds := CadenceSeconds(d.mode.intervalId).value;
    S.HeadroomExactly(now, seconds, d.mode.maxRuns);
    S.TimesIsProduct(seconds, d.mode.maxRuns - 1);
    SuggestedIsLate(now, seconds, d.mode.maxRuns);
  }

  lemma CadenceIsOffered(id: string)
    requires CadenceSeconds(id).Some?
    ensures IntervalSeconds(id) == CadenceSeconds(id) && CadenceSeconds(id).value > 0
  {
  }

  lemma SuggestedIsLate(now: nat, interval: nat, maxRuns: nat)
    requires maxRuns >= 1
    ensures S.SuggestedDeadline(now, interval, maxRuns) >= now + S.Times(interval, maxRuns - 1) + interval + 86400
  {
  }

  // ---- the drafted series on the capsule -----------------------------------

  predicate Signable(draft: Draft) {
    draft.maxRuns >= 0 && draft.maxSlippageBps >= 0
  }

  /** What the owner signs; `outIsC1` says which side of the pool the route buys. */
  function SignedTerms(draft: Draft, outIsC1: bool): S.Terms
    requires Signable(draft)
  {
    S.Terms(0, draft.deadline, draft.interval, draft.maxRuns, Relative(outIsC1, draft.maxSlippageBps))
  }

  /** One submission per run, each some seconds late and with its own fill, executes every run. */
  ghost predicate Completes(draft: Draft, outIsC1: bool, now: nat, lateness: seq<nat>, fills: seq<Fill>)
    requires Signable(draft) && |fills| == |lateness|
  {
    var s := S.Run(SignedTerms(draft, outIsC1), S.Initial(now), S.Script(draft.interval, lateness, fills));
    s.runs == draft.maxRuns && s.nonceUsed
  }

  /** The drafted series completes exactly when the lateness adds up to no more than what the deadline leaves
      after the last scheduled run, and every run clears the signed band. */
  lemma DesignedSeriesCompletes(d: Design, automationRoutes: seq<string>, now: nat, outIsC1: bool, lateness: seq<nat>,
                                fills: seq<Fill>)
    requires LegalDesign(d, automationRoutes) && d.mode.Recurring? && |fills| == |lateness| == d.mode.maxRuns
    requires DraftPreset(Intended(d), now).Some? && DraftPreset(Intended(d), now).value.deadline < S.U64
    ensures var draft := DraftPreset(Intended(d), now).value;
            && Signable(draft)
            && (Completes(draft, outIsC1, now, lateness, fills) <==>
                S.Sum(lateness) <= draft.deadline - LastScheduledRun(now, draft)
                && S.AllSettle(Relative(outIsC1, d.slippageBps), fills))
  {
    hide DraftPreset, S.Times, S.Run, S.Script, IsHandoffAmount, S.AllSettle;
    DesignedSeriesDrafts(d, automationRoutes, now);
    CadenceIsOffered(d.mode.intervalId);
    var draft := DraftPreset(Intended(d), now).value;
    S.ScriptProgress(SignedTerms(draft, outIsC1), now, lateness, fills);
  }

  function OnTime(runs: nat): (lateness: seq<nat>)
    ensures |lateness| == runs
  {
    seq(runs, i => 0)
  }

  predicate AllAtSpot(fills: seq<Fill>, outIsC1: bool) {
    forall i :: 0 <= i < |fills| ==> AtSpot(fills[i], outIsC1)
  }

  /** No submission finds more than spot less three units. */
  predicate AllUnderSpot(events: seq<S.Event>, outIsC1: bool) {
    forall i :: 0 <= i < |events| && events[i].Submit? ==> UnderSpot(events[i].fill, outIsC1)
  }

  /** Whatever happens, as long as outputs stay three units under spot, no run executes. */
  ghost predicate NeverRuns(draft: Draft, outIsC1: bool, now: nat)
    requires Signable(draft)
  {
    forall events | AllUnderSpot(events, outIsC1) ::
      S.Run(SignedTerms(draft, outIsC1), S.Initial(now), events).log == []
  }

  /** Some course of events under spot executes every run. */
  ghost predicate CanComplete(draft: Draft, outIsC1: bool, now: nat)
    requires Signable(draft)
  {
    exists events | AllUnderSpot(events, outIsC1) ::
      var s := S.Run(SignedTerms(draft, outIsC1), S.Initial(now), events);
      s.runs == |s.log| == draft.maxRuns && s.nonceUsed
  }

  /** Every on-time series at full spot completes. */
  ghost predicate CompletesAtSpot(draft: Draft, outIsC1: bool, now: nat)
    requires Signable(draft)
  {
    forall fills | |fills| == draft.maxRuns && AllAtSpot(fills, outIsC1) ::
      Completes(draft, outIsC1, now, OnTime(draft.maxRuns), fills)
  }

  /** A fixed fill at every run settles a series exactly when it settles one. */
  lemma EverySame(floor: Floor, fill: Fill, runs: nat)
    requires runs > 0
    ensures S.AllSettle(floor, seq(runs, i => fill)) <==> Settles(floor, fill)
  {
    hide Settles;
    var fills := seq(runs, i => fill);
    assert fills[0] == fill;
  }

  /** At full spot and on time, a designed series completes exactly from 100 bps on. */
  lemma SpotSeriesComplete(d: Design, automationRoutes: seq<string>, now: nat, outIsC1: bool)
    requires LegalDesign(d, automationRoutes) && d.mode.Recurring? && now < 0x1_0000_0000_0000
    ensures DraftPreset(Intended(d), now).Some? && Signable(DraftPreset(Intended(d), now).value)
    ensures CompletesAtSpot(DraftPreset(Intended(d), now).value, outIsC1, now) <==> d.slippageBps >= 100
  {
    hide DraftPreset, S.Times, IsHandoffAmount, S.AllSettle, Completes, Settles, AtSpot, LegalMode, LastScheduledRun;
    DesignedSeriesDrafts(d, automationRoutes, now);
    DeadlineFits(d, automationRoutes, now);
    RunsAtLeastOnce(d, automationRoutes);
    var draft, n := DraftPreset(Intended(d), now).value, d.mode.maxRuns;
    var floor := Relative(outIsC1, d.slippageBps);
    SumOfZeros(OnTime(n));
    SpotSettlesExactly(outIsC1, d.slippageBps);
    if d.slippageBps >= 100 {
      forall fills | |fills| == n && AllAtSpot(fills, outIsC1)
        ensures Completes(draft, outIsC1, now, OnTime(n), fills)
      {
        AllSpotSettle(floor, fills, outIsC1);
        DesignedSeriesCompletes(d, automationRoutes, now, outIsC1, OnTime(n), fills);
      }
    } else {
      var fill :| AtSpot(fill, outIsC1) && !Settles(floor, fill);
      var fills := seq(n, i => fill);
      EverySame(floor, fill, n);
      DesignedSeriesCompletes(d, automationRoutes, now, outIsC1, OnTime(n), fills);
      assert AllAtSpot(fills, outIsC1);
    }
  }

  lemma RunsAtLeastOnce(d: Design, automationRoutes: seq<string>)
    requires LegalDesign(d, automationRoutes) && d.mode.Recurring?
    ensures 1 <= d.mode.maxRuns <= 100
  {
  }

  lemma AllSpotSettle(floor: Floor, fills: seq<Fill>, outIsC1: bool)
    requires AllAtSpot(fills, outIsC1) && forall fill | AtSpot(fill, outIsC1) :: Settles(floor, fill)
    ensures S.AllSettle(floor, fills)
  {
    hide Settles, AtSpot;
  }

  /** Under spot, a designed series never executes a run if its band is at most 100 bps, whatever happens, and
      can complete if it is wider. */
  lemma UnderSpotSeries(d: Design, automationRoutes: seq<string>, now: nat, outIsC1: bool)
    requires LegalDesign(d, automationRoutes) && d.mode.Recurring? && now < 0x1_0000_0000_0000
    ensures DraftPreset(Intended(d), now).Some? && Signable(DraftPreset(Intended(d), now).value)
    ensures var draft := DraftPreset(Intended(d), now).value;
            && (NeverRuns(draft, outIsC1, now) <==> d.slippageBps <= 100)
            && (CanComplete(draft, outIsC1, now) <==> d.slippageBps > 100)
  {
    hide DraftPreset, S.Times, IsHandoffAmount, LegalMode, S.Run, AllUnderSpot, Completes;
    DesignedSeriesDrafts(d, automationRoutes, now);
    RunsAtLeastOnce(d, automationRoutes);
    var draft := DraftPreset(Intended(d), now).value;
    var t := SignedTerms(draft, outIsC1);
    if d.slippageBps <= 100 {
      forall events | AllUnderSpot(events, outIsC1)
        ensures S.Run(t, S.Initial(now), events).log == [] && S.Run(t, S.Initial(now), events).runs == 0
      {
        TightNoneSettles(outIsC1, d.slippageBps, events);
        S.UnsettledNeverRuns(t, S.Initial(now), events);
      }
    } else {
      var events := WideSeriesCompletes(d, automationRoutes, now, outIsC1);
      assert S.Run(t, S.Initial(now), events).log != [];
    }
  }

  lemma TightNoneSettles(outIsC1: bool, slip: nat, events: seq<S.Event>)
    requires slip <= 100 && AllUnderSpot(events, outIsC1)
    ensures S.NoneSettles(Relative(outIsC1, slip), events)
  {
    hide Settles, UnderSpot;
    forall i | 0 <= i < |events| && events[i].Submit? ensures !Settles(Relative(outIsC1, slip), events[i].fill) {
      TightNeverSettles(outIsC1, slip, events[i].fill);
    }
  }

  /** On time with an ordinary fill at every run. */
  lemma WideSeriesCompletes(d: Design, automationRoutes: seq<string>, now: nat, outIsC1: bool)
    returns (events: seq<S.Event>)
    requires LegalDesign(d, automationRoutes) && d.mode.Recurring? && now < 0x1_0000_0000_0000
    requires d.slippageBps > 100 && DraftPreset(Intended(d), now).Some?
    ensures Signable(DraftPreset(Intended(d), now).value) && AllUnderSpot(events, outIsC1)
    ensures var draft := DraftPreset(Intended(d), now).value;
            var s := S.Run(SignedTerms(draft, outIsC1), S.Initial(now), events);
            s.runs == |s.log| == draft.maxRuns && s.nonceUsed
  {
    hide DraftPreset, S.Times, IsHandoffAmount, LegalMode, S.Run, S.Script, AllUnderSpot, S.AllSettle, Settles,
         UnderSpot, Ordinary, LastScheduledRun;
    DesignedSeriesDrafts(d, automationRoutes, now);
    DeadlineFits(d, automationRoutes, now);
    RunsAtLeastOnce(d, automationRoutes);
    var draft, n := DraftPreset(Intended(d), now).value, d.mode.maxRuns;
    var fills := seq(n, i => Ordinary());
    OrdinarySettles(outIsC1, d.slippageBps);
    EverySame(Relative(outIsC1, d.slippageBps), Ordinary(), n);
    SumOfZeros(OnTime(n));
    DesignedSeriesCompletes(d, automationRoutes, now, outIsC1, OnTime(n), fills);
    events := S.Script(draft.interval, OnTime(n), fills);
    ScriptUnderSpot(draft.interval, OnTime(n), fills, outIsC1);
    S.LogCounts(SignedTerms(draft, outIsC1), now, events);
  }

  lemma {:induction false} ScriptUnderSpot(interval: nat, lateness: seq<nat>, fills: seq<Fill>, outIsC1: bool)
    requires |fills| == |lateness| && forall i :: 0 <= i < |fills| ==> UnderSpot(fills[i], outIsC1)
    ensures AllUnderSpot(S.Script(interval, lateness, fills), outIsC1)
  {
    hide UnderSpot;
    if lateness != [] {
      var k := |lateness| - 1;
      ScriptUnderSpot(interval, lateness[..k], fills[..k], outIsC1);
    }
  }

  /** From the canvas to the capsule. Every recurring chain the builder accepts reads back into a form whose
      draft succeeds with the designed bounds. Its runs complete at full spot exactly when the drawing places
      no cap or its tightest is at least 95 bps; and under spot they can complete exactly when it places a cap
      and the tightest is at least 105 bps, any other drawing never executing a run at all. */
  lemma RecurringDesignRuns(site: Site, chain: Chain, now: nat, outIsC1: bool)
    requires ReadsIntegers(site.env.rt) && ReadsPositives(site.env.rt)
    requires DesignOf(site, chain).Some? && DesignOf(site, chain).value.mode.Recurring?
    requires now < 0x1_0000_0000_0000
    ensures var d := DesignOf(site, chain).value;
            Shown(d) && Read(site.env.rt, site.automationRoutes, Query(d)) == Some(Intended(d))
    ensures var drafted := DraftPreset(Intended(DesignOf(site, chain).value), now);
            drafted.Some? && Signable(drafted.value)
    ensures var draft := DraftPreset(Intended(DesignOf(site, chain).value), now).value;
            && (CompletesAtSpot(draft, outIsC1, now) <==> DrawsTheFee(site.env.rt, chain))
            && (CanComplete(draft, outIsC1, now) <==> DrawsAWideBand(site.env.rt, chain))
            && (NeverRuns(draft, outIsC1, now) <==> !DrawsAWideBand(site.env.rt, chain))
  {
    hide DesignOf, Read, Query, Shown, DraftPreset, ReadsIntegers, ReadsPositives, CompletesAtSpot, CanComplete,
         NeverRuns, DrawsTheFee, DrawsAWideBand, LegalDesign, Intended, Signable;
    var d := DesignOf(site, chain).value;
    BuilderToForm(site, chain);
    DesignsAreLegal(site, chain);
    DesignedBand(site, chain);
    SpotSeriesComplete(d, site.automationRoutes, now, outIsC1);
    UnderSpotSeries(d, site.automationRoutes, now, outIsC1);
  }

  lemma {:induction false} SumOfZeros(s: seq<nat>)
    requires forall i :: 0 <= i < |s| ==> s[i] == 0
    ensures S.Sum(s) == 0
  {
    if s != [] { SumOfZeros(s[..|s| - 1]); }
  }

  lemma DeadlineFits(d: Design, automationRoutes: seq<string>, now: nat)
    requires LegalDesign(d, automationRoutes) && d.mode.Recurring? && now < 0x1_0000_0000_0000
    requires DraftPreset(Intended(d), now).Some?
    ensures DraftPreset(Intended(d), now).value.deadline < S.U64
  {
    hide S.Times, IsHandoffAmount;
    CadenceIsOffered(d.mode.intervalId);
    var seconds, runs := CadenceSeconds(d.mode.intervalId).value, d.mode.maxRuns;
    S.TimesIsProduct(seconds, runs);
    assert seconds * runs <= 2592000 * 100;
  }

  // ---- trigger designs -----------------------------------------------------

  datatype Move = Move(bps: int, rises: bool)

  /** `THRESHOLD_PRESETS`: the move of the market token the user chose. */
  function ThresholdMove(id: string): Option<Move> {
    match id
    case "up5" => Some(Move(500, true))
    case "up10" => Some(Move(1000, true))
    case "up25" => Some(Move(2500, true))
    case "down5" => Some(Move(500, false))
    case "down10" => Some(Move(1000, false))
    case "down25" => Some(Move(2500, false))
    case _ => None
  }

  datatype TriggerDraft = TriggerDraft(deadline: nat, condition: T.Condition, maxGas: int, maxFeePerGas: int)

  /** What the form drafts for a trigger preset: `draftTriggerIntent` on the converted move. */
  function DraftTrigger(p: Preset, now: nat): Option<TriggerDraft> {
    var move := ThresholdMove(p.thresholdId);
    var gas := ExecutionBound(Some(p.executionPolicy.maxGas), MAX_EXECUTION_GAS);
    var fee := ExecutionBound(Some(WeiOf(p.executionPolicy)), MAX_EXECUTION_FEE_PER_GAS);
    if move.None? || gas.None? || fee.None? then None
    else
      var condition := T.FeedCondition(move.value.bps, move.value.rises);
      if condition.None? then None
      else Some(TriggerDraft(now + Max(p.validDays.GetOr(0), 1) * DAY, condition.value, gas.value, fee.value))
  }

  /** A trigger drafts exactly on one of the six offered moves, with gas and fee bounds that are positive and
      within the limits; it expires after the window's days, one at least. */
  lemma TriggerDraftedExactly(p: Preset, now: nat, d: TriggerDraft)
    ensures DraftTrigger(p, now) == Some(d) <==>
            var days := p.validDays.GetOr(0);
            && d.deadline == now + (if days < 1 then 1 else days) * 86400
            && 0 < p.executionPolicy.maxGas == d.maxGas <= 3000000
            && 0 < p.executionPolicy.maxFeePerGasGwei <= 10
            && d.maxFeePerGas == p.executionPolicy.maxFeePerGasGwei * 1000000000
            && exists bps, rises :: (p.thresholdId, bps, rises) in OfferedMoves()
                                    && T.FeedCondition(bps, rises) == Some(d.condition)
  {
    hide T.FeedCondition;
    MoveIsOffered(p.thresholdId);
    var move := ThresholdMove(p.thresholdId);
    if move.Some? { MoveConverts(move.value.bps, move.value.rises); }
  }

  lemma MoveIsOffered(id: string)
    ensures forall bps, rises :: (id, bps, rises) in OfferedMoves() <==> ThresholdMove(id) == Some(Move(bps, rises))
    ensures ThresholdMove(id).Some? ==> 0 < ThresholdMove(id).value.bps < 10000
  {
  }

  /** The feed is on the side of the token's move and no more than half a basis point of the baseline (and,
      for a fall, one unit) short of its exact level, baseline * 10000 / (10000 +- bps). */
  ghost predicate MayArm(move: Move, price: nat, baseline: nat) {
    if move.rises then
      price < baseline
      && 20000 * (price * (10000 + move.bps)) <= 200000000 * baseline + baseline * (10000 + move.bps)
    else
      price >= baseline
      && 20000 * ((price + 1) * (10000 - move.bps)) >= 200000000 * baseline - baseline * (10000 - move.bps)
  }

  /** The feed is at least half a basis point of the baseline past that level. */
  ghost predicate MustArm(move: Move, price: nat, baseline: nat) {
    if move.rises then 20000 * (price * (10000 + move.bps)) <= 200000000 * baseline - baseline * (10000 + move.bps)
    else 20000 * (price * (10000 - move.bps)) >= 200000000 * baseline + baseline * (10000 - move.bps)
  }

  /** The six offered moves of the token price, in basis points, and whether it rises. */
  ghost function OfferedMoves(): set<(string, int, bool)> {
    {("up5", 500, true), ("up10", 1000, true), ("up25", 2500, true),
     ("down5", 500, false), ("down10", 1000, false), ("down25", 2500, false)}
  }

  /** A trigger design always drafts: it expires on the designed day, its threshold is one the capsule
      accepts, and it arms on the side of the feed opposite to the token's chosen move, at its level. */
  lemma TriggerDesignDrafts(d: Design, automationRoutes: seq<string>, now: nat, price: nat, baseline: nat)
    requires LegalDesign(d, automationRoutes) && d.mode.Trigger? && baseline > 0
    ensures ThresholdMove(d.mode.thresholdId).Some? && DraftTrigger(Intended(d), now).Some?
    ensures var move, draft := ThresholdMove(d.mode.thresholdId).value, DraftTrigger(Intended(d), now).value;
            && (d.mode.thresholdId, move.bps, move.rises) in OfferedMoves()
            && draft.deadline == now + d.mode.days * 86400 && T.LegalThreshold(draft.condition)
            && 0 < draft.maxGas == d.executionPolicy.maxGas <= MAX_EXECUTION_GAS
            && 0 < draft.maxFeePerGas == d.executionPolicy.maxFeePerGasGwei * 1000000000 <= MAX_EXECUTION_FEE_PER_GAS
            && draft.condition.above == !move.rises
            && (T.Armed(price, baseline, draft.condition.thresholdBps, draft.condition.above) ==>
                MayArm(move, price, baseline))
            && (MustArm(move, price, baseline) ==>
                T.Armed(price, baseline, draft.condition.thresholdBps, draft.condition.above))
  {
    hide IsHandoffAmount, T.FeedCondition, T.LegalThreshold, T.Armed;
    var move := ThresholdMove(d.mode.thresholdId).value;
    MoveConverts(move.bps, move.rises);
    if move.rises {
      T.RisesLegalExactly(move.bps);
      T.RiseFires(price, baseline, move.bps);
    } else {
      T.FallsLegalExactly(move.bps);
      T.FallFires(price, baseline, move.bps);
    }
  }

  lemma MoveConverts(bps: int, rises: bool)
    requires 0 < bps < 10000
    ensures T.FeedCondition(bps, rises).Some?
  {
  }

  /** From the canvas to the trigger: every accepted trigger chain reads back into a form whose draft succeeds. */
  lemma TriggerDesignRuns(site: Site, chain: Chain, now: nat)
    requires ReadsIntegers(site.env.rt) && ReadsPositives(site.env.rt)
    requires DesignOf(site, chain).Some? && DesignOf(site, chain).value.mode.Trigger?
    ensures var d := DesignOf(site, chain).value;
            Shown(d) && Read(site.env.rt, site.automationRoutes, Query(d)) == Some(Intended(d))
    ensures DraftTrigger(Intended(DesignOf(site, chain).value), now).Some?
  {
    hide DesignOf, Read, Query, Shown, DraftTrigger, ReadsIntegers, ReadsPositives, T.LegalThreshold, T.Armed;
    BuilderToForm(site, chain);
    DesignsAreLegal(site, chain);
    TriggerDesignDrafts(DesignOf(site, chain).value, site.automationRoutes, now, 1, 1);
  }
}
