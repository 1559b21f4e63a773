/** Two independent readers of one standing authorization: the lifecycle view of `automation-status.ts`
    and the guardian's decision ladder of `guardian-server.ts`, up to its fee gate. */
module Observers {
  import opened Prelude
  import opened Fees
  import opened Triggers

  /** A parsed signed intent: the fields both observers read. */
  datatype Intent =
    | Recurring(validAfter: nat, deadline: nat, interval: nat, maxRuns: nat)
    | Trigger(validAfter: nat, deadline: nat, baseline: nat, thresholdBps: nat, above: bool)

  /** What the capsule answered; `None` is a failed read. */
  datatype ChainState = ChainState(nonceUsed: Option<bool>, series: Option<(nat, nat)>, price: Option<nat>)

  datatype Evidence = Evidence(revoked: bool, completed: bool)

  // ---- the lifecycle view --------------------------------------------------

  datatype Lifecycle =
    | Draft | Scheduled | Waiting | Due | Armed | Expired | Completed | Revoked | Consumed | Unavailable

  /** `nextRunAt`. */
  function NextRunAt(runs: nat, lastRun: nat, interval: nat, validAfter: nat): nat {
    if runs == 0 then validAfter else lastRun + interval
  }

  /** `deriveAutomationLifecycle`. */
  function DeriveLifecycle(intent: Option<Intent>, chain: Option<ChainState>, evidence: Evidence, now: nat): Lifecycle {
    if intent.None? then Draft
    else if evidence.revoked then Revoked
    else if evidence.completed then Completed
    else if chain.None? || chain.value.nonceUsed.None? then Unavailable
    else if chain.value.nonceUsed.value then Consumed
    else if now > intent.value.deadline then Expired
    else if now < intent.value.validAfter then Scheduled
    else match intent.value
      case Recurring(validAfter, _, interval, maxRuns) =>
        var series := chain.value.series;
        if series.Some? && series.value.0 >= maxRuns then Completed
        else if series.None? then Unavailable
        else if now >= NextRunAt(series.value.0, series.value.1, interval, validAfter) then Due
        else Waiting
      case Trigger(_, _, baseline, thresholdBps, above) =>
        if chain.value.price.None? then Unavailable
        else if !above && thresholdBps > BPS then Waiting
        else if Triggers.Armed(chain.value.price.value, baseline, thresholdBps, above) then Armed
        else Waiting
  }

  // ---- the guardian --------------------------------------------------------

  /** Where the guardian's ladder ends; `FeeGate` goes on to fees and the simulation. */
  datatype Verdict = Blocked | Finalized | ConsumedUnknown | Late | Early | FeeGate

  /** `deriveGuardianSnapshot` up to the fee gate. `receiptFinalized` says whether the latest verified
      receipt is a finalized one. */
  function Guardian(intent: Intent, chainIdMatches: bool, chain: ChainState, receiptFinalized: bool, now: nat): Verdict
  {
    if !chainIdMatches || chain.nonceUsed.None? then Blocked
    else if intent.Recurring? && chain.series.None? then Blocked
    else if chain.nonceUsed.value && intent.Recurring? then
      if chain.series.value.0 >= intent.maxRuns then Finalized else ConsumedUnknown
    else if chain.nonceUsed.value then
      if receiptFinalized then Finalized else ConsumedUnknown
    else if now > intent.deadline then Late
    else if now < intent.validAfter then Early
    else match intent
      case Recurring(_, _, interval, maxRuns) =>
        var (runs, lastRun) := chain.series.value;
        if runs >= maxRuns then Finalized
        else if runs > 0 && now < lastRun + interval then Early
        else FeeGate
      case Trigger(_, _, baseline, thresholdBps, above) =>
        if baseline == 0 || chain.price.None? then Blocked
        else if thresholdBps > MAX_THRESHOLD_BPS || (!above && thresholdBps >= BPS) then Blocked
        else if Triggers.Armed(chain.price.value, baseline, thresholdBps, above) then FeeGate
        else Early
  }

  // ---- agreement -----------------------------------------------------------

  /** Everything the two observers read could be read, on the right chain. */
  predicate Readable(intent: Intent, chain: ChainState) {
    chain.nonceUsed.Some? && (if intent.Recurring? then chain.series.Some? else chain.price.Some?)
  }

  /** The bounds `parseAutomationIntent` enforces. */
  predicate Parsed(intent: Intent) {
    match intent
    case Recurring(_, _, _, maxRuns) => 1 <= maxRuns <= 0xFFFF_FFFF
    case Trigger(_, _, _, thresholdBps, above) => 1 <= thresholdBps <= if above then 1000000 else 9999
  }

  predicate Corresponds(view: Lifecycle, verdict: Verdict) {
    && (view == Expired <==> verdict == Late)
    && (view == Completed <==> verdict == Finalized)
    && (view == Scheduled || view == Waiting <==> verdict == Early)
    && (view == Due || view == Armed <==> verdict == FeeGate)
  }

  /** On every readable, parsed, unspent authorization the two observers say the same thing, except for a
      trigger signed with a zero baseline inside its window, which the guardian blocks and the view
      reports as watching or armed. */
  lemma ObserversAgreeExactly(intent: Intent, chain: ChainState, receiptFinalized: bool, now: nat)
    requires Readable(intent, chain) && Parsed(intent) && chain.nonceUsed == Some(false)
    ensures var view := DeriveLifecycle(Some(intent), Some(chain), Evidence(false, false), now);
            var verdict := Guardian(intent, true, chain, receiptFinalized, now);
            Corresponds(view, verdict) <==>
            !(intent.Trigger? && intent.baseline == 0 && intent.validAfter <= now <= intent.deadline)
  {
  }

  /** In that exceptional case the view goes as far as "armed" exactly for a rise, or a price of zero. */
  lemma ZeroBaselineDisagreement(intent: Intent, chain: ChainState, receiptFinalized: bool, now: nat)
    requires Readable(intent, chain) && Parsed(intent) && chain.nonceUsed == Some(false)
    requires intent.Trigger? && intent.baseline == 0 && intent.validAfter <= now <= intent.deadline
    ensures Guardian(intent, true, chain, receiptFinalized, now) == Blocked
    ensures DeriveLifecycle(Some(intent), Some(chain), Evidence(false, false), now) == Armed <==>
            intent.above || chain.price.value == 0
  {
  }

  /** A spent authorization is terminal for both, whatever the clock: the view says revoked or completed on
      evidence and consumed without it, the guardian finalized when the runs are full or a finalized receipt
      is at hand. */
  lemma SpentIsTerminal(intent: Intent, chain: ChainState, evidence: Evidence, receiptFinalized: bool, now: nat)
    requires Readable(intent, chain) && chain.nonceUsed == Some(true)
    ensures DeriveLifecycle(Some(intent), Some(chain), evidence, now)
            == if evidence.revoked then Revoked else if evidence.completed then Completed else Consumed
    ensures Guardian(intent, true, chain, receiptFinalized, now)
            == if intent.Recurring? && chain.series.value.0 >= intent.maxRuns then Finalized
               else if intent.Trigger? && receiptFinalized then Finalized
               else ConsumedUnknown
  {
  }

  /** Evidence speaks first and a failed read never reads as runnable: without the spent flag, or without the
      series or price of an authorization inside its window, the view says unavailable and the guardian
      blocks. On the wrong chain the guardian blocks whatever was read. */
  lemma FailedReadsFailClosed(intent: Intent, chain: ChainState, evidence: Evidence, receiptFinalized: bool, now: nat)
    ensures DeriveLifecycle(None, Some(chain), evidence, now) == Draft
    ensures evidence.revoked ==> DeriveLifecycle(Some(intent), Some(chain), evidence, now) == Revoked
    ensures !evidence.revoked && evidence.completed ==>
              DeriveLifecycle(Some(intent), Some(chain), evidence, now) == Completed
    ensures !evidence.revoked && !evidence.completed ==>
              DeriveLifecycle(Some(intent), None, evidence, now) == Unavailable
    ensures !evidence.revoked && !evidence.completed && chain.nonceUsed.None? ==>
              DeriveLifecycle(Some(intent), Some(chain), evidence, now) == Unavailable
    ensures !evidence.revoked && !evidence.completed && chain.nonceUsed == Some(false)
            && intent.validAfter <= now <= intent.deadline && !Readable(intent, chain) ==>
              DeriveLifecycle(Some(intent), Some(chain), evidence, now) == Unavailable
    ensures chain.nonceUsed.None? || (intent.Recurring? && chain.series.None?) ==>
              Guardian(intent, true, chain, receiptFinalized, now) == Blocked
    ensures intent.Trigger? && chain.price.None? && chain.nonceUsed == Some(false)
            && intent.validAfter <= now <= intent.deadline ==>
              Guardian(intent, true, chain, receiptFinalized, now) == Blocked
    ensures Guardian(intent, false, chain, receiptFinalized, now) == Blocked
  {
  }
}
