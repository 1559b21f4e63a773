/** A one-shot run of the capsule: `OpenZap._executeFrozen` after the intent is authorized, with its
    allowlists, the Permit2 consumption check, the relayer's fee and the signed minimum. */
module OneShot {
  import opened PlanToken
  import opened Routes
  import opened LivePolicy
  import opened Execution

  /** The signed fields a run reads. */
  datatype Intent = Intent(outAsset: Address, minOut: nat, maxRelayerFee: nat, relayer: Address)

  /** The adapter and token allowlists at the moment of the run. */
  datatype Registry = Registry(adapters: set<Address>, tokens: set<Address>)

  /** Where step one's input came from: an earlier deposit, or a Permit2 pull in the same transaction. */
  datatype Funding = Deposited | Pulled(token: Address, before: int)

  predicate Permitted(registry: Registry, steps: seq<PolicyStep>, outputs: seq<Output>, k: nat)
    requires k < |steps| == |outputs|
  {
    steps[k].adapter in registry.adapters && outputs[k].token != 0 && outputs[k].token in registry.tokens
  }

  /** A pulled token may not end above its balance before the pull. */
  predicate Consumed(funding: Funding, final: Ledger) {
    funding.Pulled? && funding.token != 0 ==> Balance(final, funding.token) <= funding.before
  }

  /** The relayer's cut of a measured output. */
  function RelayerFee(intent: Intent, out: nat): (fee: nat)
    ensures fee <= out && fee <= intent.maxRelayerFee
  {
    if intent.maxRelayerFee == 0 || intent.relayer == 0 then 0
    else if intent.maxRelayerFee > out then out else intent.maxRelayerFee
  }

  function Measured(steps: seq<PolicyStep>, outputs: seq<Output>, start: Ledger, asset: Address): int
    requires |steps| == |outputs|
  {
    Balance(After(steps, outputs, start, |steps|), asset) - Balance(start, asset)
  }

  predicate MeetsMinimum(intent: Intent, out: int) {
    out >= 0 && out - RelayerFee(intent, out) >= intent.minOut
  }

  /** Everything a run checks. */
  predicate Succeeds(registry: Registry, intent: Intent, funding: Funding, steps: seq<PolicyStep>,
                     outputs: seq<Output>, start: Ledger)
    requires |outputs| == |steps|
  {
    && (forall k :: 0 <= k < |steps| ==> Proceeds(steps, outputs, start, k) && Permitted(registry, steps, outputs, k))
    && Consumed(funding, After(steps, outputs, start, |steps|))
    && MeetsMinimum(intent, Measured(steps, outputs, start, intent.outAsset))
  }

  /** The same, on the registry's sets, the signed fields and the ledgers: every step is affordable, its
      adapter is allowlisted and reported at least the floor it was asked for, in an allowlisted token; a
      pulled token is consumed; and the measured output, less what a named relayer takes, is the minimum. */
  lemma SucceedsExactly(registry: Registry, intent: Intent, funding: Funding, steps: seq<PolicyStep>,
                        outputs: seq<Output>, start: Ledger)
    requires |outputs| == |steps|
    ensures var final := After(steps, outputs, start, |steps|);
            var out := Balance(final, intent.outAsset) - Balance(start, intent.outAsset);
            var named := intent.maxRelayerFee != 0 && intent.relayer != 0;
            Succeeds(registry, intent, funding, steps, outputs, start) <==>
            && (forall k :: 0 <= k < |steps| ==>
                  && Balance(After(steps, outputs, start, k), steps[k].tokenIn) >= steps[k].amountIn
                  && steps[k].adapter in registry.adapters
                  && outputs[k].amount > 0 && outputs[k].amount >= Minimum(steps[k].data)
                  && outputs[k].token != 0 && outputs[k].token in registry.tokens)
            && (funding.Pulled? && funding.token != 0 ==> Balance(final, funding.token) <= funding.before)
            && out >= 0
            && (!named ==> out >= intent.minOut)
            && (named && intent.maxRelayerFee <= out ==> out >= intent.minOut + intent.maxRelayerFee)
            && (named && intent.maxRelayerFee > out ==> intent.minOut == 0)
  {
    hide After, Balance, RelayerFee;
    var out := Measured(steps, outputs, start, intent.outAsset);
    if out >= 0 { RelayerIsPaid(intent, out); }
    forall k | 0 <= k < |steps|
      ensures Proceeds(steps, outputs, start, k) && Permitted(registry, steps, outputs, k) <==>
              && Balance(After(steps, outputs, start, k), steps[k].tokenIn) >= steps[k].amountIn
              && steps[k].adapter in registry.adapters
              && outputs[k].amount > 0 && outputs[k].amount >= Minimum(steps[k].data)
              && outputs[k].token != 0 && outputs[k].token in registry.tokens
    {
    }
  }

  /** A named relayer is paid the smaller of the output and the signed fee; no one else is. */
  lemma RelayerIsPaid(intent: Intent, out: nat)
    ensures intent.maxRelayerFee != 0 && intent.relayer != 0 ==>
              RelayerFee(intent, out) == if out < intent.maxRelayerFee then out else intent.maxRelayerFee
    ensures intent.maxRelayerFee == 0 || intent.relayer == 0 ==> RelayerFee(intent, out) == 0
  {
  }

  /** One step through an adapter that is no longer allowlisted stops the whole run. */
  lemma DelistedAdapterStops(registry: Registry, intent: Intent, funding: Funding, steps: seq<PolicyStep>,
                             outputs: seq<Output>, start: Ledger, k: nat)
    requires |outputs| == |steps| && k < |steps| && steps[k].adapter !in registry.adapters
    ensures !Succeeds(registry, intent, funding, steps, outputs, start)
  {
    SucceedsExactly(registry, intent, funding, steps, outputs, start);
  }

  /** Walk the frozen steps, measure the settlement asset around the whole loop and pay all of it out, to
      the relayer and the recipient. A revert restores the starting ledger and pays nobody. */
  method Execute(registry: Registry, intent: Intent, funding: Funding, steps: seq<PolicyStep>, outputs: seq<Output>,
                 start: Ledger)
    returns (ok: bool, paid: int, fee: nat, ledger: Ledger)
    requires |outputs| == |steps|
    ensures ok <==> Succeeds(registry, intent, funding, steps, outputs, start)
    ensures ok ==> forall k :: 0 <= k < |steps| ==>
                     && steps[k].adapter in registry.adapters
                     && outputs[k].token != 0 && outputs[k].token in registry.tokens
                     && outputs[k].amount > 0 && outputs[k].amount >= Minimum(steps[k].data)
    ensures ok ==> paid + fee == Balance(After(steps, outputs, start, |steps|), intent.outAsset)
                                 - Balance(start, intent.outAsset)
    ensures ok ==> paid >= intent.minOut
    ensures ok ==> fee == if intent.maxRelayerFee == 0 || intent.relayer == 0 then 0
                          else if paid + fee < intent.maxRelayerFee then paid + fee else intent.maxRelayerFee
    ensures (exists k :: 0 <= k < |steps| && steps[k].adapter !in registry.adapters) ==> !ok && ledger == start
    ensures ok ==> forall t :: Balance(ledger, t) == if t == intent.outAsset then Balance(start, t)
                                                     else Balance(After(steps, outputs, start, |steps|), t)
    ensures !ok ==> ledger == start && paid == 0 && fee == 0
  {
    hide Step, After, Balance, RelayerFee, Succeeds, Minimum;
    SucceedsExactly(registry, intent, funding, steps, outputs, start);
    WalkStarts(steps, outputs, start);
    ledger := start;
    for k := 0 to |steps|
      invariant ledger == After(steps, outputs, start, k)
      invariant forall j :: 0 <= j < k ==>
                  && Balance(After(steps, outputs, start, j), steps[j].tokenIn) >= steps[j].amountIn
                  && steps[j].adapter in registry.adapters
                  && outputs[j].amount > 0 && outputs[j].amount >= Minimum(steps[j].data)
                  && outputs[j].token != 0 && outputs[j].token in registry.tokens
    {
      var step, output := steps[k], outputs[k];
      if step.adapter !in registry.adapters { return false, 0, 0, start; }
      if Balance(ledger, step.tokenIn) < step.amountIn || output.amount < Minimum(step.data) {
        return false, 0, 0, start;
      }
      if output.token == 0 || output.amount == 0 || output.token !in registry.tokens { return false, 0, 0, start; }
      WalkSteps(steps, outputs, start, k);
      ledger := Step(ledger, step, output);
    }
    if funding.Pulled? && funding.token != 0 && Balance(ledger, funding.token) > funding.before {
      return false, 0, 0, start;
    }
    var out := Balance(ledger, intent.outAsset) - Balance(start, intent.outAsset);
    if out < 0 { return false, 0, 0, start; }
    fee := RelayerFee(intent, out);
    RelayerIsPaid(intent, out);
    if out - fee < intent.minOut { return false, 0, 0, start; }
    ledger := Move(ledger, intent.outAsset, 0 - out);
    ok, paid := true, out - fee;
  }

  lemma WalkStarts(steps: seq<PolicyStep>, outputs: seq<Output>, start: Ledger)
    requires |outputs| == |steps|
    ensures After(steps, outputs, start, 0) == start
  {
  }

  lemma WalkSteps(steps: seq<PolicyStep>, outputs: seq<Output>, start: Ledger, k: nat)
    requires k < |steps| == |outputs|
    ensures After(steps, outputs, start, k + 1) == Step(After(steps, outputs, start, k), steps[k], outputs[k])
  {
    hide Step;
  }

  // ---- what is left in the capsule -----------------------------------------

  /** What boundary `i` delivered beyond what the next step spends. */
  function Surplus(steps: seq<PolicyStep>, outputs: seq<Output>, i: nat): int
    requires |outputs| == |steps| && i + 1 < |steps|
  {
    outputs[i].amount - steps[i + 1].amountIn
  }

  /** The surplus of the first `k` boundaries in one token. */
  function Stranded(steps: seq<PolicyStep>, outputs: seq<Output>, t: Address, k: nat): int
    requires |outputs| == |steps| && k < |steps|
  {
    if k == 0 then 0
    else Stranded(steps, outputs, t, k - 1) + if outputs[k - 1].token == t then Surplus(steps, outputs, k - 1) else 0
  }

  ghost predicate HandsOn(steps: seq<PolicyStep>, outputs: seq<Output>) {
    && |outputs| == |steps| > 0
    && forall i :: 0 <= i < |steps| - 1 ==> outputs[i].token == steps[i + 1].tokenIn
  }

  /** Just before step `k` the capsule holds its prior balances, what step `k` will pull, and the surplus
      stranded so far, exactly. */
  lemma {:induction false} BalanceExactly(steps: seq<PolicyStep>, outputs: seq<Output>, prior: Ledger, k: nat,
                                          t: Address)
    requires HandsOn(steps, outputs) && k < |steps|
    ensures Balance(After(steps, outputs, Funded(prior, steps), k), t)
            == Balance(prior, t) + Stranded(steps, outputs, t, k)
               + if t == steps[k].tokenIn then steps[k].amountIn else 0
  {
    if k > 0 { BalanceExactly(steps, outputs, prior, k - 1, t); }
  }

  lemma {:induction false} StrandedSign(steps: seq<PolicyStep>, outputs: seq<Output>, t: Address, k: nat)
    requires |outputs| == |steps| && k < |steps|
    requires forall i :: 0 <= i < |steps| - 1 ==> outputs[i].amount >= steps[i + 1].amountIn
    ensures Stranded(steps, outputs, t, k) >= 0
    ensures Stranded(steps, outputs, t, k) == 0 <==>
            forall i :: 0 <= i < k && outputs[i].token == t ==> outputs[i].amount == steps[i + 1].amountIn
  {
    if k > 0 { StrandedSign(steps, outputs, t, k - 1); }
  }

  /** No boundary delivers more of the token than its next step spends. */
  ghost predicate NothingStranded(steps: seq<PolicyStep>, outputs: seq<Output>, t: Address) {
    |outputs| == |steps|
    && forall i :: 0 <= i < |steps| - 1 && outputs[i].token == t ==> outputs[i].amount == steps[i + 1].amountIn
  }

  lemma FinalBalance(steps: seq<PolicyStep>, outputs: seq<Output>, prior: Ledger, t: Address)
    requires HandsOn(steps, outputs) && outputs[|steps| - 1].token != t
    requires forall i :: 0 <= i < |steps| - 1 ==> outputs[i].amount >= steps[i + 1].amountIn
    ensures Balance(After(steps, outputs, Funded(prior, steps), |steps|), t) <= Balance(prior, t) <==>
            NothingStranded(steps, outputs, t)
  {
    BalanceExactly(steps, outputs, prior, |steps| - 1, t);
    StrandedSign(steps, outputs, t, |steps| - 1);
  }

  lemma HandedOn(steps: seq<ResolvedStep>, policySteps: seq<PolicyStep>, outputs: seq<Output>, i: nat)
    requires Compiled(steps, policySteps) && Honours(steps, policySteps, outputs)
    requires Continuous(steps) && i + 1 < |steps|
    ensures outputs[i].token == policySteps[i + 1].tokenIn
  {
    hide QuoteMatches, EncodeStepData;
    assert policySteps[i + 1] == BuildStep(steps, i + 1);
  }

  /** A protected walk that measures its last output succeeds exactly when that output, less the fee, meets
      the minimum and the pulled token is consumed. */
  lemma ProtectedWalkSettles(registry: Registry, intent: Intent, pulled: bool, steps: seq<PolicyStep>,
                             outputs: seq<Output>, prior: Ledger)
    requires HandsOn(steps, outputs) && outputs[|steps| - 1].token != steps[0].tokenIn
    requires forall i :: 0 <= i < |steps| - 1 ==> outputs[i].amount >= steps[i + 1].amountIn
    requires PriorKept(steps, outputs, prior) && forall k :: 0 <= k < |steps| ==> Permitted(registry, steps, outputs, k)
    requires Measured(steps, outputs, Funded(prior, steps), intent.outAsset) == outputs[|steps| - 1].amount
    ensures var t := steps[0].tokenIn;
            Succeeds(registry, intent, if pulled then Pulled(t, Balance(prior, t)) else Deposited, steps, outputs,
                     Funded(prior, steps)) <==>
            MeetsMinimum(intent, outputs[|steps| - 1].amount)
            && (pulled && t != 0 ==> NothingStranded(steps, outputs, t))
  {
    hide MeetsMinimum, Permitted, NothingStranded, Proceeds, After, Funded, Measured, Balance;
    FinalBalance(steps, outputs, prior, steps[0].tokenIn);
  }

  /** Exactly when a run of an accepted plan succeeds. With honouring, allowlisted adapters a deposited run
      fails only when the last output, less the relayer's fee, misses the signed minimum. A pulled run also
      fails when some boundary leaves a surplus in the pulled token, which a route that comes back to its
      input token can do. */
  lemma AcceptedPlansSettle(manifest: seq<Route>, owner: Address, plan: seq<PlanStep>, prior: Ledger,
                            outputs: seq<Output>, registry: Registry, intent: Intent, pulled: bool)
    requires WellFormed(manifest) && Resolve(manifest, plan).Some? && NonNegative(prior)
    requires Build(owner, Resolve(manifest, plan).value).Some?
    requires Honours(Resolve(manifest, plan).value.steps, Build(owner, Resolve(manifest, plan).value).value.steps,
                     outputs)
    requires var steps := Build(owner, Resolve(manifest, plan).value).value.steps;
             forall k :: 0 <= k < |steps| ==> Permitted(registry, steps, outputs, k)
    requires intent.outAsset == Resolve(manifest, plan).value.outputRoute.tokenOut.address
    ensures var steps := Build(owner, Resolve(manifest, plan).value).value.steps;
            && |steps| > 0
            && var t := steps[0].tokenIn;
               var funding := if pulled then Pulled(t, Balance(prior, t)) else Deposited;
               Succeeds(registry, intent, funding, steps, outputs, Funded(prior, steps)) <==>
               MeetsMinimum(intent, outputs[|steps| - 1].amount)
               && (pulled && t != 0 ==> NothingStranded(steps, outputs, t))
  {
    hide WellFormed, Resolve, Build, Accepts, MeetsMinimum, Permitted, NothingStranded, Succeeds, PriorKept, Compiled,
         After, Funded, Balance;
    var r := Resolve(manifest, plan).value;
    var steps := Build(owner, r).value.steps;
    AcceptedPlansExecute(manifest, owner, plan, prior, outputs);
    SettlementNeverSpent(manifest, owner, plan);
    ResolvedRoutes(manifest, plan);
    ResolvedCompiles(manifest, owner, plan);
    forall i | 0 <= i < |steps| - 1
      ensures outputs[i].token == steps[i + 1].tokenIn && outputs[i].amount >= steps[i + 1].amountIn
    {
      HandedOn(r.steps, steps, outputs, i);
      OutputsCover(r.steps, steps, outputs, i);
    }
    LastToken(r.steps, steps, outputs);
    ProtectedWalkSettles(registry, intent, pulled, steps, outputs, prior);
  }

  /** The last output is in the last route's token. */
  lemma LastToken(steps: seq<ResolvedStep>, policySteps: seq<PolicyStep>, outputs: seq<Output>)
    requires |steps| > 0 && Honours(steps, policySteps, outputs)
    ensures outputs[|steps| - 1].token == steps[|steps| - 1].route.tokenOut.address
  {
  }

  // ---- which plans can be pulled -------------------------------------------

  /** Some boundary before the last output delivers the token. */
  predicate ComesBack(steps: seq<ResolvedStep>, t: Address) {
    exists i :: 0 <= i < |steps| - 1 && steps[i].route.tokenOut.address == t
  }

  /** The thriftiest run, but with one unit more than asked at boundary `i` and a last output of `final`. */
  function Generous(steps: seq<ResolvedStep>, i: nat, final: nat): (outputs: seq<Output>)
    requires i + 1 < |steps|
    ensures |outputs| == |steps|
  {
    Thrifty(steps)[i := Output(steps[i].route.tokenOut.address, NextAmount(steps, i) + 1)]
                  [|steps| - 1 := Output(steps[|steps| - 1].route.tokenOut.address, final)]
  }

  lemma GenerousHonours(steps: seq<ResolvedStep>, policySteps: seq<PolicyStep>, i: nat, final: nat)
    requires Compiled(steps, policySteps) && i + 1 < |steps| && final > 0
    ensures Honours(steps, policySteps, Generous(steps, i, final))
    ensures Generous(steps, i, final)[|steps| - 1].amount == final
    ensures !NothingStranded(policySteps, Generous(steps, i, final), steps[i].route.tokenOut.address)
  {
    hide QuoteMatches, EncodeStepData, BindsMinimum;
    ThriftyHonours(steps, policySteps);
    var outputs := Generous(steps, i, final);
    forall k | 0 <= k < |steps|
      ensures outputs[k].token == steps[k].route.tokenOut.address && Accepts(policySteps[k], outputs[k])
    {
      MinimumAsked(steps, policySteps, k);
    }
    assert policySteps[i + 1] == BuildStep(steps, i + 1);
    assert outputs[i].amount == policySteps[i + 1].amountIn + 1;
  }

  /** A step asks for no more than the next step spends, and the last for nothing. */
  lemma MinimumAsked(steps: seq<ResolvedStep>, policySteps: seq<PolicyStep>, k: nat)
    requires Compiled(steps, policySteps) && k < |steps|
    ensures Minimum(policySteps[k].data) <= NextAmount(steps, k)
    ensures k == |steps| - 1 ==> NextAmount(steps, k) == 0
  {
    hide BindsMinimum;
    assert policySteps[k] == BuildStep(steps, k);
    EncodedFits(steps[k].route, NextAmount(steps, k));
  }

  /** Every honouring run of a compiled plan leaves nothing stranded in a token exactly when no boundary
      before the last output delivers that token. */
  lemma NothingStrandsExactly(steps: seq<ResolvedStep>, policySteps: seq<PolicyStep>, t: Address)
    requires Compiled(steps, policySteps) && |steps| > 0
    ensures (forall outputs: seq<Output> | Honours(steps, policySteps, outputs) ::
               NothingStranded(policySteps, outputs, t)) <==>
            !ComesBack(steps, t)
  {
    hide Compiled, Accepts;
    if ComesBack(steps, t) {
      var i :| 0 <= i < |steps| - 1 && steps[i].route.tokenOut.address == t;
      GenerousHonours(steps, policySteps, i, 1);
    }
  }

  /** The adapters and output tokens of the plan are allowlisted. */
  predicate Allows(registry: Registry, steps: seq<ResolvedStep>) {
    forall i :: 0 <= i < |steps| ==>
      && steps[i].route.adapter in registry.adapters
      && steps[i].route.tokenOut.address != 0 && steps[i].route.tokenOut.address in registry.tokens
  }

  lemma AllowedOutputs(registry: Registry, steps: seq<ResolvedStep>, policySteps: seq<PolicyStep>, outputs: seq<Output>)
    requires Compiled(steps, policySteps) && Allows(registry, steps) && Honours(steps, policySteps, outputs)
    ensures forall k :: 0 <= k < |policySteps| ==> Permitted(registry, policySteps, outputs, k)
  {
    hide QuoteMatches, EncodeStepData, Accepts;
    forall k | 0 <= k < |policySteps| ensures Permitted(registry, policySteps, outputs, k) {
      assert policySteps[k] == BuildStep(steps, k);
    }
  }

  /** Every pulled run whose last output meets the signed minimum succeeds. */
  ghost predicate PulledRunsSucceed(steps: seq<ResolvedStep>, policySteps: seq<PolicyStep>, prior: Ledger,
                                    registry: Registry, intent: Intent)
    requires |policySteps| == |steps| > 0
  {
    var t := policySteps[0].tokenIn;
    forall outputs: seq<Output>
      | Honours(steps, policySteps, outputs) && MeetsMinimum(intent, outputs[|steps| - 1].amount) ::
      Succeeds(registry, intent, Pulled(t, Balance(prior, t)), policySteps, outputs, Funded(prior, policySteps))
  }

  lemma EnoughMeetsMinimum(intent: Intent)
    ensures MeetsMinimum(intent, intent.minOut + intent.maxRelayerFee + 1)
  {
  }

  /** What anyone holding the plan can check before a pulled run: with its adapters and tokens allowlisted,
      every honouring run whose last output meets the minimum succeeds exactly when the plan never comes back
      to its input token. */
  lemma PulledPlansSettleExactly(manifest: seq<Route>, owner: Address, plan: seq<PlanStep>, prior: Ledger,
                                 registry: Registry, intent: Intent)
    requires WellFormed(manifest) && Resolve(manifest, plan).Some? && NonNegative(prior)
    requires Allows(registry, Resolve(manifest, plan).value.steps)
    requires intent.outAsset == Resolve(manifest, plan).value.outputRoute.tokenOut.address
    ensures var r := Resolve(manifest, plan).value;
            var policy := Build(owner, r);
            && policy.Some? && |policy.value.steps| == |r.steps| > 0
            && policy.value.steps[0].tokenIn == r.inputRoute.tokenIn.address
            && (PulledRunsSucceed(r.steps, policy.value.steps, prior, registry, intent) <==>
                !ComesBack(r.steps, r.inputRoute.tokenIn.address))
  {
    hide WellFormed, Resolve, Build, Compiled, Accepts, Allows, NothingStranded, Succeeds, Permitted, MeetsMinimum,
         ComesBack, Balance, Funded, Generous;
    var r := Resolve(manifest, plan).value;
    ResolvedCompiles(manifest, owner, plan);
    ResolvedRoutes(manifest, plan);
    SettlementNeverSpent(manifest, owner, plan);
    InputIsFirst(manifest, owner, plan);
    var steps := Build(owner, r).value.steps;
    var t := steps[0].tokenIn;
    NothingStrandsExactly(r.steps, steps, t);
    forall outputs: seq<Output>
      | Honours(r.steps, steps, outputs) && |outputs| == |steps| && MeetsMinimum(intent, outputs[|steps| - 1].amount)
      ensures Succeeds(registry, intent, Pulled(t, Balance(prior, t)), steps, outputs, Funded(prior, steps))
              <==> (t != 0 ==> NothingStranded(steps, outputs, t))
    {
      AllowedOutputs(registry, r.steps, steps, outputs);
      AcceptedPlansSettle(manifest, owner, plan, prior, outputs, registry, intent, true);
    }
    if ComesBack(r.steps, t) {
      var i := FirstReturn(r.steps, t, registry);
      var final := intent.minOut + intent.maxRelayerFee + 1;
      GenerousHonours(r.steps, steps, i, final);
      EnoughMeetsMinimum(intent);
      var outputs := Generous(r.steps, i, final);
      assert Honours(r.steps, steps, outputs) && MeetsMinimum(intent, outputs[|r.steps| - 1].amount);
      assert !NothingStranded(steps, outputs, t);
    }
  }

  lemma FirstReturn(steps: seq<ResolvedStep>, t: Address, registry: Registry) returns (i: nat)
    requires ComesBack(steps, t) && Allows(registry, steps)
    ensures i + 1 < |steps| && steps[i].route.tokenOut.address == t != 0
  {
    i :| 0 <= i < |steps| - 1 && steps[i].route.tokenOut.address == t;
  }

  lemma InputIsFirst(manifest: seq<Route>, owner: Address, plan: seq<PlanStep>)
    requires WellFormed(manifest) && Resolve(manifest, plan).Some?
    ensures var r := Resolve(manifest, plan).value;
            var policy := Build(owner, r);
            && policy.Some? && |policy.value.steps| == |r.steps| > 0
            && policy.value.steps[0].tokenIn == r.inputRoute.tokenIn.address
  {
    hide WellFormed, Resolve, Build, QuoteMatches, EncodeStepData, Unique, TrackedBySteps, FormatPlan;
    ResolvedCompiles(manifest, owner, plan);
    ResolvedRoutes(manifest, plan);
    ResolvedLineage(manifest, plan);
    var r := Resolve(manifest, plan).value;
    assert Build(owner, r).value.steps[0] == BuildStep(r.steps, 0);
  }
}
