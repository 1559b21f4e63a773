/** What a compiled policy does when the capsule walks it: `OpenZap._executeFrozen` as a ledger
    stepper, against adapters whose only promise is the minimum bound in their step data. */
module Execution {
  import opened PlanToken
  import opened Routes
  import opened LivePolicy

  /** The capsule's ERC-20 balances; an absent token has balance zero. */
  type Ledger = map<Address, int>

  /** What one adapter call reported. */
  datatype Output = Output(token: Address, amount: nat)

  function Balance(ledger: Ledger, token: Address): int {
    if token in ledger then ledger[token] else 0
  }

  function Move(ledger: Ledger, token: Address, delta: int): (l: Ledger)
    ensures forall t :: Balance(l, t) == Balance(ledger, t) + if t == token then delta else 0
  {
    ledger[token := Balance(ledger, token) + delta]
  }

  /** One step: the adapter pulls exactly `amountIn` and delivers its output. */
  function Step(ledger: Ledger, step: PolicyStep, output: Output): Ledger {
    Move(Move(ledger, step.tokenIn, 0 - step.amountIn), output.token, output.amount)
  }

  /** The ledger after the first `k` steps. */
  function After(steps: seq<PolicyStep>, outputs: seq<Output>, start: Ledger, k: nat): Ledger
    requires k <= |steps| == |outputs|
  {
    if k == 0 then start else Step(After(steps, outputs, start, k - 1), steps[k - 1], outputs[k - 1])
  }

  /** The adapter reverts below its bound minimum and the capsule refuses an empty result. */
  predicate Accepts(step: PolicyStep, output: Output) {
    output.amount > 0 && output.amount >= Minimum(step.data)
  }

  predicate Proceeds(steps: seq<PolicyStep>, outputs: seq<Output>, start: Ledger, k: nat)
    requires k < |steps| == |outputs|
  {
    Balance(After(steps, outputs, start, k), steps[k].tokenIn) >= steps[k].amountIn && Accepts(steps[k], outputs[k])
  }

  // ---- protection of prior balances ----------------------------------------

  /** The capsule's prior balances plus the first step's exact funding. */
  function Funded(prior: Ledger, steps: seq<PolicyStep>): Ledger
    requires |steps| > 0
  {
    Move(prior, steps[0].tokenIn, steps[0].amountIn)
  }

  ghost predicate NonNegative(ledger: Ledger) {
    forall t :: Balance(ledger, t) >= 0
  }

  /** The adapters deliver the routes' output tokens and respect their bound minimums. */
  ghost predicate Honours(steps: seq<ResolvedStep>, policySteps: seq<PolicyStep>, outputs: seq<Output>) {
    && |outputs| == |policySteps| == |steps|
    && forall i :: 0 <= i < |steps| ==>
         outputs[i].token == steps[i].route.tokenOut.address && Accepts(policySteps[i], outputs[i])
  }

  /** Each boundary hands on the asset the next step spends. */
  ghost predicate Continuous(steps: seq<ResolvedStep>) {
    forall i :: 0 <= i < |steps| - 1 ==> steps[i].route.tokenOut.address == steps[i + 1].route.tokenIn.address
  }

  /** The steps of `policySteps` are what the builder emits for `steps`. */
  ghost predicate Compiled(steps: seq<ResolvedStep>, policySteps: seq<PolicyStep>) {
    && |policySteps| == |steps|
    && forall i :: 0 <= i < |steps| ==>
         && QuoteMatches(steps[i].route)
         && EncodeStepData(steps[i].route, NextAmount(steps, i)).Some?
         && policySteps[i] == BuildStep(steps, i)
  }

  /** No run of honouring adapters fails for funds, and none leaves any token below what the capsule
      held before it was funded, at any point of the walk. */
  ghost predicate Protected(steps: seq<ResolvedStep>, policySteps: seq<PolicyStep>)
    requires |policySteps| == |steps| > 0
  {
    forall prior: Ledger, outputs: seq<Output> | NonNegative(prior) && Honours(steps, policySteps, outputs) ::
      PriorKept(policySteps, outputs, prior)
  }

  ghost predicate PriorKept(policySteps: seq<PolicyStep>, outputs: seq<Output>, prior: Ledger)
    requires |outputs| == |policySteps| > 0
  {
    var start := Funded(prior, policySteps);
    && (forall k :: 0 <= k < |policySteps| ==> Proceeds(policySteps, outputs, start, k))
    && (forall k, t :: 0 <= k <= |policySteps| ==>
          Balance(After(policySteps, outputs, start, k), t) >= Balance(prior, t))
  }

  /** Just before step `k` the capsule holds its prior balances and, on top, what step `k` will pull. */
  lemma {:induction false} FundsAhead(steps: seq<PolicyStep>, outputs: seq<Output>, prior: Ledger, k: nat, t: Address)
    requires k <= |steps| == |outputs| && |steps| > 0
    requires forall i :: 0 <= i < |steps| - 1 ==>
               outputs[i].token == steps[i + 1].tokenIn && outputs[i].amount >= steps[i + 1].amountIn
    ensures Balance(After(steps, outputs, Funded(prior, steps), k), t)
            >= Balance(prior, t) + if k < |steps| && t == steps[k].tokenIn then steps[k].amountIn else 0
  {
    if k > 0 { FundsAhead(steps, outputs, prior, k - 1, t); }
  }

  lemma PriorIsKept(steps: seq<PolicyStep>, outputs: seq<Output>, prior: Ledger)
    requires |steps| == |outputs| > 0 && NonNegative(prior)
    requires forall i :: 0 <= i < |steps| ==> Accepts(steps[i], outputs[i])
    requires forall i :: 0 <= i < |steps| - 1 ==>
               outputs[i].token == steps[i + 1].tokenIn && outputs[i].amount >= steps[i + 1].amountIn
    ensures PriorKept(steps, outputs, prior)
  {
    var start := Funded(prior, steps);
    forall k, t | 0 <= k <= |steps| ensures Balance(After(steps, outputs, start, k), t) >= Balance(prior, t) {
      FundsAhead(steps, outputs, prior, k, t);
    }
    forall k | 0 <= k < |steps| ensures Proceeds(steps, outputs, start, k) {
      FundsAhead(steps, outputs, prior, k, steps[k].tokenIn);
    }
  }

  /** Honouring outputs cover the next step wherever the boundary binds its amount, or needs one unit. */
  lemma OutputsCover(steps: seq<ResolvedStep>, policySteps: seq<PolicyStep>, outputs: seq<Output>, i: nat)
    requires Compiled(steps, policySteps) && Honours(steps, policySteps, outputs) && i < |steps| - 1
    requires BindsMinimum(steps[i].route.data) || steps[i + 1].amountIn <= 1
    ensures outputs[i].amount >= policySteps[i + 1].amountIn
  {
  }

  /** The thriftiest adapters: exactly the bound minimum, or a single unit where nothing is bound. */
  function Thrifty(steps: seq<ResolvedStep>): (outputs: seq<Output>)
    ensures |outputs| == |steps|
    ensures forall i :: 0 <= i < |steps| ==> outputs[i] == ThriftyOutput(steps, i)
  {
    seq(|steps|, i requires 0 <= i < |steps| => ThriftyOutput(steps, i))
  }

  function ThriftyOutput(steps: seq<ResolvedStep>, i: nat): Output
    requires i < |steps|
  {
    var next := NextAmount(steps, i);
    Output(steps[i].route.tokenOut.address, if BindsMinimum(steps[i].route.data) && next > 0 then next else 1)
  }

  lemma ThriftyHonours(steps: seq<ResolvedStep>, policySteps: seq<PolicyStep>)
    requires Compiled(steps, policySteps)
    ensures Honours(steps, policySteps, Thrifty(steps))
  {
  }

  /** A covered boundary hands on exactly what the next step pulls. */
  lemma ThriftyBoundary(steps: seq<ResolvedStep>, policySteps: seq<PolicyStep>, i: nat)
    requires Compiled(steps, policySteps) && Continuous(steps) && i + 1 < |steps| && steps[i + 1].amountIn > 0
    requires BindsMinimum(steps[i].route.data) || steps[i + 1].amountIn == 1
    ensures |policySteps| == |steps|
    ensures Thrifty(steps)[i] == Output(policySteps[i + 1].tokenIn, policySteps[i + 1].amountIn)
  {
    hide QuoteMatches, EncodeStepData;
    assert policySteps[i + 1] == BuildStep(steps, i + 1);
  }

  lemma StepBalance(ledger: Ledger, step: PolicyStep, output: Output, t: Address)
    ensures Balance(Step(ledger, step, output), t)
            == Balance(ledger, t) - (if t == step.tokenIn then step.amountIn else 0)
               + if t == output.token then output.amount else 0
  {
  }

  lemma FundedAlone(steps: seq<PolicyStep>, t: Address)
    requires |steps| > 0
    ensures Balance(Funded(map[], steps), t) == if t == steps[0].tokenIn then steps[0].amountIn else 0
  {
  }

  /** Up to the first uncovered boundary, thrifty runs from an empty capsule hold exactly the next pull. */
  lemma {:induction false} ThriftyExact(steps: seq<ResolvedStep>, policySteps: seq<PolicyStep>, k: nat, t: Address)
    requires Compiled(steps, policySteps) && Continuous(steps) && k < |steps|
    requires forall i :: 0 <= i < k ==> BindsMinimum(steps[i].route.data) || steps[i + 1].amountIn == 1
    requires forall i :: 0 <= i < |steps| ==> steps[i].amountIn > 0
    ensures Balance(After(policySteps, Thrifty(steps), Funded(map[], policySteps), k), t)
            == if t == policySteps[k].tokenIn then policySteps[k].amountIn else 0
  {
    hide QuoteMatches, EncodeStepData, Balance, Step;
    var start := Funded(map[], policySteps);
    if k == 0 {
      FundedAlone(policySteps, t);
    } else {
      ThriftyExact(steps, policySteps, k - 1, t);
      ThriftyBoundary(steps, policySteps, k - 1);
      StepBalance(After(policySteps, Thrifty(steps), start, k - 1), policySteps[k - 1], Thrifty(steps)[k - 1], t);
    }
  }

  /** The binding rule is exact: a continuous compiled walk protects prior balances against every
      honouring adapter if and only if each boundary binds a minimum or needs a single unit. */
  lemma BindingIsExact(steps: seq<ResolvedStep>, policySteps: seq<PolicyStep>)
    requires Compiled(steps, policySteps) && Continuous(steps) && |steps| > 0
    requires forall i :: 0 <= i < |steps| ==> steps[i].amountIn > 0
    ensures Protected(steps, policySteps) <==>
            forall i :: 0 <= i < |steps| - 1 ==> BindsMinimum(steps[i].route.data) || steps[i + 1].amountIn == 1
  {
    if forall i :: 0 <= i < |steps| - 1 ==> BindsMinimum(steps[i].route.data) || steps[i + 1].amountIn == 1 {
      BoundWalksProtect(steps, policySteps);
    } else {
      var i := FirstUncovered(steps);
      UncoveredBoundaryFails(steps, policySteps, i);
    }
  }

  lemma BoundWalksProtect(steps: seq<ResolvedStep>, policySteps: seq<PolicyStep>)
    requires Compiled(steps, policySteps) && Continuous(steps) && |steps| > 0
    requires forall i :: 0 <= i < |steps| - 1 ==> BindsMinimum(steps[i].route.data) || steps[i + 1].amountIn <= 1
    ensures Protected(steps, policySteps)
  {
    forall prior: Ledger, outputs: seq<Output> | NonNegative(prior) && Honours(steps, policySteps, outputs)
      ensures PriorKept(policySteps, outputs, prior)
    {
      forall i | 0 <= i < |steps| - 1
        ensures outputs[i].token == policySteps[i + 1].tokenIn && outputs[i].amount >= policySteps[i + 1].amountIn
      {
        assert policySteps[i + 1] == BuildStep(steps, i + 1);
        OutputsCover(steps, policySteps, outputs, i);
      }
      PriorIsKept(policySteps, outputs, prior);
    }
  }

  lemma FirstUncovered(steps: seq<ResolvedStep>) returns (i: nat)
    requires exists i :: 0 <= i < |steps| - 1 && !BindsMinimum(steps[i].route.data) && steps[i + 1].amountIn != 1
    ensures i < |steps| - 1 && !BindsMinimum(steps[i].route.data) && steps[i + 1].amountIn != 1
    ensures forall j :: 0 <= j < i ==> BindsMinimum(steps[j].route.data) || steps[j + 1].amountIn == 1
  {
    i := 0;
    while BindsMinimum(steps[i].route.data) || steps[i + 1].amountIn == 1
      invariant i < |steps| - 1
      invariant forall j :: 0 <= j < i ==> BindsMinimum(steps[j].route.data) || steps[j + 1].amountIn == 1
      decreases |steps| - i
    {
      i := i + 1;
    }
  }

  lemma UncoveredBoundaryFails(steps: seq<ResolvedStep>, policySteps: seq<PolicyStep>, i: nat)
    requires Compiled(steps, policySteps) && Continuous(steps) && i < |steps| - 1
    requires forall j :: 0 <= j < |steps| ==> steps[j].amountIn > 0
    requires !BindsMinimum(steps[i].route.data) && steps[i + 1].amountIn != 1
    requires forall j :: 0 <= j < i ==> BindsMinimum(steps[j].route.data) || steps[j + 1].amountIn == 1
    ensures !Protected(steps, policySteps)
  {
    hide QuoteMatches, EncodeStepData;
    var prior: Ledger := map[];
    var outputs, start := Thrifty(steps), Funded(prior, policySteps);
    var token := steps[i + 1].route.tokenIn.address;
    ThriftyHonours(steps, policySteps);
    ThriftyExact(steps, policySteps, i, token);
    assert policySteps[i] == BuildStep(steps, i) && policySteps[i + 1] == BuildStep(steps, i + 1);
    assert After(policySteps, outputs, start, i + 1)
           == Step(After(policySteps, outputs, start, i), policySteps[i], outputs[i]);
    assert !Proceeds(policySteps, outputs, start, i + 1);
    assert !PriorKept(policySteps, outputs, prior);
  }

  // ---- the execution theorem ----------------------------------------------

  lemma ResolvedLineage(manifest: seq<Route>, plan: seq<PlanStep>)
    requires Resolve(manifest, plan).Some?
    ensures var r := Resolve(manifest, plan).value;
            Lineage(r.steps) && r == ResolvedOf(r.steps)
  {
    hide ResolveStep, FormatPlan, TrackedBySteps, Linked, Unique;
  }

  lemma ResolvedRoutes(manifest: seq<Route>, plan: seq<PlanStep>)
    requires WellFormed(manifest) && Resolve(manifest, plan).Some?
    ensures var steps := Resolve(manifest, plan).value.steps;
            && |steps| > 0 && Continuous(steps)
            && (forall i :: 0 <= i < |steps| ==>
                  steps[i].route in manifest && steps[i].amountIn > 0 && QuoteMatches(steps[i].route))
            && (forall i :: 0 <= i < |steps| - 1 ==> BindsMinimum(steps[i].route.data))
  {
    hide WellFormed, ResolveStep, FormatPlan, FormatStep, TrackedBySteps, QuoteMatches;
    var steps := Resolve(manifest, plan).value.steps;
    forall i | 0 <= i < |steps|
      ensures steps[i].route in manifest && steps[i].amountIn > 0 && QuoteMatches(steps[i].route)
    {
      ResolvedStepSpec(manifest, plan[i]);
      MatchesInManifest(manifest, steps[i].route);
    }
    forall i | 0 <= i < |steps| - 1
      ensures steps[i].route.tokenOut.address == steps[i + 1].route.tokenIn.address
      ensures BindsMinimum(steps[i].route.data)
    {
      assert Linked(steps, i);
    }
  }

  lemma ResolvedCompiles(manifest: seq<Route>, owner: Address, plan: seq<PlanStep>)
    requires WellFormed(manifest) && Resolve(manifest, plan).Some?
    ensures var r := Resolve(manifest, plan).value;
            Build(owner, r).Some? && Compiled(r.steps, Build(owner, r).value.steps)
  {
    hide WellFormed, Resolve, BuildStep, EncodeStepData, QuoteMatches, Continuous;
    ResolvedRoutes(manifest, plan);
    DecompileOfCompile(manifest, owner, plan);
  }

  lemma MatchesInManifest(manifest: seq<Route>, route: Route)
    requires WellFormed(manifest) && route in manifest
    ensures QuoteMatches(route) && route.tokenIn.address != route.tokenOut.address
  {
  }

  /** The settlement asset is untouched until the last step. */
  lemma {:induction false} SettlementUntouched(steps: seq<PolicyStep>, outputs: seq<Output>, start: Ledger, k: nat,
                                               asset: Address)
    requires |steps| == |outputs| && k < |steps|
    requires forall i :: 0 <= i < |steps| ==> steps[i].tokenIn != asset
    requires forall i :: 0 <= i < |steps| - 1 ==> outputs[i].token == steps[i + 1].tokenIn
    ensures Balance(After(steps, outputs, start, k), asset) == Balance(start, asset)
  {
    if k > 0 { SettlementUntouched(steps, outputs, start, k - 1, asset); }
  }

  /** For every accepted plan, prior ledger and honouring adapters: every step is affordable, no token
      ever drops below its balance before funding, and the measured settlement is exactly the last
      step's output. */
  lemma AcceptedPlansExecute(manifest: seq<Route>, owner: Address, plan: seq<PlanStep>, prior: Ledger,
                             outputs: seq<Output>)
    requires WellFormed(manifest) && Resolve(manifest, plan).Some? && NonNegative(prior)
    requires Build(owner, Resolve(manifest, plan).value).Some?
    requires Honours(Resolve(manifest, plan).value.steps, Build(owner, Resolve(manifest, plan).value).value.steps,
                     outputs)
    ensures var r := Resolve(manifest, plan).value;
            var steps := Build(owner, r).value.steps;
            && |steps| > 0 && PriorKept(steps, outputs, prior)
            && Balance(After(steps, outputs, Funded(prior, steps), |steps|), r.outputRoute.tokenOut.address)
               == Balance(Funded(prior, steps), r.outputRoute.tokenOut.address) + outputs[|steps| - 1].amount
  {
    hide Resolve, Build, WellFormed;
    var r := Resolve(manifest, plan).value;
    var steps := Build(owner, r).value.steps;
    ResolvedRoutes(manifest, plan);
    ResolvedCompiles(manifest, owner, plan);
    BoundWalksProtect(r.steps, steps);
    assert PriorKept(steps, outputs, prior);
    SettlementNeverSpent(manifest, owner, plan);
    forall i | 0 <= i < |steps| - 1 ensures outputs[i].token == steps[i + 1].tokenIn {
      assert steps[i + 1] == BuildStep(r.steps, i + 1);
    }
    SettlementUntouched(steps, outputs, Funded(prior, steps), |steps| - 1, r.outputRoute.tokenOut.address);
  }

  lemma SettlementNeverSpent(manifest: seq<Route>, owner: Address, plan: seq<PlanStep>)
    requires WellFormed(manifest) && Resolve(manifest, plan).Some?
    ensures var r := Resolve(manifest, plan).value;
            && Build(owner, r).Some? && |Build(owner, r).value.steps| == |r.steps| > 0
            && r.outputRoute == r.steps[|r.steps| - 1].route
            && forall i :: 0 <= i < |r.steps| ==>
                 Build(owner, r).value.steps[i].tokenIn != r.outputRoute.tokenOut.address
  {
    hide WellFormed, EncodeStepData, Resolve, Build;
    var r := Resolve(manifest, plan).value;
    ResolvedCompiles(manifest, owner, plan);
    LastRouteSettles(manifest, plan);
    forall i | 0 <= i < |r.steps|
      ensures Build(owner, r).value.steps[i].tokenIn != r.outputRoute.tokenOut.address
    {
      assert Build(owner, r).value.steps[i] == BuildStep(r.steps, i);
    }
  }

  lemma LastRouteSettles(manifest: seq<Route>, plan: seq<PlanStep>)
    requires WellFormed(manifest) && Resolve(manifest, plan).Some?
    ensures var r := Resolve(manifest, plan).value;
            && |r.steps| > 0 && r.outputRoute == r.steps[|r.steps| - 1].route
            && forall i :: 0 <= i < |r.steps| ==>
                 r.steps[i].route.tokenIn.address != r.outputRoute.tokenOut.address
  {
    hide *;
    var r := Resolve(manifest, plan).value;
    ResolvedLineage(manifest, plan);
    ResolvedRoutes(manifest, plan);
    MatchesInManifest(manifest, r.steps[|r.steps| - 1].route);
    NobodySpendsSettlement(r.steps);
  }

  lemma NobodySpendsSettlement(steps: seq<ResolvedStep>)
    requires |steps| > 0 && Lineage(steps)
    requires steps[|steps| - 1].route.tokenIn.address != steps[|steps| - 1].route.tokenOut.address
    ensures var last := ResolvedOf(steps).outputRoute;
            && last == steps[|steps| - 1].route
            && forall i :: 0 <= i < |steps| ==> steps[i].route.tokenIn.address != last.tokenOut.address
  {
    hide Linked, ResolvedOf;
    OutputRouteIsLast(steps);
  }

  lemma OutputRouteIsLast(steps: seq<ResolvedStep>)
    requires |steps| > 0
    ensures ResolvedOf(steps).outputRoute == steps[|steps| - 1].route
  {
    hide TrackedBySteps, Unique, FormatPlan;
  }
}
