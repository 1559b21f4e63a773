/** The whole path of a one-shot drawing: canvas, handoff token, signer, compiled policy, execution and
    reading back from chain. */
module Pipeline {
  import opened Prelude
  import opened Amounts
  import opened PlanToken
  import opened Routes
  import opened LivePolicy
  import opened Execution
  import opened Blocks
  import D = Deployable
  import L = LiveRoute

  /** The policy a signer holding only the token compiles for an owner. */
  function SignedPolicy(manifest: seq<Route>, owner: Address, token: string): Option<Policy> {
    var plan := Decode(token);
    if plan.None? || Resolve(manifest, plan.value).None? then None
    else Build(owner, Resolve(manifest, plan.value).value)
  }

  /** Step for step, the routes drawn and the same rational amounts. */
  ghost predicate SameWork(drawn: seq<D.LiveStep>, steps: seq<ResolvedStep>) {
    && |drawn| == |steps|
    && forall i :: 0 <= i < |drawn| ==>
         && steps[i].route.id == drawn[i].adapterId
         && Canonical(drawn[i].amountIn) == Some(FormatUnits(steps[i].amountIn, steps[i].route.tokenIn.decimals))
  }

  lemma ResolvedWork(manifest: seq<Route>, drawn: seq<D.LiveStep>)
    requires WellFormed(manifest) && Resolve(manifest, L.PlanSteps(drawn)).Some?
    ensures SameWork(drawn, Resolve(manifest, L.PlanSteps(drawn)).value.steps)
  {
    hide WellFormed, ResolveStep, Lineage, TrackedBySteps, Unique, Canonical, FormatUnits;
    var plan := L.PlanSteps(drawn);
    var steps := Resolve(manifest, plan).value.steps;
    forall i | 0 <= i < |drawn|
      ensures steps[i].route.id == drawn[i].adapterId
      ensures Canonical(drawn[i].amountIn) == Some(FormatUnits(steps[i].amountIn, steps[i].route.tokenIn.decimals))
    {
      assert ResolveStep(manifest, plan[i]) == Some(steps[i]);
      ResolvedStepSpec(manifest, plan[i]);
    }
  }

  /** A handed-off drawing that resolves, as every multi-step one does, is signed, executed and displayed
      as drawn. The token alone yields a policy whose steps are the drawn routes at the drawn amounts;
      reading that policy back from chain returns the same steps; and against every honouring adapter each
      step is affordable, prior balances are never touched, and the settlement grows by exactly the last
      output. */
  lemma DrawingExecutesAsDrawn(env: D.Env, chain: Chain, owner: Address, prior: Ledger, outputs: seq<Output>)
    requires WellFormed(env.manifest) && NonNegative(prior)
    requires L.ReduceRoute(env, chain).Some?
    requires |L.ReduceRoute(env, chain).value.steps| > 1
             || Resolve(env.manifest, L.ReduceRoute(env, chain).value.steps).Some?
    ensures var token := L.ReduceRoute(env, chain).value.policyToken;
            && Decode(token).Some? && Resolve(env.manifest, Decode(token).value).Some?
            && SignedPolicy(env.manifest, owner, token).Some?
    ensures var r := Resolve(env.manifest, Decode(L.ReduceRoute(env, chain).value.policyToken).value).value;
            var policy := SignedPolicy(env.manifest, owner, L.ReduceRoute(env, chain).value.policyToken).value;
            && D.Reduce(env, chain).Some? && SameWork(D.Reduce(env, chain).value.steps, r.steps)
            && ResolveOnchain(env.manifest, policy.trackedAssets, policy.steps) == Some(r)
            && (Honours(r.steps, policy.steps, outputs) ==>
                  && |policy.steps| > 0 && PriorKept(policy.steps, outputs, prior)
                  && Balance(After(policy.steps, outputs, Funded(prior, policy.steps), |policy.steps|),
                             r.outputRoute.tokenOut.address)
                     == Balance(Funded(prior, policy.steps), r.outputRoute.tokenOut.address)
                        + outputs[|policy.steps| - 1].amount)
  {
    hide D.Reduce, Resolve, Decode, Encode, WellFormed, Build, ResolveOnchain, Honours, PriorKept, After, Funded,
         SameWork, Balance;
    var route := L.ReduceRoute(env, chain).value;
    var drawn := D.Reduce(env, chain).value.steps;
    L.SignerSeesTheDrawing(env, chain);
    var plan := Decode(route.policyToken).value;
    ResolvedWork(env.manifest, drawn);
    DecompileOfCompile(env.manifest, owner, plan);
    var r := Resolve(env.manifest, plan).value;
    var policy := Build(owner, r).value;
    if Honours(r.steps, policy.steps, outputs) {
      AcceptedPlansExecute(env.manifest, owner, plan, prior, outputs);
    }
  }
}
