/** Resolving a plan against the manifest, compiling it to a policy, and reading one back
    (`live-policy.ts`). */
module LivePolicy {
  import opened Prelude
  import opened Amounts
  import opened PlanToken
  import opened Routes

  const MAX_TRACKED_ASSETS := 16

  datatype ResolvedStep = ResolvedStep(route: Route, amountIn: nat)

  datatype Resolved = Resolved(
    plan: seq<PlanStep>, steps: seq<ResolvedStep>, trackedAssets: seq<Address>,
    inputRoute: Route, outputRoute: Route)

  datatype PolicyStep = PolicyStep(adapter: Address, spender: Address, tokenIn: Address, amountIn: nat, data: StepData)

  datatype Policy = Policy(
    owner: Address, recipient: Address, maxRelayerFeeCap: nat, optimization: bool,
    trackedAssets: seq<Address>, steps: seq<PolicyStep>)

  // ---- order-preserving de-duplication -------------------------------------

  /** The addresses in order of first appearance. */
  function Unique(addresses: seq<Address>): seq<Address> {
    if addresses == [] then []
    else
      var front, last := Unique(addresses[..|addresses| - 1]), addresses[|addresses| - 1];
      if last in front then front else front + [last]
  }

  /** `uniqueAddresses`: a seen-set and a growing array. */
  method UniqueAddresses(addresses: seq<Address>) returns (unique: seq<Address>)
    ensures unique == Unique(addresses)
  {
    var seen: set<Address> := {};
    unique := [];
    for i := 0 to |addresses|
      invariant unique == Unique(addresses[..i])
      invariant forall a :: a in seen <==> a in unique
    {
      assert addresses[..i + 1][..i] == addresses[..i];
      if addresses[i] !in seen {
        seen := seen + {addresses[i]};
        unique := unique + [addresses[i]];
      }
    }
    assert addresses[..|addresses|] == addresses;
  }

  function FirstIndex(s: seq<Address>, a: Address): (i: nat)
    requires a in s
    ensures i < |s| && s[i] == a
    ensures forall j :: 0 <= j < i ==> s[j] != a
  {
    if s[0] == a then 0 else 1 + FirstIndex(s[1..], a)
  }

  /** De-duplication keeps every address once, in order of first appearance. */
  lemma {:induction false} UniqueSpec(s: seq<Address>)
    ensures forall a :: a in Unique(s) <==> a in s
    ensures forall i, j :: 0 <= i < j < |Unique(s)| ==>
              Unique(s)[i] in s && Unique(s)[j] in s && FirstIndex(s, Unique(s)[i]) < FirstIndex(s, Unique(s)[j])
  {
    if s != [] {
      var t, last := s[..|s| - 1], s[|s| - 1];
      UniqueSpec(t);
      assert s == t + [last];
      forall a | a in t ensures FirstIndex(s, a) == FirstIndex(t, a) { FirstIndexStable(t, last, a); }
      if last !in t { FirstIndexNew(t, last); }
    }
  }

  lemma FirstIndexStable(t: seq<Address>, last: Address, a: Address)
    requires a in t
    ensures FirstIndex(t + [last], a) == FirstIndex(t, a)
  {
    var s := t + [last];
    var i, j := FirstIndex(t, a), FirstIndex(s, a);
    assert forall k :: 0 <= k < |t| ==> s[k] == t[k];
  }

  lemma FirstIndexNew(t: seq<Address>, last: Address)
    requires last !in t
    ensures FirstIndex(t + [last], last) == |t|
  {
  }

  // ---- resolving a plan ----------------------------------------------------

  function ResolveStep(manifest: seq<Route>, step: PlanStep): Option<ResolvedStep> {
    var route := RouteById(manifest, step.routeId);
    if route.None? then None
    else
      var amount := ParseRouterAmount(step.amountIn, route.value.tokenIn.decimals);
      if amount.None? then None else Some(ResolvedStep(route.value, amount.value))
  }

  function ResolveSteps(manifest: seq<Route>, plan: seq<PlanStep>): (r: Option<seq<ResolvedStep>>)
    ensures r.Some? <==> forall i :: 0 <= i < |plan| ==> ResolveStep(manifest, plan[i]).Some?
    ensures r.Some? ==> |r.value| == |plan|
    ensures r.Some? ==> forall i :: 0 <= i < |plan| ==> ResolveStep(manifest, plan[i]) == Some(r.value[i])
  {
    if exists i :: 0 <= i < |plan| && ResolveStep(manifest, plan[i]).None? then None
    else Some(seq(|plan|, i requires 0 <= i < |plan| && ResolveStep(manifest, plan[i]).Some? =>
                            ResolveStep(manifest, plan[i]).value))
  }

  /** Step `i` hands exactly the next step's asset on, through an adapter that binds a minimum. */
  predicate Linked(steps: seq<ResolvedStep>, i: nat)
    requires i + 1 < |steps|
  {
    && steps[i].route.tokenOut.address == steps[i + 1].route.tokenIn.address
    && BindsMinimum(steps[i].route.data)
  }

  /** The v1.1 lineage rules: every boundary is linked and nothing before the last step spends
      the settlement asset. */
  predicate Lineage(steps: seq<ResolvedStep>) {
    && 1 <= |steps| <= MAX_POLICY_STEPS
    && (forall i :: 0 <= i < |steps| - 1 ==> Linked(steps, i))
    && (forall i :: 0 <= i < |steps| - 1 ==>
          steps[i].route.tokenIn.address != steps[|steps| - 1].route.tokenOut.address)
  }

  function TrackedBySteps(steps: seq<ResolvedStep>): seq<Address> {
    if steps == [] then []
    else TrackedBySteps(steps[..|steps| - 1])
         + [steps[|steps| - 1].route.trackedAssets.0, steps[|steps| - 1].route.trackedAssets.1]
  }

  function FormatStep(step: ResolvedStep): PlanStep {
    PlanStep(step.route.id, FormatUnits(step.amountIn, step.route.tokenIn.decimals))
  }

  function FormatPlan(steps: seq<ResolvedStep>): (plan: seq<PlanStep>)
    ensures |plan| == |steps| && forall i :: 0 <= i < |steps| ==> plan[i] == FormatStep(steps[i])
  {
    seq(|steps|, i requires 0 <= i < |steps| => FormatStep(steps[i]))
  }

  function ResolvedOf(steps: seq<ResolvedStep>): Resolved
    requires |steps| >= 1
  {
    Resolved(FormatPlan(steps), steps, Unique(TrackedBySteps(steps)), steps[0].route, steps[|steps| - 1].route)
  }

  /** What `resolveLivePolicyPlan` decides; `None` is any of its exceptions. */
  function Resolve(manifest: seq<Route>, plan: seq<PlanStep>): Option<Resolved> {
    var steps := ResolveSteps(manifest, plan);
    if steps.None? || !Lineage(steps.value) || |Unique(TrackedBySteps(steps.value))| > MAX_TRACKED_ASSETS then None
    else Some(ResolvedOf(steps.value))
  }

  method TrackedAssets(steps: seq<ResolvedStep>) returns (unique: seq<Address>)
    ensures unique == Unique(TrackedBySteps(steps))
  {
    var tracked: seq<Address> := [];
    for i := 0 to |steps|
      invariant tracked == TrackedBySteps(steps[..i])
    {
      tracked := tracked + [steps[i].route.trackedAssets.0, steps[i].route.trackedAssets.1];
      assert steps[..i + 1][..i] == steps[..i];
    }
    assert steps[..|steps|] == steps;
    unique := UniqueAddresses(tracked);
  }

  /** `resolveLivePolicyPlan`, loop by loop. */
  method ResolveLivePolicyPlan(manifest: seq<Route>, plan: seq<PlanStep>) returns (r: Option<Resolved>)
    ensures r == Resolve(manifest, plan)
  {
    hide ResolveStep, Linked, Unique, TrackedBySteps, FormatStep;
    if |plan| == 0 || |plan| > MAX_POLICY_STEPS { return None; }
    var steps: seq<ResolvedStep> := [];
    for i := 0 to |plan|
      invariant |steps| == i
      invariant forall j :: 0 <= j < i ==> ResolveStep(manifest, plan[j]) == Some(steps[j])
    {
      var step := ResolveStep(manifest, plan[i]);
      if step.None? { return None; }
      steps := steps + [step.value];
    }
    assert ResolveSteps(manifest, plan).value == steps;
    for i := 0 to |steps| - 1
      invariant forall j :: 0 <= j < i ==> Linked(steps, j)
    {
      var linked := Linked(steps, i);
      if !linked { return None; }
    }
    var outputRoute := steps[|steps| - 1].route;
    for i := 0 to |steps| - 1
      invariant forall j :: 0 <= j < i ==> steps[j].route.tokenIn.address != outputRoute.tokenOut.address
    {
      if steps[i].route.tokenIn.address == outputRoute.tokenOut.address { return None; }
    }
    var unique := TrackedAssets(steps);
    if |unique| > MAX_TRACKED_ASSETS { return None; }
    r := Some(Resolved(FormatPlan(steps), steps, unique, steps[0].route, outputRoute));
  }

  /** A resolved step is a manifest route with an amount that prints and reads back exactly. */
  lemma ResolvedStepSpec(manifest: seq<Route>, step: PlanStep)
    requires WellFormed(manifest) && ResolveStep(manifest, step).Some?
    ensures var s := ResolveStep(manifest, step).value;
            && s.route in manifest && 0 < s.amountIn <= MAX_ROUTER_AMOUNT
            && ResolveStep(manifest, FormatStep(s)) == Some(s)
            && Canonical(step.amountIn) == Some(FormatStep(s).amountIn) && FormatStep(s).routeId == step.routeId
  {
    hide ParseRouterAmount, FormatUnits, Canonical, WellFormed;
    var s := ResolveStep(manifest, step).value;
    RouteRecovered(manifest, s.route, 0);
    ParseFormat(s.amountIn, s.route.tokenIn.decimals);
    FormatParse(step.amountIn, s.route.tokenIn.decimals);
  }

  /** Resolving the plan that a resolution prints reaches the same resolution. */
  lemma ResolveIsIdempotent(manifest: seq<Route>, plan: seq<PlanStep>)
    requires WellFormed(manifest) && Resolve(manifest, plan).Some?
    ensures Resolve(manifest, Resolve(manifest, plan).value.plan) == Resolve(manifest, plan)
  {
    hide ResolveStep, WellFormed, Lineage, TrackedBySteps, FormatStep;
    var steps := ResolveSteps(manifest, plan).value;
    forall i | 0 <= i < |plan| ensures ResolveStep(manifest, FormatPlan(steps)[i]) == Some(steps[i]) {
      ResolvedStepSpec(manifest, plan[i]);
    }
    assert ResolveSteps(manifest, FormatPlan(steps)).value == steps;
  }

  /** Resolution keeps the handoff token: what the signer displays is what the builder encoded. */
  lemma ResolvePreservesToken(manifest: seq<Route>, plan: seq<PlanStep>)
    requires WellFormed(manifest) && Resolve(manifest, plan).Some? && Encode(plan).Some?
    ensures Encode(Resolve(manifest, plan).value.plan) == Encode(plan)
    ensures Decode(Encode(plan).value) == Some(Resolve(manifest, plan).value.plan)
  {
    hide ResolveStep, WellFormed, Lineage, TrackedBySteps, FormatStep, Canonical, IsRouteId;
    var r := Resolve(manifest, plan).value;
    DecodeOfEncode(plan);
    forall i | 0 <= i < |plan| ensures r.plan[i] == CanonicalPlan(plan)[i] {
      assert Encodable(plan[i]);
      ResolvedStepSpec(manifest, plan[i]);
    }
    assert r.plan == CanonicalPlan(plan);
    DecodeAcceptsImage(Encode(plan).value);
  }

  // ---- compiling and reading back ------------------------------------------

  function NextAmount(steps: seq<ResolvedStep>, i: nat): nat {
    if i + 1 < |steps| then steps[i + 1].amountIn else 0
  }

  /** `buildLivePolicy`: each intermediate minimum is the next step's exact amount. */
  function Build(owner: Address, resolved: Resolved): Option<Policy> {
    var steps := resolved.steps;
    if exists i :: 0 <= i < |steps| && EncodeStepData(steps[i].route, NextAmount(steps, i)).None? then None
    else Some(Policy(owner, owner, 0, true, resolved.trackedAssets,
                     seq(|steps|, i requires 0 <= i < |steps|
                                             && EncodeStepData(steps[i].route, NextAmount(steps, i)).Some?
                                  => BuildStep(steps, i))))
  }

  function BuildStep(steps: seq<ResolvedStep>, i: nat): PolicyStep
    requires i < |steps| && EncodeStepData(steps[i].route, NextAmount(steps, i)).Some?
  {
    PolicyStep(steps[i].route.adapter, steps[i].route.spender, steps[i].route.tokenIn.address, steps[i].amountIn,
               EncodeStepData(steps[i].route, NextAmount(steps, i)).value)
  }

  /** The manifest route that emits exactly this on-chain step, given the next step's amount. */
  function ReadStep(manifest: seq<Route>, step: PolicyStep, next: nat): Option<ResolvedStep> {
    var route := RouteForStep(manifest, step.adapter, step.tokenIn, step.spender, step.data);
    if route.None? || step.amountIn == 0 || step.amountIn > MAX_ROUTER_AMOUNT then None
    else if EncodeStepData(route.value, next) != Some(step.data) then None
    else Some(ResolvedStep(route.value, step.amountIn))
  }

  function NextOnchain(steps: seq<PolicyStep>, i: nat): nat {
    if i + 1 < |steps| then steps[i + 1].amountIn else 0
  }

  function ReadSteps(manifest: seq<Route>, steps: seq<PolicyStep>): (r: Option<seq<ResolvedStep>>)
    ensures r.Some? <==> forall i :: 0 <= i < |steps| ==> ReadStep(manifest, steps[i], NextOnchain(steps, i)).Some?
    ensures r.Some? ==> |r.value| == |steps|
    ensures r.Some? ==> forall i :: 0 <= i < |steps| ==>
                          ReadStep(manifest, steps[i], NextOnchain(steps, i)) == Some(r.value[i])
  {
    if exists i :: 0 <= i < |steps| && ReadStep(manifest, steps[i], NextOnchain(steps, i)).None? then None
    else Some(seq(|steps|, i requires 0 <= i < |steps| && ReadStep(manifest, steps[i], NextOnchain(steps, i)).Some?
                             => ReadStep(manifest, steps[i], NextOnchain(steps, i)).value))
  }

  /** What `resolveOnchainLivePolicy` decides. */
  function ResolveOnchain(manifest: seq<Route>, trackedAssets: seq<Address>, steps: seq<PolicyStep>): Option<Resolved> {
    var read := ReadSteps(manifest, steps);
    if |steps| == 0 || |steps| > MAX_POLICY_STEPS || read.None? then None
    else
      var resolved := Resolve(manifest, FormatPlan(read.value));
      if resolved.None? || trackedAssets != resolved.value.trackedAssets then None else resolved
  }

  /** `resolveOnchainLivePolicy`, loop and all. */
  method ResolveOnchainLivePolicy(manifest: seq<Route>, trackedAssets: seq<Address>, policySteps: seq<PolicyStep>)
    returns (r: Option<Resolved>)
    ensures r == ResolveOnchain(manifest, trackedAssets, policySteps)
  {
    if |policySteps| == 0 || |policySteps| > MAX_POLICY_STEPS { return None; }
    var steps: seq<ResolvedStep> := [];
    for i := 0 to |policySteps|
      invariant |steps| == i
      invariant forall j :: 0 <= j < i ==>
                  ReadStep(manifest, policySteps[j], NextOnchain(policySteps, j)) == Some(steps[j])
    {
      var step := ReadStep(manifest, policySteps[i], NextOnchain(policySteps, i));
      if step.None? { return None; }
      steps := steps + [step.value];
    }
    assert ReadSteps(manifest, policySteps).value == steps;
    var resolved := ResolveLivePolicyPlan(manifest, FormatPlan(steps));
    if resolved.None? || trackedAssets != resolved.value.trackedAssets { return None; }
    r := resolved;
  }

  /** A step read from chain is a manifest route whose printed form resolves to it. */
  lemma ReadStepSpec(manifest: seq<Route>, step: PolicyStep, next: nat)
    requires WellFormed(manifest) && ReadStep(manifest, step, next).Some?
    ensures var s := ReadStep(manifest, step, next).value;
            && s.route in manifest && 0 < s.amountIn <= MAX_ROUTER_AMOUNT
            && ResolveStep(manifest, FormatStep(s)) == Some(s)
  {
    hide WellFormed, ParseRouterAmount, FormatUnits;
    var s := ReadStep(manifest, step, next).value;
    RouteRecovered(manifest, s.route, 0);
    ParseFormat(s.amountIn, s.route.tokenIn.decimals);
  }

  /** Reading a compiled step back finds the step it was compiled from. */
  lemma BuildStepReads(manifest: seq<Route>, steps: seq<ResolvedStep>, i: nat)
    requires WellFormed(manifest) && i < |steps| && steps[i].route in manifest
    requires 0 < steps[i].amountIn <= MAX_ROUTER_AMOUNT
    ensures EncodeStepData(steps[i].route, NextAmount(steps, i)).Some?
    ensures ReadStep(manifest, BuildStep(steps, i), NextAmount(steps, i)) == Some(steps[i])
  {
    hide WellFormed;
    RouteRecovered(manifest, steps[i].route, NextAmount(steps, i));
  }

  /** Compile, then decompile: a resolved plan always compiles, and what is read back from the
      compiled policy is that same resolution. */
  lemma DecompileOfCompile(manifest: seq<Route>, owner: Address, plan: seq<PlanStep>)
    requires WellFormed(manifest) && Resolve(manifest, plan).Some?
    ensures var r := Resolve(manifest, plan).value;
            && Build(owner, r).Some?
            && ResolveOnchain(manifest, Build(owner, r).value.trackedAssets, Build(owner, r).value.steps) == Some(r)
  {
    hide WellFormed, ResolveStep, ReadStep, FormatStep, BuildStep, EncodeStepData, Lineage, TrackedBySteps;
    var r := Resolve(manifest, plan).value;
    forall i | 0 <= i < |r.steps|
      ensures EncodeStepData(r.steps[i].route, NextAmount(r.steps, i)).Some?
      ensures ReadStep(manifest, BuildStep(r.steps, i), NextAmount(r.steps, i)) == Some(r.steps[i])
      ensures BuildStep(r.steps, i).amountIn == r.steps[i].amountIn
    {
      ResolvedStepSpec(manifest, plan[i]);
      BuildStepReads(manifest, r.steps, i);
      BuildStepAmount(r.steps, i);
    }
    var policy := Build(owner, r).value;
    assert ReadSteps(manifest, policy.steps).value == r.steps;
    ResolveIsIdempotent(manifest, plan);
    ResolvedSize(manifest, plan);
  }

  lemma ResolvedSize(manifest: seq<Route>, plan: seq<PlanStep>)
    requires Resolve(manifest, plan).Some?
    ensures 1 <= |Resolve(manifest, plan).value.steps| <= MAX_POLICY_STEPS
  {
  }

  lemma BuildStepAmount(steps: seq<ResolvedStep>, i: nat)
    requires i < |steps| && EncodeStepData(steps[i].route, NextAmount(steps, i)).Some?
    ensures BuildStep(steps, i).amountIn == steps[i].amountIn
  {
  }

  /** Decompile, then compile: a policy that is accepted from chain is, field for field, the policy
      the builder emits for what was read. */
  lemma CompileOfDecompile(manifest: seq<Route>, owner: Address, trackedAssets: seq<Address>, steps: seq<PolicyStep>)
    requires WellFormed(manifest) && ResolveOnchain(manifest, trackedAssets, steps).Some?
    ensures Build(owner, ResolveOnchain(manifest, trackedAssets, steps).value)
            == Some(Policy(owner, owner, 0, true, trackedAssets, steps))
  {
    hide WellFormed, ResolveStep, ReadStep, FormatStep, BuildStep, EncodeStepData, Lineage, TrackedBySteps;
    var r := ResolveOnchain(manifest, trackedAssets, steps).value;
    var read := ReadSteps(manifest, steps).value;
    forall i | 0 <= i < |steps| ensures ResolveStep(manifest, FormatPlan(read)[i]) == Some(read[i]) {
      ReadStepSpec(manifest, steps[i], NextOnchain(steps, i));
    }
    assert r.steps == read;
    forall i | 0 <= i < |steps| ensures read[i].amountIn == steps[i].amountIn { ReadStepAmount(manifest, steps, i); }
    forall i | 0 <= i < |steps|
      ensures EncodeStepData(read[i].route, NextAmount(read, i)).Some? && BuildStep(read, i) == steps[i]
    {
      ReadStepBuilds(manifest, read, steps, i);
    }
    assert Build(owner, r).value.steps == steps;
  }

  lemma ReadStepAmount(manifest: seq<Route>, steps: seq<PolicyStep>, i: nat)
    requires i < |steps| && ReadStep(manifest, steps[i], NextOnchain(steps, i)).Some?
    ensures ReadStep(manifest, steps[i], NextOnchain(steps, i)).value.amountIn == steps[i].amountIn
  {
  }

  lemma ReadStepBuilds(manifest: seq<Route>, read: seq<ResolvedStep>, steps: seq<PolicyStep>, i: nat)
    requires |read| == |steps| && i < |steps|
    requires ReadStep(manifest, steps[i], NextOnchain(steps, i)) == Some(read[i])
    requires NextAmount(read, i) == NextOnchain(steps, i)
    ensures EncodeStepData(read[i].route, NextAmount(read, i)).Some? && BuildStep(read, i) == steps[i]
  {
  }
}
