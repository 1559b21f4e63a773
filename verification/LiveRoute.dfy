/** The signer handoff (`reduceChainToLiveRoute`): ordered route ids with fixed amounts and the token
    that carries them. */
module LiveRoute {
  import opened Prelude
  import opened Decimals
  import opened Amounts
  import opened PlanToken
  import opened Routes
  import LivePolicy
  import opened Blocks
  import opened ExecutionPolicy
  import opened Deployable

  datatype RouteMapping = RouteMapping(
    routeId: string, steps: seq<PlanStep>, policyToken: string, direction: Option<Direction>,
    amountIn: string, slippageBps: int, executionPolicy: Policy)

  function PlanSteps(steps: seq<LiveStep>): (plan: seq<PlanStep>)
    ensures |plan| == |steps|
    ensures forall i :: 0 <= i < |steps| ==> plan[i] == PlanStep(steps[i].adapterId, steps[i].amountIn)
  {
    seq(|steps|, i requires 0 <= i < |steps| => PlanStep(steps[i].adapterId, steps[i].amountIn))
  }

  /** What `reduceChainToLiveRoute` answers; `None` is a list of reasons, or the encoder's exception,
      which `HandoffAlwaysEncodes` rules out. */
  ghost function ReduceRoute(env: Env, chain: Chain): Option<RouteMapping> {
    var policy := Reduce(env, chain);
    if policy.None? then None
    else
      var p := policy.value;
      var steps := PlanSteps(p.steps);
      var token := Encode(steps);
      if token.None? || steps == [] then None
      else if |steps| > 1 && LivePolicy.Resolve(env.manifest, steps).None? then None
      else Some(RouteMapping(steps[0].routeId, steps, token.value, p.direction, p.amountIn, p.slippageBps,
                             p.executionPolicy))
  }

  method ReduceChainToLiveRoute(env: Env, chain: Chain) returns (r: Option<RouteMapping>)
    ensures r == ReduceRoute(env, chain)
  {
    hide Reduce, Encode, LivePolicy.Resolve;
    var policy := ReduceChainToLivePolicy(env, chain);
    if policy.None? { return None; }
    var steps := PlanSteps(policy.value.steps);
    var policyToken := Encode(steps);
    if policyToken.None? || steps == [] { return None; }
    if |steps| > 1 {
      var resolved := LivePolicy.ResolveLivePolicyPlan(env.manifest, steps);
      if resolved.None? { return None; }
    }
    var p := policy.value;
    r := Some(RouteMapping(steps[0].routeId, steps, policyToken.value, p.direction, p.amountIn, p.slippageBps,
                           p.executionPolicy));
  }

  // ---- the token always fits -----------------------------------------------

  lemma {:induction false} ShowLength(n: nat, k: nat)
    requires k > 0 && n < Scale(1, k)
    ensures |Show(n)| <= k
  {
    if n >= 10 {
      assert k > 1;
      ShowLength(n / 10, k - 1);
    }
  }

  lemma ThreeMore(k: nat)
    ensures Scale(1, k + 3) == 1000 * Scale(1, k)
  {
    assert Scale(1, k + 3) == 10 * Scale(1, k + 2);
    assert Scale(1, k + 2) == 10 * Scale(1, k + 1);
  }

  lemma RouterAmountDigits()
    ensures MAX_ROUTER_AMOUNT < Scale(1, 39)
  {
    hide Scale;
    ScaleBase();
    ThreeMore(0); ThreeMore(3); ThreeMore(6); ThreeMore(9); ThreeMore(12); ThreeMore(15); ThreeMore(18);
    ThreeMore(21); ThreeMore(24); ThreeMore(27); ThreeMore(30); ThreeMore(33); ThreeMore(36);
  }

  lemma ScaleBase()
    ensures Scale(1, 0) == 1
  {
  }

  /** A router amount spelled canonically takes at most 39 digits, a point, a leading zero and the
      token's decimals. */
  lemma CanonicalLength(value: string, decimals: nat)
    requires ParseRouterAmount(value, decimals).Some?
    ensures Canonical(value).Some? && |Canonical(value).value| <= decimals + 41
  {
    hide Canonical, ParseRouterAmount, Scale, Trim;
    var n := ParseRouterAmount(value, decimals).value;
    FormatParse(value, decimals);
    RouterAmountDigits();
    ShowLength(n, 39);
  }

  const MAX_ENTRY_LENGTH := 206

  lemma {:induction false} JoinLength(parts: seq<string>)
    requires |parts| >= 1 && forall p :: p in parts ==> |p| <= MAX_ENTRY_LENGTH
    ensures |Join(parts, '|')| <= |parts| * (MAX_ENTRY_LENGTH + 1)
  {
    assert parts[0] in parts;
    if |parts| > 1 {
      assert forall p :: p in parts[1..] ==> p in parts;
      JoinLength(parts[1..]);
    }
  }

  /** The shipped registry and manifest stay within the token's vocabulary. */
  ghost predicate WellNamed(env: Env) {
    && (forall spec :: spec in env.adapters ==> IsRouteId(spec.id))
    && (forall route :: route in env.manifest ==> route.tokenIn.decimals <= 36)
  }

  lemma ReducedSteps(env: Env, chain: Chain)
    requires Reduce(env, chain).Some?
    ensures var steps := Reduce(env, chain).value.steps;
            && 1 <= |steps| <= MAX_POLICY_STEPS && Reduce(env, chain).value.amountIn == steps[0].amountIn
            && ParseRouterAmount(steps[0].amountIn, 18).Some?
            && forall i :: 0 <= i < |steps| ==>
                 && (exists spec :: spec in env.adapters && spec.id == steps[i].adapterId)
                 && (i > 0 ==> ParseRouterAmount(steps[i].amountIn, DecimalsOf(env, steps[i].adapterId)).Some?)
  {
    hide OfKind, ResolvePolicy, SlippageBps, BadSlippage, Walk, DecimalsOf, ParseRouterAmount, SinkSettles, OnlyBounded;
    var sources, actions, sinks :=
      OfKind(env.catalog, chain, Source), OfKind(env.catalog, chain, Action), OfKind(env.catalog, chain, Sink);
    DrawnStepsCount(env, sources, actions, sinks);
    var amountIn := SourceAmount(env, sources[0]);
    WalkSpec(env, actions, Some(ToText(env.rt, sources[0].params, "asset")), amountIn);
    var steps := Reduce(env, chain).value.steps;
    assert forall i :: 0 <= i < |steps| ==> StepSpec(env, steps[i], i, amountIn);
  }

  lemma StepEncodes(env: Env, step: LiveStep, decimals: nat)
    requires WellNamed(env) && (exists spec :: spec in env.adapters && spec.id == step.adapterId)
    requires ParseRouterAmount(step.amountIn, decimals).Some? && decimals <= 36
    ensures Encodable(PlanStep(step.adapterId, step.amountIn))
    ensures |Entry(PlanStep(step.adapterId, step.amountIn))| <= MAX_ENTRY_LENGTH
  {
    hide Canonical, ParseRouterAmount;
    CanonicalLength(step.amountIn, decimals);
  }

  /** Whatever reduces to a policy encodes to a token within the handoff's own length cap. */
  lemma HandoffAlwaysEncodes(env: Env, chain: Chain)
    requires WellNamed(env) && Reduce(env, chain).Some?
    ensures Encode(PlanSteps(Reduce(env, chain).value.steps)).Some?
  {
    hide Reduce, Encodable, Entry, Join, ParseRouterAmount, WellNamed;
    var steps := Reduce(env, chain).value.steps;
    var plan := PlanSteps(steps);
    ReducedSteps(env, chain);
    forall i | 0 <= i < |steps| ensures Encodable(plan[i]) && |Entry(plan[i])| <= MAX_ENTRY_LENGTH {
      DecimalsBounded(env, steps[i].adapterId);
      StepEncodes(env, steps[i], if i == 0 then 18 else DecimalsOf(env, steps[i].adapterId));
    }
    var parts := [HANDOFF_VERSION] + Entries(plan);
    forall p | p in parts ensures |p| <= MAX_ENTRY_LENGTH {
      if p != HANDOFF_VERSION { assert p in Entries(plan); }
    }
    JoinLength(parts);
  }

  lemma DecimalsBounded(env: Env, id: string)
    requires WellNamed(env)
    ensures DecimalsOf(env, id) <= 36
  {
  }

  /** A drawing is handed off exactly when it reduces and, having several steps, resolves for the signer; with
      its steps' adapters and amounts in order, its first step's route and amount, and its policy unchanged. */
  lemma HandoffExactly(env: Env, chain: Chain, r: RouteMapping)
    requires WellNamed(env)
    ensures ReduceRoute(env, chain) == Some(r) <==>
            && Reduce(env, chain).Some? && |r.steps| == |Reduce(env, chain).value.steps| > 0
            && var p := Reduce(env, chain).value;
            && (forall i :: 0 <= i < |r.steps| ==>
                  r.steps[i].routeId == p.steps[i].adapterId && r.steps[i].amountIn == p.steps[i].amountIn)
            && r.routeId == p.steps[0].adapterId && r.amountIn == p.steps[0].amountIn
            && r.direction == p.direction && r.slippageBps == p.slippageBps && r.executionPolicy == p.executionPolicy
            && Some(r.policyToken) == Encode(r.steps)
            && (|r.steps| == 1 || LivePolicy.Resolve(env.manifest, r.steps).Some?)
  {
    hide Reduce, Encode, LivePolicy.Resolve, ParseRouterAmount, WellNamed;
    if Reduce(env, chain).Some? {
      var p := Reduce(env, chain).value;
      ReducedSteps(env, chain);
      HandoffAlwaysEncodes(env, chain);
      if |r.steps| == |p.steps| && forall i :: 0 <= i < |r.steps| ==>
           r.steps[i].routeId == p.steps[i].adapterId && r.steps[i].amountIn == p.steps[i].amountIn {
        assert r.steps == PlanSteps(p.steps);
      }
    }
  }

  // ---- what the signer reads -----------------------------------------------

  /** A handed-off chain is exactly what the signer reconstructs: the token decodes to a plan that
      resolves, through the same manifest, to the same steps and amounts. Longer chains always resolve;
      for a single step `SingleStepSigns` says when. */
  lemma SignerSeesTheDrawing(env: Env, chain: Chain)
    requires WellFormed(env.manifest) && ReduceRoute(env, chain).Some?
    requires |ReduceRoute(env, chain).value.steps| > 1
             || LivePolicy.Resolve(env.manifest, ReduceRoute(env, chain).value.steps).Some?
    ensures var r := ReduceRoute(env, chain).value;
            && LivePolicy.Resolve(env.manifest, r.steps).Some? && Decode(r.policyToken).Some?
            && LivePolicy.Resolve(env.manifest, Decode(r.policyToken).value)
              == LivePolicy.Resolve(env.manifest, r.steps)
  {
    hide Reduce, LivePolicy.Resolve, Encode, Decode, WellFormed;
    var r := ReduceRoute(env, chain).value;
    LivePolicy.ResolvePreservesToken(env.manifest, r.steps);
    LivePolicy.ResolveIsIdempotent(env.manifest, r.steps);
  }

  /** A single-step design is checked at 18 decimals only, so the signer takes it exactly when its
      amount has no more fraction digits than the route's input token. */
  lemma SingleStepSigns(env: Env, chain: Chain)
    requires ReduceRoute(env, chain).Some? && |ReduceRoute(env, chain).value.steps| == 1
    requires RouteById(env.manifest, ReduceRoute(env, chain).value.routeId).Some?
    requires RouteById(env.manifest, ReduceRoute(env, chain).value.routeId).value.tokenIn.decimals <= 18
    ensures var r := ReduceRoute(env, chain).value;
            var route := RouteById(env.manifest, r.routeId).value;
            LivePolicy.Resolve(env.manifest, r.steps).Some? <==>
            |Fraction(Trim(r.amountIn))| <= route.tokenIn.decimals
  {
    hide Reduce, Encode, ParseRouterAmount, LivePolicy.Resolve;
    var r := ReduceRoute(env, chain).value;
    var route := RouteById(env.manifest, r.routeId).value;
    ReducedSteps(env, chain);
    assert r.steps[0] == PlanStep(r.routeId, r.amountIn);
    CoarserParse(r.amountIn, route.tokenIn.decimals, 18);
    OneStepResolves(env.manifest, r.steps);
  }

  /** A handoff of several steps opens with a route that binds a minimum. */
  lemma LongRoutesBind(env: Env, chain: Chain)
    requires ReduceRoute(env, chain).Some? && |ReduceRoute(env, chain).value.steps| > 1
    ensures var route := RouteById(env.manifest, ReduceRoute(env, chain).value.routeId);
            route.Some? && BindsMinimum(route.value.data)
  {
    hide Reduce, Encode, ParseRouterAmount, LivePolicy.TrackedBySteps, LivePolicy.Unique, LivePolicy.FormatPlan;
    var plan := ReduceRoute(env, chain).value.steps;
    var steps := LivePolicy.ResolveSteps(env.manifest, plan).value;
    assert LivePolicy.ResolveStep(env.manifest, plan[0]) == Some(steps[0]);
    assert LivePolicy.Linked(steps, 0);
  }

  /** One step per action. */
  lemma StepPerAction(env: Env, chain: Chain)
    requires Reduce(env, chain).Some?
    ensures |Reduce(env, chain).value.steps| == |OfKind(env.catalog, chain, Action)|
  {
    hide OfKind, ResolvePolicy, SlippageBps, BadSlippage, SeatsStructurally, DrawnSteps;
    DrawnStepsCount(env, OfKind(env.catalog, chain, Source), OfKind(env.catalog, chain, Action),
                    OfKind(env.catalog, chain, Sink));
  }

  /** An amount that parses at some decimals parses at fewer exactly when its fraction fits. */
  lemma CoarserParse(value: string, few: nat, many: nat)
    requires few <= many && ParseRouterAmount(value, many).Some?
    ensures ParseRouterAmount(value, few).Some? <==> |Fraction(Trim(value))| <= few
  {
    hide Trim, Mantissa, Scale;
    var t := Trim(value);
    if |Fraction(t)| <= few {
      ParseUnitsExact(t, few);
      ParseUnitsExact(t, many);
      ScaleTwice(Mantissa(t), few - |Fraction(t)|, many - few);
      ScaleZero(many - few);
      ScaleUp(ParseUnits(t, few), many - few);
    }
  }

  lemma {:induction false} ScaleUp(v: nat, k: nat)
    ensures Scale(v, k) >= v
  {
    if k > 0 { ScaleUp(v, k - 1); }
  }

  lemma OneStepResolves(manifest: seq<Route>, steps: seq<PlanStep>)
    requires |steps| == 1
    ensures LivePolicy.Resolve(manifest, steps).Some? <==> LivePolicy.ResolveStep(manifest, steps[0]).Some?
  {
    hide LivePolicy.ResolveStep, LivePolicy.FormatPlan;
    var resolved := LivePolicy.ResolveSteps(manifest, steps);
    if resolved.Some? {
      var tracked := LivePolicy.TrackedBySteps(resolved.value);
      var only := resolved.value;
      assert LivePolicy.TrackedBySteps(only[..0]) == [];
      assert tracked == [only[0].route.trackedAssets.0, only[0].route.trackedAssets.1];
      UniqueShrinks(tracked);
    }
  }

  lemma {:induction false} UniqueShrinks(s: seq<Address>)
    ensures |LivePolicy.Unique(s)| <= |s|
  {
    if s != [] { UniqueShrinks(s[..|s| - 1]); }
  }
}
