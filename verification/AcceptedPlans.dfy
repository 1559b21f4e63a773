/** What resolving, compiling and reading back a plan mean, written on the plan's lines, the manifest's
    routes and the on-chain fields themselves. */
module AcceptedPlans {
  import opened Prelude
  import opened Amounts
  import opened PlanToken
  import opened Routes
  import opened LivePolicy

  // ---- the lines of a plan -------------------------------------------------

  /** Every line names a route of the manifest and an amount its input token can carry. */
  ghost predicate LinesRead(manifest: seq<Route>, plan: seq<PlanStep>) {
    forall i :: 0 <= i < |plan| ==>
      var route := RouteById(manifest, plan[i].routeId);
      route.Some? && ParseRouterAmount(plan[i].amountIn, route.value.tokenIn.decimals).Some?
  }

  function Line(manifest: seq<Route>, plan: seq<PlanStep>, i: nat): Route
    requires LinesRead(manifest, plan) && i < |plan|
  {
    RouteById(manifest, plan[i].routeId).value
  }

  /** Each route hands on what the next one spends, with step data that can carry a floor, and none before
      the last spends what the last one delivers. */
  ghost predicate RoutesChain(manifest: seq<Route>, plan: seq<PlanStep>)
    requires LinesRead(manifest, plan)
  {
    forall i :: 0 <= i < |plan| - 1 ==>
      && Line(manifest, plan, i).tokenOut.address == Line(manifest, plan, i + 1).tokenIn.address
      && Line(manifest, plan, i).data != EmptyData
      && Line(manifest, plan, i).tokenIn.address != Line(manifest, plan, |plan| - 1).tokenOut.address
  }

  /** The addresses the plan's routes name, read off pair by pair. */
  function Mention(manifest: seq<Route>, plan: seq<PlanStep>, k: nat): Address
    requires LinesRead(manifest, plan) && k < 2 * |plan|
  {
    var pair := Line(manifest, plan, k / 2).trackedAssets;
    if k % 2 == 0 then pair.0 else pair.1
  }

  ghost function Mentioned(manifest: seq<Route>, plan: seq<PlanStep>): set<Address>
    requires LinesRead(manifest, plan)
  {
    set k: nat | k < 2 * |plan| :: Mention(manifest, plan, k)
  }

  // ---- resolution ----------------------------------------------------------

  lemma {:induction false} TrackedIsMention(manifest: seq<Route>, plan: seq<PlanStep>, steps: seq<ResolvedStep>, n: nat)
    requires LinesRead(manifest, plan) && |steps| == |plan| && n <= |plan|
    requires forall i :: 0 <= i < |plan| ==> steps[i].route == Line(manifest, plan, i)
    ensures |TrackedBySteps(steps[..n])| == 2 * n
    ensures forall k :: 0 <= k < 2 * n ==> TrackedBySteps(steps[..n])[k] == Mention(manifest, plan, k)
  {
    hide LinesRead;
    if n > 0 {
      TrackedIsMention(manifest, plan, steps, n - 1);
      assert steps[..n][..n - 1] == steps[..n - 1];
      MentionPair(manifest, plan, n - 1);
    }
  }

  lemma MentionPair(manifest: seq<Route>, plan: seq<PlanStep>, i: nat)
    requires LinesRead(manifest, plan) && i < |plan|
    ensures Mention(manifest, plan, 2 * i) == Line(manifest, plan, i).trackedAssets.0
    ensures Mention(manifest, plan, 2 * i + 1) == Line(manifest, plan, i).trackedAssets.1
  {
    assert 2 * i / 2 == i && (2 * i + 1) / 2 == i && 2 * i % 2 == 0 && (2 * i + 1) % 2 == 1;
  }

  lemma StepsOfLines(manifest: seq<Route>, plan: seq<PlanStep>)
    ensures ResolveSteps(manifest, plan).Some? <==> LinesRead(manifest, plan)
    ensures LinesRead(manifest, plan) ==>
              forall i :: 0 <= i < |plan| ==>
                var step := ResolveSteps(manifest, plan).value[i];
                step.route == Line(manifest, plan, i)
                && Some(step.amountIn) == ParseRouterAmount(plan[i].amountIn, step.route.tokenIn.decimals)
  {
    hide ParseRouterAmount;
    if LinesRead(manifest, plan) {
      forall i | 0 <= i < |plan| ensures ResolveStep(manifest, plan[i]).Some? {}
      forall i | 0 <= i < |plan|
        ensures ResolveStep(manifest, plan[i]) == Some(ResolveSteps(manifest, plan).value[i])
      {
      }
    } else {
      var i :| 0 <= i < |plan| && ResolveStep(manifest, plan[i]).None?;
    }
  }

  function Elements(s: seq<Address>): set<Address> {
    set a | a in s
  }

  lemma {:induction false} UniqueIsSet(s: seq<Address>)
    ensures |Unique(s)| == |Elements(s)|
    ensures forall a :: a in Unique(s) <==> a in s
  {
    if s != [] {
      var t, last := s[..|s| - 1], s[|s| - 1];
      UniqueIsSet(t);
      assert s == t + [last];
      assert Elements(s) == Elements(t) + {last};
      assert last in t <==> last in Elements(t);
    }
  }

  lemma UniqueCounts(manifest: seq<Route>, plan: seq<PlanStep>, tracked: seq<Address>)
    requires LinesRead(manifest, plan) && |tracked| == 2 * |plan|
    requires forall k :: 0 <= k < |tracked| ==> tracked[k] == Mention(manifest, plan, k)
    ensures |Unique(tracked)| == |Mentioned(manifest, plan)|
    ensures forall a :: a in Unique(tracked) <==> a in Mentioned(manifest, plan)
  {
    hide LinesRead, Mention, Unique;
    UniqueIsSet(tracked);
    forall a ensures a in tracked <==> a in Mentioned(manifest, plan) {
      if a in tracked { var k :| 0 <= k < |tracked| && tracked[k] == a; }
    }
    assert Elements(tracked) == Mentioned(manifest, plan);
  }

  /** A plan is accepted exactly when it has 1 to 16 lines that read, its routes chain, and they name at most
      16 different assets. */
  lemma AcceptedExactly(manifest: seq<Route>, plan: seq<PlanStep>)
    ensures Resolve(manifest, plan).Some? <==>
            1 <= |plan| <= 16 && LinesRead(manifest, plan) && RoutesChain(manifest, plan)
            && |Mentioned(manifest, plan)| <= 16
  {
    hide LinesRead, Mention, Unique, TrackedBySteps, ResolvedOf, ResolveStep, Mentioned;
    StepsOfLines(manifest, plan);
    if LinesRead(manifest, plan) {
      var steps := ResolveSteps(manifest, plan).value;
      TrackedIsMention(manifest, plan, steps, |plan|);
      assert steps[..|plan|] == steps;
      UniqueCounts(manifest, plan, TrackedBySteps(steps));
      LineageIsChain(manifest, plan, steps);
    }
  }

  lemma LineageIsChain(manifest: seq<Route>, plan: seq<PlanStep>, steps: seq<ResolvedStep>)
    requires LinesRead(manifest, plan) && |steps| == |plan|
    requires forall i :: 0 <= i < |plan| ==> steps[i].route == Line(manifest, plan, i)
    ensures Lineage(steps) <==> 1 <= |plan| <= 16 && RoutesChain(manifest, plan)
  {
    hide LinesRead, Line;
    if RoutesChain(manifest, plan) {
      forall i | 0 <= i < |steps| - 1 ensures Linked(steps, i) {}
    }
    if Lineage(steps) {
      forall i | 0 <= i < |plan| - 1
        ensures Line(manifest, plan, i).tokenOut.address == Line(manifest, plan, i + 1).tokenIn.address
        ensures Line(manifest, plan, i).data != EmptyData
        ensures Line(manifest, plan, i).tokenIn.address != Line(manifest, plan, |plan| - 1).tokenOut.address
      {
        assert Linked(steps, i);
      }
    }
  }

  /** Exactly the assets that some line's route names as either of its two, each once, in the order they are
      first named. */
  ghost predicate Tracks(manifest: seq<Route>, plan: seq<PlanStep>, tracked: seq<Address>)
    requires LinesRead(manifest, plan)
  {
    && (forall a :: a in tracked <==>
          exists i :: 0 <= i < |plan| && (Line(manifest, plan, i).trackedAssets.0 == a
                                          || Line(manifest, plan, i).trackedAssets.1 == a))
    && (forall x, y :: 0 <= x < y < |tracked| ==>
          exists k :: 0 <= k < 2 * |plan| && Mention(manifest, plan, k) == tracked[x]
                      && forall l :: 0 <= l <= k ==> Mention(manifest, plan, l) != tracked[y])
  }

  /** What an accepted plan holds: its lines' routes and amounts in order, the first and last of them, and the
      assets its routes name, each once, in the order they are first named. */
  lemma AcceptedContents(manifest: seq<Route>, plan: seq<PlanStep>)
    requires Resolve(manifest, plan).Some?
    ensures var r := Resolve(manifest, plan).value;
            && LinesRead(manifest, plan) && |r.steps| == |plan| > 0
            && (forall i :: 0 <= i < |plan| ==>
                  && r.steps[i].route == Line(manifest, plan, i)
                  && Some(r.steps[i].amountIn)
                     == ParseRouterAmount(plan[i].amountIn, r.steps[i].route.tokenIn.decimals))
            && r.inputRoute == Line(manifest, plan, 0) && r.outputRoute == Line(manifest, plan, |plan| - 1)
            && Tracks(manifest, plan, r.trackedAssets)
  {
    hide LinesRead, Mention, Line, Unique, TrackedBySteps, ResolveSteps, ParseRouterAmount, Tracks, Resolve, FormatPlan;
    StepsOfLines(manifest, plan);
    ResolvesToSteps(manifest, plan);
    var steps := ResolveSteps(manifest, plan).value;
    TrackedIsMention(manifest, plan, steps, |plan|);
    assert steps[..|plan|] == steps;
    TrackedContents(manifest, plan, TrackedBySteps(steps));
  }

  lemma ResolvesToSteps(manifest: seq<Route>, plan: seq<PlanStep>)
    requires Resolve(manifest, plan).Some?
    ensures ResolveSteps(manifest, plan).Some? && |plan| > 0
    ensures Resolve(manifest, plan).value == ResolvedOf(ResolveSteps(manifest, plan).value)
  {
    hide ResolveStep, Linked, Unique, TrackedBySteps, FormatPlan;
  }

  lemma TrackedContents(manifest: seq<Route>, plan: seq<PlanStep>, tracked: seq<Address>)
    requires LinesRead(manifest, plan) && |tracked| == 2 * |plan|
    requires forall k :: 0 <= k < |tracked| ==> tracked[k] == Mention(manifest, plan, k)
    ensures Tracks(manifest, plan, Unique(tracked))
  {
    hide LinesRead, Mention, Line, Unique, Mentioned;
    UniqueCounts(manifest, plan, tracked);
    UniqueSpec(tracked);
    var unique := Unique(tracked);
    forall a ensures a in unique <==>
                     exists i :: 0 <= i < |plan| && (Line(manifest, plan, i).trackedAssets.0 == a
                                                     || Line(manifest, plan, i).trackedAssets.1 == a)
    {
      MentionedOnRoutes(manifest, plan, a);
    }
    forall x, y | 0 <= x < y < |unique|
      ensures exists k :: 0 <= k < 2 * |plan| && Mention(manifest, plan, k) == unique[x]
                          && forall l :: 0 <= l <= k ==> Mention(manifest, plan, l) != unique[y]
    {
      var k := FirstIndex(tracked, unique[x]);
      assert Mention(manifest, plan, k) == unique[x];
      forall l | 0 <= l <= k ensures Mention(manifest, plan, l) != unique[y] { assert tracked[l] != unique[y]; }
    }
  }

  lemma MentionedOnRoutes(manifest: seq<Route>, plan: seq<PlanStep>, a: Address)
    requires LinesRead(manifest, plan)
    ensures a in Mentioned(manifest, plan) <==>
            exists i :: 0 <= i < |plan| && (Line(manifest, plan, i).trackedAssets.0 == a
                                            || Line(manifest, plan, i).trackedAssets.1 == a)
  {
    hide LinesRead, Line;
    if a in Mentioned(manifest, plan) {
      var k: nat :| k < 2 * |plan| && Mention(manifest, plan, k) == a;
      assert 0 <= k / 2 < |plan|;
    } else {
      forall i | 0 <= i < |plan|
        ensures Line(manifest, plan, i).trackedAssets.0 != a && Line(manifest, plan, i).trackedAssets.1 != a
      {
        MentionPair(manifest, plan, i);
      }
    }
  }

  // ---- compilation ---------------------------------------------------------

  /** The bytes a step carries: nothing on a route that takes none, else the floor, behind the vault, asset
      or pool that the route pins. */
  ghost predicate Carries(route: Route, data: StepData, floor: nat) {
    match route.data
    case EmptyData => data == Empty
    case MinAmountOut => data == OneWord(floor)
    case HookedLpDeposit => route.quote.RangeDeposit? && data == TwoWords(route.quote.vault, floor)
    case HookedLpWithdraw => data == TwoWords(route.tokenOut.address, floor)
    case HookrMarket => route.quote.V4? && data == TwoWords(route.quote.poolId, floor)
  }

  /** A compiled policy belongs to its owner, pays the owner, allows no relayer fee, tracks the plan's assets,
      and spends each line's amount on its route, asking it for exactly what the next line spends. */
  lemma CompiledContents(owner: Address, r: Resolved)
    requires Build(owner, r).Some?
    ensures var policy := Build(owner, r).value;
            && policy.owner == owner && policy.recipient == owner && policy.maxRelayerFeeCap == 0 && policy.optimization
            && policy.trackedAssets == r.trackedAssets && |policy.steps| == |r.steps|
            && forall i :: 0 <= i < |r.steps| ==>
                 var step, route := policy.steps[i], r.steps[i].route;
                 && step.adapter == route.adapter && step.spender == route.spender
                 && step.tokenIn == route.tokenIn.address && step.amountIn == r.steps[i].amountIn
                 && Carries(route, step.data, if i + 1 < |r.steps| then r.steps[i + 1].amountIn else 0)
  {
    var policy := Build(owner, r).value;
    forall i | 0 <= i < |r.steps|
      ensures policy.steps[i] == BuildStep(r.steps, i)
      ensures Carries(r.steps[i].route, policy.steps[i].data, if i + 1 < |r.steps| then r.steps[i + 1].amountIn else 0)
    {
    }
  }
}
