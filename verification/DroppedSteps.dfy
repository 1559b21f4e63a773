/** A drawing whose second step an automation design loses: HOOKR into WETH, then WETH into USDG, on a price
    trigger, in a build with the HOOKR adapter and both HOOKR price sources configured. */
module DroppedSteps {
  import opened Prelude
  import opened Decimals
  import opened Amounts
  import opened PlanToken
  import opened Routes
  import opened Blocks
  import opened ExecutionPolicy
  import opened Deployable
  import opened LiveRoute
  import opened Automation
  import opened Shipped
  import LivePolicy

  const ALARM := ChainNode("d", "price-trigger", map["condition" := Text("up10")])
  const DEFAULT_POLICY := Policy(3000000, 10, Anyone)
  const PLAN := [PlanStep(Id(HOOKR_WETH), "1"), PlanStep(Id(WETH_USDG), "1")]

  function Opening(): ChainNode {
    Wallet("a", "HOOKR", "1")
  }

  function IntoWeth(): ChainNode {
    SwapNode("b", "WETH", "")
  }

  function IntoUsdg(): ChainNode {
    SwapNode("c", "USDG", "1")
  }

  function Drawing(): Chain {
    [Opening(), IntoWeth(), IntoUsdg(), ALARM]
  }

  function Steps(): seq<LiveStep> {
    [SwapStep(HOOKR_WETH, "b", 1, "1"), SwapStep(WETH_USDG, "c", 2, "1")]
  }

  /** Automation is offered on the bounded pair and, once configured, on the HOOKR pair. */
  function Configured(rt: Runtime): Site {
    Site(Place(rt), [Id(WETH_ZAPS), Id(ZAPS_WETH), Id(WETH_HOOKR), Id(HOOKR_WETH)])
  }

  // ---- an amount of one ----------------------------------------------------

  lemma OneText()
    ensures IsDecimal("1") && Whole("1") == "1" && Fraction("1") == "" && Trim("1") == "1"
    ensures Value("1") == 1 && Value("") == 0
  {
  }

  lemma OneMantissa()
    ensures IsDecimal("1") && Mantissa("1") == 1
  {
    OneText();
  }

  lemma One(decimals: nat)
    ensures ParseRouterAmount("1", decimals).Some? <==> Scale(1, decimals) <= MAX_ROUTER_AMOUNT
    ensures Trim("1") == "1" && |Fraction("1")| == 0
  {
    hide Scale, Value, Trim, Whole, Fraction, IsDecimal, Mantissa, ParseUnits;
    OneText();
    OneMantissa();
    ParseUnitsExact("1", decimals);
    ScaleAtLeast(decimals);
  }

  lemma EighteenFits()
    ensures ParseRouterAmount("1", 18).Some? && Trim("1") == "1"
  {
    hide Scale, ParseRouterAmount, Trim;
    One(18);
    ScaleBase();
    ThreeMore(0); ThreeMore(3); ThreeMore(6); ThreeMore(9); ThreeMore(12); ThreeMore(15);
  }

  // ---- the drawing reduces to both steps -----------------------------------

  lemma KindsThere()
    ensures KindAt(Shapes(), Opening()) == Some(Source) && KindAt(Shapes(), ALARM) == Some(Guard)
    ensures KindAt(Shapes(), IntoWeth()) == KindAt(Shapes(), IntoUsdg()) == Some(Action)
  {
  }

  lemma Kinds(kind: BlockKind)
    ensures OfKind(Shapes(), Drawing(), kind)
            == match kind
               case Source => [Opening()]
               case Action => [IntoWeth(), IntoUsdg()]
               case Guard => [ALARM]
               case Sink => []
  {
    hide OfKind, KindAt, Shapes, Opening, IntoWeth, IntoUsdg;
    KindsThere();
    var none: Chain, a, b, c := [], Opening(), IntoWeth(), IntoUsdg();
    KindSnoc(Shapes(), none, a, kind);
    KindSnoc(Shapes(), [a], b, kind);
    KindSnoc(Shapes(), [a, b], c, kind);
    KindSnoc(Shapes(), [a, b, c], ALARM, kind);
    assert none + [a] == [a] && [a] + [b] == [a, b] && [a, b] + [c] == [a, b, c] && [a, b, c] + [ALARM] == Drawing();
    NoKinds(kind);
  }

  lemma NoKinds(kind: BlockKind)
    ensures OfKind(Shapes(), [], kind) == []
  {
  }

  /** A node that says nothing about gas, fees, access or slippage. */
  predicate Silent(node: ChainNode) {
    node.blockId == "wallet-balance" || node.blockId == "swap" || node.blockId == "price-trigger"
  }

  lemma {:induction false} NoCaps(rt: Runtime, kind: CapKind, chain: Chain)
    requires forall node :: node in chain ==> Silent(node)
    ensures Caps(rt, kind, chain) == []
  {
    if chain != [] {
      assert chain[|chain| - 1] in chain;
      NoCaps(rt, kind, chain[..|chain| - 1]);
    }
  }

  lemma DefaultPolicy(rt: Runtime, chain: Chain)
    requires forall node :: node in chain ==> Silent(node)
    ensures ResolvePolicy(rt, chain) == Some(DEFAULT_POLICY) && SlippageBps(rt, chain) == 100
    ensures forall i :: 0 <= i < |chain| ==> !BadSlippage(rt, chain[i])
  {
    hide Caps;
    NoCaps(rt, GasCap, chain);
    NoCaps(rt, FeeCap, chain);
    NoCaps(rt, SlippageCap, chain);
    forall i | 0 <= i < |chain|
      ensures !Objects(rt, chain[i]) && !Restricts(rt, chain[i]) && !BadSlippage(rt, chain[i])
    {
      assert Silent(chain[i]);
    }
  }

  /** A chain without a blocking issue has no structural fault. */
  lemma SeatsAre(chain: Chain)
    requires Seats(Shapes(), chain, None, 0)
    ensures SeatsStructurally(Shapes(), chain)
  {
    hide Seats, CompileNodes, Flow, Shapes;
    WalkAgrees(Shapes(), chain);
  }

  lemma DrawingSeats()
    ensures SeatsStructurally(Shapes(), Drawing())
  {
    var d := Drawing();
    assert d[1..] == [IntoWeth(), IntoUsdg(), ALARM] && d[1..][1..] == [IntoUsdg(), ALARM];
    assert d[1..][1..][1..] == [ALARM] && d[1..][1..][1..][1..] == [];
    assert Seats(Shapes(), d[1..][1..][1..], Some(TokenShape), 1);
    assert Seats(Shapes(), d[1..], Some(TokenShape), 1);
    SeatsAre(d);
  }

  lemma PairSymbols()
    ensures Adapters()[HOOKR_WETH].tokenIn == "HOOKR" && Adapters()[HOOKR_WETH].tokenOut == "WETH"
    ensures Adapters()[WETH_USDG].tokenIn == "WETH" && Adapters()[WETH_USDG].tokenOut == "USDG"
    ensures Manifest()[WETH_USDG].tokenIn.decimals == 18
  {
  }

  lemma BothWalk(rt: Runtime)
    ensures Walk(Place(rt), [IntoWeth(), IntoUsdg()], Some("HOOKR"), Some("1")) == (Steps(), Some("USDG"))
    ensures SettlesCleanly(Steps())
  {
    hide Walk, Adapters, Manifest, Trim, ParseRouterAmount;
    EighteenFits();
    PairSymbols();
    FirstSwapWalks(rt, HOOKR_WETH, "b", "", "1");
    SecondSwapWalks(rt, HOOKR_WETH, WETH_USDG, IntoWeth(), SwapStep(HOOKR_WETH, "b", 1, "1"), "c", "1", "1");
    assert "HOOKR"[0] == 'H' && "WETH"[0] == 'W' && "USDG"[0] == 'U';
  }

  lemma Reduces(rt: Runtime)
    ensures Reduce(Place(rt), Drawing()) == Some(Mapping(Place(rt), Steps(), 100, DEFAULT_POLICY))
  {
    hide OfKind, Walk, ResolvePolicy, SeatsStructurally, SlippageBps, BadSlippage, Steps, SettlesCleanly, Reduce,
         ParseRouterAmount, Trim, Mapping;
    var chain := Drawing();
    Kinds(Source);
    Kinds(Action);
    Kinds(Sink);
    EighteenFits();
    BothWalk(rt);
    StepCount();
    DefaultPolicy(rt, chain);
    DrawingSeats();
    DrawingReduces(rt, chain, Opening(), [IntoWeth(), IntoUsdg()], Steps(), "HOOKR", "1", DEFAULT_POLICY);
  }

  lemma StepCount()
    ensures |Steps()| == 2
  {
  }

  // ---- through the handoff -------------------------------------------------

  lemma PlanOfSteps()
    ensures PlanSteps(Steps()) == PLAN
  {
    hide Id, Manifest;
    Aligned(HOOKR_WETH);
    Aligned(WETH_USDG);
  }

  /** An amount of one resolves on any shipped route. */
  lemma OneResolves(i: nat)
    requires i < 8 && ParseRouterAmount("1", Manifest()[i].tokenIn.decimals).Some?
    ensures var step := LivePolicy.ResolveStep(Manifest(), PlanStep(Id(i), "1"));
            step.Some? && step.value.route == Manifest()[i]
  {
    hide ParseRouterAmount, Manifest, Id, RouteById;
    Aligned(i);
    RouteFound(i);
  }

  lemma PlanResolves()
    ensures LivePolicy.Resolve(Manifest(), PLAN).Some?
  {
    hide ParseRouterAmount, LivePolicy.TrackedBySteps, LivePolicy.Unique, Manifest, Id, LivePolicy.FormatPlan,
         LivePolicy.ResolveStep, LivePolicy.ResolveSteps;
    EighteenFits();
    PairLinks();
    OneResolves(HOOKR_WETH);
    OneResolves(WETH_USDG);
    var steps := LivePolicy.ResolveSteps(Manifest(), PLAN).value;
    assert LivePolicy.ResolveStep(Manifest(), PLAN[0]) == Some(steps[0]);
    assert LivePolicy.ResolveStep(Manifest(), PLAN[1]) == Some(steps[1]);
    FewAssets(steps);
  }

  lemma PairLinks()
    ensures Manifest()[HOOKR_WETH].tokenOut == Manifest()[WETH_USDG].tokenIn == WETH
    ensures Manifest()[HOOKR_WETH].data == MinAmountOut
    ensures Manifest()[HOOKR_WETH].tokenIn == HOOKR && Manifest()[WETH_USDG].tokenOut == USDG
  {
  }

  lemma FewAssets(steps: seq<LivePolicy.ResolvedStep>)
    requires |steps| == 2
    ensures |LivePolicy.Unique(LivePolicy.TrackedBySteps(steps))| <= 4
  {
    hide LivePolicy.Unique;
    assert steps[..1][..0] == [] && |LivePolicy.TrackedBySteps(steps[..1])| == 2;
    UniqueShrinks(LivePolicy.TrackedBySteps(steps));
  }

  /** As a one-shot policy the drawing is handed off whole: both steps resolve for the signer, and it meets
      every hypothesis of `Pipeline.DrawingExecutesAsDrawn`. */
  lemma BothStepsCanBeSigned(rt: Runtime)
    ensures var env := Place(rt);
            && WellFormed(env.manifest) && WellNamed(env) && ReduceRoute(env, Drawing()).Some?
            && ReduceRoute(env, Drawing()).value.steps == PLAN
            && LivePolicy.Resolve(env.manifest, PLAN).Some?
    ensures ReduceRoute(Place(rt), Drawing()).value.slippageBps == 100
            && ReduceRoute(Place(rt), Drawing()).value.executionPolicy == DEFAULT_POLICY
  {
    hide Reduce, Encode, LivePolicy.Resolve, WellFormed, WellNamed, Drawing, Steps, Manifest, Adapters, Shapes, Id;
    var env := Place(rt);
    ManifestIsWellFormed();
    PlaceIsWellNamed(rt);
    Reduces(rt);
    StepCount();
    HandoffAlwaysEncodes(env, Drawing());
    PlanOfSteps();
    PlanResolves();
  }

  lemma NothingRecurring(catalog: Catalog)
    ensures RouteChain(catalog, Drawing()) == Drawing()
  {
  }

  lemma BlockSnoc(front: Chain, last: ChainNode, id: string)
    ensures WithBlock(front + [last], id) == WithBlock(front, id) + if last.blockId == id then [last] else []
    ensures WithBlock([], id) == []
  {
    assert (front + [last])[..|front|] == front;
  }

  lemma Placed(id: string)
    requires id != "wallet-balance" && id != "swap"
    ensures WithBlock(Drawing(), id) == if id == "price-trigger" then [ALARM] else []
  {
    hide WithBlock;
    var none: Chain, a, b, c := [], Opening(), IntoWeth(), IntoUsdg();
    BlockSnoc(none, a, id);
    BlockSnoc([a], b, id);
    BlockSnoc([a, b], c, id);
    BlockSnoc([a, b, c], ALARM, id);
    assert none + [a] == [a] && [a] + [b] == [a, b] && [a, b] + [c] == [a, b, c] && [a, b, c] + [ALARM] == Drawing();
  }

  lemma NothingUnenforceable()
    ensures forall i :: 0 <= i < |Drawing()| ==> !Unenforceable(Shapes(), Drawing()[i], false)
  {
    hide Shapes, KindAt;
    KindsThere();
    var d := Drawing();
    assert d[0] == Opening() && d[1] == IntoWeth() && d[2] == IntoUsdg() && d[3] == ALARM;
  }

  lemma Triggered(rt: Runtime)
    ensures ModeOf(rt, Shapes(), Drawing()) == Some(Trigger("up10", 30))
  {
    hide WithBlock, Unenforceable, Shapes, Drawing;
    Placed("recurring-stream");
    Placed("price-trigger");
    Placed("guard-window");
    NothingUnenforceable();
  }

  /** The builder accepts this drawing of two swaps as an automation of its first swap alone. */
  lemma SecondStepIsLost(rt: Runtime)
    ensures var d := DesignOf(Configured(rt), Drawing());
            && d == Some(Design(Id(HOOKR_WETH), "1", 100, Trigger("up10", 30), DEFAULT_POLICY))
            && !KeepsTheDrawing(Configured(rt), Drawing(), d.value)
            && Reduce(Place(rt), RouteChain(Shapes(), Drawing())).Some?
            && PlanSteps(Reduce(Place(rt), RouteChain(Shapes(), Drawing())).value.steps) == PLAN
  {
    hide ReduceRoute, Reduce, RouteChain, ModeOf, WithBlock, Drawing, Manifest, Adapters, Shapes, Id, Steps;
    NothingRecurring(Shapes());
    Reduces(rt);
    StepCount();
    PlanOfSteps();
    HandedOff(rt);
    Triggered(rt);
    Aligned(HOOKR_WETH);
    RouteFound(HOOKR_WETH);
    Placed("guard-spend");
  }

  lemma HandedOff(rt: Runtime)
    ensures var r := ReduceRoute(Place(rt), Drawing());
            && r.Some? && r.value.routeId == Id(HOOKR_WETH) && r.value.amountIn == "1"
            && r.value.slippageBps == 100 && r.value.executionPolicy == DEFAULT_POLICY
  {
    hide Reduce, Encode, LivePolicy.Resolve, Drawing, Id, Manifest, Adapters, Shapes;
    BothStepsCanBeSigned(rt);
    Reduces(rt);
  }
}
