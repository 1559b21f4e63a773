/** Concrete inputs for the properties that fail: each is accepted by the code, and shows that the exact
    condition beside it really is needed. */
module Witnesses {
  import opened Prelude
  import opened Decimals
  import opened Amounts
  import opened PlanToken
  import opened Routes
  import opened Blocks
  import opened ExecutionPolicy
  import opened Deployable
  import opened LiveRoute
  import opened Automation
  import opened Shipped
  import opened DroppedSteps
  import LivePolicy
  import GuardOrder
  import E = Execution
  import O = OneShot
  import R = RateLimits
  import T = Triggers

  /** One swap of the pair, drawn from a wallet balance. */
  function OneSwap(i: nat, amount: string): Chain
    requires i < 8
  {
    [Wallet("a", Adapters()[i].tokenIn, amount), SwapNode("b", Adapters()[i].tokenOut, "")]
  }

  lemma OneSwapKinds(i: nat, amount: string, kind: BlockKind)
    requires i < 8
    ensures OfKind(Shapes(), OneSwap(i, amount), kind)
            == match kind
               case Source => [OneSwap(i, amount)[0]]
               case Action => [OneSwap(i, amount)[1]]
               case _ => []
  {
    hide OfKind, Adapters;
    var none: Chain, c := [], OneSwap(i, amount);
    KindSnoc(Shapes(), none, c[0], kind);
    KindSnoc(Shapes(), [c[0]], c[1], kind);
    assert none + [c[0]] == [c[0]] && [c[0]] + [c[1]] == c;
    NoKinds(kind);
  }

  lemma OneSwapSeats(i: nat, amount: string)
    requires i < 8
    ensures SeatsStructurally(Shapes(), OneSwap(i, amount))
  {
    hide Adapters;
    var c := OneSwap(i, amount);
    assert c[1..] == [c[1]] && c[1..][1..] == [];
    assert Seats(Shapes(), c[1..], Some(TokenShape), 1);
    SeatsAre(c);
  }

  lemma SwapSettles(i: nat, amount: string)
    requires i < 8
    ensures SettlesCleanly([SwapStep(i, "b", 1, amount)])
  {
    hide Adapters;
    Symbols(i);
  }

  lemma OneSwapReduces(rt: Runtime, i: nat, amount: string)
    requires i < 8 && amount != "" && Trim(amount) == amount && ParseRouterAmount(amount, 18).Some?
    ensures Reduce(Place(rt), OneSwap(i, amount))
            == Some(Mapping(Place(rt), [SwapStep(i, "b", 1, amount)], 100, DEFAULT_POLICY))
  {
    hide OfKind, Walk, ResolvePolicy, SeatsStructurally, SlippageBps, BadSlippage, SettlesCleanly, Reduce, Adapters,
         ParseRouterAmount, Trim, Mapping, Manifest, SwapStep;
    var c := OneSwap(i, amount);
    OneSwapKinds(i, amount, Source);
    OneSwapKinds(i, amount, Action);
    OneSwapKinds(i, amount, Sink);
    FirstSwapWalks(rt, i, "b", "", amount);
    SwapSettles(i, amount);
    DefaultPolicy(rt, c);
    OneSwapSeats(i, amount);
    DrawingReduces(rt, c, c[0], [c[1]], [SwapStep(i, "b", 1, amount)], Adapters()[i].tokenIn, amount, DEFAULT_POLICY);
  }

  // ---- a single step that reduces and cannot be signed ---------------------

  const DUST := "0.0000001"

  lemma DustDigits()
    ensures Value("0000001") == 1
  {
    var s := "0000001";
    assert s[..6] == "000000" && s[..6][..5] == "00000" && s[..6][..5][..4] == "0000";
    assert s[..6][..5][..4][..3] == "000" && s[..6][..5][..4][..3][..2] == "00";
    assert Value("00") == 0;
    assert Value(s[..6][..5][..4]) == 0;
    assert Value(s[..6]) == 0;
  }

  lemma DustText()
    ensures IsDecimal(DUST) && Whole(DUST) == "0" && Fraction(DUST) == "0000001" && Trim(DUST) == DUST
  {
    hide Trim;
    IndexOfSpec(DUST, '.');
    assert DUST[0] == '0' && DUST[1] == '.' && DUST[|DUST| - 1] == '1';
    assert DUST[..1] == "0" && DUST[2..] == "0000001";
    TrimKeeps(DUST);
  }

  lemma TrimKeeps(s: string)
    requires s != "" && !IsSpace(s[0]) && !IsSpace(s[|s| - 1])
    ensures Trim(s) == s
  {
  }

  lemma DustMantissa()
    ensures IsDecimal(DUST) && Mantissa(DUST) == 1
  {
    hide Scale, Value, Trim;
    DustText();
    DustDigits();
    ZeroText();
    ScaleZero(7);
  }

  lemma ZeroText()
    ensures Value("0") == 0
  {
  }

  lemma DustParses()
    ensures ParseRouterAmount(DUST, 18).Some? && Trim(DUST) == DUST && |Fraction(Trim(DUST))| == 7
  {
    hide Scale, Value, Trim, Whole, Fraction, IsDecimal, Mantissa, ParseUnits;
    DustText();
    DustMantissa();
    ParseUnitsExact(DUST, 18);
    ScaleAtLeast(11);
    ElevenFits();
  }

  lemma ElevenFits()
    ensures Scale(1, 11) <= MAX_ROUTER_AMOUNT
  {
    assert Scale(1, 3) == 1000;
    ThreeMore(3);
    ThreeMore(6);
    assert Scale(1, 11) == 100 * Scale(1, 9) by { assert Scale(1, 11) == 10 * Scale(1, 10); }
  }

  /** A tenth of a millionth of a USDG: the builder hands the swap off, and the signer refuses it. */
  lemma DustReducesButCannotBeSigned(rt: Runtime)
    ensures var r := ReduceRoute(Place(rt), OneSwap(USDG_WETH, DUST));
            && r.Some? && r.value.steps == [PlanStep(Id(USDG_WETH), DUST)]
            && LivePolicy.Resolve(Manifest(), r.value.steps).None?
  {
    hide Reduce, Encode, LivePolicy.Resolve, Manifest, Adapters, Shapes, Id, OneSwap, ParseRouterAmount, Trim, Fraction;
    var env, chain := Place(rt), OneSwap(USDG_WETH, DUST);
    DustParses();
    OneSwapReduces(rt, USDG_WETH, DUST);
    PlaceIsWellNamed(rt);
    HandoffAlwaysEncodes(env, chain);
    Aligned(USDG_WETH);
    assert PlanSteps([SwapStep(USDG_WETH, "b", 1, DUST)]) == [PlanStep(Id(USDG_WETH), DUST)];
    RouteFound(USDG_WETH);
    SixDecimals();
    SingleStepSigns(env, chain);
  }

  lemma SixDecimals()
    ensures Manifest()[USDG_WETH].tokenIn.decimals == 6
  {
  }

  // ---- a guard that loosens ------------------------------------------------

  const CAP := ChainNode("g", "guard-slippage", map["bps" := Number(105.0)])

  function Plain(): Chain {
    OneSwap(WETH_ZAPS, "1")
  }

  lemma CapSays(rt: Runtime)
    ensures CapOf(rt, SlippageCap, CAP) == Some(105.0)
    ensures CapOf(rt, GasCap, CAP).None? && CapOf(rt, FeeCap, CAP).None?
    ensures !Objects(rt, CAP) && !Restricts(rt, CAP) && !BadSlippage(rt, CAP)
  {
  }

  lemma CappedPolicy(rt: Runtime, chain: Chain)
    requires forall node :: node in chain ==> Silent(node)
    ensures ResolvePolicy(rt, chain + [CAP]) == Some(DEFAULT_POLICY) && SlippageBps(rt, chain + [CAP]) == 110
    ensures forall i :: 0 <= i < |chain + [CAP]| ==> !BadSlippage(rt, (chain + [CAP])[i])
  {
    hide Caps, CapOf, Objects, Restricts, BadSlippage;
    var all := chain + [CAP];
    forall kind ensures Caps(rt, kind, all) == if kind == SlippageCap then [105.0] else [] {
      NoCaps(rt, kind, chain);
      CapsSnoc(rt, kind, chain, CAP);
      CapSays(rt);
    }
    CapSays(rt);
    forall i | 0 <= i < |all| ensures !Objects(rt, all[i]) && !Restricts(rt, all[i]) && !BadSlippage(rt, all[i]) {
      if i < |chain| {
        assert Silent(chain[i]);
        SilentIsQuiet(rt, chain[i]);
      }
    }
    assert DeployedBps(105.0) == 110;
  }

  lemma SilentIsQuiet(rt: Runtime, node: ChainNode)
    requires Silent(node)
    ensures !Objects(rt, node) && !Restricts(rt, node) && !BadSlippage(rt, node)
  {
  }

  lemma CappedSeats()
    ensures SeatsStructurally(Shapes(), Plain() + [CAP])
  {
    hide SeatsStructurally, Shapes, CompileNodes, Adapters, OneSwap, GuardOrder.Faults, GuardOrder.ShapeAfter;
    OneSwapSeats(WETH_ZAPS, "1");
    CapIsGuard();
    GuardOrder.StructureSnoc(Shapes(), Plain(), CAP);
    GuardOrder.GuardsPass(Shapes(), CAP);
  }

  lemma CapIsGuard()
    ensures KindAt(Shapes(), CAP) == Some(Guard)
  {
  }

  lemma CappedKinds(kind: BlockKind)
    ensures kind != Guard ==> OfKind(Shapes(), Plain() + [CAP], kind) == OfKind(Shapes(), Plain(), kind)
  {
    hide OfKind, Adapters, OneSwap;
    KindSnoc(Shapes(), Plain(), CAP, kind);
    CapIsGuard();
  }

  /** Placing a first cap of 105 bps deploys at 110 where the same drawing without it deploys at 100. */
  lemma FirstCapLoosens(rt: Runtime)
    ensures var a, b := Reduce(Place(rt), Plain()), Reduce(Place(rt), Plain() + [CAP]);
            a.Some? && b.Some? && a.value.slippageBps == 100 && b.value == a.value.(slippageBps := 110)
  {
    hide OfKind, Walk, ResolvePolicy, SeatsStructurally, SlippageBps, BadSlippage, SettlesCleanly, Reduce, Adapters,
         ParseRouterAmount, Trim, Manifest, SwapStep, Shapes;
    EighteenFits();
    OneSwapReduces(rt, WETH_ZAPS, "1");
    var plain, steps := Plain(), [SwapStep(WETH_ZAPS, "b", 1, "1")];
    CappedKinds(Source);
    CappedKinds(Action);
    CappedKinds(Sink);
    OneSwapKinds(WETH_ZAPS, "1", Source);
    OneSwapKinds(WETH_ZAPS, "1", Action);
    OneSwapKinds(WETH_ZAPS, "1", Sink);
    FirstSwapWalks(rt, WETH_ZAPS, "b", "", "1");
    SwapSettles(WETH_ZAPS, "1");
    CappedPolicy(rt, plain);
    CappedSeats();
    KnownBlocks();
    DrawingReduces(rt, plain + [CAP], plain[0], [plain[1]], steps, Adapters()[WETH_ZAPS].tokenIn, "1", DEFAULT_POLICY);
  }

  lemma KnownBlocks()
    ensures forall i :: 0 <= i < |Plain() + [CAP]| ==> (Plain() + [CAP])[i].blockId in Shapes()
  {
    hide Adapters;
  }

  // ---- a retry that comes too early ----------------------------------------

  const ASK := R.Call("k", 0, 1, 1000)

  /** Two calls at once against a limit of one a second: the second is told to wait one second, waits
      exactly that, and is refused again. */
  lemma RetryComesTooEarly(d: R.Discipline, cap: nat)
    requires cap > 0
    ensures var once := R.After(d, cap, [ASK]).0;
            && once == [R.Entry("k", 1, 1000)] && R.Refused(once, ASK)
            && R.RetryAfterSeconds(R.TimeLeft(once, ASK)) == 1
            && R.Refused(R.Served(d, cap, once, ASK), ASK.(now := 1000))
  {
    assert [ASK][..0] == [];
    assert R.After(d, cap, []).0 == [];
    var once := [R.Entry("k", 1, 1000)];
    assert R.After(d, cap, [ASK]).0 == once;
    R.RefusedAgain(d, cap, once, ASK, 1000);
  }

  // ---- a fall that arms at its baseline ------------------------------------

  /** A fall of five percent signed at a baseline of one: the price that did not move arms it. */
  lemma UnmovedPriceArms()
    ensures var c := T.FeedCondition(500, false);
            c == Some(T.Condition(true, 526)) && T.Armed(1, 1, 526, true)
  {
  }

  // ---- a Permit2 pull that cannot be consumed ------------------------------

  const ROUND_TRIP := [PlanStep(Id(WETH_USDG), "1"), PlanStep(Id(USDG_WETH), "1"), PlanStep(Id(WETH_ZAPS), "1")]

  lemma SixFits()
    ensures ParseRouterAmount("1", 6).Some?
  {
    hide ParseRouterAmount;
    One(6);
    assert Scale(1, 3) == 1000;
    ThreeMore(3);
  }

  lemma RoundTripRoutes()
    ensures var a, b, c := Manifest()[WETH_USDG], Manifest()[USDG_WETH], Manifest()[WETH_ZAPS];
            && a.tokenIn == b.tokenOut == c.tokenIn == WETH && a.tokenOut == b.tokenIn == USDG && c.tokenOut == ZAPS
            && a.data == b.data == MinAmountOut && c.data == EmptyData
  {
  }

  lemma RoundTripResolves()
    ensures var r := LivePolicy.Resolve(Manifest(), ROUND_TRIP);
            && r.Some? && |r.value.steps| == 3
            && r.value.steps[0].route == Manifest()[WETH_USDG] && r.value.steps[1].route == Manifest()[USDG_WETH]
            && r.value.steps[2].route == Manifest()[WETH_ZAPS] && r.value.outputRoute == Manifest()[WETH_ZAPS]
  {
    hide ParseRouterAmount, LivePolicy.TrackedBySteps, LivePolicy.Unique, Manifest, Id, LivePolicy.FormatPlan,
         LivePolicy.ResolveStep, LivePolicy.ResolveSteps;
    EighteenFits();
    SixFits();
    RoundTripRoutes();
    OneResolves(WETH_USDG);
    OneResolves(USDG_WETH);
    OneResolves(WETH_ZAPS);
    var steps := LivePolicy.ResolveSteps(Manifest(), ROUND_TRIP).value;
    assert LivePolicy.ResolveStep(Manifest(), ROUND_TRIP[0]) == Some(steps[0]);
    assert LivePolicy.ResolveStep(Manifest(), ROUND_TRIP[1]) == Some(steps[1]);
    assert LivePolicy.ResolveStep(Manifest(), ROUND_TRIP[2]) == Some(steps[2]);
    FewTracked(steps);
  }

  lemma FewTracked(steps: seq<LivePolicy.ResolvedStep>)
    requires |steps| == 3
    ensures |LivePolicy.Unique(LivePolicy.TrackedBySteps(steps))| <= 6
  {
    hide LivePolicy.Unique;
    assert steps[..2][..1][..0] == [] && |LivePolicy.TrackedBySteps(steps[..2][..1])| == 2;
    assert |LivePolicy.TrackedBySteps(steps[..2])| == 4;
    UniqueShrinks(LivePolicy.TrackedBySteps(steps));
  }

  /** The round trip's outputs: the minimum asked for, and `extra` WETH on the way back. */
  function Delivered(steps: seq<LivePolicy.PolicyStep>, extra: nat): seq<E.Output>
    requires |steps| == 3
  {
    [E.Output(USDG.address, steps[1].amountIn), E.Output(WETH.address, steps[2].amountIn + extra),
     E.Output(ZAPS.address, 1)]
  }

  const INTENT := O.Intent(ZAPS.address, 1, 0, 0)
  const REGISTRY := O.Registry({11, 12}, {1, 2, 3})

  lemma RoundTripBuilds(owner: Address)
    ensures LivePolicy.Resolve(Manifest(), ROUND_TRIP).Some?
    ensures var r := LivePolicy.Resolve(Manifest(), ROUND_TRIP).value;
            var policy := LivePolicy.Build(owner, r);
            && policy.Some? && |r.steps| == 3 && E.Compiled(r.steps, policy.value.steps)
            && forall i :: 0 <= i < 3 ==> r.steps[i].amountIn > 0
  {
    hide LivePolicy.Resolve, LivePolicy.Build, Manifest, E.Compiled, WellFormed, Id;
    ManifestIsWellFormed();
    RoundTripResolves();
    E.ResolvedCompiles(Manifest(), owner, ROUND_TRIP);
    E.ResolvedRoutes(Manifest(), ROUND_TRIP);
  }

  lemma RoundTripHonoured(steps: seq<LivePolicy.ResolvedStep>, policySteps: seq<LivePolicy.PolicyStep>, extra: nat)
    requires |steps| == 3 && E.Compiled(steps, policySteps) && forall i :: 0 <= i < 3 ==> steps[i].amountIn > 0
    requires steps[0].route == Manifest()[WETH_USDG] && steps[1].route == Manifest()[USDG_WETH]
    requires steps[2].route == Manifest()[WETH_ZAPS]
    ensures E.Honours(steps, policySteps, Delivered(policySteps, extra))
    ensures forall k :: 0 <= k < 3 ==> O.Permitted(REGISTRY, policySteps, Delivered(policySteps, extra), k)
    ensures policySteps[0].tokenIn == WETH.address
  {
    hide Id;
    RoundTripRoutes();
  }

  /** A plan that comes back to its input token: the same run, one unit of WETH over on the way back,
      succeeds on a deposit and reverts on a Permit2 pull. */
  lemma SurplusBlocksThePull(owner: Address)
    ensures LivePolicy.Resolve(Manifest(), ROUND_TRIP).Some?
    ensures var policy := LivePolicy.Build(owner, LivePolicy.Resolve(Manifest(), ROUND_TRIP).value);
            && policy.Some? && |policy.value.steps| == 3
            && var steps, outputs := policy.value.steps, Delivered(policy.value.steps, 1);
               O.Succeeds(REGISTRY, INTENT, O.Deposited, steps, outputs, E.Funded(map[], steps))
               && !O.Succeeds(REGISTRY, INTENT, O.Pulled(WETH.address, 0), steps, outputs, E.Funded(map[], steps))
  {
    hide LivePolicy.Resolve, LivePolicy.Build, Manifest, WellFormed, Id, E.Honours, O.Permitted, O.Succeeds, E.Funded;
    ManifestIsWellFormed();
    RoundTripResolves();
    RoundTripRoutes();
    RoundTripBuilds(owner);
    var r := LivePolicy.Resolve(Manifest(), ROUND_TRIP).value;
    var steps := LivePolicy.Build(owner, r).value.steps;
    var outputs, prior: E.Ledger := Delivered(steps, 1), map[];
    RoundTripHonoured(r.steps, steps, 1);
    assert outputs[1].token == WETH.address && outputs[1].amount == steps[2].amountIn + 1;
    assert !O.NothingStranded(steps, outputs, WETH.address) && O.MeetsMinimum(INTENT, outputs[2].amount);
    assert E.Balance(prior, WETH.address) == 0;
    O.AcceptedPlansSettle(Manifest(), owner, ROUND_TRIP, prior, outputs, REGISTRY, INTENT, false);
    O.AcceptedPlansSettle(Manifest(), owner, ROUND_TRIP, prior, outputs, REGISTRY, INTENT, true);
  }
}
