/** A recurring drawing the builder accepts and the capsule never runs: WETH into 0xZAPS every week, with no
    slippage cap placed, so that the default band of 100 bps is signed. */
module StalledSeries {
  import opened Prelude
  import opened Amounts
  import opened Decimals
  import opened PlanToken
  import opened Blocks
  import opened ExecutionPolicy
  import opened Deployable
  import opened LiveRoute
  import opened Automation
  import opened Drafts
  import opened Shipped
  import opened DroppedSteps
  import opened Witnesses

  const STREAM := ChainNode("a", "recurring-stream",
                            map["asset" := Text("WETH"), "amount" := Text("1"), "cadence" := Text("weekly"),
                                "runs" := Number(12.0)])

  function Weekly(): Chain {
    [STREAM, SwapNode("b", "0xZAPS", "")]
  }

  /** Automation on the bounded pair, as shipped. */
  function Bounded(rt: Runtime): Site {
    Site(Place(rt), [Id(WETH_ZAPS), Id(ZAPS_WETH)])
  }

  const WEEKLY_DESIGN :=
    Design(Id(WETH_ZAPS), "1", 100, Mode.Recurring("weekly", 12, None), DEFAULT_POLICY)

  lemma StreamAsWallet()
    ensures AsWalletSource(Shapes(), STREAM) == Wallet("a", "WETH", "1")
  {
  }

  lemma BoundedSymbols()
    ensures Adapters()[WETH_ZAPS].tokenIn == "WETH" && Adapters()[WETH_ZAPS].tokenOut == "0xZAPS"
  {
  }

  lemma WeeklyRoute()
    ensures RouteChain(Shapes(), Weekly()) == OneSwap(WETH_ZAPS, "1")
  {
    hide Adapters, Shapes, AsWalletSource;
    StreamAsWallet();
    BoundedSymbols();
  }

  lemma WeeklyHandsOff(rt: Runtime)
    ensures var r := ReduceRoute(Place(rt), OneSwap(WETH_ZAPS, "1"));
            && r.Some? && r.value.routeId == Id(WETH_ZAPS) && r.value.amountIn == "1"
            && r.value.slippageBps == 100 && r.value.executionPolicy == DEFAULT_POLICY
  {
    hide Reduce, Encode, Manifest, Adapters, Shapes, Id, OneSwap, ParseRouterAmount, Trim;
    EighteenFits();
    OneSwapReduces(rt, WETH_ZAPS, "1");
    PlaceIsWellNamed(rt);
    HandoffAlwaysEncodes(Place(rt), OneSwap(WETH_ZAPS, "1"));
    Aligned(WETH_ZAPS);
  }

  lemma WeeklyBlocks(id: string)
    requires id != "swap"
    ensures WithBlock(Weekly(), id) == if id == "recurring-stream" then [STREAM] else []
  {
    hide WithBlock;
    var none: Chain, swap := [], SwapNode("b", "0xZAPS", "");
    BlockSnoc(none, STREAM, id);
    BlockSnoc([STREAM], swap, id);
    assert none + [STREAM] == [STREAM] && [STREAM] + [swap] == Weekly();
  }

  lemma WeeklyKinds()
    ensures forall i :: 0 <= i < |Weekly()| ==> !Unenforceable(Shapes(), Weekly()[i], true)
  {
  }

  lemma WeeklyMode(rt: Runtime)
    ensures ModeOf(rt, Shapes(), Weekly()) == Some(Mode.Recurring("weekly", 12, None))
  {
    hide WithBlock, Unenforceable, Shapes, Weekly;
    WeeklyBlocks("recurring-stream");
    WeeklyBlocks("price-trigger");
    WeeklyBlocks("guard-window");
    WeeklyKinds();
  }

  lemma WeeklyIsDesigned(rt: Runtime)
    ensures DesignOf(Bounded(rt), Weekly()) == Some(WEEKLY_DESIGN)
  {
    hide ReduceRoute, Reduce, RouteChain, ModeOf, WithBlock, Weekly, Manifest, Adapters, Shapes, Id, OneSwap;
    WeeklyRoute();
    WeeklyHandsOff(rt);
    WeeklyMode(rt);
    Aligned(WETH_ZAPS);
    RouteFound(WETH_ZAPS);
    WeeklyBlocks("guard-spend");
  }

  /** The drawing is accepted and drafts, and as long as outputs stay three units under spot not one of its
      twelve runs ever executes. */
  lemma UncappedSeriesNeverRuns(rt: Runtime, now: nat, outIsC1: bool)
    requires now < 0x1_0000_0000_0000
    ensures DesignOf(Bounded(rt), Weekly()) == Some(WEEKLY_DESIGN)
    ensures var drafted := DraftPreset(Intended(WEEKLY_DESIGN), now);
            drafted.Some? && Signable(drafted.value) && NeverRuns(drafted.value, outIsC1, now)
  {
    hide DesignOf, LegalDesign, DraftPreset, Intended, NeverRuns, CanComplete, Signable, Weekly, Id, Bounded;
    WeeklyIsDesigned(rt);
    DesignsAreLegal(Bounded(rt), Weekly());
    UnderSpotSeries(WEEKLY_DESIGN, Bounded(rt).automationRoutes, now, outIsC1);
  }
}
