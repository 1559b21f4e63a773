/** The swap routes the app ships (`chains.ts`, `routes.ts`), with the optional HOOKR adapter configured:
    ids, token sides, decimals, data kinds and welded parameters as listed, addresses and pool ids as
    stand-in numbers. An instance of every manifest hypothesis, and the ground for concrete drawings. */
module Shipped {
  import opened Prelude
  import opened Decimals
  import opened Amounts
  import PlanToken
  import opened Routes
  import LivePolicy
  import AcceptedPlans
  import opened Blocks
  import opened ExecutionPolicy
  import opened Deployable
  import opened LiveRoute

  const WETH := Token(1, 18)
  const ZAPS := Token(2, 18)
  const USDG := Token(3, 6)
  const HOOKR := Token(4, 18)

  const WETH_ZAPS := 0
  const ZAPS_WETH := 1
  const WETH_USDG := 2
  const USDG_WETH := 3
  const WETH_HOOKR := 4
  const HOOKR_WETH := 5
  const USDG_ZAPS := 6
  const ZAPS_USDG := 7

  const PREFIX := "robinhood-v4-"

  function Tail(i: nat): (tail: string)
    requires i < 8
  {
    ["weth-zaps", "zaps-weth", "weth-usdg", "usdg-weth", "weth-hookr", "hookr-weth", "route-usdg-zaps",
     "route-zaps-usdg"][i]
  }

  function Id(i: nat): string
    requires i < 8
  {
    PREFIX + Tail(i)
  }

  function PoolRoute(id: string, adapter: Address, tokenIn: Token, tokenOut: Token, data: DataKind, pool: nat): Route {
    Route(id, adapter, adapter, tokenIn, tokenOut,
          if tokenIn.address < tokenOut.address then (tokenIn.address, tokenOut.address)
          else (tokenOut.address, tokenIn.address), data, V4(pool))
  }

  function StitchedRoute(id: string, adapter: Address, tokenIn: Token, tokenOut: Token): Route {
    Route(id, adapter, adapter, tokenIn, tokenOut, (tokenIn.address, tokenOut.address), MinAmountOut, OtherQuote)
  }

  /** The bounded pair takes no step data; every other swap binds a minimum. */
  function Manifest(): (manifest: seq<Route>)
    ensures |manifest| == 8
  {
    [PoolRoute(Id(WETH_ZAPS), 11, WETH, ZAPS, EmptyData, 21),
     PoolRoute(Id(ZAPS_WETH), 11, ZAPS, WETH, EmptyData, 21),
     PoolRoute(Id(WETH_USDG), 12, WETH, USDG, MinAmountOut, 22),
     PoolRoute(Id(USDG_WETH), 12, USDG, WETH, MinAmountOut, 22),
     PoolRoute(Id(WETH_HOOKR), 13, WETH, HOOKR, MinAmountOut, 23),
     PoolRoute(Id(HOOKR_WETH), 13, HOOKR, WETH, MinAmountOut, 23),
     StitchedRoute(Id(USDG_ZAPS), 14, USDG, ZAPS),
     StitchedRoute(Id(ZAPS_USDG), 15, ZAPS, USDG)]
  }

  const VENUE := "Uniswap v4"

  function Spec(id: string, kind: AdapterKind, tokenIn: string, tokenOut: string, direction: Option<Direction>,
                address: Address): AdapterSpec {
    AdapterSpec(id, Some("swap"), kind, tokenIn, tokenOut, map["venue" := VENUE], direction, Some(address))
  }

  function Adapters(): (adapters: seq<AdapterSpec>)
    ensures |adapters| == 8
  {
    [Spec(Id(WETH_ZAPS), Swap, "WETH", "0xZAPS", Some(Buy), 11),
     Spec(Id(ZAPS_WETH), Swap, "0xZAPS", "WETH", Some(Sell), 11),
     Spec(Id(WETH_USDG), Swap, "WETH", "USDG", None, 12),
     Spec(Id(USDG_WETH), Swap, "USDG", "WETH", None, 12),
     Spec(Id(WETH_HOOKR), Swap, "WETH", "HOOKR", None, 13),
     Spec(Id(HOOKR_WETH), Swap, "HOOKR", "WETH", None, 13),
     Spec(Id(USDG_ZAPS), SwapRoute, "USDG", "0xZAPS", None, 14),
     Spec(Id(ZAPS_USDG), SwapRoute, "0xZAPS", "USDG", None, 15)]
  }

  /** The blocks the drawings below use; the reduction reads no parameter domain. */
  function Shapes(): Catalog {
    map["wallet-balance" := LegoBlock(Source, None, Some(TokenShape), 46000, []),
        "recurring-stream" := LegoBlock(Source, None, Some(TokenShape), 52000, []),
        "swap" := LegoBlock(Action, Some(TokenShape), Some(TokenShape), 132000, []),
        "guard-slippage" := LegoBlock(Guard, None, None, 0, []),
        "price-trigger" := LegoBlock(Guard, None, None, 24000, [])]
  }

  function Place(rt: Runtime): Env {
    Env(rt, Shapes(), Adapters(), Manifest())
  }

  // ---- the manifest hypotheses hold ----------------------------------------

  /** Characters that tell the ids apart. */
  lemma Marks(i: nat)
    requires i < 8
    ensures |Tail(i)| >= 9
    ensures (Tail(i)[0], Tail(i)[5], Tail(i)[6])
            == [('w', 'z', 'a'), ('z', 'w', 'e'), ('w', 'u', 's'), ('u', 'w', 'e'), ('w', 'h', 'o'), ('h', '-', 'w'),
                ('r', '-', 'u'), ('r', '-', 'z')][i]
  {
  }

  lemma IdsDiffer(i: nat, j: nat)
    requires i < 8 && j < 8 && Id(i) == Id(j)
    ensures i == j
  {
    hide Tail;
    assert Id(i)[|PREFIX|..] == Tail(i) && Id(j)[|PREFIX|..] == Tail(j);
    Marks(i);
    Marks(j);
  }

  predicate IdText(s: string) {
    forall i :: 0 <= i < |s| ==> PlanToken.IsIdChar(s[i]) || s[i] == '-'
  }

  lemma IdTexts(i: nat)
    requires i < 8
    ensures IdText(Tail(i)) && |Tail(i)| <= 15
  {
  }

  lemma PrefixText()
    ensures IdText(PREFIX) && PREFIX[0] == 'r' && |PREFIX| == 13
  {
  }

  lemma IdIsRouteId(i: nat)
    requires i < 8
    ensures PlanToken.IsRouteId(Id(i))
  {
    hide Tail;
    IdTexts(i);
    PrefixText();
  }

  /** Adapter and input token already tell the routes apart. */
  lemma DoorsDiffer(i: nat, j: nat)
    requires i < 8 && j < 8 && Manifest()[i].adapter == Manifest()[j].adapter
    requires Manifest()[i].tokenIn.address == Manifest()[j].tokenIn.address
    ensures i == j
  {
  }

  lemma SidesDiffer(i: nat)
    requires i < 8
    ensures var r := Manifest()[i];
            r.tokenIn.address != r.tokenOut.address && QuoteMatches(r) && r.tokenIn.decimals <= 18
  {
  }

  /** The shipped swap manifest meets the hypotheses of the plan theorems. */
  lemma ManifestIsWellFormed()
    ensures WellFormed(Manifest())
  {
    hide Manifest, QuoteMatches, StepDataFits, Id;
    var m := Manifest();
    forall r, s | r in m && s in m && r.id == s.id ensures r == s {
      var i, j :| 0 <= i < |m| && 0 <= j < |m| && m[i] == r && m[j] == s;
      Aligned(i);
      Aligned(j);
      IdsDiffer(i, j);
    }
    forall r | r in m ensures r.tokenIn.address != r.tokenOut.address && QuoteMatches(r) {
      var i :| 0 <= i < |m| && m[i] == r;
      SidesDiffer(i);
    }
    forall r, s, data | r in m && s in m && Routes.SameStep(r, s, data) ensures r == s {
      var i, j :| 0 <= i < |m| && 0 <= j < |m| && m[i] == r && m[j] == s;
      DoorsDiffer(i, j);
    }
  }

  /** Every shipped route tracks what it spends and what it delivers. */
  lemma RoutesTrackTheirTokens(i: nat)
    requires i < 8
    ensures var r := Manifest()[i];
            && (r.tokenIn.address == r.trackedAssets.0 || r.tokenIn.address == r.trackedAssets.1)
            && (r.tokenOut.address == r.trackedAssets.0 || r.tokenOut.address == r.trackedAssets.1)
  {
  }

  /** An accepted plan over the shipped routes tracks what each of its steps spends and delivers, its own
      output among them, and nothing else. */
  lemma PlansTrackTheirTokens(plan: seq<PlanToken.PlanStep>)
    requires LivePolicy.Resolve(Manifest(), plan).Some?
    ensures var r := LivePolicy.Resolve(Manifest(), plan).value;
            forall a :: a in r.trackedAssets <==>
              exists i :: 0 <= i < |r.steps| && (r.steps[i].route.tokenIn.address == a
                                                 || r.steps[i].route.tokenOut.address == a)
  {
    hide Manifest, LivePolicy.Resolve, AcceptedPlans.Mention;
    var m := Manifest();
    var r := LivePolicy.Resolve(m, plan).value;
    AcceptedPlans.AcceptedContents(m, plan);
    forall i | 0 <= i < |plan|
      ensures var route := AcceptedPlans.Line(m, plan, i);
              {route.tokenIn.address, route.tokenOut.address} == {route.trackedAssets.0, route.trackedAssets.1}
    {
      var route := AcceptedPlans.Line(m, plan, i);
      var k :| 0 <= k < |m| && m[k] == route;
      RoutesTrackTheirTokens(k);
      SidesDiffer(k);
    }
    TwoSides(m, plan, r);
  }

  lemma TwoSides(m: seq<Route>, plan: seq<PlanToken.PlanStep>, r: LivePolicy.Resolved)
    requires AcceptedPlans.LinesRead(m, plan) && |r.steps| == |plan| && AcceptedPlans.Tracks(m, plan, r.trackedAssets)
    requires forall i :: 0 <= i < |plan| ==>
               var route := AcceptedPlans.Line(m, plan, i);
               && r.steps[i].route == route
               && {route.tokenIn.address, route.tokenOut.address} == {route.trackedAssets.0, route.trackedAssets.1}
    ensures forall a :: a in r.trackedAssets <==>
              exists i :: 0 <= i < |r.steps| && (r.steps[i].route.tokenIn.address == a
                                                 || r.steps[i].route.tokenOut.address == a)
  {
    hide AcceptedPlans.LinesRead, AcceptedPlans.Line, AcceptedPlans.Mention;
    forall a
      ensures a in r.trackedAssets <==>
              exists i :: 0 <= i < |r.steps| && (r.steps[i].route.tokenIn.address == a
                                                 || r.steps[i].route.tokenOut.address == a)
    {
      if a in r.trackedAssets {
        var i :| 0 <= i < |plan| && (AcceptedPlans.Line(m, plan, i).trackedAssets.0 == a
                                     || AcceptedPlans.Line(m, plan, i).trackedAssets.1 == a);
        assert a in {r.steps[i].route.tokenIn.address, r.steps[i].route.tokenOut.address};
      }
      if i :| 0 <= i < |r.steps| && (r.steps[i].route.tokenIn.address == a || r.steps[i].route.tokenOut.address == a) {
        var route := AcceptedPlans.Line(m, plan, i);
        assert a in {route.trackedAssets.0, route.trackedAssets.1};
      }
    }
  }

  lemma RouteFound(i: nat)
    requires i < 8
    ensures RouteById(Manifest(), Manifest()[i].id) == Some(Manifest()[i])
  {
    hide Manifest, RouteById;
    ManifestIsWellFormed();
    RouteRecovered(Manifest(), Manifest()[i], 0);
  }

  lemma Aligned(i: nat)
    requires i < 8
    ensures Adapters()[i].id == Manifest()[i].id == Id(i)
  {
    hide Id;
  }

  lemma PlaceIsWellNamed(rt: Runtime)
    ensures WellNamed(Place(rt))
  {
    hide Manifest, Adapters, PlanToken.IsRouteId, Id;
    var m, a := Manifest(), Adapters();
    forall spec | spec in a ensures PlanToken.IsRouteId(spec.id) {
      var i :| 0 <= i < |a| && a[i] == spec;
      Aligned(i);
      IdIsRouteId(i);
    }
    forall route | route in m ensures route.tokenIn.decimals <= 36 {
      var i :| 0 <= i < |m| && m[i] == route;
      SidesDiffer(i);
    }
  }

  // ---- drawing a swap ------------------------------------------------------

  function Wallet(uid: string, asset: string, amount: string): ChainNode {
    ChainNode(uid, "wallet-balance", map["asset" := Text(asset), "amount" := Text(amount)])
  }

  function SwapNode(uid: string, into: string, amount: string): ChainNode {
    ChainNode(uid, "swap", map["into" := Text(into), "venue" := Text(VENUE), "amount" := Text(amount)])
  }

  function SwapStep(i: nat, uid: string, position: nat, amount: string): LiveStep
    requires i < 8
  {
    var spec := Adapters()[i];
    LiveStep(position, uid, "swap", spec.id, spec.kind, spec.tokenIn, spec.tokenOut, amount, spec.direction)
  }

  lemma SwapText(rt: Runtime, uid: string, into: string, amount: string)
    ensures var p := SwapNode(uid, into, amount).params;
            ToText(rt, p, "into") == into && ToText(rt, p, "venue") == VENUE && ToText(rt, p, "amount") == amount
  {
  }

  lemma SymbolsDiffer(i: nat, j: nat)
    requires i < 8 && j < 8
    requires Adapters()[i].tokenIn == Adapters()[j].tokenIn && Adapters()[i].tokenOut == Adapters()[j].tokenOut
    ensures i == j
  {
    hide Adapters;
    Symbols(i);
    Symbols(j);
  }

  lemma Symbols(i: nat)
    requires i < 8
    ensures var spec := Adapters()[i];
            && |spec.tokenIn| > 0 && |spec.tokenOut| > 0
            && (spec.tokenIn[0], spec.tokenOut[0])
               == [('W', '0'), ('0', 'W'), ('W', 'U'), ('U', 'W'), ('W', 'H'), ('H', 'W'), ('U', '0'), ('0', 'U')][i]
  {
  }

  lemma {:induction false} FindsOnly(env: Env, adapters: seq<AdapterSpec>, spec: AdapterSpec, node: ChainNode,
                                     tokenIn: string)
    requires spec in adapters && Matches(env, spec, node, tokenIn) && spec.address.Some?
    requires forall other :: other in adapters && Matches(env, other, node, tokenIn) ==> other == spec
    ensures FindAdapter(env, adapters, node, tokenIn) == Some(spec)
  {
    hide Matches;
    if adapters[0] != spec { FindsOnly(env, adapters[1..], spec, node, tokenIn); }
  }

  lemma SwapMatches(rt: Runtime, i: nat, uid: string, into: string, amount: string, tokenIn: string)
    requires i < 8
    ensures Matches(Place(rt), Adapters()[i], SwapNode(uid, into, amount), tokenIn) <==>
            Adapters()[i].tokenIn == tokenIn && Adapters()[i].tokenOut == into
  {
    SwapText(rt, uid, into, amount);
    assert Adapters()[i].welded == map["venue" := VENUE] && Adapters()[i].blockId == Some("swap");
  }

  lemma SwapFound(rt: Runtime, i: nat, uid: string, amount: string)
    requires i < 8
    ensures var spec := Adapters()[i];
            FindAdapter(Place(rt), Adapters(), SwapNode(uid, spec.tokenOut, amount), spec.tokenIn) == Some(spec)
  {
    hide Adapters, Matches, FindAdapter;
    var all, spec := Adapters(), Adapters()[i];
    var node := SwapNode(uid, spec.tokenOut, amount);
    SwapMatches(rt, i, uid, spec.tokenOut, amount, spec.tokenIn);
    Deployed(i);
    forall other | other in all && Matches(Place(rt), other, node, spec.tokenIn) ensures other == spec {
      var j :| 0 <= j < |all| && all[j] == other;
      SwapMatches(rt, j, uid, spec.tokenOut, amount, spec.tokenIn);
      SymbolsDiffer(i, j);
    }
    FindsOnly(Place(rt), all, spec, node, spec.tokenIn);
  }

  lemma Deployed(i: nat)
    requires i < 8
    ensures Adapters()[i].address.Some? && Adapters()[i].blockId == Some("swap")
  {
  }

  lemma SwapAllowed(rt: Runtime, uid: string, into: string, amount: string)
    ensures !OnlyBounded(Adapters()) && !BlockRejected(Place(rt), SwapNode(uid, into, amount), false)
  {
    hide Adapters;
    SwapText(rt, uid, into, amount);
    Deployed(WETH_USDG);
    UsdgUnbounded();
  }

  lemma UsdgUnbounded()
    ensures !IsBoundedSwap(Adapters()[WETH_USDG].id)
  {
    Marks(WETH_USDG);
    assert Id(WETH_USDG)[18] == 'u';
  }

  /** A drawn swap of the shipped pair resolves to that pair's adapter. */
  lemma SwapResolves(rt: Runtime, i: nat, uid: string, stated: string, position: nat, amount: string)
    requires i < 8 && amount != ""
    requires position > 1 ==> ParseRouterAmount(amount, Manifest()[i].tokenIn.decimals).Some?
    ensures var spec := Adapters()[i];
            ResolveStep(Place(rt), SwapNode(uid, spec.tokenOut, stated), position, spec.tokenIn, Some(amount))
            == Some(SwapStep(i, uid, position, amount))
  {
    hide Adapters, Manifest, FindAdapter, ParseRouterAmount, RouteById;
    SwapFound(rt, i, uid, stated);
    Aligned(i);
    RouteFound(i);
  }

  // ---- walking and reducing ------------------------------------------------

  lemma WalkSnoc(env: Env, front: Chain, last: ChainNode, asset: Option<string>, amountIn: Option<string>)
    ensures Walk(env, front + [last], asset, amountIn)
            == var (steps, carried) := Walk(env, front, asset, amountIn);
               if carried.None? || BlockRejected(env, last, OnlyBounded(env.adapters)) then (steps, None)
               else
                 var position := |front| + 1;
                 var step := ResolveStep(env, last, position, carried.value, StepAmount(env, last, position, amountIn));
                 if step.None? then (steps, None) else (steps + [step.value], Some(step.value.tokenOut))
    ensures Walk(env, [], asset, amountIn) == ([], asset)
  {
    hide BlockRejected, ResolveStep, StepAmount, OnlyBounded;
    assert (front + [last])[..|front|] == front;
  }

  lemma FirstSwapWalks(rt: Runtime, i: nat, uid: string, stated: string, amount: string)
    requires i < 8 && amount != ""
    ensures var spec := Adapters()[i];
            Walk(Place(rt), [SwapNode(uid, spec.tokenOut, stated)], Some(spec.tokenIn), Some(amount))
            == ([SwapStep(i, uid, 1, amount)], Some(spec.tokenOut))
  {
    hide Adapters, Manifest, Walk, BlockRejected, ResolveStep, OnlyBounded;
    var spec := Adapters()[i];
    var node := SwapNode(uid, spec.tokenOut, stated);
    var none: Chain := [];
    WalkSnoc(Place(rt), none, node, Some(spec.tokenIn), Some(amount));
    assert none + [node] == [node];
    SwapAllowed(rt, uid, spec.tokenOut, stated);
    SwapResolves(rt, i, uid, stated, 1, amount);
    var steps: seq<LiveStep> := [];
    assert steps + [SwapStep(i, uid, 1, amount)] == [SwapStep(i, uid, 1, amount)];
  }

  lemma SecondSwapWalks(rt: Runtime, i: nat, j: nat, first: ChainNode, step: LiveStep, uid: string, amountIn: string,
                        amount: string)
    requires i < 8 && j < 8 && amount != "" && Trim(amount) == amount
    requires Adapters()[i].tokenOut == Adapters()[j].tokenIn
    requires ParseRouterAmount(amount, Manifest()[j].tokenIn.decimals).Some?
    requires Walk(Place(rt), [first], Some(Adapters()[i].tokenIn), Some(amountIn))
             == ([step], Some(Adapters()[i].tokenOut))
    ensures Walk(Place(rt), [first, SwapNode(uid, Adapters()[j].tokenOut, amount)], Some(Adapters()[i].tokenIn),
                 Some(amountIn))
            == ([step, SwapStep(j, uid, 2, amount)], Some(Adapters()[j].tokenOut))
  {
    hide Adapters, Manifest, Walk, BlockRejected, ResolveStep, OnlyBounded, ParseRouterAmount, Trim;
    var node := SwapNode(uid, Adapters()[j].tokenOut, amount);
    WalkSnoc(Place(rt), [first], node, Some(Adapters()[i].tokenIn), Some(amountIn));
    assert [first] + [node] == [first, node];
    SwapAllowed(rt, uid, Adapters()[j].tokenOut, amount);
    SwapText(rt, uid, Adapters()[j].tokenOut, amount);
    SwapResolves(rt, j, uid, amount, 2, amount);
    assert [step] + [SwapStep(j, uid, 2, amount)] == [step, SwapStep(j, uid, 2, amount)];
  }

  /** A drawing that opens on a wallet balance, with its swaps resolved, reduces to them. */
  lemma DrawingReduces(rt: Runtime, chain: Chain, wallet: ChainNode, actions: Chain, steps: seq<LiveStep>,
                       asset: string, amount: string, policy: Policy)
    requires OfKind(Shapes(), chain, Source) == [wallet] && OfKind(Shapes(), chain, Action) == actions
    requires OfKind(Shapes(), chain, Sink) == [] && wallet == Wallet(wallet.uid, asset, amount)
    requires Trim(amount) == amount && ParseRouterAmount(amount, 18).Some?
    requires 1 <= |actions| == |steps| <= 2 && SettlesCleanly(steps)
    requires Walk(Place(rt), actions, Some(asset), Some(amount)).0 == steps
    requires ResolvePolicy(rt, chain) == Some(policy) && SeatsStructurally(Shapes(), chain)
    requires forall i :: 0 <= i < |chain| ==> chain[i].blockId in Shapes() && !BadSlippage(rt, chain[i])
    ensures Reduce(Place(rt), chain) == Some(Mapping(Place(rt), steps, SlippageBps(rt, chain), policy))
  {
    hide OfKind, Walk, ResolvePolicy, SeatsStructurally, SlippageBps, BadSlippage, Adapters, Manifest, Shapes,
         SettlesCleanly, OnlyBounded, ParseRouterAmount, Trim;
    SwapAllowed(rt, "", "", "");
    assert ToText(rt, wallet.params, "asset") == asset && ToText(rt, wallet.params, "amount") == amount;
  }
}
