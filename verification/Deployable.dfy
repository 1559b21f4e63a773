/** Reducing a drawn chain to a policy the deployed adapters can execute (`deployable.ts`). */
module Deployable {
  import opened Prelude
  import opened Decimals
  import opened Amounts
  import opened PlanToken
  import opened Routes
  import opened Blocks
  import opened ExecutionPolicy

  datatype Direction = Buy | Sell

  datatype AdapterKind = Swap | SwapRoute | VaultDeposit | VaultRedeem | LpDeposit | LpWithdraw

  /** One registry entry of `chains.ts`; `address` is `None` while it is not deployed. */
  datatype AdapterSpec = AdapterSpec(
    id: string, blockId: Option<string>, kind: AdapterKind, tokenIn: string, tokenOut: string,
    welded: map<string, string>, direction: Option<Direction>, address: Option<Address>)

  datatype Env = Env(rt: Runtime, catalog: Catalog, adapters: seq<AdapterSpec>, manifest: seq<Route>)

  datatype LiveStep = LiveStep(
    position: nat, uid: string, blockId: string, adapterId: string, kind: AdapterKind,
    tokenIn: string, tokenOut: string, amountIn: string, direction: Option<Direction>)

  datatype LiveMapping = LiveMapping(
    steps: seq<LiveStep>, outAsset: string, amountIn: string, slippageBps: int,
    executionPolicy: Policy, direction: Option<Direction>)

  const DEFAULT_SLIPPAGE_BPS := 100

  // ---- the adapter registry ------------------------------------------------

  predicate IsBoundedSwap(id: string) {
    id == "robinhood-v4-weth-zaps" || id == "robinhood-v4-zaps-weth"
  }

  /** `onlyBoundedSwapIsDeployed`: nothing else that can be drawn is deployed. */
  predicate OnlyBounded(adapters: seq<AdapterSpec>) {
    forall i :: 0 <= i < |adapters| && adapters[i].address.Some? && adapters[i].blockId.Some? ==>
      IsBoundedSwap(adapters[i].id)
  }

  predicate Matches(env: Env, spec: AdapterSpec, node: ChainNode, tokenIn: string) {
    && spec.blockId == Some(node.blockId) && spec.tokenIn == tokenIn
    && (node.blockId == "swap" ==> spec.tokenOut == ToText(env.rt, node.params, "into"))
    && (forall key :: key in spec.welded ==> ToText(env.rt, node.params, key) == spec.welded[key])
  }

  /** `findDeployedAdapter`: the first matching entry that has an address. */
  function FindAdapter(env: Env, adapters: seq<AdapterSpec>, node: ChainNode, tokenIn: string): (r: Option<AdapterSpec>)
    ensures r.Some? ==> r.value in adapters && Matches(env, r.value, node, tokenIn) && r.value.address.Some?
  {
    if adapters == [] then None
    else if Matches(env, adapters[0], node, tokenIn) && adapters[0].address.Some? then Some(adapters[0])
    else FindAdapter(env, adapters[1..], node, tokenIn)
  }

  /** `blockLevelRejection`: no adapter for the block, or a venue no adapter is welded to. */
  predicate BlockRejected(env: Env, node: ChainNode, boundedOnly: bool) {
    || (boundedOnly && node.blockId != "swap")
    || (forall i :: 0 <= i < |env.adapters| ==> env.adapters[i].blockId != Some(node.blockId))
    || (node.blockId == "swap" && UnknownVenue(env, ToText(env.rt, node.params, "venue")))
  }

  predicate UnknownVenue(env: Env, venue: string) {
    && venue != "Uniswap v4"
    && (venue == "" || forall i :: 0 <= i < |env.adapters| && env.adapters[i].blockId == Some("swap") ==>
          "venue" !in env.adapters[i].welded || env.adapters[i].welded["venue"] != venue)
  }

  function DecimalsOf(env: Env, adapterId: string): nat {
    var route := RouteById(env.manifest, adapterId);
    if route.Some? then route.value.tokenIn.decimals else 18
  }

  /** `resolveStep`; `amount` is `None` when the source stated none that parses. */
  function ResolveStep(env: Env, node: ChainNode, position: nat, tokenIn: string, amount: Option<string>)
    : Option<LiveStep>
  {
    var adapter := FindAdapter(env, env.adapters, node, tokenIn);
    if adapter.None? || amount.None? || amount.value == "" then None
    else if position > 1 && ParseRouterAmount(amount.value, DecimalsOf(env, adapter.value.id)).None? then None
    else Some(LiveStep(position, node.uid, node.blockId, adapter.value.id, adapter.value.kind,
                       adapter.value.tokenIn, adapter.value.tokenOut, amount.value, adapter.value.direction))
  }

  // ---- the walk over the actions -------------------------------------------

  function StepAmount(env: Env, node: ChainNode, position: nat, amountIn: Option<string>): Option<string> {
    if position == 1 then amountIn else Some(Trim(ToText(env.rt, node.params, "amount")))
  }

  /** The steps of the first actions, and the asset flowing on while every one of them resolved. */
  function Walk(env: Env, actions: Chain, asset: Option<string>, amountIn: Option<string>)
    : (seq<LiveStep>, Option<string>)
  {
    if actions == [] then ([], asset)
    else
      var (steps, carried) := Walk(env, actions[..|actions| - 1], asset, amountIn);
      var node, position := actions[|actions| - 1], |actions|;
      if carried.None? || BlockRejected(env, node, OnlyBounded(env.adapters)) then (steps, None)
      else
        var step := ResolveStep(env, node, position, carried.value, StepAmount(env, node, position, amountIn));
        if step.None? then (steps, None) else (steps + [step.value], Some(step.value.tokenOut))
  }

  lemma {:induction false} WalkSpec(env: Env, actions: Chain, asset: Option<string>, amountIn: Option<string>)
    ensures var (steps, carried) := Walk(env, actions, asset, amountIn);
            && |steps| <= |actions| && (|steps| < |actions| ==> carried.None?)
            && (carried.Some? && actions != [] ==> |steps| == |actions| && steps[|steps| - 1].tokenOut == carried.value)
            && forall i :: 0 <= i < |steps| ==> StepSpec(env, steps[i], i, amountIn)
  {
    hide ResolveStep, BlockRejected, StepSpec;
    if actions != [] {
      WalkSpec(env, actions[..|actions| - 1], asset, amountIn);
      var (_, carried) := Walk(env, actions[..|actions| - 1], asset, amountIn);
      if carried.Some? {
        ResolvedStepSpec(env, actions[|actions| - 1], |actions|, carried.value, amountIn);
      }
    }
  }

  /** A step spends step one's amount or an amount its own route can parse, through a deployed adapter. */
  ghost predicate StepSpec(env: Env, step: LiveStep, index: nat, amountIn: Option<string>) {
    && step.position == index + 1
    && (exists spec :: spec in env.adapters && spec.id == step.adapterId && spec.address.Some?)
    && (if index == 0 then amountIn == Some(step.amountIn)
        else ParseRouterAmount(step.amountIn, DecimalsOf(env, step.adapterId)).Some?)
  }

  lemma ResolvedStepSpec(env: Env, node: ChainNode, position: nat, tokenIn: string, amountIn: Option<string>)
    requires position > 0
    ensures var step := ResolveStep(env, node, position, tokenIn, StepAmount(env, node, position, amountIn));
            step.Some? ==> StepSpec(env, step.value, position - 1, amountIn)
  {
  }

  // ---- the reduction -------------------------------------------------------

  function OfKind(catalog: Catalog, chain: Chain, kind: BlockKind): Chain {
    if chain == [] then []
    else
      var front := OfKind(catalog, chain[..|chain| - 1], kind);
      if KindAt(catalog, chain[|chain| - 1]) == Some(kind) then front + [chain[|chain| - 1]] else front
  }

  predicate OpensRoute(id: string) {
    id == "wallet-balance" || id == "lp-position" || id == "vault-position" || id == "bridge"
  }

  /** The source's amount, when the router's own parser (at 18 decimals) takes it. */
  function SourceAmount(env: Env, source: ChainNode): Option<string> {
    var raw := Trim(ToText(env.rt, source.params, "amount"));
    if ParseRouterAmount(raw, 18).None? then None else Some(raw)
  }

  predicate SinkSettles(env: Env, sink: ChainNode, steps: seq<LiveStep>, complete: bool) {
    || (sink.blockId == "send" && ToText(env.rt, sink.params, "recipient") == "owner wallet")
    || (sink.blockId == "hold-lp" && complete && |steps| > 0 && steps[|steps| - 1].kind == LpDeposit)
  }

  /** No step spends the asset the last one settles in. */
  predicate SettlesCleanly(steps: seq<LiveStep>)
    requires |steps| > 0
  {
    forall i :: 0 <= i < |steps| ==> steps[i].tokenIn != steps[|steps| - 1].tokenOut
  }

  /** The part of the reduction that reads sources, actions and sinks. */
  function DrawnSteps(env: Env, sources: Chain, actions: Chain, sinks: Chain): Option<seq<LiveStep>> {
    if |sources| != 1 || !OpensRoute(sources[0].blockId) then None
    else
      var amountIn := SourceAmount(env, sources[0]);
      var budget := if OnlyBounded(env.adapters) then 1 else MAX_POLICY_STEPS;
      var (steps, carried) := Walk(env, actions, Some(ToText(env.rt, sources[0].params, "asset")), amountIn);
      if amountIn.None? || |actions| == 0 || |actions| > budget || |steps| != |actions| then None
      else if !SettlesCleanly(steps) || |sinks| > 1 then None
      else if exists i :: 0 <= i < |sinks| && !SinkSettles(env, sinks[i], steps, true) then None
      else Some(steps)
  }

  predicate BadSlippage(rt: Runtime, node: ChainNode) {
    node.blockId == "guard-slippage" && CapOf(rt, SlippageCap, node).None?
  }

  /** `Math.round`. */
  function Round(x: real): int {
    (x + 0.5).Floor
  }

  /** The governing cap in the app's steps of ten, between 10 and 500. */
  function DeployedBps(governing: real): int {
    var stepped := Round(governing / 10.0) * 10;
    if stepped < 10 then 10 else if stepped > 500 then 500 else stepped
  }

  function SlippageBps(rt: Runtime, chain: Chain): int {
    var caps := Caps(rt, SlippageCap, chain);
    if caps == [] then DEFAULT_SLIPPAGE_BPS else DeployedBps(Tightest(caps, 0.0))
  }

  ghost predicate SeatsStructurally(catalog: Catalog, chain: Chain) {
    forall issue :: issue in CompileNodes(catalog, chain).issues ==> !issue.Structural()
  }

  /** What `reduceChainToLivePolicy` decides; `None` is a list of reasons. */
  ghost function Reduce(env: Env, chain: Chain): Option<LiveMapping> {
    var steps := DrawnSteps(env, OfKind(env.catalog, chain, Source), OfKind(env.catalog, chain, Action),
                            OfKind(env.catalog, chain, Sink));
    var policy := ResolvePolicy(env.rt, chain);
    if policy.None? || steps.None? || (exists i :: 0 <= i < |chain| && chain[i].blockId !in env.catalog) then None
    else if exists i :: 0 <= i < |chain| && BadSlippage(env.rt, chain[i]) then None
    else if !SeatsStructurally(env.catalog, chain) then None
    else Some(Mapping(env, steps.value, SlippageBps(env.rt, chain), policy.value))
  }

  lemma DrawnStepsCount(env: Env, sources: Chain, actions: Chain, sinks: Chain)
    ensures var steps := DrawnSteps(env, sources, actions, sinks);
            steps.Some? ==> |sources| == 1 && |steps.value| == |actions| && 1 <= |actions| <= MAX_POLICY_STEPS
  {
  }

  function Mapping(env: Env, steps: seq<LiveStep>, slippageBps: int, policy: Policy): LiveMapping {
    if steps == [] then LiveMapping([], "", "", slippageBps, policy, None)
    else LiveMapping(steps, steps[|steps| - 1].tokenOut, steps[0].amountIn, slippageBps, policy,
                     if |steps| == 1 then steps[0].direction else None)
  }

  // ---- the source's own loops ----------------------------------------------

  method FilterKind(catalog: Catalog, chain: Chain, kind: BlockKind) returns (nodes: Chain)
    ensures nodes == OfKind(catalog, chain, kind)
  {
    nodes := [];
    for i := 0 to |chain|
      invariant nodes == OfKind(catalog, chain[..i], kind)
    {
      assert chain[..i + 1][..i] == chain[..i];
      if KindAt(catalog, chain[i]) == Some(kind) { nodes := nodes + [chain[i]]; }
    }
    assert chain[..|chain|] == chain;
  }

  /** The loop over the actions, with `carried` becoming unknown behind any step that fails. */
  method WalkActions(env: Env, actions: Chain, asset: Option<string>, amountIn: Option<string>)
    returns (steps: seq<LiveStep>)
    ensures steps == Walk(env, actions, asset, amountIn).0
  {
    hide BlockRejected, ResolveStep, StepAmount, OnlyBounded;
    var carried := asset;
    steps := [];
    for index := 0 to |actions|
      invariant (steps, carried) == Walk(env, actions[..index], asset, amountIn)
    {
      assert actions[..index + 1][..index] == actions[..index];
      var rejected := BlockRejected(env, actions[index], OnlyBounded(env.adapters));
      if rejected {
        carried := None;
      } else if carried.Some? {
        var step := ResolveStep(env, actions[index], index + 1, carried.value,
                                StepAmount(env, actions[index], index + 1, amountIn));
        if step.None? {
          carried := None;
        } else {
          steps := steps + [step.value];
          carried := Some(step.value.tokenOut);
        }
      }
    }
    assert actions[..|actions|] == actions;
  }

  /** Sources, actions and sinks, each pushing its own reasons. */
  method DrawSteps(env: Env, sources: Chain, actions: Chain, sinks: Chain) returns (r: Option<seq<LiveStep>>)
    ensures r == DrawnSteps(env, sources, actions, sinks)
  {
    hide Walk, SinkSettles, SourceAmount, OnlyBounded, SettlesCleanly;
    var reasons := 0;
    var source: Option<ChainNode> := None;
    if |sources| != 1 { reasons := reasons + 1; }
    for i := 0 to |sources|
      invariant reasons >= 0
      invariant reasons > 0 <==> |sources| != 1 || exists j :: 0 <= j < i && !OpensRoute(sources[j].blockId)
      invariant i == 0 ==> source.None?
      invariant |sources| == 1 && reasons == 0 && i == 1 ==> source == Some(sources[0])
    {
      if OpensRoute(sources[i].blockId) {
        if source.None? { source := Some(sources[i]); }
      } else {
        reasons := reasons + 1;
      }
    }
    if reasons > 0 || source.None? { return None; }
    var amountIn := SourceAmount(env, source.value);
    if amountIn.None? { reasons := reasons + 1; }
    var bounded := OnlyBounded(env.adapters);
    if |actions| == 0 || |actions| > (if bounded then 1 else MAX_POLICY_STEPS) { reasons := reasons + 1; }
    var steps := WalkActions(env, actions, Some(ToText(env.rt, source.value.params, "asset")), amountIn);
    if |steps| > 0 && |steps| == |actions| {
      var clean := SettlesCleanly(steps);
      if !clean { reasons := reasons + 1; }
    }
    if |sinks| > 1 { reasons := reasons + 1; }
    ghost var before := reasons;
    for i := 0 to |sinks|
      invariant reasons >= before
      invariant reasons > before <==> exists j :: 0 <= j < i && !SinkSettles(env, sinks[j], steps, |steps| == |actions|)
    {
      var settles := SinkSettles(env, sinks[i], steps, |steps| == |actions|);
      if !settles { reasons := reasons + 1; }
    }
    if reasons > 0 || |steps| == 0 || |steps| != |actions| { return None; }
    r := Some(steps);
  }

  /** `reduceChainToLivePolicy`: every rule is applied, every reason counted, and only a chain with no
      reason at all becomes a policy. */
  method ReduceChainToLivePolicy(env: Env, chain: Chain) returns (r: Option<LiveMapping>)
    ensures r == Reduce(env, chain)
  {
    hide OfKind, DrawnSteps, Mapping, ResolvePolicy, SlippageBps, BadSlippage, CompileNodes, CompileFindings;
    var reasons := 0;
    var policy := ResolveExecutionPolicy(env.rt, chain);
    if policy.None? { reasons := reasons + 1; }
    for i := 0 to |chain|
      invariant reasons >= 0
      invariant reasons > 0 <==> policy.None? || exists j :: 0 <= j < i && chain[j].blockId !in env.catalog
    {
      if chain[i].blockId !in env.catalog { reasons := reasons + 1; }
    }
    var sources := FilterKind(env.catalog, chain, Source);
    var actions := FilterKind(env.catalog, chain, Action);
    var sinks := FilterKind(env.catalog, chain, Sink);
    var steps := DrawSteps(env, sources, actions, sinks);
    if steps.None? { reasons := reasons + 1; }
    ghost var before := reasons;
    for i := 0 to |chain|
      invariant reasons >= before
      invariant reasons > before <==> exists j :: 0 <= j < i && BadSlippage(env.rt, chain[j])
    {
      var bad := BadSlippage(env.rt, chain[i]);
      if bad { reasons := reasons + 1; }
    }
    var _, _, issues := CompileChain(env.catalog, chain);
    FindingsStructural(env.catalog, chain);
    before := reasons;
    for i := 0 to |issues|
      invariant reasons >= before
      invariant reasons > before <==> exists j :: 0 <= j < i && issues[j].Structural()
    {
      if issues[i].Structural() { reasons := reasons + 1; }
    }
    assert (exists j :: 0 <= j < |issues| && issues[j].Structural()) <==> !SeatsStructurally(env.catalog, chain);
    if reasons > 0 { return None; }
    r := Some(Mapping(env, steps.value, SlippageBps(env.rt, chain), policy.value));
  }

  /** The whole-chain warnings the compiler adds are never structural. */
  lemma FindingsStructural(catalog: Catalog, chain: Chain)
    ensures SeatsStructurally(catalog, chain) <==>
            forall j :: 0 <= j < |CompileFindings(catalog, chain)| ==> !CompileFindings(catalog, chain)[j].Structural()
  {
    hide CompileNodes;
    var findings, walked := CompileFindings(catalog, chain), CompileNodes(catalog, chain).issues;
    var tail := findings[|walked|..];
    assert findings == walked + tail;
    assert forall issue :: issue in tail ==> !issue.Structural();
    assert forall issue :: issue in findings <==> issue in walked || issue in tail;
    assert forall issue :: issue in findings <==> exists j :: 0 <= j < |findings| && findings[j] == issue;
  }
}
