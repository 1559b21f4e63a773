/** The builder's automation vocabulary (`automation-design.ts`): a drawn chain becomes one recurring or
    triggered design, travels as a query string, and is read back by the Automate form (`automate.ts`). */
module Automation {
  import opened Prelude
  import opened Decimals
  import opened Amounts
  import opened PlanToken
  import opened Routes
  import LivePolicy
  import opened Blocks
  import Insertion
  import opened ExecutionPolicy
  import opened Deployable
  import opened LiveRoute
  import GuardOrder
  import Fees

  /** The reduction's surroundings, plus the routes whose pool has both price sources. */
  datatype Site = Site(env: Env, automationRoutes: seq<string>)

  datatype Mode =
    | Recurring(intervalId: string, maxRuns: int, window: Option<int>)
    | Trigger(thresholdId: string, days: int)

  datatype Design = Design(routeId: string, amountIn: string, slippageBps: int, mode: Mode, executionPolicy: Policy)

  // ---- vocabulary ----------------------------------------------------------

  const DAY := 86400

  /** `CADENCES`, in seconds. */
  function CadenceSeconds(id: string): Option<nat> {
    match id
    case "daily" => Some(86400)
    case "weekly" => Some(604800)
    case "monthly" => Some(2592000)
    case _ => None
  }

  /** `INTERVAL_PRESETS`, in seconds. */
  function IntervalSeconds(id: string): Option<nat> {
    match id
    case "hourly" => Some(3600)
    case "6h" => Some(21600)
    case "daily" => Some(86400)
    case "weekly" => Some(604800)
    case "monthly" => Some(2592000)
    case _ => None
  }

  /** `WINDOWS`, in days. */
  function WindowDays(expiry: string): Option<int> {
    match expiry
    case "7 days" => Some(7)
    case "30 days" => Some(30)
    case "90 days" => Some(90)
    case _ => None
  }

  predicate IsThreshold(id: string) {
    id == "up5" || id == "up10" || id == "up25" || id == "down5" || id == "down10" || id == "down25"
  }

  predicate Enforceable(id: string, recurring: bool) {
    || id == "guard-slippage" || id == "guard-spend" || id == "guard-window" || id == "guard-gas-limit"
    || id == "guard-gas-price" || id == "guard-executor" || (!recurring && id == "price-trigger")
  }

  // ---- the route under the automation --------------------------------------

  function WithBlock(chain: Chain, id: string): Chain {
    if chain == [] then []
    else
      var front := WithBlock(chain[..|chain| - 1], id);
      if chain[|chain| - 1].blockId == id then front + [chain[|chain| - 1]] else front
  }

  lemma {:induction false} WithBlockMembers(chain: Chain, id: string, node: ChainNode)
    ensures node in WithBlock(chain, id) <==> node in chain && node.blockId == id
  {
    if chain != [] {
      WithBlockMembers(chain[..|chain| - 1], id, node);
      assert chain == chain[..|chain| - 1] + [chain[|chain| - 1]];
    }
  }

  /** One overridden parameter: an absent source key erases the default. */
  function Overridden(params: map<string, ParamValue>, from: map<string, ParamValue>, key: string)
    : map<string, ParamValue>
  {
    if key in from then params[key := from[key]] else params - {key}
  }

  /** A recurring source is a wallet balance of the same asset and amount per run. */
  function AsWalletSource(catalog: Catalog, node: ChainNode): ChainNode {
    var defaults :=
      if "wallet-balance" in catalog then Insertion.DefaultParams(catalog["wallet-balance"].params) else map[];
    ChainNode(node.uid, "wallet-balance", Overridden(Overridden(defaults, node.params, "asset"), node.params, "amount"))
  }

  function RouteChain(catalog: Catalog, chain: Chain): (r: Chain)
    ensures |r| == |chain|
  {
    seq(|chain|, i requires 0 <= i < |chain| =>
      if chain[i].blockId == "recurring-stream" then AsWalletSource(catalog, chain[i]) else chain[i])
  }

  // ---- spend ceilings ------------------------------------------------------

  function CapUnits(rt: Runtime, cap: ChainNode, decimals: nat): Option<nat> {
    ParseRouterAmount(ToText(rt, cap.params, "cap"), decimals)
  }

  /** Every placed ceiling parses and covers the whole funding. */
  predicate Covered(rt: Runtime, caps: Chain, amountIn: string, decimals: nat, recurring: bool, runs: int) {
    caps == [] || (
      ParseRouterAmount(amountIn, decimals).Some? &&
      forall i :: 0 <= i < |caps| ==>
        CapUnits(rt, caps[i], decimals).Some?
        && Fees.RequiredFunding(ParseRouterAmount(amountIn, decimals).value, recurring, runs)
           <= CapUnits(rt, caps[i], decimals).value)
  }

  /** `validateSpendCaps`; a trigger is one run. */
  method ValidateSpendCaps(rt: Runtime, chain: Chain, amountIn: string, decimals: nat, recurring: bool, runs: int)
    returns (covered: bool)
    requires runs >= 1
    ensures covered == Covered(rt, WithBlock(chain, "guard-spend"), amountIn, decimals, recurring, runs)
  {
    hide WithBlock, CapUnits, ParseRouterAmount, Fees.RequiredFunding;
    var caps := WithBlock(chain, "guard-spend");
    if caps == [] { return true; }
    var amount := ParseRouterAmount(amountIn, decimals);
    if amount.None? { return false; }
    var required := Fees.RequiredFunding(amount.value, recurring, runs);
    for i := 0 to |caps|
      invariant forall j :: 0 <= j < i ==>
                  CapUnits(rt, caps[j], decimals).Some? && required <= CapUnits(rt, caps[j], decimals).value
    {
      var limit := CapUnits(rt, caps[i], decimals);
      if limit.None? || required > limit.value { return false; }
    }
    covered := true;
  }

  // ---- the reduction -------------------------------------------------------

  /** `Math.trunc`. */
  function Trunc(x: real): int {
    if x < 0.0 then -((-x).Floor) else x.Floor
  }

  /** The offered window that an expiry, or the fallback for a missing one, names. */
  function DaysOf(rt: Runtime, params: map<string, ParamValue>, fallback: string): Option<int> {
    WindowDays(if "expiry" in params then ToText(rt, params, "expiry") else fallback)
  }

  /** The signed cadence of a recurring design; `windows` holds at most one node. */
  function Cadence(rt: Runtime, stream: ChainNode, windows: Chain): Option<Mode>
    requires |windows| <= 1
  {
    var cadence := ToText(rt, stream.params, "cadence");
    var runs := ToNumber(rt, stream.params, "runs");
    var seconds := CadenceSeconds(cadence);
    if seconds.None? || runs.None? || Trunc(runs.value) < 1 || Trunc(runs.value) > 100 then None
    else if windows == [] then Some(Recurring(cadence, Trunc(runs.value), None))
    else
      var days := DaysOf(rt, windows[0].params, "");
      if days.None? || seconds.value * (Trunc(runs.value) - 1) > days.value * DAY then None
      else Some(Recurring(cadence, Trunc(runs.value), days))
  }

  /** The signed condition and expiry of a trigger design. */
  function Condition(rt: Runtime, trigger: ChainNode, windows: Chain): Option<Mode>
    requires |windows| <= 1
  {
    var threshold := ToText(rt, trigger.params, "condition");
    var days := DaysOf(rt, if windows == [] then map[] else windows[0].params, "30 days");
    if !IsThreshold(threshold) || days.None? then None else Some(Trigger(threshold, days.value))
  }

  predicate Unenforceable(catalog: Catalog, node: ChainNode, recurring: bool) {
    KindAt(catalog, node) == Some(Guard) && !Enforceable(node.blockId, recurring)
  }

  /** What the chain asks for, before it is known to reduce. */
  function ModeOf(rt: Runtime, catalog: Catalog, chain: Chain): Option<Mode> {
    var streams, triggers, windows :=
      WithBlock(chain, "recurring-stream"), WithBlock(chain, "price-trigger"), WithBlock(chain, "guard-window");
    if |streams| + |triggers| != 1 || |windows| > 1 then None
    else if exists i :: 0 <= i < |chain| && Unenforceable(catalog, chain[i], |streams| == 1) then None
    else if |streams| == 1 then Cadence(rt, streams[0], windows)
    else Condition(rt, triggers[0], windows)
  }

  function Runs(mode: Mode): int {
    if mode.Recurring? then mode.maxRuns else 1
  }

  /** What `reduceChainToAutomation` decides; `None` is a list of reasons. */
  ghost function DesignOf(site: Site, chain: Chain): Option<Design> {
    var env := site.env;
    var route := ReduceRoute(env, RouteChain(env.catalog, chain));
    var mode := ModeOf(env.rt, env.catalog, chain);
    if route.None? || mode.None? then None
    else
      var spec := RouteById(env.manifest, route.value.routeId);
      if spec.None? || route.value.routeId !in site.automationRoutes then None
      else if !Covered(env.rt, WithBlock(chain, "guard-spend"), route.value.amountIn, spec.value.tokenIn.decimals,
                       mode.value.Recurring?, Runs(mode.value)) then None
      else Some(Design(route.value.routeId, route.value.amountIn, route.value.slippageBps, mode.value,
                       route.value.executionPolicy))
  }

  lemma ModeRuns(rt: Runtime, catalog: Catalog, chain: Chain)
    ensures ModeOf(rt, catalog, chain).Some? ==> 1 <= Runs(ModeOf(rt, catalog, chain).value) <= 100
  {
  }

  /** `reduceChainToAutomation`. */
  method ReduceChainToAutomation(site: Site, chain: Chain) returns (r: Option<Design>)
    ensures r == DesignOf(site, chain)
  {
    hide ReduceRoute, RouteChain, WithBlock, Unenforceable, Cadence, Condition, Covered;
    var env := site.env;
    ModeRuns(env.rt, env.catalog, chain);
    var recurring, triggers := WithBlock(chain, "recurring-stream"), WithBlock(chain, "price-trigger");
    if |recurring| > 1 || |triggers| > 1 { return None; }
    if |recurring| == 1 && |triggers| == 1 { return None; }
    if |recurring| == 0 && |triggers| == 0 { return None; }
    var route := ReduceChainToLiveRoute(env, RouteChain(env.catalog, chain));
    if route.None? { return None; }
    var resolved := RouteById(env.manifest, route.value.routeId);
    if resolved.None? || route.value.routeId !in site.automationRoutes { return None; }
    var unsupported := exists i :: 0 <= i < |chain| && Unenforceable(env.catalog, chain[i], |recurring| == 1);
    if unsupported { return None; }
    var windows := WithBlock(chain, "guard-window");
    if |windows| > 1 { return None; }
    var mode :=
      if |recurring| == 1 then Cadence(env.rt, recurring[0], windows) else Condition(env.rt, triggers[0], windows);
    if mode.None? { return None; }
    assert mode == ModeOf(env.rt, env.catalog, chain);
    var covered := ValidateSpendCaps(env.rt, chain, route.value.amountIn, resolved.value.tokenIn.decimals,
                                     mode.value.Recurring?, Runs(mode.value));
    if !covered { return None; }
    var d := route.value;
    r := Some(Design(d.routeId, d.amountIn, d.slippageBps, mode.value, d.executionPolicy));
  }

  // ---- what a design promises ----------------------------------------------

  /** A decimal the Automate form accepts as an amount: the pattern of `readAutomationHandoff`. */
  predicate IsHandoffAmount(s: string) {
    IsDecimal(s) && |Fraction(s)| <= 18
  }

  predicate LegalMode(mode: Mode) {
    match mode
    case Recurring(interval, runs, window) =>
      && CadenceSeconds(interval).Some? && 1 <= runs <= 100
      && (window.Some? ==> window.value in {7, 30, 90}
                           && CadenceSeconds(interval).value * (runs - 1) <= window.value * DAY)
    case Trigger(threshold, days) => IsThreshold(threshold) && days in {7, 30, 90}
  }

  lemma ModeIsLegal(rt: Runtime, catalog: Catalog, chain: Chain)
    ensures ModeOf(rt, catalog, chain).Some? ==> LegalMode(ModeOf(rt, catalog, chain).value)
  {
  }

  /** Every field is inside the domain the reader will check. */
  ghost predicate LegalDesign(d: Design, automationRoutes: seq<string>) {
    && d.routeId in automationRoutes && LegalMode(d.mode) && 10 <= d.slippageBps <= 500
    && IsHandoffAmount(d.amountIn) && Mantissa(d.amountIn) > 0
    && 100000 <= d.executionPolicy.maxGas <= 3000000 && 1 <= d.executionPolicy.maxFeePerGasGwei <= 10
  }

  lemma PositiveAmount(value: string)
    requires ParseRouterAmount(value, 18).Some? && Trim(value) == value
    ensures IsHandoffAmount(value) && Mantissa(value) > 0
  {
    hide Trim, Mantissa, Scale, ParseUnits, IsDecimal, Fraction;
    ParseUnitsExact(value, 18);
    ScaleZero(18 - |Fraction(value)|);
    assert Scale(0, 18 - |Fraction(value)|) == 0;
  }

  lemma ReducedFields(env: Env, chain: Chain)
    requires Reduce(env, chain).Some?
    ensures var p := Reduce(env, chain).value;
            && p.executionPolicy == ResolvePolicy(env.rt, chain).value && ResolvePolicy(env.rt, chain).Some?
            && p.slippageBps == SlippageBps(env.rt, chain)
            && 10 <= p.slippageBps <= 500 && Trim(p.amountIn) == p.amountIn
  {
    hide OfKind, ResolvePolicy, Caps, BadSlippage, Walk, DecimalsOf, ParseRouterAmount, SinkSettles, OnlyBounded;
    var sources, actions, sinks :=
      OfKind(env.catalog, chain, Source), OfKind(env.catalog, chain, Action), OfKind(env.catalog, chain, Sink);
    DrawnStepsCount(env, sources, actions, sinks);
    WalkSpec(env, actions, Some(ToText(env.rt, sources[0].params, "asset")), SourceAmount(env, sources[0]));
    assert StepSpec(env, Reduce(env, chain).value.steps[0], 0, SourceAmount(env, sources[0]));
  }

  /** Every accepted chain yields a design whose every field is legal. */
  lemma DesignsAreLegal(site: Site, chain: Chain)
    requires DesignOf(site, chain).Some?
    ensures LegalDesign(DesignOf(site, chain).value, site.automationRoutes)
  {
    hide Reduce, ModeOf, Covered, RouteChain, ParseRouterAmount, LegalMode, IsHandoffAmount, Mantissa, ResolvePolicy,
         Trim, Encode;
    var env := site.env;
    var drawn := RouteChain(env.catalog, chain);
    ModeIsLegal(env.rt, env.catalog, chain);
    ReducedFields(env, drawn);
    ReducedSteps(env, drawn);
    PolicyInRange(env.rt, drawn);
    PositiveAmount(ReduceRoute(env, drawn).value.amountIn);
  }

  /** The whole funding fits under every spend ceiling the user placed, read at the input token's decimals. */
  lemma FundingFitsEveryCap(site: Site, chain: Chain, cap: ChainNode)
    requires DesignOf(site, chain).Some? && cap in chain && cap.blockId == "guard-spend"
    ensures var d := DesignOf(site, chain).value;
            var decimals := RouteById(site.env.manifest, d.routeId).value.tokenIn.decimals;
            var perRun := ParseRouterAmount(d.amountIn, decimals);
            var ceiling := ParseRouterAmount(ToText(site.env.rt, cap.params, "cap"), decimals);
            && perRun.Some? && ceiling.Some?
            && perRun.value * (if d.mode.Recurring? then d.mode.maxRuns else 1) <= ceiling.value
  {
    hide ReduceRoute, RouteChain, ModeOf, ParseRouterAmount, Fees.RequiredFunding;
    var d := DesignOf(site, chain).value;
    var perRun := ParseRouterAmount(d.amountIn, RouteById(site.env.manifest, d.routeId).value.tokenIn.decimals);
    if perRun.Some? { Fees.FundingIsProduct(perRun.value, d.mode.Recurring?, Runs(d.mode)); }
    ModeRuns(site.env.rt, site.env.catalog, chain);
    WithBlockMembers(chain, "guard-spend", cap);
    var caps := WithBlock(chain, "guard-spend");
    var i :| 0 <= i < |caps| && caps[i] == cap;
  }

  /** The drawing's actions are exactly the one route and amount a design carries. */
  ghost predicate KeepsTheDrawing(site: Site, chain: Chain, d: Design) {
    var drawn := Reduce(site.env, RouteChain(site.env.catalog, chain));
    drawn.Some? && PlanSteps(drawn.value.steps) == [PlanStep(d.routeId, d.amountIn)]
  }

  /** An accepted design means what was drawn exactly when the drawing has one action block; the later
      actions of a longer one are dropped without a reason. That needs an opening route that binds a
      minimum: on any other route nothing is ever dropped. */
  lemma DesignMeansTheDrawing(site: Site, chain: Chain)
    requires DesignOf(site, chain).Some?
    ensures var d := DesignOf(site, chain).value;
            var drawn := RouteChain(site.env.catalog, chain);
            var route := RouteById(site.env.manifest, d.routeId);
            && (KeepsTheDrawing(site, chain, d) <==> |OfKind(site.env.catalog, drawn, Action)| == 1)
            && route.Some? && (!BindsMinimum(route.value.data) ==> KeepsTheDrawing(site, chain, d))
            && Reduce(site.env, drawn).Some? && d.slippageBps == Reduce(site.env, drawn).value.slippageBps
            && d.executionPolicy == Reduce(site.env, drawn).value.executionPolicy
  {
    hide Reduce, RouteChain, ModeOf, Covered, Encode, OfKind, LivePolicy.Resolve;
    var drawn := RouteChain(site.env.catalog, chain);
    var route := ReduceRoute(site.env, drawn).value;
    ReducedSteps(site.env, drawn);
    StepPerAction(site.env, drawn);
    if |route.steps| > 1 { LongRoutesBind(site.env, drawn); }
    assert route.steps[0] == PlanStep(route.routeId, route.amountIn);
  }

  /** Swapping the recurring source leaves the slippage caps alone. */
  lemma {:induction false} CapsUntouched(rt: Runtime, catalog: Catalog, chain: Chain)
    ensures Caps(rt, SlippageCap, RouteChain(catalog, chain)) == Caps(rt, SlippageCap, chain)
  {
    hide Caps;
    if chain == [] {
      assert RouteChain(catalog, chain) == chain;
    } else {
      var front, last := chain[..|chain| - 1], chain[|chain| - 1];
      CapsUntouched(rt, catalog, front);
      var swapped := if last.blockId == "recurring-stream" then AsWalletSource(catalog, last) else last;
      assert RouteChain(catalog, chain) == RouteChain(catalog, front) + [swapped] && chain == front + [last];
      CapsSnoc(rt, SlippageCap, RouteChain(catalog, front), swapped);
      CapsSnoc(rt, SlippageCap, front, last);
      SourcesCapNothing(rt, catalog, last);
    }
  }

  lemma SourcesCapNothing(rt: Runtime, catalog: Catalog, node: ChainNode)
    ensures node.blockId == "recurring-stream" ==>
              CapOf(rt, SlippageCap, node).None? && CapOf(rt, SlippageCap, AsWalletSource(catalog, node)).None?
  {
  }

  /** The drawing places a cap and its tightest is at least 105 bps. */
  predicate DrawsAWideBand(rt: Runtime, chain: Chain) {
    Caps(rt, SlippageCap, chain) != [] && Tightest(Caps(rt, SlippageCap, chain), 0.0) >= 105.0
  }

  /** The drawing places no cap, or its tightest is at least 95 bps. */
  predicate DrawsTheFee(rt: Runtime, chain: Chain) {
    Caps(rt, SlippageCap, chain) == [] || Tightest(Caps(rt, SlippageCap, chain), 0.0) >= 95.0
  }

  /** Which band a design signs, read off the drawing. */
  lemma DesignedBand(site: Site, chain: Chain)
    requires DesignOf(site, chain).Some?
    ensures DesignOf(site, chain).value.slippageBps > 100 <==> DrawsAWideBand(site.env.rt, chain)
    ensures DesignOf(site, chain).value.slippageBps >= 100 <==> DrawsTheFee(site.env.rt, chain)
  {
    hide Reduce, RouteChain, ModeOf, Covered, Caps, DeployedBps, Encode, ResolvePolicy;
    var env := site.env;
    ReducedFields(env, RouteChain(env.catalog, chain));
    CapsUntouched(env.rt, env.catalog, chain);
    GuardOrder.DefaultThreshold(Tightest(Caps(env.rt, SlippageCap, chain), 0.0));
  }

  lemma KindSnoc(catalog: Catalog, front: Chain, last: ChainNode, kind: BlockKind)
    ensures OfKind(catalog, front + [last], kind)
            == OfKind(catalog, front, kind) + if KindAt(catalog, last) == Some(kind) then [last] else []
  {
    assert (front + [last])[..|front|] == front;
  }

  /** Swapping the recurring source for a wallet balance leaves the drawn actions alone. */
  lemma {:induction false} ActionsUntouched(catalog: Catalog, chain: Chain)
    requires forall id :: id in catalog && (id == "recurring-stream" || id == "wallet-balance") ==>
               catalog[id].kind != Action
    ensures OfKind(catalog, RouteChain(catalog, chain), Action) == OfKind(catalog, chain, Action)
  {
    hide OfKind;
    if chain == [] {
      assert RouteChain(catalog, chain) == chain;
    } else {
      var front, last := chain[..|chain| - 1], chain[|chain| - 1];
      ActionsUntouched(catalog, front);
      var swapped := if last.blockId == "recurring-stream" then AsWalletSource(catalog, last) else last;
      assert RouteChain(catalog, chain) == RouteChain(catalog, front) + [swapped] && chain == front + [last];
      KindSnoc(catalog, RouteChain(catalog, front), swapped, Action);
      KindSnoc(catalog, front, last, Action);
    }
  }

  // ---- the handoff ---------------------------------------------------------

  predicate Shown(d: Design) {
    && d.slippageBps >= 0 && d.executionPolicy.maxGas >= 0 && d.executionPolicy.maxFeePerGasGwei >= 0
    && match d.mode
       case Recurring(_, runs, window) => runs >= 0 && window.GetOr(0) >= 0
       case Trigger(_, days) => days >= 0
  }

  /** The query string of a design. */
  function Query(d: Design): map<string, string>
    requires Shown(d)
  {
    Written(Fields(d), d.executionPolicy)
  }

  function Fields(d: Design): map<string, string>
    requires Shown(d)
  {
    var common := map["view" := "automate", "src" := "build",
                      "mode" := if d.mode.Recurring? then "recurring" else "trigger",
                      "route" := d.routeId, "amount" := d.amountIn, "bps" := Show(d.slippageBps)];
    match d.mode
      case Recurring(interval, runs, window) =>
        var timed := common["interval" := interval]["runs" := Show(runs)];
        if window.Some? && window.value != 0 then timed["days" := Show(window.value)] else timed
      case Trigger(threshold, days) => common["threshold" := threshold]["days" := Show(days)]
  }

  /** `automationHandoff`: sets one field after another on a fresh query. */
  method AutomationHandoff(d: Design) returns (params: QueryParams)
    requires Shown(d)
    ensures params.entries == Query(d)
  {
    hide Written, Show;
    params := new QueryParams();
    params.Set("view", "automate");
    params.Set("src", "build");
    params.Set("mode", if d.mode.Recurring? then "recurring" else "trigger");
    params.Set("route", d.routeId);
    params.Set("amount", d.amountIn);
    params.Set("bps", Show(d.slippageBps));
    match d.mode {
      case Recurring(interval, runs, window) =>
        params.Set("interval", interval);
        params.Set("runs", Show(runs));
        if window.Some? && window.value != 0 { params.Set("days", Show(window.value)); }
      case Trigger(threshold, days) =>
        params.Set("threshold", threshold);
        params.Set("days", Show(days));
    }
    WriteExecutionPolicyParams(params, d.executionPolicy);
  }

  datatype Preset = Preset(
    recurring: bool, routeId: string, amount: string, slippageBps: int, intervalId: string, maxRuns: int,
    thresholdId: string, validDays: Option<int>, executionPolicy: Policy)

  function Get(entries: map<string, string>, key: string, fallback: string): string {
    if key in entries then entries[key] else fallback
  }

  /** `Number(text)` as an integer in the range; `Number.isInteger` refuses the rest. */
  function WholeNumber(rt: Runtime, text: string, lo: real, hi: real): Option<int> {
    var v := rt.number(text);
    if WholeWithin(v, lo, hi) then Some(v.value.Floor) else None
  }

  /** The number itself when it is one of the offered windows. */
  function OfferedDays(rt: Runtime, text: string): Option<int> {
    var v := rt.number(text);
    if v == Some(7.0) then Some(7) else if v == Some(30.0) then Some(30) else if v == Some(90.0) then Some(90) else None
  }

  /** `readAutomationHandoff`; an absent `bps` is `Number(null)`, that is 0, and out of range. */
  function Read(rt: Runtime, automationRoutes: seq<string>, entries: map<string, string>): Option<Preset> {
    var mode, amount := Get(entries, "mode", ""), Get(entries, "amount", "");
    var bps := if "bps" in entries then WholeNumber(rt, entries["bps"], 5.0, 500.0) else None;
    var interval, threshold := Get(entries, "interval", "daily"), Get(entries, "threshold", "up10");
    var runs := WholeNumber(rt, Get(entries, "runs", "10"), 1.0, 100.0);
    var days := if "days" in entries then OfferedDays(rt, entries["days"]) else None;
    var policy := ReadPolicyParams(rt, entries);
    if Get(entries, "src", "") != "build" || (mode != "recurring" && mode != "trigger") then None
    else if Get(entries, "route", "") !in automationRoutes then None
    else if !IsHandoffAmount(amount) || rt.number(amount).GetOr(1.0) <= 0.0 then None
    else if bps.None? || IntervalSeconds(interval).None? || runs.None? || !IsThreshold(threshold) then None
    else if ("days" in entries && days.None?) || (mode == "trigger" && "days" !in entries) || policy.None? then None
    else Some(Preset(mode == "recurring", Get(entries, "route", ""), amount, bps.value, interval, runs.value, threshold,
                     days, policy.value))
  }

  /** Exactly the designed settings; what the mode does not use keeps the form's own default. */
  function Intended(d: Design): Preset {
    match d.mode
    case Recurring(interval, runs, window) =>
      Preset(true, d.routeId, d.amountIn, d.slippageBps, interval, runs, "up10", window, d.executionPolicy)
    case Trigger(threshold, days) =>
      Preset(false, d.routeId, d.amountIn, d.slippageBps, "daily", 10, threshold, Some(days), d.executionPolicy)
  }

  /** `Number` of a decimal text with a non-zero digit is not zero or negative. */
  ghost predicate ReadsPositives(rt: Runtime) {
    forall s :: IsHandoffAmount(s) && Mantissa(s) > 0 ==> rt.number(s).GetOr(1.0) > 0.0
  }

  lemma LegalShown(d: Design, automationRoutes: seq<string>)
    requires LegalDesign(d, automationRoutes)
    ensures Shown(d)
  {
  }

  lemma NumberReads(rt: Runtime, n: nat)
    requires ReadsIntegers(rt)
    ensures rt.number(Show(n)) == Some(n as real)
  {
  }

  lemma TenReads(rt: Runtime)
    requires ReadsIntegers(rt)
    ensures WholeNumber(rt, "10", 1.0, 100.0) == Some(10)
  {
    assert Show(10) == "10";
    NumberReads(rt, 10);
  }

  lemma WholeReads(rt: Runtime, n: nat, lo: real, hi: real)
    requires ReadsIntegers(rt) && lo <= n as real <= hi
    ensures WholeNumber(rt, Show(n), lo, hi) == Some(n)
  {
  }

  lemma DaysRead(rt: Runtime, n: nat)
    requires ReadsIntegers(rt) && n in {7, 30, 90}
    ensures OfferedDays(rt, Show(n)) == Some(n)
  {
  }

  /** The form reads back exactly the settings that were designed. */
  lemma HandoffReads(rt: Runtime, automationRoutes: seq<string>, d: Design)
    requires ReadsIntegers(rt) && ReadsPositives(rt) && LegalDesign(d, automationRoutes)
    ensures Shown(d) && Read(rt, automationRoutes, Query(d)) == Some(Intended(d))
  {
    hide Show, ReadPolicyParams, WholeNumber, OfferedDays, ReadsIntegers, ReadsPositives, IsHandoffAmount, Mantissa,
         Query, Get, CadenceSeconds, IntervalSeconds, IsThreshold, Shown;
    OfferedChoices();
    LegalShown(d, automationRoutes);
    CommonFields(d);
    TenReads(rt);
    AmountReads(rt, d.amountIn);
    WholeReads(rt, d.slippageBps, 5.0, 500.0);
    PolicyReads(rt, d);
    match d.mode {
      case Recurring(interval, runs, window) =>
        RecurringFields(d);
        WholeReads(rt, runs, 1.0, 100.0);
        if window.Some? { DaysRead(rt, window.value); }
      case Trigger(_, days) =>
        TriggerFields(d);
        DaysRead(rt, days);
    }
  }

  /** Every designed cadence is offered by the form, and the form's own defaults are legal. */
  lemma OfferedChoices()
    ensures forall id :: CadenceSeconds(id).Some? ==> IntervalSeconds(id).Some?
    ensures IntervalSeconds("daily").Some? && IsThreshold("up10")
  {
  }

  lemma AmountReads(rt: Runtime, amount: string)
    requires ReadsPositives(rt) && IsHandoffAmount(amount) && Mantissa(amount) > 0
    ensures rt.number(amount).GetOr(1.0) > 0.0
  {
  }

  lemma CommonFields(d: Design)
    requires Shown(d)
    ensures var q := Query(d);
            && Get(q, "src", "") == "build"
            && Get(q, "mode", "") == (if d.mode.Recurring? then "recurring" else "trigger")
            && Get(q, "route", "") == d.routeId && Get(q, "amount", "") == d.amountIn
            && "bps" in q && q["bps"] == Show(d.slippageBps)
  {
    hide Show;
  }

  lemma RecurringFields(d: Design)
    requires Shown(d) && d.mode.Recurring?
    ensures var q, window := Query(d), d.mode.window;
            && Get(q, "interval", "daily") == d.mode.intervalId && Get(q, "runs", "10") == Show(d.mode.maxRuns)
            && Get(q, "threshold", "up10") == "up10"
            && (window.Some? && window.value != 0 ==> "days" in q && q["days"] == Show(window.value))
            && (window.None? || window.value == 0 ==> "days" !in q)
  {
    hide Show;
  }

  lemma TriggerFields(d: Design)
    requires Shown(d) && d.mode.Trigger?
    ensures var q := Query(d);
            && Get(q, "threshold", "up10") == d.mode.thresholdId && "days" in q && q["days"] == Show(d.mode.days)
            && Get(q, "interval", "daily") == "daily" && Get(q, "runs", "10") == "10"
  {
    hide Show;
  }

  lemma PolicyReads(rt: Runtime, d: Design)
    requires ReadsIntegers(rt) && Shown(d)
    requires 100000 <= d.executionPolicy.maxGas <= 3000000 && 1 <= d.executionPolicy.maxFeePerGasGwei <= 10
    ensures ReadPolicyParams(rt, Query(d)) == Some(d.executionPolicy)
  {
  }

  /** The whole path: whatever chain the builder accepts, the Automate form shows the designed settings. */
  lemma BuilderToForm(site: Site, chain: Chain)
    requires ReadsIntegers(site.env.rt) && ReadsPositives(site.env.rt) && DesignOf(site, chain).Some?
    ensures var d := DesignOf(site, chain).value;
            Shown(d) && Read(site.env.rt, site.automationRoutes, Query(d)) == Some(Intended(d))
  {
    hide DesignOf, LegalDesign, ReadsIntegers, ReadsPositives, Read, Intended, Query, Shown;
    DesignsAreLegal(site, chain);
    HandoffReads(site.env.rt, site.automationRoutes, DesignOf(site, chain).value);
  }
}
