/** An automation design says what was drawn, and a drawing is refused exactly when it must be: its cadence or
    condition, its expiry, its guards and its spend ceilings, read off the nodes of the chain. */
module DesignedAsDrawn {
  import opened Prelude
  import opened Decimals
  import opened Amounts
  import opened Routes
  import opened Blocks
  import opened ExecutionPolicy
  import opened Deployable
  import opened LiveRoute
  import opened Automation
  import opened PlanToken
  import Insertion
  import DrawnAsIs
  import Fees

  // ---- the nodes a design reads --------------------------------------------

  /** The chain's one node of the block stands at `i`. */
  ghost predicate OnlyAt(chain: Chain, id: string, i: int) {
    0 <= i < |chain| && chain[i].blockId == id && forall j :: 0 <= j < |chain| && j != i ==> chain[j].blockId != id
  }

  ghost predicate Absent(chain: Chain, id: string) {
    forall j :: 0 <= j < |chain| ==> chain[j].blockId != id
  }

  lemma {:induction false} BlocksFound(chain: Chain, id: string)
    ensures |WithBlock(chain, id)| == 0 <==> Absent(chain, id)
    ensures |WithBlock(chain, id)| == 1 <==> exists i :: OnlyAt(chain, id, i)
    ensures forall i :: OnlyAt(chain, id, i) ==> WithBlock(chain, id) == [chain[i]]
  {
    if chain != [] {
      var front, last := chain[..|chain| - 1], chain[|chain| - 1];
      BlocksFound(front, id);
      hide WithBlock;
      assert chain == front + [last];
      OnlyAtSnoc(front, last, id);
      BlockFoundSnoc(front, last, id);
      if last.blockId == id && Absent(front, id) { assert OnlyAt(chain, id, |front|); }
    }
  }

  lemma BlockFoundSnoc(front: Chain, last: ChainNode, id: string)
    ensures WithBlock(front + [last], id) == WithBlock(front, id) + if last.blockId == id then [last] else []
  {
    assert (front + [last])[..|front|] == front;
  }

  lemma OnlyAtSnoc(front: Chain, last: ChainNode, id: string)
    ensures Absent(front + [last], id) <==> Absent(front, id) && last.blockId != id
    ensures forall i :: OnlyAt(front + [last], id, i) <==>
              (last.blockId != id && OnlyAt(front, id, i)) || (last.blockId == id && i == |front| && Absent(front, id))
  {
    var all := front + [last];
    assert all[|front|] == last && forall j :: 0 <= j < |front| ==> all[j] == front[j];
    if Absent(all, id) {
      forall j | 0 <= j < |front| ensures front[j].blockId != id { assert all[j] == front[j]; }
    }
    forall i ensures OnlyAt(all, id, i) <==>
              (last.blockId != id && OnlyAt(front, id, i)) || (last.blockId == id && i == |front| && Absent(front, id))
    {
      if OnlyAt(all, id, i) {
        assert all[|front|] == last;
        if last.blockId != id {
          forall j | 0 <= j < |front| && j != i ensures front[j].blockId != id { assert all[j] == front[j]; }
        } else {
          forall j | 0 <= j < |front| ensures front[j].blockId != id { assert all[j] == front[j]; }
        }
      }
    }
  }

  // ---- the mode ------------------------------------------------------------

  /** An expiry text and the days it names. */
  predicate NamesDays(expiry: string, days: int) {
    (expiry == "7 days" && days == 7) || (expiry == "30 days" && days == 30) || (expiry == "90 days" && days == 90)
  }

  predicate NamesCadence(cadence: string, seconds: int) {
    || (cadence == "daily" && seconds == 86400) || (cadence == "weekly" && seconds == 604800)
    || (cadence == "monthly" && seconds == 2592000)
  }

  /** The one stream's cadence and whole number of runs, and the placed window, which must see the last run
      become due. */
  ghost predicate SaysRecurring(rt: Runtime, chain: Chain, interval: string, runs: int, window: Option<int>) {
    exists i :: OnlyAt(chain, "recurring-stream", i) && Absent(chain, "price-trigger") &&
      var stated := ToNumber(rt, chain[i].params, "runs");
      && ToText(rt, chain[i].params, "cadence") == interval
      && stated.Some? && runs as real <= stated.value < runs as real + 1.0 && 1 <= runs <= 100
      && exists seconds :: NamesCadence(interval, seconds)
                           && SaysWindow(rt, chain, window, seconds * (runs - 1))
  }

  ghost predicate SaysWindow(rt: Runtime, chain: Chain, window: Option<int>, span: int) {
    if window.None? then Absent(chain, "guard-window")
    else exists w :: OnlyAt(chain, "guard-window", w) && NamesDays(ToText(rt, chain[w].params, "expiry"), window.value)
                     && span <= window.value * 86400
  }

  /** The one trigger's condition, and the days the placed window names; 30 only where no window or no expiry
      is placed. */
  ghost predicate SaysTrigger(rt: Runtime, chain: Chain, threshold: string, days: int) {
    exists i :: OnlyAt(chain, "price-trigger", i) && Absent(chain, "recurring-stream")
      && ToText(rt, chain[i].params, "condition") == threshold
      && threshold in {"up5", "up10", "up25", "down5", "down10", "down25"}
      && SaysExpiry(rt, chain, days)
  }

  ghost predicate SaysExpiry(rt: Runtime, chain: Chain, days: int) {
    || (Absent(chain, "guard-window") && days == 30)
    || exists w :: OnlyAt(chain, "guard-window", w) &&
         if "expiry" in chain[w].params then NamesDays(ToText(rt, chain[w].params, "expiry"), days) else days == 30
  }

  ghost predicate SaysMode(rt: Runtime, chain: Chain, mode: Mode) {
    match mode
    case Recurring(interval, runs, window) => SaysRecurring(rt, chain, interval, runs, window)
    case Trigger(threshold, days) => SaysTrigger(rt, chain, threshold, days)
  }

  /** Every guard placed is one the intent can enforce. */
  ghost predicate Enforced(catalog: Catalog, chain: Chain, recurring: bool) {
    forall node :: node in chain && node.blockId in catalog && catalog[node.blockId].kind == Guard ==>
      || node.blockId in {"guard-slippage", "guard-spend", "guard-window", "guard-gas-limit", "guard-gas-price",
                          "guard-executor"}
      || (node.blockId == "price-trigger" && !recurring)
  }

  lemma EnforcedExactly(catalog: Catalog, chain: Chain, recurring: bool)
    ensures Enforced(catalog, chain, recurring) <==>
            !(exists i :: 0 <= i < |chain| && Unenforceable(catalog, chain[i], recurring))
  {
    forall node ensures node in chain <==> exists i :: 0 <= i < |chain| && chain[i] == node {}
  }

  lemma DaysNamed(expiry: string, days: int)
    ensures NamesDays(expiry, days) <==> WindowDays(expiry) == Some(days)
  {
  }

  lemma CadenceNamed(cadence: string, seconds: int)
    ensures NamesCadence(cadence, seconds) <==>
            CadenceSeconds(cadence).Some? && CadenceSeconds(cadence).value == seconds
  {
  }

  lemma RunsStated(x: real, runs: int)
    ensures 1 <= runs ==> (runs as real <= x < runs as real + 1.0 <==> Trunc(x) == runs)
    ensures Trunc(x) >= 1 ==> Trunc(x) as real <= x < Trunc(x) as real + 1.0
  {
  }

  lemma CadenceExactly(rt: Runtime, chain: Chain, windows: Chain, i: int, interval: string, runs: int,
                       window: Option<int>)
    requires OnlyAt(chain, "recurring-stream", i) && Absent(chain, "price-trigger")
    requires windows == WithBlock(chain, "guard-window") && |windows| <= 1
    ensures Cadence(rt, chain[i], windows) == Some(Mode.Recurring(interval, runs, window)) <==>
            SaysRecurring(rt, chain, interval, runs, window)
  {
    hide WithBlock, NamesDays, NamesCadence, WindowDays, CadenceSeconds, Trunc, ToNumber, ToText, Absent, SaysWindow;
    SameStream(chain, "recurring-stream");
    var stated := ToNumber(rt, chain[i].params, "runs");
    if stated.Some? { RunsStated(stated.value, runs); RunsStated(stated.value, Trunc(stated.value)); }
    forall seconds ensures NamesCadence(interval, seconds) <==>
                           CadenceSeconds(interval).Some? && CadenceSeconds(interval).value == seconds
    {
      CadenceNamed(interval, seconds);
    }
    var seconds := CadenceSeconds(interval);
    if seconds.Some? { WindowExactly(rt, chain, windows, window, seconds.value * (runs - 1)); }
    if SaysRecurring(rt, chain, interval, runs, window) {
      var seconds :| NamesCadence(interval, seconds) && SaysWindow(rt, chain, window, seconds * (runs - 1));
    }
    if Cadence(rt, chain[i], windows) == Some(Mode.Recurring(interval, runs, window)) {
      assert NamesCadence(interval, seconds.value) && SaysWindow(rt, chain, window, seconds.value * (runs - 1));
    }
  }

  lemma SameStream(chain: Chain, id: string)
    ensures forall i, j :: OnlyAt(chain, id, i) && OnlyAt(chain, id, j) ==> i == j
  {
  }

  lemma WindowExactly(rt: Runtime, chain: Chain, windows: Chain, window: Option<int>, span: int)
    requires windows == WithBlock(chain, "guard-window") && |windows| <= 1
    ensures SaysWindow(rt, chain, window, span) <==>
            if windows == [] then window.None?
            else window.Some? && DaysOf(rt, windows[0].params, "") == window && span <= window.value * DAY
  {
    hide WithBlock, NamesDays, WindowDays, Absent;
    BlocksFound(chain, "guard-window");
    SameStream(chain, "guard-window");
    if window.Some? && windows != [] { DaysNamed(ToText(rt, windows[0].params, "expiry"), window.value); }
  }

  lemma ConditionExactly(rt: Runtime, chain: Chain, windows: Chain, i: int, threshold: string, days: int)
    requires OnlyAt(chain, "price-trigger", i) && Absent(chain, "recurring-stream")
    requires windows == WithBlock(chain, "guard-window") && |windows| <= 1
    ensures Condition(rt, chain[i], windows) == Some(Mode.Trigger(threshold, days)) <==>
            SaysTrigger(rt, chain, threshold, days)
  {
    hide WithBlock, NamesDays, WindowDays, Absent, ToText, SaysExpiry, DaysOf;
    SameStream(chain, "price-trigger");
    ExpiryExactly(rt, chain, windows, days);
  }

  lemma ExpiryExactly(rt: Runtime, chain: Chain, windows: Chain, days: int)
    requires windows == WithBlock(chain, "guard-window") && |windows| <= 1
    ensures SaysExpiry(rt, chain, days) <==>
            DaysOf(rt, if windows == [] then map[] else windows[0].params, "30 days") == Some(days)
  {
    hide WithBlock, Absent, NamesDays;
    BlocksFound(chain, "guard-window");
    SameStream(chain, "guard-window");
    DaysNamed("30 days", days);
    assert WindowDays("30 days") == Some(30);
    if windows != [] { DaysNamed(ToText(rt, windows[0].params, "expiry"), days); }
  }

  lemma OneOfTwo(chain: Chain)
    ensures var streams, triggers := WithBlock(chain, "recurring-stream"), WithBlock(chain, "price-trigger");
            && (|streams| == 1 && |triggers| == 0 <==>
                (exists i :: OnlyAt(chain, "recurring-stream", i)) && Absent(chain, "price-trigger"))
            && (|streams| == 0 && |triggers| == 1 <==>
                (exists i :: OnlyAt(chain, "price-trigger", i)) && Absent(chain, "recurring-stream"))
  {
    hide WithBlock, OnlyAt, Absent;
    BlocksFound(chain, "recurring-stream");
    BlocksFound(chain, "price-trigger");
  }

  /** The design's mode is exactly what the chain says: of its one stream or its one trigger, never of both,
      with at most one window and no guard that cannot be enforced. */
  lemma ModeIsDrawn(rt: Runtime, catalog: Catalog, chain: Chain, mode: Mode)
    ensures ModeOf(rt, catalog, chain) == Some(mode) <==>
            SaysMode(rt, chain, mode) && Enforced(catalog, chain, mode.Recurring?)
  {
    hide WithBlock, Absent, Unenforceable, Cadence, Condition, SaysWindow, SaysExpiry, NamesCadence, ToText, ToNumber,
         Enforced;
    var windows := WithBlock(chain, "guard-window");
    OneOfTwo(chain);
    EnforcedExactly(catalog, chain, true);
    EnforcedExactly(catalog, chain, false);
    BlocksFound(chain, "recurring-stream");
    BlocksFound(chain, "price-trigger");
    if |windows| <= 1 {
      if exists i :: OnlyAt(chain, "recurring-stream", i) && Absent(chain, "price-trigger") {
        var i :| OnlyAt(chain, "recurring-stream", i);
        if mode.Recurring? { CadenceExactly(rt, chain, windows, i, mode.intervalId, mode.maxRuns, mode.window); }
        CadenceIsRecurring(rt, chain[i], windows);
        NotBoth(chain);
      } else if exists i :: OnlyAt(chain, "price-trigger", i) && Absent(chain, "recurring-stream") {
        var i :| OnlyAt(chain, "price-trigger", i);
        if mode.Trigger? { ConditionExactly(rt, chain, windows, i, mode.thresholdId, mode.days); }
        ConditionIsTrigger(rt, chain[i], windows);
        NotBoth(chain);
      }
    } else {
      TooManyWindows(rt, chain);
    }
  }

  lemma CadenceIsRecurring(rt: Runtime, stream: ChainNode, windows: Chain)
    requires |windows| <= 1
    ensures Cadence(rt, stream, windows).Some? ==> Cadence(rt, stream, windows).value.Recurring?
  {
  }

  lemma ConditionIsTrigger(rt: Runtime, trigger: ChainNode, windows: Chain)
    requires |windows| <= 1
    ensures Condition(rt, trigger, windows).Some? ==> Condition(rt, trigger, windows).value.Trigger?
  {
  }

  lemma NotBoth(chain: Chain)
    ensures (exists i :: OnlyAt(chain, "recurring-stream", i)) ==> !Absent(chain, "recurring-stream")
    ensures (exists i :: OnlyAt(chain, "price-trigger", i)) ==> !Absent(chain, "price-trigger")
  {
  }

  lemma TooManyWindows(rt: Runtime, chain: Chain)
    requires |WithBlock(chain, "guard-window")| > 1
    ensures forall window, span :: !SaysWindow(rt, chain, window, span)
    ensures forall days :: !SaysExpiry(rt, chain, days)
  {
    hide WithBlock, OnlyAt, Absent, NamesDays;
    BlocksFound(chain, "guard-window");
  }

  // ---- funding -------------------------------------------------------------

  /** The ceiling reads, and amount times runs fits under it. */
  ghost predicate CeilingHolds(rt: Runtime, node: ChainNode, amountIn: string, decimals: nat, runs: nat) {
    var amount := ParseRouterAmount(amountIn, decimals);
    var ceiling := ParseRouterAmount(ToText(rt, node.params, "cap"), decimals);
    amount.Some? && ceiling.Some? && amount.value * runs <= ceiling.value
  }

  /** Every placed ceiling holds. */
  ghost predicate FitsCeilings(rt: Runtime, chain: Chain, amountIn: string, decimals: nat, runs: nat) {
    forall node :: node in chain && node.blockId == "guard-spend" ==> CeilingHolds(rt, node, amountIn, decimals, runs)
  }

  lemma CeilingsExactly(rt: Runtime, chain: Chain, amountIn: string, decimals: nat, recurring: bool, runs: nat)
    requires runs >= 1 && (!recurring ==> runs == 1)
    ensures FitsCeilings(rt, chain, amountIn, decimals, runs) <==>
            Covered(rt, WithBlock(chain, "guard-spend"), amountIn, decimals, recurring, runs)
  {
    hide WithBlock, ParseRouterAmount, ToText, Fees.RequiredFunding;
    var caps := WithBlock(chain, "guard-spend");
    var amount := ParseRouterAmount(amountIn, decimals);
    if amount.Some? { Fees.FundingIsProduct(amount.value, recurring, runs); }
    forall node ensures node in caps <==> node in chain && node.blockId == "guard-spend" {
      WithBlockMembers(chain, "guard-spend", node);
    }
    if FitsCeilings(rt, chain, amountIn, decimals, runs) {
      forall i | 0 <= i < |caps| ensures CeilingHolds(rt, caps[i], amountIn, decimals, runs) { assert caps[i] in caps; }
      if caps != [] { assert CeilingHolds(rt, caps[0], amountIn, decimals, runs); }
    } else {
      var node :| node in chain && node.blockId == "guard-spend"
                  && !CeilingHolds(rt, node, amountIn, decimals, runs);
      var i :| 0 <= i < |caps| && caps[i] == node;
    }
  }

  // ---- the whole design ----------------------------------------------------

  /** A chain is accepted as a design exactly when its route is handed off and offered for automation, and
      the design says the route's fields and what the chain's own nodes say, funded under every ceiling. */
  lemma DesignedExactly(site: Site, chain: Chain, d: Design)
    ensures DesignOf(site, chain) == Some(d) <==>
            var route := ReduceRoute(site.env, RouteChain(site.env.catalog, chain));
            var spec := RouteById(site.env.manifest, d.routeId);
            && route.Some? && spec.Some? && d.routeId in site.automationRoutes
            && d.routeId == route.value.routeId && d.amountIn == route.value.amountIn
            && d.slippageBps == route.value.slippageBps && d.executionPolicy == route.value.executionPolicy
            && SaysMode(site.env.rt, chain, d.mode) && Enforced(site.env.catalog, chain, d.mode.Recurring?)
            && 1 <= Runs(d.mode) <= 100
            && FitsCeilings(site.env.rt, chain, d.amountIn, spec.value.tokenIn.decimals, Runs(d.mode))
  {
    hide ReduceRoute, RouteChain, ModeOf, SaysMode, Enforced, WithBlock, Covered, FitsCeilings;
    var env := site.env;
    var route := ReduceRoute(env, RouteChain(env.catalog, chain));
    var mode := ModeOf(env.rt, env.catalog, chain);
    var spec := RouteById(env.manifest, d.routeId);
    ModeIsDrawn(env.rt, env.catalog, chain, d.mode);
    ModeRuns(env.rt, env.catalog, chain);
    if spec.Some? && 1 <= Runs(d.mode) {
      CeilingsExactly(env.rt, chain, d.amountIn, spec.value.tokenIn.decimals, d.mode.Recurring?, Runs(d.mode));
    }
  }

  /** The stream lends its asset and amount to the route, a missing one standing for the empty text. */
  lemma StreamLends(rt: Runtime, catalog: Catalog, node: ChainNode)
    ensures var wallet := AsWalletSource(catalog, node);
            && wallet.uid == node.uid && wallet.blockId == "wallet-balance"
            && ToText(rt, wallet.params, "asset") == ToText(rt, node.params, "asset")
            && ToText(rt, wallet.params, "amount") == ToText(rt, node.params, "amount")
  {
    hide Insertion.DefaultParams;
  }

  /** Each run of a recurring design spends the stream's amount of the stream's asset. */
  lemma StreamFundsEveryRun(site: Site, chain: Chain, i: int)
    requires DesignOf(site, chain).Some? && OnlyAt(chain, "recurring-stream", i)
    requires "wallet-balance" in site.env.catalog && site.env.catalog["wallet-balance"].kind == Source
    ensures var d := DesignOf(site, chain).value;
            var drawn := Reduce(site.env, RouteChain(site.env.catalog, chain));
            && d.amountIn == Trim(ToText(site.env.rt, chain[i].params, "amount"))
            && drawn.Some? && |drawn.value.steps| > 0
            && drawn.value.steps[0].tokenIn == ToText(site.env.rt, chain[i].params, "asset")
  {
    hide Reduce, ModeOf, Covered, Encode, OfKind, Trim, AsWalletSource, DrawnAsIs.ReadsWell, DrawnAsIs.DrawnFrom;
    var env := site.env;
    var route := RouteChain(env.catalog, chain);
    var wallet := AsWalletSource(env.catalog, chain[i]);
    ReducedSteps(env, route);
    DrawnAsIs.ReductionKeepsTheDrawing(env, route);
    StreamLends(env.rt, env.catalog, chain[i]);
    assert route[i] == wallet;
    DrawnAsIs.KindMembers(env.catalog, route, Source, wallet);
    FirstSpendsTheSource(env, OfKind(env.catalog, route, Source), OfKind(env.catalog, route, Action),
                         OfKind(env.catalog, route, Sink), Reduce(env, route).value.steps, wallet);
  }

  lemma FirstSpendsTheSource(env: Env, sources: Chain, actions: Chain, sinks: Chain, steps: seq<LiveStep>,
                             source: ChainNode)
    requires DrawnAsIs.DrawnFrom(env, sources, actions, sinks, steps) && source in sources
    ensures |steps| > 0 && steps[0].tokenIn == ToText(env.rt, source.params, "asset")
    ensures steps[0].amountIn == Trim(ToText(env.rt, source.params, "amount"))
  {
    hide Trim, ParseRouterAmount, DrawnAsIs.SettlesWithOwner, DrawnAsIs.WithinBudget, DrawnAsIs.Offered,
         DrawnAsIs.Serves;
    OneSource(env, sources);
    assert DrawnAsIs.DrawnAt(env, steps, actions, ToText(env.rt, source.params, "asset"),
                             Trim(ToText(env.rt, source.params, "amount")), 0);
  }

  lemma OneSource(env: Env, sources: Chain)
    requires DrawnAsIs.OpensWell(env, sources)
    ensures |sources| == 1
  {
  }
}
