/** The reduction changes nothing that was drawn, and refuses exactly what it must: one step per action, in
    order, through the first deployed adapter welded to exactly what the block says, each spending what the
    one before it delivers, and settling with the owner. */
module DrawnAsIs {
  import opened Prelude
  import opened Decimals
  import opened Amounts
  import opened Routes
  import opened Blocks
  import opened ExecutionPolicy
  import opened Deployable

  // ---- one step ------------------------------------------------------------

  /** A registry entry that is deployed, produces the block, takes the token at hand and is welded to what
      the block says; a swap must also deliver the token it names. */
  ghost predicate Serves(env: Env, spec: AdapterSpec, node: ChainNode, tokenIn: string) {
    && spec.address.Some? && spec.blockId == Some(node.blockId) && spec.tokenIn == tokenIn
    && (node.blockId == "swap" ==> ToText(env.rt, node.params, "into") == spec.tokenOut)
    && forall key :: key in spec.welded ==> ToText(env.rt, node.params, key) == spec.welded[key]
  }

  /** A venue the registry knows, and no other block than a swap while only the bounded pair is deployed. */
  ghost predicate Offered(env: Env, node: ChainNode) {
    && (node.blockId == "swap" ==>
          var venue := ToText(env.rt, node.params, "venue");
          || venue == "Uniswap v4"
          || (venue != "" && exists spec :: spec in env.adapters && spec.blockId == Some("swap")
                                            && "venue" in spec.welded && spec.welded["venue"] == venue))
    && (node.blockId != "swap" ==>
          exists spec :: spec in env.adapters && spec.address.Some? && spec.blockId.Some?
                         && spec.id != "robinhood-v4-weth-zaps" && spec.id != "robinhood-v4-zaps-weth")
  }

  /** The step an action was drawn as: the first entry that serves it, spending the stated amount. */
  ghost predicate Draws(env: Env, step: LiveStep, node: ChainNode, tokenIn: string, amount: string) {
    && step.uid == node.uid && step.blockId == node.blockId && step.tokenIn == tokenIn
    && step.amountIn == amount != "" && Offered(env, node)
    && exists i :: 0 <= i < |env.adapters|
                   && Serves(env, env.adapters[i], node, tokenIn)
                   && (forall j :: 0 <= j < i ==> !Serves(env, env.adapters[j], node, tokenIn))
                   && step.adapterId == env.adapters[i].id && step.tokenOut == env.adapters[i].tokenOut
                   && step.kind == env.adapters[i].kind && step.direction == env.adapters[i].direction
  }

  /** A later step's own amount fits the decimals of its route's input token, or 18 where it has no route. */
  ghost predicate AmountFits(env: Env, step: LiveStep) {
    var route := RouteById(env.manifest, step.adapterId);
    ParseRouterAmount(step.amountIn, if route.Some? then route.value.tokenIn.decimals else 18).Some?
  }

  lemma {:induction false} FirstServing(env: Env, adapters: seq<AdapterSpec>, node: ChainNode, tokenIn: string)
    ensures var found := FindAdapter(env, adapters, node, tokenIn);
            && (found.None? <==> forall i :: 0 <= i < |adapters| ==> !Serves(env, adapters[i], node, tokenIn))
            && (found.Some? ==>
                  exists i :: 0 <= i < |adapters| && adapters[i] == found.value
                              && Serves(env, adapters[i], node, tokenIn)
                              && forall j :: 0 <= j < i ==> !Serves(env, adapters[j], node, tokenIn))
  {
    if adapters != [] {
      FirstServing(env, adapters[1..], node, tokenIn);
      ServesIsMatch(env, adapters[0], node, tokenIn);
      hide Serves, Matches;
      var found := FindAdapter(env, adapters[1..], node, tokenIn);
      if !Serves(env, adapters[0], node, tokenIn) && found.Some? {
        var i :| 0 <= i < |adapters| - 1 && adapters[1..][i] == found.value
                 && Serves(env, adapters[1..][i], node, tokenIn)
                 && forall j :: 0 <= j < i ==> !Serves(env, adapters[1..][j], node, tokenIn);
        forall j | 0 <= j < i + 1 ensures !Serves(env, adapters[j], node, tokenIn) {
          if j > 0 { assert adapters[j] == adapters[1..][j - 1]; }
        }
        assert adapters[i + 1] == found.value;
      }
    }
  }

  lemma ServesIsMatch(env: Env, spec: AdapterSpec, node: ChainNode, tokenIn: string)
    ensures Serves(env, spec, node, tokenIn) <==> Matches(env, spec, node, tokenIn) && spec.address.Some?
  {
  }

  lemma OfferedIsNotRejected(env: Env, node: ChainNode, tokenIn: string)
    requires exists i :: 0 <= i < |env.adapters| && Serves(env, env.adapters[i], node, tokenIn)
    ensures Offered(env, node) <==> !BlockRejected(env, node, OnlyBounded(env.adapters))
  {
    var a := env.adapters;
    forall spec ensures spec in a <==> exists i :: 0 <= i < |a| && a[i] == spec {}
  }

  /** What resolving one action answers, either way. */
  lemma StepDraws(env: Env, node: ChainNode, position: nat, tokenIn: string, amount: string)
    requires position > 0
    ensures var step := ResolveStep(env, node, position, tokenIn, Some(amount));
            !BlockRejected(env, node, OnlyBounded(env.adapters)) && step.Some? ==>
              && Draws(env, step.value, node, tokenIn, amount) && step.value.position == position
              && (position > 1 ==> AmountFits(env, step.value))
  {
    hide ParseRouterAmount, Serves, Matches, BlockRejected, OnlyBounded, Offered;
    var found := FindAdapter(env, env.adapters, node, tokenIn);
    FirstServing(env, env.adapters, node, tokenIn);
    if found.Some? {
      ServesIsMatch(env, found.value, node, tokenIn);
      MatchedInput(env, found.value, node, tokenIn);
      OfferedIsNotRejected(env, node, tokenIn);
    }
  }

  lemma MatchedInput(env: Env, spec: AdapterSpec, node: ChainNode, tokenIn: string)
    requires Serves(env, spec, node, tokenIn)
    ensures spec.tokenIn == tokenIn && spec.blockId == Some(node.blockId)
  {
  }

  lemma DrawnResolves(env: Env, step: LiveStep, node: ChainNode, tokenIn: string, amount: string)
    requires Draws(env, step, node, tokenIn, amount) && step.position > 0
    requires step.position > 1 ==> AmountFits(env, step)
    ensures !BlockRejected(env, node, OnlyBounded(env.adapters))
    ensures ResolveStep(env, node, step.position, tokenIn, Some(amount)) == Some(step)
  {
    hide ParseRouterAmount, Serves, Matches, BlockRejected, OnlyBounded, Offered;
    var i :| 0 <= i < |env.adapters| && Serves(env, env.adapters[i], node, tokenIn)
             && (forall j :: 0 <= j < i ==> !Serves(env, env.adapters[j], node, tokenIn))
             && step.adapterId == env.adapters[i].id && step.tokenOut == env.adapters[i].tokenOut
             && step.kind == env.adapters[i].kind && step.direction == env.adapters[i].direction;
    FirstServing(env, env.adapters, node, tokenIn);
    MatchedInput(env, env.adapters[i], node, tokenIn);
    OfferedIsNotRejected(env, node, tokenIn);
    var found := FindAdapter(env, env.adapters, node, tokenIn);
    var k :| 0 <= k < |env.adapters| && env.adapters[k] == found.value && Serves(env, env.adapters[k], node, tokenIn)
             && forall j :: 0 <= j < k ==> !Serves(env, env.adapters[j], node, tokenIn);
    assert k == i;
  }

  // ---- all steps -----------------------------------------------------------

  function Incoming(steps: seq<LiveStep>, i: nat, asset: string): string
    requires i <= |steps|
  {
    if i == 0 then asset else steps[i - 1].tokenOut
  }

  function Stated(env: Env, actions: Chain, i: nat, amountIn: string): string
    requires i < |actions|
  {
    if i == 0 then amountIn else Trim(ToText(env.rt, actions[i].params, "amount"))
  }

  ghost predicate DrawnAt(env: Env, steps: seq<LiveStep>, actions: Chain, asset: string, amountIn: string, i: nat)
    requires i < |steps| && i < |actions|
  {
    && Draws(env, steps[i], actions[i], Incoming(steps, i, asset), Stated(env, actions, i, amountIn))
    && steps[i].position == i + 1 && (i > 0 ==> AmountFits(env, steps[i]))
  }

  ghost predicate AllDrawn(env: Env, steps: seq<LiveStep>, actions: Chain, asset: string, amountIn: string) {
    |steps| == |actions| && forall i :: 0 <= i < |steps| ==> DrawnAt(env, steps, actions, asset, amountIn, i)
  }

  lemma DrawnAtStays(env: Env, steps: seq<LiveStep>, actions: Chain, step: LiveStep, node: ChainNode, asset: string,
                     amountIn: string, i: nat)
    requires i < |steps| == |actions|
    ensures DrawnAt(env, steps + [step], actions + [node], asset, amountIn, i)
            <==> DrawnAt(env, steps, actions, asset, amountIn, i)
  {
    hide Draws, AmountFits, Stated, Incoming;
    SameIncoming(steps, step, i, asset);
    SameStated(env, actions, node, i, amountIn);
  }

  lemma DrawnAtLast(env: Env, steps: seq<LiveStep>, actions: Chain, step: LiveStep, node: ChainNode, asset: string,
                    amountIn: string)
    requires |steps| == |actions|
    ensures DrawnAt(env, steps + [step], actions + [node], asset, amountIn, |steps|) <==>
            && Draws(env, step, node, Incoming(steps, |steps|, asset),
                     Stated(env, actions + [node], |actions|, amountIn))
            && step.position == |steps| + 1 && (|steps| > 0 ==> AmountFits(env, step))
  {
    hide Draws, AmountFits, Stated, Incoming;
    SameIncoming(steps, step, |steps|, asset);
  }

  lemma SameIncoming(steps: seq<LiveStep>, step: LiveStep, i: nat, asset: string)
    requires i <= |steps|
    ensures Incoming(steps + [step], i, asset) == Incoming(steps, i, asset)
  {
  }

  lemma SameStated(env: Env, actions: Chain, node: ChainNode, i: nat, amountIn: string)
    requires i < |actions|
    ensures Stated(env, actions + [node], i, amountIn) == Stated(env, actions, i, amountIn)
  {
  }

  lemma DrawnSnoc(env: Env, steps: seq<LiveStep>, actions: Chain, step: LiveStep, node: ChainNode, asset: string,
                  amountIn: string)
    requires |steps| == |actions|
    ensures AllDrawn(env, steps + [step], actions + [node], asset, amountIn) <==>
            && AllDrawn(env, steps, actions, asset, amountIn)
            && DrawnAt(env, steps + [step], actions + [node], asset, amountIn, |steps|)
  {
    hide DrawnAt;
    forall i | 0 <= i < |steps|
      ensures DrawnAt(env, steps + [step], actions + [node], asset, amountIn, i)
              <==> DrawnAt(env, steps, actions, asset, amountIn, i)
    {
      DrawnAtStays(env, steps, actions, step, node, asset, amountIn, i);
    }
  }

  /** A walk that resolved every action drew each of them. */
  lemma {:induction false} WalkDraws(env: Env, actions: Chain, asset: string, amountIn: string)
    ensures var (steps, carried) := Walk(env, actions, Some(asset), Some(amountIn));
            && |steps| <= |actions|
            && (|steps| == |actions| ==>
                  AllDrawn(env, steps, actions, asset, amountIn) && carried == Some(Incoming(steps, |steps|, asset)))
  {
    hide ResolveStep, BlockRejected, OnlyBounded, Draws, AllDrawn, DrawnAt, AmountFits;
    if actions == [] {
      NothingDrawn(env, asset, amountIn);
    } else {
      var front, node := actions[..|actions| - 1], actions[|actions| - 1];
      WalkDraws(env, front, asset, amountIn);
      var (steps, carried) := Walk(env, front, Some(asset), Some(amountIn));
      assert actions == front + [node];
      if carried.Some? && !BlockRejected(env, node, OnlyBounded(env.adapters)) {
        var amount := Stated(env, actions, |front|, amountIn);
        var step := ResolveStep(env, node, |actions|, carried.value, Some(amount));
        StepDraws(env, node, |actions|, carried.value, amount);
        if step.Some? && |steps| == |front| {
          DrawnAtLast(env, steps, front, step.value, node, asset, amountIn);
          DrawnSnoc(env, steps, front, step.value, node, asset, amountIn);
        }
      }
    }
  }

  lemma NothingDrawn(env: Env, asset: string, amountIn: string)
    ensures AllDrawn(env, [], [], asset, amountIn)
  {
  }

  /** Conversely, whatever can be drawn is what the walk resolves. */
  lemma {:induction false} DrawnWalks(env: Env, steps: seq<LiveStep>, actions: Chain, asset: string, amountIn: string)
    requires AllDrawn(env, steps, actions, asset, amountIn)
    ensures Walk(env, actions, Some(asset), Some(amountIn)) == (steps, Some(Incoming(steps, |steps|, asset)))
  {
    hide ResolveStep, BlockRejected, OnlyBounded, Draws, AllDrawn, DrawnAt, AmountFits;
    if actions == [] {
      NoSteps(env, steps, asset, amountIn);
    } else {
      var front, node := actions[..|actions| - 1], actions[|actions| - 1];
      SameCount(env, steps, actions, asset, amountIn);
      var early, step := steps[..|steps| - 1], steps[|steps| - 1];
      assert actions == front + [node] && steps == early + [step];
      DrawnSnoc(env, early, front, step, node, asset, amountIn);
      DrawnWalks(env, early, front, asset, amountIn);
      DrawnAtLast(env, early, front, step, node, asset, amountIn);
      DrawnResolves(env, step, node, Incoming(early, |early|, asset), Stated(env, actions, |front|, amountIn));
    }
  }

  lemma NoSteps(env: Env, steps: seq<LiveStep>, asset: string, amountIn: string)
    requires AllDrawn(env, steps, [], asset, amountIn)
    ensures steps == []
  {
  }

  lemma SameCount(env: Env, steps: seq<LiveStep>, actions: Chain, asset: string, amountIn: string)
    requires AllDrawn(env, steps, actions, asset, amountIn)
    ensures |steps| == |actions|
  {
  }

  // ---- the whole drawing ---------------------------------------------------

  /** One opening source, stating an amount the router takes. */
  ghost predicate OpensWell(env: Env, sources: Chain) {
    && |sources| == 1
    && (sources[0].blockId == "wallet-balance" || sources[0].blockId == "lp-position"
        || sources[0].blockId == "vault-position" || sources[0].blockId == "bridge")
    && ParseRouterAmount(Trim(ToText(env.rt, sources[0].params, "amount")), 18).Some?
  }

  /** At most one settlement: a send to the owner wallet, or a position kept open behind a liquidity deposit. */
  ghost predicate SettlesWithOwner(env: Env, sinks: Chain, steps: seq<LiveStep>) {
    && |sinks| <= 1
    && forall sink :: sink in sinks ==>
         || (sink.blockId == "send" && ToText(env.rt, sink.params, "recipient") == "owner wallet")
         || (sink.blockId == "hold-lp" && |steps| > 0 && steps[|steps| - 1].kind == LpDeposit)
  }

  /** A single action while only the bounded pair is deployed, 16 at most otherwise. */
  ghost predicate WithinBudget(env: Env, actions: Chain) {
    && 1 <= |actions| <= 16
    && ((forall spec :: spec in env.adapters && spec.address.Some? && spec.blockId.Some? ==>
           spec.id == "robinhood-v4-weth-zaps" || spec.id == "robinhood-v4-zaps-weth") ==> |actions| == 1)
  }

  /** The steps are what the drawing's sources, actions and sinks say. */
  ghost predicate DrawnFrom(env: Env, sources: Chain, actions: Chain, sinks: Chain, steps: seq<LiveStep>) {
    && OpensWell(env, sources) && WithinBudget(env, actions) && SettlesWithOwner(env, sinks, steps)
    && AllDrawn(env, steps, actions, ToText(env.rt, sources[0].params, "asset"),
                Trim(ToText(env.rt, sources[0].params, "amount")))
    && |steps| > 0 && forall i :: 0 <= i < |steps| ==> steps[i].tokenIn != steps[|steps| - 1].tokenOut
  }

  lemma OpensWellExactly(env: Env, sources: Chain)
    ensures OpensWell(env, sources) <==>
            |sources| == 1 && OpensRoute(sources[0].blockId) && SourceAmount(env, sources[0]).Some?
    ensures OpensWell(env, sources) ==>
              SourceAmount(env, sources[0]) == Some(Trim(ToText(env.rt, sources[0].params, "amount")))
  {
    hide ParseRouterAmount, Trim;
  }

  lemma BudgetExactly(env: Env, actions: Chain)
    ensures WithinBudget(env, actions) <==>
            |actions| != 0 && |actions| <= if OnlyBounded(env.adapters) then 1 else 16
  {
    var a := env.adapters;
    forall spec ensures spec in a <==> exists i :: 0 <= i < |a| && a[i] == spec {}
  }

  lemma SinksExactly(env: Env, sinks: Chain, steps: seq<LiveStep>)
    ensures SettlesWithOwner(env, sinks, steps) <==>
            |sinks| <= 1 && forall i :: 0 <= i < |sinks| ==> SinkSettles(env, sinks[i], steps, true)
  {
    forall sink ensures sink in sinks <==> exists i :: 0 <= i < |sinks| && sinks[i] == sink {}
  }

  /** Sources, actions and sinks draw steps exactly when some steps are what they say, and then those. */
  lemma DrawsExactly(env: Env, sources: Chain, actions: Chain, sinks: Chain)
    ensures DrawnSteps(env, sources, actions, sinks).Some? <==>
            exists steps :: DrawnFrom(env, sources, actions, sinks, steps)
    ensures forall steps :: DrawnFrom(env, sources, actions, sinks, steps) <==>
                            DrawnSteps(env, sources, actions, sinks) == Some(steps)
  {
    forall steps ensures DrawnFrom(env, sources, actions, sinks, steps) <==>
                         DrawnSteps(env, sources, actions, sinks) == Some(steps)
    {
      TheseAreDrawn(env, sources, actions, sinks, steps);
    }
  }

  lemma TheseAreDrawn(env: Env, sources: Chain, actions: Chain, sinks: Chain, steps: seq<LiveStep>)
    ensures DrawnFrom(env, sources, actions, sinks, steps) <==>
            DrawnSteps(env, sources, actions, sinks) == Some(steps)
  {
    hide OpensWell, WithinBudget, SettlesWithOwner, AllDrawn, Walk, OpensRoute, SourceAmount, OnlyBounded, SinkSettles,
         Trim, Incoming;
    OpensWellExactly(env, sources);
    BudgetExactly(env, actions);
    SinksExactly(env, sinks, steps);
    if OpensWell(env, sources) {
      var asset, amount := ToText(env.rt, sources[0].params, "asset"), SourceAmount(env, sources[0]).value;
      WalkDraws(env, actions, asset, amount);
      if AllDrawn(env, steps, actions, asset, amount) {
        DrawnWalks(env, steps, actions, asset, amount);
        SameCount(env, steps, actions, asset, amount);
      }
    }
  }

  /** The drawing is made of known blocks, every slippage cap on it is a number, and its nodes seat. */
  ghost predicate ReadsWell(env: Env, chain: Chain) {
    && (forall node :: node in chain ==>
          node.blockId in env.catalog
          && (node.blockId == "guard-slippage" ==> ToNumber(env.rt, node.params, "bps").Some?))
    && SeatsStructurally(env.catalog, chain)
  }

  lemma ReadsWellExactly(env: Env, chain: Chain)
    ensures ReadsWell(env, chain) <==>
            && !(exists i :: 0 <= i < |chain| && chain[i].blockId !in env.catalog)
            && !(exists i :: 0 <= i < |chain| && BadSlippage(env.rt, chain[i]))
            && SeatsStructurally(env.catalog, chain)
  {
    hide SeatsStructurally, ToNumber;
    forall node ensures node in chain <==> exists i :: 0 <= i < |chain| && chain[i] == node {}
  }

  /** A drawing reduces exactly when it reads well, its policy guards resolve, and its sources, actions and
      sinks say some steps; and then to those steps, settling in the last one's token and spending the first
      one's amount. In particular it has at most one sink, and one that sends anywhere but to the owner
      wallet never reduces. */
  lemma ReductionKeepsTheDrawing(env: Env, chain: Chain)
    ensures var sources, actions := OfKind(env.catalog, chain, Source), OfKind(env.catalog, chain, Action);
            var sinks := OfKind(env.catalog, chain, Sink);
            && (Reduce(env, chain).Some? <==>
                && ReadsWell(env, chain) && ResolvePolicy(env.rt, chain).Some?
                && exists steps :: DrawnFrom(env, sources, actions, sinks, steps))
            && (Reduce(env, chain).Some? ==>
                var r := Reduce(env, chain).value;
                && DrawnFrom(env, sources, actions, sinks, r.steps)
                && r.outAsset == r.steps[|r.steps| - 1].tokenOut && r.amountIn == r.steps[0].amountIn
                && r.direction == (if |r.steps| == 1 then r.steps[0].direction else None)
                && r.slippageBps == SlippageBps(env.rt, chain)
                && Some(r.executionPolicy) == ResolvePolicy(env.rt, chain))
  {
    hide OfKind, ResolvePolicy, SlippageBps, DrawnSteps, ReadsWell, DrawnFrom, Reduce;
    var sources, actions := OfKind(env.catalog, chain, Source), OfKind(env.catalog, chain, Action);
    var sinks := OfKind(env.catalog, chain, Sink);
    ReduceUnfolds(env, chain);
    DrawsExactly(env, sources, actions, sinks);
    var drawn := DrawnSteps(env, sources, actions, sinks);
    if drawn.Some? {
      SomethingDrawn(env, sources, actions, sinks, drawn.value);
      assert DrawnFrom(env, sources, actions, sinks, drawn.value);
    }
  }

  lemma ReduceUnfolds(env: Env, chain: Chain)
    ensures var steps := DrawnSteps(env, OfKind(env.catalog, chain, Source), OfKind(env.catalog, chain, Action),
                                    OfKind(env.catalog, chain, Sink));
            && (Reduce(env, chain).Some? <==>
                  ReadsWell(env, chain) && ResolvePolicy(env.rt, chain).Some? && steps.Some?)
            && (Reduce(env, chain).Some? ==>
                  Reduce(env, chain).value
                  == Mapping(env, steps.value, SlippageBps(env.rt, chain), ResolvePolicy(env.rt, chain).value))
  {
    hide OfKind, ResolvePolicy, SlippageBps, BadSlippage, SeatsStructurally, DrawnSteps, ReadsWell, Mapping;
    ReadsWellExactly(env, chain);
  }

  lemma SomethingDrawn(env: Env, sources: Chain, actions: Chain, sinks: Chain, steps: seq<LiveStep>)
    ensures DrawnSteps(env, sources, actions, sinks) == Some(steps) ==> |steps| > 0
    ensures DrawnFrom(env, sources, actions, sinks, steps) ==> |steps| > 0
  {
    TheseAreDrawn(env, sources, actions, sinks, steps);
  }

  // ---- the nodes behind the kinds ------------------------------------------

  lemma {:induction false} KindMembers(catalog: Catalog, chain: Chain, kind: BlockKind, node: ChainNode)
    ensures node in OfKind(catalog, chain, kind) <==>
            node in chain && node.blockId in catalog && catalog[node.blockId].kind == kind
  {
    if chain != [] {
      KindMembers(catalog, chain[..|chain| - 1], kind, node);
      assert chain == chain[..|chain| - 1] + [chain[|chain| - 1]];
    }
  }

  /** A drawing that sends anywhere but to the owner wallet never reduces. */
  lemma OnlyTheOwnerIsPaid(env: Env, chain: Chain, sink: ChainNode)
    requires sink in chain && sink.blockId in env.catalog && env.catalog[sink.blockId].kind == Sink
    requires sink.blockId == "send" && ToText(env.rt, sink.params, "recipient") != "owner wallet"
    ensures Reduce(env, chain).None?
  {
    hide Reduce, ReadsWell, OfKind, OpensWell, WithinBudget, AllDrawn;
    ReductionKeepsTheDrawing(env, chain);
    KindMembers(env.catalog, chain, Sink, sink);
  }
}
