/** Guards constrain a reduction; they never shape it. Whether a chain reduces, and to what, depends on
    its other nodes in order and on which guards are present at all. */
module GuardOrder {
  import opened Prelude
  import opened Blocks
  import opened ExecutionPolicy
  import opened Deployable

  predicate IsGuard(catalog: Catalog, node: ChainNode) {
    KindAt(catalog, node) == Some(Guard)
  }

  function NonGuards(catalog: Catalog, chain: Chain): Chain {
    if chain == [] then []
    else
      var front := NonGuards(catalog, chain[..|chain| - 1]);
      if IsGuard(catalog, chain[|chain| - 1]) then front else front + [chain[|chain| - 1]]
  }

  // ---- what the guards cannot reach ----------------------------------------

  lemma {:induction false} KindsIgnoreGuards(catalog: Catalog, chain: Chain, kind: BlockKind)
    requires kind != Guard
    ensures OfKind(catalog, NonGuards(catalog, chain), kind) == OfKind(catalog, chain, kind)
  {
    if chain != [] {
      var front, last := chain[..|chain| - 1], chain[|chain| - 1];
      var kept := NonGuards(catalog, front);
      KindsIgnoreGuards(catalog, front, kind);
      assert (kept + [last])[..|kept|] == kept;
    }
  }

  /** The compiler reaches the same shape, and a structural fault on one side is one on the other. */
  lemma {:induction false} StructureIgnoresGuards(catalog: Catalog, chain: Chain)
    ensures CompileNodes(catalog, NonGuards(catalog, chain)).shape == CompileNodes(catalog, chain).shape
    ensures SeatsStructurally(catalog, NonGuards(catalog, chain)) <==> SeatsStructurally(catalog, chain)
  {
    hide CompileNodes, SeatsStructurally, Faults, IsGuard;
    if chain != [] {
      var front, last := chain[..|chain| - 1], chain[|chain| - 1];
      assert chain == front + [last];
      StructureIgnoresGuards(catalog, front);
      StructureSnoc(catalog, front, last);
      StructureSnoc(catalog, NonGuards(catalog, front), last);
      GuardsPass(catalog, last);
    }
  }

  /** The shape a node leaves behind. */
  function ShapeAfter(catalog: Catalog, shape: Option<FlowShape>, node: ChainNode): Option<FlowShape> {
    if KindAt(catalog, node).None? || KindAt(catalog, node) == Some(Guard) then shape else catalog[node.blockId].emits
  }

  lemma StructureSnoc(catalog: Catalog, front: Chain, last: ChainNode)
    ensures CompileNodes(catalog, front + [last]).shape
            == ShapeAfter(catalog, CompileNodes(catalog, front).shape, last)
    ensures SeatsStructurally(catalog, front + [last]) <==>
            SeatsStructurally(catalog, front) && !Faults(catalog, CompileNodes(catalog, front).shape, last)
  {
    hide CompileNode, Faults, ShapeAfter;
    var c := CompileNodes(catalog, front);
    assert (front + [last])[..|front|] == front;
    StepStructure(catalog, c, last, |front|);
    StepShape(catalog, c, last, |front|);
  }

  lemma StepShape(catalog: Catalog, c: Compiled, node: ChainNode, index: nat)
    ensures CompileNode(catalog, c, node, index).shape == ShapeAfter(catalog, c.shape, node)
  {
  }

  lemma GuardsPass(catalog: Catalog, node: ChainNode)
    ensures IsGuard(catalog, node) ==>
              forall shape :: !Faults(catalog, shape, node) && ShapeAfter(catalog, shape, node) == shape
  {
  }

  /** Whether one step adds a structural fault depends only on the node and the shape flowing in. */
  lemma StepStructure(catalog: Catalog, c: Compiled, node: ChainNode, index: nat)
    ensures var d := CompileNode(catalog, c, node, index);
            (forall issue :: issue in d.issues ==> !issue.Structural()) <==>
            (forall issue :: issue in c.issues ==> !issue.Structural()) && !Faults(catalog, c.shape, node)
  {
    var d := CompileNode(catalog, c, node, index);
    assert d.issues == c.issues || (d.issues == c.issues + [d.issues[|c.issues|]] && d.issues[|c.issues|] in d.issues);
    assert forall issue :: issue in c.issues ==> issue in d.issues;
  }

  predicate Faults(catalog: Catalog, shape: Option<FlowShape>, node: ChainNode) {
    && (KindAt(catalog, node) == Some(Action) || KindAt(catalog, node) == Some(Sink))
    && (shape.None? || catalog[node.blockId].accepts != shape)
  }

  lemma {:induction false} NonGuardsMember(catalog: Catalog, chain: Chain, node: ChainNode)
    ensures node in NonGuards(catalog, chain) <==> node in chain && !IsGuard(catalog, node)
  {
    if chain != [] {
      NonGuardsMember(catalog, chain[..|chain| - 1], node);
      assert chain == chain[..|chain| - 1] + [chain[|chain| - 1]];
    }
  }

  /** Same non-guards: both chains draw the same steps, know the same blocks and seat alike. */
  lemma SameDrawing(env: Env, a: Chain, b: Chain)
    requires NonGuards(env.catalog, a) == NonGuards(env.catalog, b)
    ensures forall kind :: kind != Guard ==> OfKind(env.catalog, a, kind) == OfKind(env.catalog, b, kind)
    ensures SeatsStructurally(env.catalog, a) <==> SeatsStructurally(env.catalog, b)
    ensures forall node :: !IsGuard(env.catalog, node) ==> (node in a <==> node in b)
    ensures (exists i :: 0 <= i < |a| && a[i].blockId !in env.catalog) <==>
            (exists i :: 0 <= i < |b| && b[i].blockId !in env.catalog)
  {
    hide OfKind, NonGuards, SeatsStructurally;
    forall kind | kind != Guard ensures OfKind(env.catalog, a, kind) == OfKind(env.catalog, b, kind) {
      KindsIgnoreGuards(env.catalog, a, kind);
      KindsIgnoreGuards(env.catalog, b, kind);
    }
    StructureIgnoresGuards(env.catalog, a);
    StructureIgnoresGuards(env.catalog, b);
    forall node | !IsGuard(env.catalog, node) ensures node in a <==> node in b {
      NonGuardsMember(env.catalog, a, node);
      NonGuardsMember(env.catalog, b, node);
    }
    UnknownBySet(env.catalog, a, b);
    UnknownBySet(env.catalog, b, a);
  }

  lemma UnknownBySet(catalog: Catalog, a: Chain, b: Chain)
    requires forall node :: !IsGuard(catalog, node) && node in a ==> node in b
    ensures (exists i :: 0 <= i < |a| && a[i].blockId !in catalog) ==>
            exists i :: 0 <= i < |b| && b[i].blockId !in catalog
  {
    if i :| 0 <= i < |a| && a[i].blockId !in catalog {
      assert a[i] in a;
      assert a[i] in b;
      var j :| 0 <= j < |b| && b[j] == a[i];
    }
  }

  lemma BadSlippageBySet(rt: Runtime, a: Chain, b: Chain)
    requires forall node :: node in a && node.blockId == "guard-slippage" ==> node in b
    ensures (exists i :: 0 <= i < |a| && BadSlippage(rt, a[i])) ==> exists i :: 0 <= i < |b| && BadSlippage(rt, b[i])
  {
  }

  // ---- order and repetition ------------------------------------------------

  /** Two chains with the same non-guard sequence and the same guards, in any order and any number of
      copies, reduce alike: to the same steps, amounts, slippage and execution policy, or not at all. */
  lemma GuardOrderIsIrrelevant(env: Env, a: Chain, b: Chain)
    requires NonGuards(env.catalog, a) == NonGuards(env.catalog, b)
    requires forall node :: IsGuard(env.catalog, node) ==> (node in a <==> node in b)
    ensures Reduce(env, a) == Reduce(env, b)
  {
    hide NonGuards, OfKind, SeatsStructurally, ResolvePolicy, DrawnSteps, Mapping, BadSlippage, CapOf, IsGuard;
    SameDrawing(env, a, b);
    assert forall node :: node in a <==> node in b;
    PolicyBySet(env.rt, a, b);
    CapsBySet(env.rt, SlippageCap, a, b, 0.0);
    BadSlippageBySet(env.rt, a, b);
    BadSlippageBySet(env.rt, b, a);
  }

  lemma PermutedGuardsReduceAlike(env: Env, a: Chain, b: Chain)
    requires NonGuards(env.catalog, a) == NonGuards(env.catalog, b) && multiset(a) == multiset(b)
    ensures Reduce(env, a) == Reduce(env, b)
  {
    forall node ensures node in a <==> node in b {
      assert node in a <==> node in multiset(a);
      assert node in b <==> node in multiset(b);
    }
    GuardOrderIsIrrelevant(env, a, b);
  }

  // ---- adding guards -------------------------------------------------------

  /** Rounding to the app's steps is monotone, so a tighter governing cap never deploys looser. */
  lemma DeployedMonotone(x: real, y: real)
    requires x <= y
    ensures DeployedBps(x) <= DeployedBps(y)
  {
    assert x / 10.0 <= y / 10.0;
  }

  /** The deployed slippage stays inside the signable range, within half a step of the governing cap,
      and exceeds the cap exactly when the cap sits below the range or in the upper half of a step. */
  lemma DeployedRounding(governing: real)
    ensures 10 <= DeployedBps(governing) <= 500 && DeployedBps(governing) % 10 == 0
    ensures 10.0 <= governing <= 500.0 ==> -5.0 <= governing - DeployedBps(governing) as real <= 5.0
    ensures DeployedBps(governing) as real > governing <==>
            governing < 10.0 || (governing < 500.0 && governing - ((governing / 10.0).Floor * 10) as real >= 5.0)
  {
    var tens := (governing / 10.0).Floor;
    var rest := governing - (tens * 10) as real;
    assert 0.0 <= rest < 10.0;
    assert Round(governing / 10.0) == if rest >= 5.0 then tens + 1 else tens;
  }

  /** Some slippage guard of the chain states this cap. */
  ghost predicate StatesSlippage(rt: Runtime, chain: Chain, bps: real) {
    exists node :: node in chain && node.blockId == "guard-slippage" && ToNumber(rt, node.params, "bps") == Some(bps)
  }

  /** A chain deploys at 100 bps where no slippage guard states a cap, and else at the least stated one, rounded
      half up to the nearest ten of 10 to 500. */
  lemma SlippageExactly(rt: Runtime, chain: Chain, least: real)
    ensures (forall bps :: !StatesSlippage(rt, chain, bps)) ==> SlippageBps(rt, chain) == 100
    ensures StatesSlippage(rt, chain, least) && (forall bps :: StatesSlippage(rt, chain, bps) ==> least <= bps) ==>
              var deployed := SlippageBps(rt, chain);
              && deployed % 10 == 0 && 10 <= deployed <= 500
              && (deployed > 10 ==> deployed as real - 5.0 <= least)
              && (deployed < 500 ==> least < deployed as real + 5.0)
  {
    hide StatesSlippage, DeployedBps, Tightest, Caps;
    var caps := Caps(rt, SlippageCap, chain);
    forall bps ensures bps in caps <==> StatesSlippage(rt, chain, bps) {
      StatedCaps(rt, chain, bps);
    }
    if caps != [] { DeployedExactly(Tightest(caps, 0.0)); }
  }

  lemma StatedCaps(rt: Runtime, chain: Chain, bps: real)
    ensures bps in Caps(rt, SlippageCap, chain) <==> StatesSlippage(rt, chain, bps)
  {
    CapsMember(rt, SlippageCap, chain, bps);
  }

  lemma DeployedExactly(governing: real)
    ensures var deployed := DeployedBps(governing);
            && deployed % 10 == 0 && 10 <= deployed <= 500
            && (deployed > 10 ==> deployed as real - 5.0 <= governing)
            && (deployed < 500 ==> governing < deployed as real + 5.0)
  {
  }

  /** Adding guards to a chain can refuse it or tighten gas, fee, access and the governing cap. The one
      thing it can loosen is the deployed slippage, and only when it states the chain's first cap, of
      105 bps or more, where the chain would have deployed at the default 100. */
  lemma AddedGuardsTighten(env: Env, a: Chain, b: Chain)
    requires NonGuards(env.catalog, a) == NonGuards(env.catalog, b)
    requires forall node :: node in a ==> node in b
    requires Reduce(env, b).Some?
    ensures Reduce(env, a).Some?
    ensures var p, q := Reduce(env, a).value, Reduce(env, b).value;
            && p.steps == q.steps && p.outAsset == q.outAsset && p.amountIn == q.amountIn && p.direction == q.direction
            && Tighter(q.executionPolicy, p.executionPolicy)
            && (q.slippageBps <= p.slippageBps <==>
                  Caps(env.rt, SlippageCap, a) != [] || Caps(env.rt, SlippageCap, b) == []
                  || Tightest(Caps(env.rt, SlippageCap, b), 0.0) < 105.0)
  {
    hide NonGuards, OfKind, SeatsStructurally, ResolvePolicy, DrawnSteps, BadSlippage, CapOf, IsGuard, Caps, Tighter;
    SameDrawing(env, a, b);
    PolicyTightens(env.rt, a, b);
    BadSlippageBySet(env.rt, a, b);
    SlippageTightens(env.rt, a, b);
  }

  lemma SlippageTightens(rt: Runtime, a: Chain, b: Chain)
    requires forall node :: node in a ==> node in b
    ensures SlippageBps(rt, b) <= SlippageBps(rt, a) <==>
            Caps(rt, SlippageCap, a) != [] || Caps(rt, SlippageCap, b) == []
            || Tightest(Caps(rt, SlippageCap, b), 0.0) < 105.0
  {
    hide Caps, CapOf, DeployedBps;
    var p, q := Caps(rt, SlippageCap, a), Caps(rt, SlippageCap, b);
    if p != [] {
      CapsTighten(rt, SlippageCap, a, b, 0.0);
      CapsMember(rt, SlippageCap, a, p[0]);
      CapsMember(rt, SlippageCap, b, p[0]);
      DeployedMonotone(Tightest(q, 0.0), Tightest(p, 0.0));
    } else if q != [] {
      DefaultThreshold(Tightest(q, 0.0));
    }
  }

  lemma DefaultThreshold(governing: real)
    ensures DeployedBps(governing) <= DEFAULT_SLIPPAGE_BPS <==> governing < 105.0
    ensures DeployedBps(governing) >= DEFAULT_SLIPPAGE_BPS <==> governing >= 95.0
  {
  }
}
