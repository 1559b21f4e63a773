/** The builder's type system (`blocks.ts`): a chain of typed blocks, the compiler's verdict on how
    they seat, and the insertion judgement the canvas consults. */
module Blocks {
  import opened Prelude

  datatype FlowShape = TokenShape | LpShape | ReceiptShape | YieldShape | DebtShape

  datatype BlockKind = Source | Action | Guard | Sink

  /** A parameter's declared domain and default. */
  datatype BlockParam =
    | NumberParam(key: string, number: real, min: real, max: real)
    | SelectParam(key: string, choice: string, options: seq<string>)
    | AmountParam(key: string, amount: string)
    | TextParam(key: string, text: string)

  datatype ParamValue = Text(text: string) | Number(number: real)

  datatype LegoBlock = LegoBlock(
    kind: BlockKind, accepts: Option<FlowShape>, emits: Option<FlowShape>, gas: nat, params: seq<BlockParam>)

  datatype ChainNode = ChainNode(uid: string, blockId: string, params: map<string, ParamValue>)

  type Catalog = map<string, LegoBlock>

  type Chain = seq<ChainNode>

  /** A source only emits, a sink only accepts, an action does both and a guard neither. */
  predicate WellShaped(kind: BlockKind, accepts: Option<FlowShape>, emits: Option<FlowShape>) {
    match kind
    case Source => accepts.None? && emits.Some?
    case Action => accepts.Some? && emits.Some?
    case Guard => accepts.None? && emits.None?
    case Sink => accepts.Some? && emits.None?
  }

  ghost predicate WellTyped(catalog: Catalog) {
    forall id :: id in catalog ==> WellShaped(catalog[id].kind, catalog[id].accepts, catalog[id].emits)
  }

  /** The shapes of the shipped catalog. */
  function ShippedShape(id: string): Option<(BlockKind, Option<FlowShape>, Option<FlowShape>)> {
    match id
    case "wallet-balance" => Some((Source, None, Some(TokenShape)))
    case "lp-position" => Some((Source, None, Some(LpShape)))
    case "vault-position" => Some((Source, None, Some(ReceiptShape)))
    case "recurring-stream" => Some((Source, None, Some(TokenShape)))
    case "pending-rewards" => Some((Source, None, Some(YieldShape)))
    case "bridge" => Some((Source, None, Some(TokenShape)))
    case "swap" => Some((Action, Some(TokenShape), Some(TokenShape)))
    case "split" => Some((Action, Some(TokenShape), Some(TokenShape)))
    case "supply" => Some((Action, Some(TokenShape), Some(ReceiptShape)))
    case "borrow" => Some((Action, Some(ReceiptShape), Some(DebtShape)))
    case "redeem" => Some((Action, Some(ReceiptShape), Some(TokenShape)))
    case "draw-debt" => Some((Action, Some(DebtShape), Some(TokenShape)))
    case "add-liquidity" => Some((Action, Some(TokenShape), Some(LpShape)))
    case "remove-liquidity" => Some((Action, Some(LpShape), Some(TokenShape)))
    case "stake" => Some((Action, Some(LpShape), Some(ReceiptShape)))
    case "accrue" => Some((Action, Some(ReceiptShape), Some(YieldShape)))
    case "harvest" => Some((Action, Some(YieldShape), Some(TokenShape)))
    case "unwrap" => Some((Action, Some(TokenShape), Some(TokenShape)))
    case "guard-slippage" => Some((Guard, None, None))
    case "guard-spend" => Some((Guard, None, None))
    case "guard-oracle" => Some((Guard, None, None))
    case "price-trigger" => Some((Guard, None, None))
    case "guard-window" => Some((Guard, None, None))
    case "guard-approval" => Some((Guard, None, None))
    case "guard-private" => Some((Guard, None, None))
    case "guard-gas-limit" => Some((Guard, None, None))
    case "guard-gas-price" => Some((Guard, None, None))
    case "guard-executor" => Some((Guard, None, None))
    case "send" => Some((Sink, Some(TokenShape), None))
    case "hold" => Some((Sink, Some(ReceiptShape), None))
    case "hold-lp" => Some((Sink, Some(LpShape), None))
    case "loop" => Some((Sink, Some(TokenShape), None))
    case _ => None
  }

  /** The ids of the shipped catalog. */
  ghost function ShippedIds(): set<string> {
    {"wallet-balance", "lp-position", "vault-position", "recurring-stream", "pending-rewards", "bridge",
     "swap", "split", "supply", "borrow", "redeem", "draw-debt", "add-liquidity", "remove-liquidity",
     "stake", "accrue", "harvest", "unwrap", "guard-slippage", "guard-spend", "guard-oracle",
     "price-trigger", "guard-window", "guard-approval", "guard-private", "guard-gas-limit",
     "guard-gas-price", "guard-executor", "send", "hold", "hold-lp", "loop"}
  }

  /** The shipped blocks are these, and every one is shaped as its kind says, so `WellTyped` holds of the
      shipped catalog. */
  lemma ShippedShapesAreTyped(id: string)
    ensures ShippedShape(id).Some? <==> id in ShippedIds()
    ensures ShippedShape(id).Some? ==>
              WellShaped(ShippedShape(id).value.0, ShippedShape(id).value.1, ShippedShape(id).value.2)
  {
  }

  // ---- compiling -----------------------------------------------------------

  datatype Issue =
    | UnknownBlock(at: nat)
    | DuplicateSource(at: nat)
    | Orphan(at: nat)
    | Mismatch(at: nat)
    | IdleGuard(at: nat)
    | NothingSettles
    | EmptyCanvas
  {
    predicate Blocks() {
      UnknownBlock? || DuplicateSource? || Orphan? || Mismatch?
    }

    /** The two faults that depend on the order blocks were placed in. */
    predicate Structural() {
      Orphan? || Mismatch?
    }
  }

  datatype Compiled = Compiled(shape: Option<FlowShape>, gas: nat, sources: nat, issues: seq<Issue>)

  function KindAt(catalog: Catalog, node: ChainNode): Option<BlockKind> {
    if node.blockId in catalog then Some(catalog[node.blockId].kind) else None
  }

  /** One iteration of the compiler's walk. */
  function CompileNode(catalog: Catalog, c: Compiled, node: ChainNode, index: nat): Compiled {
    if node.blockId !in catalog then c.(issues := c.issues + [UnknownBlock(index)])
    else
      var block := catalog[node.blockId];
      var d := c.(gas := c.gas + block.gas);
      match block.kind
      case Guard =>
        if index == 0 || c.shape.None? then d.(issues := d.issues + [IdleGuard(index)]) else d
      case Source =>
        var legal := c.shape.None? && c.sources + 1 == 1;
        d.(shape := block.emits, sources := c.sources + 1,
           issues := if legal then d.issues else d.issues + [DuplicateSource(index)])
      case _ =>
        d.(shape := block.emits,
           issues := if c.shape.None? then d.issues + [Orphan(index)]
                     else if block.accepts != c.shape then d.issues + [Mismatch(index)]
                     else d.issues)
  }

  function CompileNodes(catalog: Catalog, chain: Chain): Compiled {
    if chain == [] then Compiled(None, 21000, 0, [])
    else CompileNode(catalog, CompileNodes(catalog, chain[..|chain| - 1]), chain[|chain| - 1], |chain| - 1)
  }

  lemma CompileSnoc(catalog: Catalog, chain: Chain, index: nat)
    requires index < |chain|
    ensures CompileNodes(catalog, chain[..index + 1])
            == CompileNode(catalog, CompileNodes(catalog, chain[..index]), chain[index], index)
  {
    assert chain[..index + 1][..index] == chain[..index];
  }

  lemma EmptyCompiles(catalog: Catalog, chain: Chain)
    ensures CompileNodes(catalog, chain[..0]) == Compiled(None, 21000, 0, [])
  {
  }

  function CompileFindings(catalog: Catalog, chain: Chain): seq<Issue> {
    CompileNodes(catalog, chain).issues
    + (if (exists i :: 0 <= i < |chain| && KindAt(catalog, chain[i]).Some?)
          && !(exists i :: 0 <= i < |chain| && KindAt(catalog, chain[i]) == Some(Sink))
       then [NothingSettles] else [])
    + (if !(exists i :: 0 <= i < |chain| && KindAt(catalog, chain[i]).Some?) then [EmptyCanvas] else [])
  }

  /** `compileChain`: a walk that updates the flowing shape, the gas estimate and the source count,
      and pushes what it finds. */
  method CompileChain(catalog: Catalog, chain: Chain)
    returns (shape: Option<FlowShape>, gas: nat, issues: seq<Issue>)
    ensures shape == CompileNodes(catalog, chain).shape && gas == CompileNodes(catalog, chain).gas
    ensures issues == CompileFindings(catalog, chain)
  {
    hide CompileNodes;
    var sourceCount: nat := 0;
    EmptyCompiles(catalog, chain);
    shape, gas, issues := None, 21000, [];
    var placed, settles := false, false;
    for index := 0 to |chain|
      invariant CompileNodes(catalog, chain[..index]) == Compiled(shape, gas, sourceCount, issues)
      invariant placed <==> exists i :: 0 <= i < index && KindAt(catalog, chain[i]).Some?
      invariant settles <==> exists i :: 0 <= i < index && KindAt(catalog, chain[i]) == Some(Sink)
    {
      var node := chain[index];
      CompileSnoc(catalog, chain, index);
      if node.blockId !in catalog {
        issues := issues + [UnknownBlock(index)];
      } else {
        var block := catalog[node.blockId];
        assert KindAt(catalog, chain[index]) == Some(block.kind);
        placed := true;
        settles := settles || block.kind == Sink;
        gas := gas + block.gas;
        if block.kind == Guard {
          if index == 0 || shape.None? { issues := issues + [IdleGuard(index)]; }
        } else if block.kind == Source {
          sourceCount := sourceCount + 1;
          if !(shape.None? && sourceCount == 1) { issues := issues + [DuplicateSource(index)]; }
          shape := block.emits;
        } else {
          if shape.None? {
            issues := issues + [Orphan(index)];
          } else if block.accepts != shape {
            issues := issues + [Mismatch(index)];
          }
          shape := block.emits;
        }
      }
    }
    assert chain[..|chain|] == chain;
    if placed && !settles { issues := issues + [NothingSettles]; }
    if !placed { issues := issues + [EmptyCanvas]; }
  }

  /** The chain compiles without a blocking issue. */
  ghost predicate Fits(catalog: Catalog, chain: Chain) {
    forall issue :: issue in CompileFindings(catalog, chain) ==> !issue.Blocks()
  }

  // ---- the same judgement, read forwards -----------------------------------

  /** Whether the nodes seat when `shape` flows in and `sources` sources have been placed. */
  predicate Seats(catalog: Catalog, chain: Chain, shape: Option<FlowShape>, sources: nat) {
    if chain == [] then true
    else if chain[0].blockId !in catalog then false
    else
      var block := catalog[chain[0].blockId];
      match block.kind
      case Guard => Seats(catalog, chain[1..], shape, sources)
      case Source => shape.None? && sources == 0 && Seats(catalog, chain[1..], block.emits, 1)
      case _ => shape.Some? && block.accepts == shape && Seats(catalog, chain[1..], block.emits, sources)
  }

  /** The shape and source count after walking the nodes. */
  function Flow(catalog: Catalog, chain: Chain, shape: Option<FlowShape>, sources: nat): (Option<FlowShape>, nat) {
    if chain == [] then (shape, sources)
    else if chain[0].blockId !in catalog then Flow(catalog, chain[1..], shape, sources)
    else
      var block := catalog[chain[0].blockId];
      match block.kind
      case Guard => Flow(catalog, chain[1..], shape, sources)
      case Source => Flow(catalog, chain[1..], block.emits, sources + 1)
      case _ => Flow(catalog, chain[1..], block.emits, sources)
  }

  lemma {:induction false} FlowAppend(catalog: Catalog, a: Chain, b: Chain, shape: Option<FlowShape>, n: nat)
    ensures Flow(catalog, a + b, shape, n)
            == Flow(catalog, b, Flow(catalog, a, shape, n).0, Flow(catalog, a, shape, n).1)
    ensures Seats(catalog, a + b, shape, n) <==>
            Seats(catalog, a, shape, n)
            && Seats(catalog, b, Flow(catalog, a, shape, n).0, Flow(catalog, a, shape, n).1)
  {
    if a == [] {
      assert a + b == b;
    } else {
      assert (a + b)[1..] == a[1..] + b && (a + b)[0] == a[0];
      if a[0].blockId in catalog {
        var block := catalog[a[0].blockId];
        match block.kind
        case Guard => FlowAppend(catalog, a[1..], b, shape, n);
        case Source => FlowAppend(catalog, a[1..], b, block.emits, n + 1);
        case _ => FlowAppend(catalog, a[1..], b, block.emits, n);
      } else {
        FlowAppend(catalog, a[1..], b, shape, n);
      }
    }
  }

  lemma {:induction false} WalkAgrees(catalog: Catalog, chain: Chain)
    ensures var c := CompileNodes(catalog, chain);
            && Flow(catalog, chain, None, 0) == (c.shape, c.sources)
            && (Seats(catalog, chain, None, 0) <==> forall issue :: issue in c.issues ==> !issue.Blocks())
  {
    hide CompileNode, Seats, Flow;
    if chain == [] {
      EmptyWalk(catalog);
    } else {
      var front, last := chain[..|chain| - 1], chain[|chain| - 1];
      assert chain == front + [last];
      WalkAgrees(catalog, front);
      FlowAppend(catalog, front, [last], None, 0);
      StepFlow(catalog, CompileNodes(catalog, front), last, |front|);
      StepIssue(catalog, CompileNodes(catalog, front), last, |front|);
    }
  }

  lemma EmptyWalk(catalog: Catalog)
    ensures Flow(catalog, [], None, 0) == (None, 0) && Seats(catalog, [], None, 0)
  {
  }

  lemma StepFlow(catalog: Catalog, c: Compiled, node: ChainNode, index: nat)
    ensures var d := CompileNode(catalog, c, node, index);
            Flow(catalog, [node], c.shape, c.sources) == (d.shape, d.sources)
  {
  }

  /** One step adds a blocking issue exactly when the node does not seat on what flows in. */
  lemma StepIssue(catalog: Catalog, c: Compiled, node: ChainNode, index: nat)
    ensures var d := CompileNode(catalog, c, node, index);
            (forall issue :: issue in d.issues ==> !issue.Blocks()) <==>
            (forall issue :: issue in c.issues ==> !issue.Blocks()) && Seats(catalog, [node], c.shape, c.sources)
  {
    var d := CompileNode(catalog, c, node, index);
    assert d.issues == c.issues || (d.issues == c.issues + [d.issues[|c.issues|]] && d.issues[|c.issues|] in d.issues);
    assert forall issue :: issue in c.issues ==> issue in d.issues;
  }

  /** The compiler finds no blocking issue exactly when the nodes seat from an empty start. */
  lemma FitsIsSeats(catalog: Catalog, chain: Chain)
    ensures Fits(catalog, chain) <==> Seats(catalog, chain, None, 0)
  {
    WalkAgrees(catalog, chain);
    var c := CompileNodes(catalog, chain);
    var tail := CompileFindings(catalog, chain)[|c.issues|..];
    assert CompileFindings(catalog, chain) == c.issues + tail;
    assert forall issue :: issue in tail ==> !issue.Blocks();
  }
}
