/** What compiling a chain reports, written on the placed blocks themselves. */
module CompiledAsPlaced {
  import opened Prelude
  import opened Blocks
  import opened Insertion
  import Deployable

  /** The node changes what flows: every known block but a guard. */
  predicate Moves(catalog: Catalog, node: ChainNode) {
    node.blockId in catalog && catalog[node.blockId].kind != Guard
  }

  /** The nearest moving block before position `k` is at `i`. */
  ghost predicate Nearest(catalog: Catalog, chain: Chain, k: nat, i: int)
    requires k <= |chain|
  {
    0 <= i < k && Moves(catalog, chain[i]) && forall j :: i < j < k ==> !Moves(catalog, chain[j])
  }

  /** What reaches position `k`: what the nearest moving block before it emits, or nothing. */
  ghost predicate Reaches(catalog: Catalog, chain: Chain, k: nat, shape: Option<FlowShape>)
    requires k <= |chain|
  {
    && (forall i :: Nearest(catalog, chain, k, i) ==> shape == catalog[chain[i].blockId].emits)
    && ((forall i :: 0 <= i < k ==> !Moves(catalog, chain[i])) ==> shape == None)
  }

  ghost predicate SourceBefore(catalog: Catalog, chain: Chain, k: nat)
    requires k <= |chain|
  {
    exists i :: 0 <= i < k && chain[i].blockId in catalog && catalog[chain[i].blockId].kind == Source
  }

  /** The issue is due at its position, for the block placed there and what reaches it. */
  ghost predicate Due(catalog: Catalog, chain: Chain, issue: Issue) {
    match issue
    case UnknownBlock(at) => at < |chain| && chain[at].blockId !in catalog
    case DuplicateSource(at) =>
      && at < |chain| && chain[at].blockId in catalog && catalog[chain[at].blockId].kind == Source
      && (SourceBefore(catalog, chain, at) || !Reaches(catalog, chain, at, None))
    case Orphan(at) =>
      && at < |chain| && chain[at].blockId in catalog && catalog[chain[at].blockId].kind in {Action, Sink}
      && Reaches(catalog, chain, at, None)
    case Mismatch(at) =>
      && at < |chain| && chain[at].blockId in catalog && catalog[chain[at].blockId].kind in {Action, Sink}
      && !Reaches(catalog, chain, at, None) && !Reaches(catalog, chain, at, catalog[chain[at].blockId].accepts)
    case IdleGuard(at) =>
      && at < |chain| && chain[at].blockId in catalog && catalog[chain[at].blockId].kind == Guard
      && Reaches(catalog, chain, at, None)
    case NothingSettles =>
      && (exists i :: 0 <= i < |chain| && chain[i].blockId in catalog)
      && (forall i :: 0 <= i < |chain| && chain[i].blockId in catalog ==> catalog[chain[i].blockId].kind != Sink)
    case EmptyCanvas => forall i :: 0 <= i < |chain| ==> chain[i].blockId !in catalog
  }

  // ---- what flows ----------------------------------------------------------

  lemma FlowOne(catalog: Catalog, node: ChainNode, shape: Option<FlowShape>, n: nat)
    ensures Flow(catalog, [node], shape, n)
            == (if Moves(catalog, node) then catalog[node.blockId].emits else shape,
                if KindAt(catalog, node) == Some(Source) then n + 1 else n)
  {
    assert [node][1..] == [];
  }

  lemma {:induction false} FlowReaches(catalog: Catalog, chain: Chain, k: nat, shape: Option<FlowShape>)
    requires k <= |chain|
    ensures Reaches(catalog, chain, k, shape) <==> shape == Flow(catalog, chain[..k], None, 0).0
    ensures Flow(catalog, chain[..k], None, 0).1 > 0 <==> SourceBefore(catalog, chain, k)
  {
    hide Flow, Moves;
    if k == 0 {
      EmptyWalk(catalog);
    } else {
      FlowReaches(catalog, chain, k - 1, shape);
      assert chain[..k] == chain[..k - 1] + [chain[k - 1]];
      var (before, n) := Flow(catalog, chain[..k - 1], None, 0);
      FlowAppend(catalog, chain[..k - 1], [chain[k - 1]], None, 0);
      FlowOne(catalog, chain[k - 1], before, n);
      ReachesStep(catalog, chain, k - 1, k, shape);
      SourceStep(catalog, chain, k - 1);
    }
  }

  lemma SourceStep(catalog: Catalog, chain: Chain, k: nat)
    requires k < |chain|
    ensures SourceBefore(catalog, chain, k + 1) <==>
            SourceBefore(catalog, chain, k) || KindAt(catalog, chain[k]) == Some(Source)
  {
  }

  lemma ReachesStep(catalog: Catalog, chain: Chain, k: nat, next: nat, shape: Option<FlowShape>)
    requires k + 1 == next <= |chain|
    ensures Reaches(catalog, chain, next, shape) <==>
            if Moves(catalog, chain[k]) then shape == catalog[chain[k].blockId].emits
            else Reaches(catalog, chain, k, shape)
  {
    hide Moves;
    if Moves(catalog, chain[k]) {
      MovingBlockIsKnown(catalog, chain[k]);
      assert Nearest(catalog, chain, next, k);
      forall i | Nearest(catalog, chain, next, i) ensures i == k {}
    } else {
      forall i ensures Nearest(catalog, chain, next, i) <==> Nearest(catalog, chain, k, i) {}
      assert (forall i :: 0 <= i < k ==> !Moves(catalog, chain[i])) <==>
             (forall i :: 0 <= i < next ==> !Moves(catalog, chain[i]));
    }
  }

  lemma MovingBlockIsKnown(catalog: Catalog, node: ChainNode)
    requires Moves(catalog, node)
    ensures node.blockId in catalog
  {
  }

  // ---- the issues ----------------------------------------------------------

  ghost predicate Reported(catalog: Catalog, chain: Chain, k: nat, issue: Issue) {
    issue in [UnknownBlock(k), DuplicateSource(k), Orphan(k), Mismatch(k), IdleGuard(k)] && Due(catalog, chain, issue)
  }

  /** The issue is due at the position where `shape` flows, behind a source or not. */
  predicate DueOn(catalog: Catalog, node: ChainNode, shape: Option<FlowShape>, source: bool, issue: Issue) {
    match issue
    case UnknownBlock(_) => node.blockId !in catalog
    case DuplicateSource(_) => KindAt(catalog, node) == Some(Source) && (source || shape.Some?)
    case Orphan(_) => KindAt(catalog, node) in {Some(Action), Some(Sink)} && shape.None?
    case Mismatch(_) =>
      KindAt(catalog, node) in {Some(Action), Some(Sink)} && shape.Some? && catalog[node.blockId].accepts != shape
    case IdleGuard(_) => KindAt(catalog, node) == Some(Guard) && shape.None?
    case _ => false
  }

  lemma WalkAdds(catalog: Catalog, c: Compiled, node: ChainNode, k: nat, issue: Issue)
    requires k == 0 ==> c.shape.None?
    ensures issue in CompileNode(catalog, c, node, k).issues <==>
            || issue in c.issues
            || (issue in [UnknownBlock(k), DuplicateSource(k), Orphan(k), Mismatch(k), IdleGuard(k)]
                && DueOn(catalog, node, c.shape, c.sources > 0, issue))
  {
  }

  lemma DueHere(catalog: Catalog, chain: Chain, k: nat, issue: Issue)
    requires k < |chain| && issue in [UnknownBlock(k), DuplicateSource(k), Orphan(k), Mismatch(k), IdleGuard(k)]
    ensures var (shape, n) := Flow(catalog, chain[..k], None, 0);
            Due(catalog, chain, issue) <==> DueOn(catalog, chain[k], shape, n > 0, issue)
  {
    hide Flow, Reaches, SourceBefore;
    FlowReaches(catalog, chain, k, None);
    if chain[k].blockId in catalog { FlowReaches(catalog, chain, k, catalog[chain[k].blockId].accepts); }
  }

  /** What the walk adds for the block at `k`. */
  lemma IssueAt(catalog: Catalog, chain: Chain, k: nat, issue: Issue)
    requires k < |chain|
    ensures var c := CompileNodes(catalog, chain[..k]);
            var d := CompileNode(catalog, c, chain[k], k);
            issue in d.issues <==> issue in c.issues || Reported(catalog, chain, k, issue)
  {
    hide Flow, Due, DueOn, CompileNodes, CompileNode;
    WalkAgrees(catalog, chain[..k]);
    EmptyCompiles(catalog, chain);
    WalkAdds(catalog, CompileNodes(catalog, chain[..k]), chain[k], k, issue);
    if issue in [UnknownBlock(k), DuplicateSource(k), Orphan(k), Mismatch(k), IdleGuard(k)] {
      DueHere(catalog, chain, k, issue);
    }
  }

  /** The walked issues are those due before position `k`. */
  lemma {:induction false} WalkedIssues(catalog: Catalog, chain: Chain, k: nat)
    requires k <= |chain|
    ensures forall issue :: issue in CompileNodes(catalog, chain[..k]).issues <==>
              Due(catalog, chain, issue) && !issue.NothingSettles? && !issue.EmptyCanvas? && issue.at < k
  {
    hide Due, CompileNode, CompileNodes;
    if k == 0 {
      EmptyCompiles(catalog, chain);
    } else {
      WalkedIssues(catalog, chain, k - 1);
      CompileSnoc(catalog, chain, k - 1);
      forall issue ensures issue in CompileNodes(catalog, chain[..k]).issues <==>
                           Due(catalog, chain, issue) && !issue.NothingSettles? && !issue.EmptyCanvas? && issue.at < k
      {
        IssueAt(catalog, chain, k - 1, issue);
      }
    }
  }

  /** The compiler reports an issue exactly when it is due. */
  lemma FindingsExactly(catalog: Catalog, chain: Chain, issue: Issue)
    ensures issue in CompileFindings(catalog, chain) <==> Due(catalog, chain, issue)
  {
    hide CompileNodes, Reaches, SourceBefore;
    WalkedIssues(catalog, chain, |chain|);
    assert chain[..|chain|] == chain;
    forall i | 0 <= i < |chain| ensures KindAt(catalog, chain[i]).Some? <==> chain[i].blockId in catalog {}
  }

  /** The estimate is the base cost and every known block's own. */
  lemma {:induction false} GasAddsUp(catalog: Catalog, front: Chain, last: ChainNode)
    ensures CompileNodes(catalog, []).gas == 21000
    ensures CompileNodes(catalog, front + [last]).gas
            == CompileNodes(catalog, front).gas + if last.blockId in catalog then catalog[last.blockId].gas else 0
  {
    assert (front + [last])[..|front|] == front;
  }

  /** A chain compiles without a blocking issue exactly when every block is known, a source comes before
      everything that moves and is the only one, and every action and sink accepts what reaches it. */
  lemma FitsExactly(catalog: Catalog, chain: Chain)
    ensures Fits(catalog, chain) <==>
            forall k :: 0 <= k < |chain| ==>
              && chain[k].blockId in catalog
              && (catalog[chain[k].blockId].kind == Source ==>
                    !SourceBefore(catalog, chain, k) && Reaches(catalog, chain, k, None))
              && (catalog[chain[k].blockId].kind in {Action, Sink} ==>
                    !Reaches(catalog, chain, k, None) && Reaches(catalog, chain, k, catalog[chain[k].blockId].accepts))
  {
    hide Reaches, SourceBefore, CompileFindings;
    forall issue ensures issue in CompileFindings(catalog, chain) <==> Due(catalog, chain, issue) {
      FindingsExactly(catalog, chain, issue);
    }
    if Fits(catalog, chain) {
      forall k | 0 <= k < |chain|
        ensures chain[k].blockId in catalog
        ensures catalog[chain[k].blockId].kind == Source ==>
                  !SourceBefore(catalog, chain, k) && Reaches(catalog, chain, k, None)
        ensures catalog[chain[k].blockId].kind in {Action, Sink} ==>
                  !Reaches(catalog, chain, k, None) && Reaches(catalog, chain, k, catalog[chain[k].blockId].accepts)
      {
        assert !Due(catalog, chain, UnknownBlock(k)) && !Due(catalog, chain, DuplicateSource(k));
        assert !Due(catalog, chain, Orphan(k)) && !Due(catalog, chain, Mismatch(k));
      }
    }
  }

  /** A drawing seats, whatever else is wrong with it, exactly when every action and sink accepts what reaches it. */
  lemma SeatsExactly(catalog: Catalog, chain: Chain)
    ensures Deployable.SeatsStructurally(catalog, chain) <==>
            forall k :: 0 <= k < |chain| && chain[k].blockId in catalog
                        && catalog[chain[k].blockId].kind in {Action, Sink} ==>
              !Reaches(catalog, chain, k, None) && Reaches(catalog, chain, k, catalog[chain[k].blockId].accepts)
  {
    hide Reaches, SourceBefore, CompileNodes;
    WalkedIssues(catalog, chain, |chain|);
    assert chain[..|chain|] == chain;
    if Deployable.SeatsStructurally(catalog, chain) {
      forall k | 0 <= k < |chain| && chain[k].blockId in catalog && catalog[chain[k].blockId].kind in {Action, Sink}
        ensures !Reaches(catalog, chain, k, None) && Reaches(catalog, chain, k, catalog[chain[k].blockId].accepts)
      {
        assert !Due(catalog, chain, Orphan(k)) && !Due(catalog, chain, Mismatch(k));
      }
    }
  }

  // ---- where a block may go ------------------------------------------------

  /** The next moving block from position `k` is at `i`. */
  ghost predicate Following(catalog: Catalog, chain: Chain, k: nat, i: int) {
    k <= i < |chain| && Moves(catalog, chain[i]) && forall j :: k <= j < i ==> !Moves(catalog, chain[j])
  }

  lemma FollowingStep(catalog: Catalog, chain: Chain, k: nat, next: nat, i: int)
    requires k + 1 == next <= |chain|
    ensures Following(catalog, chain, k, i) <==>
            if Moves(catalog, chain[k]) then i == k else Following(catalog, chain, next, i)
  {
    hide Moves;
  }

  lemma {:induction false} ConsumerFollows(catalog: Catalog, chain: Chain, k: nat)
    requires k <= |chain|
    ensures NextConsumer(catalog, chain[k..]).None? <==> forall i :: !Following(catalog, chain, k, i)
    ensures forall i :: Following(catalog, chain, k, i) ==>
              NextConsumer(catalog, chain[k..]) == Some(catalog[chain[i].blockId])
    decreases |chain| - k
  {
    if k < |chain| {
      assert chain[k..][1..] == chain[k + 1..];
      var next := k + 1;
      ConsumerFollows(catalog, chain, next);
      forall i ensures Following(catalog, chain, k, i) <==>
                       if Moves(catalog, chain[k]) then i == k else Following(catalog, chain, next, i)
      {
        FollowingStep(catalog, chain, k, next, i);
      }
    }
  }

  /** A guard may go wherever something flows. Any other block must accept what reaches it, a source only where
      nothing does and the chain has none, and be accepted by the next block that moves, unless that is a
      source. */
  lemma InsertableExactly(catalog: Catalog, chain: Chain, block: LegoBlock, k: nat)
    requires k <= |chain|
    ensures CanInsert(catalog, chain, block, k) <==>
            if block.kind == Guard then !Reaches(catalog, chain, k, None)
            else
              && (if block.kind == Source then
                    Reaches(catalog, chain, k, None) && !SourceBefore(catalog, chain, |chain|)
                  else Reaches(catalog, chain, k, block.accepts))
              && forall i :: Following(catalog, chain, k, i) ==>
                   catalog[chain[i].blockId].kind == Source || catalog[chain[i].blockId].accepts == block.emits
  {
    hide Reaches, Flow, NextConsumer, Moves;
    FlowReaches(catalog, chain, k, None);
    FlowReaches(catalog, chain, k, block.accepts);
    ConsumerFollows(catalog, chain, k);
    assert HasSource(catalog, chain) <==> SourceBefore(catalog, chain, |chain|);
  }
}
