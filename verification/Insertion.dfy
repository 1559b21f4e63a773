/** The insertion judgement of `blocks.ts` agrees with the compiler, and the stack composer built on
    it keeps a chain compiling. */
module Insertion {
  import opened Prelude
  import opened Blocks

  /** `shapeBefore`: what flows into position `index`, guards and unknown blocks being transparent. */
  function ShapeBefore(catalog: Catalog, chain: Chain, index: nat): Option<FlowShape>
    requires index <= |chain|
  {
    Flow(catalog, chain[..index], None, 0).0
  }

  /** `shapeBefore`, as the source's loop. */
  method WalkShape(catalog: Catalog, chain: Chain, index: nat) returns (shape: Option<FlowShape>)
    requires index <= |chain|
    ensures shape == ShapeBefore(catalog, chain, index)
  {
    shape := None;
    ghost var sources: nat := 0;
    for i := 0 to index
      invariant Flow(catalog, chain[..i], None, 0) == (shape, sources)
    {
      assert chain[..i + 1] == chain[..i] + [chain[i]];
      FlowAppend(catalog, chain[..i], [chain[i]], None, 0);
      assert [chain[i]][1..] == [];
      if chain[i].blockId in catalog && catalog[chain[i].blockId].kind != Guard {
        sources := sources + if catalog[chain[i].blockId].kind == Source then 1 else 0;
        shape := catalog[chain[i].blockId].emits;
      }
    }
  }

  predicate HasSource(catalog: Catalog, chain: Chain) {
    exists i :: 0 <= i < |chain| && KindAt(catalog, chain[i]) == Some(Source)
  }

  /** `nextConsumer` over the tail from the insertion point. */
  function NextConsumer(catalog: Catalog, tail: Chain): Option<LegoBlock> {
    if tail == [] then None
    else if tail[0].blockId in catalog && catalog[tail[0].blockId].kind != Guard then Some(catalog[tail[0].blockId])
    else NextConsumer(catalog, tail[1..])
  }

  /** `canInsert`. */
  predicate CanInsert(catalog: Catalog, chain: Chain, block: LegoBlock, index: nat)
    requires index <= |chain|
  {
    var incoming := ShapeBefore(catalog, chain, index);
    if block.kind == Guard then incoming.Some?
    else if block.kind == Source && (incoming.Some? || HasSource(catalog, chain)) then false
    else if block.kind != Source && block.accepts != incoming then false
    else
      var next := NextConsumer(catalog, chain[index..]);
      next.None? || next.value.kind == Source || next.value.accepts == block.emits
  }

  function Insert(chain: Chain, index: nat, node: ChainNode): (c: Chain)
    requires index <= |chain|
    ensures |c| == |chain| + 1
  {
    chain[..index] + [node] + chain[index..]
  }

  // ---- lemmas about tails --------------------------------------------------

  /** A tail that seats on one shape seats on another exactly when its first consumer accepts it. */
  lemma {:induction false} SeatsOn(catalog: Catalog, tail: Chain, shape: Option<FlowShape>, other: Option<FlowShape>,
                                   n: nat)
    requires WellTyped(catalog) && Seats(catalog, tail, shape, n)
    ensures var next := NextConsumer(catalog, tail);
            Seats(catalog, tail, other, n) <==>
            || next.None?
            || (if next.value.kind == Source then other.None? else other.Some? && next.value.accepts == other)
  {
    if tail != [] && catalog[tail[0].blockId].kind == Guard {
      SeatsOn(catalog, tail[1..], shape, other, n);
    }
  }

  /** Once a source has been placed, a tail seats exactly when it seats and holds no further source. */
  lemma {:induction false} SeatsAfterSource(catalog: Catalog, tail: Chain, shape: Option<FlowShape>)
    ensures Seats(catalog, tail, shape, 1) ==> !HasSource(catalog, tail)
    ensures !HasSource(catalog, tail) ==> (Seats(catalog, tail, shape, 0) <==> Seats(catalog, tail, shape, 1))
  {
    if tail != [] {
      HasSourceCons(catalog, tail);
      if tail[0].blockId in catalog {
        var block := catalog[tail[0].blockId];
        SeatsAfterSource(catalog, tail[1..], if block.kind == Guard then shape else block.emits);
      }
    }
  }

  lemma HasSourceCons(catalog: Catalog, tail: Chain)
    requires tail != []
    ensures HasSource(catalog, tail) <==> KindAt(catalog, tail[0]) == Some(Source) || HasSource(catalog, tail[1..])
  {
  }

  lemma {:induction false} FlowCountsSources(catalog: Catalog, chain: Chain, shape: Option<FlowShape>, n: nat)
    ensures Flow(catalog, chain, shape, n).1 >= n
    ensures Flow(catalog, chain, shape, n).1 == n <==> !HasSource(catalog, chain)
  {
    if chain != [] {
      HasSourceCons(catalog, chain);
      if chain[0].blockId in catalog {
        var block := catalog[chain[0].blockId];
        FlowCountsSources(catalog, chain[1..], if block.kind == Guard then shape else block.emits,
                          if block.kind == Source then n + 1 else n);
      } else {
        FlowCountsSources(catalog, chain[1..], shape, n);
      }
    }
  }

  lemma HasSourceSplit(catalog: Catalog, chain: Chain, index: nat)
    requires index <= |chain|
    ensures HasSource(catalog, chain) <==> HasSource(catalog, chain[..index]) || HasSource(catalog, chain[index..])
  {
  }

  /** A tail that seats with nothing flowing and no source of its own holds only guards. */
  lemma {:induction false} NothingFlows(catalog: Catalog, tail: Chain, n: nat)
    requires Seats(catalog, tail, None, n) && !HasSource(catalog, tail)
    ensures NextConsumer(catalog, tail).None?
  {
    if tail != [] {
      HasSourceCons(catalog, tail);
      NothingFlows(catalog, tail[1..], n);
    }
  }

  // ---- the judgement agrees with the compiler ------------------------------

  /** What compiling the insertion comes down to: the block seats on what flows in, and the rest of
      the chain seats on what it emits. */
  lemma InsertedSeats(catalog: Catalog, chain: Chain, node: ChainNode, index: nat)
    requires index <= |chain| && node.blockId in catalog
    ensures var (shape, n) := Flow(catalog, chain[..index], None, 0);
            var block := catalog[node.blockId];
            Fits(catalog, Insert(chain, index, node)) <==>
            && Seats(catalog, chain[..index], None, 0)
            && (match block.kind
                case Guard => Seats(catalog, chain[index..], shape, n)
                case Source => shape.None? && n == 0 && Seats(catalog, chain[index..], block.emits, 1)
                case _ => shape.Some? && block.accepts == shape && Seats(catalog, chain[index..], block.emits, n))
  {
    hide Flow;
    var tail := [node] + chain[index..];
    assert Insert(chain, index, node) == chain[..index] + tail;
    assert tail[1..] == chain[index..];
    FitsIsSeats(catalog, Insert(chain, index, node));
    FlowAppend(catalog, chain[..index], tail, None, 0);
  }

  lemma ChainSeats(catalog: Catalog, chain: Chain, index: nat)
    requires index <= |chain| && Fits(catalog, chain)
    ensures var (shape, n) := Flow(catalog, chain[..index], None, 0);
            Seats(catalog, chain[..index], None, 0) && Seats(catalog, chain[index..], shape, n)
  {
    hide Flow, Seats;
    assert chain == chain[..index] + chain[index..];
    FitsIsSeats(catalog, chain);
    FlowAppend(catalog, chain[..index], chain[index..], None, 0);
  }

  /** For every block that is not a guard, `canInsert` is exactly "the edited chain still compiles". */
  lemma InsertDecides(catalog: Catalog, chain: Chain, node: ChainNode, index: nat)
    requires WellTyped(catalog) && Fits(catalog, chain) && index <= |chain|
    requires node.blockId in catalog && catalog[node.blockId].kind != Guard
    ensures CanInsert(catalog, chain, catalog[node.blockId], index) <==> Fits(catalog, Insert(chain, index, node))
  {
    hide Flow, Seats, Fits, Insert;
    var block, tail := catalog[node.blockId], chain[index..];
    var (shape, n) := Flow(catalog, chain[..index], None, 0);
    ChainSeats(catalog, chain, index);
    InsertedSeats(catalog, chain, node, index);
    FlowCountsSources(catalog, chain[..index], None, 0);
    HasSourceSplit(catalog, chain, index);
    SeatsAfterSource(catalog, tail, shape);
    if block.kind == Source {
      SeatsAfterSource(catalog, tail, block.emits);
      if shape.None? && !HasSource(catalog, chain) {
        NothingFlows(catalog, tail, n);
        SeatsOn(catalog, tail, shape, block.emits, 0);
      }
    } else {
      SeatsOn(catalog, tail, shape, block.emits, n);
      SeatsOn(catalog, tail, shape, shape, n);
    }
  }

  /** A guard never breaks a chain; `canInsert` admits it exactly where the compiler will not call it
      idle. */
  lemma GuardDecides(catalog: Catalog, chain: Chain, node: ChainNode, index: nat)
    requires Fits(catalog, chain) && index <= |chain|
    requires node.blockId in catalog && catalog[node.blockId].kind == Guard
    ensures Fits(catalog, Insert(chain, index, node))
    ensures CanInsert(catalog, chain, catalog[node.blockId], index) <==>
            IdleGuard(index) !in CompileNodes(catalog, Insert(chain, index, node)[..index + 1]).issues
  {
    hide Seats, Fits;
    var c := Insert(chain, index, node);
    ChainSeats(catalog, chain, index);
    InsertedSeats(catalog, chain, node, index);
    assert c[..index] == chain[..index] && c[index] == node;
    CompileSnoc(catalog, c, index);
    WalkAgrees(catalog, chain[..index]);
    IssuesPointBack(catalog, chain[..index]);
  }

  /** Whatever `canInsert` accepts compiles without a blocking issue. */
  lemma InsertIsSound(catalog: Catalog, chain: Chain, node: ChainNode, index: nat)
    requires WellTyped(catalog) && Fits(catalog, chain) && index <= |chain| && node.blockId in catalog
    requires CanInsert(catalog, chain, catalog[node.blockId], index)
    ensures Fits(catalog, Insert(chain, index, node))
  {
    hide Fits, CanInsert, Insert;
    if catalog[node.blockId].kind == Guard {
      GuardDecides(catalog, chain, node, index);
    } else {
      InsertDecides(catalog, chain, node, index);
    }
  }

  /** Issues name positions already walked. */
  lemma {:induction false} IssuesPointBack(catalog: Catalog, chain: Chain)
    ensures IdleGuard(|chain|) !in CompileNodes(catalog, chain).issues
    ensures forall k :: k >= |chain| ==> IdleGuard(k) !in CompileNodes(catalog, chain).issues
  {
    if chain != [] { IssuesPointBack(catalog, chain[..|chain| - 1]); }
  }

  // ---- composing a stack ---------------------------------------------------

  /** The deepest position at which the block fits. */
  function DeepestSeat(catalog: Catalog, chain: Chain, block: LegoBlock, top: nat): (seat: Option<nat>)
    requires top <= |chain|
    ensures seat.Some? ==> seat.value <= top && CanInsert(catalog, chain, block, seat.value)
    ensures forall j :: (if seat.Some? then seat.value < j else 0 <= j) && j <= top ==>
                          !CanInsert(catalog, chain, block, j)
  {
    if CanInsert(catalog, chain, block, top) then Some(top)
    else if top == 0 then None
    else DeepestSeat(catalog, chain, block, top - 1)
  }

  /** The composer's inner loop, from the deepest position upwards. */
  method FindSeat(catalog: Catalog, chain: Chain, block: LegoBlock) returns (seat: Option<nat>)
    ensures seat == DeepestSeat(catalog, chain, block, |chain|)
  {
    var index := |chain|;
    while true
      invariant 0 <= index <= |chain|
      invariant DeepestSeat(catalog, chain, block, |chain|) == DeepestSeat(catalog, chain, block, index)
      decreases index
    {
      if CanInsert(catalog, chain, block, index) { return Some(index); }
      if index == 0 { return None; }
      index := index - 1;
    }
  }

  function DefaultOf(param: BlockParam): ParamValue {
    match param
    case NumberParam(_, number, _, _) => Number(number)
    case SelectParam(_, choice, _) => Text(choice)
    case AmountParam(_, amount) => Text(amount)
    case TextParam(_, text) => Text(text)
  }

  /** `defaultParams`. */
  function DefaultParams(params: seq<BlockParam>): map<string, ParamValue> {
    if params == [] then map[]
    else DefaultParams(params[..|params| - 1])[params[|params| - 1].key := DefaultOf(params[|params| - 1])]
  }

  /** `makeNode` without overrides. */
  function MakeNode(catalog: Catalog, blockId: string, uid: string): ChainNode
    requires blockId in catalog
  {
    ChainNode(uid, blockId, DefaultParams(catalog[blockId].params))
  }

  datatype Composition = Composition(chain: Chain, added: Chain, rejected: seq<string>)

  /** Seat the ids in order, each at its deepest position of the chain built so far; `uids` answers
      the caller's `nextUid` and `used` counts its calls. */
  function Compose(catalog: Catalog, chain: Chain, ids: seq<string>, uids: nat -> string, used: nat): Composition
    decreases |ids|
  {
    if ids == [] then Composition(chain, [], [])
    else if ids[0] !in catalog || DeepestSeat(catalog, chain, catalog[ids[0]], |chain|).None? then
      var rest := Compose(catalog, chain, ids[1..], uids, used);
      rest.(rejected := [ids[0]] + rest.rejected)
    else
      var seat := DeepestSeat(catalog, chain, catalog[ids[0]], |chain|).value;
      var node := MakeNode(catalog, ids[0], uids(used));
      var rest := Compose(catalog, Insert(chain, seat, node), ids[1..], uids, used + 1);
      rest.(added := [node] + rest.added)
  }

  lemma ComposeStep(catalog: Catalog, chain: Chain, ids: seq<string>, i: nat, uids: nat -> string, used: nat)
    requires i < |ids|
    ensures Compose(catalog, chain, ids[i..], uids, used)
            == if ids[i] !in catalog || DeepestSeat(catalog, chain, catalog[ids[i]], |chain|).None? then
                 var rest := Compose(catalog, chain, ids[i + 1..], uids, used);
                 rest.(rejected := [ids[i]] + rest.rejected)
               else
                 var seat := DeepestSeat(catalog, chain, catalog[ids[i]], |chain|).value;
                 var node := MakeNode(catalog, ids[i], uids(used));
                 var rest := Compose(catalog, Insert(chain, seat, node), ids[i + 1..], uids, used + 1);
                 rest.(added := [node] + rest.added)
  {
    hide DeepestSeat, Insert, DefaultParams;
    assert ids[i..][0] == ids[i] && ids[i..][1..] == ids[i + 1..];
  }

  lemma ComposeNothing(catalog: Catalog, chain: Chain, uids: nat -> string, used: nat)
    ensures Compose(catalog, chain, [], uids, used) == Composition(chain, [], [])
  {
  }

  /** `composeBlockStack`: splices into a working copy, one requested id at a time. */
  method ComposeBlockStack(catalog: Catalog, chain: Chain, blockIds: seq<string>, uids: nat -> string)
    returns (composed: Chain, added: Chain, rejected: seq<string>)
    ensures Composition(composed, added, rejected) == Compose(catalog, chain, blockIds, uids, 0)
  {
    hide Compose, DeepestSeat, Insert, DefaultParams;
    composed, added, rejected := chain, [], [];
    assert blockIds[0..] == blockIds;
    for i := 0 to |blockIds|
      invariant var rest := Compose(catalog, composed, blockIds[i..], uids, |added|);
                Compose(catalog, chain, blockIds, uids, 0)
                == Composition(rest.chain, added + rest.added, rejected + rest.rejected)
    {
      var blockId := blockIds[i];
      ComposeStep(catalog, composed, blockIds, i, uids, |added|);
      if blockId !in catalog {
        rejected := rejected + [blockId];
        continue;
      }
      var seat := FindSeat(catalog, composed, catalog[blockId]);
      if seat.None? {
        rejected := rejected + [blockId];
      } else {
        var node := MakeNode(catalog, blockId, uids(|added|));
        composed := Insert(composed, seat.value, node);
        added := added + [node];
      }
    }
    assert blockIds[|blockIds|..] == [];
    ComposeNothing(catalog, composed, uids, |added|);
  }

  /** Every parameter starts at the default it declares, where no later one takes its key; there are no others. */
  lemma {:induction false} DefaultsAreDeclared(params: seq<BlockParam>)
    ensures forall key :: key in DefaultParams(params) <==> exists i :: 0 <= i < |params| && params[i].key == key
    ensures forall i :: 0 <= i < |params| && (forall j :: i < j < |params| ==> params[j].key != params[i].key) ==>
              DefaultParams(params)[params[i].key]
              == match params[i]
                 case NumberParam(_, number, _, _) => Number(number)
                 case SelectParam(_, choice, _) => Text(choice)
                 case AmountParam(_, amount) => Text(amount)
                 case TextParam(_, text) => Text(text)
  {
    if params != [] {
      var front, last := params[..|params| - 1], params[|params| - 1];
      DefaultsAreDeclared(front);
      assert params == front + [last];
      forall key ensures key in DefaultParams(params) <==> exists i :: 0 <= i < |params| && params[i].key == key {
        if key == last.key { assert params[|front|].key == key; }
        if i :| 0 <= i < |front| && front[i].key == key { assert params[i].key == key; }
      }
    }
  }

  /** One more id: it is seated, under its defaults and the next name asked for, at the deepest position of
      what was composed before where it may go, and refused when there is none or the id is unknown. */
  ghost predicate Seated(catalog: Catalog, before: Composition, id: string, uid: string, after: Composition) {
    if id !in catalog || forall j :: 0 <= j <= |before.chain| ==> !CanInsert(catalog, before.chain, catalog[id], j) then
      after == Composition(before.chain, before.added, before.rejected + [id])
    else
      var node := ChainNode(uid, id, DefaultParams(catalog[id].params));
      && after.added == before.added + [node] && after.rejected == before.rejected
      && exists i :: 0 <= i <= |before.chain| && CanInsert(catalog, before.chain, catalog[id], i)
           && (forall j :: i < j <= |before.chain| ==> !CanInsert(catalog, before.chain, catalog[id], j))
           && after.chain == before.chain[..i] + [node] + before.chain[i..]
  }

  lemma SeatsNext(catalog: Catalog, chain: Chain, id: string, uids: nat -> string, used: nat)
    ensures Seated(catalog, Composition(chain, [], []), id, uids(used), Compose(catalog, chain, [id], uids, used))
  {
    hide CanInsert, DefaultParams;
    assert [id][1..] == [];
  }

  /** Earlier answers stay in front. */
  lemma SeatedAfter(catalog: Catalog, before: Composition, id: string, uid: string, after: Composition, added: Chain,
                    rejected: seq<string>)
    requires Seated(catalog, before, id, uid, after)
    ensures Seated(catalog, Composition(before.chain, added + before.added, rejected + before.rejected), id, uid,
                   Composition(after.chain, added + after.added, rejected + after.rejected))
  {
    hide CanInsert, DefaultParams;
    assert rejected + (before.rejected + [id]) == rejected + before.rejected + [id];
  }

  lemma RefusedFirst(catalog: Catalog, chain: Chain, ids: seq<string>, uids: nat -> string, used: nat)
    requires ids != []
    requires ids[0] !in catalog || DeepestSeat(catalog, chain, catalog[ids[0]], |chain|).None?
    ensures var rest := Compose(catalog, chain, ids[1..], uids, used);
            Compose(catalog, chain, ids, uids, used)
            == Composition(rest.chain, [] + rest.added, [ids[0]] + rest.rejected)
  {
    hide DeepestSeat;
  }

  lemma SeatedFirst(catalog: Catalog, chain: Chain, ids: seq<string>, uids: nat -> string, used: nat)
    returns (seat: nat, node: ChainNode)
    requires ids != [] && ids[0] in catalog
    requires DeepestSeat(catalog, chain, catalog[ids[0]], |chain|).Some?
    ensures seat <= |chain|
    ensures forall tail ::
              var rest := Compose(catalog, Insert(chain, seat, node), tail, uids, used + 1);
              Compose(catalog, chain, [ids[0]] + tail, uids, used)
              == Composition(rest.chain, [node] + rest.added, [] + rest.rejected)
  {
    hide DeepestSeat, Insert, DefaultParams;
    seat := DeepestSeat(catalog, chain, catalog[ids[0]], |chain|).value;
    node := MakeNode(catalog, ids[0], uids(used));
    forall tail
      ensures var rest := Compose(catalog, Insert(chain, seat, node), tail, uids, used + 1);
              Compose(catalog, chain, [ids[0]] + tail, uids, used)
              == Composition(rest.chain, [node] + rest.added, [] + rest.rejected)
    {
      assert ([ids[0]] + tail)[1..] == tail;
    }
  }

  /** Composing a list of ids is seating them one after another. */
  lemma {:induction false} ComposeSnoc(catalog: Catalog, chain: Chain, ids: seq<string>, id: string,
                                       uids: nat -> string, used: nat)
    ensures var before := Compose(catalog, chain, ids, uids, used);
            Seated(catalog, before, id, uids(used + |before.added|), Compose(catalog, chain, ids + [id], uids, used))
    ensures Compose(catalog, chain, [], uids, used) == Composition(chain, [], [])
    decreases |ids|
  {
    hide CanInsert, DefaultParams, DeepestSeat, Compose, Seated, Insert;
    ComposeNothing(catalog, chain, uids, used);
    if ids == [] {
      SeatsNext(catalog, chain, id, uids, used);
      assert ids + [id] == [id];
    } else {
      var more, tail := ids + [id], ids[1..] + [id];
      assert more[1..] == tail && more[0] == ids[0] && more == [ids[0]] + tail && ids == [ids[0]] + ids[1..];
      if ids[0] !in catalog || DeepestSeat(catalog, chain, catalog[ids[0]], |chain|).None? {
        var rest := Compose(catalog, chain, ids[1..], uids, used);
        RefusedFirst(catalog, chain, ids, uids, used);
        RefusedFirst(catalog, chain, more, uids, used);
        ComposeSnoc(catalog, chain, ids[1..], id, uids, used);
        SeatedAfter(catalog, rest, id, uids(used + |rest.added|), Compose(catalog, chain, tail, uids, used),
                    [], [ids[0]]);
      } else {
        var seat, node := SeatedFirst(catalog, chain, ids, uids, used);
        var rest := Compose(catalog, Insert(chain, seat, node), ids[1..], uids, used + 1);
        ComposeSnoc(catalog, Insert(chain, seat, node), ids[1..], id, uids, used + 1);
        SeatedAfter(catalog, rest, id, uids(used + 1 + |rest.added|),
                    Compose(catalog, Insert(chain, seat, node), tail, uids, used + 1), [node], []);
      }
    }
  }

  /** Composing never breaks a chain that compiles. */
  lemma {:induction false} ComposeFits(catalog: Catalog, chain: Chain, ids: seq<string>, uids: nat -> string, used: nat)
    requires WellTyped(catalog) && Fits(catalog, chain)
    ensures Fits(catalog, Compose(catalog, chain, ids, uids, used).chain)
    decreases |ids|
  {
    hide Fits, Insert, CanInsert, DeepestSeat;
    if ids != [] {
      if ids[0] !in catalog || DeepestSeat(catalog, chain, catalog[ids[0]], |chain|).None? {
        ComposeFits(catalog, chain, ids[1..], uids, used);
      } else {
        var seat := DeepestSeat(catalog, chain, catalog[ids[0]], |chain|).value;
        var node := MakeNode(catalog, ids[0], uids(used));
        InsertIsSound(catalog, chain, node, seat);
        ComposeFits(catalog, Insert(chain, seat, node), ids[1..], uids, used + 1);
      }
    }
  }

  /** `part` can be obtained from `whole` by deleting nodes. */
  ghost predicate Subsequence(part: Chain, whole: Chain) {
    part == [] ||
    (whole != [] && ((part[0] == whole[0] && Subsequence(part[1..], whole[1..])) || Subsequence(part, whole[1..])))
  }

  lemma {:induction false} SubsequenceInsert(part: Chain, whole: Chain, index: nat, node: ChainNode)
    requires index <= |whole| && Subsequence(part, whole)
    ensures Subsequence(part, Insert(whole, index, node))
    decreases |whole|
  {
    var w := Insert(whole, index, node);
    if index == 0 {
      assert w[1..] == whole;
    } else if part != [] {
      assert w[0] == whole[0] && w[1..] == Insert(whole[1..], index - 1, node);
      if part[0] == whole[0] && Subsequence(part[1..], whole[1..]) {
        SubsequenceInsert(part[1..], whole[1..], index - 1, node);
      } else {
        SubsequenceInsert(part, whole[1..], index - 1, node);
      }
    }
  }

  /** The composed chain is the original, in its order, plus exactly the added nodes. */
  lemma {:induction false} ComposeKeeps(catalog: Catalog, part: Chain, chain: Chain, ids: seq<string>,
                                        uids: nat -> string, used: nat)
    requires Subsequence(part, chain)
    ensures var c := Compose(catalog, chain, ids, uids, used);
            Subsequence(part, c.chain) && multiset(c.chain) == multiset(chain) + multiset(c.added)
    decreases |ids|
  {
    hide DeepestSeat, Subsequence;
    if ids != [] {
      if ids[0] !in catalog || DeepestSeat(catalog, chain, catalog[ids[0]], |chain|).None? {
        ComposeKeeps(catalog, part, chain, ids[1..], uids, used);
      } else {
        var seat := DeepestSeat(catalog, chain, catalog[ids[0]], |chain|).value;
        var node := MakeNode(catalog, ids[0], uids(used));
        SubsequenceInsert(part, chain, seat, node);
        ComposeKeeps(catalog, part, Insert(chain, seat, node), ids[1..], uids, used + 1);
        assert chain == chain[..seat] + chain[seat..];
      }
    }
  }

  /** The requested ids, in order, each going to exactly one of the two lists. */
  ghost predicate Splits(ids: seq<string>, added: Chain, rejected: seq<string>) {
    if ids == [] then added == [] && rejected == []
    else
      || (added != [] && added[0].blockId == ids[0] && Splits(ids[1..], added[1..], rejected))
      || (rejected != [] && rejected[0] == ids[0] && Splits(ids[1..], added, rejected[1..]))
  }

  lemma {:induction false} ComposeSplits(catalog: Catalog, chain: Chain, ids: seq<string>, uids: nat -> string,
                                         used: nat)
    ensures var c := Compose(catalog, chain, ids, uids, used);
            Splits(ids, c.added, c.rejected) && |ids| == |c.added| + |c.rejected|
    decreases |ids|
  {
    hide DeepestSeat, Insert;
    if ids != [] {
      if ids[0] !in catalog || DeepestSeat(catalog, chain, catalog[ids[0]], |chain|).None? {
        ComposeSplits(catalog, chain, ids[1..], uids, used);
        var c, rest := Compose(catalog, chain, ids, uids, used), Compose(catalog, chain, ids[1..], uids, used);
        assert c.rejected[1..] == rest.rejected;
      } else {
        var seat := DeepestSeat(catalog, chain, catalog[ids[0]], |chain|).value;
        var node := MakeNode(catalog, ids[0], uids(used));
        ComposeSplits(catalog, Insert(chain, seat, node), ids[1..], uids, used + 1);
        var c := Compose(catalog, chain, ids, uids, used);
        var rest := Compose(catalog, Insert(chain, seat, node), ids[1..], uids, used + 1);
        assert c.added[1..] == rest.added;
      }
    }
  }
}
