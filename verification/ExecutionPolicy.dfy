/** Gas, fee and submitter guards resolved into the one value an intent can carry
    (`execution-policy.ts`), and the governing slippage cap (`blocks.ts`). */
module ExecutionPolicy {
  import opened Prelude
  import opened Decimals
  import opened Blocks

  /** JavaScript's `Number(text)` and `String(number)`; `None` is NaN or an infinity. */
  datatype Runtime = Runtime(number: string -> Option<real>, show: real -> string)

  function ToNumber(rt: Runtime, params: map<string, ParamValue>, key: string): Option<real> {
    if key !in params then None
    else match params[key]
      case Number(number) => Some(number)
      case Text(text) => rt.number(text)
  }

  /** A parameter as text, a missing one as the empty text. */
  function ToText(rt: Runtime, params: map<string, ParamValue>, key: string): string {
    if key !in params then ""
    else match params[key]
      case Number(number) => rt.show(number)
      case Text(text) => text
  }

  const MIN_GAS := 100000.0
  const MAX_GAS := 3000000.0
  const MIN_FEE_GWEI := 1.0
  const MAX_FEE_GWEI := 10.0

  datatype Access = Anyone | OwnerOnly

  datatype Policy = Policy(maxGas: int, maxFeePerGasGwei: int, access: Access)

  predicate WholeWithin(v: Option<real>, lo: real, hi: real) {
    v.Some? && v.value == v.value.Floor as real && lo <= v.value <= hi
  }

  // ---- caps ----------------------------------------------------------------

  datatype CapKind = GasCap | FeeCap | SlippageCap

  /** The cap a node contributes, if it is of this kind and states a legal one. */
  function CapOf(rt: Runtime, kind: CapKind, node: ChainNode): Option<real> {
    match kind
    case GasCap =>
      var v := ToNumber(rt, node.params, "maxGas");
      if node.blockId == "guard-gas-limit" && WholeWithin(v, MIN_GAS, MAX_GAS) then v else None
    case FeeCap =>
      var v := ToNumber(rt, node.params, "maxFeeGwei");
      if node.blockId == "guard-gas-price" && WholeWithin(v, MIN_FEE_GWEI, MAX_FEE_GWEI) then v else None
    case SlippageCap => if node.blockId == "guard-slippage" then ToNumber(rt, node.params, "bps") else None
  }

  function Caps(rt: Runtime, kind: CapKind, chain: Chain): seq<real> {
    if chain == [] then []
    else
      var front, cap := Caps(rt, kind, chain[..|chain| - 1]), CapOf(rt, kind, chain[|chain| - 1]);
      if cap.Some? then front + [cap.value] else front
  }

  /** The least cap, or the default when there is none. */
  function Tightest(caps: seq<real>, default: real): (t: real)
    ensures caps == [] ==> t == default
    ensures caps != [] ==> t in caps && forall c :: c in caps ==> t <= c
  {
    if caps == [] then default
    else if |caps| == 1 then caps[0]
    else
      var rest := Tightest(caps[1..], default);
      assert forall c :: c in caps ==> c == caps[0] || c in caps[1..];
      if caps[0] < rest then caps[0] else rest
  }

  /** A placed policy block whose value cannot be signed. */
  predicate Objects(rt: Runtime, node: ChainNode) {
    || (node.blockId == "guard-gas-limit" && CapOf(rt, GasCap, node).None?)
    || (node.blockId == "guard-gas-price" && CapOf(rt, FeeCap, node).None?)
    || (node.blockId == "guard-executor" && ToText(rt, node.params, "access") != "Anyone"
        && ToText(rt, node.params, "access") != "Owner only")
  }

  predicate Restricts(rt: Runtime, node: ChainNode) {
    node.blockId == "guard-executor" && ToText(rt, node.params, "access") == "Owner only"
  }

  /** What `resolveExecutionPolicy` decides; `None` is a list of reasons. */
  function ResolvePolicy(rt: Runtime, chain: Chain): Option<Policy> {
    if exists i :: 0 <= i < |chain| && Objects(rt, chain[i]) then None
    else Some(Policy(Tightest(Caps(rt, GasCap, chain), MAX_GAS).Floor,
                     Tightest(Caps(rt, FeeCap, chain), MAX_FEE_GWEI).Floor,
                     if exists i :: 0 <= i < |chain| && Restricts(rt, chain[i]) then OwnerOnly else Anyone))
  }

  /** `resolveExecutionPolicy`: pushes caps and reasons, and lets owner-only overwrite the access. */
  method ResolveExecutionPolicy(rt: Runtime, chain: Chain) returns (r: Option<Policy>)
    ensures r == ResolvePolicy(rt, chain)
  {
    hide Objects, Restricts, CapOf;
    var gasLimits: seq<real>, feeLimits: seq<real> := [], [];
    var access, reasons := Anyone, 0;
    for i := 0 to |chain|
      invariant gasLimits == Caps(rt, GasCap, chain[..i]) && feeLimits == Caps(rt, FeeCap, chain[..i])
      invariant reasons > 0 <==> exists j :: 0 <= j < i && Objects(rt, chain[j])
      invariant access == if exists j :: 0 <= j < i && Restricts(rt, chain[j]) then OwnerOnly else Anyone
    {
      assert chain[..i + 1][..i] == chain[..i];
      var gas, fee := CapOf(rt, GasCap, chain[i]), CapOf(rt, FeeCap, chain[i]);
      if gas.Some? { gasLimits := gasLimits + [gas.value]; }
      if fee.Some? { feeLimits := feeLimits + [fee.value]; }
      var objects, restricts := Objects(rt, chain[i]), Restricts(rt, chain[i]);
      if objects { reasons := reasons + 1; }
      if restricts { access := OwnerOnly; }
    }
    assert chain[..|chain|] == chain;
    if reasons > 0 { return None; }
    r := Some(Policy(Tightest(gasLimits, MAX_GAS).Floor, Tightest(feeLimits, MAX_FEE_GWEI).Floor, access));
  }

  lemma CapsSnoc(rt: Runtime, kind: CapKind, front: Chain, last: ChainNode)
    ensures Caps(rt, kind, front + [last])
            == Caps(rt, kind, front) + if CapOf(rt, kind, last).Some? then [CapOf(rt, kind, last).value] else []
  {
    hide CapOf;
    assert (front + [last])[..|front|] == front;
  }

  lemma {:induction false} CapsMember(rt: Runtime, kind: CapKind, chain: Chain, cap: real)
    ensures cap in Caps(rt, kind, chain) <==> exists node :: node in chain && CapOf(rt, kind, node) == Some(cap)
  {
    hide CapOf;
    if chain != [] {
      var front, last := chain[..|chain| - 1], chain[|chain| - 1];
      CapsMember(rt, kind, front, cap);
      assert chain == front + [last];
    }
  }

  /** Caps depend only on which nodes are present, never on their order or repetition. */
  lemma CapsBySet(rt: Runtime, kind: CapKind, a: Chain, b: Chain, default: real)
    requires forall node :: node in a && CapOf(rt, kind, node).Some? ==> node in b
    requires forall node :: node in b && CapOf(rt, kind, node).Some? ==> node in a
    ensures Tightest(Caps(rt, kind, a), default) == Tightest(Caps(rt, kind, b), default)
    ensures Caps(rt, kind, a) == [] <==> Caps(rt, kind, b) == []
  {
    hide CapOf;
    var p, q := Caps(rt, kind, a), Caps(rt, kind, b);
    forall cap ensures cap in p <==> cap in q {
      CapsMember(rt, kind, a, cap);
      CapsMember(rt, kind, b, cap);
    }
    assert p != [] ==> p[0] in q;
    assert q != [] ==> q[0] in p;
  }

  /** More nodes can only tighten. */
  lemma CapsTighten(rt: Runtime, kind: CapKind, a: Chain, b: Chain, default: real)
    requires forall node :: node in a ==> node in b
    requires Caps(rt, kind, a) != [] || forall cap :: cap in Caps(rt, kind, b) ==> cap <= default
    ensures Tightest(Caps(rt, kind, b), default) <= Tightest(Caps(rt, kind, a), default)
  {
    var p, q := Caps(rt, kind, a), Caps(rt, kind, b);
    forall cap | cap in p ensures cap in q {
      CapsMember(rt, kind, a, cap);
      CapsMember(rt, kind, b, cap);
    }
  }

  lemma CapRange(rt: Runtime, chain: Chain, cap: real)
    ensures cap in Caps(rt, GasCap, chain) ==> MIN_GAS <= cap <= MAX_GAS
    ensures cap in Caps(rt, FeeCap, chain) ==> MIN_FEE_GWEI <= cap <= MAX_FEE_GWEI
  {
    CapsMember(rt, GasCap, chain, cap);
    CapsMember(rt, FeeCap, chain, cap);
  }

  /** A node that takes part in the execution policy or the slippage resolution. */
  predicate Relevant(rt: Runtime, node: ChainNode) {
    Objects(rt, node) || Restricts(rt, node) || CapOf(rt, GasCap, node).Some?
    || CapOf(rt, FeeCap, node).Some? || node.blockId == "guard-slippage"
  }

  /** Order and repetition of guards never matter to the resolved policy. */
  lemma PolicyBySet(rt: Runtime, a: Chain, b: Chain)
    requires forall node :: node in a && Relevant(rt, node) ==> node in b
    requires forall node :: node in b && Relevant(rt, node) ==> node in a
    ensures ResolvePolicy(rt, a) == ResolvePolicy(rt, b)
  {
    hide CapOf, Objects, Restricts;
    forall i | 0 <= i < |a| && (Objects(rt, a[i]) || Restricts(rt, a[i])) ensures a[i] in b { assert a[i] in a; }
    forall i | 0 <= i < |b| && (Objects(rt, b[i]) || Restricts(rt, b[i])) ensures b[i] in a { assert b[i] in b; }
    CapsBySet(rt, GasCap, a, b, MAX_GAS);
    CapsBySet(rt, FeeCap, a, b, MAX_FEE_GWEI);
  }

  /** The later policy is at most as permissive. */
  predicate Tighter(later: Policy, earlier: Policy) {
    && later.maxGas <= earlier.maxGas && later.maxFeePerGasGwei <= earlier.maxFeePerGasGwei
    && (earlier.access == OwnerOnly ==> later.access == OwnerOnly)
  }

  /** Adding nodes to a chain can only refuse it or tighten its policy. */
  lemma PolicyTightens(rt: Runtime, a: Chain, b: Chain)
    requires forall node :: node in a ==> node in b
    requires ResolvePolicy(rt, b).Some?
    ensures ResolvePolicy(rt, a).Some? && Tighter(ResolvePolicy(rt, b).value, ResolvePolicy(rt, a).value)
  {
    hide CapOf, Objects, Restricts;
    forall i | 0 <= i < |a| ensures exists j :: 0 <= j < |b| && b[j] == a[i] { assert a[i] in b; }
    forall cap
      ensures (cap in Caps(rt, GasCap, b) ==> cap <= MAX_GAS) && (cap in Caps(rt, FeeCap, b) ==> cap <= MAX_FEE_GWEI)
    {
      CapRange(rt, b, cap);
    }
    CapsTighten(rt, GasCap, a, b, MAX_GAS);
    CapsTighten(rt, FeeCap, a, b, MAX_FEE_GWEI);
  }

  /** Every resolved policy is inside the ranges the intents and the reader accept. */
  lemma PolicyInRange(rt: Runtime, chain: Chain)
    requires ResolvePolicy(rt, chain).Some?
    ensures var p := ResolvePolicy(rt, chain).value;
            100000 <= p.maxGas <= 3000000 && 1 <= p.maxFeePerGasGwei <= 10
  {
    CapRange(rt, chain, Tightest(Caps(rt, GasCap, chain), MAX_GAS));
    CapRange(rt, chain, Tightest(Caps(rt, FeeCap, chain), MAX_FEE_GWEI));
  }

  /** A number among the stated ones that none undercuts, or the default when none is stated. */
  ghost predicate Least(value: int, default: int, stated: iset<real>) {
    if stated == iset{} then value == default
    else value as real in stated && forall v :: v in stated ==> value as real <= v
  }

  /** The numbers that guards of a block state under a parameter. */
  ghost function StatedBy(rt: Runtime, chain: Chain, id: string, key: string): iset<real> {
    iset node | node in chain && node.blockId == id && ToNumber(rt, node.params, key).Some? ::
      ToNumber(rt, node.params, key).value
  }

  /** Every number that guards of a block state is whole and in range, and each of them states one. */
  ghost predicate StateWhole(rt: Runtime, chain: Chain, id: string, key: string, lo: real, hi: real) {
    forall node :: node in chain && node.blockId == id ==>
      var v := ToNumber(rt, node.params, key);
      v.Some? && lo <= v.value <= hi && v.value == v.value.Floor as real
  }

  /** A policy is resolved exactly when every gas limit, fee cap and executor guard is legal; and then the
      bounds are the least stated ones, or the defaults, and access is the owner's alone exactly when some
      executor guard says so. */
  lemma PolicyExactly(rt: Runtime, chain: Chain)
    ensures ResolvePolicy(rt, chain).Some? <==>
            && StateWhole(rt, chain, "guard-gas-limit", "maxGas", 100000.0, 3000000.0)
            && StateWhole(rt, chain, "guard-gas-price", "maxFeeGwei", 1.0, 10.0)
            && forall node :: node in chain && node.blockId == "guard-executor" ==>
                 ToText(rt, node.params, "access") == "Anyone" || ToText(rt, node.params, "access") == "Owner only"
    ensures ResolvePolicy(rt, chain).Some? ==>
              var p := ResolvePolicy(rt, chain).value;
              && Least(p.maxGas, 3000000, StatedBy(rt, chain, "guard-gas-limit", "maxGas"))
              && Least(p.maxFeePerGasGwei, 10, StatedBy(rt, chain, "guard-gas-price", "maxFeeGwei"))
              && (p.access == OwnerOnly <==>
                  exists node :: node in chain && node.blockId == "guard-executor"
                                 && ToText(rt, node.params, "access") == "Owner only")
  {
    hide Caps, Tightest, ToNumber, ToText;
    forall node ensures node in chain <==> exists i :: 0 <= i < |chain| && chain[i] == node {}
    if ResolvePolicy(rt, chain).Some? {
      LeastCap(rt, GasCap, chain, "guard-gas-limit", "maxGas", 100000.0, 3000000.0, 3000000);
      LeastCap(rt, FeeCap, chain, "guard-gas-price", "maxFeeGwei", 1.0, 10.0, 10);
    }
  }

  lemma LeastCap(rt: Runtime, kind: CapKind, chain: Chain, id: string, key: string, lo: real, hi: real, default: int)
    requires StateWhole(rt, chain, id, key, lo, hi)
    requires forall node :: node in chain ==>
               CapOf(rt, kind, node) == if node.blockId == id then ToNumber(rt, node.params, key) else None
    ensures Least(Tightest(Caps(rt, kind, chain), default as real).Floor, default, StatedBy(rt, chain, id, key))
  {
    hide CapOf, ToNumber;
    var caps, stated := Caps(rt, kind, chain), StatedBy(rt, chain, id, key);
    forall v ensures v in caps <==> v in stated { CapsMember(rt, kind, chain, v); }
    if caps != [] { assert caps[0] in stated; }
    var t := Tightest(caps, default as real);
    if t in stated { assert t == t.Floor as real; }
  }

  // ---- the query-string handoff --------------------------------------------

  /** `URLSearchParams` as an updatable table; percent-encoding is its own inverse pair. */
  class QueryParams {
    var entries: map<string, string>

    constructor ()
      ensures entries == map[]
    {
      entries := map[];
    }

    method Set(key: string, value: string)
      modifies this
      ensures entries == old(entries)[key := value]
    {
      entries := entries[key := value];
    }
  }

  function Written(entries: map<string, string>, p: Policy): map<string, string>
    requires p.maxGas >= 0 && p.maxFeePerGasGwei >= 0
  {
    entries["maxGas" := Show(p.maxGas)]["maxFeeGwei" := Show(p.maxFeePerGasGwei)]
           ["executor" := if p.access == OwnerOnly then "owner" else "anyone"]
  }

  /** `writeExecutionPolicyParams`. */
  method WriteExecutionPolicyParams(params: QueryParams, p: Policy)
    requires p.maxGas >= 0 && p.maxFeePerGasGwei >= 0
    modifies params
    ensures params.entries == Written(old(params.entries), p)
  {
    params.Set("maxGas", Show(p.maxGas));
    params.Set("maxFeeGwei", Show(p.maxFeePerGasGwei));
    params.Set("executor", if p.access == OwnerOnly then "owner" else "anyone");
  }

  /** `readExecutionPolicyParams`. */
  function ReadPolicyParams(rt: Runtime, entries: map<string, string>): Option<Policy> {
    var maxGas := if "maxGas" in entries then rt.number(entries["maxGas"]) else Some(MAX_GAS);
    var maxFee := if "maxFeeGwei" in entries then rt.number(entries["maxFeeGwei"]) else Some(MAX_FEE_GWEI);
    var executor := if "executor" in entries then entries["executor"] else "anyone";
    if !WholeWithin(maxGas, MIN_GAS, MAX_GAS) || !WholeWithin(maxFee, MIN_FEE_GWEI, MAX_FEE_GWEI) then None
    else if executor != "anyone" && executor != "owner" then None
    else Some(Policy(maxGas.value.Floor, maxFee.value.Floor, if executor == "owner" then OwnerOnly else Anyone))
  }

  /** `Number(n.toString())` is `n`. */
  ghost predicate ReadsIntegers(rt: Runtime) {
    forall n: nat :: rt.number(Show(n)) == Some(n as real)
  }

  /** The three fields, under their own names. */
  lemma WrittenSays(entries: map<string, string>, p: Policy)
    requires p.maxGas >= 0 && p.maxFeePerGasGwei >= 0
    ensures var e := Written(entries, p);
            && "maxGas" in e && e["maxGas"] == Show(p.maxGas)
            && "maxFeeGwei" in e && e["maxFeeGwei"] == Show(p.maxFeePerGasGwei)
            && "executor" in e && e["executor"] == (if p.access == OwnerOnly then "owner" else "anyone")
            && forall key :: key !in {"maxGas", "maxFeeGwei", "executor"} ==>
                 (key in e <==> key in entries) && (key in e ==> e[key] == entries[key])
  {
    hide Show;
  }

  /** What was written is what is read, whatever else the query carries. */
  lemma WrittenPolicyReads(rt: Runtime, entries: map<string, string>, p: Policy)
    requires ReadsIntegers(rt) && 100000 <= p.maxGas <= 3000000 && 1 <= p.maxFeePerGasGwei <= 10
    ensures ReadPolicyParams(rt, Written(entries, p)) == Some(p)
  {
  }
}
