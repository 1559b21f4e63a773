/** Shared chains (`encodeChain`/`decodeChain` of `blocks.ts`): what a stranger's token may put on the
    canvas, and that an honest one brings the chain back. JSON with UTF-8 is a parameter pair. */
module ShareToken {
  import opened Prelude
  import opened Decimals
  import opened Blocks
  import opened Insertion
  import opened Base64Url

  const MAX_TOKEN_LENGTH := 8000
  const MAX_SHARED_NODES := 64
  const MAX_UID_LENGTH := 64
  const MAX_TEXT_LENGTH := 200

  /** A parsed JSON value; `JInfinite` is a literal too large for a double. */
  datatype Json =
    | JNull | JBool(flag: bool) | JNumber(number: real) | JInfinite | JString(text: string)
    | JArray(items: seq<Json>) | JObject(fields: map<string, Json>)

  // ---- parameter domains ---------------------------------------------------

  /** The pattern `^\d{0,30}(?:\.\d{0,18})?$`. */
  predicate IsAmountText(s: string) {
    && AllDigits(Whole(s)) && |Whole(s)| <= 30
    && AllDigits(Fraction(s)) && |Fraction(s)| <= 18
  }

  function ParamFor(params: seq<BlockParam>, key: string): (p: Option<BlockParam>)
    ensures p.Some? ==> p.value in params && p.value.key == key
    ensures p.None? <==> forall q :: q in params ==> q.key != key
  {
    if params == [] then None
    else if params[0].key == key then Some(params[0])
    else ParamFor(params[1..], key)
  }

  predicate InDomain(param: BlockParam, value: ParamValue) {
    match param
    case NumberParam(_, _, min, max) => value.Number? && min <= value.number <= max
    case SelectParam(_, _, options) => value.Text? && value.text in options
    case AmountParam(_, _) => value.Text? && IsAmountText(value.text)
    case TextParam(_, _) => value.Text? && |value.text| <= MAX_TEXT_LENGTH
  }

  /** How one untrusted value is taken over: clamped, checked, or dropped. */
  function Accept(param: BlockParam, raw: Json): (v: Option<ParamValue>)
    ensures v.Some? && (param.NumberParam? ==> param.min <= param.max) ==> InDomain(param, v.value)
  {
    match param
    case NumberParam(_, _, min, max) =>
      if !raw.JNumber? then None
      else
        var raised := if raw.number < min then min else raw.number;
        Some(Number(if raised > max then max else raised))
    case SelectParam(_, _, options) => if raw.JString? && raw.text in options then Some(Text(raw.text)) else None
    case AmountParam(_, _) => if raw.JString? && IsAmountText(raw.text) then Some(Text(raw.text)) else None
    case TextParam(_, _) => if raw.JString? && |raw.text| <= MAX_TEXT_LENGTH then Some(Text(raw.text)) else None
  }

  function AcceptKey(params: seq<BlockParam>, key: string, raw: Json): Option<ParamValue> {
    var param := ParamFor(params, key);
    if param.None? then None else Accept(param.value, raw)
  }

  /** `sharedParams`. */
  function SharedParams(params: seq<BlockParam>, raw: Option<Json>): map<string, ParamValue> {
    if raw.None? || !raw.value.JObject? then map[]
    else
      var fields := raw.value.fields;
      map key | key in fields && AcceptKey(params, key, fields[key]).Some? :: AcceptKey(params, key, fields[key]).value
  }

  /** The shipped catalog's own discipline: distinct keys, and every default inside its domain. */
  ghost predicate WellDefaulted(params: seq<BlockParam>) {
    && (forall i, j :: 0 <= i < j < |params| ==> params[i].key != params[j].key)
    && (forall i :: 0 <= i < |params| ==> InDomain(params[i], DefaultOf(params[i])))
  }

  ghost predicate WellDefaultedCatalog(catalog: Catalog) {
    forall id :: id in catalog ==> WellDefaulted(catalog[id].params)
  }

  /** Exactly the block's keys, each with a value of that key's domain. */
  ghost predicate FullParams(params: seq<BlockParam>, values: map<string, ParamValue>) {
    && (forall key :: key in values <==> ParamFor(params, key).Some?)
    && (forall key :: key in values ==> InDomain(ParamFor(params, key).value, values[key]))
  }

  lemma {:induction false} DefaultsAreFull(params: seq<BlockParam>)
    requires WellDefaulted(params)
    ensures FullParams(params, DefaultParams(params))
  {
    hide InDomain, FullParams, ParamFor;
    if params == [] {
      NothingIsFull();
    } else {
      var front, last := params[..|params| - 1], params[|params| - 1];
      DefaultsAreFull(front);
      assert params == front + [last];
      FullSnoc(front, last, DefaultParams(front), DefaultOf(last));
    }
  }

  lemma NothingIsFull()
    ensures FullParams([], map[])
  {
  }

  lemma FullSnoc(front: seq<BlockParam>, last: BlockParam, values: map<string, ParamValue>, value: ParamValue)
    requires FullParams(front, values) && InDomain(last, value) && forall p :: p in front ==> p.key != last.key
    ensures FullParams(front + [last], values[last.key := value])
  {
    hide InDomain, ParamFor;
    forall key ensures ParamFor(front + [last], key) == (if key == last.key then Some(last) else ParamFor(front, key)) {
      ParamForAppend(front, last, key);
    }
  }

  lemma ParamForAppend(front: seq<BlockParam>, last: BlockParam, key: string)
    requires forall p :: p in front ==> p.key != last.key
    ensures ParamFor(front + [last], key) == if key == last.key then Some(last) else ParamFor(front, key)
  {
    var params := front + [last];
    if front != [] {
      assert params[1..] == front[1..] + [last];
      ParamForAppend(front[1..], last, key);
    } else {
      assert params[1..] == [];
    }
  }

  /** Whatever the untrusted fields are, defaults overridden by them are full and in domain. */
  lemma OverriddenAreFull(params: seq<BlockParam>, raw: Option<Json>)
    requires WellDefaulted(params)
    ensures FullParams(params, DefaultParams(params) + SharedParams(params, raw))
  {
    DefaultsAreFull(params);
    forall i | 0 <= i < |params| && params[i].NumberParam? ensures params[i].min <= params[i].max {
      assert InDomain(params[i], DefaultOf(params[i]));
    }
  }

  // ---- names ---------------------------------------------------------------

  /** The already-taken names that are at least as long: each renaming step leaves one behind. */
  function Longer(taken: set<string>, uid: string): set<string> {
    set s | s in taken && |s| >= |uid|
  }

  /** A hyphen and the number of nodes read so far are appended until the name is free. */
  function FreshName(uid: string, n: nat, taken: set<string>): (name: string)
    ensures name !in taken && (uid !in taken ==> name == uid)
    decreases Longer(taken, uid)
  {
    if uid !in taken then uid
    else
      assert uid in Longer(taken, uid);
      FreshName(uid + "-" + Show(n), n, taken)
  }

  method Rename(uid: string, n: nat, taken: set<string>) returns (name: string)
    ensures name == FreshName(uid, n, taken)
  {
    name := uid;
    while name in taken
      invariant FreshName(uid, n, taken) == FreshName(name, n, taken)
      decreases Longer(taken, name)
    {
      assert name in Longer(taken, name);
      name := name + "-" + Show(n);
    }
  }

  // ---- decoding ------------------------------------------------------------

  function At(items: seq<Json>, i: nat): Option<Json> {
    if i < |items| then Some(items[i]) else None
  }

  function OfferedName(raw: Option<Json>, n: nat): string {
    if raw.Some? && raw.value.JString? && 0 < |raw.value.text| <= MAX_UID_LENGTH then raw.value.text
    else "s" + Show(n)
  }

  function Names(nodes: Chain): set<string> {
    set i | 0 <= i < |nodes| :: nodes[i].uid
  }

  /** One `[blockId, params, uid]` entry after `nodes` have been read. */
  function ReadEntry(catalog: Catalog, entry: Json, nodes: Chain): Option<ChainNode> {
    if !entry.JArray? then None
    else
      var blockId := At(entry.items, 0);
      if blockId.None? || !blockId.value.JString? || blockId.value.text !in catalog then None
      else
        var params := catalog[blockId.value.text].params;
        Some(ChainNode(FreshName(OfferedName(At(entry.items, 2), |nodes|), |nodes|, Names(nodes)),
                       blockId.value.text, DefaultParams(params) + SharedParams(params, At(entry.items, 1))))
  }

  function ReadEntries(catalog: Catalog, entries: seq<Json>): Chain {
    if entries == [] then []
    else
      var nodes := ReadEntries(catalog, entries[..|entries| - 1]);
      var node := ReadEntry(catalog, entries[|entries| - 1], nodes);
      if node.None? then nodes else nodes + [node.value]
  }

  function FirstEntries(entries: seq<Json>): seq<Json> {
    if |entries| > MAX_SHARED_NODES then entries[..MAX_SHARED_NODES] else entries
  }

  function ParsedToken(token: string, parse: seq<Byte> -> Option<Json>): Option<seq<Json>> {
    if token == "" || |token| > MAX_TOKEN_LENGTH || (exists i :: 0 <= i < |token| && !IsUrlChar(token[i])) then None
    else
      var bytes := Base64Url.Decode(token);
      if bytes.None? then None
      else
        var json := parse(bytes.value);
        if json.None? || !json.value.JArray? then None else Some(json.value.items)
  }

  /** What `decodeChain` answers. */
  function DecodedChain(catalog: Catalog, token: string, parse: seq<Byte> -> Option<Json>): Option<Chain> {
    var entries := ParsedToken(token, parse);
    if entries.None? then None else Some(ReadEntries(catalog, FirstEntries(entries.value)))
  }

  /** `decodeChain`: a loop over the entries with the set of names already seen. */
  method DecodeChain(catalog: Catalog, token: string, parse: seq<Byte> -> Option<Json>) returns (r: Option<Chain>)
    ensures r == DecodedChain(catalog, token, parse)
  {
    hide Show, DefaultParams, SharedParams, ParsedToken, FirstEntries, FreshName, OfferedName, Names, ReadEntries;
    var parsed := ParsedToken(token, parse);
    if parsed.None? { return None; }
    var entries := FirstEntries(parsed.value);
    var nodes: Chain := [];
    var seen: set<string> := {};
    NothingRead(catalog, entries);
    for i := 0 to |entries|
      invariant nodes == ReadEntries(catalog, entries[..i])
      invariant seen == Names(nodes)
    {
      var entry := entries[i];
      ReadSnoc(catalog, entries, i);
      if !entry.JArray? { continue; }
      var blockId := At(entry.items, 0);
      if blockId.None? || !blockId.value.JString? || blockId.value.text !in catalog { continue; }
      var params := catalog[blockId.value.text].params;
      var uid := Rename(OfferedName(At(entry.items, 2), |nodes|), |nodes|, seen);
      var node := ChainNode(uid, blockId.value.text, DefaultParams(params) + SharedParams(params, At(entry.items, 1)));
      NamesAppend(nodes, node);
      seen := seen + {uid};
      nodes := nodes + [node];
    }
    assert entries[..|entries|] == entries;
    r := Some(nodes);
  }

  lemma NothingRead(catalog: Catalog, entries: seq<Json>)
    ensures ReadEntries(catalog, entries[..0]) == [] && Names([]) == {}
  {
  }

  lemma ReadSnoc(catalog: Catalog, entries: seq<Json>, i: nat)
    requires i < |entries|
    ensures var nodes := ReadEntries(catalog, entries[..i]);
            var node := ReadEntry(catalog, entries[i], nodes);
            ReadEntries(catalog, entries[..i + 1]) == if node.None? then nodes else nodes + [node.value]
  {
    hide ReadEntry;
    assert entries[..i + 1][..i] == entries[..i];
  }

  lemma NamesAppend(nodes: Chain, node: ChainNode)
    ensures Names(nodes + [node]) == Names(nodes) + {node.uid}
  {
    var all := nodes + [node];
    assert forall i :: 0 <= i < |nodes| ==> all[i] == nodes[i];
    forall s | s in Names(nodes) + {node.uid} ensures s in Names(all) {
      if s == node.uid {
        assert all[|nodes|].uid == s;
      } else {
        var i :| 0 <= i < |nodes| && nodes[i].uid == s;
        assert all[i].uid == s;
      }
    }
  }

  // ---- what any accepted token can contain ---------------------------------

  ghost predicate DistinctNames(nodes: Chain) {
    forall i, j :: 0 <= i < j < |nodes| ==> nodes[i].uid != nodes[j].uid
  }

  /** Known blocks, exactly their parameters, all in domain. */
  ghost predicate Legal(catalog: Catalog, node: ChainNode) {
    node.blockId in catalog && FullParams(catalog[node.blockId].params, node.params)
  }

  lemma {:induction false} ReadEntriesAreLegal(catalog: Catalog, entries: seq<Json>)
    requires WellDefaultedCatalog(catalog)
    ensures var nodes := ReadEntries(catalog, entries);
            |nodes| <= |entries| && DistinctNames(nodes) && forall i :: 0 <= i < |nodes| ==> Legal(catalog, nodes[i])
  {
    hide FullParams, SharedParams, DefaultParams, WellDefaulted;
    if entries != [] {
      var front, entry := entries[..|entries| - 1], entries[|entries| - 1];
      ReadEntriesAreLegal(catalog, front);
      var nodes := ReadEntries(catalog, front);
      if ReadEntry(catalog, entry, nodes).Some? {
        var node := ReadEntry(catalog, entry, nodes).value;
        OverriddenAreFull(catalog[node.blockId].params, At(entry.items, 1));
        assert forall i :: 0 <= i < |nodes| ==> nodes[i].uid in Names(nodes);
      }
    }
  }

  /** Whatever the token, an accepted one yields at most 64 nodes, all of known blocks, with full
      in-domain parameters and pairwise distinct names. */
  lemma AcceptedTokensAreLegal(catalog: Catalog, token: string, parse: seq<Byte> -> Option<Json>)
    requires WellDefaultedCatalog(catalog) && DecodedChain(catalog, token, parse).Some?
    ensures var nodes := DecodedChain(catalog, token, parse).value;
            |nodes| <= MAX_SHARED_NODES && DistinctNames(nodes) && forall i :: 0 <= i < |nodes| ==>
              Legal(catalog, nodes[i])
  {
    hide ParsedToken, ReadEntries, Legal;
    ReadEntriesAreLegal(catalog, FirstEntries(ParsedToken(token, parse).value));
  }

  // ---- the round trip ------------------------------------------------------

  function ValueJson(value: ParamValue): Json {
    match value
    case Text(text) => JString(text)
    case Number(number) => JNumber(number)
  }

  function NodeJson(node: ChainNode): Json {
    JArray([JString(node.blockId), JObject(map key | key in node.params :: ValueJson(node.params[key])),
            JString(node.uid)])
  }

  function ChainJson(chain: Chain): (items: seq<Json>)
    ensures |items| == |chain| && forall i :: 0 <= i < |chain| ==> items[i] == NodeJson(chain[i])
  {
    seq(|chain|, i requires 0 <= i < |chain| => NodeJson(chain[i]))
  }

  /** `encodeChain`. */
  function EncodeChain(chain: Chain, stringify: Json -> seq<Byte>): string {
    Base64Url.Encode(stringify(JArray(ChainJson(chain))))
  }

  ghost predicate Shareable(catalog: Catalog, chain: Chain) {
    && |chain| <= MAX_SHARED_NODES && DistinctNames(chain)
    && forall i :: 0 <= i < |chain| ==> Legal(catalog, chain[i]) && 0 < |chain[i].uid| <= MAX_UID_LENGTH
  }

  lemma AcceptOwnValue(param: BlockParam, value: ParamValue)
    requires InDomain(param, value)
    ensures Accept(param, ValueJson(value)) == Some(value)
  {
  }

  /** Full in-domain parameters come back unchanged. */
  lemma ParamsReturn(params: seq<BlockParam>, values: map<string, ParamValue>)
    requires FullParams(params, values) && WellDefaulted(params)
    ensures DefaultParams(params)
            + SharedParams(params, Some(JObject(map key | key in values :: ValueJson(values[key])))) == values
  {
    hide Accept, InDomain, WellDefaulted, DefaultParams, ValueJson, ParamFor;
    var raw := Some(JObject(map key | key in values :: ValueJson(values[key])));
    DefaultsAreFull(params);
    forall key | key in values ensures AcceptKey(params, key, raw.value.fields[key]) == Some(values[key]) {
      AcceptOwnValue(ParamFor(params, key).value, values[key]);
    }
    var shared := SharedParams(params, raw);
    assert shared == values;
    assert forall key :: key in DefaultParams(params) ==> key in values;
  }

  lemma {:induction false} EntriesReturn(catalog: Catalog, chain: Chain, k: nat)
    requires WellDefaultedCatalog(catalog) && Shareable(catalog, chain) && k <= |chain|
    ensures ReadEntries(catalog, ChainJson(chain)[..k]) == chain[..k]
  {
    hide FullParams, SharedParams, DefaultParams, WellDefaulted, FreshName, OfferedName, ValueJson, Legal, ReadEntries,
         ReadEntry, NodeJson, Names;
    if k == 0 {
      NothingRead(catalog, ChainJson(chain));
    } else {
      var node, items := chain[k - 1], ChainJson(chain);
      EntriesReturn(catalog, chain, k - 1);
      ReadSnoc(catalog, items, k - 1);
      NotNamedBefore(chain, k - 1);
      EntryReturns(catalog, node, chain[..k - 1]);
      assert chain[..k] == chain[..k - 1] + [node];
    }
  }

  lemma NotNamedBefore(chain: Chain, k: nat)
    requires DistinctNames(chain) && k < |chain|
    ensures chain[k].uid !in Names(chain[..k])
  {
  }

  lemma EntryReturns(catalog: Catalog, node: ChainNode, nodes: Chain)
    requires WellDefaultedCatalog(catalog) && Legal(catalog, node)
    requires 0 < |node.uid| <= MAX_UID_LENGTH && node.uid !in Names(nodes)
    ensures ReadEntry(catalog, NodeJson(node), nodes) == Some(node)
  {
    hide FullParams, SharedParams, DefaultParams, WellDefaulted, FreshName, OfferedName, ValueJson, Names;
    ParamsReturn(catalog[node.blockId].params, node.params);
    NameKept(node.uid, |nodes|, Names(nodes));
  }

  lemma NameKept(uid: string, n: nat, taken: set<string>)
    requires uid !in taken && 0 < |uid| <= MAX_UID_LENGTH
    ensures FreshName(OfferedName(Some(JString(uid)), n), n, taken) == uid
  {
  }

  /** A shareable chain whose token respects the length cap decodes to itself, through every
      validation step, wherever printing and parsing JSON are inverse. */
  lemma SharedChainReturns(catalog: Catalog, chain: Chain, stringify: Json -> seq<Byte>,
                           parse: seq<Byte> -> Option<Json>)
    requires WellDefaultedCatalog(catalog) && Shareable(catalog, chain)
    requires parse(stringify(JArray(ChainJson(chain)))) == Some(JArray(ChainJson(chain))) && parse([]) == None
    requires |EncodeChain(chain, stringify)| <= MAX_TOKEN_LENGTH
    ensures DecodedChain(catalog, EncodeChain(chain, stringify), parse) == Some(chain)
  {
    hide Base64Url.Encode, Base64Url.Decode, ReadEntries, NodeJson, Legal;
    var items := ChainJson(chain);
    Base64Url.DecodeOfEncode(stringify(JArray(items)));
    EntriesReturn(catalog, chain, |chain|);
    assert items[..|chain|] == items && chain[..|chain|] == chain;
  }
}
