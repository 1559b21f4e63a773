/** What a shared token puts on the canvas, entry by entry, written on the parsed JSON itself. */
module SharedAsRead {
  import opened Prelude
  import opened Decimals
  import opened Blocks
  import opened Insertion
  import opened Base64Url
  import opened ShareToken

  // ---- one value -----------------------------------------------------------

  /** The value a parameter takes from a shared one: the nearest number of its range, a listed option, a legal
      amount, or a short text. Everything else is passed over. */
  ghost predicate Takes(param: BlockParam, raw: Json, value: ParamValue) {
    match param
    case NumberParam(_, _, min, max) =>
      && raw.JNumber? && value.Number? && min <= value.number <= max
      && (forall x: real :: min <= x <= max ==> Apart(value.number, raw.number) <= Apart(x, raw.number))
    case SelectParam(_, _, options) => value.Text? && raw == JString(value.text) && value.text in options
    case AmountParam(_, _) =>
      && value.Text? && raw == JString(value.text)
      && AllDigits(Whole(value.text)) && |Whole(value.text)| <= 30
      && AllDigits(Fraction(value.text)) && |Fraction(value.text)| <= 18
    case TextParam(_, _) => value.Text? && raw == JString(value.text) && |value.text| <= 200
  }

  function Apart(x: real, y: real): real {
    if x < y then y - x else x - y
  }

  lemma AcceptsExactly(param: BlockParam, raw: Json, value: ParamValue)
    requires param.NumberParam? ==> param.min <= param.max
    ensures Accept(param, raw) == Some(value) <==> Takes(param, raw, value)
  {
    if param.NumberParam? && raw.JNumber? {
      var nearest := Accept(param, raw).value.number;
      assert Apart(nearest, raw.number) <= Apart(raw.number, raw.number) || !(param.min <= raw.number <= param.max);
      forall x: real | param.min <= x <= param.max ensures Apart(nearest, raw.number) <= Apart(x, raw.number) {}
      if Takes(param, raw, value) { assert Apart(value.number, raw.number) <= Apart(nearest, raw.number); }
    }
  }

  // ---- one block's parameters ----------------------------------------------

  /** The shared object names the key with a value the parameter takes. */
  ghost predicate Says(raw: Option<Json>, param: BlockParam, value: ParamValue) {
    && raw.Some? && raw.value.JObject? && param.key in raw.value.fields
    && Takes(param, raw.value.fields[param.key], value)
  }

  ghost predicate Silent(raw: Option<Json>, param: BlockParam) {
    forall value :: !Says(raw, param, value)
  }

  /** Every parameter has what the shared object says of it, or its default where it says nothing usable; no
      other key gets in. */
  ghost predicate ReadsParams(params: seq<BlockParam>, raw: Option<Json>, values: map<string, ParamValue>) {
    && (forall key :: key in values <==> exists i :: 0 <= i < |params| && params[i].key == key)
    && (forall i :: 0 <= i < |params| ==>
          && params[i].key in values
          && (Silent(raw, params[i]) ==> values[params[i].key] == DefaultOf(params[i]))
          && (!Silent(raw, params[i]) ==> Says(raw, params[i], values[params[i].key])))
  }

  lemma {:induction false} FirstOfKey(params: seq<BlockParam>, i: nat)
    requires WellDefaulted(params) && i < |params|
    ensures ParamFor(params, params[i].key) == Some(params[i])
  {
    if i > 0 {
      assert params[0].key != params[i].key;
      forall a, b | 0 <= a < b < |params[1..]| ensures params[1..][a].key != params[1..][b].key {
        assert params[a + 1].key != params[b + 1].key;
      }
      FirstOfKey(params[1..], i - 1);
    }
  }

  lemma SharedValue(params: seq<BlockParam>, raw: Option<Json>, i: nat)
    requires WellDefaulted(params) && i < |params|
    ensures var key, shared := params[i].key, SharedParams(params, raw);
            && (Silent(raw, params[i]) <==> key !in shared)
            && (key in shared ==> Says(raw, params[i], shared[key]))
  {
    hide Takes, Accept, InDomain, ParamFor;
    var param := params[i];
    FirstOfKey(params, i);
    RangeHolds(param);
    if raw.Some? && raw.value.JObject? && param.key in raw.value.fields {
      var json := raw.value.fields[param.key];
      forall value ensures Accept(param, json) == Some(value) <==> Takes(param, json, value) {
        AcceptsExactly(param, json, value);
      }
      if Accept(param, json).Some? { assert Says(raw, param, Accept(param, json).value); }
    }
  }

  lemma RangeHolds(param: BlockParam)
    requires InDomain(param, DefaultOf(param))
    ensures param.NumberParam? ==> param.min <= param.max
  {
  }

  lemma SharedKeys(params: seq<BlockParam>, raw: Option<Json>)
    ensures forall key :: key in SharedParams(params, raw) ==> exists i :: 0 <= i < |params| && params[i].key == key
  {
    hide Accept;
    forall key | key in SharedParams(params, raw) ensures exists i :: 0 <= i < |params| && params[i].key == key {
      var param := ParamFor(params, key).value;
      var i :| 0 <= i < |params| && params[i] == param;
    }
  }

  lemma ParamsRead(params: seq<BlockParam>, raw: Option<Json>)
    requires WellDefaulted(params)
    ensures ReadsParams(params, raw, DefaultParams(params) + SharedParams(params, raw))
  {
    hide Silent, Says, DefaultOf, DefaultParams, SharedParams, WellDefaulted;
    var values := DefaultParams(params) + SharedParams(params, raw);
    DefaultKeys(params);
    DefaultsNamed(params);
    SharedKeys(params, raw);
    forall i | 0 <= i < |params|
      ensures params[i].key in values
      ensures Silent(raw, params[i]) ==> values[params[i].key] == DefaultOf(params[i])
      ensures !Silent(raw, params[i]) ==> Says(raw, params[i], values[params[i].key])
    {
      SharedValue(params, raw, i);
    }
  }

  lemma DefaultKeys(params: seq<BlockParam>)
    ensures forall key :: key in DefaultParams(params) <==> exists i :: 0 <= i < |params| && params[i].key == key
  {
    hide DefaultParams;
    DefaultsAreDeclared(params);
  }

  lemma DefaultsNamed(params: seq<BlockParam>)
    requires WellDefaulted(params)
    ensures forall i :: 0 <= i < |params| ==>
              params[i].key in DefaultParams(params) && DefaultParams(params)[params[i].key] == DefaultOf(params[i])
  {
    hide InDomain;
    DefaultsAreDeclared(params);
  }

  // ---- names ---------------------------------------------------------------

  /** The name with its suffix repeated. */
  function Suffixed(uid: string, n: nat, k: nat): string {
    if k == 0 then uid else Suffixed(uid, n, k - 1) + "-" + Show(n)
  }

  lemma {:induction false} SuffixedFirst(uid: string, n: nat, k: nat)
    ensures Suffixed(uid + "-" + Show(n), n, k) == Suffixed(uid, n, k + 1)
  {
    if k > 0 { SuffixedFirst(uid, n, k - 1); }
  }

  /** The first of the suffixed names that is free. */
  ghost predicate IsFresh(uid: string, n: nat, taken: set<string>, name: string) {
    exists k: nat ::
      name == Suffixed(uid, n, k) && name !in taken && forall j: nat :: j < k ==> Suffixed(uid, n, j) in taken
  }

  lemma {:induction false} FreshIsFirst(uid: string, n: nat, taken: set<string>)
    ensures IsFresh(uid, n, taken, FreshName(uid, n, taken))
    decreases Longer(taken, uid)
  {
    hide Show;
    assert Suffixed(uid, n, 0) == uid;
    if uid in taken {
      assert uid in Longer(taken, uid);
      var next := uid + "-" + Show(n);
      FreshIsFirst(next, n, taken);
      var k: nat :| FreshName(next, n, taken) == Suffixed(next, n, k)
                    && forall j: nat :: j < k ==> Suffixed(next, n, j) in taken;
      SuffixedFirst(uid, n, k);
      forall j: nat | j < k + 1 ensures Suffixed(uid, n, j) in taken {
        if j > 0 { SuffixedFirst(uid, n, j - 1); }
      }
    }
  }

  // ---- one entry -----------------------------------------------------------

  /** The entry is a list that opens with the id of a known block. */
  ghost predicate Readable(catalog: Catalog, entry: Json, id: string) {
    entry.JArray? && |entry.items| > 0 && entry.items[0] == JString(id) && id in catalog
  }

  /** The name an entry asks for: its third item where that is a text of 1 to 64 characters, else its place. */
  ghost predicate AsksFor(entry: Json, place: nat, name: string)
    requires entry.JArray?
  {
    if |entry.items| > 2 && entry.items[2].JString? && 1 <= |entry.items[2].text| <= 64 then name == entry.items[2].text
    else name == "s" + Show(place)
  }

  /** A readable entry adds one node behind the others, of its block, with its parameters, under the first free
      of its names; any other adds nothing. */
  ghost predicate Adds(catalog: Catalog, nodes: Chain, entry: Json, after: Chain) {
    && ((forall id :: !Readable(catalog, entry, id)) ==> after == nodes)
    && (forall id :: Readable(catalog, entry, id) ==>
          && |after| == |nodes| + 1 && after[..|nodes|] == nodes
          && after[|nodes|].blockId == id
          && ReadsParams(catalog[id].params, At(entry.items, 1), after[|nodes|].params)
          && exists name :: AsksFor(entry, |nodes|, name)
               && IsFresh(name, |nodes|, set i | 0 <= i < |nodes| :: nodes[i].uid, after[|nodes|].uid))
  }

  lemma EntryAdds(catalog: Catalog, nodes: Chain, entry: Json)
    requires WellDefaultedCatalog(catalog)
    ensures var node := ReadEntry(catalog, entry, nodes);
            Adds(catalog, nodes, entry, if node.None? then nodes else nodes + [node.value])
  {
    hide ReadsParams, IsFresh, SharedParams, DefaultParams, Show, WellDefaulted;
    if entry.JArray? && |entry.items| > 0 && entry.items[0].JString? && entry.items[0].text in catalog {
      var id := entry.items[0].text;
      assert Readable(catalog, entry, id);
      ParamsRead(catalog[id].params, At(entry.items, 1));
      var name := OfferedName(At(entry.items, 2), |nodes|);
      FreshIsFirst(name, |nodes|, Names(nodes));
      assert AsksFor(entry, |nodes|, name);
    }
  }

  /** Nodes are read entry by entry. */
  lemma EntriesAdd(catalog: Catalog, entries: seq<Json>, entry: Json)
    requires WellDefaultedCatalog(catalog)
    ensures ReadEntries(catalog, []) == []
    ensures Adds(catalog, ReadEntries(catalog, entries), entry, ReadEntries(catalog, entries + [entry]))
  {
    hide Adds, ReadEntry, WellDefaultedCatalog;
    EntryAdds(catalog, ReadEntries(catalog, entries), entry);
    assert (entries + [entry])[..|entries|] == entries;
  }

  /** A token is accepted exactly when it has 1 to 8000 URL-safe characters, none left over, and its bytes
      parse to a list; its first 64 entries are read. */
  lemma DecodedExactly(catalog: Catalog, token: string, parse: seq<Byte> -> Option<Json>, nodes: Chain)
    ensures DecodedChain(catalog, token, parse) == Some(nodes) <==>
            && 1 <= |token| <= 8000 && (forall i :: 0 <= i < |token| ==> IsUrlChar(token[i])) && |token| % 4 != 1
            && parse(Decode(token).GetOr([])).Some? && parse(Decode(token).GetOr([])).value.JArray?
            && var items := parse(Decode(token).GetOr([])).value.items;
               nodes == ReadEntries(catalog, if |items| > 64 then items[..64] else items)
  {
    hide Decode, ReadEntries;
    if forall i :: 0 <= i < |token| ==> IsUrlChar(token[i]) { DecodesExactly(token); }
  }
}
