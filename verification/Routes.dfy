/** The route manifest (`routes.ts`) and the bytes each adapter expects (`openzap.ts`).
    An address is its 160-bit number, so equality is `isAddressEqual`; ABI encodings are
    constructors, so two encodings are equal exactly when their words are. */
module Routes {
  import opened Prelude

  type Address = nat

  datatype Token = Token(address: Address, decimals: nat)

  datatype DataKind = EmptyData | MinAmountOut | HookedLpDeposit | HookedLpWithdraw | HookrMarket

  /** The part of a route's quote that its step data pins. */
  datatype Quote = V4(poolId: nat) | RangeDeposit(vault: Address) | OtherQuote

  datatype Route = Route(
    id: string, adapter: Address, spender: Address, tokenIn: Token, tokenOut: Token,
    trackedAssets: (Address, Address), data: DataKind, quote: Quote)

  /** `Step.data`: nothing, one ABI word, two ABI words, or any other byte string. */
  datatype StepData = Empty | OneWord(word: nat) | TwoWords(first: nat, second: nat) | OtherBytes(bytes: seq<bv8>)

  /** `ROUTE_DATA_BINDS_MINIMUM`. */
  predicate BindsMinimum(kind: DataKind) {
    kind != EmptyData
  }

  /** `encodeStepData`; `None` is its exception for a route whose quote does not match its data kind. */
  function EncodeStepData(route: Route, minOut: nat): Option<StepData> {
    match route.data
    case EmptyData => Some(Empty)
    case MinAmountOut => Some(OneWord(minOut))
    case HookedLpDeposit => if route.quote.RangeDeposit? then Some(TwoWords(route.quote.vault, minOut)) else None
    case HookedLpWithdraw => Some(TwoWords(route.tokenOut.address, minOut))
    case HookrMarket => if route.quote.V4? then Some(TwoWords(route.quote.poolId, minOut)) else None
  }

  /** `stepDataFitsRoute`. */
  predicate StepDataFits(route: Route, data: StepData) {
    match route.data
    case EmptyData => data.Empty?
    case MinAmountOut => data.Empty? || data.OneWord?
    case HookedLpDeposit =>
      data.TwoWords? && data.first == if route.quote.RangeDeposit? then route.quote.vault else route.tokenOut.address
    case HookedLpWithdraw => data.TwoWords? && data.first == route.tokenOut.address
    case HookrMarket => data.TwoWords? && route.quote.V4? && data.first == route.quote.poolId
  }

  /** The adapter-level floor that step data carries. */
  function Minimum(data: StepData): nat {
    match data
    case OneWord(word) => word
    case TwoWords(_, second) => second
    case _ => 0
  }

  /** The first route with the id. */
  function RouteById(manifest: seq<Route>, id: string): (r: Option<Route>)
    ensures r.Some? ==> r.value in manifest && r.value.id == id
    ensures r.None? ==> forall route :: route in manifest ==> route.id != id
  {
    if manifest == [] then None
    else if manifest[0].id == id then Some(manifest[0])
    else RouteById(manifest[1..], id)
  }

  predicate Implements(route: Route, adapter: Address, tokenIn: Address, spender: Address, data: StepData) {
    && route.adapter == adapter && route.tokenIn.address == tokenIn
    && route.spender == spender && StepDataFits(route, data)
  }

  /** The first deployed route an on-chain step fits. */
  function RouteForStep(manifest: seq<Route>, adapter: Address, tokenIn: Address, spender: Address, data: StepData)
    : (r: Option<Route>)
    ensures r.Some? ==> r.value in manifest && Implements(r.value, adapter, tokenIn, spender, data)
    ensures r.None? ==> forall route :: route in manifest ==> !Implements(route, adapter, tokenIn, spender, data)
  {
    if manifest == [] then None
    else if Implements(manifest[0], adapter, tokenIn, spender, data) then Some(manifest[0])
    else RouteForStep(manifest[1..], adapter, tokenIn, spender, data)
  }

  /** What the shipped manifest guarantees: distinct ids, distinct token sides, a quote that matches
      the data kind, and no step that two routes both fit. */
  ghost predicate WellFormed(manifest: seq<Route>) {
    && (forall r, s :: r in manifest && s in manifest && r.id == s.id ==> r == s)
    && (forall r :: r in manifest ==> r.tokenIn.address != r.tokenOut.address && QuoteMatches(r))
    && (forall r, s, data :: r in manifest && s in manifest && SameStep(r, s, data) ==> r == s)
  }

  predicate QuoteMatches(r: Route) {
    (r.data == HookedLpDeposit ==> r.quote.RangeDeposit?) && (r.data == HookrMarket ==> r.quote.V4?)
  }

  /** One on-chain step that both routes fit. */
  predicate SameStep(r: Route, s: Route, data: StepData) {
    && r.adapter == s.adapter && r.tokenIn.address == s.tokenIn.address && r.spender == s.spender
    && StepDataFits(r, data) && StepDataFits(s, data)
  }

  /** What a route emits, that route accepts, and a binding route carries the floor it was given. */
  lemma EncodedFits(route: Route, minOut: nat)
    requires QuoteMatches(route)
    ensures EncodeStepData(route, minOut).Some?
    ensures StepDataFits(route, EncodeStepData(route, minOut).value)
    ensures BindsMinimum(route.data) ==> Minimum(EncodeStepData(route, minOut).value) == minOut
    ensures !BindsMinimum(route.data) ==> Minimum(EncodeStepData(route, minOut).value) == 0
  {
  }

  /** Step data fits a route exactly when the route emits it for some floor, or is empty on a route that takes a
      plain minimum. */
  lemma FitsExactly(route: Route, data: StepData)
    requires QuoteMatches(route)
    ensures StepDataFits(route, data) <==>
            || (exists floor :: EncodeStepData(route, floor) == Some(data))
            || (route.data == MinAmountOut && data == Empty)
  {
    match data
    case OneWord(word) => assert StepDataFits(route, data) ==> EncodeStepData(route, word) == Some(data);
    case TwoWords(_, second) => assert StepDataFits(route, data) ==> EncodeStepData(route, second) == Some(data);
    case Empty => assert route.data == EmptyData ==> EncodeStepData(route, 0) == Some(data);
    case OtherBytes(_) =>
  }

  /** In a well-formed manifest the step a route emits leads back to that route. */
  lemma RouteRecovered(manifest: seq<Route>, route: Route, minOut: nat)
    requires WellFormed(manifest) && route in manifest
    ensures EncodeStepData(route, minOut).Some?
    ensures RouteForStep(manifest, route.adapter, route.tokenIn.address, route.spender,
                         EncodeStepData(route, minOut).value) == Some(route)
    ensures RouteById(manifest, route.id) == Some(route)
  {
    EncodedFits(route, minOut);
    var data := EncodeStepData(route, minOut).value;
    assert Implements(route, route.adapter, route.tokenIn.address, route.spender, data);
    var found := RouteForStep(manifest, route.adapter, route.tokenIn.address, route.spender, data);
    assert SameStep(found.value, route, data);
  }
}
