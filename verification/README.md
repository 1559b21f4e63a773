# OpenZap: from a drawing to a signed, bounded policy

OpenZap lets a user draw a chain of typed blocks, reduces the drawing to a policy of fixed amounts over
deployed adapters, hands that policy to a signer as a short token, and, for standing authorizations, signs a
schedule or a price condition that executors may submit against later. This project is a Dafny model of the
decisions on that path and of the state around it, with proofs of what they guarantee.

- **Policy plans** (`Decimals`, `Amounts`, `PlanToken`, `Routes`, `LivePolicy`, `AcceptedPlans`, `Execution`, `OneShot`): decimal amounts
  as text, the canonical plan token, resolution against the route manifest, compilation to on-chain steps whose
  data binds the next step's exact amount, reading a policy back from chain, the capsule's walk over those
  steps as a ledger, and a whole one-shot run with its allowlists, Permit2 check, fee and signed minimum.
- **The builder** (`Blocks`, `Insertion`, `CompiledAsPlaced`, `Base64Url`, `ShareToken`, `SharedAsRead`): the chain compiler, the insertion
  judgement, composing a stack of blocks, and share tokens.
- **Reductions** (`ExecutionPolicy`, `Deployable`, `DrawnAsIs`, `GuardOrder`, `LiveRoute`, `Pipeline`): guards
  resolved into one policy, the reduction of a drawing to deployed steps, the signer handoff, and the whole path put together.
- **Automation** (`Automation`, `DesignedAsDrawn`, `FormAsRead`, `Drafts`, `Fees`, `Triggers`, `Settlement`, `Series`, `Observers`): recurring and triggered
  designs, their query-string handoff, the drafted intents, integer fee, floor and trigger arithmetic, the recurring series as a state machine, and the two independent readers of an authorization.
- **Concrete drawings** (`Shipped`, `DroppedSteps`, `StalledSeries`, `Witnesses`): the shipped swap routes as an instance of the
  manifest hypotheses, and inputs the code accepts for each property that fails.
- **Infrastructure** (`WorkerPool`, `RateLimits`, `Limiters`, `Ledger`, `WalletProfile`, `ProfileTotals`,
  `ActivityFeed`, `Tallies`, `RowsShown`): the bounded worker pool under every schedule, the two in-memory limiters over every
  history, and the aggregation of event logs into a wallet profile and a protocol feed.

Each reduction, reader and aggregation also has a statement on the raw material alone (the nodes placed, the query's
entries, the log fields, the registry's sets), proved equivalent to what the code decides: the `AsDrawn`, `AsRead`
and `AsPlaced` modules and the lemmas named `Exactly`.

Code that changes things step by step is modelled by methods with loops or by classes, each proved equal to a
specification function; the lemmas are about those functions. A specification that only composes `Option`
results stands for code that collects reasons: `None` means the source answers with reasons or throws.

## Where the code and its documentation, or intuition, part ways

- A retry after exactly the advertised `Retry-After` is refused again when the time left was a whole number of
  seconds, because a window ends strictly after `resetAt` (`RateLimits.RetryAfterIsEnoughExactly`; two calls
  at once against one a second show it in `Witnesses.RetryComesTooEarly`).
- Adding a first slippage cap of 105 bps or more loosens the deployed slippage, because a design without a cap
  deploys at 100 (`GuardOrder.AddedGuardsTighten`, shown on a drawing by `Witnesses.FirstCapLoosens`), and rounding
  to steps of ten can round up (`GuardOrder.DeployedRounding`).
- A single-step drawing is checked at 18 decimals only, so the signer refuses some that reduced
  (`LiveRoute.SingleStepSigns`; a seventh fraction digit of USDG in `Witnesses.DustReducesButCannotBeSigned`).
- An automation design carries one route, so an accepted drawing with more than one action block loses all but
  the first without a reason (`Automation.DesignMeansTheDrawing`). This takes an opening route that binds a
  minimum: on the bounded aeWETH/0xZAPS pair, whose adapter takes no step data, longer drawings are refused and
  nothing is dropped. The concrete drawing of `DroppedSteps.SecondStepIsLost`, HOOKR into WETH into USDG, needs
  the HOOKR adapter and both HOOKR price sources configured; a build without them
  (`src/lib/robinhood.ts:373-384` defaults the sources to zero) offers automation on the bounded pair only.
- A Permit2-funded run of a plan that comes back to its input token reverts when the way back delivers more than
  the next step spends, although every adapter kept its promise and the same run succeeds on a deposit
  (`OneShot.AcceptedPlansSettle`, `Witnesses.SurplusBlocksThePull`). Holding only the plan, one can tell: pulled
  runs are safe exactly when it never comes back to its input token (`OneShot.PulledPlansSettleExactly`).
- A recurring drawing with no slippage cap, or whose tightest cap is under 105 bps, is accepted and drafted at a
  band of at most 100 bps, which the 1% fee eats: as long as outputs stay three units under spot no run ever
  executes (`Drafts.RecurringDesignRuns`, shown on a weekly aeWETH to 0xZAPS drawing by
  `StalledSeries.UncappedSeriesNeverRuns`). The check for it, `slippageClearsFee`, guards only the stacked draft.
- A band of exactly 100 bps clears at full spot but never three units under it, so the app's rule (above 100) is
  the useful one (`Fees.ClearsAtSpotExactly`, `Fees.TightBandsNeverClear`).
- The lifecycle view reports "due" for a halted capsule or a schedule without an interval, which the capsule
  refuses (`Series.DueIsSubmittable`, `Series.HaltLooksDue`); and with a zero baseline it disagrees with the guardian
  (`Observers.ObserversAgreeExactly`).
- With a baseline too small for the threshold to move it by one unit, a signed fall is armed at the baseline
  itself (`Triggers.FallIsStrictExactly`, `Witnesses.UnmovedPriceArms`).

## Hypotheses

- The route manifest has unique ids, routes whose two tokens differ, quotes that match their data kind, and at
  most one route fitting any on-chain step (`Routes.WellFormed`, shown for the shipped swap routes); adapter
  ids are valid route ids and input tokens have at most 36 decimals (`LiveRoute.WellNamed`), 18 where a single-step design is signed.
- The block catalog is typed by kind (`Blocks.WellTyped`, shown for the shipped one) and its parameter defaults
  lie in their own domains (`ShareToken.WellDefaultedCatalog`).
- `Number` and `String` are parameters (`ExecutionPolicy.Runtime`); where a round trip needs it, `Number` reads
  back printed integers and does not read a positive decimal text as zero or less.
- A char stands for one UTF-16 code unit, so text lengths are JavaScript's.
- Printing and parsing JSON are inverse on the chain being shared, and an empty text is not JSON.
- Series theorems take a clock and terms below 2^64 seconds, one signed schedule per series id, and submissions
  whose signature, submitter, gas and allowlist checks pass.
- Limiter histories state one limit per key; the refusal theorem also takes a clock that does not run backwards.

## Model

| member | source | states |
|---|---|---|
| Decimals.TrimExactly | src/lib/live-policy.ts:291-293 | trimming drops the space at both ends and nothing else |
| Decimals.DecimalExactly | src/lib/live-policy.ts:291-294 | a decimal is one digit or more, and behind a point any number of them; its two parts are read exactly |
| Amounts.ParseUnitsExact | src/lib/openzap.ts:191-206 | reading a decimal at a token's decimals is the exact rational times a power of ten, never rounded |
| Amounts.RouterAmountExactly | src/lib/openzap.ts:191-206 | an amount is read if and only if its trimmed text is a decimal with no more fraction digits than the token has and 1 to 2^128 - 1 units, and is then exactly that many |
| Amounts.CanonicalSpec | src/lib/live-policy.ts:291-300 | the canonical printer refuses exactly non-decimals and zero, and otherwise answers a canonical text of the same rational |
| Amounts.CanonicalUnique | src/lib/live-policy.ts:291-300 | two canonical texts denote the same rational if and only if they are equal |
| Amounts.CanonicalSeparates | src/lib/live-policy.ts:291-300 | two amounts are spelled alike if and only if they denote the same rational |
| Amounts.FormatSpec | src/lib/live-policy.ts:168-178 | the printed on-chain amount is canonical, fits the decimals and reads back to the same units |
| Amounts.ParseFormat | src/lib/live-policy.ts:269-276 | printing then parsing an amount within uint128 at the same decimals is the identity |
| Amounts.FormatParse | src/lib/live-policy.ts:124-178 | parsing then printing an accepted amount gives its canonical spelling |
| PlanToken.DecodeOfEncode | src/lib/live-policy.ts:75-108 | decoding an encoded plan returns the plan with canonical amounts |
| PlanToken.DecodeAcceptsImage | src/lib/live-policy.ts:89-108 | decode accepts exactly the image of encode, and an accepted token re-encodes to itself |
| PlanToken.TokenIdentifiesPlan | src/lib/live-policy.ts:75-87 | two plans share a token if and only if their route ids agree and their amounts denote the same rationals |
| PlanToken.EncodeExactly | src/lib/live-policy.ts:75-87 | a plan prints if and only if it has 1 to 16 steps of legal ids and positive decimal amounts within 4096 characters, as the version and then each step's id and canonical amount |
| Routes.EncodedFits | src/lib/openzap.ts:111-125 | the step data a route emits is data it accepts, and carries the floor it was given exactly when the route binds a minimum |
| Routes.FitsExactly | src/lib/routes.ts:526-547 | step data fits a route if and only if the route emits it for some floor, or it is empty on a route that takes a plain minimum |
| Routes.RouteRecovered | src/lib/routes.ts:495-547 | in a well-formed manifest the step a route emits leads back to that route and to its id |
| LivePolicy.UniqueAddresses | src/lib/live-policy.ts:302-313 | the set-and-array loop computes the order-preserving de-duplication |
| LivePolicy.UniqueSpec | src/lib/live-policy.ts:302-313 | de-duplication keeps every address once, in order of first appearance |
| LivePolicy.ResolveLivePolicyPlan | src/lib/live-policy.ts:124-182 | the resolving loops accept and answer exactly what the resolution rules say |
| AcceptedPlans.AcceptedExactly | src/lib/live-policy.ts:124-182 | a plan is accepted if and only if it has 1 to 16 lines that name a route and an amount its input token carries, each route hands on what the next spends with data that can bind a minimum and spends nothing the last delivers, and the routes name at most 16 assets |
| AcceptedPlans.AcceptedContents | src/lib/live-policy.ts:139-182 | an accepted plan holds its lines' routes and amounts in order, and its tracked assets are exactly those some line's route names as either of its two, each once, in the order they are first named |
| AcceptedPlans.CompiledContents | src/lib/live-policy.ts:184-206 | a compiled policy pays the owner, allows no relayer fee, tracks the plan's assets and spends each line's amount on its route, its data asking for exactly what the next line spends |
| LivePolicy.ResolvedStepSpec | src/lib/live-policy.ts:124-178 | a resolved step is a manifest route with an amount that prints and reads back exactly |
| LivePolicy.ResolveIsIdempotent | src/lib/live-policy.ts:124-182 | resolving the plan a resolution prints reaches the same resolution |
| LivePolicy.ResolvePreservesToken | src/lib/live-policy.ts:75-182 | resolution keeps the handoff token, and the token decodes to the resolved plan |
| LivePolicy.ResolveOnchainLivePolicy | src/lib/live-policy.ts:248-283 | the decompiling loop accepts and answers exactly what the decompilation rules say |
| LivePolicy.DecompileOfCompile | src/lib/live-policy.ts:184-283 | every resolved plan compiles, and reading the compiled policy back gives the same resolution |
| LivePolicy.CompileOfDecompile | src/lib/live-policy.ts:248-283 | every policy accepted from chain is, field for field, what the builder emits for what was read |
| OneShot.Execute | contracts/src/OpenZap.sol:271-314 | a run succeeds only with every adapter on the adapter allowlist and every output token non-zero and on the token allowlist; it then pays the recipient the measured output less a named relayer's smaller of output and signed fee, and nothing else moves; a delisted adapter fails it, and a revert restores the ledger |
| OneShot.SucceedsExactly | contracts/src/OpenZap.sol:271-314 | success, on the ledgers, the allowlist sets and the signed fields: every step affordable, its adapter listed and its report at least the floor asked of it in a listed token, a pulled token consumed, and the measured output less the relayer's cut at least the minimum |
| OneShot.RelayerIsPaid | contracts/src/OpenZap.sol:303-313 | a named relayer is paid exactly the smaller of the output and the signed fee, and no other |
| OneShot.DelistedAdapterStops | contracts/src/OpenZap.sol:280-284 | one step through an adapter that is not on the allowlist fails the run whatever else holds |
| OneShot.BalanceExactly | contracts/src/OpenZap.sol:271-289 | before step k a token's balance is the prior one, what step k pulls and the surplus stranded so far, exactly |
| Execution.FundsAhead | contracts/src/OpenZap.sol:271-302 | before step k the capsule holds its prior balances and, on top, what step k will pull |
| Execution.BindingIsExact | src/lib/live-policy.ts:110-162 | a compiled continuous walk protects prior balances against every honouring adapter if and only if each boundary binds a minimum or needs a single unit |
| Execution.UncoveredBoundaryFails | src/lib/live-policy.ts:110-162 | the first unbound boundary needing more than one unit defeats protection, by a concrete thrifty adapter |
| Execution.AcceptedPlansExecute | src/lib/live-policy.ts:124-206 | for every accepted plan, prior ledger and honouring adapters: each step is affordable, no token drops below its balance before funding, and the settlement delta is exactly the last output |
| OneShot.NothingStrandsExactly | src/lib/live-policy.ts:184-206 | every honouring run of a compiled plan leaves nothing over in a token if and only if no boundary before the last output delivers it |
| OneShot.PulledPlansSettleExactly | contracts/src/OpenZap.sol:289-314 | with its adapters and tokens allowlisted, every honouring pulled run of a plan whose last output meets the minimum succeeds if and only if the plan never comes back to its input token |
| OneShot.AcceptedPlansSettle | contracts/src/OpenZap.sol:271-314 | with honouring allowlisted adapters a run of an accepted plan succeeds if and only if the last output less the fee meets the minimum and, when pulled through Permit2, no boundary leaves a surplus in the pulled token |
| Witnesses.SurplusBlocksThePull | contracts/src/OpenZap.sol:291-298 | WETH into USDG and back, then into 0xZAPS, on shipped routes: a plan that comes back to its input token, with one unit over, succeeds on a deposit and reverts on a pull |
| Blocks.ShippedShapesAreTyped | src/lib/blocks.ts:128-713 | the shipped blocks are the 32 listed, and each accepts and emits as its kind says |
| Blocks.CompileChain | src/lib/blocks.ts:1090-1157 | the compiler's loop computes the shape, gas and issues of the walk |
| Blocks.FitsIsSeats | src/lib/blocks.ts:1090-1148 | the compiler finds no blocking issue exactly when the nodes seat one after another from an empty start |
| CompiledAsPlaced.FindingsExactly | src/lib/blocks.ts:1090-1157 | an issue is reported if and only if it is due for the block placed at its position and what the nearest moving block before it emits |
| CompiledAsPlaced.FitsExactly | src/lib/blocks.ts:1090-1148 | a chain compiles without a blocking issue if and only if every block is known, the one source comes before everything that moves, and every action and sink accepts what reaches it |
| CompiledAsPlaced.SeatsExactly | src/lib/deployable.ts:446-450 | no structural fault is found if and only if every action and sink accepts what reaches it |
| CompiledAsPlaced.GasAddsUp | src/lib/blocks.ts:1096-1108 | the estimate is the base cost and each known block's own |
| Insertion.WalkShape | src/lib/blocks.ts:921-929 | the loop computes the shape flowing before an index |
| Insertion.InsertDecides | src/lib/blocks.ts:931-953 | for a non-guard block in a chain that compiles, the insertion judgement says yes if and only if the edited chain compiles |
| Insertion.GuardDecides | src/lib/blocks.ts:931-953 | a guard never breaks a chain, and is admitted if and only if the compiler will not call it idle |
| CompiledAsPlaced.InsertableExactly | src/lib/blocks.ts:931-953 | a guard may go wherever something flows, any other block where it accepts what reaches it and the next moving block accepts what it emits, a source only at the head of a chain that has none |
| Insertion.InsertIsSound | src/lib/blocks.ts:931-953 | whatever the judgement admits compiles without a blocking issue |
| Insertion.DeepestSeat | src/lib/blocks.ts:983-989 | the seat is admitted and every deeper one is not |
| Insertion.FindSeat | src/lib/blocks.ts:983-989 | the descending loop finds the deepest admitted seat |
| Insertion.ComposeBlockStack | src/lib/blocks.ts:968-1000 | the splicing loop seats the ids in order, each at its deepest position of the chain so far |
| Insertion.ComposeSnoc | src/lib/blocks.ts:968-1000 | each further id is seated, under its defaults and the next name, at the deepest position of the chain so far where it may go, and refused if and only if there is none or it is unknown |
| Insertion.DefaultsAreDeclared | src/lib/blocks.ts:729-736 | a new node has exactly its block's parameters, each at its declared default |
| Insertion.ComposeFits | src/lib/blocks.ts:968-1000 | composing never breaks a chain that compiles |
| Insertion.ComposeKeeps | src/lib/blocks.ts:968-1000 | the original nodes stay a subsequence and the result is the original plus exactly the added nodes |
| Insertion.ComposeSplits | src/lib/blocks.ts:968-1000 | the requested ids are split, in order, between added and rejected with nothing lost |
| Base64Url.PaddingRestored | src/lib/blocks.ts:904-912 | the padding recomputed from the token's length restores exactly what was stripped |
| Base64Url.DecodeOfEncode | src/lib/blocks.ts:897-912 | every byte string survives the round trip, through URL-safe characters only (section 5 of RFC 4648) |
| Base64Url.EncodeIsStandard | src/lib/blocks.ts:897-902 | each character stands for the next six bits of the bytes in the alphabet of section 5 of RFC 4648, the last group filled with zero bits and unpadded |
| Base64Url.DecodesExactly | src/lib/blocks.ts:904-912 | a token of URL-safe characters decodes if and only if its length is not one over a multiple of four, to three bytes for every four characters |
| ShareToken.FreshName | src/lib/blocks.ts:792-799 | the rename loop terminates with a name not taken, and keeps a name that was free |
| ShareToken.Rename | src/lib/blocks.ts:792-799 | the source's loop computes that name |
| ShareToken.OverriddenAreFull | src/lib/blocks.ts:865-893 | defaults overridden by any untrusted fields are full and in domain |
| ShareToken.DecodeChain | src/lib/blocks.ts:768-804 | the decoding loop computes the decoded chain |
| SharedAsRead.DecodedExactly | src/lib/blocks.ts:768-785 | a token is accepted if and only if it has 1 to 8000 URL-safe characters, none left over, and parses to a list, of which the first 64 entries are read |
| SharedAsRead.EntriesAdd | src/lib/blocks.ts:785-803 | an entry adds one node behind the others if and only if it opens with a known block's id, with its parameters and under the first of its suffixed names that is free |
| SharedAsRead.ParamsRead | src/lib/blocks.ts:865-893 | every parameter has the value the shared object says, a number moved to the nearest of its range, or its default where nothing usable is said; no other key gets in |
| ShareToken.AcceptedTokensAreLegal | src/lib/blocks.ts:768-804 | any accepted token yields at most 64 known blocks with full in-domain parameters and distinct uids |
| ShareToken.SharedChainReturns | src/lib/blocks.ts:755-912 | a chain of at most 64 known blocks with distinct uids of 1 to 64 characters, full in-domain parameters and a token within 8000 characters decodes to itself |
| ExecutionPolicy.ResolveExecutionPolicy | src/lib/execution-policy.ts:43-89 | the loop that pushes caps and overwrites access computes the resolved policy |
| ExecutionPolicy.PolicyExactly | src/lib/execution-policy.ts:43-89 | on the guards' own texts: access is the owner's alone if and only if some executor guard says so, and the gas and fee bounds are the least stated whole numbers, or the limits where none is stated |
| ExecutionPolicy.WrittenSays | src/lib/execution-policy.ts:92-96 | the three fields hold the bounds in digits and the access by name, and every other field is unchanged |
| ExecutionPolicy.CapsBySet | src/lib/blocks.ts:1071-1084 | the governing cap depends only on which guards are present, never on order or repetition |
| ExecutionPolicy.PolicyBySet | src/lib/execution-policy.ts:43-89 | chains with the same policy guards resolve to the same policy |
| ExecutionPolicy.PolicyTightens | src/lib/execution-policy.ts:43-89 | more guards refuse or tighten gas, fee and access |
| ExecutionPolicy.PolicyInRange | src/lib/execution-policy.ts:43-89 | every resolved policy lies in the ranges the intents and the reader accept |
| ExecutionPolicy.WriteExecutionPolicyParams | src/lib/execution-policy.ts:92-96 | exactly the three policy fields of the query change |
| ExecutionPolicy.WrittenPolicyReads | src/lib/execution-policy.ts:92-124 | what was written is what is read, whatever else the query carries |
| Deployable.WalkActions | src/lib/deployable.ts:304-335 | the loop over the actions, with the asset becoming unknown behind a failed step, computes the resolved steps |
| Deployable.WalkSpec | src/lib/deployable.ts:304-335 | every step found is deployed, numbered, and spends step one's amount or one its own route parses; the carried asset is known only when all resolved |
| Deployable.DrawSteps | src/lib/deployable.ts:226-398 | the source, action and sink loops reject exactly when one of their rules objects |
| Deployable.ReduceChainToLivePolicy | src/lib/deployable.ts:201-482 | the reason-collecting reduction answers exactly the reduced policy, and none when any rule objects |
| Deployable.FindingsStructural | src/lib/deployable.ts:446-450 | the whole-chain warnings never count as structural faults |
| DrawnAsIs.WalkDraws | src/lib/deployable.ts:304-605 | a walk that resolves every action draws each of them in order, through the first deployed adapter welded to the block, and carries the last step's token |
| DrawnAsIs.DrawsExactly | src/lib/deployable.ts:226-398 | sources, actions and sinks yield these steps if and only if the one source opens well, every action is served by an offered adapter on the previous token with an amount that fits, and the drawing settles with the owner in a token no step spends |
| DrawnAsIs.ReductionKeepsTheDrawing | src/lib/deployable.ts:201-482 | a drawing reduces if and only if its blocks are known, seat and state legal caps and its nodes draw steps as above; the policy then holds exactly those steps, the first one's route and amount, and the guards' slippage and bounds |
| DrawnAsIs.OnlyTheOwnerIsPaid | src/lib/deployable.ts:352-398 | whatever reduces has at most one sink, a send to the owner wallet or a held LP position behind a deposit; a drawing that sends anywhere else never reduces |
| GuardOrder.StructureIgnoresGuards | src/lib/blocks.ts:1090-1148 | a structural fault on a chain is one on its non-guard sequence, and conversely |
| GuardOrder.GuardOrderIsIrrelevant | src/lib/deployable.ts:201-482 | chains with the same non-guard sequence and the same guards, in any order or number, reduce to the same steps, amounts, slippage and policy, or both to none |
| GuardOrder.PermutedGuardsReduceAlike | src/lib/deployable.ts:201-482 | reordering guards changes nothing |
| GuardOrder.DeployedRounding | src/lib/deployable.ts:404-409 | the deployed slippage is a legal step within half a step of the cap, and exceeds it exactly below the range or in the upper half of a step |
| GuardOrder.SlippageExactly | src/lib/deployable.ts:404-415 | a chain deploys at 100 bps where no slippage guard states a cap, and else at the least stated one, rounded half up to the nearest ten of 10 to 500 |
| GuardOrder.AddedGuardsTighten | src/lib/deployable.ts:404-482 | added guards tighten gas, fee and access, and slippage too if and only if they do not state a first cap of 105 bps or more |
| Witnesses.FirstCapLoosens | src/lib/deployable.ts:404-415 | one swap with and without a cap of 105 bps reduces to the same steps at 110 and at 100 bps |
| LiveRoute.ReduceChainToLiveRoute | src/lib/deployable.ts:714-778 | the handoff method answers exactly the reduced route |
| LiveRoute.HandoffAlwaysEncodes | src/lib/deployable.ts:714-778 | whatever reduces to a policy encodes, within the token's length cap |
| LiveRoute.HandoffExactly | src/lib/deployable.ts:714-778 | a drawing is handed off if and only if it reduces and, with several steps, resolves for the signer; the adapters, amounts, direction, slippage and policy are the reduced ones and the token is theirs |
| LiveRoute.SignerSeesTheDrawing | src/lib/deployable.ts:714-778 | the handed-off token decodes to a plan that resolves to the same steps and amounts |
| LiveRoute.LongRoutesBind | src/lib/live-policy.ts:148-162 | a handoff of several steps opens with a route that binds a minimum |
| LiveRoute.StepPerAction | src/lib/deployable.ts:304-335 | a reduced drawing has one step per action block |
| LiveRoute.SingleStepSigns | src/lib/deployable.ts:262-280 | a single-step design resolves for the signer if and only if its amount has no more fraction digits than the input token |
| Witnesses.DustReducesButCannotBeSigned | src/lib/deployable.ts:262-280 | a swap of 0.0000001 USDG is handed off and refused by the signer |
| Shipped.ManifestIsWellFormed | src/lib/routes.ts:118-152 | the shipped swap routes, with their data kinds, meet the manifest hypotheses |
| Shipped.PlansTrackTheirTokens | src/lib/routes.ts:183-264 | an accepted plan over the shipped swap routes tracks exactly the tokens its steps spend and deliver, its own output among them |
| Shipped.SwapResolves | src/lib/deployable.ts:537-605 | a drawn swap of a shipped pair resolves to that pair's adapter |
| Pipeline.DrawingExecutesAsDrawn | src/lib/live-policy.ts:89-283 | from the token alone the signer compiles the drawn routes and amounts, chain read-back returns them, and every honouring execution is affordable, protects prior balances and settles exactly the last output |
| Automation.ValidateSpendCaps | src/lib/automation-design.ts:191-216 | the loop accepts exactly when every placed ceiling parses and covers amount times runs |
| Automation.ReduceChainToAutomation | src/lib/automation-design.ts:51-189 | the early-return reduction answers exactly the specified design |
| Automation.DesignsAreLegal | src/lib/automation-design.ts:51-189 | every accepted design has all its fields in the domains the form checks, and its window covers its last scheduled run |
| Automation.FundingFitsEveryCap | src/lib/automation-design.ts:191-216 | amount times runs, in units of the input token, is at most every spend ceiling placed in the chain |
| DesignedAsDrawn.ModeIsDrawn | src/lib/automation-design.ts:51-189 | the mode is exactly what the chain's nodes say: of the one stream its cadence, whole runs and the one placed window; of the one trigger its condition and the days its one window names, 30 only where none is placed or stated |
| DesignedAsDrawn.CeilingsExactly | src/lib/automation-design.ts:191-216 | the funding check passes if and only if every placed ceiling reads and amount times runs fits under it |
| DesignedAsDrawn.DesignedExactly | src/lib/automation-design.ts:51-189 | a chain is accepted as a design if and only if its route is handed off and offered, the design says the route's fields and what the nodes say, every guard is enforceable and every ceiling holds |
| DesignedAsDrawn.StreamFundsEveryRun | src/lib/automation-design.ts:66-80 | each run of a recurring design spends the stream's own amount of the stream's own asset |
| Automation.DesignMeansTheDrawing | src/lib/automation-design.ts:81-163 | the design carries the drawn actions if and only if the drawing has one action block, and always does when its route binds no minimum; slippage and policy are the reduced ones |
| Automation.ActionsUntouched | src/lib/automation-design.ts:70-80 | replacing the recurring source leaves the drawn actions alone |
| DroppedSteps.SecondStepIsLost | src/lib/automation-design.ts:81-163 | on the shipped routes with HOOKR configured, HOOKR into WETH into USDG on a price trigger is accepted as an automation of its first swap alone |
| DroppedSteps.BothStepsCanBeSigned | src/lib/deployable.ts:714-778 | the same drawing, handed off as a one-shot policy, keeps both steps and meets every hypothesis of the pipeline theorem |
| Automation.AutomationHandoff | src/lib/automation-design.ts:219-238 | the field-by-field query is exactly the design's |
| Automation.HandoffReads | src/lib/automate.ts:180-205 | the form reads back exactly the designed settings from the handoff of any legal design |
| FormAsRead.ReadExactly | src/lib/automate.ts:180-205 | the form takes over a preset if and only if every field is what the query's own entry, or its stand-in, says, within the offered choices and ranges |
| Automation.BuilderToForm | src/lib/automate.ts:180-205 | for every chain the builder accepts, the form shows the designed settings |
| Drafts.DesignedSeriesDrafts | src/lib/automate.ts:482-507 | the recurring draft of a design never throws; its deadline is the designed window's, or the scheduled span and a quarter of it or a day, and covers the last scheduled run; its cadence in seconds, runs, gas, fee and slippage are the designed ones and legal |
| Drafts.DraftedExactly | src/lib/automate.ts:482-507 | a series drafts if and only if its gas and fee bounds are positive and within the limits and a stated window lasts to the last scheduled run; deadline, bounds and tolerance are then exactly these |
| Drafts.DesignedSeriesCompletes | contracts/src/v3_1/OpenZapV3_1.sol:397-475 | the drafted series, submitted run by run, completes if and only if the total lateness fits what the deadline leaves after the last scheduled run and every run clears the signed band |
| Drafts.SpotSeriesComplete | contracts/src/v3_1/OpenZapV3_1.sol:397-475 | every on-time series at full spot completes if and only if the designed band is at least 100 bps |
| Drafts.UnderSpotSeries | contracts/src/v3_1/OpenZapV3_1.sol:397-475 | with outputs three units under spot no course of events executes a run if and only if the designed band is at most 100 bps, and a wider one can complete |
| Automation.DesignedBand | src/lib/deployable.ts:404-409 | a design's band is above 100 bps if and only if the drawing places a cap and its tightest is at least 105, and at least 100 if and only if it places none or its tightest is at least 95 |
| Drafts.RecurringDesignRuns | src/lib/automation-design.ts:124-163 | every accepted recurring chain reads back and drafts; at full spot it completes if and only if it places no cap or its tightest is at least 95 bps; under spot it can complete if and only if it places one and the tightest is at least 105 bps, and otherwise never executes a run |
| StalledSeries.UncappedSeriesNeverRuns | src/lib/executions.ts:311-321 | a weekly WETH to 0xZAPS drawing without a cap is accepted, drafts, and under spot never executes a run |
| Drafts.TriggerDesignDrafts | src/lib/automate.ts:584-603 | a trigger design drafts with its expiry and a capsule-legal threshold, and arms on the side of the feed opposite to the token's move, at the exact level give or take half a basis point and a unit |
| Drafts.TriggerDraftedExactly | src/lib/automate.ts:584-603 | a trigger drafts if and only if its move is one of the six offered and its gas and fee bounds are positive and within the limits; it expires after the window's days, one at least |
| Drafts.TriggerDesignRuns | src/lib/automation-design.ts:166-188 | every accepted trigger chain reads back and drafts |
| Fees.SplitConserves | src/lib/executions.ts:282-309 | executor, pot, stack and recipient parts sum to the output, with the fee the floor of one percent and the pot never short |
| Fees.FloorIsMet | src/lib/automate.ts:261-266 | any gross at or above the slipped quote nets at least the signed floor |
| Fees.FloorIsExact | src/lib/automate.ts:261-266 | the signed floor is the greatest one that every gross at or above the quote less the tolerance nets |
| Fees.FundingIsProduct | src/lib/automate.ts:250-259 | the funding required is amount times runs for a series and the amount for a trigger |
| Fees.ExpectedOutSpec | src/lib/automate.ts:285-309 | the projected output is the input valued at the price in the pool's fixed point, rounded down, in either direction |
| Fees.StackProjectionIsExact | src/lib/automate.ts:312-315 | a run whose net is exactly the floor pays its recipient the stacked projection or one unit more, and a slice of nothing or everything projects nothing |
| Fees.StackedRecipientIsCovered | src/lib/automate.ts:312-315 | net at or above a relative floor pays the recipient at least the stacked projection |
| Fees.PreviewNeverGains | src/lib/automate.ts:285-309 | valuing an amount in the other pool currency and back at one price never gains |
| Fees.PreviewIsTheFloor | src/lib/automate.ts:285-315 | a run clears its band if and only if its net output reaches the previewed floor, and a stacked run then pays at least the stacked preview |
| Fees.WideBandsClear | src/lib/executions.ts:311-321 | every band above 100 bps clears at full spot |
| Fees.TightBandsNeverClear | src/lib/executions.ts:311-321 | a band of 100 bps or less never clears once output is three units under spot |
| Fees.TwoUnitsCanClear | src/lib/executions.ts:311-321 | three is the least such margin: a concrete run two units under spot clears at 100 bps |
| Fees.ClearsAtSpotExactly | src/lib/executions.ts:311-321 | clearing at every full spot holds if and only if the band is at least 100 bps |
| Triggers.RoundSpec | src/lib/automate.ts:220-230 | the feed threshold is within half a basis point of the exact reciprocal move |
| Triggers.FallsLegalExactly | src/lib/automate.ts:220-230 | a fall gives a legal threshold if and only if it is at most 9900 bps |
| Triggers.RisesLegalExactly | src/lib/automate.ts:220-230 | a rise gives a legal threshold if and only if it is at most 199,989,999 bps |
| Triggers.RiseFires | src/lib/executions.ts:330-343 | a signed rise arms only with the feed below baseline and at or under the exact level plus half a basis point, and always below it minus half a basis point |
| Triggers.FallFires | src/lib/executions.ts:330-343 | a signed fall arms only at or above baseline and the exact level less half a basis point and a unit, and always above it plus half a basis point |
| Triggers.FallIsStrictExactly | src/lib/executions.ts:330-343 | the baseline itself does not arm a fall if and only if the threshold moves it by at least one unit |
| Witnesses.UnmovedPriceArms | src/lib/executions.ts:330-343 | a five percent fall signed at a baseline of one is armed by the price that did not move |
| Triggers.ArmedMonotone | src/lib/executions.ts:335-343 | once armed, moving further to the signed side keeps it armed |
| Settlement.SpotSettlesExactly | contracts/src/v3_1/OpenZapV3_1.sol:559-603 | every run at full spot settles if and only if the band is at least 100 bps |
| Settlement.SettlesExactly | contracts/src/v3_1/OpenZapV3_1.sol:559-603 | an absolute floor is met by the output less one percent; a relative one if and only if the band is under 100 percent, something of some worth was spent, and what is left reaches that worth less the band |
| Settlement.TightNeverSettles | contracts/src/v3_1/OpenZapV3_1.sol:559-603 | a run three units under spot never settles in a band of at most 100 bps |
| Settlement.OrdinarySettles | contracts/src/v3_1/OpenZapV3_1.sol:559-603 | in any wider band some run three units under spot settles |
| Settlement.TheRuleIsExact | src/lib/executions.ts:311-321 | the app's rule for a band holds if and only if some run three units under spot can settle in it |
| Series.EveryRunIsSafe | contracts/src/v3/OpenZapV3.sol:306-344 | over every run: at most maxRuns executions, each in the window, an interval apart, and the id spent when the count is full |
| Series.EndedIsAbsorbing | contracts/src/v3/OpenZapV3.sol:306-344 | once spent or expired a series never executes again |
| Series.DueIsSubmittable | src/lib/automation-status.ts:35-65 | in every reachable state the capsule's clock and progress checks pass if and only if the view says due and the policy is not halted and has an interval; a submission then executes if and only if its run also settles |
| Series.HaltLooksDue | src/lib/automation-status.ts:35-65 | a halted capsule and a schedule without an interval both look due and execute no submission |
| Series.FeeGateIsSubmittable | src/lib/guardian-server.ts:252-335 | in every reachable state the guardian reaches its fee gate if and only if the capsule's clock and progress checks pass, under the same two exceptions |
| Series.EndedIsTerminal | src/lib/automation-status.ts:35-65 | a series has ended if and only if the view shows a terminal label, and every later view does too |
| Series.ScriptProgress | contracts/src/v3/OpenZapV3.sol:306-344 | submitted run by run, every run so far executed if and only if the last submission met the deadline and all of them settled |
| Series.HeadroomExactly | src/lib/automate.ts:414-418 | the suggested deadline leaves the scheduled span and a quarter of it, or a day where that is more |
| Series.SuggestedDeadlineIsExact | src/lib/automate.ts:414-418 | with the suggested deadline a series, submitted run by run, completes if and only if all its runs settle and its total lateness is at most one interval plus a quarter of the span, or a day where that is more, however it is spread |
| Observers.ObserversAgreeExactly | src/lib/guardian-server.ts:252-383 | the guardian and the lifecycle view agree on a readable unspent authorization if and only if it is not a zero-baseline trigger in its window |
| Observers.ZeroBaselineDisagreement | src/lib/automation-status.ts:66-76 | in that case the guardian blocks and the view says armed exactly for a rise or a zero price |
| Observers.SpentIsTerminal | src/lib/automation-status.ts:35-49 | a spent authorization shows revoked or completed on evidence and consumed without it, and is finalized for the guardian if and only if its runs are full, or its receipt is |
| Observers.FailedReadsFailClosed | src/lib/guardian-server.ts:252-300 | evidence speaks first, and a read that failed never shows as runnable: the view says unavailable and the guardian blocks, as it does on the wrong chain |
| WorkerPool.TurnInv | src/lib/guardian-server.ts:158-176 | every worker turn keeps each claimed index with exactly one worker or in the results |
| WorkerPool.TurnSpends | src/lib/guardian-server.ts:158-176 | every turn spends from a bounded budget |
| WorkerPool.EverySchedule | src/lib/guardian-server.ts:158-176 | under every schedule the pool stays consistent and the schedule is bounded |
| WorkerPool.StoppedPoolIsComplete | src/lib/guardian-server.ts:158-176 | a stopped pool mapped everything in order if and only if no worker failed, exactly when no mapping rejects |
| WorkerPool.PoolMapsInOrder | src/lib/guardian-server.ts:158-176 | every schedule claims 0, 1, 2, ... once each, with at most n in flight and at most the limit where that is a positive integer, else one, takes at most 2n turns and one a worker, and ends in the sequential map |
| WorkerPool.SharedPool.constructor | src/lib/guardian-server.ts:163-166 | the shared state starts with cursor zero, an empty result array and its workers ready |
| WorkerPool.SharedPool.Resume | src/lib/guardian-server.ts:166-173 | a worker's step on the shared cursor and array is the specified turn |
| WorkerPool.MapGuardianPage | src/lib/guardian-server.ts:158-176 | under an arbitrary scheduler it resolves to the sequential map exactly when no mapping rejects |
| RateLimits.ServeKeepsMap | src/lib/rate-limit.ts:18-47 | one call keeps keys distinct and the map within its cap, touches other buckets only by evicting them, and never evicts the caller |
| RateLimits.ServeExactly | src/lib/rate-limit.ts:18-47 | a known caller's bucket counts one more or opens again in its place, a new caller's opens behind the others, a full map alone makes room, of its expired buckets or else of the oldest; refused is exactly the caller whose open bucket had counted up to the limit |
| RateLimits.DisciplinesAgree | src/lib/relay-rate-limit.ts:13-45 | evicting before or after inserting makes no difference: over every history the two limiters answer alike and keep the same map |
| RateLimits.EveryHistory | src/lib/relay-rate-limit.ts:13-45 | over every history each bucket accounts for exactly its key's calls since it opened |
| RateLimits.RefusalMeansBurst | src/lib/rate-limit.ts:26-47 | a refusal means more than max calls by that key within the last window |
| RateLimits.WindowAdmitsLimit | src/lib/rate-limit.ts:26-47 | a window whose bucket survives admits the smaller of its calls and its limit, always the first call |
| RateLimits.RefusedAgain | src/lib/relay-rate-limit.ts:13-45 | a refused caller returning to the same bucket is refused again exactly within the time left |
| RateLimits.RetryAfterIsEnoughExactly | src/lib/relay-rate-limit.ts:36-44 | returning after the advertised seconds is refused again if and only if the time left was a whole number of seconds |
| Witnesses.RetryComesTooEarly | src/lib/relay-rate-limit.ts:36-44 | two calls at once against one a second: the second waits the advertised second and is refused again |
| Limiters.Buckets.DeleteExpired | src/lib/rate-limit.ts:28-30 | deleting while iterating leaves exactly the unexpired buckets in order |
| Limiters.Buckets.DeleteOldest | src/lib/rate-limit.ts:34-38 | the eviction loop leaves exactly the newest buckets |
| Limiters.RateLimit.IsLimited | src/lib/rate-limit.ts:18-47 | the stateful limiter answers and stores what the model says of its whole call history |
| Limiters.RelayRateLimit.Limit | src/lib/relay-rate-limit.ts:13-45 | the shared limiter answers, stores and advertises what the model says of its whole call history |
| Ledger.PartitionSums | src/lib/profile.ts:194-198 | summing per key over distinct keys that cover the entries gives their total |
| Ledger.VolumesConserve | src/lib/profile.ts:194-198 | accumulated volumes, listed in any order, add up to every amount accumulated |
| Ledger.SortedSpec | src/lib/profile.ts:410-412 | sorting loses no row and puts the newest first |
| Ledger.OneOrder | src/lib/profile.ts:410-412 | with distinct log positions any newest-first permutation is the same list |
| WalletProfile.DedupeCreations | src/lib/profile.ts:435-443 | the map-updating loop computes the de-duplicated creations |
| WalletProfile.DedupedSpec | src/lib/profile.ts:435-443 | one creation per capsule, each an earliest of that capsule's, and no capsule missing |
| WalletProfile.DedupedExactly | src/lib/profile.ts:435-443 | a creation is kept if and only if it is the first of its capsule's earliest ones |
| WalletProfile.SumVolume | src/lib/profile.ts:194-198 | the accumulation loop computes the volume of all verified output |
| WalletProfile.AggregateWalletProfile | src/lib/profile.ts:172-385 | the aggregation computes the profile of the gated history |
| RowsShown.ProfileRowsShow | src/lib/profile.ts:201-321 | a row is shown if and only if it shows, field by field, a creation kept for the owner or a log that passed the gate |
| RowsShown.CapsulesShow | src/lib/profile.ts:319-385 | every capsule shown summarizes a kept creation, its rows and the read for it; the profile is degraded if and only if one has no live reads, and absent if and only if a read claims a halt flag its lineage has not |
| RowsShown.HaltsBelieved | src/lib/profile.ts:186-193 | a halt is believed if and only if its capsule was created in a lineage that can halt, for the same owner and policy |
| Tallies.ProfileShows | src/lib/profile.ts:194-385 | the counts and volumes shown are sums over the logs of the capsules created for the owner, written on the logs' own fields |
| ProfileTotals.StrangersChangeNothing | src/lib/profile.ts:172-193 | mixing in any logs from other emitters, or other owners' creations, anywhere, leaves the whole payload unchanged |
| ProfileTotals.CountsAddUp | src/lib/profile.ts:319-385 | per-capsule execution, automated, recovery and revocation counts add up to the wallet totals |
| ProfileTotals.VolumesAddUp | src/lib/profile.ts:194-198 | per-symbol volumes add up to all verified output |
| ProfileTotals.RowsMatchVolume | src/lib/profile.ts:194-330 | the amounts shown on the execution and automated rows of a symbol add up to the volume shown for it |
| ProfileTotals.ActivityIsEverything | src/lib/profile.ts:201-321 | activity is a newest-first permutation of the verified rows, and the only one when log positions are distinct |
| ProfileTotals.CapsulesAreListed | src/lib/profile.ts:319-360 | capsules are listed once each, newest first, in the only such order when no two share a block |
| ProfileTotals.LastActivityIsNewest | src/lib/profile.ts:321-357 | each capsule's last activity is the greatest block among its rows, and it has one |
| ActivityFeed.DecodedAreComplete | src/lib/activity.ts:248-273 | a run is decoded if and only if it states a submitter, an output and its amount, and for a stacked run both stack amounts; every field is then what it stated, fees of zero where none is |
| ActivityFeed.SumFeed | src/lib/activity.ts:377-387 | the two loops accumulate output of both kinds and the automated fees |
| ActivityFeed.AggregateActivity | src/lib/activity.ts:350-495 | the aggregation computes the feed of the gated history |
| RowsShown.FeedEntriesShow | src/lib/activity.ts:395-459 | entry for entry, the feed before sorting shows the creations, executions, automated runs, recoveries and halts that passed the gate |
| RowsShown.LastWinsSpec | src/lib/activity.ts:359-376 | the feed goes by each capsule's last creation, one a capsule |
| Tallies.FeedShows | src/lib/activity.ts:377-494 | symbol by symbol the volume shown is the sum of the amounts paid out, and the fees the sum of executor fee plus pot fee, over the logs of created capsules |
| Tallies.FeedAddsUp | src/lib/activity.ts:377-387 | all fees together are all executor fees plus all pot fees, and all volumes all amounts paid |
| ActivityFeed.SpoofsChangeNothing | src/lib/activity.ts:359-376 | logs from emitters no factory created change neither the feed nor its statistics |
| ActivityFeed.FeedIsNewest | src/lib/activity.ts:459-494 | the feed is the first fifty of a newest-first permutation of the verified rows, and the last activity block is exactly the greatest block of a row, absent when there is none |
| ActivityFeed.FeedConserves | src/lib/activity.ts:377-387 | listed in any order, volumes add up to all verified output and fees to all the fees taken |
| ActivityFeed.ProfilesSumToFeed | src/lib/activity.ts:469-494 | the profiles of all owners together count exactly the executions, automated runs and recoveries of the feed |
| ActivityFeed.ProfileVolumesSumToFeed | src/lib/activity.ts:377-387 | symbol by symbol, the volumes of all owners' profiles add up to the feed's |

## Left out

- Network plumbing: RPC reads, fetches, wallet calls, the relay, storage and the hosted simulation behind the guardian's fee gate.
- Keccak, EIP-712 hashing, signature recovery and address checksums: addresses are opaque numbers and ABI encodings are injective constructors.
- UTF-8 and JSON inside share tokens, and percent-encoding of query strings: assumed inverse pairs.
- All wording: rejection reasons, notes on unenforced guards, joint and step descriptions, build checks and guard audits. A list of reasons is modelled as a refusal.
- Floating point: parameters are reals and `Math.round` is exact round-half-up; NaN and infinities are one absent value.
- The check that a relative-floor capsule has a single step: a design carries one route, so its capsule has.
- Solidity beyond the one-shot run after authorization, the recurring execution rules, nonce invalidation and the halt flag: the executor fee transfer, the stack leg, price reads and the Permit2 transfer itself are not modelled.
- The absolute-floor and stacked recurring drafts: their schedules and bounds are those of the relative-floor draft that is modelled.
- describeSeries, fundingReadiness and planWethFunding: straight-line display and funding checks.
- `decodeDesign` and the export format, recipes, and the two encodings of a share link.
- Request headers and caller keys in front of the limiters: a call carries its key.
- SharedPool: an asynchronous mapper is a function of its item and index, and a rejecting mapper stops its own worker only.
- OneShot.Execute: adapters are outputs chosen before the walk; an adapter that moves tokens other than its input and output is outside the model.
- WalletProfile.AggregateWalletProfile: capsules created in one block are listed in log order, where the source's comparator, which is not antisymmetric, fixes none; sorting is by insertion, which `Ledger.OneOrder` shows is no restriction for distinct positions.
- Series.EveryRunIsSafe: one signed schedule per series id; two different signed schedules sharing an id are not modelled.
- ActivityFeed.ProfilesSumToFeed, ActivityFeed.ProfileVolumesSumToFeed: stated for histories in which no capsule was created for two owners.
