/** What the Automate form takes over from a query, written on the query's own entries. */
module FormAsRead {
  import opened Prelude
  import opened Decimals
  import opened ExecutionPolicy
  import opened Automation

  /** The entry, or the stand-in for a missing one, reads as this whole number, within the range. */
  ghost predicate Counts(rt: Runtime, entries: map<string, string>, key: string, missing: string, lo: int, hi: int,
                         n: int)
  {
    lo <= n <= hi && rt.number(if key in entries then entries[key] else missing) == Some(n as real)
  }

  ghost predicate Names(entries: map<string, string>, key: string, missing: string, offered: set<string>, id: string) {
    id in offered && id == if key in entries then entries[key] else missing
  }

  /** The policy fields, each with its own default and range. */
  ghost predicate SaysPolicy(rt: Runtime, entries: map<string, string>, p: Policy) {
    && (if "maxGas" in entries then rt.number(entries["maxGas"]) == Some(p.maxGas as real) else p.maxGas == 3000000)
    && 100000 <= p.maxGas <= 3000000
    && (if "maxFeeGwei" in entries then rt.number(entries["maxFeeGwei"]) == Some(p.maxFeePerGasGwei as real)
        else p.maxFeePerGasGwei == 10)
    && 1 <= p.maxFeePerGasGwei <= 10
    && (p.access == OwnerOnly <==> "executor" in entries && entries["executor"] == "owner")
    && ("executor" in entries ==> entries["executor"] in {"anyone", "owner"})
  }

  lemma PolicyExactly(rt: Runtime, entries: map<string, string>, p: Policy)
    ensures ReadPolicyParams(rt, entries) == Some(p) <==> SaysPolicy(rt, entries, p)
  {
  }

  /** The query came from the builder and asks for one of the two modes, on an offered route. */
  ghost predicate SaysRoute(automationRoutes: seq<string>, entries: map<string, string>, recurring: bool, id: string) {
    && "src" in entries && entries["src"] == "build"
    && "mode" in entries && entries["mode"] == (if recurring then "recurring" else "trigger")
    && id in automationRoutes && id == if "route" in entries then entries["route"] else ""
  }

  /** Digits, and behind a point up to 18 more, that do not read as zero or less. */
  ghost predicate SaysAmount(rt: Runtime, entries: map<string, string>, amount: string) {
    && "amount" in entries && amount == entries["amount"]
    && AllDigits(Whole(amount)) && Whole(amount) != "" && AllDigits(Fraction(amount)) && |Fraction(amount)| <= 18
    && (rt.number(amount).Some? ==> rt.number(amount).value > 0.0)
  }

  /** A window is one of the three offered; only a recurring query may leave it out. */
  ghost predicate SaysDays(rt: Runtime, entries: map<string, string>, recurring: bool, days: Option<int>) {
    if "days" in entries then
      days.Some? && days.value in {7, 30, 90} && rt.number(entries["days"]) == Some(days.value as real)
    else recurring && days.None?
  }

  lemma DaysExactly(rt: Runtime, text: string, days: int)
    ensures OfferedDays(rt, text) == Some(days) <==> days in {7, 30, 90} && rt.number(text) == Some(days as real)
  {
  }

  lemma WholeExactly(rt: Runtime, text: string, lo: int, hi: int, n: int)
    ensures WholeNumber(rt, text, lo as real, hi as real) == Some(n) <==>
            lo <= n <= hi && rt.number(text) == Some(n as real)
  {
    assert (n as real).Floor == n;
  }

  lemma ThresholdExactly(id: string)
    ensures IsThreshold(id) <==> id in {"up5", "up10", "up25", "down5", "down10", "down25"}
    ensures IntervalSeconds(id).Some? <==> id in {"hourly", "6h", "daily", "weekly", "monthly"}
  {
  }

  lemma AmountExactly(rt: Runtime, entries: map<string, string>, amount: string)
    ensures SaysAmount(rt, entries, amount) <==>
            Get(entries, "amount", "") == amount && IsHandoffAmount(amount) && rt.number(amount).GetOr(1.0) > 0.0
  {
    assert Whole("") == "";
  }

  /** The form takes over a preset exactly when every one of its fields is what the query says, within the
      offered choices and ranges. */
  lemma ReadExactly(rt: Runtime, automationRoutes: seq<string>, entries: map<string, string>, p: Preset)
    ensures Read(rt, automationRoutes, entries) == Some(p) <==>
            && SaysRoute(automationRoutes, entries, p.recurring, p.routeId) && SaysAmount(rt, entries, p.amount)
            && "bps" in entries && Counts(rt, entries, "bps", "", 5, 500, p.slippageBps)
            && Names(entries, "interval", "daily", {"hourly", "6h", "daily", "weekly", "monthly"}, p.intervalId)
            && Counts(rt, entries, "runs", "10", 1, 100, p.maxRuns)
            && Names(entries, "threshold", "up10", {"up5", "up10", "up25", "down5", "down10", "down25"}, p.thresholdId)
            && SaysDays(rt, entries, p.recurring, p.validDays) && SaysPolicy(rt, entries, p.executionPolicy)
  {
    hide WholeNumber, OfferedDays, IsThreshold, IntervalSeconds, IsHandoffAmount, ReadPolicyParams, SaysPolicy,
         SaysAmount;
    PolicyExactly(rt, entries, p.executionPolicy);
    AmountExactly(rt, entries, p.amount);
    if "bps" in entries { WholeExactly(rt, entries["bps"], 5, 500, p.slippageBps); }
    WholeExactly(rt, Get(entries, "runs", "10"), 1, 100, p.maxRuns);
    ThresholdExactly(Get(entries, "threshold", "up10"));
    ThresholdExactly(Get(entries, "interval", "daily"));
    if "days" in entries && p.validDays.Some? { DaysExactly(rt, entries["days"], p.validDays.value); }
  }
}
