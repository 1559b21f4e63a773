/** Integer fee and floor arithmetic (`executions.ts`, `automate.ts`). Every division is the
    source's bigint division of non-negative numbers. */
module Fees {
  import opened Prelude

  const EXEC_FEE_BPS: nat := 100
  const EXECUTOR_SHARE_BPS: nat := 8000
  const BPS: nat := 10000

  datatype FeeSplit = FeeSplit(fee: nat, executorCut: nat, potCut: nat, net: nat)

  /** `computeExecutorFeeSplit`. */
  function ExecutorFeeSplit(out: nat): FeeSplit {
    var fee := out * EXEC_FEE_BPS / BPS;
    var executorCut := fee * EXECUTOR_SHARE_BPS / BPS;
    FeeSplit(fee, executorCut, fee - executorCut, out - fee)
  }

  function Net(out: nat): nat {
    ExecutorFeeSplit(out).net
  }

  datatype StackSplit = StackSplit(base: FeeSplit, stackIn: nat, toRecipient: nat)

  predicate ValidStackBps(stackBps: int) {
    0 < stackBps < BPS
  }

  lemma ShareFits(a: nat, bps: nat)
    requires bps <= BPS
    ensures a * bps / BPS <= a
  {
    assert a * bps <= a * BPS;
  }

  /** `computeStackSplit`. */
  function ComputeStackSplit(out: nat, stackBps: nat): StackSplit
    requires stackBps <= BPS
  {
    var base := ExecutorFeeSplit(out);
    ShareFits(base.net, stackBps);
    var stackIn := base.net * stackBps / BPS;
    StackSplit(base, stackIn, base.net - stackIn)
  }

  /** Nothing is created or lost by a split: the parts sum to the measured output, the executor takes at
      most four fifths of the fee, and the pot is never left short by rounding. */
  lemma SplitConserves(out: nat, stackBps: nat)
    requires stackBps <= BPS
    ensures var s := ComputeStackSplit(out, stackBps);
            && s.base.executorCut + s.base.potCut + s.stackIn + s.toRecipient == out
            && s.base.fee == s.base.executorCut + s.base.potCut
            && 100 * s.base.fee <= out < 100 * s.base.fee + 100
            && 4 * s.base.potCut >= s.base.executorCut
            && 4 * s.base.potCut < s.base.executorCut + 5
            && s.base.net == out - s.base.fee
            && 10000 * s.stackIn <= s.base.net * stackBps < 10000 * s.stackIn + 10000
  {
  }

  // ---- floors --------------------------------------------------------------

  /** `slippageClearsFee`. */
  predicate SlippageClearsFee(maxSlippageBps: int) {
    EXEC_FEE_BPS < maxSlippageBps < BPS
  }

  function Clamp(v: int, lo: int, hi: int): int {
    if v < lo then lo else if v > hi then hi else v
  }

  function Slipped(expected: nat, slip: int): nat
    requires 0 <= slip <= BPS
  {
    assert expected * (BPS - slip) >= 0;
    expected * (BPS - slip) / BPS
  }

  /** `netFloorFromQuote`. */
  function NetFloorFromQuote(quotedOut: int, slippageBps: int): nat {
    if quotedOut <= 0 then 0 else Net(Slipped(quotedOut, Clamp(slippageBps, 0, 9999)))
  }

  lemma NetMonotone(a: nat, b: nat)
    requires a <= b
    ensures Net(a) <= Net(b)
  {
  }

  /** Any run whose gross output reaches the slipped quote nets at least the signed floor. */
  lemma FloorIsMet(gross: nat, quotedOut: int, slippageBps: int)
    requires quotedOut > 0 ==> gross >= Slipped(quotedOut, Clamp(slippageBps, 0, 9999))
    ensures Net(gross) >= NetFloorFromQuote(quotedOut, slippageBps)
  {
    if quotedOut > 0 { NetMonotone(Slipped(quotedOut, Clamp(slippageBps, 0, 9999)), gross); }
  }

  /** The floor is the greatest one that every run at or above the slipped quote reaches. A run is at or above
      it when one unit more than its gross, in ten-thousandths, exceeds the quote less the tolerance. */
  lemma FloorIsExact(quotedOut: nat, slippageBps: int, floor: nat)
    requires quotedOut > 0
    ensures var kept := if slippageBps < 0 then 10000 else if slippageBps > 9999 then 1 else 10000 - slippageBps;
            (forall gross: nat | (gross + 1) * 10000 > quotedOut * kept :: gross - gross / 100 >= floor)
            <==> floor <= NetFloorFromQuote(quotedOut, slippageBps)
  {
    var slip := Clamp(slippageBps, 0, 9999);
    var least := Slipped(quotedOut, slip);
    SlippedSpec(quotedOut, slip);
    NetSpec(least);
    if floor <= Net(least) {
      forall gross: nat | (gross + 1) * 10000 > quotedOut * (10000 - slip) ensures gross - gross / 100 >= floor {
        NetMonotone(least, gross);
        NetSpec(gross);
      }
    }
  }

  lemma NetSpec(out: nat)
    ensures Net(out) == out - out / 100
  {
  }

  /** A slipped amount is the value less its tolerance, rounded down. */
  lemma SlippedSpec(expected: nat, slip: int)
    requires 0 <= slip <= 10000
    ensures Slipped(expected, slip) * 10000 <= expected * (10000 - slip) < (Slipped(expected, slip) + 1) * 10000
  {
    assert expected * (BPS - slip) >= 0;
  }

  const Q96: nat := 0x1_0000_0000_0000_0000_0000_0000

  /** `projectedRelativeFloor`; `outIsC1` says which pool currency is bought, `None` for neither. */
  function RelativeFloor(amountIn: int, outIsC1: Option<bool>, priceX96: int, slip: int): nat {
    if amountIn <= 0 || priceX96 <= 0 || slip < 0 || slip >= BPS || outIsC1.None? then 0
    else Slipped(ExpectedOut(amountIn, outIsC1.value, priceX96), slip)
  }

  function ExpectedOut(amountIn: nat, outIsC1: bool, priceX96: nat): nat
    requires priceX96 > 0
  {
    ProductNonNegative(amountIn, priceX96);
    QuotientNonNegative(amountIn * Q96, priceX96);
    if outIsC1 then amountIn * priceX96 / Q96 else amountIn * Q96 / priceX96
  }

  /** Buying currency1 multiplies by the price, buying currency0 divides by it, both rounded down. */
  lemma ExpectedOutSpec(amountIn: nat, priceX96: nat)
    requires priceX96 > 0
    ensures var c1, c0 := ExpectedOut(amountIn, true, priceX96), ExpectedOut(amountIn, false, priceX96);
            && c1 * Q96 <= amountIn * priceX96 < c1 * Q96 + Q96
            && c0 * priceX96 <= amountIn * Q96 < c0 * priceX96 + priceX96
  {
    DivisionSpec(amountIn * priceX96, Q96);
    DivisionSpec(amountIn * Q96, priceX96);
  }

  lemma DivisionSpec(x: nat, y: nat)
    requires y > 0
    ensures (x / y) * y <= x < (x / y) * y + y
  {
  }

  lemma ProductNonNegative(a: nat, b: nat)
    ensures a * b >= 0
  {
  }

  lemma QuotientNonNegative(a: nat, b: nat)
    requires b > 0
    ensures a / b >= 0
  {
  }

  /** `projectedStackRecipientFloor`. */
  function StackRecipientFloor(relativeFloor: int, stackBps: int): nat {
    if relativeFloor <= 0 || !ValidStackBps(stackBps) then 0
    else Slipped(relativeFloor, stackBps)
  }

  lemma ProductMonotone(a: nat, b: nat, k: nat)
    requires a <= b
    ensures a * k <= b * k
  {
  }

  lemma SlippedMonotone(a: nat, b: nat, slip: int)
    requires a <= b && 0 <= slip <= BPS
    ensures Slipped(a, slip) <= Slipped(b, slip)
  {
    ProductMonotone(a, b, BPS - slip);
  }

  /** What is left after taking the rounded-down slice is the rounded-up remainder. */
  lemma SliceRemainder(a: nat, bps: int)
    requires 0 <= bps <= BPS
    ensures a * bps >= 0 && a - a * bps / BPS >= Slipped(a, bps)
  {
    assert a * bps + a * (BPS - bps) == a * BPS;
  }

  /** A stacked run that clears its relative floor pays the recipient at least the projection. */
  lemma StackedRecipientIsCovered(out: nat, relativeFloor: int, stackBps: int)
    requires ValidStackBps(stackBps) && Net(out) >= relativeFloor
    ensures ComputeStackSplit(out, stackBps).toRecipient >= StackRecipientFloor(relativeFloor, stackBps)
  {
    SliceRemainder(Net(out), stackBps);
    if relativeFloor > 0 { SlippedMonotone(relativeFloor, Net(out), stackBps); }
  }

  /** The projection is exact: a run that nets the relative floor itself pays the recipient that projection, or
      one unit more for rounding; and a slice that is nothing, or everything, projects nothing. */
  lemma StackProjectionIsExact(out: nat, relativeFloor: nat, stackBps: int)
    requires Net(out) == relativeFloor
    ensures var projection := StackRecipientFloor(relativeFloor, stackBps);
            if 0 < stackBps < 10000 then
              projection <= ComputeStackSplit(out, stackBps).toRecipient <= projection + 1
            else projection == 0
  {
    if 0 < stackBps < 10000 {
      SliceRemainder(relativeFloor, stackBps);
      SlippedSpec(relativeFloor, stackBps);
      DivisionSpec(relativeFloor * stackBps, BPS);
      assert relativeFloor * stackBps + relativeFloor * (BPS - stackBps) == relativeFloor * BPS;
    }
  }

  /** Valuing an amount in the other currency and back at the same price never gains. */
  lemma PreviewNeverGains(amountIn: nat, priceX96: nat)
    requires priceX96 > 0
    ensures ExpectedOut(ExpectedOut(amountIn, true, priceX96), false, priceX96) <= amountIn
    ensures ExpectedOut(ExpectedOut(amountIn, false, priceX96), true, priceX96) <= amountIn
  {
    DownAndUp(amountIn, priceX96, Q96);
    DownAndUp(amountIn, Q96, priceX96);
  }

  lemma DownAndUp(a: nat, p: nat, q: nat)
    requires p > 0 && q > 0
    ensures a * p >= 0 && (a * p / q) * q / p <= a
  {
    var there := a * p / q;
    assert there * q <= a * p;
    QuotientAtMost(there * q, a, p);
  }

  lemma QuotientAtMost(x: nat, a: nat, p: nat)
    requires p > 0 && x <= a * p
    ensures x / p <= a
  {
  }

  // ---- which bands clear ---------------------------------------------------

  /** The capsule's check: the post-fee output against a floor derived from gross spot. */
  predicate Clears(gross: nat, expected: nat, slip: int)
    requires 0 <= slip <= BPS
  {
    Net(gross) >= Slipped(expected, slip)
  }

  lemma SlipOrder(e: nat, loose: int, tight: int)
    requires 0 <= tight <= loose <= BPS
    ensures Slipped(e, loose) <= Slipped(e, tight)
  {
    assert e * (BPS - loose) <= e * (BPS - tight);
  }

  /** The previewed floor is the capsule's: a run clears its band exactly when its net output reaches the
      preview, and a stacked one then pays the recipient at least the stacked preview. */
  lemma PreviewIsTheFloor(gross: nat, amountIn: nat, outIsC1: bool, priceX96: nat, slip: int, stackBps: int)
    requires amountIn > 0 && priceX96 > 0 && 0 <= slip < BPS && ValidStackBps(stackBps)
    ensures var preview := RelativeFloor(amountIn, Some(outIsC1), priceX96, slip);
            && (Clears(gross, ExpectedOut(amountIn, outIsC1, priceX96), slip) <==> Net(gross) >= preview)
            && (Net(gross) >= preview ==>
                  ComputeStackSplit(gross, stackBps).toRecipient >= StackRecipientFloor(preview, stackBps))
  {
    hide ExpectedOut, ComputeStackSplit, StackRecipientFloor, Slipped, Net;
    var preview := RelativeFloor(amountIn, Some(outIsC1), priceX96, slip);
    if Net(gross) >= preview { StackedRecipientIsCovered(gross, preview, stackBps); }
  }

  /** Every band the app offers clears at full spot. */
  lemma WideBandsClear(expected: nat, slip: int)
    requires SlippageClearsFee(slip)
    ensures Clears(expected, expected, slip)
  {
    SlipOrder(expected, slip, 100);
  }

  /** A band of 100 bps or less never clears once output is three units under spot. */
  lemma TightBandsNeverClear(gross: nat, expected: nat, slip: int)
    requires 0 <= slip <= 100 && gross + 3 <= expected
    ensures !Clears(gross, expected, slip)
  {
    SlipOrder(expected, 100, slip);
  }

  /** Three is the least such margin: at 100 bps a run two units under spot can still clear. */
  lemma TwoUnitsCanClear()
    ensures Clears(99, 101, 100)
  {
  }

  /** Clearing at full spot, whatever the spot is, happens exactly from 100 bps on. The app's own test
      starts at 101: by `TightBandsNeverClear` a band of exactly 100 dies within three units of spot. */
  lemma ClearsAtSpotExactly(slip: int)
    requires 0 <= slip < BPS
    ensures (forall expected: nat :: Clears(expected, expected, slip)) <==> slip >= 100
  {
    if slip >= 100 {
      forall expected: nat ensures Clears(expected, expected, slip) { SlipOrder(expected, slip, 100); }
    } else {
      assert !Clears(10000, 10000, slip);
    }
  }

  /** Amount times runs for a series of at least one run, the amount alone for a trigger, nothing otherwise. */
  lemma FundingIsProduct(perRun: nat, recurring: bool, maxRuns: int)
    ensures !recurring ==> RequiredFunding(perRun, recurring, maxRuns) == perRun
    ensures recurring && maxRuns >= 1 ==> RequiredFunding(perRun, recurring, maxRuns) == perRun * maxRuns
    ensures recurring && maxRuns < 1 ==> RequiredFunding(perRun, recurring, maxRuns) == 0
  {
  }

  /** The funding a standing authorization needs. */
  function RequiredFunding(perRun: nat, recurring: bool, maxRuns: int): nat {
    if !recurring then perRun else if maxRuns < 1 then 0 else ProductNonNegative(perRun, maxRuns); perRun * maxRuns
  }
}
