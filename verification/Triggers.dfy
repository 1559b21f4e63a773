/** Price triggers: a user's move of the token price, turned into the condition on the pool's feed that
    the capsule checks (`automate.ts`, `executions.ts`). The feed falls when the token rises. */
module Triggers {
  import opened Prelude
  import opened Fees

  const MAX_THRESHOLD_BPS: nat := 1000000

  datatype Condition = Condition(above: bool, thresholdBps: nat)

  /** `Math.round(a / b)` for a non-negative ratio. */
  function RoundRatio(a: nat, b: nat): nat
    requires b > 0
  {
    QuotientNonNegative(2 * a + b, 2 * b);
    (2 * a + b) / (2 * b)
  }

  /** `feedConditionForTokenMove` on a whole number of basis points; `None` is its exception. */
  function FeedCondition(moveBps: int, rises: bool): Option<Condition> {
    if moveBps <= 0 || (!rises && moveBps >= 10000) then None
    else if rises then Some(Condition(false, RoundRatio(10000 * moveBps, 10000 + moveBps)))
    else Some(Condition(true, RoundRatio(10000 * moveBps, 10000 - moveBps)))
  }

  /** `triggerBoundX96`. */
  function TriggerBound(baseline: nat, thresholdBps: nat, above: bool): nat
    requires !above ==> thresholdBps <= BPS
  {
    if above then ProductNonNegative(baseline, BPS + thresholdBps); baseline * (BPS + thresholdBps) / BPS
    else ProductNonNegative(baseline, BPS - thresholdBps); baseline * (BPS - thresholdBps) / BPS
  }

  /** `isTriggerArmed`. */
  predicate Armed(price: nat, baseline: nat, thresholdBps: nat, above: bool)
    requires !above ==> thresholdBps <= BPS
  {
    var bound := TriggerBound(baseline, thresholdBps, above);
    if above then price >= bound else price <= bound
  }

  /** A threshold the capsule accepts. */
  predicate LegalThreshold(c: Condition) {
    1 <= c.thresholdBps <= MAX_THRESHOLD_BPS && (!c.above ==> c.thresholdBps < BPS)
  }

  // ---- rounding ------------------------------------------------------------

  lemma DivisionBounds(x: nat, y: nat)
    requires y > 0
    ensures (x / y) * y <= x < (x / y) * y + y
  {
  }

  /** The feed threshold is within half a basis point of the exact reciprocal move. */
  lemma RoundSpec(a: nat, b: nat)
    requires b > 0
    ensures 2 * (RoundRatio(a, b) * b) <= 2 * a + b
    ensures 2 * a <= 2 * (RoundRatio(a, b) * b) + b
  {
    var q := RoundRatio(a, b);
    DivisionBounds(2 * a + b, 2 * b);
    assert q * (2 * b) == 2 * (q * b);
  }

  lemma FactorOrder(q: int, c: int, d: nat)
    requires q <= c
    ensures q * d <= c * d
  {
  }

  /** Falls give a capsule-legal threshold exactly up to 99 percent. */
  lemma FallsLegalExactly(moveBps: int)
    requires 1 <= moveBps < 10000
    ensures LegalThreshold(FeedCondition(moveBps, false).value) <==> moveBps <= 9900
  {
    var d: nat := 10000 - moveBps;
    var t := RoundRatio(10000 * moveBps, d);
    RoundSpec(10000 * moveBps, d);
    if t < 1 { FactorOrder(t, 0, d); }
    if t <= 1000000 { FactorOrder(t, 1000000, d); } else { FactorOrder(1000001, t, d); }
  }

  /** Rises give a capsule-legal threshold exactly up to 199,989,999 basis points. */
  lemma RisesLegalExactly(moveBps: int)
    requires 1 <= moveBps
    ensures LegalThreshold(FeedCondition(moveBps, true).value) <==> moveBps <= 199989999
  {
    var d: nat := 10000 + moveBps;
    var t := RoundRatio(10000 * moveBps, d);
    RoundSpec(10000 * moveBps, d);
    if t < 1 { FactorOrder(t, 0, d); }
    if t <= 9999 { FactorOrder(t, 9999, d); } else { FactorOrder(10000, t, d); }
  }

  // ---- when a signed move fires --------------------------------------------

  lemma Distribute(base: nat, t: nat, d: nat)
    ensures (base * (BPS + t)) * d == base * (BPS * d) + base * (t * d)
    ensures t <= BPS ==> (base * (BPS - t)) * d == base * (BPS * d) - base * (t * d)
  {
    assert base * (BPS + t) == base * BPS + base * t;
    assert t <= BPS ==> base * (BPS - t) == base * BPS - base * t;
    assert (base * BPS) * d == base * (BPS * d);
    assert (base * t) * d == base * (t * d);
  }

  /** With `t * d` within half of `d` of `a`, `base` times it is within half a basis point of `base * a`. */
  lemma HalfBasisPoint(base: nat, t: nat, d: nat, a: nat)
    requires 2 * (t * d) <= 2 * a + d && 2 * a <= 2 * (t * d) + d
    ensures 2 * (base * (t * d)) <= 2 * (base * a) + base * d
    ensures 2 * (base * a) <= 2 * (base * (t * d)) + base * d
  {
    FactorOrder(2 * (t * d), 2 * a + d, base);
    FactorOrder(2 * a, 2 * (t * d) + d, base);
  }

  lemma RiseScaled(baseline: nat, m: int)
    requires 1 <= m <= 199989999
    ensures var d: nat, t := 10000 + m, RoundRatio(10000 * m, 10000 + m);
            && 1 <= t < BPS
            && 2 * (baseline * (BPS - t)) * d <= 200000000 * baseline + baseline * d
            && 2 * (baseline * (BPS - t)) * d >= 200000000 * baseline - baseline * d
  {
    var d: nat, t := 10000 + m, RoundRatio(10000 * m, 10000 + m);
    hide RoundRatio;
    RisesLegalExactly(m);
    RoundSpec(10000 * m, d);
    HalfBasisPoint(baseline, t, d, 10000 * m);
    Distribute(baseline, t, d);
    MoveIdentity(baseline, m, d);
    Double(baseline * (BPS - t), d);
  }

  lemma FallScaled(baseline: nat, m: int)
    requires 1 <= m <= 9900
    ensures var d: nat, t := 10000 - m, RoundRatio(10000 * m, 10000 - m);
            && 2 * (baseline * (BPS + t)) * d <= 200000000 * baseline + baseline * d
            && 2 * (baseline * (BPS + t)) * d >= 200000000 * baseline - baseline * d
  {
    var d: nat, t := 10000 - m, RoundRatio(10000 * m, 10000 - m);
    hide RoundRatio;
    RoundSpec(10000 * m, d);
    HalfBasisPoint(baseline, t, d, 10000 * m);
    Distribute(baseline, t, d);
    MoveIdentity(baseline, m, d);
    Double(baseline * (BPS + t), d);
  }

  lemma Double(x: int, d: int)
    ensures 2 * x * d == 2 * (x * d)
  {
  }

  /** Comparing a price with the rounded-down bound, at the scale of `d`. */
  lemma PriceAtScale(price: nat, scaled: nat, d: nat)
    requires d > 0
    ensures price <= scaled / BPS ==> 20000 * (price * d) <= 2 * scaled * d
    ensures price > scaled / BPS ==> 20000 * (price * d) >= 2 * scaled * d + 2 * d
    ensures price >= scaled / BPS ==> 20000 * ((price + 1) * d) >= 2 * scaled * d
    ensures price < scaled / BPS ==> 20000 * (price * d) < 2 * scaled * d
  {
    Regroup(price, d);
    Regroup(price + 1, d);
    Double(scaled, d);
    if price <= scaled / BPS { FactorOrder(price * BPS, scaled, d); }
    else { FactorOrder(scaled + 1, price * BPS, d); }
    if price >= scaled / BPS { FactorOrder(scaled, (price + 1) * BPS, d); }
    else { FactorOrder(price * BPS + 1, scaled, d); }
  }

  /** A signed rise of `m` bps: the exact feed level is baseline * 10000 / (10000 + m). The trigger fires
      only at or below that level plus half a basis point of the baseline, always fires below it minus
      half a basis point, and never fires without the feed having fallen. */
  lemma RiseFires(price: nat, baseline: nat, m: int)
    requires 1 <= m <= 199989999 && baseline > 0
    ensures var c := FeedCondition(m, true).value;
            var d := 10000 + m;
            && !c.above && c.thresholdBps < BPS
            && (Armed(price, baseline, c.thresholdBps, false) ==>
                  20000 * (price * d) <= 200000000 * baseline + baseline * d && price < baseline)
            && (20000 * (price * d) <= 200000000 * baseline - baseline * d ==>
                  Armed(price, baseline, c.thresholdBps, false))
  {
    var t := RoundRatio(10000 * m, 10000 + m);
    hide RoundRatio;
    RiseScaled(baseline, m);
    FactorOrder(BPS - t, BPS - 1, baseline);
    FactorOrder(0, BPS - t, baseline);
    PriceAtScale(price, baseline * (BPS - t), 10000 + m);
  }

  /** A signed fall of `m` bps: the exact feed level is baseline * 10000 / (10000 - m). The trigger fires
      only above that level minus half a basis point of the baseline and one unit, always fires above it
      plus half a basis point, and never fires with the feed below its baseline. */
  lemma FallFires(price: nat, baseline: nat, m: int)
    requires 1 <= m <= 9900 && baseline > 0
    ensures var c := FeedCondition(m, false).value;
            var d := 10000 - m;
            && c.above
            && (Armed(price, baseline, c.thresholdBps, true) ==>
                  20000 * ((price + 1) * d) >= 200000000 * baseline - baseline * d && price >= baseline)
            && (20000 * (price * d) >= 200000000 * baseline + baseline * d ==>
                  Armed(price, baseline, c.thresholdBps, true))
  {
    var t := RoundRatio(10000 * m, 10000 - m);
    hide RoundRatio;
    FallScaled(baseline, m);
    FactorOrder(BPS, BPS + t, baseline);
    PriceAtScale(price, baseline * (BPS + t), 10000 - m);
  }

  lemma Regroup(price: int, d: nat)
    ensures (price * BPS) * d == BPS * (price * d)
  {
  }

  lemma MoveIdentity(base: nat, m: int, d: nat)
    requires m >= 0
    ensures d == 10000 + m ==> base * (BPS * d) - base * (10000 * m) == 100000000 * base
    ensures d == 10000 - m ==> base * (BPS * d) + base * (10000 * m) == 100000000 * base
    ensures base * (10000 * m) == 10000 * (base * m)
  {
    assert base * (BPS * d) == BPS * (base * d);
    assert d == 10000 + m ==> base * d == 10000 * base + base * m;
    assert d == 10000 - m ==> base * d == 10000 * base - base * m;
  }

  /** An armed fall is a strictly higher feed exactly when the baseline is large enough for the threshold
      to move it by a unit; below that the capsule's rounding arms it at the baseline itself. */
  lemma FallIsStrictExactly(baseline: nat, thresholdBps: nat)
    ensures !Armed(baseline, baseline, thresholdBps, true) <==> baseline * thresholdBps >= BPS
  {
    assert baseline * (BPS + thresholdBps) == baseline * BPS + baseline * thresholdBps;
  }

  /** Once armed, moving further to the signed side keeps it armed. */
  lemma ArmedMonotone(price: nat, further: nat, baseline: nat, thresholdBps: nat, above: bool)
    requires !above ==> thresholdBps <= BPS
    requires Armed(price, baseline, thresholdBps, above)
    requires if above then further >= price else further <= price
    ensures Armed(further, baseline, thresholdBps, above)
  {
  }
}
