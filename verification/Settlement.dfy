/** Whether one automated run settles: the capsule measures what the run spent and received, takes the fee,
    and requires the net output to reach the signed floor, an absolute one or one derived from spot. */
module Settlement {
  import opened Fees

  /** What one submission's run spent, the spot it read first, and the output it measured. */
  datatype Fill = Fill(spent: nat, priceX96: nat, gross: nat)

  /** The signed floor: `minOutPerRun`, or a band under spot with the side of the pool that is bought. */
  datatype Floor = Absolute(minOut: nat) | Relative(outIsC1: bool, maxSlippageBps: nat)

  /** The run's input valued at spot; an unreadable market is worth nothing. */
  function Worth(fill: Fill, outIsC1: bool): nat {
    if fill.priceX96 == 0 then 0 else ExpectedOut(fill.spent, outIsC1, fill.priceX96)
  }

  /** The settlement check. A relative floor also refuses a band of 100 percent, a run that spent nothing,
      and an input whose value rounds to zero. */
  predicate Settles(floor: Floor, fill: Fill) {
    match floor
    case Absolute(minOut) => Net(fill.gross) >= minOut
    case Relative(outIsC1, slip) =>
      slip < BPS && fill.spent > 0 && Worth(fill, outIsC1) > 0 && Clears(fill.gross, Worth(fill, outIsC1), slip)
  }

  /** On the fields: an absolute floor is met by what is left after one percent; a relative one needs a band
      under 100 percent, something spent that is worth something, and what is left to reach that worth less
      the band. */
  lemma SettlesExactly(floor: Floor, fill: Fill)
    ensures var net := fill.gross - fill.gross / 100;
            match floor
            case Absolute(minOut) => Settles(floor, fill) <==> net >= minOut
            case Relative(outIsC1, slip) =>
              var worth := Worth(fill, outIsC1);
              Settles(floor, fill) <==>
              slip < 10000 && fill.spent > 0 && worth > 0 && (net + 1) * 10000 > worth * (10000 - slip)
  {
    NetSpec(fill.gross);
    if floor.Relative? && floor.maxSlippageBps < 10000 {
      SlippedSpec(Worth(fill, floor.outIsC1), floor.maxSlippageBps);
    }
  }

  /** A run at full spot. */
  predicate AtSpot(fill: Fill, outIsC1: bool) {
    fill.spent > 0 && Worth(fill, outIsC1) > 0 && fill.gross == Worth(fill, outIsC1)
  }

  /** A run three units under spot, as any fee or price impact makes it. */
  predicate UnderSpot(fill: Fill, outIsC1: bool) {
    fill.gross + 3 <= Worth(fill, outIsC1)
  }

  lemma TightNeverSettles(outIsC1: bool, slip: nat, fill: Fill)
    requires slip <= 100 && UnderSpot(fill, outIsC1)
    ensures !Settles(Relative(outIsC1, slip), fill)
  {
    hide Worth, Clears;
    TightBandsNeverClear(fill.gross, Worth(fill, outIsC1), slip);
  }

  /** An even price: one unit is worth one unit, whichever side is bought. */
  lemma EvenPrice(spent: nat, gross: nat, outIsC1: bool)
    ensures Worth(Fill(spent, Q96, gross), outIsC1) == spent
  {
    OneForOne(spent);
  }

  lemma OneForOne(a: nat)
    ensures a * Q96 / Q96 == a
  {
  }

  /** Every run at full spot settles exactly when the band is at least the fee. */
  lemma SpotSettlesExactly(outIsC1: bool, slip: nat)
    requires slip < BPS
    ensures (forall fill | AtSpot(fill, outIsC1) :: Settles(Relative(outIsC1, slip), fill)) <==> slip >= 100
  {
    hide Worth, Clears;
    if slip >= 100 {
      forall fill | AtSpot(fill, outIsC1) ensures Settles(Relative(outIsC1, slip), fill) {
        SpotClears(Worth(fill, outIsC1), slip);
      }
    } else {
      var fill := Fill(10000, Q96, 10000);
      EvenPrice(10000, 10000, outIsC1);
      TightFails(slip);
      assert AtSpot(fill, outIsC1);
    }
  }

  lemma SpotClears(expected: nat, slip: int)
    requires 100 <= slip < BPS
    ensures Clears(expected, expected, slip)
  {
    ClearsAtSpotExactly(slip);
  }

  lemma TightFails(slip: int)
    requires 0 <= slip < 100
    ensures !Clears(10000, 10000, slip)
  {
  }

  /** A run that stays under spot and settles all the same, on any band above the fee. */
  function Ordinary(): Fill {
    Fill(100000, Q96, 99997)
  }

  lemma OrdinarySettles(outIsC1: bool, slip: nat)
    requires 100 < slip < BPS
    ensures UnderSpot(Ordinary(), outIsC1) && Settles(Relative(outIsC1, slip), Ordinary())
  {
    hide Worth;
    EvenPrice(100000, 99997, outIsC1);
    SlipOrder(100000, slip, 101);
  }

  /** The app's rule for a stacked draft says exactly whether some run three units under spot can settle. */
  lemma TheRuleIsExact(outIsC1: bool, slip: nat)
    ensures SlippageClearsFee(slip) <==>
            exists fill :: UnderSpot(fill, outIsC1) && Settles(Relative(outIsC1, slip), fill)
  {
    hide Worth, Clears, UnderSpot;
    if 100 < slip < BPS {
      OrdinarySettles(outIsC1, slip);
    } else if exists fill :: UnderSpot(fill, outIsC1) && Settles(Relative(outIsC1, slip), fill) {
      var fill :| UnderSpot(fill, outIsC1) && Settles(Relative(outIsC1, slip), fill);
      TightNeverSettles(outIsC1, slip, fill);
    }
  }
}
