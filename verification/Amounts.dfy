/** The three readings of a decimal amount: the canonical spelling a plan token carries, the
    router's parser, and the printer used when a policy is read back. */
module Amounts {
  import opened Prelude
  import opened Decimals

  const MAX_ROUTER_AMOUNT: nat := 0xFFFF_FFFF_FFFF_FFFF_FFFF_FFFF_FFFF_FFFF

  /** `canonicalDecimal`: no superfluous zeros, and never zero. `None` is its exception. */
  function Canonical(value: string): Option<string> {
    var t := Trim(value);
    if !IsDecimal(t) then None
    else
      var normalized := Spell(StripLeading(Whole(t)), StripTrailing(Fraction(t)));
      if normalized == "0" then None else Some(normalized)
  }

  /** `parseUnits` on the texts `parseRouterAmount` lets through: the fraction is trimmed and
      padded back to the token's decimals, so no rounding branch is ever taken. */
  function ParseUnits(s: string, decimals: nat): nat
    requires IsDecimal(s) && |Fraction(s)| <= decimals
  {
    var fraction := StripTrailing(Fraction(s));
    Value(Whole(s) + (fraction + Zeros(decimals - |fraction|)))
  }

  /** `parseRouterAmount`: positive and within uint128, or refused. */
  function ParseRouterAmount(value: string, decimals: nat): (r: Option<nat>)
    ensures r.Some? ==> 0 < r.value <= MAX_ROUTER_AMOUNT
  {
    var t := Trim(value);
    if !IsDecimal(t) || |Fraction(t)| > decimals then None
    else
      var amount := ParseUnits(t, decimals);
      if amount == 0 || amount > MAX_ROUTER_AMOUNT then None else Some(amount)
  }

  /** The digits of a number, zeros in front up to the token's decimals. */
  function Display(n: nat, decimals: nat): (d: string)
    ensures AllDigits(d) && |d| >= decimals && Value(d) == n
    ensures |d| > decimals && |d| > 1 ==> d[0] != '0'
  {
    var shown := Show(n);
    var pad := Zeros(if |shown| < decimals then decimals - |shown| else 0);
    ValueConcat(pad, shown);
    ValueZeros(|pad|);
    ScaleZero(|shown|);
    assert pad == "" ==> pad + shown == shown;
    pad + shown
  }

  /** `formatUnits` on a non-negative amount. */
  function FormatUnits(n: nat, decimals: nat): string {
    Spell(ShownWhole(n, decimals), ShownFraction(n, decimals))
  }

  function ShownWhole(n: nat, decimals: nat): string {
    var display := Display(n, decimals);
    if |display| == decimals then "0" else display[..|display| - decimals]
  }

  function ShownFraction(n: nat, decimals: nat): string {
    var display := Display(n, decimals);
    StripTrailing(display[|display| - decimals..])
  }

  // ---- what the parser reads ----------------------------------------------

  /** Reading at a token's decimals multiplies the rational amount by a power of ten, exactly. */
  lemma ParseUnitsExact(s: string, decimals: nat)
    requires IsDecimal(s) && |Fraction(s)| <= decimals
    ensures ParseUnits(s, decimals) == Scale(Mantissa(s), decimals - |Fraction(s)|)
  {
    hide Value, Scale, StripTrailing, AllDigits, Whole, Fraction;
    var w, f := Whole(s), Fraction(s);
    var r := StripTrailing(f);
    var k, j := decimals - |f|, |f| - |r|;
    StripTrailingValue(f);
    PadValue(r, decimals - |r|);
    ValueConcat(w, r + Zeros(decimals - |r|));
    ScaleTwice(Value(r), j, k);
    Rescaled(Value(w), Value(f), |f|, k);
  }

  /** An amount is read exactly when it is a decimal with no more fraction digits than the token has, of 1 to
      2^128 - 1 units; it is then that many units. */
  lemma RouterAmountExactly(value: string, decimals: nat, units: nat)
    ensures ParseRouterAmount(value, decimals) == Some(units) <==>
            var t := Trim(value);
            && IsDecimal(t) && |Fraction(t)| <= decimals && units == Scale(Mantissa(t), decimals - |Fraction(t)|)
            && 1 <= units < 0x1_0000_0000_0000_0000_0000_0000_0000_0000
  {
    hide Trim, ParseUnits, Scale, Mantissa;
    var t := Trim(value);
    if IsDecimal(t) && |Fraction(t)| <= decimals { ParseUnitsExact(t, decimals); }
  }

  // ---- uniqueness of the canonical spelling --------------------------------

  lemma LastDigit(s: string)
    requires AllDigits(s) && s != ""
    ensures Value(s) % 10 == s[|s| - 1] as int - '0' as int
  {
  }

  lemma MantissaEndsInFraction(y: string)
    requires IsCanonical(y) && Fraction(y) != ""
    ensures Mantissa(y) % 10 != 0
  {
    LastDigit(Fraction(y));
  }

  /** Equal amounts in canonical form have the same number of fraction digits. */
  lemma CanonicalScale(x: string, y: string)
    requires IsCanonical(x) && IsCanonical(y) && SameRational(x, y)
    requires |Fraction(x)| <= |Fraction(y)|
    ensures |Fraction(x)| == |Fraction(y)| && Mantissa(x) == Mantissa(y)
  {
    hide Mantissa, Fraction, Whole, AllDigits;
    var a, k := |Fraction(x)|, |Fraction(y)| - |Fraction(x)|;
    ScaleTwice(Mantissa(x), k, a);
    ScaleOrder(Scale(Mantissa(x), k), Mantissa(y), a);
    if k > 0 { MantissaEndsInFraction(y); }
  }

  /** A digit string without a leading zero outweighs every shorter one. */
  lemma LongerIsLarger(a: string, b: string)
    requires AllDigits(a) && AllDigits(b) && |a| < |b| && b[0] != '0'
    ensures Value(a) < Value(b)
  {
    var head, tail := b[..1], b[1..];
    var k := |tail| - |a|;
    assert b == head + tail;
    ValueBound(a);
    ValueConcat(head, tail);
    LastDigit(head);
    ScaleTwice(1, k, |a|);
    ScaleOrder(Scale(1, k), 1, |a|);
    ScaleAtLeast(k);
    ScaleOrder(Value(head), 1, |tail|);
  }

  lemma {:induction false} ScaleAtLeast(k: nat)
    ensures Scale(1, k) >= 1
  {
    if k > 0 { ScaleAtLeast(k - 1); }
  }

  lemma SameMantissa(x: string, y: string)
    requires IsCanonical(x) && IsCanonical(y)
    requires |Fraction(x)| == |Fraction(y)| && Mantissa(x) == Mantissa(y)
    ensures x == y
  {
    var n := |Fraction(x)|;
    ValueBound(Fraction(x));
    ValueBound(Fraction(y));
    SplitUnique(Value(Whole(x)), Value(Fraction(x)), Value(Whole(y)), Value(Fraction(y)), n);
    ValueInjective(Fraction(x), Fraction(y));
    WholeUnique(Whole(x), Whole(y));
    SpellsItself(x);
    SpellsItself(y);
  }

  /** Digits below a scale and digits above it do not mix. */
  lemma SplitUnique(v: nat, f: nat, w: nat, g: nat, n: nat)
    requires Scale(v, n) + f == Scale(w, n) + g && f < Scale(1, n) && g < Scale(1, n)
    ensures v == w && f == g
  {
    if v < w {
      ScaleSum(v, 1, n);
      ScaleOrder(v + 1, w, n);
    } else if w < v {
      ScaleSum(w, 1, n);
      ScaleOrder(w + 1, v, n);
    }
  }

  lemma WholeUnique(a: string, b: string)
    requires AllDigits(a) && AllDigits(b) && a != "" && b != "" && Value(a) == Value(b)
    requires (|a| > 1 ==> a[0] != '0') && (|b| > 1 ==> b[0] != '0')
    ensures a == b
  {
    if |a| < |b| { LongerIsLarger(a, b); } else if |b| < |a| { LongerIsLarger(b, a); }
    ValueInjective(a, b);
  }

  lemma SpellsItself(x: string)
    requires IsCanonical(x)
    ensures x == Spell(Whole(x), Fraction(x))
  {
    var dot := IndexOf(x, '.');
    IndexOfSpec(x, '.');
    if Fraction(x) != "" { assert x == x[..dot] + [x[dot]] + x[dot + 1..]; }
  }

  /** One rational, one canonical spelling. */
  lemma CanonicalUnique(x: string, y: string)
    requires IsCanonical(x) && IsCanonical(y)
    ensures SameRational(x, y) <==> x == y
  {
    if SameRational(x, y) {
      if |Fraction(x)| <= |Fraction(y)| { CanonicalScale(x, y); } else { CanonicalScale(y, x); }
      SameMantissa(x, y);
    }
  }

  // ---- the canonical printer -----------------------------------------------

  /** `canonicalDecimal` refuses exactly non-decimals and zero; otherwise it answers the one
      canonical spelling of the same rational number. */
  lemma CanonicalSpec(value: string)
    ensures Canonical(value).Some? <==> IsDecimal(Trim(value)) && Mantissa(Trim(value)) > 0
    ensures Canonical(value).Some? ==>
              var c := Canonical(value).value;
              IsCanonical(c) && Mantissa(c) > 0 && SameRational(Trim(value), c) && Trim(c) == c
  {
    hide Trim, Value, Scale, StripLeading, StripTrailing;
    var t := Trim(value);
    if IsDecimal(t) {
      var w, f := StripLeading(Whole(t)), StripTrailing(Fraction(t));
      var c, k := Spell(w, f), |Fraction(t)| - |f|;
      SpellParts(w, f);
      StripMantissa(Whole(t), Fraction(t));
      ScaleTwice(Mantissa(c), k, |f|);
      ScaleOrder(0, Mantissa(c), k);
      ScaleZero(k);
      CanonicalPositive(c);
    }
  }

  lemma StripMantissa(w: string, f: string)
    requires AllDigits(w) && AllDigits(f)
    ensures var r := StripTrailing(f);
            Scale(Value(w), |f|) + Value(f)
            == Scale(Scale(Value(StripLeading(w)), |r|) + Value(r), |f| - |r|)
  {
    hide Value, Scale, StripLeading, StripTrailing, AllDigits;
    var r := StripTrailing(f);
    StripLeadingValue(w);
    StripTrailingValue(f);
    Rescaled(Value(w), Value(r), |r|, |f| - |r|);
  }

  lemma Rescaled(v: nat, g: nat, n: nat, k: nat)
    ensures Scale(Scale(v, n) + g, k) == Scale(v, n + k) + Scale(g, k)
  {
    ScaleSum(Scale(v, n), g, k);
    ScaleTwice(v, n, k);
  }

  lemma CanonicalPositive(c: string)
    requires IsCanonical(c)
    ensures Mantissa(c) == 0 <==> c == "0"
  {
    var w, f := Whole(c), Fraction(c);
    SpellsItself(c);
    if f != "" {
      MantissaEndsInFraction(c);
    } else {
      if |w| > 1 { LongerIsLarger("", w); } else { LastDigit(w); ValueBound(w); }
    }
  }

  lemma CanonicalFixed(c: string)
    requires IsCanonical(c) && Mantissa(c) > 0 && Trim(c) == c
    ensures Canonical(c) == Some(c)
  {
    CanonicalSpec(c);
    CanonicalUnique(c, Canonical(c).value);
  }

  /** Two amounts are spelled alike exactly when they denote the same rational number. */
  lemma CanonicalSeparates(a: string, b: string)
    requires Canonical(a).Some? && Canonical(b).Some?
    ensures Canonical(a) == Canonical(b) <==> SameRational(Trim(a), Trim(b))
  {
    CanonicalSpec(a);
    CanonicalSpec(b);
    var s, t, x, y := Trim(a), Trim(b), Canonical(a).value, Canonical(b).value;
    CanonicalUnique(x, y);
    if SameRational(s, t) { SameTransitive(x, s, t); SameTransitive(x, t, y); }
    if x == y { SameTransitive(s, x, t); }
  }

  lemma SameTransitive(a: string, b: string, c: string)
    requires IsDecimal(a) && IsDecimal(b) && IsDecimal(c)
    requires SameRational(a, b) && SameRational(b, c)
    ensures SameRational(a, c)
  {
    CrossScale(Mantissa(a), |Fraction(a)|, Mantissa(b), |Fraction(b)|, Mantissa(c), |Fraction(c)|);
  }

  lemma CrossScale(x: nat, a: nat, y: nat, b: nat, z: nat, c: nat)
    requires Scale(x, b) == Scale(y, a) && Scale(y, c) == Scale(z, b)
    ensures Scale(x, c) == Scale(z, a)
  {
    ScaleTwice(x, c, b);
    ScaleTwice(x, b, c);
    ScaleTwice(y, a, c);
    ScaleTwice(y, c, a);
    ScaleTwice(z, b, a);
    ScaleTwice(z, a, b);
    ScaleOrder(Scale(x, c), Scale(z, a), b);
  }

  // ---- printing and reading back -------------------------------------------

  /** `formatUnits` prints the canonical decimal of `n` units. */
  lemma FormatSpec(n: nat, decimals: nat)
    ensures var s := FormatUnits(n, decimals);
            && IsCanonical(s) && Trim(s) == s && |Fraction(s)| <= decimals
            && ParseUnits(s, decimals) == n
  {
    FormatCanonical(n, decimals);
    FormatValue(n, decimals);
  }

  lemma FormatCanonical(n: nat, decimals: nat)
    ensures var s := FormatUnits(n, decimals);
            && IsCanonical(s) && Trim(s) == s
            && Whole(s) == ShownWhole(n, decimals) && Fraction(s) == ShownFraction(n, decimals)
            && |Fraction(s)| <= decimals
  {
    hide Display, Value, StripTrailing;
    ShownWholeValue(n, decimals);
    SpellParts(ShownWhole(n, decimals), ShownFraction(n, decimals));
  }

  lemma FormatValue(n: nat, decimals: nat)
    requires IsDecimal(FormatUnits(n, decimals)) && |Fraction(FormatUnits(n, decimals))| <= decimals
    ensures ParseUnits(FormatUnits(n, decimals), decimals) == n
  {
    hide Display, Trim, Value, Scale, StripTrailing, ParseUnits, Whole, Fraction, AllDigits;
    var display := Display(n, decimals);
    var w0, f0 := display[..|display| - decimals], display[|display| - decimals..];
    assert display == w0 + f0;
    FormatCanonical(n, decimals);
    ShownWholeValue(n, decimals);
    ParseUnitsExact(FormatUnits(n, decimals), decimals);
    DigitsOfSlices(display, |display| - decimals);
    ValueConcat(w0, f0);
    StripMantissa(ShownWhole(n, decimals), f0);
    StripLeadingKeeps(ShownWhole(n, decimals));
  }

  lemma DigitsOfSlices(s: string, i: nat)
    requires AllDigits(s) && i <= |s|
    ensures AllDigits(s[..i]) && AllDigits(s[i..])
  {
  }

  lemma StripLeadingKeeps(w: string)
    requires AllDigits(w) && (|w| > 1 ==> w[0] != '0')
    ensures StripLeading(w) == w
  {
  }

  lemma ShownWholeValue(n: nat, decimals: nat)
    ensures var display, w := Display(n, decimals), ShownWhole(n, decimals);
            && AllDigits(w) && w != "" && (|w| > 1 ==> w[0] != '0')
            && Value(w) == Value(display[..|display| - decimals])
  {
    LastDigit("0");
    ValueBound("0");
  }

  /** Reading back what was printed, at the same decimals, is exact. */
  lemma ParseFormat(n: nat, decimals: nat)
    requires 0 < n <= MAX_ROUTER_AMOUNT
    ensures ParseRouterAmount(FormatUnits(n, decimals), decimals) == Some(n)
  {
    FormatSpec(n, decimals);
  }

  /** Printing what was read yields the canonical spelling of the text that was read. */
  lemma FormatParse(value: string, decimals: nat)
    requires ParseRouterAmount(value, decimals).Some?
    ensures Canonical(value) == Some(FormatUnits(ParseRouterAmount(value, decimals).value, decimals))
  {
    var t, s := Trim(value), FormatUnits(ParseRouterAmount(value, decimals).value, decimals);
    FormatSpec(ParseRouterAmount(value, decimals).value, decimals);
    SameParse(t, s, decimals);
    CanonicalAgree(value, s);
  }

  /** Equal readings at one scale mean equal rationals. */
  lemma SameParse(t: string, s: string, decimals: nat)
    requires IsDecimal(t) && |Fraction(t)| <= decimals && IsDecimal(s) && |Fraction(s)| <= decimals
    requires ParseUnits(t, decimals) == ParseUnits(s, decimals) > 0
    ensures SameRational(t, s) && Mantissa(t) > 0 && Mantissa(s) > 0
  {
    hide ParseUnits, Mantissa, Scale, Whole, Fraction;
    ParseUnitsExact(t, decimals);
    ParseUnitsExact(s, decimals);
    ScaleZero(decimals - |Fraction(t)|);
    ScaleZero(decimals - |Fraction(s)|);
    SameUnits(Mantissa(t), |Fraction(t)|, Mantissa(s), |Fraction(s)|, decimals);
  }

  lemma CanonicalAgree(value: string, s: string)
    requires IsDecimal(Trim(value)) && Mantissa(Trim(value)) > 0
    requires IsCanonical(s) && Mantissa(s) > 0 && Trim(s) == s && SameRational(Trim(value), s)
    ensures Canonical(value) == Some(s)
  {
    hide Canonical, Trim, Mantissa, Whole, Fraction, SameRational;
    CanonicalSpec(value);
    CanonicalFixed(s);
    CanonicalSeparates(value, s);
  }

  lemma SameUnits(x: nat, a: nat, y: nat, b: nat, decimals: nat)
    requires a <= decimals && b <= decimals
    requires Scale(x, decimals - a) == Scale(y, decimals - b)
    ensures Scale(x, b) == Scale(y, a)
  {
    ScaleTwice(x, decimals - a, a + b);
    ScaleTwice(x, b, decimals);
    ScaleTwice(y, decimals - b, a + b);
    ScaleTwice(y, a, decimals);
    ScaleOrder(Scale(x, b), Scale(y, a), decimals);
  }
}
