/** Decimal amounts as text: JavaScript digit strings, `parseUnits`/`formatUnits`, and the
    canonical spelling that `live-policy.ts` puts into a plan token. */
module Decimals {

  // ---- characters ----------------------------------------------------------

  predicate IsDigit(c: char) {
    '0' <= c <= '9'
  }

  predicate AllDigits(s: string) {
    forall i :: 0 <= i < |s| ==> IsDigit(s[i])
  }

  /** What `String.prototype.trim` removes: WhiteSpace and LineTerminator of ECMA-262. */
  predicate IsSpace(c: char) {
    || '\t' <= c <= '\r' || c == ' ' || c == '\U{00A0}' || c == '\U{1680}'
    || '\U{2000}' <= c <= '\U{200A}' || c == '\U{2028}' || c == '\U{2029}'
    || c == '\U{202F}' || c == '\U{205F}' || c == '\U{3000}' || c == '\U{FEFF}'
  }

  function Trim(s: string): (t: string)
    ensures |t| <= |s|
    ensures t != "" ==> !IsSpace(t[0]) && !IsSpace(t[|t| - 1])
    ensures (s == "" || (!IsSpace(s[0]) && !IsSpace(s[|s| - 1]))) ==> t == s
  {
    if s == "" then s
    else if IsSpace(s[0]) then Trim(s[1..])
    else if IsSpace(s[|s| - 1]) then Trim(s[..|s| - 1])
    else s
  }

  /** First position of `c`, or the length when it is absent. */
  function IndexOf(s: string, c: char): (i: nat)
    ensures i <= |s|
  {
    if s == "" || s[0] == c then 0 else 1 + IndexOf(s[1..], c)
  }

  lemma {:induction false} IndexOfSpec(s: string, c: char)
    ensures forall j :: 0 <= j < IndexOf(s, c) ==> s[j] != c
    ensures IndexOf(s, c) < |s| ==> s[IndexOf(s, c)] == c
  {
    if s != "" && s[0] != c { IndexOfSpec(s[1..], c); }
  }

  /** Trimming drops the space at both ends and nothing else. */
  ghost predicate IsTrimmed(s: string, t: string) {
    exists i, j :: 0 <= i <= j <= |s| && Cut(s, t, i, j)
  }

  ghost predicate Cut(s: string, t: string, i: nat, j: nat)
    requires i <= j <= |s|
  {
    && t == s[i..j] && (t != "" ==> !IsSpace(t[0]) && !IsSpace(t[|t| - 1]))
    && (forall k :: 0 <= k < i ==> IsSpace(s[k])) && (forall k :: j <= k < |s| ==> IsSpace(s[k]))
  }

  /** A space in front, or behind, only widens what is cut off. */
  lemma CutFront(tail: string, t: string, i: nat, j: nat, c: char)
    requires i <= j <= |tail| && Cut(tail, t, i, j) && IsSpace(c)
    ensures Cut([c] + tail, t, i + 1, j + 1)
  {
    hide IsSpace;
    var s := [c] + tail;
    assert s[i + 1..j + 1] == tail[i..j];
    forall k | j + 1 <= k < |s| ensures IsSpace(s[k]) { assert IsSpace(tail[k - 1]); }
    forall k | 0 <= k < i + 1 ensures IsSpace(s[k]) { if k > 0 { assert IsSpace(tail[k - 1]); } }
  }

  lemma CutBack(front: string, t: string, i: nat, j: nat, c: char)
    requires i <= j <= |front| && Cut(front, t, i, j) && IsSpace(c)
    ensures Cut(front + [c], t, i, j)
  {
    hide IsSpace;
    var s := front + [c];
    assert s[i..j] == front[i..j];
    forall k | j <= k < |s| ensures IsSpace(s[k]) { if k < |front| { assert IsSpace(front[k]); } }
    forall k | 0 <= k < i ensures IsSpace(s[k]) { assert IsSpace(front[k]); }
  }

  lemma {:induction false} TrimExactly(s: string)
    ensures IsTrimmed(s, Trim(s))
    decreases |s|
  {
    hide IsSpace, Cut;
    if s == "" || (!IsSpace(s[0]) && !IsSpace(s[|s| - 1])) {
      NothingCut(s);
    } else if IsSpace(s[0]) {
      var tail := s[1..];
      TrimExactly(tail);
      var i: nat, j: nat :| i <= j <= |tail| && Cut(tail, Trim(tail), i, j);
      CutFront(tail, Trim(tail), i, j, s[0]);
      assert s == [s[0]] + tail;
      assert Cut(s, Trim(s), i + 1, j + 1);
    } else {
      var front := s[..|s| - 1];
      TrimExactly(front);
      var i: nat, j: nat :| i <= j <= |front| && Cut(front, Trim(front), i, j);
      CutBack(front, Trim(front), i, j, s[|s| - 1]);
      assert s == front + [s[|s| - 1]];
      assert Cut(s, Trim(s), i, j);
    }
  }

  lemma NothingCut(s: string)
    requires s == "" || (!IsSpace(s[0]) && !IsSpace(s[|s| - 1]))
    ensures Cut(s, Trim(s), 0, |s|)
  {
    hide IsSpace;
  }

  // ---- numbers -------------------------------------------------------------

  /** `v` times ten to the `k`, one factor at a time so that every proof stays linear. */
  function Scale(v: nat, k: nat): nat {
    if k == 0 then v else 10 * Scale(v, k - 1)
  }

  lemma {:induction false} ScaleTwice(v: nat, a: nat, b: nat)
    ensures Scale(Scale(v, a), b) == Scale(v, a + b)
  {
    if b > 0 { ScaleTwice(v, a, b - 1); }
  }

  lemma {:induction false} ScaleOrder(v: nat, w: nat, k: nat)
    ensures v < w <==> Scale(v, k) < Scale(w, k)
    ensures v == w <==> Scale(v, k) == Scale(w, k)
  {
    if k > 0 { ScaleOrder(v, w, k - 1); }
  }

  lemma {:induction false} ScaleSum(v: nat, w: nat, k: nat)
    ensures Scale(v + w, k) == Scale(v, k) + Scale(w, k)
  {
    if k > 0 { ScaleSum(v, w, k - 1); }
  }

  lemma {:induction false} ScaleZero(k: nat)
    ensures Scale(0, k) == 0
  {
    if k > 0 { ScaleZero(k - 1); }
  }

  /** The number a digit string denotes, most significant digit first (`BigInt(text)`). */
  function Value(s: string): nat
    requires AllDigits(s)
  {
    if s == "" then 0
    else 10 * Value(s[..|s| - 1]) + (s[|s| - 1] as int - '0' as int)
  }

  /** A number as decimal digits. */
  function Show(n: nat): (s: string)
    ensures s != "" && AllDigits(s)
    ensures Value(s) == n
    ensures s[0] == '0' <==> n == 0
    ensures n == 0 ==> s == "0"
  {
    if n < 10 then ['0' + (n as char)]
    else
      var front := Show(n / 10);
      var s := front + ['0' + ((n % 10) as char)];
      assert s[..|s| - 1] == front;
      s
  }

  function Zeros(n: nat): (z: string)
    ensures |z| == n && AllDigits(z)
  {
    if n == 0 then "" else Zeros(n - 1) + "0"
  }

  lemma {:induction false} ValueConcat(a: string, b: string)
    requires AllDigits(a) && AllDigits(b)
    ensures AllDigits(a + b)
    ensures Value(a + b) == Scale(Value(a), |b|) + Value(b)
  {
    if b == "" {
      assert a + b == a;
    } else {
      var s, b' := a + b, b[..|b| - 1];
      ValueConcat(a, b');
      assert s[..|s| - 1] == a + b' && s[|s| - 1] == b[|b| - 1];
    }
  }

  lemma {:induction false} ValueZeros(n: nat)
    ensures Value(Zeros(n)) == 0
  {
    if n > 0 {
      ValueZeros(n - 1);
      assert Zeros(n)[..n - 1] == Zeros(n - 1);
    }
  }

  lemma {:induction false} ValueBound(s: string)
    requires AllDigits(s)
    ensures Value(s) < Scale(1, |s|)
  {
    if s != "" { ValueBound(s[..|s| - 1]); }
  }

  /** Digit strings of one length are told apart by their value. */
  lemma {:induction false} ValueInjective(a: string, b: string)
    requires AllDigits(a) && AllDigits(b) && |a| == |b|
    requires Value(a) == Value(b)
    ensures a == b
  {
    if a != "" {
      var a', b' := a[..|a| - 1], b[..|b| - 1];
      var x, y := a[|a| - 1] as int - '0' as int, b[|b| - 1] as int - '0' as int;
      assert 0 <= x < 10 && 0 <= y < 10;
      assert 10 * Value(a') + x == 10 * Value(b') + y;
      ValueInjective(a', b');
      assert a == a' + [a[|a| - 1]] && b == b' + [b[|b| - 1]];
    }
  }

  // ---- decimal text --------------------------------------------------------

  function Whole(s: string): string {
    s[..IndexOf(s, '.')]
  }

  function Fraction(s: string): string {
    var dot := IndexOf(s, '.');
    if dot < |s| then s[dot + 1..] else ""
  }

  /** The pattern `^\d+(?:\.\d*)?$`. */
  predicate IsDecimal(s: string) {
    Whole(s) != "" && AllDigits(Whole(s)) && AllDigits(Fraction(s))
  }

  /** A decimal is one digit or more, and behind a point any number of them. */
  lemma DecimalExactly(s: string)
    ensures IsDecimal(s) <==>
            exists w, f :: w != "" && AllDigits(w) && AllDigits(f) && (s == w + "." + f || (f == "" && s == w))
    ensures forall w, f :: AllDigits(w) && (s == w + "." + f || (f == "" && s == w)) ==>
              Whole(s) == w && Fraction(s) == f
  {
    IndexOfSpec(s, '.');
    forall w, f | AllDigits(w) && (s == w + "." + f || (f == "" && s == w)) ensures Whole(s) == w && Fraction(s) == f {
      assert forall i :: 0 <= i < |w| ==> s[i] == w[i];
      if s == w + "." + f { assert s[|w|] == '.' && s[|w| + 1..] == f; }
    }
    if IsDecimal(s) {
      var w, f := Whole(s), Fraction(s);
      assert s == w + "." + f || (f == "" && s == w);
    }
  }

  /** A decimal as an integer count of units of ten to the minus `|Fraction(s)|`. */
  ghost function Mantissa(s: string): nat
    requires IsDecimal(s)
  {
    Scale(Value(Whole(s)), |Fraction(s)|) + Value(Fraction(s))
  }

  /** The two texts denote the same rational number. */
  ghost predicate SameRational(a: string, b: string)
    requires IsDecimal(a) && IsDecimal(b)
  {
    Scale(Mantissa(a), |Fraction(b)|) == Scale(Mantissa(b), |Fraction(a)|)
  }

  /** Without superfluous leading zeros; one digit stays. */
  function StripLeading(w: string): (r: string)
    requires AllDigits(w)
    ensures AllDigits(r) && (w != "" ==> r != "")
    ensures |r| > 1 ==> r[0] != '0'
  {
    if |w| > 1 && w[0] == '0' then StripLeading(w[1..]) else w
  }

  /** Without trailing zeros. */
  function StripTrailing(f: string): (r: string)
    requires AllDigits(f)
    ensures AllDigits(r) && |r| <= |f|
    ensures r != "" ==> r[|r| - 1] != '0'
  {
    if f != "" && f[|f| - 1] == '0' then StripTrailing(f[..|f| - 1]) else f
  }

  lemma {:induction false} StripLeadingValue(w: string)
    requires AllDigits(w)
    ensures Value(StripLeading(w)) == Value(w)
  {
    if |w| > 1 && w[0] == '0' {
      StripLeadingValue(w[1..]);
      assert w == "0" + w[1..] && Value("0") == Scale(0, 0) by { assert "0"[..0] == ""; }
      ValueConcat("0", w[1..]);
      ScaleZero(|w[1..]|);
    }
  }

  /** The zeros that were removed only scaled the value. */
  lemma {:induction false} StripTrailingValue(f: string)
    requires AllDigits(f)
    ensures Value(f) == Scale(Value(StripTrailing(f)), |f| - |StripTrailing(f)|)
    ensures StripTrailing(StripTrailing(f)) == StripTrailing(f)
  {
    if f != "" && f[|f| - 1] == '0' { StripTrailingValue(f[..|f| - 1]); }
  }

  /** Writing zeros behind a digit string scales its value. */
  lemma PadValue(s: string, k: nat)
    requires AllDigits(s)
    ensures AllDigits(s + Zeros(k)) && Value(s + Zeros(k)) == Scale(Value(s), k)
  {
    ValueConcat(s, Zeros(k));
    ValueZeros(k);
  }

  /** A spelling with no superfluous zero. */
  ghost predicate IsCanonical(s: string) {
    && IsDecimal(s)
    && (|Whole(s)| > 1 ==> s[0] != '0')
    && (Fraction(s) != "" ==> Fraction(s)[|Fraction(s)| - 1] != '0')
    && (Fraction(s) == "" ==> Whole(s) == s)
  }

  function Spell(whole: string, fraction: string): string {
    if fraction == "" then whole else whole + "." + fraction
  }

  lemma SpellParts(whole: string, fraction: string)
    requires AllDigits(whole) && whole != "" && AllDigits(fraction)
    ensures var s := Spell(whole, fraction);
            IsDecimal(s) && Whole(s) == whole && Fraction(s) == fraction && !IsSpace(s[0]) && !IsSpace(s[|s| - 1])
  {
    var s := Spell(whole, fraction);
    assert forall i :: 0 <= i < |whole| ==> s[i] == whole[i] && IsDigit(s[i]);
    assert fraction != "" ==> s[|whole|] == '.';
    IndexOfSpec(s, '.');
    assert s[..|whole|] == whole;
    assert fraction != "" ==> s[|whole| + 1..] == fraction && IsDigit(fraction[|fraction| - 1]);
    assert IsDigit(whole[|whole| - 1]);
  }
}
