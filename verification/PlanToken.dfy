/** The builder-to-signer handoff token of `live-policy.ts`: route ids and decimal amounts only. */
module PlanToken {
  import opened Prelude
  import opened Decimals
  import opened Amounts

  const HANDOFF_VERSION := "v1"
  const MAX_HANDOFF_LENGTH := 4096
  const MAX_POLICY_STEPS := 16

  datatype PlanStep = PlanStep(routeId: string, amountIn: string)

  // ---- split and join ------------------------------------------------------

  /** `text.split(c)` for a one-character separator. */
  function Split(s: string, c: char): (parts: seq<string>)
    ensures |parts| >= 1
    decreases |s|
  {
    var i := IndexOf(s, c);
    if i == |s| then [s] else [s[..i]] + Split(s[i + 1..], c)
  }

  /** `parts.join(c)`. */
  function Join(parts: seq<string>, c: char): string
    requires |parts| >= 1
  {
    if |parts| == 1 then parts[0] else parts[0] + [c] + Join(parts[1..], c)
  }

  lemma {:induction false} IndexOfFirst(p: string, c: char, rest: string)
    requires c !in p
    ensures IndexOf(p + [c] + rest, c) == |p|
    ensures IndexOf(p, c) == |p|
  {
    if p != "" {
      IndexOfFirst(p[1..], c, rest);
      assert (p + [c] + rest)[1..] == p[1..] + [c] + rest;
    }
  }

  lemma {:induction false} SplitJoin(parts: seq<string>, c: char)
    requires |parts| >= 1 && forall p :: p in parts ==> c !in p
    ensures Split(Join(parts, c), c) == parts
  {
    var head, tail := parts[0], parts[1..];
    assert head in parts;
    if |parts| == 1 {
      IndexOfFirst(head, c, "");
    } else {
      var s := Join(parts, c);
      IndexOfFirst(head, c, Join(tail, c));
      assert s[..|head|] == head && s[|head| + 1..] == Join(tail, c);
      SplitJoin(tail, c);
    }
  }

  // ---- the codec -----------------------------------------------------------

  predicate IsIdChar(c: char) {
    'a' <= c <= 'z' || '0' <= c <= '9'
  }

  /** The pattern `^[a-z0-9][a-z0-9-]{0,127}$`. */
  predicate IsRouteId(s: string) {
    1 <= |s| <= 128 && IsIdChar(s[0]) && forall i :: 0 <= i < |s| ==> IsIdChar(s[i]) || s[i] == '-'
  }

  predicate Encodable(step: PlanStep) {
    IsRouteId(step.routeId) && Canonical(step.amountIn).Some?
  }

  function Entry(step: PlanStep): string
    requires Encodable(step)
  {
    step.routeId + "=" + Canonical(step.amountIn).value
  }

  function Entries(steps: seq<PlanStep>): (entries: seq<string>)
    requires forall i :: 0 <= i < |steps| ==> Encodable(steps[i])
    ensures |entries| == |steps| && forall i :: 0 <= i < |steps| ==> entries[i] == Entry(steps[i])
  {
    seq(|steps|, i requires 0 <= i < |steps| => Entry(steps[i]))
  }

  /** `encodeLivePolicyPlan`; `None` is any of its exceptions. */
  function Encode(steps: seq<PlanStep>): Option<string> {
    if |steps| == 0 || |steps| > MAX_POLICY_STEPS then None
    else if exists i :: 0 <= i < |steps| && !Encodable(steps[i]) then None
    else
      var token := Join([HANDOFF_VERSION] + Entries(steps), '|');
      if |token| > MAX_HANDOFF_LENGTH then None else Some(token)
  }

  /** One `route=amount` entry: exactly one separator, not in first place. */
  function DecodeEntry(entry: string): Option<PlanStep> {
    var separator := IndexOf(entry, '=');
    if separator == 0 || separator == |entry| || '=' in entry[separator + 1..] then None
    else
      var routeId, amount := entry[..separator], Canonical(entry[separator + 1..]);
      if !IsRouteId(routeId) || amount.None? then None else Some(PlanStep(routeId, amount.value))
  }

  function DecodeEntries(entries: seq<string>): Option<seq<PlanStep>> {
    if exists i :: 0 <= i < |entries| && DecodeEntry(entries[i]).None? then None
    else Some(seq(|entries|, i requires 0 <= i < |entries| && DecodeEntry(entries[i]).Some? =>
                               DecodeEntry(entries[i]).value))
  }

  /** `decodeLivePolicyPlan`. */
  function Decode(token: string): Option<seq<PlanStep>> {
    if token == "" || |token| > MAX_HANDOFF_LENGTH then None
    else
      var parts := Split(token, '|');
      if parts[0] != HANDOFF_VERSION || |parts| == 1 || |parts| - 1 > MAX_POLICY_STEPS then None
      else
        var steps := DecodeEntries(parts[1..]);
        if steps.None? || Encode(steps.value) != Some(token) then None else steps
  }

  // ---- the codec is canonical ----------------------------------------------

  /** The step with its amount in canonical spelling. */
  function CanonicalStep(step: PlanStep): PlanStep
    requires Encodable(step)
  {
    PlanStep(step.routeId, Canonical(step.amountIn).value)
  }

  /** The plan with every amount in its canonical spelling. */
  function CanonicalPlan(steps: seq<PlanStep>): (plan: seq<PlanStep>)
    requires forall i :: 0 <= i < |steps| ==> Encodable(steps[i])
    ensures |plan| == |steps|
    ensures forall i :: 0 <= i < |steps| ==> plan[i] == CanonicalStep(steps[i])
  {
    seq(|steps|, i requires 0 <= i < |steps| => CanonicalStep(steps[i]))
  }

  lemma CanonicalText(value: string)
    requires Canonical(value).Some?
    ensures forall c :: c in Canonical(value).value ==> IsDigit(c) || c == '.'
    ensures Canonical(Canonical(value).value) == Canonical(value)
  {
    hide Mantissa;
    var c := Canonical(value).value;
    CanonicalSpec(value);
    CanonicalFixed(c);
    SpellsItself(c);
  }

  /** An entry reads back as the step it was printed from, in canonical spelling. */
  lemma EntryRoundTrip(step: PlanStep)
    requires Encodable(step)
    ensures DecodeEntry(Entry(step)) == Some(CanonicalStep(step))
    ensures '|' !in Entry(step)
  {
    hide Canonical;
    var id, amount := step.routeId, Canonical(step.amountIn).value;
    var entry := Entry(step);
    CanonicalText(step.amountIn);
    assert '=' !in id;
    IndexOfFirst(id, '=', amount);
    assert entry == id + ['='] + amount;
    assert entry[..|id|] == id && entry[|id| + 1..] == amount;
  }

  lemma CanonicalPlanEntries(steps: seq<PlanStep>)
    requires forall i :: 0 <= i < |steps| ==> Encodable(steps[i])
    ensures forall i :: 0 <= i < |steps| ==> Encodable(CanonicalPlan(steps)[i])
    ensures Entries(CanonicalPlan(steps)) == Entries(steps)
  {
    hide Canonical, IsRouteId;
    var plan := CanonicalPlan(steps);
    forall i | 0 <= i < |steps|
      ensures Encodable(plan[i]) && Entry(plan[i]) == Entry(steps[i])
    {
      assert Encodable(steps[i]);
      CanonicalText(steps[i].amountIn);
    }
    assert Entries(plan) == Entries(steps);
  }

  lemma EntriesRoundTrip(steps: seq<PlanStep>)
    requires forall i :: 0 <= i < |steps| ==> Encodable(steps[i])
    ensures DecodeEntries(Entries(steps)) == Some(CanonicalPlan(steps))
    ensures forall e :: e in Entries(steps) ==> '|' !in e
  {
    hide DecodeEntry, Entry, Encodable, CanonicalStep;
    forall i | 0 <= i < |steps|
      ensures DecodeEntry(Entries(steps)[i]) == Some(CanonicalPlan(steps)[i]) && '|' !in Entries(steps)[i]
    {
      EntryRoundTrip(steps[i]);
    }
    assert DecodeEntries(Entries(steps)).value == CanonicalPlan(steps);
  }

  /** Decoding an encoded plan returns that plan with canonical amounts. */
  lemma DecodeOfEncode(steps: seq<PlanStep>)
    requires Encode(steps).Some?
    ensures Decode(Encode(steps).value) == Some(CanonicalPlan(steps))
  {
    hide DecodeEntries, Encodable, Entry, Split, Join;
    var entries := Entries(steps);
    var parts := [HANDOFF_VERSION] + entries;
    EntriesRoundTrip(steps);
    forall p | p in parts ensures '|' !in p {
      if p == HANDOFF_VERSION { } else { assert p in entries; }
    }
    SplitJoin(parts, '|');
    CanonicalPlanEntries(steps);
    assert parts[1..] == entries;
    JoinNonEmpty(parts);
  }

  lemma JoinNonEmpty(parts: seq<string>)
    requires |parts| >= 1 && parts[0] != ""
    ensures Join(parts, '|') != ""
  {
  }

  /** `decode` accepts exactly the image of `encode`, and then re-encodes to the same token. */
  lemma DecodeAcceptsImage(token: string)
    ensures Decode(token).Some? <==> exists steps :: Encode(steps) == Some(token)
    ensures Decode(token).Some? ==> Encode(Decode(token).value) == Some(token)
  {
    hide Encode, Split;
    if exists steps :: Encode(steps) == Some(token) {
      var steps :| Encode(steps) == Some(token);
      DecodeOfEncode(steps);
    }
  }

  /** Both texts are decimals and denote the same rational. */
  ghost predicate SameAmount(x: string, y: string) {
    IsDecimal(Trim(x)) && IsDecimal(Trim(y)) && SameRational(Trim(x), Trim(y))
  }

  /** The two plans name the same routes and denote the same rational amounts. */
  ghost predicate SamePlan(a: seq<PlanStep>, b: seq<PlanStep>) {
    && |a| == |b|
    && forall i :: 0 <= i < |a| ==> SameStep(a[i], b[i])
  }

  ghost predicate SameStep(a: PlanStep, b: PlanStep) {
    a.routeId == b.routeId && SameAmount(a.amountIn, b.amountIn)
  }

  lemma StepsAgree(a: PlanStep, b: PlanStep)
    requires Encodable(a) && Encodable(b)
    ensures CanonicalStep(a) == CanonicalStep(b) <==> SameStep(a, b)
  {
    hide Canonical, SameRational, Trim;
    CanonicalSpec(a.amountIn);
    CanonicalSpec(b.amountIn);
    CanonicalSeparates(a.amountIn, b.amountIn);
  }

  /** Two plans share a token exactly when they are the same plan. */
  lemma TokenIdentifiesPlan(a: seq<PlanStep>, b: seq<PlanStep>)
    requires Encode(a).Some? && Encode(b).Some?
    ensures Encode(a) == Encode(b) <==> SamePlan(a, b)
  {
    hide Encodable, Entry, Join, SameStep, CanonicalStep;
    var p, q := CanonicalPlan(a), CanonicalPlan(b);
    forall i | 0 <= i < |a| && i < |b| ensures p[i] == q[i] <==> SameStep(a[i], b[i]) {
      StepsAgree(a[i], b[i]);
    }
    DecodeOfEncode(a);
    DecodeOfEncode(b);
    CanonicalPlanEntries(a);
    CanonicalPlanEntries(b);
    if SamePlan(a, b) { assert p == q; }
  }

  /** At most 128 small letters, digits and hyphens, and no hyphen in front. */
  ghost predicate LegalId(id: string) {
    && id != "" && |id| < 129 && id[0] != '-'
    && forall c :: c in id ==> c == '-' || c in "abcdefghijklmnopqrstuvwxyz" || c in "0123456789"
  }

  lemma LegalChar(c: char)
    ensures IsIdChar(c) <==> c in "abcdefghijklmnopqrstuvwxyz" || c in "0123456789"
  {
  }

  lemma IdsAreLegal(id: string)
    ensures IsRouteId(id) <==> LegalId(id)
  {
    hide IsIdChar;
    forall c ensures IsIdChar(c) <==> c in "abcdefghijklmnopqrstuvwxyz" || c in "0123456789" { LegalChar(c); }
    if LegalId(id) {
      forall i | 0 <= i < |id| ensures IsIdChar(id[i]) || id[i] == '-' { assert id[i] in id; }
    }
  }

  /** A plan is printed exactly when it has 1 to 16 steps, of legal route ids and positive decimal amounts, and
      the text is at most 4096 characters: the version, then each step's id and canonical amount. */
  lemma EncodeExactly(steps: seq<PlanStep>, token: string)
    ensures Encode(steps) == Some(token) <==>
            && 1 <= |steps| <= 16 && |token| <= 4096
            && (forall i :: 0 <= i < |steps| ==>
                  && LegalId(steps[i].routeId)
                  && IsDecimal(Trim(steps[i].amountIn)) && Mantissa(Trim(steps[i].amountIn)) > 0)
            && token == "v1" + Printed(steps)
  {
    hide Canonical, IsRouteId, LegalId, Trim, Mantissa, Join;
    forall i | 0 <= i < |steps|
      ensures IsRouteId(steps[i].routeId) <==> LegalId(steps[i].routeId)
      ensures Canonical(steps[i].amountIn).Some? <==>
              IsDecimal(Trim(steps[i].amountIn)) && Mantissa(Trim(steps[i].amountIn)) > 0
    {
      CanonicalSpec(steps[i].amountIn);
      IdsAreLegal(steps[i].routeId);
    }
    if forall i :: 0 <= i < |steps| ==> Encodable(steps[i]) { JoinIsPrinted(HANDOFF_VERSION, steps); }
  }

  /** Each step behind a bar, its canonical amount behind an equals sign. */
  ghost function Printed(steps: seq<PlanStep>): string {
    if steps == [] then ""
    else "|" + steps[0].routeId + "=" + Canonical(steps[0].amountIn).GetOr("") + Printed(steps[1..])
  }

  lemma {:induction false} JoinIsPrinted(head: string, steps: seq<PlanStep>)
    requires forall i :: 0 <= i < |steps| ==> Encodable(steps[i])
    ensures Join([head] + Entries(steps), '|') == head + Printed(steps)
    decreases |steps|
  {
    hide IsRouteId, Canonical;
    var parts := [head] + Entries(steps);
    if steps != [] {
      var first := Entry(steps[0]);
      assert parts[1..] == [first] + Entries(steps[1..]);
      JoinIsPrinted(first, steps[1..]);
      assert head + "|" + (first + Printed(steps[1..])) == head + Printed(steps);
    }
  }
}
