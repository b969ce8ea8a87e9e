/**
 The KG-grounded evaluator: an arbitrary model response passes the citation,
 contract, telemetry and freshness guards, the verifier, an arbitrary risk
 policy and the fail-closed floor.
 */
module Evaluator {
  import opened Common
  import opened Values
  import opened Predicates
  import opened Grounding
  import opened Verifier
  import opened Normalisation

  datatype Slice = Slice(obligations: seq<Obligation>, definitions: seq<Val>)   // definitions by id

  /** A response that passed the envelope schema. */
  datatype Parsed = Parsed(verdict: Verdict, assertions: seq<Assertion>, citations: nat)

  /** What the model returned: the node ids it cites, and the rest if it has the contracted shape. */
  datatype Response = Response(cited: seq<Val>, parsed: Option<Parsed>)

  datatype Input = Input(m: Measurement, slice: Slice, response: Response, t: Telemetry)

  datatype Note =
    | MissingTelemetryGuard
    | NothingAsserted(to: Verdict)
    | FlagNormalised(position: nat)
    | IndependentCheck(id: string)
    | FreshnessGate(to: Verdict)
    | FreshnessKeptStale
    | FailClosedFloor(violations: nat)
    | BreachFloor
    | TierCoerced                              // no recognised risk tier was declared
    | ForcedUnverifiable                       // the operator's override
    | TierDowngrade(tier: nat, status: Status)
    | TierAccepted(tier: nat, status: Status)

  datatype Envelope = Envelope(
    verdict: Verdict,
    assertions: seq<Assertion>,
    status: Status,
    checked: nat,
    divergences: seq<Divergence>,
    attestation: bool,            // human attestation is required
    notes: seq<Note>
  )

  /** A risk-tier policy: any function on envelopes, until a theorem says otherwise. */
  type Policy = Envelope -> Envelope

  // ------------------------------------------------------- missing telemetry

  predicate NumericPredicate(p: Predicate) {
    p in {MustNotExceed, MustBeAtLeast, MustBeBelow, MustBeAbove, MustBeWithin}
  }

  predicate MissingReading(raw: Val, p: Option<Predicate>) {
    var reading := if raw.Dict? && "value" in raw.entries then raw.entries["value"] else raw;
    reading.Null? || (p.Some? && NumericPredicate(p.value) && !IsReal(reading))
  }

  /** A mapped, non-windowed obligation without a usable reading. */
  predicate SilentObligation(ob: Obligation, m: Measurement) {
    && !(ob.pred.Some? && Stateful(ob.pred.value))
    && ob.window.Null?
    && ob.metric.Str? && ob.metric.s in m
    && MissingReading(m[ob.metric.s], ob.pred)
  }

  predicate SilentAssertion(a: Assertion) {
    a.window.None? && !Stateful(a.pred) && MissingReading(a.observed, Some(a.pred))
  }

  predicate Silent(obs: seq<Obligation>, as_: seq<Assertion>, m: Measurement) {
    || (exists i :: 0 <= i < |obs| && SilentObligation(obs[i], m))
    || (exists i :: 0 <= i < |as_| && SilentAssertion(as_[i]))
  }

  method MissingTelemetry(obs: seq<Obligation>, as_: seq<Assertion>, m: Measurement) returns (found: bool)
    ensures found == Silent(obs, as_, m)
  {
    found := false;
    var i := 0;
    while i < |obs|
      invariant 0 <= i <= |obs|
      invariant found <==> exists j :: 0 <= j < i && SilentObligation(obs[j], m)
    {
      if SilentObligation(obs[i], m) {
        found := true;
      }
      i := i + 1;
    }
    var k := 0;
    while k < |as_|
      invariant 0 <= k <= |as_|
      invariant found <==> (exists j :: 0 <= j < |obs| && SilentObligation(obs[j], m)) ||
                           (exists j :: 0 <= j < k && SilentAssertion(as_[j]))
    {
      if SilentAssertion(as_[k]) {
        found := true;
      }
      k := k + 1;
    }
  }

  // ---------------------------------------------------------- freshness gate

  /** A mapped obligation that demands a recent sample. */
  predicate Gated(ob: Obligation, m: Measurement) {
    !ob.recent.Null? && ob.metric.Str? && ob.metric.s in m
  }

  /** Is there a sample within the obligation's window? FreshnessFailed: undecidable. */
  function SampleState(ob: Obligation, t: Telemetry): Freshness {
    if !ob.recent.Int? || ob.recent.i <= 0 then FreshnessFailed
    else if t.buffer.None? || t.subject.None? || t.asOf.None? then FreshnessFailed
    else
      var (b, subject, asOf, seconds) := (t.buffer.value, t.subject.value, t.asOf.value, ob.recent.i);
      if b.hasFreshSample.Some? then b.hasFreshSample.value(subject, asOf, seconds)
      else
        match b.window(subject, asOf, seconds, None)
        case NoResult => Stale
        case Samples(items) => if items != [] then Fresh else Stale
        case Aggregate(count, _, _) =>
          if !count.Int? then FreshnessFailed else if count.i > 0 then Fresh else Stale
        case _ => FreshnessFailed
  }

  predicate AnyGated(obs: seq<Obligation>, m: Measurement, t: Telemetry, state: Freshness) {
    exists i :: 0 <= i < |obs| && Gated(obs[i], m) && SampleState(obs[i], t) == state
  }

  /** A stale obligation wins over an undecidable one; None when all are fresh. */
  function Gate(obs: seq<Obligation>, m: Measurement, t: Telemetry): Option<Verdict> {
    if AnyGated(obs, m, t, Stale) then Some(NullStale)
    else if AnyGated(obs, m, t, FreshnessFailed) then Some(Discretionary)
    else None
  }

  method RunFreshnessGate(obs: seq<Obligation>, m: Measurement, t: Telemetry) returns (outcome: Option<Verdict>)
    ensures outcome == Gate(obs, m, t)
    ensures outcome.None? <==> forall i | 0 <= i < |obs| && Gated(obs[i], m) :: SampleState(obs[i], t).Fresh?
  {
    var stale: seq<nat>, undecidable: seq<nat> := [], [];
    var i := 0;
    while i < |obs|
      invariant 0 <= i <= |obs|
      invariant stale != [] <==> exists j :: 0 <= j < i && Gated(obs[j], m) && SampleState(obs[j], t) == Stale
      invariant undecidable != [] <==>
                exists j :: 0 <= j < i && Gated(obs[j], m) && SampleState(obs[j], t) == FreshnessFailed
    {
      if Gated(obs[i], m) {
        var state := SampleState(obs[i], t);
        if state.FreshnessFailed? {
          undecidable := undecidable + [i];
        } else if state.Stale? {
          stale := stale + [i];
        }
      }
      i := i + 1;
    }
    outcome := if stale != [] then Some(NullStale) else if undecidable != [] then Some(Discretionary) else None;
  }

  /** _apply_freshness: an established NULL_STALE is never softened. */
  function ApplyFreshness(e: Envelope, outcome: Option<Verdict>): Envelope {
    if outcome.None? then e
    else if outcome.value.Discretionary? && e.verdict.NullStale? then e.(notes := e.notes + [FreshnessKeptStale])
    else e.(verdict := outcome.value,
            notes := e.notes + [FreshnessGate(outcome.value)],
            attestation := e.attestation || outcome.value.Discretionary?)
  }

  // --------------------------------------------------------- fail-closed floor

  /** _enforce_fail_closed: the last word on every envelope the verifier saw. */
  function EnforceFailClosed(e: Envelope, r: Report): Envelope {
    var closed := r.failClosed != [] && !e.verdict.Discretionary? && !e.verdict.NullStale?;
    var floor := r.breached != [] && Unflagged(e.verdict);
    if !closed && !floor then e
    else e.(verdict := Discretionary,
            notes := e.notes + (if closed then [FailClosedFloor(|r.failClosed|)] else []) +
                     (if floor then [BreachFloor] else []),
            attestation := true)
  }

  // ------------------------------------------------------------------ evaluate

  predicate KnownNode(slice: Slice, id: Val) {
    || (exists i :: 0 <= i < |slice.obligations| && slice.obligations[i].id.Some? &&
                    PyEq(slice.obligations[i].id.value, id))
    || (exists i :: 0 <= i < |slice.definitions| && PyEq(slice.definitions[i], id))
  }

  function Known(slice: Slice): Val -> bool {
    (id: Val) => KnownNode(slice, id)
  }

  function InvalidCitations(known: Val -> bool, cited: seq<Val>, n: nat): seq<Divergence>
    requires n <= |cited|
  {
    if n == 0 then []
    else InvalidCitations(known, cited, n - 1) + if known(cited[n - 1]) then [] else [InvalidCitation(n - 1)]
  }

  function HiddenViolations(hidden: seq<nat>): (vs: seq<Divergence>)
    ensures |vs| == |hidden|
  {
    if hidden == [] then [] else [HiddenObligation(hidden[0])] + HiddenViolations(hidden[1..])
  }

  function DropNoAssertions(ds: seq<Divergence>): seq<Divergence> {
    if ds == [] then []
    else (if ds[0].NoAssertions? then [] else [ds[0]]) + DropNoAssertions(ds[1..])
  }

  function NoteChecks(ids: seq<string>): seq<Note> {
    if ids == [] then [] else [IndependentCheck(ids[0])] + NoteChecks(ids[1..])
  }

  function NoteFlags(positions: seq<nat>): seq<Note> {
    if positions == [] then [] else [FlagNormalised(positions[0])] + NoteFlags(positions[1..])
  }

  /** The verifier's report on a slice, with what the index would hide failed closed. */
  ghost function SliceReport(x: Input, verdict: Verdict, as_: seq<Assertion>): Report {
    WithFailClosed(
      ReportOf(Call(AsyncCheck(x.t), verdict, Some(x.m), Some(SliceIndex(x))), as_),
      HiddenViolations(SliceHidden(x)))
  }

  ghost function SliceIndex(x: Input): Index {
    IndexUpTo(x.slice.obligations, |x.slice.obligations|)
  }

  ghost function SliceHidden(x: Input): seq<nat> {
    HiddenUpTo(x.slice.obligations, Some(x.m), |x.slice.obligations|)
  }

  function Invalid(x: Input): seq<Divergence> {
    InvalidCitations(Known(x.slice), x.response.cited, |x.response.cited|)
  }

  /** The envelope for a response that cites nodes outside the slice. */
  function CitationEnvelope(invalid: seq<Divergence>, omitted: Report): Envelope {
    if omitted.breached != [] || omitted.failClosed != [] then
      Envelope(NullUnmapped, [], if omitted.status.LlmContradiction? then LlmContradiction else Unverifiable,
               omitted.checked, invalid + DropNoAssertions(omitted.divergences), false, [])
    else Envelope(NullUnmapped, [], Unverifiable, 0, invalid, false, [])
  }

  const CONTRACT_ENVELOPE: Envelope := Envelope(Discretionary, [], Unverifiable, 0, [OutputContract], false, [])

  /** CLEAR rests on telemetry, and on at least one assertion. */
  function GuardVerdict(p: Parsed, silent: bool): (Verdict, seq<Note>) {
    if !p.verdict.Clear? then (p.verdict, [])
    else if silent then (NullStale, [MissingTelemetryGuard])
    else if p.assertions == [] then
      var to := if p.citations == 0 then NullUnmapped else Discretionary;
      (to, [NothingAsserted(to)])
    else (p.verdict, [])
  }

  method RunGuards(obs: seq<Obligation>, p: Parsed, m: Measurement) returns (verdict: Verdict, notes: seq<Note>)
    ensures (verdict, notes) == GuardVerdict(p, Silent(obs, p.assertions, m))
  {
    verdict, notes := p.verdict, [];
    if verdict.Clear? {
      var silent := MissingTelemetry(obs, p.assertions, m);
      if silent {
        notes := notes + [MissingTelemetryGuard];
        assert notes == [MissingTelemetryGuard];
        verdict := NullStale;
      }
    }
    if verdict.Clear? && p.assertions == [] {
      var remapped := if p.citations == 0 then NullUnmapped else Discretionary;
      notes := notes + [NothingAsserted(remapped)];
      assert notes == [NothingAsserted(remapped)];
      verdict := remapped;
    }
  }

  ghost function Guarded(x: Input, p: Parsed): (Verdict, seq<Note>) {
    GuardVerdict(p, Silent(x.slice.obligations, p.assertions, x.m))
  }

  /** The report on a well-shaped response, after guards and normalisation. */
  ghost function ResponseReport(x: Input, p: Parsed): Report {
    SliceReport(x, Guarded(x, p).0, CorrectAll(p.assertions, Some(x.m), Some(SliceIndex(x))))
  }

  /** The envelope of a well-shaped response before freshness, policy and floor. */
  ghost function Draft(x: Input, p: Parsed): Envelope {
    var r := ResponseReport(x, p);
    Envelope(Guarded(x, p).0, CorrectAll(p.assertions, Some(x.m), Some(SliceIndex(x))), r.status, r.checked,
             r.divergences, false,
             Guarded(x, p).1 + NoteFlags(Corrections(p.assertions, Some(x.m), Some(SliceIndex(x)))) +
             NoteChecks(r.notes))
  }

  /** The four ways out of the evaluator. */
  ghost function Outcome(x: Input, policy: Policy): Envelope {
    var freshness := Gate(x.slice.obligations, x.m, x.t);
    if Invalid(x) != [] then
      var omitted := SliceReport(x, NullUnmapped, []);
      ApplyFreshness(EnforceFailClosed(CitationEnvelope(Invalid(x), omitted), omitted), freshness)
    else if x.response.parsed.None? then ApplyFreshness(CONTRACT_ENVELOPE, freshness)
    else
      var p := x.response.parsed.value;
      if freshness.Some? then ApplyFreshness(Draft(x, p), freshness)
      else EnforceFailClosed(policy(Draft(x, p)), ResponseReport(x, p))
  }

  method RunVerifier(x: Input, verdict: Verdict, as_: seq<Assertion>, index: Index, violations: seq<Divergence>)
    returns (r: Report)
    requires index == SliceIndex(x) && violations == HiddenViolations(SliceHidden(x))
    ensures r == SliceReport(x, verdict, as_)
  {
    r := Verify(Call(AsyncCheck(x.t), verdict, Some(x.m), Some(index)), as_);
    r := WithFailClosed(r, violations);
  }

  method RunDraft(x: Input, p: Parsed, index: Index, violations: seq<Divergence>) returns (e: Envelope, r: Report)
    requires index == SliceIndex(x) && violations == HiddenViolations(SliceHidden(x))
    ensures e == Draft(x, p) && r == ResponseReport(x, p)
  {
    var verdict, notes := RunGuards(x.slice.obligations, p, x.m);
    var assertions, positions := NormalizeSatisfied(p.assertions, Some(x.m), Some(index));
    r := RunVerifier(x, verdict, assertions, index, violations);
    e := Envelope(verdict, assertions, r.status, r.checked, r.divergences, false,
                  notes + NoteFlags(positions) + NoteChecks(r.notes));
  }

  /** aevaluate: response in, envelope out, for any risk policy. */
  method Evaluate(x: Input, policy: Policy) returns (e: Envelope)
    ensures e == Outcome(x, policy)
  {
    var freshness := RunFreshnessGate(x.slice.obligations, x.m, x.t);
    var invalid := Invalid(x);
    var index, hidden := IndexObligations(x.slice.obligations, Some(x.m));
    var violations := HiddenViolations(hidden);
    if invalid != [] {
      var omitted := RunVerifier(x, NullUnmapped, [], index, violations);
      e := EnforceFailClosed(CitationEnvelope(invalid, omitted), omitted);
      return ApplyFreshness(e, freshness);
    }
    if x.response.parsed.None? {
      return ApplyFreshness(CONTRACT_ENVELOPE, freshness);
    }
    var report;
    e, report := RunDraft(x, x.response.parsed.value, index, violations);
    if freshness.Some? {
      return ApplyFreshness(e, freshness);
    }
    e := EnforceFailClosed(policy(e), report);
  }
}
