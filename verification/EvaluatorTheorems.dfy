/** What no model, policy or buffer can talk the evaluator out of. */
module EvaluatorTheorems {
  import opened Common
  import opened Values
  import opened Predicates
  import opened Grounding
  import opened Verifier
  import opened VerifierTheorems
  import opened Normalisation
  import opened Evaluator

  /** The verifier's own evaluation of an obligation, wherever the index puts it. */
  function OwnProbe(ob: Obligation, m: Measurement, id: string): Probe
    requires Mapped(ob, m).Some?
  {
    Probe(id, ob, Mapped(ob, m).value)
  }

  predicate OwnBreach(ob: Obligation, m: Measurement, t: Telemetry) {
    Mapped(ob, m).Some? && AsyncCheck(t)(ProbeAssertion(OwnProbe(ob, m, ""))) == Some(false)
  }

  predicate InOtherUnits(ob: Obligation, m: Measurement) {
    Mapped(ob, m).Some? && UnitsDiffer(OwnProbe(ob, m, ""))
  }

  /** The verifier cannot stand behind this reading: other units, or an entry its index hides. */
  ghost predicate Unaccountable(obs: seq<Obligation>, m: Measurement, i: nat)
    requires i < |obs|
  {
    Mapped(obs[i], m).Some? && (InOtherUnits(obs[i], m) || !Keeps(obs, i))
  }

  lemma CheckIgnoresId(ob: Obligation, m: Measurement, t: Telemetry, id: string)
    requires Mapped(ob, m).Some?
    ensures AsyncCheck(t)(ProbeAssertion(OwnProbe(ob, m, id))) == AsyncCheck(t)(ProbeAssertion(OwnProbe(ob, m, "")))
    ensures UnitsDiffer(OwnProbe(ob, m, id)) == UnitsDiffer(OwnProbe(ob, m, ""))
  {
  }

  /** Every evaluable obligation reaches the report: by its own probe, or as a hidden one. */
  lemma ReportSeesObligation(x: Input, verdict: Verdict, as_: seq<Assertion>, i: nat)
    requires i < |x.slice.obligations|
    ensures Unaccountable(x.slice.obligations, x.m, i) ==> SliceReport(x, verdict, as_).failClosed != []
    ensures OwnBreach(x.slice.obligations[i], x.m, x.t) && !Unaccountable(x.slice.obligations, x.m, i) ==>
              SliceReport(x, verdict, as_).breached != []
  {
    var (obs, m) := (x.slice.obligations, x.m);
    if Mapped(obs[i], m).Some? {
      var c := Call(AsyncCheck(x.t), verdict, Some(m), Some(SliceIndex(x)));
      NothingLost(obs, m, i);
      ReportMeaning(c, as_);
      if Keeps(obs, i) {
        var p := OwnProbe(obs[i], m, StringId(obs[i]).value);
        assert p in Probes(c);
        CheckIgnoresId(obs[i], m, x.t, p.id);
        if OwnBreach(obs[i], m, x.t) && !InOtherUnits(obs[i], m) {
          assert Breached(c, p);
          assert p.id in ReportOf(c, as_).breached;
        }
      }
    }
  }

  predicate HumanOrStale(v: Verdict) {
    v.Discretionary? || v.NullStale?
  }

  /** The floor: nothing breached ships as CLEAR or NULL_UNMAPPED, nothing unaccountable ships as a decision. */
  lemma FloorHolds(e: Envelope, r: Report)
    ensures r.breached != [] ==> !Unflagged(EnforceFailClosed(e, r).verdict)
    ensures r.failClosed != [] ==> HumanOrStale(EnforceFailClosed(e, r).verdict)
    ensures EnforceFailClosed(e, r).verdict != e.verdict ==>
              EnforceFailClosed(e, r).verdict.Discretionary? && EnforceFailClosed(e, r).attestation
  {
  }

  /** The gate only ever moves a verdict to NULL_STALE or DISCRETIONARY. */
  lemma GateIsFinal(e: Envelope, x: Input)
    ensures var o := Gate(x.slice.obligations, x.m, x.t);
            var v := ApplyFreshness(e, o).verdict;
            if o.Some? then HumanOrStale(v) else v == e.verdict
  {
  }

  /**
   Breach floor: for every response, policy, measurement and buffer, an
   obligation the verifier evaluates as breached -- whatever its id -- never
   ships as CLEAR or NULL_UNMAPPED.
   */
  lemma BreachFloor(x: Input, policy: Policy, i: nat)
    requires i < |x.slice.obligations| && OwnBreach(x.slice.obligations[i], x.m, x.t)
    ensures Outcome(x, policy).verdict in {Flag, Discretionary, NullStale}
  {
    ReportSeesObligation(x, NullUnmapped, [], i);
    var omitted := SliceReport(x, NullUnmapped, []);
    FloorHolds(CitationEnvelope(Invalid(x), omitted), omitted);
    GateIsFinal(EnforceFailClosed(CitationEnvelope(Invalid(x), omitted), omitted), x);
    GateIsFinal(CONTRACT_ENVELOPE, x);
    if Invalid(x) == [] && x.response.parsed.Some? {
      var p := x.response.parsed.value;
      ReportSeesObligation(x, Guarded(x, p).0, CorrectAll(p.assertions, Some(x.m), Some(SliceIndex(x))), i);
      GateIsFinal(Draft(x, p), x);
      FloorHolds(policy(Draft(x, p)), ResponseReport(x, p));
    }
  }

  /** A reading in other units, or an obligation hidden by its id, always goes to a human or is stale. */
  lemma UnaccountableGoesToHuman(x: Input, policy: Policy, i: nat)
    requires i < |x.slice.obligations| && Unaccountable(x.slice.obligations, x.m, i)
    ensures HumanOrStale(Outcome(x, policy).verdict)
  {
    ReportSeesObligation(x, NullUnmapped, [], i);
    var omitted := SliceReport(x, NullUnmapped, []);
    FloorHolds(CitationEnvelope(Invalid(x), omitted), omitted);
    GateIsFinal(EnforceFailClosed(CitationEnvelope(Invalid(x), omitted), omitted), x);
    GateIsFinal(CONTRACT_ENVELOPE, x);
    if Invalid(x) == [] && x.response.parsed.Some? {
      var p := x.response.parsed.value;
      ReportSeesObligation(x, Guarded(x, p).0, CorrectAll(p.assertions, Some(x.m), Some(SliceIndex(x))), i);
      GateIsFinal(Draft(x, p), x);
      FloorHolds(policy(Draft(x, p)), ResponseReport(x, p));
    }
  }

  // ------------------------------------------------------------ CLEAR is earned

  /** The policy keeps a verdict or lowers it to DISCRETIONARY. */
  ghost predicate OnlyLowers(policy: Policy) {
    forall e :: policy(e).verdict == e.verdict || policy(e).verdict.Discretionary?
  }

  lemma {:induction false} InvalidMeans(known: Val -> bool, cited: seq<Val>, n: nat)
    requires n <= |cited|
    ensures InvalidCitations(known, cited, n) == [] <==> forall i | 0 <= i < n :: known(cited[i])
    ensures forall d :: d in InvalidCitations(known, cited, n) <==>
              d.InvalidCitation? && d.index < n && !known(cited[d.index])
  {
    if n > 0 {
      InvalidMeans(known, cited, n - 1);
    }
  }

  lemma CitationsKnown(x: Input)
    requires Invalid(x) == []
    ensures forall i | 0 <= i < |x.response.cited| :: KnownNode(x.slice, x.response.cited[i])
  {
    var known := Known(x.slice);
    InvalidMeans(known, x.response.cited, |x.response.cited|);
    forall i | 0 <= i < |x.response.cited| ensures KnownNode(x.slice, x.response.cited[i]) {
      assert known(x.response.cited[i]);
    }
  }

  /** The obligation speaks of a metric in the record and, well formed or not, of how recent a sample must be. */
  predicate DemandsSample(ob: Obligation, m: Measurement) {
    ob.recent != Null && ob.metric in (set name | name in m :: Str(name))
  }

  lemma GatedMeans(ob: Obligation, m: Measurement)
    ensures Gated(ob, m) <==> DemandsSample(ob, m)
  {
  }

  /** What a final CLEAR proves about the response and the slice. */
  ghost predicate Earned(x: Input) {
    && x.response.parsed.Some?
    && x.response.parsed.value.verdict.Clear?
    && x.response.parsed.value.assertions != []
    && (forall i | 0 <= i < |x.response.cited| :: KnownNode(x.slice, x.response.cited[i]))
    && (forall i | 0 <= i < |x.slice.obligations| && DemandsSample(x.slice.obligations[i], x.m) ::
          SampleState(x.slice.obligations[i], x.t).Fresh?)
    && (forall i | 0 <= i < |x.slice.obligations| :: !SilentObligation(x.slice.obligations[i], x.m))
    && (forall i | 0 <= i < |x.slice.obligations| ::
          !OwnBreach(x.slice.obligations[i], x.m, x.t) && !Unaccountable(x.slice.obligations, x.m, i))
  }

  lemma ClearComesFromResponse(x: Input, policy: Policy)
    requires OnlyLowers(policy) && Outcome(x, policy).verdict.Clear?
    ensures Gate(x.slice.obligations, x.m, x.t).None? && Invalid(x) == [] && x.response.parsed.Some?
    ensures x.response.parsed.value.verdict.Clear? && x.response.parsed.value.assertions != []
    ensures !Silent(x.slice.obligations, x.response.parsed.value.assertions, x.m)
  {
    var omitted := SliceReport(x, NullUnmapped, []);
    GateIsFinal(EnforceFailClosed(CitationEnvelope(Invalid(x), omitted), omitted), x);
    GateIsFinal(CONTRACT_ENVELOPE, x);
    if Invalid(x) == [] && x.response.parsed.Some? {
      GateIsFinal(Draft(x, x.response.parsed.value), x);
    }
  }

  /** CLEAR is earned: under any policy that only keeps or lowers verdicts. */
  lemma ClearIsEarned(x: Input, policy: Policy)
    requires OnlyLowers(policy) && Outcome(x, policy).verdict.Clear?
    ensures Earned(x)
  {
    ClearComesFromResponse(x, policy);
    CitationsKnown(x);
    var obs := x.slice.obligations;
    forall i | 0 <= i < |obs| ensures !OwnBreach(obs[i], x.m, x.t) && !Unaccountable(obs, x.m, i) {
      if OwnBreach(obs[i], x.m, x.t) {
        BreachFloor(x, policy, i);
      }
      if Unaccountable(obs, x.m, i) {
        UnaccountableGoesToHuman(x, policy, i);
      }
    }
    forall i | 0 <= i < |obs| && DemandsSample(obs[i], x.m) ensures SampleState(obs[i], x.t).Fresh? {
      GatedMeans(obs[i], x.m);
      assert !AnyGated(obs, x.m, x.t, Stale) && !AnyGated(obs, x.m, x.t, FreshnessFailed);
      assert SampleState(obs[i], x.t) != Stale && SampleState(obs[i], x.t) != FreshnessFailed;
    }
    forall i | 0 <= i < |obs| ensures !SilentObligation(obs[i], x.m) {
    }
  }
}
