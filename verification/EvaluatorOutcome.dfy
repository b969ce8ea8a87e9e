/**
 Exactly when a verdict ships: the verdict of every path out of the evaluator, in
 terms of the obligations and the response, and the sound verdicts that are kept.
 */
module EvaluatorOutcome {
  import opened Common
  import opened Values
  import opened Predicates
  import opened Grounding
  import opened Verifier
  import opened VerifierTheorems
  import opened Normalisation
  import opened Evaluator
  import opened EvaluatorTheorems

  // ----------------------------------------------------- what the report holds

  ghost predicate SomeUnaccountable(x: Input) {
    exists i :: 0 <= i < |x.slice.obligations| && Unaccountable(x.slice.obligations, x.m, i)
  }

  /** An obligation is breached, in matching units and under its own id. */
  ghost predicate SomeBreach(x: Input) {
    exists i :: 0 <= i < |x.slice.obligations| && OwnBreach(x.slice.obligations[i], x.m, x.t) &&
                !Unaccountable(x.slice.obligations, x.m, i)
  }

  /** A predicate outside the closed enumeration. */
  predicate SomeOutlawed(as_: seq<Assertion>) {
    exists i :: 0 <= i < |as_| && as_[i].pred.Outside?
  }

  ghost function SliceCall(x: Input, verdict: Verdict): Call {
    Call(AsyncCheck(x.t), verdict, Some(x.m), Some(SliceIndex(x)))
  }

  /** Every probe of the verifier is an obligation of the slice that keeps its id. */
  lemma ProbeIsObligation(x: Input, verdict: Verdict, p: Probe) returns (i: nat)
    requires p in Probes(SliceCall(x, verdict))
    ensures i < |x.slice.obligations| && Keeps(x.slice.obligations, i) && p.ob == x.slice.obligations[i]
    ensures Mapped(p.ob, x.m).Some? && p == OwnProbe(p.ob, x.m, p.id)
  {
    var obs := x.slice.obligations;
    EnumerateSound(SliceIndex(x), Some(x.m));
    IndexMembers(obs, |obs|);
    i :| 0 <= i < |obs| && Keeps(obs, i) && Indexed(p.id, p.ob) == Indexed(StringId(obs[i]).value, obs[i]);
  }

  lemma UnitsMeanUnaccountable(x: Input, verdict: Verdict, p: Probe)
    requires p in Probes(SliceCall(x, verdict)) && UnitsDiffer(p)
    ensures SomeUnaccountable(x)
  {
    var i := ProbeIsObligation(x, verdict, p);
    CheckIgnoresId(p.ob, x.m, x.t, p.id);
    assert Unaccountable(x.slice.obligations, x.m, i);
  }

  lemma HiddenMeansUnaccountable(x: Input)
    requires SliceHidden(x) != []
    ensures SomeUnaccountable(x)
  {
    var obs := x.slice.obligations;
    HiddenMembers(obs, Some(x.m), |obs|);
    var i := SliceHidden(x)[0];
    assert i in SliceHidden(x);
    assert Unaccountable(obs, x.m, i);
  }

  lemma BreachMeansObligation(x: Input, verdict: Verdict, p: Probe)
    requires p in Probes(SliceCall(x, verdict)) && Breached(SliceCall(x, verdict), p)
    ensures SomeBreach(x)
  {
    var i := ProbeIsObligation(x, verdict, p);
    CheckIgnoresId(p.ob, x.m, x.t, p.id);
    assert OwnBreach(x.slice.obligations[i], x.m, x.t) && !Unaccountable(x.slice.obligations, x.m, i);
  }

  lemma OutlawedMembers(as_: seq<Assertion>)
    ensures SomeOutlawed(as_) <==> exists a :: a in as_ && a.pred.Outside?
  {
  }

  /** The report fails closed exactly at an unaccountable obligation or an outlawed predicate. */
  lemma FailsClosedExactly(x: Input, verdict: Verdict, as_: seq<Assertion>)
    ensures SliceReport(x, verdict, as_).failClosed != [] <==> SomeUnaccountable(x) || SomeOutlawed(as_)
  {
    var c := SliceCall(x, verdict);
    ReportMeaning(c, as_);
    OutlawedMembers(as_);
    if i :| 0 <= i < |x.slice.obligations| && Unaccountable(x.slice.obligations, x.m, i) {
      ReportSeesObligation(x, verdict, as_, i);
    }
    if SliceHidden(x) != [] {
      HiddenMeansUnaccountable(x);
    }
    if p :| p in Probes(c) && UnitsDiffer(p) {
      UnitsMeanUnaccountable(x, verdict, p);
    }
  }

  /** The report lists a breach exactly if an accountable obligation is breached. */
  lemma BreachedExactly(x: Input, verdict: Verdict, as_: seq<Assertion>)
    ensures SliceReport(x, verdict, as_).breached != [] <==> SomeBreach(x)
  {
    var c := SliceCall(x, verdict);
    ReportMeaning(c, as_);
    var breached := ReportOf(c, as_).breached;
    assert SliceReport(x, verdict, as_).breached == breached;
    if breached != [] {
      assert breached[0] in breached;
      var p :| p in Probes(c) && Breached(c, p) && p.id == breached[0];
      BreachMeansObligation(x, verdict, p);
    }
    if i :| 0 <= i < |x.slice.obligations| && OwnBreach(x.slice.obligations[i], x.m, x.t) &&
            !Unaccountable(x.slice.obligations, x.m, i)
    {
      ReportSeesObligation(x, verdict, as_, i);
    }
  }

  // ---------------------------------------------------------- every path out

  /** The floor lets this verdict stand. */
  ghost predicate Stands(x: Input, v: Verdict, as_: seq<Assertion>) {
    match v
    case Clear => !SomeUnaccountable(x) && !SomeOutlawed(as_) && !SomeBreach(x)
    case NullUnmapped => !SomeUnaccountable(x) && !SomeOutlawed(as_) && !SomeBreach(x)
    case Flag => !SomeUnaccountable(x) && !SomeOutlawed(as_)
    case NullStale => true
    case Discretionary => true
  }

  lemma CorrectedOutlaws(as_: seq<Assertion>, m: Option<Measurement>, index: Option<Index>)
    ensures SomeOutlawed(CorrectAll(as_, m, index)) == SomeOutlawed(as_)
  {
    var corrected := CorrectAll(as_, m, index);
    assert forall i | 0 <= i < |as_| :: corrected[i].pred == as_[i].pred;
  }

  lemma FloorExactly(x: Input, verdict: Verdict, as_: seq<Assertion>, e: Envelope)
    ensures var v := EnforceFailClosed(e, SliceReport(x, verdict, as_)).verdict;
            v == if Stands(x, e.verdict, as_) then e.verdict else Discretionary
  {
    FailsClosedExactly(x, verdict, as_);
    BreachedExactly(x, verdict, as_);
  }

  /** A citation outside the slice: unmapped, unless the slice itself demands a human, or is not fresh. */
  lemma CitationPath(x: Input, policy: Policy)
    requires Invalid(x) != []
    ensures var gate := Gate(x.slice.obligations, x.m, x.t);
            Outcome(x, policy).verdict ==
            if gate.Some? then gate.value
            else if Stands(x, NullUnmapped, []) then NullUnmapped
            else Discretionary
  {
    FloorExactly(x, NullUnmapped, [], CitationEnvelope(Invalid(x), SliceReport(x, NullUnmapped, [])));
  }

  /** A response of the wrong shape goes to a human, unless the telemetry is stale. */
  lemma ContractPath(x: Input, policy: Policy)
    requires Invalid(x) == [] && x.response.parsed.None?
    ensures Outcome(x, policy).verdict ==
            if Gate(x.slice.obligations, x.m, x.t) == Some(NullStale) then NullStale else Discretionary
  {
  }

  /** A gate that is not silent decides, but never softens a staleness the guards established. */
  lemma GatedPath(x: Input, policy: Policy)
    requires Invalid(x) == [] && x.response.parsed.Some? && Gate(x.slice.obligations, x.m, x.t).Some?
    ensures Outcome(x, policy).verdict ==
            if Guarded(x, x.response.parsed.value).0.NullStale? then NullStale
            else Gate(x.slice.obligations, x.m, x.t).value
  {
  }

  /** Otherwise the policy's verdict ships exactly if the floor lets it stand. */
  lemma NormalPath(x: Input, policy: Policy)
    requires Invalid(x) == [] && x.response.parsed.Some? && Gate(x.slice.obligations, x.m, x.t).None?
    ensures var p := x.response.parsed.value;
            var v := policy(Draft(x, p)).verdict;
            Outcome(x, policy).verdict == if Stands(x, v, p.assertions) then v else Discretionary
  {
    var p := x.response.parsed.value;
    var as_ := CorrectAll(p.assertions, Some(x.m), Some(SliceIndex(x)));
    CorrectedOutlaws(p.assertions, Some(x.m), Some(SliceIndex(x)));
    FloorExactly(x, Guarded(x, p).0, as_, policy(Draft(x, p)));
  }

  lemma {:induction false} HiddenNamedAs(hidden: seq<nat>, i: nat)
    ensures HiddenObligation(i) in HiddenViolations(hidden) <==> i in hidden
  {
    if hidden != [] {
      HiddenNamedAs(hidden[1..], i);
      assert hidden == [hidden[0]] + hidden[1..];
    }
  }

  lemma {:induction false} NoneHiddenByTally(c: Call, as_: seq<Assertion>, asserted: set<string>, ps: seq<Probe>,
                                             i: nat)
    ensures HiddenObligation(i) !in TallyAssertions(c, as_).failClosed
    ensures HiddenObligation(i) !in TallyProbes(c, TallyAssertions(c, as_), asserted, ps).failClosed
    decreases |as_| + |ps|
  {
    if ps != [] {
      NoneHiddenByTally(c, as_, asserted, ps[..|ps| - 1], i);
    } else if as_ != [] {
      NoneHiddenByTally(c, as_[..|as_| - 1], asserted, [], i);
    }
  }

  /** An evaluable obligation the index cannot show is named by its position among the violations, and no other is. */
  lemma HiddenNamed(x: Input, verdict: Verdict, as_: seq<Assertion>, i: nat)
    requires i < |x.slice.obligations|
    ensures HiddenObligation(i) in SliceReport(x, verdict, as_).failClosed <==>
            Mapped(x.slice.obligations[i], x.m).Some? && !Keeps(x.slice.obligations, i)
  {
    var (c, obs) := (SliceCall(x, verdict), x.slice.obligations);
    NoneHiddenByTally(c, as_, Asserted(as_), Probes(c), i);
    HiddenNamedAs(SliceHidden(x), i);
    HiddenMembers(obs, Some(x.m), |obs|);
  }

  lemma {:induction false} FlagNotes(positions: seq<nat>, ids: seq<string>)
    ensures forall p :: FlagNormalised(p) in NoteFlags(positions) <==> p in positions
    ensures forall id :: IndependentCheck(id) in NoteChecks(ids) <==> id in ids
    ensures forall n | n in NoteFlags(positions) :: n.FlagNormalised?
    ensures forall n | n in NoteChecks(ids) :: n.IndependentCheck?
    decreases |positions| + |ids|
  {
    if positions != [] {
      FlagNotes(positions[1..], ids);
      assert positions == [positions[0]] + positions[1..];
    } else if ids != [] {
      FlagNotes(positions, ids[1..]);
      assert ids == [ids[0]] + ids[1..];
    }
  }

  /** The draft notes every flag that arithmetic corrected and every obligation the verifier checked on its own. */
  lemma DraftNotes(x: Input, p: Parsed)
    ensures forall i :: FlagNormalised(i) in Draft(x, p).notes <==>
              i in Corrections(p.assertions, Some(x.m), Some(SliceIndex(x)))
    ensures forall id :: IndependentCheck(id) in Draft(x, p).notes <==> id in ResponseReport(x, p).notes
  {
    FlagNotes(Corrections(p.assertions, Some(x.m), Some(SliceIndex(x))), ResponseReport(x, p).notes);
  }

  // ------------------------------------------------------ statuses, attestation

  lemma UnsettledReport(c: Call, as_: seq<Assertion>)
    requires Unsettled(c, as_)
    ensures ReportOf(c, as_).status in {LlmContradiction, Unverifiable}
  {
    StatusMeaning(c, as_);
  }

  lemma ClosedReport(c: Call, as_: seq<Assertion>)
    requires ReportOf(c, as_).failClosed != []
    ensures Unsettled(c, as_)
  {
    ReportMeaning(c, as_);
    if a :| a in as_ && a.pred.Outside? {
      assert !Settles(c, a);
    }
    if p :| p in Probes(c) && UnitsDiffer(p) {
      assert UnsettledAlone(c, Asserted(as_), p);
    }
  }

  /** A report that fails closed is never agreed, nor merely divergent. */
  lemma FailClosedIsUnsettled(x: Input, verdict: Verdict, as_: seq<Assertion>)
    requires SliceReport(x, verdict, as_).failClosed != []
    ensures SliceReport(x, verdict, as_).status in {LlmContradiction, Unverifiable}
  {
    var c := SliceCall(x, verdict);
    if ReportOf(c, as_).failClosed != [] {
      ClosedReport(c, as_);
      UnsettledReport(c, as_);
    }
  }

  lemma NothingAssertedStatus(x: Input)
    ensures SliceReport(x, NullUnmapped, []).status == if SomeBreach(x) then LlmContradiction else Unverifiable
  {
    var c := SliceCall(x, NullUnmapped);
    ReportMeaning(c, []);
    BreachedExactly(x, NullUnmapped, []);
    var breached := ReportOf(c, []).breached;
    assert SliceReport(x, NullUnmapped, []).breached == breached;
    if breached != [] {
      assert breached[0] in breached;
    }
    if p :| p in Probes(c) && Breached(c, p) {
      assert p.id in breached;
    }
  }

  /** On the way out for unknown citations the status tells a breach from everything else. */
  lemma CitationStatus(x: Input, policy: Policy)
    requires Invalid(x) != []
    ensures Outcome(x, policy).status == if SomeBreach(x) then LlmContradiction else Unverifiable
  {
    NothingAssertedStatus(x);
    BreachedExactly(x, NullUnmapped, []);
  }

  lemma {:induction false} DroppedMembers(ds: seq<Divergence>)
    ensures forall d :: d in DropNoAssertions(ds) <==> d in ds && !d.NoAssertions?
  {
    if ds != [] {
      DroppedMembers(ds[1..]);
      assert ds == [ds[0]] + ds[1..];
    }
  }

  lemma {:induction false} ProbeDivergencesOnly(c: Call, asserted: set<string>, ps: seq<Probe>)
    ensures forall d | d in TallyProbes(c, NOTHING, asserted, ps).divergences :: !d.InvalidCitation?
  {
    if ps != [] {
      ProbeDivergencesOnly(c, asserted, ps[..|ps| - 1]);
    }
  }

  lemma {:induction false} HiddenOnly(hidden: seq<nat>)
    ensures forall d | d in HiddenViolations(hidden) :: d.HiddenObligation?
  {
    if hidden != [] {
      HiddenOnly(hidden[1..]);
    }
  }

  lemma NoCitationInReport(x: Input)
    ensures forall d | d in SliceReport(x, NullUnmapped, []).divergences :: !d.InvalidCitation?
  {
    var c := SliceCall(x, NullUnmapped);
    ProbeDivergencesOnly(c, Asserted([]), Probes(c));
    HiddenOnly(SliceHidden(x));
  }

  /** The divergences on the way out for unknown citations: one per citation, and those of the verifier. */
  lemma CitationDivergences(x: Input, policy: Policy)
    requires Invalid(x) != []
    ensures Outcome(x, policy).divergences == CitationEnvelope(Invalid(x), SliceReport(x, NullUnmapped, [])).divergences
  {
  }

  lemma EnvelopeDivergences(invalid: seq<Divergence>, omitted: Report, d: Divergence)
    requires d.NoAssertions? ==> d !in invalid
    requires d.InvalidCitation? ==> d !in omitted.divergences
    ensures d.InvalidCitation? ==> (d in CitationEnvelope(invalid, omitted).divergences <==> d in invalid)
    ensures d.NoAssertions? ==> d !in CitationEnvelope(invalid, omitted).divergences
  {
    DroppedMembers(omitted.divergences);
  }

  /** Every unknown citation is named by its position; a discarded response is not blamed for asserting nothing. */
  lemma CitationsNamed(x: Input, policy: Policy, i: nat)
    requires Invalid(x) != [] && i < |x.response.cited|
    ensures InvalidCitation(i) in Outcome(x, policy).divergences <==> !KnownNode(x.slice, x.response.cited[i])
    ensures NoAssertions !in Outcome(x, policy).divergences
  {
    var known := Known(x.slice);
    InvalidMeans(known, x.response.cited, |x.response.cited|);
    NoCitationInReport(x);
    CitationDivergences(x, policy);
    EnvelopeDivergences(Invalid(x), SliceReport(x, NullUnmapped, []), InvalidCitation(i));
    EnvelopeDivergences(Invalid(x), SliceReport(x, NullUnmapped, []), NoAssertions);
    assert known(x.response.cited[i]) == KnownNode(x.slice, x.response.cited[i]);
  }

  lemma FloorKeepsStatus(e: Envelope, r: Report, freshness: Option<Verdict>)
    ensures EnforceFailClosed(e, r).status == e.status && ApplyFreshness(e, freshness).status == e.status
  {
  }

  /** Neither gate nor floor touches the status; it is the policy's, the report's or UNVERIFIABLE. */
  lemma StatusKept(x: Input, policy: Policy)
    requires Invalid(x) == []
    ensures Outcome(x, policy).status ==
            if x.response.parsed.None? then Unverifiable
            else if Gate(x.slice.obligations, x.m, x.t).Some? then ResponseReport(x, x.response.parsed.value).status
            else policy(Draft(x, x.response.parsed.value)).status
  {
    var gate := Gate(x.slice.obligations, x.m, x.t);
    if x.response.parsed.None? {
      FloorKeepsStatus(CONTRACT_ENVELOPE, SliceReport(x, NullUnmapped, []), gate);
    } else {
      var p := x.response.parsed.value;
      FloorKeepsStatus(Draft(x, p), ResponseReport(x, p), gate);
      FloorKeepsStatus(policy(Draft(x, p)), ResponseReport(x, p), gate);
    }
  }

  /** What the floor or the gate sends to a human carries the demand for attestation. */
  lemma HumanIsAsked(x: Input, policy: Policy)
    requires x.response.parsed.Some? && Invalid(x) == [] && Outcome(x, policy).verdict.Discretionary?
    ensures if Gate(x.slice.obligations, x.m, x.t).Some? then Outcome(x, policy).attestation
            else Outcome(x, policy).attestation || policy(Draft(x, x.response.parsed.value)).verdict.Discretionary?
  {
  }

  /** The last note of an envelope tells what the gate did to it. */
  ghost predicate NotedGate(e: Envelope, v: Verdict) {
    e.notes != [] && e.notes[|e.notes| - 1] == if e.verdict == v then FreshnessGate(v) else FreshnessKeptStale
  }

  lemma FreshnessNoted(e: Envelope, v: Verdict)
    ensures NotedGate(ApplyFreshness(e, Some(v)), v)
  {
  }

  /** A gate that speaks notes the verdict it gave, or that an established staleness was kept. */
  lemma GateIsNoted(x: Input, policy: Policy)
    requires Gate(x.slice.obligations, x.m, x.t).Some?
    ensures NotedGate(Outcome(x, policy), Gate(x.slice.obligations, x.m, x.t).value)
  {
    var v := Gate(x.slice.obligations, x.m, x.t).value;
    var omitted := SliceReport(x, NullUnmapped, []);
    FreshnessNoted(EnforceFailClosed(CitationEnvelope(Invalid(x), omitted), omitted), v);
    FreshnessNoted(CONTRACT_ENVELOPE, v);
    if x.response.parsed.Some? {
      FreshnessNoted(Draft(x, x.response.parsed.value), v);
    }
  }

  // ------------------------------------------------------- sound verdicts ship

  /** The response cites known nodes, has the contracted shape, and the telemetry is fresh. */
  ghost predicate Regular(x: Input) {
    && x.response.parsed.Some?
    && (forall i | 0 <= i < |x.response.cited| :: KnownNode(x.slice, x.response.cited[i]))
    && (forall i | 0 <= i < |x.slice.obligations| && DemandsSample(x.slice.obligations[i], x.m) ::
          SampleState(x.slice.obligations[i], x.t).Fresh?)
  }

  lemma RegularPath(x: Input)
    requires Regular(x)
    ensures Invalid(x) == [] && Gate(x.slice.obligations, x.m, x.t).None?
  {
    var known := Known(x.slice);
    InvalidMeans(known, x.response.cited, |x.response.cited|);
    assert forall i | 0 <= i < |x.response.cited| :: known(x.response.cited[i]);
    forall i | 0 <= i < |x.slice.obligations|
      ensures Gated(x.slice.obligations[i], x.m) <==> DemandsSample(x.slice.obligations[i], x.m)
    {
      GatedMeans(x.slice.obligations[i], x.m);
    }
  }

  /** The policy keeps the verdict of the draft. */
  ghost predicate Keeping(x: Input, policy: Policy)
    requires x.response.parsed.Some?
  {
    var draft := Draft(x, x.response.parsed.value);
    policy(draft).verdict == draft.verdict
  }

  /**
   The floor moves a kept verdict exactly if the report fails closed on a verdict
   that is not already a human's or stale, or an obligation is breached under a
   verdict that denies it.
   */
  lemma FloorActsExactly(x: Input, policy: Policy)
    requires Regular(x) && Keeping(x, policy)
    ensures var p := x.response.parsed.value;
            var v := Guarded(x, p).0;
            Outcome(x, policy).verdict != v <==>
            || ((SomeUnaccountable(x) || SomeOutlawed(p.assertions)) && v in {Clear, Flag, NullUnmapped})
            || (SomeBreach(x) && v in {Clear, NullUnmapped})
  {
    RegularPath(x);
    NormalPath(x, policy);
  }

  /** A flag is never second-guessed: on accountable obligations it ships, breached or not. */
  lemma FlagShips(x: Input, policy: Policy)
    requires Regular(x) && Keeping(x, policy) && x.response.parsed.value.verdict.Flag?
    requires !SomeUnaccountable(x) && !SomeOutlawed(x.response.parsed.value.assertions)
    ensures Outcome(x, policy).verdict == Flag
  {
    FloorActsExactly(x, policy);
  }

  /** A verdict of the model that leaves the decision open always ships. */
  lemma OpenVerdictShips(x: Input, policy: Policy)
    requires Regular(x) && Keeping(x, policy) && HumanOrStale(x.response.parsed.value.verdict)
    ensures Outcome(x, policy).verdict == x.response.parsed.value.verdict
  {
    FloorActsExactly(x, policy);
  }

  /** What a reading, or an asserted observation, must be for a predicate on numbers, and for any other. */
  predicate Usable(v: Val, p: Option<Predicate>) {
    && !v.Null?
    && (p in {Some(MustNotExceed), Some(MustBeAtLeast), Some(MustBeBelow), Some(MustBeAbove), Some(MustBeWithin)} ==>
          v.Int? || v.Float?)
  }

  /** The obligation, or the assertion, is judged by the current reading and not by a window. */
  predicate Current(p: Option<Predicate>, windowed: bool) {
    !windowed && p != Some(MustAverageWithin) && p != Some(MustNotExceedInWindow)
  }

  /** Every reading and every observation that is judged as it stands is usable. */
  predicate AllUsable(x: Input, as_: seq<Assertion>) {
    && (forall i | 0 <= i < |x.slice.obligations| ::
          var ob := x.slice.obligations[i];
          Current(ob.pred, !ob.window.Null?) && ob.metric.Str? && ob.metric.s in x.m ==>
            Usable(SplitUnit(x.m[ob.metric.s]).0, ob.pred))
    && (forall i | 0 <= i < |as_| ::
          Current(Some(as_[i].pred), as_[i].window.Some?) ==> Usable(SplitUnit(as_[i].observed).0, Some(as_[i].pred)))
  }

  lemma UsableIsNotSilent(x: Input, as_: seq<Assertion>)
    requires AllUsable(x, as_)
    ensures !Silent(x.slice.obligations, as_, x.m)
  {
  }

  /** A CLEAR that rests on assertions and readings, with nothing breached or unaccountable, ships. */
  lemma ClearShips(x: Input, policy: Policy)
    requires Regular(x) && Keeping(x, policy)
    requires x.response.parsed.value.verdict.Clear? && x.response.parsed.value.assertions != []
    requires AllUsable(x, x.response.parsed.value.assertions)
    requires !SomeUnaccountable(x) && !SomeOutlawed(x.response.parsed.value.assertions) && !SomeBreach(x)
    ensures Outcome(x, policy).verdict == Clear
  {
    UsableIsNotSilent(x, x.response.parsed.value.assertions);
    FloorActsExactly(x, policy);
  }

  /** CLEAR ships exactly if it is earned, every reading it rests on is there, and no predicate is outlawed. */
  lemma ClearExactly(x: Input, policy: Policy)
    requires OnlyLowers(policy) && x.response.parsed.Some? && Keeping(x, policy)
    ensures var as_ := x.response.parsed.value.assertions;
            Outcome(x, policy).verdict.Clear? <==>
            Earned(x) && !SomeOutlawed(as_) && !Silent(x.slice.obligations, as_, x.m)
  {
    if Outcome(x, policy).verdict.Clear? {
      ClearIsEarned(x, policy);
      ClearComesFromResponse(x, policy);
      NormalPath(x, policy);
    } else if Earned(x) {
      RegularPath(x);
      NormalPath(x, policy);
    }
  }

  // ------------------------------------------------- obligations in plain terms

  /** What the verifier computes for an obligation on a metric at the top of the record. */
  lemma OwnCheckMeans(ob: Obligation, m: Measurement, t: Telemetry, metric: string, p: Predicate)
    requires ob.metric == Str(metric) && metric in m && ob.pred == Some(p)
    ensures var window := if ob.window.Int? then Some(ob.window.i) else None;
            OwnBreach(ob, m, t) <==>
            match p
            case MustAverageWithin => CheckAverage(t, metric, window, ob.value) == Some(false)
            case MustNotExceedInWindow => CheckPeak(t, metric, window, ob.value) == Some(false)
            case SpecOnly(_) => false
            case Outside(_) => false
            case _ => Check(p, SplitUnit(m[metric]).0, ob.value) == Some(false)
  {
  }

  /** The reading of a metric is this number, bare or as the value of a reading with a unit. */
  predicate Reads(m: Measurement, metric: string, n: Val) {
    && IsReal(n) && metric in m
    && (m[metric] == n || (m[metric].Dict? && "value" in m[metric].entries && m[metric].entries["value"] == n))
  }

  /** Units are compared where both sides name one: a reading's unit against the obligation's. */
  lemma UnitsMean(ob: Obligation, m: Measurement, metric: string, reading: map<string, Val>)
    requires ob.metric == Str(metric) && ob.pred.Some? && Formalizable(ob.pred.value)
    requires metric in m && m[metric] == Dict(reading) && "value" in reading
    ensures InOtherUnits(ob, m) <==>
            "unit" in reading && !reading["unit"].Null? && !ob.unit.Null? && !PyEq(reading["unit"], ob.unit)
  {
  }

  /** A bare reading is never in other units. */
  lemma BareReadingHasNoUnit(ob: Obligation, m: Measurement, metric: string)
    requires ob.metric == Str(metric) && metric in m && !m[metric].Dict?
    ensures !InOtherUnits(ob, m)
  {
  }

  /** A cited id is known if it names an obligation or a definition of the slice. */
  lemma KnownMeans(slice: Slice, id: string)
    ensures KnownNode(slice, Str(id)) <==>
            (exists ob :: ob in slice.obligations && ob.id == Some(Str(id))) || Str(id) in slice.definitions
  {
    forall i | 0 <= i < |slice.obligations| && slice.obligations[i].id.Some?
      ensures PyEq(slice.obligations[i].id.value, Str(id)) <==> slice.obligations[i].id.value == Str(id)
    {
      EqualNormals(slice.obligations[i].id.value, Str(id));
    }
    forall i | 0 <= i < |slice.definitions|
      ensures PyEq(slice.definitions[i], Str(id)) <==> slice.definitions[i] == Str(id)
    {
      EqualNormals(slice.definitions[i], Str(id));
    }
  }

  /** What a buffer without has_fresh_sample says about the window it is asked for: entries, or a positive count. */
  predicate HoldsSample(w: WindowResult) {
    (w.Samples? && w.items != []) || (w.Aggregate? && w.count.Int? && w.count.i > 0)
  }

  /** What the gate needs before it asks the buffer. */
  predicate Askable(ob: Obligation, t: Telemetry) {
    ob.recent.Int? && ob.recent.i > 0 && t.buffer.Some? && t.subject.Some? && t.asOf.Some?
  }

  /** An obligation is fresh exactly on the buffer's word about its own subject, instant and window. */
  lemma FreshOnEvidence(ob: Obligation, t: Telemetry)
    ensures SampleState(ob, t).Fresh? <==>
            && Askable(ob, t)
            && var b := t.buffer.value;
               if b.hasFreshSample.Some? then b.hasFreshSample.value(t.subject.value, t.asOf.value, ob.recent.i).Fresh?
               else HoldsSample(b.window(t.subject.value, t.asOf.value, ob.recent.i, None))
  {
  }

  /** And stale exactly on its word to the contrary: an answer the gate cannot read is undecidable. */
  lemma StaleOnEvidence(ob: Obligation, t: Telemetry)
    ensures SampleState(ob, t).Stale? <==>
            && Askable(ob, t)
            && var b := t.buffer.value;
               if b.hasFreshSample.Some? then b.hasFreshSample.value(t.subject.value, t.asOf.value, ob.recent.i).Stale?
               else
                 var w := b.window(t.subject.value, t.asOf.value, ob.recent.i, None);
                 w.NoResult? || w == Samples([]) || (w.Aggregate? && w.count.Int? && w.count.i <= 0)
  {
  }

  /** The obligation caps the metric. */
  predicate Caps(ob: Obligation, metric: string, cap: Val) {
    ob.metric == Str(metric) && ob.pred == Some(MustNotExceed) && ob.value == cap && IsReal(cap)
  }

  /** One cap, one reading above it: whatever the model, the policy and the buffer say, it does not ship as clear. */
  lemma ExceededCapNeverShips(x: Input, policy: Policy, i: nat, metric: string, cap: Val, reading: Val)
    requires i < |x.slice.obligations| && Caps(x.slice.obligations[i], metric, cap)
    requires Reads(x.m, metric, reading) && RealOf(reading) > RealOf(cap)
    ensures Outcome(x, policy).verdict in {Flag, Discretionary, NullStale}
  {
    CapLaw(reading, cap, reading);
    OwnCheckMeans(x.slice.obligations[i], x.m, x.t, metric, MustNotExceed);
    EvaluatorTheorems.BreachFloor(x, policy, i);
  }

  /** Under a CLEAR every capped metric with a reading reads a number at or below its cap. */
  lemma ClearKeepsCaps(x: Input, policy: Policy, i: nat, metric: string, cap: Val)
    requires OnlyLowers(policy) && Outcome(x, policy).verdict.Clear?
    requires i < |x.slice.obligations| && Caps(x.slice.obligations[i], metric, cap)
    requires x.slice.obligations[i].window.Null? && metric in x.m
    ensures exists n :: Reads(x.m, metric, n) && RealOf(n) <= RealOf(cap)
  {
    ClearIsEarned(x, policy);
    var n := SplitUnit(x.m[metric]).0;
    assert !SilentObligation(x.slice.obligations[i], x.m);
    assert Reads(x.m, metric, n);
    if RealOf(n) > RealOf(cap) {
      ExceededCapNeverShips(x, policy, i, metric, cap, n);
    }
  }

  lemma NotSilentIsUsable(raw: Val, p: Option<Predicate>)
    requires !MissingReading(raw, p)
    ensures Usable(SplitUnit(raw).0, p)
  {
  }

  lemma NotSilentReading(ob: Obligation, m: Measurement)
    requires !SilentObligation(ob, m)
    ensures Current(ob.pred, !ob.window.Null?) && ob.metric.Str? && ob.metric.s in m ==>
              Usable(SplitUnit(m[ob.metric.s]).0, ob.pred)
  {
    if Current(ob.pred, !ob.window.Null?) && ob.metric.Str? && ob.metric.s in m {
      NotSilentIsUsable(m[ob.metric.s], ob.pred);
    }
  }

  lemma NotSilentObservation(a: Assertion)
    requires !SilentAssertion(a)
    ensures Current(Some(a.pred), a.window.Some?) ==> Usable(SplitUnit(a.observed).0, Some(a.pred))
  {
    if Current(Some(a.pred), a.window.Some?) {
      NotSilentIsUsable(a.observed, Some(a.pred));
    }
  }

  lemma NotSilentIsAllUsable(x: Input, as_: seq<Assertion>)
    requires !Silent(x.slice.obligations, as_, x.m)
    ensures AllUsable(x, as_)
  {
    var obs := x.slice.obligations;
    forall i | 0 <= i < |obs|
      ensures Current(obs[i].pred, !obs[i].window.Null?) && obs[i].metric.Str? && obs[i].metric.s in x.m ==>
                Usable(SplitUnit(x.m[obs[i].metric.s]).0, obs[i].pred)
    {
      NotSilentReading(obs[i], x.m);
    }
    forall i | 0 <= i < |as_|
      ensures Current(Some(as_[i].pred), as_[i].window.Some?) ==>
                Usable(SplitUnit(as_[i].observed).0, Some(as_[i].pred))
    {
      NotSilentObservation(as_[i]);
    }
  }

  /** Under a CLEAR no sensor is silent: every reading and every observation it may rest on is usable. */
  lemma ClearNeedsReadings(x: Input, policy: Policy)
    requires OnlyLowers(policy) && Outcome(x, policy).verdict.Clear?
    ensures x.response.parsed.Some? && AllUsable(x, x.response.parsed.value.assertions)
  {
    ClearComesFromResponse(x, policy);
    NotSilentIsAllUsable(x, x.response.parsed.value.assertions);
  }
}
