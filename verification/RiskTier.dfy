/** The risk-tier policy the runtime applies, and what a CLEAR means under it. */
module RiskTier {
  import opened Common
  import opened Predicates
  import opened Grounding
  import opened Verifier
  import opened VerifierTheorems
  import opened Normalisation
  import opened Evaluator
  import opened EvaluatorTheorems
  import opened EvaluatorOutcome

  datatype Tier = Tier1 | Tier2 | Tier3

  const ALIASES: map<string, Tier> := map[
    "tier-1" := Tier1, "tier1" := Tier1, "high" := Tier1, "high-risk" := Tier1,
    "tier-2" := Tier2, "tier2" := Tier2, "standard" := Tier2, "default" := Tier2, "medium" := Tier2,
    "tier-3" := Tier3, "tier3" := Tier3, "low" := Tier3, "low-risk" := Tier3]

  /** The tier that applies, and whether it stands in for an absent or unrecognised one. */
  datatype Resolved = Resolved(tier: Tier, coerced: bool)

  /** _normalise_tier: an absent or unrecognised tier is tier-1. fold is str.strip().lower(). */
  function NormaliseTier(fold: string -> string, declared: Option<string>): Resolved {
    if declared.None? || fold(declared.value) !in ALIASES then Resolved(Tier1, true)
    else Resolved(ALIASES[fold(declared.value)], false)
  }

  /** The spellings of a tier: its number behind "tier" or "tier-", or one of its words. */
  lemma AliasesMean(name: string)
    ensures name in ALIASES && ALIASES[name] == Tier1 <==> name in {"tier1", "tier-1", "high", "high-risk"}
    ensures name in ALIASES && ALIASES[name] == Tier3 <==> name in {"tier3", "tier-3", "low", "low-risk"}
    ensures name in ALIASES && ALIASES[name] == Tier2 <==> name in {"tier2", "tier-2", "standard", "default", "medium"}
  {
  }

  function Rank(tier: Tier): nat {
    match tier
    case Tier1 => 1
    case Tier2 => 2
    case Tier3 => 3
  }

  function Noted(e: Envelope, note: Note): Envelope {
    e.(notes := e.notes + [note])
  }

  function Downgrade(e: Envelope, attest: bool): Envelope {
    e.(verdict := Discretionary, attestation := e.attestation || attest)
  }

  /** apply_risk_policy; force is SKI_FORCE_DISCRETIONARY_ON_UNVERIFIABLE. */
  function Apply(t: Resolved, force: bool, e: Envelope): Envelope {
    var noted := if t.coerced then Noted(e, TierCoerced) else e;
    var downgraded := Noted(noted, TierDowngrade(Rank(t.tier), e.status));
    var accepted := Noted(noted, TierAccepted(Rank(t.tier), e.status));
    if e.status.Agreed? then noted
    else if e.status.Unverifiable? && force then Downgrade(Noted(noted, ForcedUnverifiable), true)
    else
      match t.tier
      case Tier1 => Downgrade(downgraded, true)
      case Tier2 =>
        if e.status.Unverifiable? then accepted
        else if !e.attestation then Downgrade(downgraded, true)
        else e
      case Tier3 => if e.status.LlmContradiction? then Downgrade(downgraded, false) else accepted
  }

  function RiskPolicy(t: Resolved, force: bool): Policy {
    (e: Envelope) => Apply(t, force, e)
  }

  lemma RiskPolicyOnlyLowers(tier: Resolved, force: bool)
    ensures OnlyLowers(RiskPolicy(tier, force))
  {
  }

  /** What a CLEAR proves about the assertions the verifier saw. */
  ghost predicate Verified(x: Input, as_: seq<Assertion>) {
    && (forall i | 0 <= i < |as_| :: as_[i].satisfied && Grounded(as_[i], Some(x.m), Some(SliceIndex(x))))
    && (forall i | 0 <= i < |as_| && !Stateful(as_[i].pred) ::
          Check(as_[i].pred, as_[i].observed, as_[i].value) != Some(false))
  }

  lemma UncontradictedClear(c: Call, t: Telemetry, a: Assertion)
    requires c.check == AsyncCheck(t) && c.verdict.Clear? && !Contradicts(c, a) && !a.pred.Outside?
    ensures a.satisfied && Grounded(a, c.m, c.index)
    ensures !Stateful(a.pred) ==> Check(a.pred, a.observed, a.value) != Some(false)
  {
  }

  /** What the floor and the policy let through as CLEAR. */
  lemma ClearPassesFloor(d: Envelope, r: Report, tier: Resolved, force: bool)
    requires d.status == r.status && !d.attestation
    requires EnforceFailClosed(Apply(tier, force, d), r).verdict.Clear?
    ensures d.verdict.Clear? && r.failClosed == [] && !r.status.LlmContradiction?
    ensures tier.tier == Tier1 ==> r.status.Agreed?
  {
  }

  lemma ClearReport(x: Input, tier: Resolved, force: bool, p: Parsed)
    requires Outcome(x, RiskPolicy(tier, force)).verdict.Clear? && x.response.parsed == Some(p)
    requires Gate(x.slice.obligations, x.m, x.t).None? && Invalid(x) == []
    ensures Guarded(x, p).0 == Clear
    ensures ResponseReport(x, p).failClosed == [] && !ResponseReport(x, p).status.LlmContradiction?
    ensures tier.tier == Tier1 ==> ResponseReport(x, p).status.Agreed?
  {
    ClearPassesFloor(Draft(x, p), ResponseReport(x, p), tier, force);
  }

  lemma UncontradictedReport(c: Call, t: Telemetry, as_: seq<Assertion>)
    requires c.check == AsyncCheck(t) && c.verdict.Clear?
    requires ReportOf(c, as_).failClosed == [] && !ReportOf(c, as_).status.LlmContradiction?
    ensures forall i | 0 <= i < |as_| :: as_[i].satisfied && Grounded(as_[i], c.m, c.index)
    ensures forall i | 0 <= i < |as_| && !Stateful(as_[i].pred) ::
              Check(as_[i].pred, as_[i].observed, as_[i].value) != Some(false)
  {
    ReportMeaning(c, as_);
    forall i | 0 <= i < |as_|
      ensures as_[i].satisfied && Grounded(as_[i], c.m, c.index)
      ensures !Stateful(as_[i].pred) ==> Check(as_[i].pred, as_[i].observed, as_[i].value) != Some(false)
    {
      assert as_[i] in as_;
      UncontradictedClear(c, t, as_[i]);
    }
  }

  /**
   CLEAR under the runtime's policy, at every tier: no contradiction stands, so
   every assertion is grounded in measurement and KG, claims satisfaction, and
   is not refuted by arithmetic; at tier-1 the verifier agreed.
   */
  lemma ClearIsVerified(x: Input, tier: Resolved, force: bool)
    requires Outcome(x, RiskPolicy(tier, force)).verdict.Clear?
    ensures Earned(x)
    ensures var as_ := CorrectAll(x.response.parsed.value.assertions, Some(x.m), Some(SliceIndex(x)));
            as_ != [] && Verified(x, as_)
    ensures tier.tier == Tier1 ==> ResponseReport(x, x.response.parsed.value).status.Agreed?
  {
    RiskPolicyOnlyLowers(tier, force);
    ClearIsEarned(x, RiskPolicy(tier, force));
    ClearComesFromResponse(x, RiskPolicy(tier, force));
    var p := x.response.parsed.value;
    ClearReport(x, tier, force, p);
    var c := Call(AsyncCheck(x.t), Clear, Some(x.m), Some(SliceIndex(x)));
    UncontradictedReport(c, x.t, CorrectAll(p.assertions, Some(x.m), Some(SliceIndex(x))));
  }

  // ---------------------------------------------------- what each tier accepts

  /** The statuses a tier accepts from a response that carries no attestation. */
  predicate Accepts(tier: Tier, force: bool, status: Status) {
    match status
    case Agreed => true
    case Unverifiable => tier != Tier1 && !force
    case NeuroSymbolicDivergence => tier == Tier3
    case LlmContradiction => false
  }

  lemma PolicyKeepsExactly(d: Envelope, tier: Resolved, force: bool)
    requires !d.attestation
    ensures Apply(tier, force, d).verdict == if Accepts(tier.tier, force, d.status) then d.verdict else Discretionary
  {
  }

  /** A regular response ships the guarded verdict exactly if the tier accepts the status and the floor agrees. */
  lemma ShipsExactly(x: Input, tier: Resolved, force: bool)
    requires Regular(x)
    ensures var p := x.response.parsed.value;
            Outcome(x, RiskPolicy(tier, force)).verdict ==
            if Accepts(tier.tier, force, ResponseReport(x, p).status) && Stands(x, Guarded(x, p).0, p.assertions)
            then Guarded(x, p).0
            else Discretionary
  {
    RegularPath(x);
    NormalPath(x, RiskPolicy(tier, force));
    PolicyKeepsExactly(Draft(x, x.response.parsed.value), tier, force);
  }

  /** An agreed flag on accountable obligations ships as a flag at every tier. */
  lemma AgreedFlagShips(x: Input, tier: Resolved, force: bool)
    requires Regular(x) && x.response.parsed.value.verdict.Flag?
    requires ResponseReport(x, x.response.parsed.value).status.Agreed?
    requires !SomeUnaccountable(x) && !SomeOutlawed(x.response.parsed.value.assertions)
    ensures Outcome(x, RiskPolicy(tier, force)).verdict == Flag
  {
    ShipsExactly(x, tier, force);
  }

  // ------------------------------------------------------- tiers are ordered

  ghost predicate SameButNotes(d: Envelope, e: Envelope) {
    d.(notes := e.notes) == e
  }

  /** A draft that stays CLEAR under one tier is only noted by a more permissive one. */
  lemma PolicyOrder(d: Envelope, r: Report, tier: Resolved, lax: Resolved, force: bool)
    requires d.status == r.status && !d.attestation && Rank(tier.tier) <= Rank(lax.tier)
    requires EnforceFailClosed(Apply(tier, force, d), r).verdict.Clear?
    ensures SameButNotes(EnforceFailClosed(Apply(lax, force, d), r), EnforceFailClosed(Apply(tier, force, d), r))
  {
    ClearPassesFloor(d, r, tier, force);
  }

  /** Whatever ships as CLEAR at one tier ships alike, notes apart, at every more permissive one. */
  lemma TiersAreOrdered(x: Input, tier: Resolved, lax: Resolved, force: bool)
    requires Rank(tier.tier) <= Rank(lax.tier) && Outcome(x, RiskPolicy(tier, force)).verdict.Clear?
    ensures SameButNotes(Outcome(x, RiskPolicy(lax, force)), Outcome(x, RiskPolicy(tier, force)))
  {
    RiskPolicyOnlyLowers(tier, force);
    ClearComesFromResponse(x, RiskPolicy(tier, force));
    var p := x.response.parsed.value;
    PolicyOrder(Draft(x, p), ResponseReport(x, p), tier, lax, force);
  }

  /** Fail-safe: under an absent or unrecognised tier only that ships as CLEAR which does so under every tier. */
  lemma UnknownTierIsStrict(x: Input, fold: string -> string, declared: Option<string>, tier: Resolved, force: bool)
    requires declared.None? || fold(declared.value) !in ALIASES
    requires Outcome(x, RiskPolicy(NormaliseTier(fold, declared), force)).verdict.Clear?
    ensures SameButNotes(Outcome(x, RiskPolicy(tier, force)),
                         Outcome(x, RiskPolicy(NormaliseTier(fold, declared), force)))
  {
    TiersAreOrdered(x, Resolved(Tier1, true), tier, force);
  }

  // ---------------------------------------- the model's arithmetic is irrelevant

  /** The same response but for satisfied flags that arithmetic decides. */
  ghost predicate SameButFlags(x: Input, y: Input) {
    && y == x.(response := y.response) && y.response.cited == x.response.cited
    && x.response.parsed.Some? && y.response.parsed.Some?
    && var (p, q) := (x.response.parsed.value, y.response.parsed.value);
       && q == p.(assertions := q.assertions) && |p.assertions| == |q.assertions|
       && forall i | 0 <= i < |p.assertions| ::
            q.assertions[i] == p.assertions[i] ||
            (q.assertions[i] == p.assertions[i].(satisfied := q.assertions[i].satisfied) &&
             Decidable(p.assertions[i], Some(x.m), Some(SliceIndex(x))))
  }

  lemma SameCorrected(x: Input, y: Input)
    requires SameButFlags(x, y)
    ensures var index := Some(SliceIndex(x));
            CorrectAll(x.response.parsed.value.assertions, Some(x.m), index) ==
            CorrectAll(y.response.parsed.value.assertions, Some(x.m), index)
  {
    var (as_, bs) := (x.response.parsed.value.assertions, y.response.parsed.value.assertions);
    var index := Some(SliceIndex(x));
    forall i | 0 <= i < |as_| ensures Correct(as_[i], Some(x.m), index) == Correct(bs[i], Some(x.m), index) {
      FlagIsIgnored(as_[i], bs[i].satisfied, Some(x.m), index);
    }
    assert CorrectAll(as_, Some(x.m), index) == CorrectAll(bs, Some(x.m), index);
  }

  lemma SameSilence(x: Input, y: Input)
    requires SameButFlags(x, y)
    ensures Guarded(x, x.response.parsed.value) == Guarded(y, y.response.parsed.value)
  {
    var (as_, bs) := (x.response.parsed.value.assertions, y.response.parsed.value.assertions);
    assert forall i | 0 <= i < |as_| :: SilentAssertion(as_[i]) == SilentAssertion(bs[i]);
  }

  lemma SameDraft(x: Input, y: Input)
    requires SameButFlags(x, y)
    ensures ResponseReport(x, x.response.parsed.value) == ResponseReport(y, y.response.parsed.value)
    ensures SameButNotes(Draft(x, x.response.parsed.value), Draft(y, y.response.parsed.value))
  {
    SameCorrected(x, y);
    SameSilence(x, y);
  }

  /** Neither the gate, nor the policy, nor the floor reads the notes. */
  lemma GateReadsNoNotes(d: Envelope, e: Envelope, freshness: Option<Verdict>)
    requires SameButNotes(d, e)
    ensures SameButNotes(ApplyFreshness(d, freshness), ApplyFreshness(e, freshness))
  {
  }

  lemma PolicyReadsNoNotes(d: Envelope, e: Envelope, tier: Resolved, force: bool)
    requires SameButNotes(d, e)
    ensures SameButNotes(Apply(tier, force, d), Apply(tier, force, e))
  {
  }

  lemma FloorReadsNoNotes(d: Envelope, e: Envelope, r: Report)
    requires SameButNotes(d, e)
    ensures SameButNotes(EnforceFailClosed(d, r), EnforceFailClosed(e, r))
  {
  }

  lemma SameEarlyExit(x: Input, y: Input, policy: Policy)
    requires SameButFlags(x, y) && Invalid(x) != []
    ensures Outcome(x, policy) == Outcome(y, policy)
  {
  }

  /** A model that gets its arithmetic wrong receives the same verdict as one that gets it right. */
  lemma FlagsDoNotMatter(x: Input, y: Input, tier: Resolved, force: bool)
    requires SameButFlags(x, y)
    ensures SameButNotes(Outcome(x, RiskPolicy(tier, force)), Outcome(y, RiskPolicy(tier, force)))
  {
    if Invalid(x) != [] {
      SameEarlyExit(x, y, RiskPolicy(tier, force));
    } else {
      var (p, q) := (x.response.parsed.value, y.response.parsed.value);
      SameDraft(x, y);
      assert Invalid(y) == [];
      var freshness := Gate(x.slice.obligations, x.m, x.t);
      GateReadsNoNotes(Draft(x, p), Draft(y, q), freshness);
      PolicyReadsNoNotes(Draft(x, p), Draft(y, q), tier, force);
      FloorReadsNoNotes(Apply(tier, force, Draft(x, p)), Apply(tier, force, Draft(y, q)), ResponseReport(x, p));
    }
  }
}
