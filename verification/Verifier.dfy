/**
 The symbolic verifier: the accumulating tally behind every report, proved
 equal to a declarative specification of the report.
 */
module Verifier {
  import opened Common
  import opened Values
  import opened Predicates
  import opened Grounding

  datatype Verdict = Clear | Flag | NullUnmapped | NullStale | Discretionary

  datatype Status = Agreed | LlmContradiction | NeuroSymbolicDivergence | Unverifiable

  datatype Divergence =
    | SchemaViolation(id: string)            // predicate outside the closed enumeration
    | UngroundedClaim(id: string)
    | CannotEvaluate(id: string)
    | Disagreement(id: string, verifier: bool)
    | UnflaggedBreach(id: string)
    | UnitMismatch(id: string)
    | OmittedUnverifiable(id: string)
    | OmittedBreach(id: string)
    | HiddenObligation(position: nat)
    | NoAssertions
    | FlagWithAllSatisfied
    | InvalidCitation(index: nat)
    | OutputContract

  datatype Report = Report(
    status: Status,
    checked: nat,
    divergences: seq<Divergence>,
    breached: seq<string>,
    failClosed: seq<Divergence>,
    notes: seq<string>               // ids checked independently and found satisfied
  )

  /** The arguments of one verify call. */
  datatype Call = Call(
    check: Assertion -> Option<bool>,
    verdict: Verdict,
    m: Option<Measurement>,
    index: Option<Index>
  )

  // ---------------------------------------------------------------- checkers

  function SyncCheck(): Assertion -> Option<bool> {
    (a: Assertion) => Check(a.pred, a.observed, a.value)
  }

  function AsyncCheck(t: Telemetry): Assertion -> Option<bool> {
    (a: Assertion) =>
      match a.pred
      case MustAverageWithin => CheckAverage(t, a.metric, a.window, a.value)
      case MustNotExceedInWindow => CheckPeak(t, a.metric, a.window, a.value)
      case _ => Check(a.pred, a.observed, a.value)
  }

  /** _obligation_probe: the verifier's own assertion, from the KG and the reading. */
  function ProbeAssertion(p: Probe): Assertion {
    Assertion(p.mapping.pred, p.mapping.metric, p.ob.value, SplitUnit(p.mapping.raw).0, true, p.id,
              if p.ob.window.Int? then Some(p.ob.window.i) else None)
  }

  predicate UnitsDiffer(p: Probe) {
    var unit := SplitUnit(p.mapping.raw).1;
    !unit.Null? && !p.ob.unit.Null? && !PyEq(unit, p.ob.unit)
  }

  // ------------------------------------------------------------ one assertion

  datatype Judgement = Outlawed | Ungrounded | Undecided | Decided(ok: bool)

  function Judge(c: Call, a: Assertion): Judgement {
    if a.pred.Outside? then Outlawed
    else if c.m.Some? && Fabricated(a, c.m.value) then Ungrounded
    else if c.index.Some? && Misquotes(a, c.index.value) then Ungrounded
    else
      var outcome := c.check(a);
      if outcome.None? then Undecided else Decided(outcome.value)
  }

  /** Verdicts a breached mapped obligation contradicts outright. */
  predicate Unflagged(v: Verdict) {
    v.Clear? || v.NullUnmapped?
  }

  function AssertionDivergences(c: Call, a: Assertion): seq<Divergence> {
    match Judge(c, a)
    case Outlawed => [SchemaViolation(a.obligationId)]
    case Ungrounded => [UngroundedClaim(a.obligationId)]
    case Undecided =>
      [CannotEvaluate(a.obligationId)] +
      if Unflagged(c.verdict) && !a.satisfied then [UnflaggedBreach(a.obligationId)] else []
    case Decided(ok) =>
      if ok != a.satisfied then [Disagreement(a.obligationId, ok)]
      else if !ok && Unflagged(c.verdict) then [UnflaggedBreach(a.obligationId)]
      else []
  }

  /** The assertion contradicts the mechanical truth, or the verdict contradicts the assertion. */
  predicate Contradicts(c: Call, a: Assertion) {
    match Judge(c, a)
    case Outlawed => false
    case Ungrounded => true
    case Undecided => Unflagged(c.verdict) && !a.satisfied
    case Decided(ok) => ok != a.satisfied || (!ok && Unflagged(c.verdict))
  }

  /** A breach of the assertion's obligation has been reported on its account. */
  predicate ReportsBreach(c: Call, a: Assertion) {
    match Judge(c, a)
    case Undecided => Unflagged(c.verdict) && !a.satisfied
    case Decided(ok) => !ok && (a.satisfied || Unflagged(c.verdict))
    case _ => false
  }

  predicate Settles(c: Call, a: Assertion) {
    Judge(c, a).Ungrounded? || Judge(c, a).Decided?
  }

  // ------------------------------------------------------------ one obligation

  predicate Breached(c: Call, p: Probe) {
    !UnitsDiffer(p) && c.check(ProbeAssertion(p)) == Some(false)
  }

  predicate Undecidable(c: Call, p: Probe) {
    !UnitsDiffer(p) && c.check(ProbeAssertion(p)).None?
  }

  function ProbeDivergences(c: Call, p: Probe, asserted: bool, reported: bool): seq<Divergence> {
    if UnitsDiffer(p) then [UnitMismatch(p.id)]
    else if Breached(c, p) then
      if !asserted then [OmittedBreach(p.id)]
      else if Unflagged(c.verdict) && !reported then [UnflaggedBreach(p.id)]
      else []
    else if Undecidable(c, p) && !asserted then [OmittedUnverifiable(p.id)]
    else []
  }

  // -------------------------------------------------------------------- tally

  datatype Totals = Totals(
    divergences: seq<Divergence>,
    checked: nat,
    unverifiable: nat,
    contradictions: nat,
    breached: seq<string>,
    failClosed: seq<Divergence>,
    notes: seq<string>,
    reported: set<string>
  )

  const NOTHING: Totals := Totals([], 0, 0, 0, [], [], [], {})

  function Bit(b: bool): nat {
    if b then 1 else 0
  }

  function AfterAssertion(c: Call, t: Totals, a: Assertion): Totals {
    Totals(
      t.divergences + AssertionDivergences(c, a),
      t.checked + Bit(Settles(c, a)),
      t.unverifiable + Bit(!Settles(c, a)),
      t.contradictions + Bit(Contradicts(c, a)),
      t.breached,
      if Judge(c, a).Outlawed? then t.failClosed + [SchemaViolation(a.obligationId)] else t.failClosed,
      t.notes,
      if ReportsBreach(c, a) then t.reported + {a.obligationId} else t.reported)
  }

  function AfterProbe(c: Call, t: Totals, p: Probe, asserted: bool): Totals {
    var divergences := ProbeDivergences(c, p, asserted, p.id in t.reported);
    var unflagged := asserted && Breached(c, p) && Unflagged(c.verdict) && p.id !in t.reported;
    Totals(
      t.divergences + divergences,
      t.checked + Bit(!asserted && !UnitsDiffer(p) && !Undecidable(c, p)),
      t.unverifiable + Bit(UnitsDiffer(p) || (!asserted && Undecidable(c, p))),
      t.contradictions + Bit(unflagged || (!asserted && Breached(c, p))),
      if Breached(c, p) then t.breached + [p.id] else t.breached,
      if UnitsDiffer(p) then t.failClosed + [UnitMismatch(p.id)] else t.failClosed,
      if !asserted && !UnitsDiffer(p) && c.check(ProbeAssertion(p)) == Some(true) then t.notes + [p.id] else t.notes,
      if unflagged then t.reported + {p.id} else t.reported)
  }

  class Tally {
    const c: Call
    var divergences: seq<Divergence>
    var checked: nat
    var unverifiable: nat
    var contradictions: nat
    var breached: seq<string>
    var failClosed: seq<Divergence>
    var notes: seq<string>
    var breachReported: set<string>

    constructor (c: Call)
      ensures this.c == c && Value() == NOTHING
    {
      this.c := c;
      divergences, checked, unverifiable, contradictions := [], 0, 0, 0;
      breached, failClosed, notes, breachReported := [], [], [], {};
    }

    function Value(): Totals
      reads this
    {
      Totals(divergences, checked, unverifiable, contradictions, breached, failClosed, notes, breachReported)
    }

    method Contradiction(d: Divergence)
      modifies this`contradictions, this`divergences
      ensures contradictions == old(contradictions) + 1 && divergences == old(divergences) + [d]
    {
      contradictions := contradictions + 1;
      divergences := divergences + [d];
    }

    method ReportUnflagged(id: string)
      modifies this`contradictions, this`divergences, this`breachReported
      ensures contradictions == old(contradictions) + 1
      ensures divergences == old(divergences) + [UnflaggedBreach(id)]
      ensures breachReported == old(breachReported) + {id}
    {
      breachReported := breachReported + {id};
      Contradiction(UnflaggedBreach(id));
    }

    /** Schema and grounding checks; true when they settled the assertion. */
    method Precheck(a: Assertion) returns (settled: bool)
      modifies this
      ensures settled <==> Judge(c, a).Outlawed? || Judge(c, a).Ungrounded?
      ensures Value() == if settled then AfterAssertion(c, old(Value()), a) else old(Value())
    {
      if a.pred.Outside? {
        unverifiable := unverifiable + 1;
        divergences := divergences + [SchemaViolation(a.obligationId)];
        failClosed := failClosed + [SchemaViolation(a.obligationId)];
        return true;
      }
      var violation := c.m.Some? && Fabricated(a, c.m.value);
      if !violation && c.index.Some? {
        violation := Misquotes(a, c.index.value);
      }
      if !violation {
        return false;
      }
      checked := checked + 1;
      Contradiction(UngroundedClaim(a.obligationId));
      return true;
    }

    /** The mechanical outcome of an assertion that passed Precheck. */
    method RecordAssertion(a: Assertion, outcome: Option<bool>)
      requires Judge(c, a) == if outcome.None? then Undecided else Decided(outcome.value)
      modifies this
      ensures Value() == AfterAssertion(c, old(Value()), a)
    {
      var id, unflagged := a.obligationId, Unflagged(c.verdict);
      if outcome.None? {
        unverifiable := unverifiable + 1;
        divergences := divergences + [CannotEvaluate(id)];
        if unflagged && !a.satisfied {
          ReportUnflagged(id);
          Assoc(old(divergences), [CannotEvaluate(id)], [UnflaggedBreach(id)]);
        }
        return;
      }
      checked := checked + 1;
      if outcome.value != a.satisfied {
        if !outcome.value {
          breachReported := breachReported + {id};
        }
        Contradiction(Disagreement(id, outcome.value));
      } else if !outcome.value && unflagged {
        ReportUnflagged(id);
      }
    }

    method RecordUnitMismatch(p: Probe, ghost asserted: bool)
      requires UnitsDiffer(p)
      modifies this
      ensures Value() == AfterProbe(c, old(Value()), p, asserted)
    {
      unverifiable := unverifiable + 1;
      divergences := divergences + [UnitMismatch(p.id)];
      failClosed := failClosed + [UnitMismatch(p.id)];
    }

    /** The verifier's own evaluation of one mapped obligation. */
    method RecordObligation(p: Probe, outcome: Option<bool>, asserted: bool)
      requires !UnitsDiffer(p) && outcome == c.check(ProbeAssertion(p))
      modifies this
      ensures Value() == AfterProbe(c, old(Value()), p, asserted)
    {
      var breach := outcome == Some(false);
      if breach {
        breached := breached + [p.id];
      }
      if asserted {
        if breach && Unflagged(c.verdict) && p.id !in breachReported {
          ReportUnflagged(p.id);
        }
        return;
      }
      if outcome.None? {
        unverifiable := unverifiable + 1;
        divergences := divergences + [OmittedUnverifiable(p.id)];
        return;
      }
      checked := checked + 1;
      if breach {
        Contradiction(OmittedBreach(p.id));
      } else {
        assert outcome == Some(outcome.value) && outcome.value;
        notes := notes + [p.id];
      }
    }
  }

  // ------------------------------------------------------------------- report

  function Asserted(as_: seq<Assertion>): set<string> {
    set a | a in as_ :: a.obligationId
  }

  function Probes(c: Call): seq<Probe> {
    if c.index.None? then [] else Enumerate(c.index.value, c.m)
  }

  function TallyAssertions(c: Call, as_: seq<Assertion>): Totals {
    if as_ == [] then NOTHING
    else AfterAssertion(c, TallyAssertions(c, as_[..|as_| - 1]), as_[|as_| - 1])
  }

  function TallyProbes(c: Call, t: Totals, asserted: set<string>, ps: seq<Probe>): Totals {
    if ps == [] then t
    else
      var p := ps[|ps| - 1];
      AfterProbe(c, TallyProbes(c, t, asserted, ps[..|ps| - 1]), p, p.id in asserted)
  }

  /** Precedence: contradiction, unverifiable, divergence, agreed. */
  function Summary(c: Call, t: Totals, as_: seq<Assertion>): Report {
    var (status, divergences) :=
      if t.contradictions > 0 then (LlmContradiction, t.divergences)
      else if t.unverifiable > 0 || as_ == [] then
        (Unverifiable, (if as_ == [] then [NoAssertions] else []) + t.divergences)
      else if c.verdict.Flag? && forall a | a in as_ :: a.satisfied then
        (NeuroSymbolicDivergence, [FlagWithAllSatisfied])
      else (Agreed, []);
    Report(status, t.checked, divergences, t.breached, t.failClosed, t.notes)
  }

  function ReportOf(c: Call, as_: seq<Assertion>): Report {
    Summary(c, TallyProbes(c, TallyAssertions(c, as_), Asserted(as_), Probes(c)), as_)
  }

  lemma TakeNext<X>(s: seq<X>, i: nat)
    requires i < |s|
    ensures s[..i + 1][..i] == s[..i] && s[..i + 1] == s[..i] + [s[i]]
  {
  }

  lemma TallyNextAssertion(c: Call, as_: seq<Assertion>, i: nat)
    requires i < |as_|
    ensures TallyAssertions(c, as_[..i + 1]) == AfterAssertion(c, TallyAssertions(c, as_[..i]), as_[i])
    ensures Asserted(as_[..i + 1]) == Asserted(as_[..i]) + {as_[i].obligationId}
  {
    TakeNext(as_, i);
  }

  lemma TallyNextProbe(c: Call, t: Totals, asserted: set<string>, ps: seq<Probe>, k: nat)
    requires k < |ps|
    ensures TallyProbes(c, t, asserted, ps[..k + 1]) ==
            AfterProbe(c, TallyProbes(c, t, asserted, ps[..k]), ps[k], ps[k].id in asserted)
  {
    TakeNext(ps, k);
  }

  /** The first loop: every assertion of the model. */
  method RecordAssertions(tally: Tally, as_: seq<Assertion>) returns (asserted: set<string>)
    requires tally.Value() == NOTHING
    modifies tally
    ensures tally.Value() == TallyAssertions(tally.c, as_)
    ensures asserted == Asserted(as_)
  {
    asserted := {};
    var i := 0;
    while i < |as_|
      invariant 0 <= i <= |as_|
      invariant asserted == Asserted(as_[..i])
      invariant tally.Value() == TallyAssertions(tally.c, as_[..i])
    {
      TallyNextAssertion(tally.c, as_, i);
      asserted := asserted + {as_[i].obligationId};
      var settled := tally.Precheck(as_[i]);
      if !settled {
        tally.RecordAssertion(as_[i], tally.c.check(as_[i]));
      }
      i := i + 1;
    }
    assert as_[..i] == as_;
  }

  /** The second loop: every obligation the verifier evaluates itself. */
  method RecordObligations(tally: Tally, asserted: set<string>, ps: seq<Probe>)
    modifies tally
    ensures tally.Value() == TallyProbes(tally.c, old(tally.Value()), asserted, ps)
  {
    ghost var before := tally.Value();
    var k := 0;
    while k < |ps|
      invariant 0 <= k <= |ps|
      invariant tally.Value() == TallyProbes(tally.c, before, asserted, ps[..k])
    {
      TallyNextProbe(tally.c, before, asserted, ps, k);
      if UnitsDiffer(ps[k]) {
        tally.RecordUnitMismatch(ps[k], ps[k].id in asserted);
      } else {
        tally.RecordObligation(ps[k], tally.c.check(ProbeAssertion(ps[k])), ps[k].id in asserted);
      }
      k := k + 1;
    }
    assert ps[..k] == ps;
  }

  /** verify_report and averify_report. */
  method Verify(c: Call, as_: seq<Assertion>) returns (r: Report)
    ensures r == ReportOf(c, as_)
  {
    var tally := new Tally(c);
    var asserted := RecordAssertions(tally, as_);
    RecordObligations(tally, asserted, Probes(c));
    r := Summary(c, tally.Value(), as_);
  }

  /** A report plus fail-closed violations found outside the verifier. */
  function WithFailClosed(r: Report, violations: seq<Divergence>): Report {
    if violations == [] then r
    else r.(status := if r.status.LlmContradiction? then LlmContradiction else Unverifiable,
            divergences := r.divergences + violations,
            failClosed := r.failClosed + violations)
  }
}
