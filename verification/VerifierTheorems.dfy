/** What a verification report means: the tally against a declarative specification. */
module VerifierTheorems {
  import opened Common
  import opened Predicates
  import opened Grounding
  import opened Verifier

  // --------------------------------------------- the declarative specification

  /** A breach that contradicts the verdict, apart from what was already reported. */
  ghost predicate ContradictsAlone(c: Call, asserted: set<string>, p: Probe) {
    Breached(c, p) && (p.id !in asserted || Unflagged(c.verdict))
  }

  /** Neither settled nor left to an assertion. */
  ghost predicate UnsettledAlone(c: Call, asserted: set<string>, p: Probe) {
    UnitsDiffer(p) || (Undecidable(c, p) && p.id !in asserted)
  }

  ghost predicate Contradicted(c: Call, as_: seq<Assertion>) {
    || (exists a :: a in as_ && Contradicts(c, a))
    || (exists p :: p in Probes(c) && ContradictsAlone(c, Asserted(as_), p))
  }

  ghost predicate Unsettled(c: Call, as_: seq<Assertion>) {
    || as_ == []
    || (exists a :: a in as_ && !Settles(c, a))
    || (exists p :: p in Probes(c) && UnsettledAlone(c, Asserted(as_), p))
  }

  /** The status is the first of four conditions on the sets of assertions and obligations. */
  ghost function StatusOf(c: Call, as_: seq<Assertion>): Status {
    if Contradicted(c, as_) then LlmContradiction
    else if Unsettled(c, as_) then Unverifiable
    else if c.verdict.Flag? && forall a :: a in as_ ==> a.satisfied then NeuroSymbolicDivergence
    else Agreed
  }

  function CountIf<X>(s: seq<X>, f: X -> bool): nat {
    if s == [] then 0 else CountIf(s[..|s| - 1], f) + Bit(f(s[|s| - 1]))
  }

  function SettlesIn(c: Call): Assertion -> bool {
    (a: Assertion) => Settles(c, a)
  }

  /** Obligations the verifier settled on its own account. */
  function SettlesAlone(c: Call, asserted: set<string>): Probe -> bool {
    (p: Probe) => p.id !in asserted && !UnitsDiffer(p) && !Undecidable(c, p)
  }

  /** Obligations that enter the accounts: omitted by the model, or in the wrong unit. */
  function Counts(asserted: set<string>): Probe -> bool {
    (p: Probe) => p.id !in asserted || UnitsDiffer(p)
  }

  // ------------------------------------------------------------- the assertions

  lemma InitLast<X>(s: seq<X>)
    requires s != []
    ensures forall x :: x in s <==> x in s[..|s| - 1] || x == s[|s| - 1]
  {
    assert s == s[..|s| - 1] + [s[|s| - 1]];
  }

  lemma {:induction false} AssertionsMean(c: Call, as_: seq<Assertion>)
    ensures TallyAssertions(c, as_).contradictions > 0 <==> exists a :: a in as_ && Contradicts(c, a)
    ensures TallyAssertions(c, as_).unverifiable > 0 <==> exists a :: a in as_ && !Settles(c, a)
    ensures TallyAssertions(c, as_).reported != {} ==> TallyAssertions(c, as_).contradictions > 0
    ensures TallyAssertions(c, as_).checked == CountIf(as_, SettlesIn(c))
    ensures TallyAssertions(c, as_).checked + TallyAssertions(c, as_).unverifiable == |as_|
    ensures TallyAssertions(c, as_).breached == []
    ensures TallyAssertions(c, as_).failClosed == [] <==> forall a :: a in as_ ==> !a.pred.Outside?
  {
    if as_ != [] {
      AssertionsMean(c, as_[..|as_| - 1]);
      InitLast(as_);
    }
  }

  // ------------------------------------------------------------ the obligations

  ghost predicate ReportedIsCounted(t: Totals) {
    t.reported != {} ==> t.contradictions > 0
  }

  /** A breach reported before was counted as a contradiction then. */
  lemma ProbeStep(c: Call, t: Totals, asserted: set<string>, p: Probe)
    requires ReportedIsCounted(t)
    ensures ReportedIsCounted(AfterProbe(c, t, p, p.id in asserted))
    ensures AfterProbe(c, t, p, p.id in asserted).contradictions > 0 <==>
            t.contradictions > 0 || ContradictsAlone(c, asserted, p)
    ensures AfterProbe(c, t, p, p.id in asserted).unverifiable > 0 <==>
            t.unverifiable > 0 || UnsettledAlone(c, asserted, p)
  {
    if p.id in t.reported {
      assert t.reported != {};
    }
  }

  lemma {:induction false} ProbesMean(c: Call, t: Totals, asserted: set<string>, ps: seq<Probe>)
    requires ReportedIsCounted(t)
    ensures ReportedIsCounted(TallyProbes(c, t, asserted, ps))
    ensures TallyProbes(c, t, asserted, ps).contradictions > 0 <==>
            t.contradictions > 0 || exists p :: p in ps && ContradictsAlone(c, asserted, p)
    ensures TallyProbes(c, t, asserted, ps).unverifiable > 0 <==>
            t.unverifiable > 0 || exists p :: p in ps && UnsettledAlone(c, asserted, p)
  {
    if ps != [] {
      ProbesMean(c, t, asserted, ps[..|ps| - 1]);
      InitLast(ps);
      ProbeStep(c, TallyProbes(c, t, asserted, ps[..|ps| - 1]), asserted, ps[|ps| - 1]);
    }
  }

  lemma {:induction false} ProbesCount(c: Call, t: Totals, asserted: set<string>, ps: seq<Probe>)
    ensures TallyProbes(c, t, asserted, ps).checked == t.checked + CountIf(ps, SettlesAlone(c, asserted))
    ensures TallyProbes(c, t, asserted, ps).checked + TallyProbes(c, t, asserted, ps).unverifiable ==
            t.checked + t.unverifiable + CountIf(ps, Counts(asserted))
  {
    if ps != [] {
      ProbesCount(c, t, asserted, ps[..|ps| - 1]);
    }
  }

  lemma {:induction false} ProbesBreached(c: Call, t: Totals, asserted: set<string>, ps: seq<Probe>)
    ensures forall id :: id in TallyProbes(c, t, asserted, ps).breached <==>
              id in t.breached || exists p :: p in ps && Breached(c, p) && p.id == id
    ensures TallyProbes(c, t, asserted, ps).failClosed == [] <==>
            t.failClosed == [] && forall p :: p in ps ==> !UnitsDiffer(p)
  {
    if ps != [] {
      ProbesBreached(c, t, asserted, ps[..|ps| - 1]);
      InitLast(ps);
      var init, last := TallyProbes(c, t, asserted, ps[..|ps| - 1]).breached, ps[|ps| - 1];
      forall id ensures id in TallyProbes(c, t, asserted, ps).breached <==>
                  id in t.breached || exists p :: p in ps && Breached(c, p) && p.id == id
      {
        assert id in TallyProbes(c, t, asserted, ps).breached <==> id in init || (Breached(c, last) && id == last.id);
      }
    }
  }

  /** An obligation the model left out, in matching units, that the verifier found satisfied. */
  ghost predicate SatisfiedAlone(c: Call, asserted: set<string>, p: Probe) {
    p.id !in asserted && !UnitsDiffer(p) && c.check(ProbeAssertion(p)) == Some(true)
  }

  lemma {:induction false} ProbesNoted(c: Call, t: Totals, asserted: set<string>, ps: seq<Probe>)
    ensures forall id :: id in TallyProbes(c, t, asserted, ps).notes <==>
              id in t.notes || exists p :: p in ps && SatisfiedAlone(c, asserted, p) && p.id == id
  {
    if ps != [] {
      ProbesNoted(c, t, asserted, ps[..|ps| - 1]);
      InitLast(ps);
      var init, last := TallyProbes(c, t, asserted, ps[..|ps| - 1]).notes, ps[|ps| - 1];
      forall id ensures id in TallyProbes(c, t, asserted, ps).notes <==>
                  id in t.notes || exists p :: p in ps && SatisfiedAlone(c, asserted, p) && p.id == id
      {
        assert id in TallyProbes(c, t, asserted, ps).notes <==>
          id in init || (SatisfiedAlone(c, asserted, last) && id == last.id);
      }
    }
  }

  lemma {:induction false} AssertionsNoteNothing(c: Call, as_: seq<Assertion>)
    ensures TallyAssertions(c, as_).notes == []
  {
    if as_ != [] {
      AssertionsNoteNothing(c, as_[..|as_| - 1]);
    }
  }

  /** The report notes exactly the omitted obligations the verifier checked and found satisfied. */
  lemma NotesMean(c: Call, as_: seq<Assertion>)
    ensures forall id :: id in ReportOf(c, as_).notes <==>
              exists p :: p in Probes(c) && SatisfiedAlone(c, Asserted(as_), p) && p.id == id
  {
    AssertionsNoteNothing(c, as_);
    ProbesNoted(c, TallyAssertions(c, as_), Asserted(as_), Probes(c));
  }

  // ---------------------------------------------------------------- main result

  lemma StatusMeaning(c: Call, as_: seq<Assertion>)
    ensures ReportOf(c, as_).status == StatusOf(c, as_)
  {
    AssertionsMean(c, as_);
    ProbesMean(c, TallyAssertions(c, as_), Asserted(as_), Probes(c));
  }

  /** The accumulated report is the declarative one. */
  lemma ReportMeaning(c: Call, as_: seq<Assertion>)
    ensures ReportOf(c, as_).status == StatusOf(c, as_)
    ensures ReportOf(c, as_).checked ==
            CountIf(as_, SettlesIn(c)) + CountIf(Probes(c), SettlesAlone(c, Asserted(as_)))
    ensures forall id :: id in ReportOf(c, as_).breached <==> exists p :: p in Probes(c) && Breached(c, p) && p.id == id
    ensures ReportOf(c, as_).failClosed == [] <==>
            (forall a :: a in as_ ==> !a.pred.Outside?) && (forall p :: p in Probes(c) ==> !UnitsDiffer(p))
  {
    StatusMeaning(c, as_);
    AssertionsMean(c, as_);
    ProbesCount(c, TallyAssertions(c, as_), Asserted(as_), Probes(c));
    ProbesBreached(c, TallyAssertions(c, as_), Asserted(as_), Probes(c));
  }

  /** Conservation: every assertion, omitted obligation and unit mismatch is counted exactly once. */
  lemma Accounting(c: Call, as_: seq<Assertion>)
    ensures var t := TallyProbes(c, TallyAssertions(c, as_), Asserted(as_), Probes(c));
            t.checked + t.unverifiable == |as_| + CountIf(Probes(c), Counts(Asserted(as_)))
  {
    AssertionsMean(c, as_);
    ProbesCount(c, TallyAssertions(c, as_), Asserted(as_), Probes(c));
  }

  /** What is counted against a response is also named. */
  ghost predicate Named(t: Totals) {
    t.divergences == [] <==> t.contradictions == 0 && t.unverifiable == 0
  }

  lemma {:induction false} AssertionsNamed(c: Call, as_: seq<Assertion>)
    ensures Named(TallyAssertions(c, as_)) && ReportedIsCounted(TallyAssertions(c, as_))
  {
    if as_ != [] {
      AssertionsNamed(c, as_[..|as_| - 1]);
    }
  }

  lemma ProbeNamed(c: Call, t: Totals, p: Probe, asserted: bool)
    requires Named(t) && ReportedIsCounted(t)
    ensures Named(AfterProbe(c, t, p, asserted)) && ReportedIsCounted(AfterProbe(c, t, p, asserted))
  {
  }

  lemma {:induction false} ProbesNamed(c: Call, t: Totals, asserted: set<string>, ps: seq<Probe>)
    requires Named(t) && ReportedIsCounted(t)
    ensures Named(TallyProbes(c, t, asserted, ps)) && ReportedIsCounted(TallyProbes(c, t, asserted, ps))
  {
    if ps != [] {
      ProbesNamed(c, t, asserted, ps[..|ps| - 1]);
      ProbeNamed(c, TallyProbes(c, t, asserted, ps[..|ps| - 1]), ps[|ps| - 1], ps[|ps| - 1].id in asserted);
    }
  }

  /** Agreement is silent and nothing else is: a report lists no divergence exactly if its status is AGREED. */
  lemma AgreedIsSilent(c: Call, as_: seq<Assertion>)
    ensures ReportOf(c, as_).divergences == [] <==> ReportOf(c, as_).status.Agreed?
  {
    AssertionsNamed(c, as_);
    ProbesNamed(c, TallyAssertions(c, as_), Asserted(as_), Probes(c));
  }

  // ----------------------------------------------------------- order invariance

  lemma {:induction false} CountRemove<X>(s: seq<X>, i: nat, f: X -> bool)
    requires i < |s|
    ensures CountIf(s, f) == CountIf(s[..i] + s[i + 1..], f) + Bit(f(s[i]))
  {
    var rest := s[..i] + s[i + 1..];
    if i == |s| - 1 {
      assert rest == s[..i];
    } else {
      var init := s[..|s| - 1];
      CountRemove(init, i, f);
      assert rest[..|rest| - 1] == init[..i] + init[i + 1..];
      assert rest[|rest| - 1] == s[|s| - 1];
    }
  }

  lemma CancelElement<X>(a: multiset<X>, b: multiset<X>, x: X)
    requires a + multiset{x} == b + multiset{x}
    ensures a == b
  {
    forall y ensures a[y] == b[y] {
      assert (a + multiset{x})[y] == (b + multiset{x})[y];
    }
  }

  lemma {:induction false} CountPermuted<X>(s: seq<X>, t: seq<X>, f: X -> bool)
    requires multiset(s) == multiset(t)
    ensures CountIf(s, f) == CountIf(t, f)
    decreases |s|
  {
    assert |multiset(s)| == |s| && |multiset(t)| == |t|;
    if s != [] {
      var x := s[|s| - 1];
      assert x in multiset(t);
      var i :| 0 <= i < |t| && t[i] == x;
      assert s == s[..|s| - 1] + [x];
      assert t == t[..i] + [x] + t[i + 1..];
      CancelElement(multiset(s[..|s| - 1]), multiset(t[..i] + t[i + 1..]), x);
      CountPermuted(s[..|s| - 1], t[..i] + t[i + 1..], f);
      CountRemove(t, i, f);
    }
  }

  lemma SameMembers<X>(s: seq<X>, t: seq<X>)
    requires multiset(s) == multiset(t)
    ensures forall x :: x in s <==> x in t
  {
    forall x ensures x in s <==> x in t {
      assert x in s <==> x in multiset(s);
      assert x in t <==> x in multiset(t);
    }
  }

  lemma {:induction false} LookupMember(index: Index, id: string, ob: Obligation)
    requires DistinctIds(index)
    ensures Lookup(index, id) == Some(ob) <==> Indexed(id, ob) in index
  {
    if index != [] {
      var tail := index[1..];
      assert index == [index[0]] + tail;
      LookupMember(tail, id, ob);
    }
  }

  lemma LookupPermuted(s: Index, t: Index, id: string)
    requires DistinctIds(s) && DistinctIds(t) && multiset(s) == multiset(t)
    ensures Lookup(s, id) == Lookup(t, id)
  {
    SameMembers(s, t);
    if Lookup(s, id).Some? {
      LookupMember(s, id, Lookup(s, id).value);
      LookupMember(t, id, Lookup(s, id).value);
    } else if Lookup(t, id).Some? {
      LookupMember(t, id, Lookup(t, id).value);
      LookupMember(s, id, Lookup(t, id).value);
    }
  }

  /** A count over the enumerated obligations, taken over the index instead. */
  function ThroughMapping(m: Option<Measurement>, f: Probe -> bool): Indexed -> bool {
    (e: Indexed) => m.Some? && Mapped(e.ob, m.value).Some? && f(Probe(e.id, e.ob, Mapped(e.ob, m.value).value))
  }

  lemma {:induction false} CountThroughMapping(index: Index, m: Option<Measurement>, f: Probe -> bool)
    ensures CountIf(Enumerate(index, m), f) == CountIf(index, ThroughMapping(m, f))
  {
    if index != [] {
      var init, last := index[..|index| - 1], index[|index| - 1];
      CountThroughMapping(init, m, f);
      if m.Some? && Mapped(last.ob, m.value).Some? {
        var p := Probe(last.id, last.ob, Mapped(last.ob, m.value).value);
        var ps := Enumerate(init, m);
        assert Enumerate(index, m) == ps + [p];
        assert (ps + [p])[..|ps + [p]| - 1] == ps;
      } else {
        assert Enumerate(index, m) == Enumerate(init, m);
      }
    }
  }

  lemma SameProbes(s: Index, t: Index, m: Option<Measurement>)
    requires multiset(s) == multiset(t)
    ensures forall p :: p in Enumerate(s, m) <==> p in Enumerate(t, m)
  {
    SameMembers(s, t);
    EnumerateSound(s, m);
    EnumerateSound(t, m);
  }

  /** The same obligations, keyed by distinct ids, in another order; or no slice at all. */
  ghost predicate SameCall(c: Call, d: Call) {
    && c.check == d.check && c.verdict == d.verdict && c.m == d.m
    && (c.index.None? <==> d.index.None?)
    && (c.index.Some? ==>
          && DistinctIds(c.index.value) && DistinctIds(d.index.value)
          && multiset(c.index.value) == multiset(d.index.value))
  }

  lemma SameCallProbes(c: Call, d: Call)
    requires SameCall(c, d)
    ensures forall p :: p in Probes(c) <==> p in Probes(d)
  {
    if c.index.Some? {
      SameProbes(c.index.value, d.index.value, c.m);
    }
  }

  lemma JudgePermuted(c: Call, d: Call, a: Assertion)
    requires SameCall(c, d)
    ensures Judge(c, a) == Judge(d, a)
  {
    if c.index.Some? {
      LookupPermuted(c.index.value, d.index.value, a.obligationId);
    }
  }

  lemma StatusPermuted(c: Call, d: Call, as_: seq<Assertion>, bs: seq<Assertion>)
    requires SameCall(c, d) && multiset(as_) == multiset(bs)
    ensures Asserted(as_) == Asserted(bs)
    ensures StatusOf(c, as_) == StatusOf(d, bs)
  {
    SameMembers(as_, bs);
    SameCallProbes(c, d);
    forall a ensures Contradicts(c, a) == Contradicts(d, a) && Settles(c, a) == Settles(d, a) {
      JudgePermuted(c, d, a);
    }
    var asserted := Asserted(as_);
    assert asserted == Asserted(bs);
    forall p
      ensures ContradictsAlone(c, asserted, p) == ContradictsAlone(d, asserted, p)
      ensures UnsettledAlone(c, asserted, p) == UnsettledAlone(d, asserted, p)
    {
    }
    assert |multiset(as_)| == |as_| && |multiset(bs)| == |bs|;
    assert Contradicted(c, as_) <==> Contradicted(d, bs);
    assert Unsettled(c, as_) <==> Unsettled(d, bs);
  }

  lemma {:induction false} CountSame<X>(s: seq<X>, f: X -> bool, g: X -> bool)
    requires forall x :: x in s ==> f(x) == g(x)
    ensures CountIf(s, f) == CountIf(s, g)
  {
    if s != [] {
      InitLast(s);
      CountSame(s[..|s| - 1], f, g);
    }
  }

  lemma CheckedPermuted(c: Call, d: Call, as_: seq<Assertion>, bs: seq<Assertion>)
    requires SameCall(c, d) && multiset(as_) == multiset(bs) && Asserted(as_) == Asserted(bs)
    ensures ReportOf(c, as_).checked == ReportOf(d, bs).checked
  {
    ReportMeaning(c, as_);
    ReportMeaning(d, bs);
    CountPermuted(as_, bs, SettlesIn(c));
    forall a | a in bs ensures SettlesIn(c)(a) == SettlesIn(d)(a) {
      JudgePermuted(c, d, a);
    }
    CountSame(bs, SettlesIn(c), SettlesIn(d));
    var f, g := SettlesAlone(c, Asserted(as_)), SettlesAlone(d, Asserted(bs));
    if c.index.Some? {
      CountThroughMapping(c.index.value, c.m, f);
      CountThroughMapping(d.index.value, d.m, f);
      CountPermuted(c.index.value, d.index.value, ThroughMapping(c.m, f));
    }
    CountSame(Probes(d), f, g);
  }

  /** Reordering assertions or obligations changes neither status nor count nor what is breached or fails closed. */
  lemma OrderInvariant(c: Call, d: Call, as_: seq<Assertion>, bs: seq<Assertion>)
    requires SameCall(c, d) && multiset(as_) == multiset(bs)
    ensures ReportOf(c, as_).status == ReportOf(d, bs).status
    ensures ReportOf(c, as_).checked == ReportOf(d, bs).checked
    ensures forall id :: id in ReportOf(c, as_).breached <==> id in ReportOf(d, bs).breached
    ensures ReportOf(c, as_).failClosed == [] <==> ReportOf(d, bs).failClosed == []
  {
    ReportMeaning(c, as_);
    ReportMeaning(d, bs);
    StatusPermuted(c, d, as_, bs);
    CheckedPermuted(c, d, as_, bs);
    SameMembers(as_, bs);
    SameCallProbes(c, d);
  }

  // ------------------------------------------------------------- sync and async

  /** Two checkers that agree on everything a call asks them. */
  ghost predicate AgreeOn(c: Call, d: Call, as_: seq<Assertion>) {
    && d == c.(check := d.check)
    && (forall a :: a in as_ ==> c.check(a) == d.check(a))
    && (forall p :: p in Probes(c) ==> c.check(ProbeAssertion(p)) == d.check(ProbeAssertion(p)))
  }

  lemma {:induction false} TallyAssertionsAgree(c: Call, d: Call, as_: seq<Assertion>)
    requires d == c.(check := d.check) && forall a :: a in as_ ==> c.check(a) == d.check(a)
    ensures TallyAssertions(c, as_) == TallyAssertions(d, as_)
  {
    if as_ != [] {
      InitLast(as_);
      TallyAssertionsAgree(c, d, as_[..|as_| - 1]);
      assert Judge(c, as_[|as_| - 1]) == Judge(d, as_[|as_| - 1]);
    }
  }

  lemma {:induction false} TallyProbesAgree(c: Call, d: Call, t: Totals, asserted: set<string>, ps: seq<Probe>)
    requires d == c.(check := d.check)
    requires forall p :: p in ps ==> c.check(ProbeAssertion(p)) == d.check(ProbeAssertion(p))
    ensures TallyProbes(c, t, asserted, ps) == TallyProbes(d, t, asserted, ps)
  {
    if ps != [] {
      InitLast(ps);
      TallyProbesAgree(c, d, t, asserted, ps[..|ps| - 1]);
    }
  }

  lemma CheckersAgree(c: Call, d: Call, as_: seq<Assertion>)
    requires AgreeOn(c, d, as_)
    ensures ReportOf(c, as_) == ReportOf(d, as_)
  {
    TallyAssertionsAgree(c, d, as_);
    TallyProbesAgree(c, d, TallyAssertions(c, as_), Asserted(as_), Probes(c));
  }

  /** The sync and async reports coincide when no predicate in play is stateful. */
  lemma SyncIsAsync(c: Call, d: Call, t: Telemetry, as_: seq<Assertion>)
    requires c.check == SyncCheck() && d == c.(check := AsyncCheck(t))
    requires forall a :: a in as_ ==> !Stateful(a.pred)
    requires forall p :: p in Probes(c) ==> !Stateful(p.mapping.pred)
    ensures ReportOf(c, as_) == ReportOf(d, as_)
  {
    CheckersAgree(c, d, as_);
  }
}
