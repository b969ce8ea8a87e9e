/** normalize_satisfied: arithmetic, not the model, decides the satisfied flag. */
module Normalisation {
  import opened Common
  import opened Predicates
  import opened Grounding
  import opened Verifier

  predicate Grounded(a: Assertion, m: Option<Measurement>, index: Option<Index>) {
    && (m.Some? ==> !Fabricated(a, m.value))
    && (index.Some? ==> !Misquotes(a, index.value))
  }

  /** Grounded, with a stateless predicate the handlers can decide. */
  predicate Decidable(a: Assertion, m: Option<Measurement>, index: Option<Index>) {
    Grounded(a, m, index) && Check(a.pred, a.observed, a.value).Some?
  }

  function Correct(a: Assertion, m: Option<Measurement>, index: Option<Index>): Assertion {
    if Decidable(a, m, index) then a.(satisfied := Check(a.pred, a.observed, a.value).value) else a
  }

  function CorrectAll(as_: seq<Assertion>, m: Option<Measurement>, index: Option<Index>): (r: seq<Assertion>)
    ensures |r| == |as_|
    ensures forall i | 0 <= i < |as_| :: r[i] == Correct(as_[i], m, index)
  {
    if as_ == [] then [] else [Correct(as_[0], m, index)] + CorrectAll(as_[1..], m, index)
  }

  /** Positions of the assertions whose flag was wrong. */
  function Corrections(as_: seq<Assertion>, m: Option<Measurement>, index: Option<Index>): seq<nat> {
    if as_ == [] then []
    else
      var last := as_[|as_| - 1];
      Corrections(as_[..|as_| - 1], m, index) + if Correct(last, m, index) != last then [|as_| - 1] else []
  }

  /** One assertion of the loop: kept, or with the flag arithmetic gives it. */
  method CorrectOne(a: Assertion, m: Option<Measurement>, index: Option<Index>) returns (r: Assertion, wrong: bool)
    ensures r == Correct(a, m, index) && (wrong <==> r != a)
  {
    r, wrong := a, false;
    if m.Some? && Fabricated(a, m.value) {
      return;
    }
    if index.Some? && Misquotes(a, index.value) {
      return;
    }
    var outcome := Check(a.pred, a.observed, a.value);
    if outcome.Some? && outcome.value != a.satisfied {
      r, wrong := a.(satisfied := outcome.value), true;
    }
  }

  lemma CorrectAllAppend(as_: seq<Assertion>, a: Assertion, m: Option<Measurement>, index: Option<Index>)
    ensures CorrectAll(as_ + [a], m, index) == CorrectAll(as_, m, index) + [Correct(a, m, index)]
  {
    var all := as_ + [a];
    assert forall i | 0 <= i < |as_| :: all[i] == as_[i];
  }

  lemma CorrectionsAppend(as_: seq<Assertion>, a: Assertion, m: Option<Measurement>, index: Option<Index>)
    ensures Corrections(as_ + [a], m, index) ==
            Corrections(as_, m, index) + if Correct(a, m, index) != a then [|as_|] else []
  {
    assert (as_ + [a])[..|as_|] == as_;
  }

  lemma CorrectNext(as_: seq<Assertion>, m: Option<Measurement>, index: Option<Index>, i: nat)
    requires i < |as_|
    ensures CorrectAll(as_[..i + 1], m, index) == CorrectAll(as_[..i], m, index) + [Correct(as_[i], m, index)]
    ensures Corrections(as_[..i + 1], m, index) ==
            Corrections(as_[..i], m, index) + if Correct(as_[i], m, index) != as_[i] then [i] else []
  {
    TakeNext(as_, i);
    CorrectAllAppend(as_[..i], as_[i], m, index);
    CorrectionsAppend(as_[..i], as_[i], m, index);
  }

  method NormalizeSatisfied(as_: seq<Assertion>, m: Option<Measurement>, index: Option<Index>)
    returns (corrected: seq<Assertion>, notes: seq<nat>)
    ensures corrected == CorrectAll(as_, m, index)
    ensures notes == Corrections(as_, m, index)
  {
    corrected, notes := [], [];
    var i := 0;
    while i < |as_|
      invariant 0 <= i <= |as_|
      invariant corrected == CorrectAll(as_[..i], m, index)
      invariant notes == Corrections(as_[..i], m, index)
    {
      CorrectNext(as_, m, index, i);
      var r, wrong := CorrectOne(as_[i], m, index);
      corrected := corrected + [r];
      if wrong {
        notes := notes + [i];
      }
      i := i + 1;
    }
    assert as_[..i] == as_;
  }

  /** A flag is corrected exactly where it disagrees with a decidable check. */
  lemma {:induction false} CorrectionsMean(as_: seq<Assertion>, m: Option<Measurement>, index: Option<Index>)
    ensures forall i :: i in Corrections(as_, m, index) <==>
              0 <= i < |as_| && Decidable(as_[i], m, index) &&
              as_[i].satisfied != Check(as_[i].pred, as_[i].observed, as_[i].value).value
  {
    if as_ != [] {
      CorrectionsMean(as_[..|as_| - 1], m, index);
    }
  }

  /** The flag plays no part in grounding or in what arithmetic decides. */
  lemma FlagIsIgnored(a: Assertion, satisfied: bool, m: Option<Measurement>, index: Option<Index>)
    ensures Grounded(a.(satisfied := satisfied), m, index) <==> Grounded(a, m, index)
    ensures Decidable(a.(satisfied := satisfied), m, index) <==> Decidable(a, m, index)
  {
  }

  /** Normalising twice is normalising once, and no field but the flag ever changes. */
  lemma NormaliseIdempotent(as_: seq<Assertion>, m: Option<Measurement>, index: Option<Index>)
    ensures CorrectAll(CorrectAll(as_, m, index), m, index) == CorrectAll(as_, m, index)
    ensures forall i | 0 <= i < |as_| :: CorrectAll(as_, m, index)[i].(satisfied := as_[i].satisfied) == as_[i]
  {
    var once := CorrectAll(as_, m, index);
    var twice := CorrectAll(once, m, index);
    forall i | 0 <= i < |as_| ensures twice[i] == once[i] {
      FlagIsIgnored(as_[i], once[i].satisfied, m, index);
    }
  }

  /** Two models that differ only in decidable satisfied flags get one report. */
  lemma SatisfiedIsIrrelevant(c: Call, as_: seq<Assertion>, bs: seq<Assertion>)
    requires |as_| == |bs|
    requires forall i | 0 <= i < |as_| :: bs[i] == as_[i] ||
               (bs[i] == as_[i].(satisfied := bs[i].satisfied) && Decidable(as_[i], c.m, c.index))
    ensures ReportOf(c, CorrectAll(as_, c.m, c.index)) == ReportOf(c, CorrectAll(bs, c.m, c.index))
  {
    var x, y := CorrectAll(as_, c.m, c.index), CorrectAll(bs, c.m, c.index);
    forall i | 0 <= i < |as_| ensures x[i] == y[i] {
      FlagIsIgnored(as_[i], bs[i].satisfied, c.m, c.index);
    }
    assert x == y;
  }

  /** After normalisation no assertion on a stateless predicate disagrees with the arithmetic. */
  lemma NormalisedNeverDisagrees(c: Call, a: Assertion, t: Telemetry)
    requires c.check == SyncCheck() || (c.check == AsyncCheck(t) && !Stateful(a.pred))
    requires Judge(c, Correct(a, c.m, c.index)).Decided?
    ensures Judge(c, Correct(a, c.m, c.index)).ok == Correct(a, c.m, c.index).satisfied
    ensures Judge(c, a) == Judge(c, Correct(a, c.m, c.index))
  {
    FlagIsIgnored(a, Correct(a, c.m, c.index).satisfied, c.m, c.index);
  }
}
