/** The verifier's mechanical predicates: stateless handlers and the two windowed ones. */
module Predicates {
  import opened Common
  import opened Values

  /** Predicate names: the evaluable ones, the other obligation types of the closed enumeration, and everything else. */
  datatype Predicate =
    | MustNotExceed
    | MustBeAtLeast
    | MustBeBelow
    | MustBeAbove
    | MustBeWithin
    | MustBeOneOf
    | MustNotBeOneOf
    | MustEqual
    | MustNotEqual
    | MustAverageWithin
    | MustNotExceedInWindow
    | SpecOnly(name: string)      // must, must_not, must_be_recorded_within, should, discretionary
    | Outside(name: string)

  predicate Stateful(p: Predicate) {
    p.MustAverageWithin? || p.MustNotExceedInWindow?
  }

  predicate Stateless(p: Predicate) {
    !Stateful(p) && !p.SpecOnly? && !p.Outside?
  }

  /** Predicates the verifier can evaluate mechanically. */
  predicate Formalizable(p: Predicate) {
    Stateless(p) || Stateful(p)
  }

  // --------------------------------------------------------------- stateless

  predicate IsRange(v: Val) {
    v.List? && |v.items| == 2 && IsReal(v.items[0]) && IsReal(v.items[1])
  }

  predicate IsMember(observed: Val, members: seq<Val>) {
    exists i :: 0 <= i < |members| && PyEq(observed, members[i])
  }

  predicate AnyAmbiguous(observed: Val, members: seq<Val>) {
    exists i :: 0 <= i < |members| && Ambiguous(observed, members[i])
  }

  /** check_assertion: None is UNVERIFIABLE. */
  function Check(p: Predicate, observed: Val, value: Val): Option<bool> {
    match p
    case MustNotExceed =>
      if IsReal(observed) && IsReal(value) then Some(RealOf(observed) <= RealOf(value)) else None
    case MustBeAtLeast =>
      if IsReal(observed) && IsReal(value) then Some(RealOf(observed) >= RealOf(value)) else None
    case MustBeBelow =>
      if IsReal(observed) && IsReal(value) then Some(RealOf(observed) < RealOf(value)) else None
    case MustBeAbove =>
      if IsReal(observed) && IsReal(value) then Some(RealOf(observed) > RealOf(value)) else None
    case MustBeWithin =>
      if IsReal(observed) && IsRange(value) then
        Some(RealOf(value.items[0]) <= RealOf(observed) <= RealOf(value.items[1]))
      else None
    case MustBeOneOf =>
      if !value.List? || value.items == [] || AnyAmbiguous(observed, value.items) then None
      else Some(IsMember(observed, value.items))
    case MustNotBeOneOf =>
      if !value.List? || value.items == [] || AnyAmbiguous(observed, value.items) then None
      else Some(!IsMember(observed, value.items))
    case MustEqual =>
      if Ambiguous(observed, value) then None else Some(PyEq(observed, value))
    case MustNotEqual =>
      if Ambiguous(observed, value) then None else Some(!PyEq(observed, value))
    case _ => None
  }

  // ------------------------------------------------- which side passes

  /** The readings a numeric predicate decides about. */
  lemma NumbersAreDecided(p: Predicate, o: Val, v: Val)
    requires p in {MustNotExceed, MustBeAtLeast, MustBeBelow, MustBeAbove}
    ensures Check(p, o, v).Some? <==> IsReal(o) && IsReal(v)
  {
  }

  /** A cap is kept at the cap and by everything below a reading that keeps it, and broken strictly above. */
  lemma CapLaw(o: Val, lower: Val, cap: Val)
    requires IsReal(o) && IsReal(lower) && IsReal(cap) && RealOf(lower) <= RealOf(o)
    ensures Check(MustNotExceed, cap, cap) == Some(true)
    ensures Check(MustNotExceed, o, cap) == Some(true) ==> Check(MustNotExceed, lower, cap) == Some(true)
    ensures RealOf(lower) < RealOf(o) ==> Check(MustNotExceed, o, lower) == Some(false)
    ensures Check(MustBeBelow, o, cap) == Some(true) ==> Check(MustBeBelow, lower, cap) == Some(true)
    ensures RealOf(lower) < RealOf(o) ==> Check(MustBeBelow, lower, o) == Some(true)
    ensures Check(MustBeBelow, cap, cap) == Some(false)
  {
  }

  /** A floor mirrors a cap. */
  lemma FloorLaw(o: Val, higher: Val, floor: Val)
    requires IsReal(o) && IsReal(higher) && IsReal(floor) && RealOf(o) <= RealOf(higher)
    ensures Check(MustBeAtLeast, floor, floor) == Some(true)
    ensures Check(MustBeAtLeast, o, floor) == Some(true) ==> Check(MustBeAtLeast, higher, floor) == Some(true)
    ensures RealOf(o) < RealOf(higher) ==> Check(MustBeAtLeast, o, higher) == Some(false)
    ensures Check(MustBeAbove, o, floor) == Some(true) ==> Check(MustBeAbove, higher, floor) == Some(true)
    ensures RealOf(o) < RealOf(higher) ==> Check(MustBeAbove, higher, o) == Some(true)
    ensures Check(MustBeAbove, floor, floor) == Some(false)
  {
  }

  /** Exactly one of below, equal and above holds of two finite numbers, an int and a float among them. */
  lemma OrderIsTotal(o: Val, v: Val)
    requires IsReal(o) && IsReal(v)
    ensures Check(MustBeBelow, o, v) == Some(true) <==>
            Check(MustEqual, o, v) == Check(MustBeAbove, o, v) == Some(false)
    ensures Check(MustEqual, o, v) == Some(true) <==>
            Check(MustBeBelow, o, v) == Check(MustBeAbove, o, v) == Some(false)
    ensures Check(MustNotExceed, o, v) == Some(true) <==>
            Check(MustBeBelow, o, v) == Some(true) || Check(MustEqual, o, v) == Some(true)
  {
  }

  /** What equality may decide: a comparison that is not ambiguous, of values whose normal forms it compares. */
  lemma EqualityDecides(o: Val, v: Val)
    ensures Check(MustEqual, o, v) == Some(true) <==>
            !Ambiguous(o, v) && NanFree(o) && NanFree(v) && Normal(o) == Normal(v)
    ensures Check(MustEqual, v, v) == Some(true) <==> NanFree(v) && !v.Infinite?
  {
    EqualNormals(o, v);
    EqualNormals(v, v);
  }

  /** A comparison is ambiguous exactly at a non-finite number, or between a bool and a number. */
  lemma AmbiguousMeans(o: Val, v: Val)
    ensures Check(MustEqual, o, v).None? <==>
            o.NaN? || o.Infinite? || v.NaN? || v.Infinite? || (o.Bool? && IsReal(v)) || (IsReal(o) && v.Bool?)
  {
  }

  /** Every member of a list passes MustBeOneOf, and nothing that differs from all of them does. */
  lemma MembersPass(o: Val, items: seq<Val>)
    requires Check(MustBeOneOf, o, List(items)).Some?
    ensures Check(MustBeOneOf, o, List(items)) == Some(true) <==>
            exists i :: 0 <= i < |items| && Check(MustEqual, o, items[i]) == Some(true)
    ensures forall i | 0 <= i < |items| :: Check(MustEqual, o, items[i]).Some?
  {
    if i :| 0 <= i < |items| && PyEq(o, items[i]) {
      assert !Ambiguous(o, items[i]);
      assert Check(MustEqual, o, items[i]) == Some(true);
    }
  }

  /** A list decides exactly if it is not empty and no member is ambiguous against the observation. */
  lemma ListsDecide(o: Val, v: Val)
    ensures Check(MustBeOneOf, o, v).Some? <==>
            v.List? && v.items != [] && forall i | 0 <= i < |v.items| :: Check(MustEqual, o, v.items[i]).Some?
  {
    if v.List? && Check(MustBeOneOf, o, v).Some? {
      forall i | 0 <= i < |v.items| ensures Check(MustEqual, o, v.items[i]).Some? {
        assert !Ambiguous(o, v.items[i]);
      }
    }
  }

  function Negation(o: Option<bool>): Option<bool> {
    if o.None? then None else Some(!o.value)
  }

  function Both(a: Option<bool>, b: Option<bool>): Option<bool> {
    if a.None? || b.None? then None else Some(a.value && b.value)
  }

  /** Four pairs of handlers are each other's negation. */
  lemma PredicateDuals(o: Val, v: Val)
    ensures Check(MustNotExceed, o, v) == Negation(Check(MustBeAbove, o, v))
    ensures Check(MustBeAtLeast, o, v) == Negation(Check(MustBeBelow, o, v))
    ensures Check(MustBeOneOf, o, v) == Negation(Check(MustNotBeOneOf, o, v))
    ensures Check(MustEqual, o, v) == Negation(Check(MustNotEqual, o, v))
  {
  }

  /** A range is its two inclusive bounds. */
  lemma WithinIsTwoBounds(o: Val, lo: Val, hi: Val)
    ensures Check(MustBeWithin, o, List([lo, hi])) == Both(Check(MustBeAtLeast, o, lo), Check(MustNotExceed, o, hi))
  {
    var range := [lo, hi];
    assert range[0] == lo && range[1] == hi;
  }

  /** Membership in a singleton is equality. */
  lemma OneOfSingleton(o: Val, v: Val)
    ensures Check(MustBeOneOf, o, List([v])) == Check(MustEqual, o, v)
  {
    var members := [v];
    assert members[0] == v;
    assert IsMember(o, members) <==> PyEq(o, v);
    assert AnyAmbiguous(o, members) <==> Ambiguous(o, v);
  }

  /** Booleans, NaN and infinities never decide a comparison with numbers. */
  lemma UnusableNeverDecides(p: Predicate, o: Val, v: Val)
    requires o.Bool? || IsNonFinite(o)
    ensures p in {MustNotExceed, MustBeAtLeast, MustBeBelow, MustBeAbove, MustBeWithin} ==> Check(p, o, v).None?
    ensures IsNonFinite(o) || IsReal(v) ==> Check(p, o, v).None?
  {
    if IsNonFinite(o) && v.List? && v.items != [] {
      assert Ambiguous(o, v.items[0]);
    }
  }

  lemma SameMembership(o1: Val, o2: Val, xs: seq<Val>, ys: seq<Val>)
    requires PyEq(o1, o2) && |xs| == |ys| && forall i | 0 <= i < |xs| :: PyEq(xs[i], ys[i])
    ensures IsMember(o1, xs) <==> IsMember(o2, ys)
  {
    forall i | 0 <= i < |xs| ensures PyEq(o1, xs[i]) <==> PyEq(o2, ys[i]) {
      PyEqSame(o1, o2, xs[i]);
      PyEqSame(xs[i], ys[i], o2);
    }
  }

  lemma EqualReals(a: Val, b: Val)
    requires PyEq(a, b) && IsReal(a) && IsReal(b)
    ensures RealOf(a) == RealOf(b)
  {
  }

  lemma EqualRanges(a: Val, b: Val)
    requires PyEq(a, b) && IsRange(a) && IsRange(b)
    ensures RealOf(a.items[0]) == RealOf(b.items[0]) && RealOf(a.items[1]) == RealOf(b.items[1])
  {
    EqualReals(a.items[0], b.items[0]);
    EqualReals(a.items[1], b.items[1]);
  }

  lemma EqualComparands(o1: Val, o2: Val, v1: Val, v2: Val)
    requires PyEq(o1, o2) && PyEq(v1, v2)
    ensures PyEq(o1, v1) <==> PyEq(o2, v2)
  {
    PyEqSame(o1, o2, v1);
    PyEqSame(v1, v2, o2);
  }

  lemma EqualMembershipAgrees(p: Predicate, o1: Val, o2: Val, v1: Val, v2: Val)
    requires PyEq(o1, o2) && PyEq(v1, v2) && p in {MustBeOneOf, MustNotBeOneOf}
    requires Check(p, o1, v1).Some? && Check(p, o2, v2).Some?
    ensures Check(p, o1, v1) == Check(p, o2, v2)
  {
    SameMembership(o1, o2, v1.items, v2.items);
  }

  lemma EqualRangesAgree(o1: Val, o2: Val, v1: Val, v2: Val)
    requires PyEq(o1, o2) && PyEq(v1, v2)
    requires Check(MustBeWithin, o1, v1).Some? && Check(MustBeWithin, o2, v2).Some?
    ensures Check(MustBeWithin, o1, v1) == Check(MustBeWithin, o2, v2)
  {
    EqualReals(o1, o2);
    EqualRanges(v1, v2);
  }

  /** Operands equal in Python's sense never give two different decisions. */
  lemma EqualOperandsAgree(p: Predicate, o1: Val, o2: Val, v1: Val, v2: Val)
    requires PyEq(o1, o2) && PyEq(v1, v2)
    requires Check(p, o1, v1).Some? && Check(p, o2, v2).Some?
    ensures Check(p, o1, v1) == Check(p, o2, v2)
  {
    match p
    case MustBeWithin => EqualRangesAgree(o1, o2, v1, v2);
    case MustBeOneOf => EqualMembershipAgrees(p, o1, o2, v1, v2);
    case MustNotBeOneOf => EqualMembershipAgrees(p, o1, o2, v1, v2);
    case MustEqual => EqualComparands(o1, o2, v1, v2);
    case MustNotEqual => EqualComparands(o1, o2, v1, v2);
    case _ =>
      EqualReals(o1, o2);
      EqualReals(v1, v2);
  }

  // ---------------------------------------------------------------- windowed

  /** What a telemetry buffer's window_query may give back. */
  datatype WindowResult =
    | Raises
    | Aggregate(count: Val, average: Val, peak: Option<Val>)  // peak None: the buffer has no max_value
    | Samples(items: seq<Sample>)
    | NoResult                                                // Python None
    | Unrecognised

  datatype Sample = Timed(value: Val) | Untimed(value: Val)

  datatype Freshness = Fresh | Stale | FreshnessFailed

  datatype Buffer = Buffer(
    window: (string, int, int, Option<string>) -> WindowResult,     // subject, as_of, seconds, metric
    hasFreshSample: Option<(string, int, int) -> Freshness>         // None: no such method
  )

  /** What the caller supplies for stateful checks; each part may be missing. */
  datatype Telemetry = Telemetry(subject: Option<string>, asOf: Option<int>, buffer: Option<Buffer>)

  datatype Summary = Summary(average: Option<real>, peak: Option<real>, peakReported: bool)

  function ExactNumber(v: Val): Option<real> {
    if IsReal(v) then Some(RealOf(v)) else None
  }

  /** A sample's reading: a pair's second part, a dict's "value", else the entry itself. */
  function Reading(s: Sample): Val {
    if s.Untimed? && s.value.Dict? && "value" in s.value.entries then s.value.entries["value"] else s.value
  }

  function Readings(samples: seq<Sample>): seq<real> {
    if samples == [] then []
    else
      var n := ExactNumber(Reading(samples[0]));
      (if n.Some? then [n.value] else []) + Readings(samples[1..])
  }

  function Sum(xs: seq<real>): real {
    if xs == [] then 0.0 else xs[0] + Sum(xs[1..])
  }

  function Max(xs: seq<real>): (m: real)
    requires xs != []
    ensures m in xs && forall x | x in xs :: x <= m
  {
    assert xs == [xs[0]] + xs[1..];
    if |xs| == 1 then xs[0]
    else
      var rest := Max(xs[1..]);
      if xs[0] > rest then xs[0] else rest
  }

  function Summarize(data: WindowResult): Option<Summary> {
    match data
    case Aggregate(_, average, peak) =>
      Some(Summary(ExactNumber(average), if peak.Some? then ExactNumber(peak.value) else None, peak.Some?))
    case Samples(items) =>
      var xs := Readings(items);
      Some(if xs == [] then Summary(None, None, true) else Summary(Some(Sum(xs) / |xs| as real), Some(Max(xs)), true))
    case _ => None
  }

  /** The summary of a window, or None where any step leaves the predicate UNVERIFIABLE. */
  function WindowSummary(t: Telemetry, metric: string, window: Option<int>): Option<Summary> {
    if t.buffer.None? || t.subject.None? || t.asOf.None? || window.None? || window.value <= 0 then None
    else Summarize(t.buffer.value.window(t.subject.value, t.asOf.value, window.value, Some(metric)))
  }

  function CheckAverage(t: Telemetry, metric: string, window: Option<int>, value: Val): Option<bool> {
    var summary := WindowSummary(t, metric, window);
    if !IsRange(value) || summary.None? || summary.value.average.None? then None
    else Some(RealOf(value.items[0]) <= summary.value.average.value <= RealOf(value.items[1]))
  }

  function CheckPeak(t: Telemetry, metric: string, window: Option<int>, value: Val): Option<bool> {
    var summary := WindowSummary(t, metric, window);
    if !IsReal(value) || summary.None? || !summary.value.peakReported || summary.value.peak.None? then None
    else Some(summary.value.peak.value <= RealOf(value))
  }

  lemma {:induction false} ReadingsAreNumbers(samples: seq<Sample>)
    ensures forall x :: x in Readings(samples) <==>
              exists i :: 0 <= i < |samples| && ExactNumber(Reading(samples[i])) == Some(x)
  {
    if samples != [] {
      ReadingsAreNumbers(samples[1..]);
      forall x ensures x in Readings(samples) <==>
                exists i :: 0 <= i < |samples| && ExactNumber(Reading(samples[i])) == Some(x)
      {
        if x in Readings(samples[1..]) {
          var i :| 0 <= i < |samples[1..]| && ExactNumber(Reading(samples[1..][i])) == Some(x);
          assert samples[i + 1] == samples[1..][i];
        }
        if i :| 0 <= i < |samples| && ExactNumber(Reading(samples[i])) == Some(x) {
          if i > 0 {
            assert samples[1..][i - 1] == samples[i];
          }
        }
      }
    }
  }

  /** The ways a buffer may hand over the number v: bare, second in a pair, or as the value of an object. */
  predicate Spells(s: Sample, v: Val) {
    || s == Untimed(v)
    || s == Timed(v)
    || (s.Untimed? && s.value.Dict? && "value" in s.value.entries && s.value.entries["value"] == v)
  }

  /** Whatever the shapes, the numbers are read in order. */
  lemma {:induction false} ShapesRead(samples: seq<Sample>, vs: seq<Val>)
    requires |samples| == |vs| && forall i | 0 <= i < |vs| :: IsReal(vs[i]) && Spells(samples[i], vs[i])
    ensures |Readings(samples)| == |vs| && forall i | 0 <= i < |vs| :: Readings(samples)[i] == RealOf(vs[i])
  {
    if samples != [] {
      ShapesRead(samples[1..], vs[1..]);
      assert Reading(samples[0]) == vs[0];
      assert Readings(samples) == [RealOf(vs[0])] + Readings(samples[1..]);
    }
  }

  /** On a sample list the peak check is a check of every numeric sample, however large. */
  lemma PeakIsEverySample(t: Telemetry, metric: string, window: Option<int>, cap: Val, samples: seq<Sample>)
    requires WindowGiven(t, window)
    requires t.buffer.value.window(t.subject.value, t.asOf.value, window.value, Some(metric)) == Samples(samples)
    requires IsReal(cap)
    ensures CheckPeak(t, metric, window, cap).Some? <==> exists i :: 0 <= i < |samples| && IsReal(Reading(samples[i]))
    ensures CheckPeak(t, metric, window, cap) == Some(false) <==>
            exists i :: 0 <= i < |samples| && IsReal(Reading(samples[i])) && RealOf(Reading(samples[i])) > RealOf(cap)
  {
    ReadingsAreNumbers(samples);
    var xs := Readings(samples);
    forall i | 0 <= i < |samples| && IsReal(Reading(samples[i])) ensures RealOf(Reading(samples[i])) in xs {
      assert ExactNumber(Reading(samples[i])) == Some(RealOf(Reading(samples[i])));
    }
    if xs != [] {
      var i :| 0 <= i < |samples| && ExactNumber(Reading(samples[i])) == Some(Max(xs));
      assert IsReal(Reading(samples[i]));
    }
  }

  /** The parts a windowed check needs. */
  predicate WindowGiven(t: Telemetry, window: Option<int>) {
    t.buffer.Some? && t.subject.Some? && t.asOf.Some? && window.Some? && window.value > 0
  }

  /** Without a buffer, a subject, an instant and a positive window nothing is decided. */
  lemma WindowNeeded(t: Telemetry, metric: string, window: Option<int>, value: Val)
    requires !WindowGiven(t, window)
    ensures CheckAverage(t, metric, window, value).None? && CheckPeak(t, metric, window, value).None?
  {
  }

  /** An aggregate's average and peak are checked like readings; a missing peak is never taken from the average. */
  lemma AggregateIsReading(t: Telemetry, metric: string, window: Option<int>, value: Val, count: Val, average: Val,
                           peak: Option<Val>)
    requires WindowGiven(t, window)
    requires t.buffer.value.window(t.subject.value, t.asOf.value, window.value, Some(metric)) ==
             Aggregate(count, average, peak)
    ensures CheckAverage(t, metric, window, value) == Check(MustBeWithin, average, value)
    ensures CheckPeak(t, metric, window, value) == if peak.None? then None else Check(MustNotExceed, peak.value, value)
  {
  }

  lemma OneMore(n: nat, x: real)
    ensures (n + 1) as real * x == x + n as real * x
  {
    assert (n + 1) as real == 1.0 + n as real;
  }

  /** n samples within bounds add up to within n times the bounds. */
  lemma {:induction false} SumBounds(xs: seq<real>, lo: real, hi: real)
    requires forall x | x in xs :: lo <= x <= hi
    ensures |xs| as real * lo <= Sum(xs) <= |xs| as real * hi
  {
    if xs != [] {
      assert forall x | x in xs[1..] :: x in xs;
      SumBounds(xs[1..], lo, hi);
      assert xs[0] in xs;
      OneMore(|xs[1..]|, lo);
      OneMore(|xs[1..]|, hi);
    }
  }

  lemma Scaled(d: real, x: real, y: real)
    requires d > 0.0
    ensures x <= y <==> d * x <= d * y
  {
    if x <= y {
      assert d * (y - x) >= 0.0;
    } else {
      assert d * (x - y) > 0.0;
    }
  }

  /** The mean of the samples lies within bounds: their sum within as many times the bounds. */
  predicate MeanWithin(xs: seq<real>, lo: real, hi: real) {
    |xs| as real * lo <= Sum(xs) <= |xs| as real * hi
  }

  lemma MeanMeans(xs: seq<real>, lo: real, hi: real)
    requires xs != []
    ensures lo <= Sum(xs) / |xs| as real <= hi <==> MeanWithin(xs, lo, hi)
  {
    var (d, mean) := (|xs| as real, Sum(xs) / |xs| as real);
    assert d * mean == Sum(xs);
    Scaled(d, lo, mean);
    Scaled(d, mean, hi);
  }

  /** The average lies between the smallest and the largest sample. */
  lemma AverageBounds(xs: seq<real>, lo: real, hi: real)
    requires xs != [] && forall x | x in xs :: lo <= x <= hi
    ensures lo <= Sum(xs) / |xs| as real <= hi
  {
    SumBounds(xs, lo, hi);
    MeanMeans(xs, lo, hi);
  }

  /** Samples that all lie in a range keep it on average; samples that all lie on one side of it break it. */
  lemma AverageFollowsSamples(t: Telemetry, metric: string, window: Option<int>, value: Val, samples: seq<Sample>,
                              lo: real, hi: real)
    requires WindowGiven(t, window) && IsRange(value)
    requires t.buffer.value.window(t.subject.value, t.asOf.value, window.value, Some(metric)) == Samples(samples)
    requires exists i :: 0 <= i < |samples| && IsReal(Reading(samples[i]))
    requires forall i | 0 <= i < |samples| && IsReal(Reading(samples[i])) :: lo <= RealOf(Reading(samples[i])) <= hi
    ensures RealOf(value.items[0]) <= lo && hi <= RealOf(value.items[1]) ==>
              CheckAverage(t, metric, window, value) == Some(true)
    ensures hi < RealOf(value.items[0]) || RealOf(value.items[1]) < lo ==>
              CheckAverage(t, metric, window, value) == Some(false)
  {
    var xs := Readings(samples);
    ReadingsAreNumbers(samples);
    var i :| 0 <= i < |samples| && IsReal(Reading(samples[i]));
    assert ExactNumber(Reading(samples[i])) == Some(RealOf(Reading(samples[i])));
    assert RealOf(Reading(samples[i])) in xs;
    AverageBounds(xs, lo, hi);
  }

  /** The check of the average is a check of the sum of the numeric samples. */
  lemma AverageIsMean(t: Telemetry, metric: string, window: Option<int>, value: Val, samples: seq<Sample>)
    requires WindowGiven(t, window) && IsRange(value)
    requires t.buffer.value.window(t.subject.value, t.asOf.value, window.value, Some(metric)) == Samples(samples)
    ensures CheckAverage(t, metric, window, value) ==
            var xs := Readings(samples);
            if xs == [] then None else Some(MeanWithin(xs, RealOf(value.items[0]), RealOf(value.items[1])))
  {
    var xs := Readings(samples);
    if xs != [] {
      MeanMeans(xs, RealOf(value.items[0]), RealOf(value.items[1]));
    }
  }
}
