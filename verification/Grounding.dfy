/**
 What the verifier holds the model to: the measurement, the cited obligation,
 and its own enumeration of every obligation it can evaluate.
 */
module Grounding {
  import opened Common
  import opened Values
  import opened Predicates

  type Measurement = map<string, Val>

  /** An obligation dict of the scoped KG slice; Null where a key is absent, except the id. */
  datatype Obligation = Obligation(
    id: Option<Val>,
    metric: Val,
    pred: Option<Predicate>,
    value: Val,
    unit: Val,
    window: Val,      // window_seconds
    recent: Val       // requires_recent_within_seconds
  )

  datatype Assertion = Assertion(
    pred: Predicate,
    metric: string,
    value: Val,
    observed: Val,
    satisfied: bool,
    obligationId: string,
    window: Option<int>
  )

  /** One entry of the index by obligation id. */
  datatype Indexed = Indexed(id: string, ob: Obligation)

  type Index = seq<Indexed>

  function Lookup(index: Index, id: string): Option<Obligation> {
    if index == [] then None
    else if index[0].id == id then Some(index[0].ob)
    else Lookup(index[1..], id)
  }

  ghost predicate DistinctIds(index: Index) {
    forall i, j | 0 <= i < j < |index| :: index[i].id != index[j].id
  }

  // --------------------------------------------------------------- readings

  function SplitDots(s: string): (parts: seq<string>)
    ensures parts != []
  {
    if s == [] then [[]]
    else
      var rest := SplitDots(s[1..]);
      if s[0] == '.' then [[]] + rest else [[s[0]] + rest[0]] + rest[1..]
  }

  function Walk(current: Val, parts: seq<string>): Option<Val>
    decreases |parts|
  {
    if parts == [] then Some(current)
    else if !current.Dict? || parts[0] !in current.entries then None
    else Walk(current.entries[parts[0]], parts[1..])
  }

  /** _resolve_reading: a top-level key, else a dotted path into nested objects. */
  function Resolve(m: Measurement, metric: string): Option<Val> {
    if metric in m then Some(m[metric])
    else if '.' !in metric then None
    else Walk(Dict(m), SplitDots(metric))
  }

  /** {"value": x, "unit": u} is a unit-bearing reading. */
  function SplitUnit(raw: Val): (Val, Val) {
    if raw.Dict? && "value" in raw.entries then
      (raw.entries["value"], if "unit" in raw.entries then raw.entries["unit"] else Null)
    else (raw, Null)
  }

  function JoinDots(parts: seq<string>): string
    requires parts != []
  {
    if |parts| == 1 then parts[0] else parts[0] + ['.'] + JoinDots(parts[1..])
  }

  lemma {:induction false} SplitWord(word: string, rest: string)
    requires '.' !in word
    ensures SplitDots(word) == [word]
    ensures SplitDots(word + ['.'] + rest) == [word] + SplitDots(rest)
  {
    var t := word + ['.'] + rest;
    if word != [] {
      assert forall c | c in word[1..] :: c in word;
      SplitWord(word[1..], rest);
      assert t[1..] == word[1..] + ['.'] + rest && word[0] in word && t[0] == word[0];
      assert [word[0]] + word[1..] == word;
      assert ([word[1..]] + SplitDots(rest))[1..] == SplitDots(rest);
    } else {
      assert t[0] == '.' && t[1..] == rest;
    }
  }

  /** A dotted path is read as its parts. */
  lemma {:induction false} SplitJoined(parts: seq<string>)
    requires parts != [] && forall part | part in parts :: '.' !in part
    ensures SplitDots(JoinDots(parts)) == parts
  {
    assert parts[0] in parts;
    if |parts| == 1 {
      SplitWord(parts[0], []);
    } else {
      assert forall part | part in parts[1..] :: part in parts;
      SplitJoined(parts[1..]);
      SplitWord(parts[0], JoinDots(parts[1..]));
      assert [parts[0]] + parts[1..] == parts;
    }
  }

  lemma DotInJoined(parts: seq<string>)
    requires |parts| > 1
    ensures '.' in JoinDots(parts)
  {
    assert JoinDots(parts)[|parts[0]|] == '.';
  }

  /** Under nested objects, key by key, stands the leaf. */
  predicate Nested(v: Val, path: seq<string>, leaf: Val)
    decreases |path|
  {
    if path == [] then v == leaf
    else v.Dict? && path[0] in v.entries && Nested(v.entries[path[0]], path[1..], leaf)
  }

  lemma {:induction false} WalkMeans(v: Val, path: seq<string>, leaf: Val)
    ensures Walk(v, path) == Some(leaf) <==> Nested(v, path, leaf)
    decreases |path|
  {
    if path != [] && v.Dict? && path[0] in v.entries {
      WalkMeans(v.entries[path[0]], path[1..], leaf);
    }
  }

  /** A metric is the key of that very name, or else the leaf its dotted path leads to. */
  lemma ReadingMeans(m: Measurement, parts: seq<string>, leaf: Val)
    requires parts != [] && forall part | part in parts :: '.' !in part
    ensures Resolve(m, JoinDots(parts)) == Some(leaf) <==>
            if JoinDots(parts) in m then m[JoinDots(parts)] == leaf else |parts| > 1 && Nested(Dict(m), parts, leaf)
  {
    SplitJoined(parts);
    WalkMeans(Dict(m), parts, leaf);
    if |parts| > 1 {
      DotInJoined(parts);
    } else {
      assert parts[0] in parts;
    }
  }

  // -------------------------------------------------------------- grounding

  /** _grounding_violation: the asserted observation is not what was measured. */
  predicate Fabricated(a: Assertion, m: Measurement) {
    if a.window.Some? || a.observed.Null? then false
    else if a.metric !in m then true
    else
      var actual := SplitUnit(m[a.metric]).0;
      if actual.Bool? || a.observed.Bool? then actual != a.observed
      else !(actual.NaN? && a.observed.NaN?) && !PyEq(actual, a.observed)
  }

  /** _obligation_grounding_violation: the claim is not the cited obligation's. */
  predicate Misquotes(a: Assertion, index: Index) {
    var ob := Lookup(index, a.obligationId);
    || ob.None?
    || (!ob.value.metric.Null? && !PyEq(Str(a.metric), ob.value.metric))
    || (ob.value.pred.Some? && a.pred != ob.value.pred.value)
    || (!ob.value.value.Null? && !a.value.Null? && !PyEq(ob.value.value, a.value))
  }

  /**
   A grounded claim is an honest one: where the model's assertion passes both
   grounding checks on all operands, it cannot be decided differently from the
   verifier's own evaluation of the cited obligation on the measured reading.
   */
  lemma GroundedAgrees(a: Assertion, m: Measurement, index: Index, ob: Obligation)
    requires !Fabricated(a, m) && !Misquotes(a, index) && Lookup(index, a.obligationId) == Some(ob)
    requires a.window.None? && !a.observed.Null? && !a.value.Null?
    requires ob.metric.Str? && ob.pred.Some? && !ob.value.Null?
    requires Check(a.pred, a.observed, a.value).Some?
    ensures Resolve(m, ob.metric.s).Some?
    ensures var own := Check(ob.pred.value, SplitUnit(Resolve(m, ob.metric.s).value).0, ob.value);
            own.Some? ==> own == Check(a.pred, a.observed, a.value)
  {
    var actual := SplitUnit(m[a.metric]).0;
    if Check(a.pred, actual, ob.value).Some? {
      if a.observed.NaN? {
        UnusableNeverDecides(a.pred, a.observed, a.value);
      } else {
        assert PyEq(actual, a.observed);
        EqualOperandsAgree(a.pred, actual, a.observed, ob.value, a.value);
      }
    }
  }

  /** What is asserted is what was measured: the same value up to int and float, a bool or a NaN only for its like. */
  predicate Reports(observed: Val, actual: Val) {
    || (observed.NaN? && actual.NaN?)
    || (observed.Bool? && observed == actual)
    || (!observed.Bool? && !actual.Bool? && NanFree(observed) && NanFree(actual) && Normal(observed) == Normal(actual))
  }

  /** An honest observation is never called fabricated, and no other ever passes. */
  lemma FabricatedExactly(a: Assertion, m: Measurement)
    requires a.window.None? && !a.observed.Null?
    ensures !Fabricated(a, m) <==> a.metric in m && Reports(a.observed, SplitUnit(m[a.metric]).0)
  {
    if a.metric in m {
      var actual := SplitUnit(m[a.metric]).0;
      EqualNormals(actual, a.observed);
    }
  }

  /** A windowed assertion, or one without an observation, is left to the buffer and the telemetry guard. */
  lemma NothingObserved(a: Assertion, m: Measurement)
    requires a.window.Some? || a.observed.Null?
    ensures !Fabricated(a, m)
  {
  }

  /** The assertion repeats the obligation it cites. */
  predicate Quotes(a: Assertion, ob: Obligation) {
    && (ob.metric == Str(a.metric) || ob.metric.Null?)
    && (ob.pred == Some(a.pred) || ob.pred.None?)
    && (|| ob.value.Null? || a.value.Null?
        || (NanFree(ob.value) && NanFree(a.value) && Normal(ob.value) == Normal(a.value)))
  }

  lemma {:induction false} LookupMeans(index: Index, id: string, ob: Obligation)
    requires DistinctIds(index)
    ensures Lookup(index, id) == Some(ob) <==> Indexed(id, ob) in index
  {
    if index != [] {
      assert index == [index[0]] + index[1..];
      LookupMeans(index[1..], id, ob);
      if Indexed(id, ob) in index[1..] {
        var k :| 0 <= k < |index[1..]| && index[1..][k] == Indexed(id, ob);
        assert index[k + 1].id == id;
      }
    }
  }

  /** A claim is grounded in the KG exactly if it quotes an obligation of the index, under the id it cites. */
  lemma MisquotesExactly(a: Assertion, index: Index)
    requires DistinctIds(index)
    ensures !Misquotes(a, index) <==> exists ob :: Indexed(a.obligationId, ob) in index && Quotes(a, ob)
  {
    var found := Lookup(index, a.obligationId);
    if found.Some? {
      LookupMeans(index, a.obligationId, found.value);
      EqualNormals(Str(a.metric), found.value.metric);
      EqualNormals(found.value.value, a.value);
    }
    if ob :| Indexed(a.obligationId, ob) in index && Quotes(a, ob) {
      LookupMeans(index, a.obligationId, ob);
    }
  }

  // ------------------------------------------------ independent enumeration

  /** An evaluable predicate on a metric that is present, with its raw reading. */
  datatype Mapping = Mapping(pred: Predicate, metric: string, raw: Val)

  /** How the verifier evaluates an obligation itself, if it does. */
  function Mapped(ob: Obligation, m: Measurement): Option<Mapping> {
    if ob.pred.None? || !Formalizable(ob.pred.value) || !ob.metric.Str? then None
    else
      var raw := Resolve(m, ob.metric.s);
      if raw.None? then None else Some(Mapping(ob.pred.value, ob.metric.s, raw.value))
  }

  datatype Probe = Probe(id: string, ob: Obligation, mapping: Mapping)

  /** _enumerable_obligations over the index, in its order. */
  function Enumerate(index: Index, m: Option<Measurement>): (ps: seq<Probe>)
    ensures |ps| <= |index|
  {
    if index == [] || m.None? then []
    else
      var last := index[|index| - 1];
      var init := Enumerate(index[..|index| - 1], m);
      var mapping := Mapped(last.ob, m.value);
      if mapping.Some? then init + [Probe(last.id, last.ob, mapping.value)] else init
  }

  ghost predicate DistinctProbes(ps: seq<Probe>) {
    forall i, j | 0 <= i < j < |ps| :: ps[i].id != ps[j].id
  }

  lemma {:induction false} EnumerateSound(index: Index, m: Option<Measurement>)
    ensures forall p | p in Enumerate(index, m) ::
              m.Some? && Indexed(p.id, p.ob) in index && Mapped(p.ob, m.value) == Some(p.mapping)
    ensures m.Some? ==> forall e | e in index && Mapped(e.ob, m.value).Some? ::
              Probe(e.id, e.ob, Mapped(e.ob, m.value).value) in Enumerate(index, m)
  {
    if index != [] && m.Some? {
      EnumerateSound(index[..|index| - 1], m);
      assert index == index[..|index| - 1] + [index[|index| - 1]];
    }
  }

  lemma {:induction false} EnumerateDistinct(index: Index, m: Option<Measurement>)
    requires DistinctIds(index)
    ensures DistinctProbes(Enumerate(index, m))
  {
    if index != [] && m.Some? {
      var init := index[..|index| - 1];
      EnumerateDistinct(init, m);
      EnumerateSound(init, m);
      forall p | p in Enumerate(init, m) ensures p.id != index[|index| - 1].id {
        var i :| 0 <= i < |init| && init[i] == Indexed(p.id, p.ob);
        assert index[i] == init[i];
      }
    }
  }

  // -------------------------------------------------------------- the index

  function StringId(ob: Obligation): Option<string> {
    if ob.id.Some? && ob.id.value.Str? then Some(ob.id.value.s) else None
  }

  /** The last obligation with a string id keeps it. */
  ghost predicate Keeps(obs: seq<Obligation>, i: nat)
    requires i < |obs|
  {
    StringId(obs[i]).Some? && forall j | i < j < |obs| :: StringId(obs[j]) != StringId(obs[i])
  }

  /** An obligation keeps its id if that is a string no later obligation bears. */
  lemma KeepsMeans(obs: seq<Obligation>, i: nat)
    requires i < |obs|
    ensures Keeps(obs, i) <==>
            exists s: string :: obs[i].id == Some(Str(s)) && forall j | i < j < |obs| :: obs[j].id != Some(Str(s))
  {
    if s: string :| obs[i].id == Some(Str(s)) && forall j | i < j < |obs| :: obs[j].id != Some(Str(s)) {
      assert StringId(obs[i]) == Some(s);
      forall j | i < j < |obs| ensures StringId(obs[j]) != Some(s) {
        assert obs[j].id != Some(Str(s));
      }
    }
    if Keeps(obs, i) {
      var s := StringId(obs[i]).value;
      forall j | i < j < |obs| ensures obs[j].id != Some(Str(s)) {
        assert StringId(obs[j]) != StringId(obs[i]);
      }
      assert obs[i].id == Some(Str(s));
    }
  }

  /** What the index would hide from the verifier although it could evaluate it. */
  ghost predicate Hidden(obs: seq<Obligation>, m: Option<Measurement>, i: nat)
    requires i < |obs|
  {
    !Keeps(obs, i) && m.Some? && Mapped(obs[i], m.value).Some?
  }

  ghost function IndexUpTo(obs: seq<Obligation>, n: nat): (index: Index)
    requires n <= |obs|
  {
    if n == 0 then []
    else
      IndexUpTo(obs, n - 1) +
      if Keeps(obs, n - 1) then [Indexed(StringId(obs[n - 1]).value, obs[n - 1])] else []
  }

  ghost function HiddenUpTo(obs: seq<Obligation>, m: Option<Measurement>, n: nat): seq<nat>
    requires n <= |obs|
  {
    if n == 0 then []
    else HiddenUpTo(obs, m, n - 1) + if Hidden(obs, m, n - 1) then [n - 1] else []
  }

  /** Positions of the last occurrence of each string id. */
  method LastPositions(obs: seq<Obligation>) returns (last: map<string, nat>)
    ensures forall i | 0 <= i < |obs| && StringId(obs[i]).Some? ::
              StringId(obs[i]).value in last && (Keeps(obs, i) <==> last[StringId(obs[i]).value] == i)
  {
    last := map[];
    var n := 0;
    while n < |obs|
      invariant 0 <= n <= |obs|
      invariant forall id | id in last :: last[id] < n && StringId(obs[last[id]]) == Some(id)
      invariant forall i | 0 <= i < n && StringId(obs[i]).Some? ::
                  StringId(obs[i]).value in last && i <= last[StringId(obs[i]).value]
    {
      var id := StringId(obs[n]);
      if id.Some? {
        last := last[id.value := n];
      }
      n := n + 1;
    }
    forall i | 0 <= i < |obs| && StringId(obs[i]).Some?
      ensures Keeps(obs, i) <==> last[StringId(obs[i]).value] == i
    {
      var id := StringId(obs[i]).value;
      if last[id] == i {
        forall j | i < j < |obs| ensures StringId(obs[j]) != StringId(obs[i]) {
        }
      } else {
        assert i < last[id] && StringId(obs[last[id]]) == Some(id);
      }
    }
  }

  /** index_obligations: the index by id and the positions of evaluable obligations it hides. */
  method IndexObligations(obs: seq<Obligation>, m: Option<Measurement>) returns (index: Index, hidden: seq<nat>)
    ensures index == IndexUpTo(obs, |obs|)
    ensures hidden == HiddenUpTo(obs, m, |obs|)
  {
    var last := LastPositions(obs);
    index, hidden := [], [];
    var n := 0;
    while n < |obs|
      invariant 0 <= n <= |obs|
      invariant index == IndexUpTo(obs, n)
      invariant hidden == HiddenUpTo(obs, m, n)
    {
      var id := StringId(obs[n]);
      if id.Some? && last[id.value] == n {
        index := index + [Indexed(id.value, obs[n])];
      } else if m.Some? && Mapped(obs[n], m.value).Some? {
        hidden := hidden + [n];
      }
      n := n + 1;
    }
  }

  lemma {:induction false} IndexMembers(obs: seq<Obligation>, n: nat)
    requires n <= |obs|
    ensures forall e :: e in IndexUpTo(obs, n) <==>
              exists i :: 0 <= i < n && Keeps(obs, i) && e == Indexed(StringId(obs[i]).value, obs[i])
    ensures DistinctIds(IndexUpTo(obs, n))
  {
    if n > 0 {
      IndexMembers(obs, n - 1);
      if Keeps(obs, n - 1) {
        forall e | e in IndexUpTo(obs, n - 1) ensures e.id != StringId(obs[n - 1]).value {
          var i :| 0 <= i < n - 1 && Keeps(obs, i) && e == Indexed(StringId(obs[i]).value, obs[i]);
        }
      }
    }
  }

  lemma {:induction false} HiddenMembers(obs: seq<Obligation>, m: Option<Measurement>, n: nat)
    requires n <= |obs|
    ensures forall i :: i in HiddenUpTo(obs, m, n) <==> 0 <= i < n && Hidden(obs, m, i)
  {
    if n > 0 {
      HiddenMembers(obs, m, n - 1);
    }
  }

  /** Nothing the verifier could evaluate is lost: it is enumerated exactly once, or reported as hidden. */
  lemma NothingLost(obs: seq<Obligation>, m: Measurement, i: nat)
    requires i < |obs| && Mapped(obs[i], m).Some?
    ensures DistinctProbes(Enumerate(IndexUpTo(obs, |obs|), Some(m)))
    ensures if Keeps(obs, i) then
              Probe(StringId(obs[i]).value, obs[i], Mapped(obs[i], m).value) in
              Enumerate(IndexUpTo(obs, |obs|), Some(m))
            else i in HiddenUpTo(obs, Some(m), |obs|)
  {
    IndexMembers(obs, |obs|);
    HiddenMembers(obs, Some(m), |obs|);
    EnumerateSound(IndexUpTo(obs, |obs|), Some(m));
    EnumerateDistinct(IndexUpTo(obs, |obs|), Some(m));
    if Keeps(obs, i) {
      assert Indexed(StringId(obs[i]).value, obs[i]) in IndexUpTo(obs, |obs|);
    }
  }
}
