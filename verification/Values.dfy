/** JSON values as Python holds them, and Python's equality on them. */
module Values {

  datatype Val =
    | Null
    | Bool(b: bool)
    | Int(i: int)
    | Float(x: real)            // a finite double
    | NaN
    | Infinite(negative: bool)
    | Str(s: string)
    | List(items: seq<Val>)
    | Dict(entries: map<string, Val>)

  /** A finite, non-bool number. */
  predicate IsReal(v: Val) {
    v.Int? || v.Float?
  }

  function RealOf(v: Val): real
    requires IsReal(v)
  {
    if v.Int? then v.i as real else v.x
  }

  predicate IsNonFinite(v: Val) {
    v.NaN? || v.Infinite?
  }

  /** isinstance(v, (int, float)): a bool is an int. */
  predicate IsNumber(v: Val) {
    IsReal(v) || IsNonFinite(v) || v.Bool?
  }

  /** The value a bool or a finite number compares by. */
  function Numeric(v: Val): real
    requires IsReal(v) || v.Bool?
  {
    if v.Bool? then if v.b then 1.0 else 0.0 else RealOf(v)
  }

  /** Python's ==: exact across int, float and bool, NaN equal to nothing. */
  predicate PyEq(a: Val, b: Val) {
    match a
    case Null => b.Null?
    case NaN => false
    case Infinite(negative) => b == Infinite(negative)
    case Str(s) => b == Str(s)
    case List(xs) => b.List? && |xs| == |b.items| && forall i | 0 <= i < |xs| :: PyEq(xs[i], b.items[i])
    case Dict(m) => b.Dict? && m.Keys == b.entries.Keys && forall k | k in m.Keys :: PyEq(m[k], b.entries[k])
    case _ => (IsReal(b) || b.Bool?) && Numeric(a) == Numeric(b)
  }

  /** No NaN anywhere inside. */
  predicate NanFree(v: Val) {
    match v
    case NaN => false
    case List(items) => forall x | x in items :: NanFree(x)
    case Dict(m) => forall k | k in m.Keys :: NanFree(m[k])
    case _ => true
  }

  /** Every bool and number replaced by the real number it stands for, at any depth. */
  function Normal(v: Val): Val {
    match v
    case Bool(b) => Float(if b then 1.0 else 0.0)
    case Int(i) => Float(i as real)
    case List(items) => List(NormalItems(items))
    case Dict(m) => Dict(map k | k in m.Keys :: Normal(m[k]))
    case _ => v
  }

  function NormalItems(items: seq<Val>): (r: seq<Val>)
    ensures |r| == |items|
    ensures forall i | 0 <= i < |items| :: r[i] == Normal(items[i])
  {
    if items == [] then [] else [Normal(items[0])] + NormalItems(items[1..])
  }

  lemma SameLists(xs: seq<Val>, ys: seq<Val>)
    ensures NormalItems(xs) == NormalItems(ys) <==>
            |xs| == |ys| && forall i | 0 <= i < |xs| :: Normal(xs[i]) == Normal(ys[i])
  {
    var (us, vs) := (NormalItems(xs), NormalItems(ys));
    if us == vs {
      forall i | 0 <= i < |xs| ensures Normal(xs[i]) == Normal(ys[i]) {
        assert us[i] == vs[i];
      }
    }
  }

  lemma SameDicts(m: map<string, Val>, n: map<string, Val>)
    ensures Normal(Dict(m)) == Normal(Dict(n)) <==>
            m.Keys == n.Keys && forall k | k in m.Keys :: Normal(m[k]) == Normal(n[k])
  {
    var (us, vs) := (Normal(Dict(m)).entries, Normal(Dict(n)).entries);
    assert us.Keys == m.Keys && vs.Keys == n.Keys;
    if us == vs {
      forall k | k in m.Keys ensures Normal(m[k]) == Normal(n[k]) {
        assert us[k] == vs[k];
      }
    }
  }

  /** How equality and normal forms are related. */
  ghost predicate Corresponds(a: Val, b: Val) {
    PyEq(a, b) <==> NanFree(a) && NanFree(b) && Normal(a) == Normal(b)
  }

  lemma ListsCorrespond(xs: seq<Val>, ys: seq<Val>)
    requires |xs| == |ys| ==> forall i | 0 <= i < |xs| :: Corresponds(xs[i], ys[i])
    ensures Corresponds(List(xs), List(ys))
  {
    SameLists(xs, ys);
    if PyEq(List(xs), List(ys)) {
      assert forall i | 0 <= i < |xs| :: Corresponds(xs[i], ys[i]);
    }
  }

  lemma DictsCorrespond(m: map<string, Val>, n: map<string, Val>)
    requires m.Keys == n.Keys ==> forall k | k in m.Keys :: Corresponds(m[k], n[k])
    ensures Corresponds(Dict(m), Dict(n))
  {
    SameDicts(m, n);
    if PyEq(Dict(m), Dict(n)) {
      assert forall k | k in m.Keys :: Corresponds(m[k], n[k]);
    }
  }

  /** Python equality is equality of normal forms, of values free of NaN. */
  lemma {:induction false} EqualNormals(a: Val, b: Val)
    ensures PyEq(a, b) <==> NanFree(a) && NanFree(b) && Normal(a) == Normal(b)
  {
    match (a, b)
    case (List(xs), List(ys)) =>
      if |xs| == |ys| {
        forall i | 0 <= i < |xs| ensures Corresponds(xs[i], ys[i]) {
          EqualNormals(xs[i], ys[i]);
        }
      }
      ListsCorrespond(xs, ys);
    case (Dict(m), Dict(n)) =>
      if m.Keys == n.Keys {
        forall k | k in m.Keys ensures Corresponds(m[k], n[k]) {
          EqualNormals(m[k], n[k]);
        }
      }
      DictsCorrespond(m, n);
    case _ =>
  }

  lemma PyEqSymmetric(a: Val, b: Val)
    requires PyEq(a, b)
    ensures PyEq(b, a)
  {
    EqualNormals(a, b);
    EqualNormals(b, a);
  }

  lemma PyEqTransitive(a: Val, b: Val, c: Val)
    requires PyEq(a, b) && PyEq(b, c)
    ensures PyEq(a, c)
  {
    EqualNormals(a, b);
    EqualNormals(b, c);
    EqualNormals(a, c);
  }

  lemma PyEqReplace(a: Val, b: Val, c: Val)
    requires PyEq(a, b)
    ensures PyEq(a, c) ==> PyEq(b, c)
    ensures PyEq(c, a) ==> PyEq(c, b)
  {
    PyEqSymmetric(a, b);
    if PyEq(a, c) {
      PyEqTransitive(b, a, c);
    }
    if PyEq(c, a) {
      PyEqTransitive(c, a, b);
    }
  }

  /** Equal values compare alike with any third value. */
  lemma PyEqSame(a: Val, b: Val, c: Val)
    requires PyEq(a, b)
    ensures PyEq(a, c) <==> PyEq(b, c)
    ensures PyEq(c, a) <==> PyEq(c, b)
  {
    PyEqSymmetric(a, b);
    PyEqReplace(a, b, c);
    PyEqReplace(b, a, c);
  }

  /** A comparison decided by bool/number punning or a non-finite float. */
  predicate Ambiguous(a: Val, b: Val) {
    IsNonFinite(a) || IsNonFinite(b) || (IsNumber(a) && IsNumber(b) && a.Bool? != b.Bool?)
  }
}
