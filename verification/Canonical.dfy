/**
 Canonical JSON (RFC 8785): the values that have a canonical text, the text that
 is written for them, and the value a JSON text denotes.
 */
module Canonical {
  import opened Unicode
  import opened Numbers
  import opened Strings

  /** A Python number as the serializer meets it, after int-to-double conversion. */
  datatype Number =
    | Finite(negative: bool, repr: Repr)
    | NonFinite              // NaN or an infinity
    | InexactInteger         // an int that no double holds exactly

  /** A Python object handed to the serializer; members are in insertion order. */
  datatype Json =
    | Null
    | Bool(b: bool)
    | Num(number: Number)
    | Str(text: Text)
    | Arr(items: seq<Json>)
    | Obj(members: seq<Member>)
    | Foreign                // bytes, Decimal, datetime, set, ...

  datatype Member = Member(name: Text, value: Json)

  /** A Mapping has each name once. */
  ghost predicate DistinctNames(ms: seq<Member>) {
    forall i, j | 0 <= i < j < |ms| :: ms[i].name != ms[j].name
  }

  ghost predicate IsMapping(v: Json) {
    match v
    case Arr(items) => forall x | x in items :: IsMapping(x)
    case Obj(ms) => DistinctNames(ms) && forall m | m in ms :: IsMapping(m.value)
    case _ => true
  }

  /** The values with a canonical form. */
  predicate Accepted(v: Json) {
    match v
    case Num(n) => n.Finite?
    case Str(t) => ValidText(t)
    case Arr(items) => forall x | x in items :: Accepted(x)
    case Obj(ms) => forall m | m in ms :: ValidText(m.name) && Accepted(m.value)
    case Foreign => false
    case _ => true
  }

  // ------------------------------------------------------------- member order

  function InsertMember(m: Member, ms: seq<Member>): (r: seq<Member>)
    ensures multiset(r) == multiset{m} + multiset(ms)
  {
    if ms == [] || NameLess(m.name, ms[0].name) then [m] + ms
    else
      assert ms == [ms[0]] + ms[1..];
      [ms[0]] + InsertMember(m, ms[1..])
  }

  /** names.sort(key=utf-16-be). */
  function SortMembers(ms: seq<Member>): (r: seq<Member>)
    ensures multiset(r) == multiset(ms)
  {
    if ms == [] then []
    else
      assert ms == [ms[0]] + ms[1..];
      InsertMember(ms[0], SortMembers(ms[1..]))
  }

  lemma SameElements(ms: seq<Member>)
    ensures forall m :: m in SortMembers(ms) <==> m in ms
  {
    forall m ensures m in SortMembers(ms) <==> m in ms {
      assert m in SortMembers(ms) <==> m in multiset(SortMembers(ms));
      assert m in ms <==> m in multiset(ms);
    }
  }

  ghost predicate NamesIncrease(ms: seq<Member>) {
    forall i, j | 0 <= i < j < |ms| :: NameLess(ms[i].name, ms[j].name)
  }

  // --------------------------------------------------------------- the output

  const COMMA: CodePoint := 44
  const COLON: CodePoint := 58
  const OPEN_ARRAY: CodePoint := 91
  const CLOSE_ARRAY: CodePoint := 93
  const OPEN_OBJECT: CodePoint := 123
  const CLOSE_OBJECT: CodePoint := 125

  const NULL_TEXT: Text := [110, 117, 108, 108]
  const TRUE_TEXT: Text := [116, 114, 117, 101]
  const FALSE_TEXT: Text := [102, 97, 108, 115, 101]

  function Separator(first: bool): Text {
    if first then [] else [COMMA]
  }

  /** The canonical text of a value (of an accepted one; otherwise meaningless). */
  function Emit(v: Json): Text
    decreases v, 1, 0
  {
    match v
    case Null => NULL_TEXT
    case Bool(b) => if b then TRUE_TEXT else FALSE_TEXT
    case Num(n) => if n.Finite? then NumberText(n.negative, n.repr) else []
    case Str(t) => Quoted(t)
    case Arr(items) => [OPEN_ARRAY] + EmitItems(v, items, true)
    case Obj(ms) => SameElements(ms); [OPEN_OBJECT] + EmitMembers(v, SortMembers(ms), true)
    case Foreign => []
  }

  /** The remaining items of an array and its closing bracket. */
  function EmitItems(ghost parent: Json, items: seq<Json>, first: bool): Text
    requires forall i | 0 <= i < |items| :: items[i] < parent
    decreases parent, 0, |items|
  {
    if items == [] then [CLOSE_ARRAY]
    else Separator(first) + Emit(items[0]) + EmitItems(parent, items[1..], false)
  }

  /** The remaining members of an object, already in order, and its closing brace. */
  function EmitMembers(ghost parent: Json, ms: seq<Member>, first: bool): Text
    requires forall m | m in ms :: m.value < parent
    decreases parent, 0, |ms|
  {
    if ms == [] then [CLOSE_OBJECT]
    else Separator(first) + (Quoted(ms[0].name) + [COLON] + Emit(ms[0].value)) + EmitMembers(parent, ms[1..], false)
  }

  // ---------------------------------------------------------------- the value

  /** What a JSON text means: numbers by value, objects as maps. */
  datatype Value =
    | VNull
    | VBool(b: bool)
    | VNum(x: real)
    | VStr(t: Text)
    | VArr(items: seq<Value>)
    | VObj(members: map<Text, Value>)

  function Denote(v: Json): Value {
    match v
    case Null => VNull
    case Bool(b) => VBool(b)
    case Num(n) => if n.Finite? then VNum(SignedValue(n.negative, n.repr)) else VNull
    case Str(t) => VStr(t)
    case Arr(items) => VArr(DenoteItems(items))
    case Obj(ms) => VObj(DenoteMembers(ms))
    case Foreign => VNull
  }

  function DenoteItems(items: seq<Json>): (r: seq<Value>)
    ensures |r| == |items|
  {
    if items == [] then [] else [Denote(items[0])] + DenoteItems(items[1..])
  }

  function DenoteMembers(ms: seq<Member>): map<Text, Value> {
    if ms == [] then map[] else DenoteMembers(ms[1..])[ms[0].name := Denote(ms[0].value)]
  }

  lemma {:induction false} DenoteMembersAt(ms: seq<Member>)
    requires DistinctNames(ms)
    ensures forall k :: k in DenoteMembers(ms) <==> exists m :: m in ms && m.name == k
    ensures forall m | m in ms :: m.name in DenoteMembers(ms) && DenoteMembers(ms)[m.name] == Denote(m.value)
  {
    if ms != [] {
      DenoteMembersAt(ms[1..]);
      assert ms == [ms[0]] + ms[1..];
      forall k ensures k in DenoteMembers(ms) <==> exists m :: m in ms && m.name == k {
        if k in DenoteMembers(ms) && k != ms[0].name {
          assert k in DenoteMembers(ms[1..]);
          var m :| m in ms[1..] && m.name == k;
          assert m in ms;
        }
      }
      forall m | m in ms ensures m.name in DenoteMembers(ms) && DenoteMembers(ms)[m.name] == Denote(m.value) {
        if m in ms[1..] {
          assert m.name != ms[0].name;
        }
      }
    }
  }
}
