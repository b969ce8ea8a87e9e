/**
 The library's canonicalizer as it runs: a serializer that appends to an output
 list, behind a first pass that normalises string values to NFC.
 */
module Canonicalizers {
  import opened Common
  import opened Unicode
  import opened Numbers
  import opened Strings
  import opened Canonical
  import opened CanonicalText

  // ------------------------------------------------------- the output list

  function Concat(parts: seq<Text>): Text {
    if parts == [] then [] else Concat(parts[..|parts| - 1]) + parts[|parts| - 1]
  }

  /** The list the serializer appends to. */
  class Output {
    var parts: seq<Text>

    constructor ()
      ensures Written() == []
    {
      parts := [];
    }

    function Written(): Text
      reads this
    {
      Concat(parts)
    }

    method Append(t: Text)
      modifies this
      ensures Written() == old(Written()) + t
    {
      parts := parts + [t];
      assert parts[..|parts| - 1] == old(parts);
    }
  }

  /** serialize_number: None where it raises. */
  method SerializeNumber(n: Number) returns (text: Option<Text>)
    ensures text == if n.Finite? then Some(NumberText(n.negative, n.repr)) else None
  {
    match n
    case Finite(negative, repr) => return Some(NumberText(negative, repr));
    case _ => return None;
  }

  /** _serialize: appends the canonical text, or fails exactly on values with no canonical form. */
  method Serialize(v: Json, out: Output) returns (ok: bool)
    modifies out
    ensures ok <==> Accepted(v)
    ensures ok ==> out.Written() == old(out.Written()) + Emit(v)
    decreases v, 1
  {
    match v
    case Null =>
      out.Append(NULL_TEXT);
      return true;
    case Bool(b) =>
      out.Append(if b then TRUE_TEXT else FALSE_TEXT);
      return true;
    case Num(n) =>
      var text := SerializeNumber(n);
      if text.None? {
        return false;
      }
      out.Append(text.value);
      return true;
    case Str(t) =>
      var text := SerializeString(t);
      if text.None? {
        return false;
      }
      out.Append(text.value);
      return true;
    case Arr(items) =>
      ok := SerializeArray(v, out);
    case Obj(members) =>
      ok := SerializeObject(v, out);
    case Foreign =>
      return false;
  }

  method SerializeArray(v: Json, out: Output) returns (ok: bool)
    requires v.Arr?
    modifies out
    ensures ok <==> Accepted(v)
    ensures ok ==> out.Written() == old(out.Written()) + Emit(v)
    decreases v, 0
  {
    ghost var target := out.Written() + Emit(v);
    Assoc(out.Written(), [OPEN_ARRAY], EmitItems(v, v.items, true));
    out.Append([OPEN_ARRAY]);
    var i := 0;
    while i < |v.items|
      invariant 0 <= i <= |v.items|
      invariant out.Written() + EmitItems(v, v.items[i..], i == 0) == target
      invariant forall j | 0 <= j < i :: Accepted(v.items[j])
    {
      ghost var before := out.Written();
      ghost var rest := v.items[i..];
      if i > 0 {
        out.Append([COMMA]);
      } else {
        NilRight(before);
      }
      assert out.Written() == before + Separator(i == 0);
      ok := Serialize(v.items[i], out);
      if !ok {
        return false;
      }
      Regroup(before, Separator(i == 0), Emit(v.items[i]), EmitItems(v, rest[1..], false));
      assert rest[1..] == v.items[i + 1..];
      i := i + 1;
    }
    out.Append([CLOSE_ARRAY]);
    return true;
  }

  method SerializeObject(v: Json, out: Output) returns (ok: bool)
    requires v.Obj?
    modifies out
    ensures ok <==> Accepted(v)
    ensures ok ==> out.Written() == old(out.Written()) + Emit(v)
    decreases v, 0
  {
    SameElements(v.members);
    var namesOk := CheckNames(v.members);
    if !namesOk {
      return false;
    }
    var sorted := SortMembers(v.members);
    ghost var target := out.Written() + Emit(v);
    Assoc(out.Written(), [OPEN_OBJECT], EmitMembers(v, sorted, true));
    out.Append([OPEN_OBJECT]);
    var i := 0;
    while i < |sorted|
      invariant 0 <= i <= |sorted|
      invariant out.Written() + EmitMembers(v, sorted[i..], i == 0) == target
      invariant forall j | 0 <= j < i :: Accepted(sorted[j].value)
    {
      ghost var before := out.Written();
      ghost var rest := sorted[i..];
      assert sorted[i] in sorted;
      ok := SerializeMember(sorted[i], i == 0, out);
      if !ok {
        return false;
      }
      Assoc(before, MemberText(sorted[i], i == 0), EmitMembers(v, rest[1..], false));
      assert rest[1..] == sorted[i + 1..];
      i := i + 1;
    }
    out.Append([CLOSE_OBJECT]);
    forall m | m in v.members ensures ValidText(m.name) && Accepted(m.value) {
      assert m in sorted;
    }
    return true;
  }

  /** Every member name is checked before the first is written. */
  method CheckNames(ms: seq<Member>) returns (ok: bool)
    ensures ok <==> forall m | m in ms :: ValidText(m.name)
  {
    var k := 0;
    while k < |ms|
      invariant 0 <= k <= |ms|
      invariant forall j | 0 <= j < k :: ValidText(ms[j].name)
    {
      if !ValidText(ms[k].name) {
        assert ms[k] in ms;
        return false;
      }
      k := k + 1;
    }
    return true;
  }

  function MemberText(m: Member, first: bool): Text {
    Separator(first) + (Quoted(m.name) + [COLON] + Emit(m.value))
  }

  method SerializeMember(m: Member, first: bool, out: Output) returns (ok: bool)
    requires ValidText(m.name)
    modifies out
    ensures ok <==> Accepted(m.value)
    ensures ok ==> out.Written() == old(out.Written()) + MemberText(m, first)
    decreases m.value, 2
  {
    ghost var before := out.Written();
    if first {
      NilRight(before);
    } else {
      out.Append([COMMA]);
    }
    assert out.Written() == before + Separator(first);
    var name := SerializeString(m.name);
    out.Append(name.value);
    out.Append([COLON]);
    ok := Serialize(m.value, out);
    RegroupMember(before, Separator(first), Quoted(m.name), Emit(m.value));
  }

  lemma Regroup(before: Text, sep: Text, item: Text, rest: Text)
    ensures before + ((sep + item) + rest) == ((before + sep) + item) + rest
  {
  }

  lemma RegroupMember(before: Text, sep: Text, name: Text, value: Text)
    ensures before + (sep + (name + [COLON] + value)) == (((before + sep) + name) + [COLON]) + value
  {
  }

  /** jcs_canonicalize: the bytes, or None where it raises. */
  method JcsCanonicalize(v: Json) returns (bytes: Option<Bytes>)
    ensures bytes == if Accepted(v) then Some(JcsBytes(v)) else None
  {
    var out := new Output();
    var ok := Serialize(v, out);
    if !ok {
      return None;
    }
    assert [] + Emit(v) == Emit(v);
    return Some(Utf8(out.Written()));
  }

  // -------------------------------------------------- NFC of string values

  /** NFC is foreign code: any function on text. */
  type Normalizer = Text -> Text

  function NfcValues(nfc: Normalizer, v: Json): Json {
    match v
    case Str(t) => Str(nfc(t))
    case Arr(items) => Arr(NfcItems(nfc, items))
    case Obj(ms) => Obj(NfcMembers(nfc, ms))
    case _ => v
  }

  function NfcItems(nfc: Normalizer, items: seq<Json>): (r: seq<Json>)
    ensures |r| == |items|
    ensures forall i | 0 <= i < |items| :: r[i] == NfcValues(nfc, items[i])
  {
    if items == [] then [] else [NfcValues(nfc, items[0])] + NfcItems(nfc, items[1..])
  }

  function NfcMembers(nfc: Normalizer, ms: seq<Member>): (r: seq<Member>)
    ensures |r| == |ms|
    ensures forall i | 0 <= i < |ms| :: r[i] == Member(ms[i].name, NfcValues(nfc, ms[i].value))
  {
    if ms == [] then [] else [Member(ms[0].name, NfcValues(nfc, ms[0].value))] + NfcMembers(nfc, ms[1..])
  }

  /** canonicalize: strings are checked and normalised, then RFC 8785 applies. */
  function Canonicalize(nfc: Normalizer, v: Json): Option<Bytes> {
    if Accepted(v) && Accepted(NfcValues(nfc, v)) then Some(JcsBytes(NfcValues(nfc, v))) else None
  }

  lemma {:induction false} NfcIsMapping(nfc: Normalizer, v: Json)
    requires IsMapping(v)
    ensures IsMapping(NfcValues(nfc, v))
  {
    match v
    case Arr(items) =>
      forall x | x in NfcItems(nfc, items) ensures IsMapping(x) {
        var i :| 0 <= i < |items| && x == NfcValues(nfc, items[i]);
        NfcIsMapping(nfc, items[i]);
      }
    case Obj(ms) =>
      forall m | m in NfcMembers(nfc, ms) ensures IsMapping(m.value) {
        var i :| 0 <= i < |ms| && m == Member(ms[i].name, NfcValues(nfc, ms[i].value));
        NfcIsMapping(nfc, ms[i].value);
      }
    case _ =>
  }

  /** Canonical bytes are equal exactly for values equal after normalising string values, names untouched. */
  lemma CanonicalizeComplete(nfc: Normalizer, a: Json, b: Json)
    requires IsMapping(a) && IsMapping(b)
    requires Canonicalize(nfc, a).Some? && Canonicalize(nfc, b).Some?
    ensures Canonicalize(nfc, a) == Canonicalize(nfc, b) <==>
            Denote(NfcValues(nfc, a)) == Denote(NfcValues(nfc, b))
  {
    NfcIsMapping(nfc, a);
    NfcIsMapping(nfc, b);
    JcsComplete(NfcValues(nfc, a), NfcValues(nfc, b));
  }

  predicate IsAscii(t: Text) {
    forall i | 0 <= i < |t| :: t[i] < 0x80
  }

  /** What Unicode promises of NFC: idempotent, inert on ASCII, and neither adds nor removes lone surrogates. */
  ghost predicate IsNfc(nfc: Normalizer) {
    forall t :: nfc(nfc(t)) == nfc(t) && (ValidText(t) <==> ValidText(nfc(t))) && (IsAscii(t) ==> nfc(t) == t)
  }

  lemma {:induction false} NfcIdempotent(nfc: Normalizer, v: Json)
    requires IsNfc(nfc)
    ensures NfcValues(nfc, NfcValues(nfc, v)) == NfcValues(nfc, v)
    ensures Accepted(NfcValues(nfc, v)) <==> Accepted(v)
  {
    match v
    case Arr(items) =>
      var r := NfcItems(nfc, items);
      forall i | 0 <= i < |items|
        ensures NfcValues(nfc, r[i]) == r[i] && (Accepted(r[i]) <==> Accepted(items[i]))
      {
        NfcIdempotent(nfc, items[i]);
      }
      assert NfcItems(nfc, r) == r;
      assert Accepted(v) <==> forall i | 0 <= i < |items| :: Accepted(items[i]);
      assert Accepted(NfcValues(nfc, v)) <==> forall i | 0 <= i < |r| :: Accepted(r[i]);
    case Obj(ms) =>
      var r := NfcMembers(nfc, ms);
      forall i | 0 <= i < |ms|
        ensures NfcValues(nfc, r[i].value) == r[i].value && (Accepted(r[i].value) <==> Accepted(ms[i].value))
      {
        NfcIdempotent(nfc, ms[i].value);
      }
      assert NfcMembers(nfc, r) == r;
      assert Accepted(v) <==> forall i | 0 <= i < |ms| :: ValidText(ms[i].name) && Accepted(ms[i].value);
      assert Accepted(NfcValues(nfc, v)) <==> forall i | 0 <= i < |r| :: ValidText(r[i].name) && Accepted(r[i].value);
    case _ =>
  }

  /** A stored value that is already normalised hashes like the value it came from. */
  lemma CanonicalizeIdempotent(nfc: Normalizer, v: Json)
    requires IsNfc(nfc)
    ensures Canonicalize(nfc, NfcValues(nfc, v)) == Canonicalize(nfc, v)
  {
    NfcIdempotent(nfc, v);
  }
}
