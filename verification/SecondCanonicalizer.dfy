/**
 The black-box suite's own canonicalizer: recursive joins, normalising strings
 on the way. It was written to disagree if the library is wrong; here it is
 proved to write the same bytes for every value.
 */
module SecondCanonicalizer {
  import opened Common
  import opened Unicode
  import opened Numbers
  import opened Strings
  import opened Canonical
  import opened Canonicalizers

  function SecondLayout(ds: seq<Digit>, n: int): Text
    requires ds != []
  {
    if |ds| <= n <= 21 then Chars(ds) + Chars(Zeros(n - |ds|))
    else if 0 < n <= 21 then Chars(ds[..n]) + [DOT] + Chars(ds[n..])
    else if -6 < n <= 0 then [ZERO, DOT] + Chars(Zeros(-n)) + Chars(ds)
    else
      var e := n - 1;
      [ZERO + ds[0]] + (if |ds| > 1 then [DOT] + Chars(ds[1..]) else []) +
      ([EXP] + (if e >= 0 then [PLUS] else [MINUS]) + Chars(Decimal(if e >= 0 then e else -e)))
  }

  function SecondDigits(r: Repr): (seq<Digit>, int) {
    var all := r.whole + r.frac;
    var stripped := StripLeading(all);
    (StripTrailing(stripped), |r.whole| + r.exp - (|all| - |stripped|))
  }

  function SecondNumber(negative: bool, r: Repr): Text {
    var (ds, n) := SecondDigits(r);
    if Magnitude(r) == 0.0 || ds == [] then [ZERO]
    else (if negative then [MINUS] else []) + SecondLayout(ds, n)
  }

  predicate SecondAccepts(nfc: Normalizer, v: Json) {
    match v
    case Num(n) => n.Finite?
    case Str(t) => ValidText(nfc(t))
    case Arr(items) => forall x | x in items :: SecondAccepts(nfc, x)
    case Obj(ms) => forall m | m in ms :: ValidText(m.name) && SecondAccepts(nfc, m.value)
    case Foreign => false
    case _ => true
  }

  /** sep.join(parts) for the separator ",". */
  function Join(parts: seq<Text>): Text {
    if parts == [] then [] else parts[0] + JoinRest(parts[1..])
  }

  function JoinRest(parts: seq<Text>): Text {
    if parts == [] then [] else [COMMA] + parts[0] + JoinRest(parts[1..])
  }

  function Joined(first: bool, parts: seq<Text>): Text {
    if first then Join(parts) else JoinRest(parts)
  }

  function SecondEmit(nfc: Normalizer, v: Json): Text
    decreases v, 1, 0
  {
    match v
    case Null => NULL_TEXT
    case Bool(b) => if b then TRUE_TEXT else FALSE_TEXT
    case Num(n) => if n.Finite? then SecondNumber(n.negative, n.repr) else []
    case Str(t) => Quoted(nfc(t))
    case Arr(items) => [OPEN_ARRAY] + Join(ItemTexts(nfc, v, items)) + [CLOSE_ARRAY]
    case Obj(ms) => SameElements(ms); [OPEN_OBJECT] + Join(MemberTexts(nfc, v, SortMembers(ms))) + [CLOSE_OBJECT]
    case Foreign => []
  }

  function ItemTexts(nfc: Normalizer, ghost parent: Json, items: seq<Json>): seq<Text>
    requires forall i | 0 <= i < |items| :: items[i] < parent
    decreases parent, 0, |items|
  {
    if items == [] then [] else [SecondEmit(nfc, items[0])] + ItemTexts(nfc, parent, items[1..])
  }

  function MemberTexts(nfc: Normalizer, ghost parent: Json, ms: seq<Member>): seq<Text>
    requires forall m | m in ms :: m.value < parent
    decreases parent, 0, |ms|
  {
    if ms == [] then []
    else [Quoted(ms[0].name) + [COLON] + SecondEmit(nfc, ms[0].value)] + MemberTexts(nfc, parent, ms[1..])
  }

  function SecondCanonicalize(nfc: Normalizer, v: Json): Option<Bytes> {
    if SecondAccepts(nfc, v) then Some(Utf8(SecondEmit(nfc, v))) else None
  }

  // ----------------------------------------------------------- agreement

  lemma {:induction false} CharsConcat(a: seq<Digit>, b: seq<Digit>)
    ensures Chars(a + b) == Chars(a) + Chars(b)
  {
    if a == [] {
      assert a + b == b;
    } else {
      assert (a + b)[1..] == a[1..] + b;
      CharsConcat(a[1..], b);
    }
  }

  lemma SmallAgrees(ds: seq<Digit>, k: nat)
    ensures [ZERO, DOT] + Chars(Zeros(k)) + Chars(ds) == Chars([0]) + [DOT] + Chars(Zeros(k) + ds)
  {
    CharsConcat(Zeros(k), ds);
    assert Chars([0]) == [ZERO];
    Assoc([ZERO, DOT], Chars(Zeros(k)), Chars(ds));
    assert [ZERO, DOT] == [ZERO] + [DOT];
  }

  lemma SecondLayoutAgrees(ds: seq<Digit>, n: int)
    requires ds != []
    ensures SecondLayout(ds, n) == Layout(ds, n)
  {
    if |ds| <= n <= 21 {
      CharsConcat(ds, Zeros(n - |ds|));
    } else if 0 < n <= 21 {
    } else if -6 < n <= 0 {
      SmallAgrees(ds, -n);
    } else {
      assert Chars(ds[..1]) == [ZERO + ds[0]];
      assert |ds| == 1 ==> ds[..1] == ds;
      NilRight([ZERO + ds[0]]);
      Assoc([ZERO + ds[0]], [DOT], Chars(ds[1..]));
    }
  }

  /** The checker's number formatter emits the library's text. */
  lemma SecondNumberAgrees(negative: bool, r: Repr)
    ensures SecondNumber(negative, r) == NumberText(negative, r)
  {
    if Magnitude(r) == 0.0 {
      assert Chars([0]) == [ZERO];
    } else {
      ShortestDigitsExact(r);
      SignedLayoutAgrees(negative, SecondDigits(r).0, SecondDigits(r).1);
    }
  }

  lemma SignedLayoutAgrees(negative: bool, ds: seq<Digit>, n: int)
    requires ds != []
    ensures (if negative then [MINUS] else []) + SecondLayout(ds, n) ==
            (if negative then [MINUS] else []) + Layout(ds, n)
  {
    SecondLayoutAgrees(ds, n);
  }

  lemma {:induction false} InsertCommutes(nfc: Normalizer, m: Member, ms: seq<Member>)
    ensures InsertMember(Member(m.name, NfcValues(nfc, m.value)), NfcMembers(nfc, ms)) ==
            NfcMembers(nfc, InsertMember(m, ms))
  {
    if ms != [] && !NameLess(m.name, ms[0].name) {
      InsertCommutes(nfc, m, ms[1..]);
      assert NfcMembers(nfc, ms)[1..] == NfcMembers(nfc, ms[1..]);
    }
  }

  /** Normalising values does not move members. */
  lemma {:induction false} SortCommutes(nfc: Normalizer, ms: seq<Member>)
    ensures SortMembers(NfcMembers(nfc, ms)) == NfcMembers(nfc, SortMembers(ms))
  {
    if ms != [] {
      SortCommutes(nfc, ms[1..]);
      assert NfcMembers(nfc, ms)[1..] == NfcMembers(nfc, ms[1..]);
      InsertCommutes(nfc, ms[0], SortMembers(ms[1..]));
    }
  }

  lemma JoinedStep(first: bool, part: Text, parts: seq<Text>, tail: Text)
    ensures Joined(first, [part] + parts) + tail == (Separator(first) + part) + (Joined(false, parts) + tail)
  {
    assert ([part] + parts)[1..] == parts;
  }

  lemma {:induction false} ItemsAgree(nfc: Normalizer, p: Json, q: Json, items: seq<Json>, first: bool)
    requires forall i | 0 <= i < |items| :: items[i] < p && NfcValues(nfc, items[i]) < q
    ensures EmitItems(q, NfcItems(nfc, items), first) == Joined(first, ItemTexts(nfc, p, items)) + [CLOSE_ARRAY]
    decreases p, 0, |items|
  {
    if items == [] {
      assert Joined(first, []) == [];
    } else {
      SecondEmitAgrees(nfc, items[0]);
      ItemsAgree(nfc, p, q, items[1..], false);
      assert NfcItems(nfc, items)[1..] == NfcItems(nfc, items[1..]);
      JoinedStep(first, SecondEmit(nfc, items[0]), ItemTexts(nfc, p, items[1..]), [CLOSE_ARRAY]);
    }
  }

  lemma {:induction false} MembersAgree(nfc: Normalizer, p: Json, q: Json, ms: seq<Member>, first: bool)
    requires forall m | m in ms :: m.value < p
    requires forall m | m in NfcMembers(nfc, ms) :: m.value < q
    ensures EmitMembers(q, NfcMembers(nfc, ms), first) == Joined(first, MemberTexts(nfc, p, ms)) + [CLOSE_OBJECT]
    decreases p, 0, |ms|
  {
    if ms == [] {
      assert Joined(first, []) == [];
    } else {
      assert ms[0] in ms;
      SecondEmitAgrees(nfc, ms[0].value);
      assert NfcMembers(nfc, ms)[1..] == NfcMembers(nfc, ms[1..]);
      MembersAgree(nfc, p, q, ms[1..], false);
      JoinedStep(first, Quoted(ms[0].name) + [COLON] + SecondEmit(nfc, ms[0].value), MemberTexts(nfc, p, ms[1..]),
                 [CLOSE_OBJECT]);
    }
  }

  lemma {:induction false} ArrayAgrees(nfc: Normalizer, v: Json)
    requires v.Arr?
    ensures SecondEmit(nfc, v) == Emit(NfcValues(nfc, v))
    decreases v, 0, |v.items| + 1
  {
    var w := NfcValues(nfc, v);
    assert forall i | 0 <= i < |v.items| :: w.items[i] < w;
    ItemsAgree(nfc, v, w, v.items, true);
    Assoc([OPEN_ARRAY], Join(ItemTexts(nfc, v, v.items)), [CLOSE_ARRAY]);
  }

  lemma SortedBelow(v: Json)
    requires v.Obj?
    ensures forall m | m in SortMembers(v.members) :: m.value < v
    ensures |SortMembers(v.members)| == |v.members|
  {
    SameElements(v.members);
    assert |SortMembers(v.members)| == |multiset(SortMembers(v.members))|;
  }

  lemma EmitObject(v: Json, inner: Text)
    requires v.Obj? && (forall m | m in SortMembers(v.members) :: m.value < v)
    requires EmitMembers(v, SortMembers(v.members), true) == inner
    ensures Emit(v) == [OPEN_OBJECT] + inner
  {
  }

  lemma SecondEmitObject(nfc: Normalizer, v: Json, texts: seq<Text>)
    requires v.Obj? && forall m | m in SortMembers(v.members) :: m.value < v
    requires texts == MemberTexts(nfc, v, SortMembers(v.members))
    ensures SecondEmit(nfc, v) == [OPEN_OBJECT] + Join(texts) + [CLOSE_OBJECT]
  {
  }

  lemma SortedValues(nfc: Normalizer, v: Json, sorted: seq<Member>)
    requires v.Obj? && sorted == SortMembers(v.members)
    ensures NfcValues(nfc, v).members == NfcMembers(nfc, v.members)
    ensures SortMembers(NfcValues(nfc, v).members) == NfcMembers(nfc, sorted)
    ensures forall m | m in NfcMembers(nfc, sorted) :: m.value < NfcValues(nfc, v)
  {
    SortCommutes(nfc, v.members);
    SortedBelow(NfcValues(nfc, v));
  }

  lemma JoinedObject(nfc: Normalizer, v: Json, w: Json, texts: seq<Text>)
    requires v.Obj? && w == NfcValues(nfc, v) && forall m | m in SortMembers(v.members) :: m.value < v
    requires texts == MemberTexts(nfc, v, SortMembers(v.members))
    requires forall m | m in SortMembers(w.members) :: m.value < w
    requires EmitMembers(w, SortMembers(w.members), true) == Join(texts) + [CLOSE_OBJECT]
    ensures SecondEmit(nfc, v) == Emit(w)
  {
    SecondEmitObject(nfc, v, texts);
    EmitObject(w, Join(texts) + [CLOSE_OBJECT]);
    Assoc([OPEN_OBJECT], Join(texts), [CLOSE_OBJECT]);
  }

  lemma {:induction false} ObjectAgrees(nfc: Normalizer, v: Json)
    requires v.Obj?
    ensures SecondEmit(nfc, v) == Emit(NfcValues(nfc, v))
    decreases v, 0, |v.members| + 1
  {
    var w, sorted := NfcValues(nfc, v), SortMembers(v.members);
    SortedBelow(v);
    SortedValues(nfc, v, sorted);
    MembersAgree(nfc, v, w, sorted, true);
    JoinedObject(nfc, v, w, MemberTexts(nfc, v, sorted));
  }

  lemma {:induction false} SecondEmitAgrees(nfc: Normalizer, v: Json)
    ensures SecondEmit(nfc, v) == Emit(NfcValues(nfc, v))
    decreases v, 1, 0
  {
    match v
    case Num(n) =>
      if n.Finite? {
        SecondNumberAgrees(n.negative, n.repr);
      }
    case Arr(items) => ArrayAgrees(nfc, v);
    case Obj(ms) => ObjectAgrees(nfc, v);
    case _ =>
  }

  lemma {:induction false} SecondAcceptsAgrees(nfc: Normalizer, v: Json)
    ensures SecondAccepts(nfc, v) <==> Accepted(NfcValues(nfc, v))
  {
    match v
    case Arr(items) =>
      forall i | 0 <= i < |items| ensures SecondAccepts(nfc, items[i]) <==> Accepted(NfcItems(nfc, items)[i]) {
        SecondAcceptsAgrees(nfc, items[i]);
      }
    case Obj(ms) =>
      var r := NfcMembers(nfc, ms);
      forall i | 0 <= i < |ms| ensures SecondAccepts(nfc, ms[i].value) <==> Accepted(r[i].value) {
        SecondAcceptsAgrees(nfc, ms[i].value);
      }
      assert SecondAccepts(nfc, v) <==>
             forall i | 0 <= i < |ms| :: ValidText(ms[i].name) && SecondAccepts(nfc, ms[i].value);
      assert Accepted(Obj(r)) <==> forall i | 0 <= i < |r| :: ValidText(r[i].name) && Accepted(r[i].value);
    case _ =>
  }

  /** The two canonicalizers accept the same values and write the same bytes. */
  lemma CanonicalizersAgree(nfc: Normalizer, v: Json)
    requires IsNfc(nfc)
    ensures SecondCanonicalize(nfc, v) == Canonicalize(nfc, v)
  {
    SecondEmitAgrees(nfc, v);
    SecondAcceptsAgrees(nfc, v);
    NfcIdempotent(nfc, v);
  }
}
