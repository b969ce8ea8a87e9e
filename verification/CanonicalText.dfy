/** The canonical text determines the value, and the value determines the text. */
module CanonicalText {
  import opened Common
  import opened Unicode
  import opened Numbers
  import opened Strings
  import opened Canonical

  // ---------------------------------------------------------------- ordering

  ghost predicate ValidNames(ms: seq<Member>) {
    forall m | m in ms :: ValidText(m.name)
  }

  lemma {:induction false} InsertKeepsOrder(m: Member, ms: seq<Member>)
    requires NamesIncrease(ms) && ValidNames(ms) && ValidText(m.name)
    requires forall x | x in ms :: x.name != m.name
    ensures NamesIncrease(InsertMember(m, ms))
  {
    if ms != [] {
      NameLessTotal(m.name, ms[0].name);
      if NameLess(m.name, ms[0].name) {
        forall j | 0 <= j < |ms| ensures NameLess(m.name, ms[j].name) {
          if j > 0 {
            LexTransitive(Utf16Be(m.name), Utf16Be(ms[0].name), Utf16Be(ms[j].name));
          }
        }
      } else {
        assert ms[0] in ms;
        var rest := InsertMember(m, ms[1..]);
        InsertKeepsOrder(m, ms[1..]);
        forall j | 0 <= j < |rest| ensures NameLess(ms[0].name, rest[j].name) {
          assert rest[j] in multiset(rest);
          if rest[j] != m {
            assert rest[j] in ms[1..];
          }
        }
      }
    }
  }

  /** Sorting distinct valid names gives a strictly increasing list of the same members. */
  lemma {:induction false} SortedNamesIncrease(ms: seq<Member>)
    requires DistinctNames(ms) && ValidNames(ms)
    ensures NamesIncrease(SortMembers(ms)) && DistinctNames(SortMembers(ms)) && ValidNames(SortMembers(ms))
    ensures multiset(SortMembers(ms)) == multiset(ms)
  {
    SameElements(ms);
    if ms != [] {
      SortedNamesIncrease(ms[1..]);
      SameElements(ms[1..]);
      InsertKeepsOrder(ms[0], SortMembers(ms[1..]));
    }
    var sorted := SortMembers(ms);
    forall i, j | 0 <= i < j < |sorted| ensures sorted[i].name != sorted[j].name {
      NameLessTotal(sorted[i].name, sorted[j].name);
    }
  }

  lemma KeyOfMember(ms: seq<Member>, k: Text)
    requires DistinctNames(ms)
    ensures k in DenoteMembers(ms) <==> exists m :: m in ms && m.name == k
  {
    DenoteMembersAt(ms);
  }

  lemma ValueOfMember(ms: seq<Member>, m: Member)
    requires DistinctNames(ms) && m in ms
    ensures m.name in DenoteMembers(ms) && DenoteMembers(ms)[m.name] == Denote(m.value)
  {
    DenoteMembersAt(ms);
  }

  /** Sorting does not change the map an object denotes. */
  lemma DenoteSorted(ms: seq<Member>)
    requires DistinctNames(ms) && ValidNames(ms)
    ensures DenoteMembers(SortMembers(ms)) == DenoteMembers(ms)
  {
    var sorted := SortMembers(ms);
    SortedNamesIncrease(ms);
    SameElements(ms);
    forall k ensures k in DenoteMembers(sorted) <==> k in DenoteMembers(ms) {
      KeyOfMember(sorted, k);
      KeyOfMember(ms, k);
    }
    forall k | k in DenoteMembers(ms) ensures DenoteMembers(sorted)[k] == DenoteMembers(ms)[k] {
      KeyOfMember(ms, k);
      var m :| m in ms && m.name == k;
      ValueOfMember(ms, m);
      ValueOfMember(sorted, m);
    }
  }

  // ----------------------------------------------------------------- tokens

  /** What may follow a value inside a canonical text. */
  ghost predicate Delimited(s: Text) {
    s == [] || s[0] == COMMA || s[0] == CLOSE_ARRAY || s[0] == CLOSE_OBJECT
  }

  predicate IsNumberChar(c: CodePoint) {
    IsDigit(c) || c == PLUS || c == MINUS || c == DOT || c == EXP
  }

  ghost predicate NumberChars(t: Text) {
    forall i | 0 <= i < |t| :: IsNumberChar(t[i])
  }

  lemma {:induction false} DigitsAreNumberChars(ds: seq<Digit>)
    ensures NumberChars(Chars(ds))
  {
    if ds != [] {
      DigitsAreNumberChars(ds[1..]);
    }
  }

  lemma LayoutIsToken(ds: seq<Digit>, n: int)
    requires ds != []
    ensures NumberChars(Layout(ds, n))
  {
    var (whole, frac, exp) := PartsOf(ds, n);
    LayoutText(ds, n);
    DigitsAreNumberChars(whole);
    DigitsAreNumberChars(frac);
    DigitsAreNumberChars(Decimal(if n - 1 >= 0 then n - 1 else 1 - n));
    assert NumberChars(FractionText(frac));
    assert NumberChars(ExponentText(n - 1));
  }

  lemma NumberIsToken(negative: bool, r: Repr)
    ensures NumberText(negative, r) != [] && NumberChars(NumberText(negative, r))
  {
    DigitsAreNumberChars([0]);
    if Magnitude(r) != 0.0 {
      ShortestDigitsExact(r);
      LayoutIsToken(ShortestDigits(r).0, ShortestDigits(r).1);
    }
  }

  /** A number token ends where its delimiter starts. */
  lemma {:induction false} TokenSplit(x: Text, y: Text, s: Text, t: Text)
    requires NumberChars(x) && NumberChars(y) && Delimited(s) && Delimited(t) && x + s == y + t
    ensures x == y && s == t
  {
    assert s != [] ==> (x + s)[|x|] == s[0];
    assert t != [] ==> (y + t)[|y|] == t[0];
    assert forall i | 0 <= i < |x| :: (x + s)[i] == x[i];
    assert forall i | 0 <= i < |y| :: (y + t)[i] == y[i];
    SplitSame(x, y, s, t);
  }

  /** The kind of value a first character announces. */
  function KindOfChar(c: CodePoint): nat {
    if c == 110 then 0 else if c == 116 then 1 else if c == 102 then 2 else if c == QUOTE then 4
    else if c == OPEN_ARRAY then 5 else if c == OPEN_OBJECT then 6 else if IsNumberChar(c) then 3 else 7
  }

  function KindOf(v: Json): nat {
    match v
    case Null => 0
    case Bool(b) => if b then 1 else 2
    case Num(_) => 3
    case Str(_) => 4
    case Arr(_) => 5
    case Obj(_) => 6
    case Foreign => 7
  }

  lemma FirstCharacter(v: Json)
    requires Accepted(v)
    ensures Emit(v) != [] && KindOfChar(Emit(v)[0]) == KindOf(v)
  {
    match v
    case Num(n) => NumberIsToken(n.negative, n.repr);
    case Arr(items) => assert Emit(v)[0] == OPEN_ARRAY;
    case Obj(ms) => assert Emit(v)[0] == OPEN_OBJECT;
    case _ =>
  }

  lemma ItemsDelimited(parent: Json, items: seq<Json>, s: Text)
    requires forall i | 0 <= i < |items| :: items[i] < parent
    ensures Delimited(EmitItems(parent, items, false) + s)
  {
  }

  lemma MembersDelimited(parent: Json, ms: seq<Member>, s: Text)
    requires forall m | m in ms :: m.value < parent
    ensures Delimited(EmitMembers(parent, ms, false) + s)
  {
  }

  // ------------------------------------------------------- text to value

  /** Unique decoding: a delimited canonical text has one value and one end. */
  lemma {:induction false} UniqueValue(a: Json, b: Json, s: Text, t: Text)
    requires Accepted(a) && Accepted(b) && IsMapping(a) && IsMapping(b) && Delimited(s) && Delimited(t)
    requires Emit(a) + s == Emit(b) + t
    ensures Denote(a) == Denote(b) && s == t
    decreases a, 1, 0
  {
    FirstCharacter(a);
    FirstCharacter(b);
    assert (Emit(a) + s)[0] == Emit(a)[0] && (Emit(b) + t)[0] == Emit(b)[0];
    assert KindOf(a) == KindOf(b);
    match a
    case Num(m) =>
      var n := b.number;
      NumberIsToken(m.negative, m.repr);
      NumberIsToken(n.negative, n.repr);
      TokenSplit(Emit(a), Emit(b), s, t);
      NumberTextIffValue(m.negative, m.repr, n.negative, n.repr);
    case Str(x) =>
      QuotedSplit(x, b.text, s, t);
    case Arr(items) =>
      UniqueArray(a, b, s, t);
    case Obj(ms) =>
      UniqueObject(a, b, s, t);
    case _ =>
      CancelLeft(Emit(a), s, t);
  }

  lemma {:induction false} UniqueArray(a: Json, b: Json, s: Text, t: Text)
    requires a.Arr? && b.Arr?
    requires Accepted(a) && Accepted(b) && IsMapping(a) && IsMapping(b) && Delimited(s) && Delimited(t)
    requires Emit(a) + s == Emit(b) + t
    ensures Denote(a) == Denote(b) && s == t
    decreases a, 0, |a.items| + 1
  {
    var (x, y) := (EmitItems(a, a.items, true), EmitItems(b, b.items, true));
    Assoc([OPEN_ARRAY], x, s);
    Assoc([OPEN_ARRAY], y, t);
    CancelLeft([OPEN_ARRAY], x + s, y + t);
    UniqueItems(a, b, a.items, b.items, true, s, t);
  }

  lemma {:induction false} UniqueItems(pa: Json, pb: Json, xs: seq<Json>, ys: seq<Json>, first: bool, s: Text, t: Text)
    requires forall i | 0 <= i < |xs| :: xs[i] < pa && Accepted(xs[i]) && IsMapping(xs[i])
    requires forall i | 0 <= i < |ys| :: ys[i] < pb && Accepted(ys[i]) && IsMapping(ys[i])
    requires Delimited(s) && Delimited(t)
    requires EmitItems(pa, xs, first) + s == EmitItems(pb, ys, first) + t
    ensures DenoteItems(xs) == DenoteItems(ys) && s == t
    decreases pa, 0, |xs|
  {
    FirstOfItems(pa, xs, first, s);
    FirstOfItems(pb, ys, first, t);
    if xs == [] {
      CancelLeft([CLOSE_ARRAY], s, t);
    } else {
      var (u, w) := (EmitItems(pa, xs[1..], false) + s, EmitItems(pb, ys[1..], false) + t);
      ItemsStep(pa, xs, first, s);
      ItemsStep(pb, ys, first, t);
      CancelLeft(Separator(first), Emit(xs[0]) + u, Emit(ys[0]) + w);
      ItemsDelimited(pa, xs[1..], s);
      ItemsDelimited(pb, ys[1..], t);
      UniqueValue(xs[0], ys[0], u, w);
      UniqueItems(pa, pb, xs[1..], ys[1..], false, s, t);
    }
  }

  lemma ItemsStep(parent: Json, xs: seq<Json>, first: bool, s: Text)
    requires xs != [] && forall i | 0 <= i < |xs| :: xs[i] < parent
    ensures EmitItems(parent, xs, first) + s ==
            Separator(first) + (Emit(xs[0]) + (EmitItems(parent, xs[1..], false) + s))
  {
  }

  lemma HeadOf(sep: Text, item: Text, rest: Text)
    requires item != []
    ensures sep + (item + rest) != []
    ensures (sep + (item + rest))[0] == if sep == [] then item[0] else sep[0]
  {
  }

  lemma NotClosed(sep: Text, item: Text, rest: Text)
    requires item != [] && item[0] != CLOSE_ARRAY && (sep == [] || sep == [COMMA])
    ensures sep + (item + rest) != [] && (sep + (item + rest))[0] != CLOSE_ARRAY
  {
    HeadOf(sep, item, rest);
  }

  lemma NotClosing(c: CodePoint, v: Json)
    requires Accepted(v) && KindOfChar(c) == KindOf(v)
    ensures c != CLOSE_ARRAY
  {
  }

  lemma OpensValue(item: Json)
    requires Accepted(item)
    ensures Emit(item) != [] && Emit(item)[0] != CLOSE_ARRAY
  {
    FirstCharacter(item);
    NotClosing(Emit(item)[0], item);
  }

  lemma FirstOfItem(item: Json, first: bool, rest: Text)
    requires Accepted(item)
    ensures Separator(first) + (Emit(item) + rest) != []
    ensures (Separator(first) + (Emit(item) + rest))[0] != CLOSE_ARRAY
  {
    OpensValue(item);
    NotClosed(Separator(first), Emit(item), rest);
  }

  lemma NoItems(parent: Json, first: bool, s: Text)
    ensures EmitItems(parent, [], first) + s == [CLOSE_ARRAY] + s
  {
  }

  /** The next character tells whether an array is finished. */
  lemma FirstOfItems(parent: Json, xs: seq<Json>, first: bool, s: Text)
    requires forall i | 0 <= i < |xs| :: xs[i] < parent && Accepted(xs[i])
    ensures EmitItems(parent, xs, first) + s != []
    ensures (EmitItems(parent, xs, first) + s)[0] == CLOSE_ARRAY <==> xs == []
  {
    if xs == [] {
      NoItems(parent, first, s);
    } else {
      ItemsStep(parent, xs, first, s);
      FirstOfItem(xs[0], first, EmitItems(parent, xs[1..], false) + s);
    }
  }

  lemma {:induction false} UniqueObject(a: Json, b: Json, s: Text, t: Text)
    requires a.Obj? && b.Obj?
    requires Accepted(a) && Accepted(b) && IsMapping(a) && IsMapping(b) && Delimited(s) && Delimited(t)
    requires Emit(a) + s == Emit(b) + t
    ensures Denote(a) == Denote(b) && s == t
    decreases a, 0, |a.members| + 1
  {
    var (xs, ys) := (SortMembers(a.members), SortMembers(b.members));
    SameElements(a.members);
    SameElements(b.members);
    var (x, y) := (EmitMembers(a, xs, true), EmitMembers(b, ys, true));
    Assoc([OPEN_OBJECT], x, s);
    Assoc([OPEN_OBJECT], y, t);
    CancelLeft([OPEN_OBJECT], x + s, y + t);
    assert |xs| == |multiset(xs)| == |a.members|;
    UniqueMembers(a, b, xs, ys, true, s, t);
    DenoteSorted(a.members);
    DenoteSorted(b.members);
  }

  lemma {:induction false} UniqueMembers(pa: Json, pb: Json, xs: seq<Member>, ys: seq<Member>, first: bool, s: Text,
                                         t: Text)
    requires forall m | m in xs :: m.value < pa && Accepted(m.value) && IsMapping(m.value)
    requires forall m | m in ys :: m.value < pb && Accepted(m.value) && IsMapping(m.value)
    requires Delimited(s) && Delimited(t)
    requires EmitMembers(pa, xs, first) + s == EmitMembers(pb, ys, first) + t
    ensures DenoteMembers(xs) == DenoteMembers(ys) && s == t
    decreases pa, 0, |xs|
  {
    FirstOfMembers(pa, xs, first, s);
    FirstOfMembers(pb, ys, first, t);
    if xs == [] {
      CancelLeft([CLOSE_OBJECT], s, t);
    } else {
      var (u, w) := (EmitMembers(pa, xs[1..], false) + s, EmitMembers(pb, ys[1..], false) + t);
      var (v, z) := (Emit(xs[0].value) + u, Emit(ys[0].value) + w);
      MembersStep(pa, xs, first, s);
      MembersStep(pb, ys, first, t);
      CancelLeft(Separator(first), Quoted(xs[0].name) + ([COLON] + v), Quoted(ys[0].name) + ([COLON] + z));
      QuotedSplit(xs[0].name, ys[0].name, [COLON] + v, [COLON] + z);
      CancelLeft([COLON], v, z);
      MembersDelimited(pa, xs[1..], s);
      MembersDelimited(pb, ys[1..], t);
      assert xs[0] in xs && ys[0] in ys;
      UniqueValue(xs[0].value, ys[0].value, u, w);
      UniqueMembers(pa, pb, xs[1..], ys[1..], false, s, t);
    }
  }

  lemma MembersStep(parent: Json, ms: seq<Member>, first: bool, s: Text)
    requires ms != [] && forall m | m in ms :: m.value < parent
    ensures EmitMembers(parent, ms, first) + s ==
            Separator(first) + (Quoted(ms[0].name) +
                                ([COLON] + (Emit(ms[0].value) + (EmitMembers(parent, ms[1..], false) + s))))
  {
  }

  /** The next character tells whether an object is finished. */
  lemma FirstOfMembers(parent: Json, ms: seq<Member>, first: bool, s: Text)
    requires forall m | m in ms :: m.value < parent
    ensures EmitMembers(parent, ms, first) != []
    ensures (EmitMembers(parent, ms, first) + s)[0] == CLOSE_OBJECT <==> ms == []
  {
  }

  // ------------------------------------------------------- value to text

  /** Two sorted member lists of one map agree position by position. */
  lemma {:induction false} SortedHeads(xs: seq<Member>, ys: seq<Member>)
    requires NamesIncrease(xs) && NamesIncrease(ys) && ValidNames(xs) && ValidNames(ys)
    requires DistinctNames(xs) && DistinctNames(ys) && DenoteMembers(xs) == DenoteMembers(ys)
    ensures xs == [] <==> ys == []
    ensures xs != [] ==> xs[0].name == ys[0].name && Denote(xs[0].value) == Denote(ys[0].value)
    ensures xs != [] ==> DenoteMembers(xs[1..]) == DenoteMembers(ys[1..])
  {
    DenoteMembersAt(xs);
    DenoteMembersAt(ys);
    assert ys != [] ==> ys[0] in ys;
    if xs != [] {
      assert xs[0] in xs && xs[0].name in DenoteMembers(ys);
      assert ys != [];
      var y :| y in ys && y.name == xs[0].name;
      var x :| x in xs && x.name == ys[0].name;
      NameLessTotal(xs[0].name, ys[0].name);
      assert xs[0].name == ys[0].name;
      TailMap(xs);
      TailMap(ys);
    }
  }

  lemma HeadNotInTail(ms: seq<Member>)
    requires ms != [] && DistinctNames(ms)
    ensures forall m | m in ms[1..] :: m.name != ms[0].name
  {
    forall m | m in ms[1..] ensures m.name != ms[0].name {
      var i :| 0 <= i < |ms[1..]| && ms[1..][i] == m;
    }
  }

  lemma RemoveAdded<K, V>(m: map<K, V>, k: K, v: V)
    requires k !in m
    ensures m[k := v] - {k} == m
  {
  }

  lemma TailMap(ms: seq<Member>)
    requires ms != [] && DistinctNames(ms)
    ensures DenoteMembers(ms[1..]) == DenoteMembers(ms) - {ms[0].name}
  {
    assert ms[0].name !in DenoteMembers(ms[1..]) by {
      DenoteMembersAt(ms[1..]);
      HeadNotInTail(ms);
    }
    RemoveAdded(DenoteMembers(ms[1..]), ms[0].name, Denote(ms[0].value));
  }

  lemma {:induction false} SameMembersText(pa: Json, pb: Json, xs: seq<Member>, ys: seq<Member>, first: bool)
    requires forall m | m in xs :: m.value < pa && Accepted(m.value) && IsMapping(m.value)
    requires forall m | m in ys :: m.value < pb && Accepted(m.value) && IsMapping(m.value)
    requires NamesIncrease(xs) && NamesIncrease(ys) && ValidNames(xs) && ValidNames(ys)
    requires DistinctNames(xs) && DistinctNames(ys) && DenoteMembers(xs) == DenoteMembers(ys)
    ensures EmitMembers(pa, xs, first) == EmitMembers(pb, ys, first)
    decreases pa, 0, |xs|
  {
    SortedHeads(xs, ys);
    if xs != [] {
      assert xs[0] in xs && ys[0] in ys;
      SameText(xs[0].value, ys[0].value);
      SameMembersText(pa, pb, xs[1..], ys[1..], false);
    }
  }

  lemma SameDenotations(xs: seq<Json>, ys: seq<Json>)
    requires DenoteItems(xs) == DenoteItems(ys)
    ensures |xs| == |ys|
    ensures xs != [] ==> Denote(xs[0]) == Denote(ys[0]) && DenoteItems(xs[1..]) == DenoteItems(ys[1..])
  {
    if xs != [] {
      assert Denote(xs[0]) == DenoteItems(xs)[0] && Denote(ys[0]) == DenoteItems(ys)[0];
      CancelLeft([Denote(xs[0])], DenoteItems(xs[1..]), DenoteItems(ys[1..]));
    }
  }

  lemma {:induction false} SameItemsText(pa: Json, pb: Json, xs: seq<Json>, ys: seq<Json>, first: bool)
    requires forall i | 0 <= i < |xs| :: xs[i] < pa && Accepted(xs[i]) && IsMapping(xs[i])
    requires forall i | 0 <= i < |ys| :: ys[i] < pb && Accepted(ys[i]) && IsMapping(ys[i])
    requires DenoteItems(xs) == DenoteItems(ys)
    ensures EmitItems(pa, xs, first) == EmitItems(pb, ys, first)
    decreases pa, 0, |xs|
  {
    SameDenotations(xs, ys);
    if xs != [] {
      SameText(xs[0], ys[0]);
      SameItemsText(pa, pb, xs[1..], ys[1..], false);
    }
  }

  /** Equal values have equal texts, whatever the insertion order or the digits they came with. */
  lemma {:induction false} SameText(a: Json, b: Json)
    requires Accepted(a) && Accepted(b) && IsMapping(a) && IsMapping(b) && Denote(a) == Denote(b)
    ensures Emit(a) == Emit(b)
    decreases a, 1, 0
  {
    match a
    case Num(m) =>
      NumberTextIffValue(m.negative, m.repr, b.number.negative, b.number.repr);
    case Arr(items) =>
      SameItemsText(a, b, items, b.items, true);
    case Obj(ms) =>
      DenoteSorted(ms);
      DenoteSorted(b.members);
      SortedNamesIncrease(ms);
      SortedNamesIncrease(b.members);
      SameElements(ms);
      SameElements(b.members);
      assert |SortMembers(ms)| == |multiset(SortMembers(ms))| == |ms|;
      SameMembersText(a, b, SortMembers(ms), SortMembers(b.members), true);
    case _ =>
  }

  // ------------------------------------------------------------ main theorems

  /** RFC 8785 bytes of an accepted value. */
  function JcsBytes(v: Json): Bytes {
    Utf8(Emit(v))
  }

  /** Canonical bytes are a complete invariant: equal exactly for equal JSON values. */
  lemma JcsComplete(a: Json, b: Json)
    requires Accepted(a) && Accepted(b) && IsMapping(a) && IsMapping(b)
    ensures JcsBytes(a) == JcsBytes(b) <==> Denote(a) == Denote(b)
  {
    if JcsBytes(a) == JcsBytes(b) {
      Utf8Injective(Emit(a), Emit(b));
      NilRight(Emit(a));
      NilRight(Emit(b));
      UniqueValue(a, b, [], []);
    }
    if Denote(a) == Denote(b) {
      SameText(a, b);
    }
  }
}
