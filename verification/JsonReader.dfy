/**
 A reader of JSON text (RFC 8259, without insignificant white space; RFC 7493
 for member names: each once), and the proof that it reads canonical text back
 as the value the text was written for.
 */
module JsonReader {
  import opened Common
  import opened Unicode
  import opened Numbers
  import opened Strings
  import opened Canonical
  import opened CanonicalText
  import opened Canonicalizers

  // ------------------------------------------------------------------ reader

  predicate Starts(t: Text, word: Text) {
    |word| <= |t| && t[..|word|] == word
  }

  /** The longest run of characters a number may consist of, and what follows it. */
  function ScanNumber(t: Text): (r: (Text, Text))
    ensures |r.0| + |r.1| == |t|
  {
    if t != [] && IsNumberChar(t[0]) then
      var (token, rest) := ScanNumber(t[1..]);
      ([t[0]] + token, rest)
    else ([], t)
  }

  /** One value, and the text behind it. */
  function ReadValue(t: Text): (r: Option<(Value, Text)>)
    ensures r.Some? ==> |r.value.1| < |t|
    decreases |t|, 1
  {
    if t == [] then None
    else if Starts(t, T("null")) then Some((VNull, t[4..]))
    else if Starts(t, T("true")) then Some((VBool(true), t[4..]))
    else if Starts(t, T("false")) then Some((VBool(false), t[5..]))
    else if t[0] == '"' as int then
      var s := ReadString(t);
      if s.None? || |s.value.1| >= |t| then None else Some((VStr(s.value.0), s.value.1))
    else if t[0] == '[' as int then
      var items := ReadItems(t[1..], true);
      if items.None? then None else Some((VArr(items.value.0), items.value.1))
    else if t[0] == '{' as int then
      var members := ReadMembers(t[1..], true);
      if members.None? then None else Some((VObj(members.value.0), members.value.1))
    else
      var (token, rest) := ScanNumber(t);
      var n := ReadNumber(token);
      if token == [] || n.None? then None else Some((VNum(n.value.Denotes()), rest))
  }

  /** The text of a further element: behind the comma, unless it is the first. */
  function Element(t: Text, first: bool): Option<Text> {
    if first then Some(t)
    else if t != [] && t[0] == ',' as int then Some(t[1..])
    else None
  }

  /** The items up to the closing bracket. */
  function ReadItems(t: Text, first: bool): (r: Option<(seq<Value>, Text)>)
    ensures r.Some? ==> |r.value.1| < |t|
    decreases |t|, 2
  {
    if t != [] && t[0] == ']' as int then Some(([], t[1..]))
    else
      var u := Element(t, first);
      if u.None? then None
      else
        var v := ReadValue(u.value);
        if v.None? then None
        else
          var rest := ReadItems(v.value.1, false);
          if rest.None? then None else Some(([v.value.0] + rest.value.0, rest.value.1))
  }

  /** The members up to the closing brace; a repeated name is refused. */
  function ReadMembers(t: Text, first: bool): (r: Option<(map<Text, Value>, Text)>)
    ensures r.Some? ==> |r.value.1| < |t|
    decreases |t|, 2
  {
    if t != [] && t[0] == '}' as int then Some((map[], t[1..]))
    else
      var u := Element(t, first);
      if u.None? then None
      else
        var name := ReadString(u.value);
        if name.None? || name.value.1 == [] || name.value.1[0] != ':' as int || |name.value.1| > |t| then None
        else
          var v := ReadValue(name.value.1[1..]);
          if v.None? then None
          else
            var rest := ReadMembers(v.value.1, false);
            if rest.None? || name.value.0 in rest.value.0 then None
            else Some((rest.value.0[name.value.0 := v.value.0], rest.value.1))
  }

  /** UTF-8 bytes that hold exactly one value. */
  function ReadJson(b: Bytes): Option<Value> {
    var t := DecodeUtf8(b);
    if t.None? then None
    else
      var v := ReadValue(t.value);
      if v.None? || v.value.1 != [] then None else Some(v.value.0)
  }

  // -------------------------------------------------------------- what it reads

  lemma {:induction false} ScansToken(token: Text, s: Text)
    requires NumberChars(token) && (s != [] ==> !IsNumberChar(s[0]))
    ensures ScanNumber(token + s) == (token, s)
  {
    if token == [] {
      assert token + s == s;
    } else {
      assert (token + s)[1..] == token[1..] + s;
      ScansToken(token[1..], s);
      assert [token[0]] + token[1..] == token;
    }
  }

  lemma StartsWith(word: Text, s: Text)
    ensures Starts(word + s, word) && (word + s)[|word|..] == s
  {
    assert (word + s)[..|word|] == word;
  }

  lemma WordsDiffer(t: Text)
    requires t != []
    ensures Starts(t, T("null")) ==> t[0] == 'n' as int
    ensures Starts(t, T("true")) ==> t[0] == 't' as int
    ensures Starts(t, T("false")) ==> t[0] == 'f' as int
  {
    assert T("null")[0] == 'n' as int && T("true")[0] == 't' as int && T("false")[0] == 'f' as int;
    if Starts(t, T("null")) {
      assert t[..4][0] == t[0];
    }
    if Starts(t, T("true")) {
      assert t[..4][0] == t[0];
    }
    if Starts(t, T("false")) {
      assert t[..5][0] == t[0];
    }
  }

  lemma ReadsNull(s: Text)
    ensures ReadValue(Emit(Null) + s) == Some((VNull, s))
  {
    assert NULL_TEXT == T("null");
    StartsWith(T("null"), s);
  }

  lemma ReadsBool(b: bool, s: Text)
    ensures ReadValue(Emit(Bool(b)) + s) == Some((VBool(b), s))
  {
    var t := Emit(Bool(b)) + s;
    assert TRUE_TEXT == T("true") && FALSE_TEXT == T("false");
    StartsWith(Emit(Bool(b)), s);
    assert t[0] == Emit(Bool(b))[0];
    WordsDiffer(t);
  }

  lemma NumberStart(token: Text, s: Text)
    requires token != [] && NumberChars(token)
    ensures var t := token + s;
            !Starts(t, T("null")) && !Starts(t, T("true")) && !Starts(t, T("false")) &&
            t[0] != '"' as int && t[0] != '[' as int && t[0] != '{' as int
  {
    var t := token + s;
    assert t[0] == token[0] && IsNumberChar(token[0]);
    WordsDiffer(t);
  }

  lemma ReadsNumber(v: Json, s: Text)
    requires v.Num? && Accepted(v) && Delimited(s)
    ensures ReadValue(Emit(v) + s) == Some((Denote(v), s))
  {
    var n := v.number;
    NumberIsToken(n.negative, n.repr);
    NumberTextExact(n.negative, n.repr);
    NumberStart(Emit(v), s);
    ScansToken(Emit(v), s);
  }

  lemma ReadsText(x: Text, s: Text)
    ensures ReadValue(Quoted(x) + s) == Some((VStr(x), s))
  {
    var t := Quoted(x) + s;
    assert t[0] == QUOTE;
    WordsDiffer(t);
    QuotedReads(x, s);
    assert |t| == |Quoted(x)| + |s|;
  }

  lemma ReadsBracket(inner: Text, c: CodePoint)
    requires c == OPEN_ARRAY || c == OPEN_OBJECT
    ensures var t := [c] + inner;
            && t[1..] == inner && !Starts(t, T("null")) && !Starts(t, T("true")) && !Starts(t, T("false"))
  {
    WordsDiffer([c] + inner);
  }

  lemma ReadsElement(t: Text, first: bool)
    ensures Element(Separator(first) + t, first) == Some(t)
  {
    if first {
      assert Separator(first) + t == t;
    } else {
      assert (Separator(first) + t)[1..] == t;
    }
  }

  lemma OneMoreItem(t: Text, first: bool, u: Text, v: Value, w: Text, vs: seq<Value>, rest: Text)
    requires t == [] || t[0] != CLOSE_ARRAY
    requires Element(t, first) == Some(u) && ReadValue(u) == Some((v, w)) && ReadItems(w, false) == Some((vs, rest))
    ensures ReadItems(t, first) == Some(([v] + vs, rest))
  {
  }

  lemma {:induction false} ReadsItems(parent: Json, xs: seq<Json>, first: bool, s: Text)
    requires forall i | 0 <= i < |xs| :: xs[i] < parent && Accepted(xs[i]) && IsMapping(xs[i])
    requires Delimited(s)
    ensures ReadItems(EmitItems(parent, xs, first) + s, first) == Some((DenoteItems(xs), s))
    decreases parent, 0, |xs|
  {
    FirstOfItems(parent, xs, first, s);
    if xs == [] {
      NoItems(parent, first, s);
      assert ([CLOSE_ARRAY] + s)[1..] == s;
    } else {
      var rest := EmitItems(parent, xs[1..], false) + s;
      var u := Emit(xs[0]) + rest;
      ItemsStep(parent, xs, first, s);
      ItemsDelimited(parent, xs[1..], s);
      ReadsValue(xs[0], rest);
      ReadsItems(parent, xs[1..], false, s);
      ReadsElement(u, first);
      OneMoreItem(Separator(first) + u, first, u, Denote(xs[0]), rest, DenoteItems(xs[1..]), s);
    }
  }

  lemma OneMoreMember(t: Text, first: bool, u: Text, name: Text, value: Text, v: Value, w: Text, m: map<Text, Value>,
                      rest: Text)
    requires t == [] || t[0] != CLOSE_OBJECT
    requires Element(t, first) == Some(u) && ReadString(u) == Some((name, [COLON] + value))
    requires |value| < |t| && ReadValue(value) == Some((v, w))
    requires ReadMembers(w, false) == Some((m, rest)) && name !in m
    ensures ReadMembers(t, first) == Some((m[name := v], rest))
  {
    assert ([COLON] + value)[1..] == value;
  }

  lemma {:induction false} ReadsMembers(parent: Json, ms: seq<Member>, first: bool, s: Text)
    requires forall m | m in ms :: m.value < parent && Accepted(m.value) && IsMapping(m.value)
    requires DistinctNames(ms) && Delimited(s)
    ensures ReadMembers(EmitMembers(parent, ms, first) + s, first) == Some((DenoteMembers(ms), s))
    decreases parent, 0, |ms|
  {
    FirstOfMembers(parent, ms, first, s);
    if ms == [] {
      assert ([CLOSE_OBJECT] + s)[1..] == s;
    } else {
      var rest := EmitMembers(parent, ms[1..], false) + s;
      var value := Emit(ms[0].value) + rest;
      var u := Quoted(ms[0].name) + ([COLON] + value);
      MembersStep(parent, ms, first, s);
      MembersDelimited(parent, ms[1..], s);
      QuotedReads(ms[0].name, [COLON] + value);
      ReadsValue(ms[0].value, rest);
      ReadsMembers(parent, ms[1..], false, s);
      ReadsElement(u, first);
      NameNotRepeated(ms);
      OneMoreMember(Separator(first) + u, first, u, ms[0].name, value, Denote(ms[0].value), rest,
                    DenoteMembers(ms[1..]), s);
    }
  }

  lemma NameNotRepeated(ms: seq<Member>)
    requires ms != [] && DistinctNames(ms)
    ensures DistinctNames(ms[1..]) && ms[0].name !in DenoteMembers(ms[1..])
  {
    HeadNotInTail(ms);
    KeyOfMember(ms[1..], ms[0].name);
  }

  /** Canonical text is read back as the value it was written for, whatever delimiter follows. */
  lemma {:induction false} ReadsValue(v: Json, s: Text)
    requires Accepted(v) && IsMapping(v) && Delimited(s)
    ensures ReadValue(Emit(v) + s) == Some((Denote(v), s))
    decreases v, 1, 0
  {
    match v
    case Null => ReadsNull(s);
    case Bool(b) => ReadsBool(b, s);
    case Num(n) => ReadsNumber(v, s);
    case Str(x) => ReadsText(x, s);
    case Arr(items) =>
      ReadsItems(v, items, true, s);
      ReadsBracket(EmitItems(v, items, true) + s, OPEN_ARRAY);
      Assoc([OPEN_ARRAY], EmitItems(v, items, true), s);
    case Obj(ms) =>
      SameElements(ms);
      SortedNamesIncrease(ms);
      DenoteSorted(ms);
      assert |SortMembers(ms)| == |multiset(SortMembers(ms))| == |ms|;
      ReadsMembers(v, SortMembers(ms), true, s);
      ReadsBracket(EmitMembers(v, SortMembers(ms), true) + s, OPEN_OBJECT);
      Assoc([OPEN_OBJECT], EmitMembers(v, SortMembers(ms), true), s);
  }

  lemma ValidConcat(a: Text, b: Text)
    requires ValidText(a) && ValidText(b)
    ensures ValidText(a + b)
  {
  }

  lemma QuotedValid(t: Text)
    requires ValidText(t)
    ensures ValidText(Quoted(t))
  {
    BodyClean(t);
    ValidConcat([QUOTE], Body(t));
  }

  lemma {:induction false} ItemsValid(parent: Json, xs: seq<Json>, first: bool)
    requires forall i | 0 <= i < |xs| :: xs[i] < parent && Accepted(xs[i])
    ensures ValidText(EmitItems(parent, xs, first))
    decreases parent, 0, |xs|
  {
    if xs != [] {
      EmitValid(xs[0]);
      ItemsValid(parent, xs[1..], false);
      ValidConcat(Separator(first), Emit(xs[0]));
      ValidConcat(Separator(first) + Emit(xs[0]), EmitItems(parent, xs[1..], false));
    }
  }

  lemma {:induction false} MembersValid(parent: Json, ms: seq<Member>, first: bool)
    requires forall m | m in ms :: m.value < parent && ValidText(m.name) && Accepted(m.value)
    ensures ValidText(EmitMembers(parent, ms, first))
    decreases parent, 0, |ms|
  {
    if ms != [] {
      QuotedValid(ms[0].name);
      EmitValid(ms[0].value);
      MembersValid(parent, ms[1..], false);
      ValidConcat(Quoted(ms[0].name), [COLON]);
      ValidConcat(Quoted(ms[0].name) + [COLON], Emit(ms[0].value));
      var member := Quoted(ms[0].name) + [COLON] + Emit(ms[0].value);
      ValidConcat(Separator(first), member);
      ValidConcat(Separator(first) + member, EmitMembers(parent, ms[1..], false));
    }
  }

  lemma {:induction false} EmitValid(v: Json)
    requires Accepted(v)
    ensures ValidText(Emit(v))
    decreases v, 1, 0
  {
    match v
    case Num(n) => NumberIsToken(n.negative, n.repr);
    case Str(t) => QuotedValid(t);
    case Arr(items) =>
      ItemsValid(v, items, true);
      ValidConcat([OPEN_ARRAY], EmitItems(v, items, true));
    case Obj(ms) =>
      SameElements(ms);
      assert |SortMembers(ms)| == |multiset(SortMembers(ms))| == |ms|;
      MembersValid(v, SortMembers(ms), true);
      ValidConcat([OPEN_OBJECT], EmitMembers(v, SortMembers(ms), true));
    case _ =>
  }

  /** The canonical bytes of a value are a JSON text of that value. */
  lemma BytesReadBack(v: Json)
    requires Accepted(v) && IsMapping(v)
    ensures ReadJson(JcsBytes(v)) == Some(Denote(v))
  {
    EmitValid(v);
    Utf8Decodes(Emit(v));
    NilRight(Emit(v));
    ReadsValue(v, []);
  }

  /** What canonicalize writes is a JSON text of the value with its strings in NFC. */
  lemma CanonicalizeReads(nfc: Normalizer, v: Json, bytes: Bytes)
    requires IsMapping(v) && Canonicalize(nfc, v) == Some(bytes)
    ensures ReadJson(bytes) == Some(Denote(NfcValues(nfc, v)))
  {
    NfcIsMapping(nfc, v);
    BytesReadBack(NfcValues(nfc, v));
  }
}
