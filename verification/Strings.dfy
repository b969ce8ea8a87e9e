/** JSON string literals (section 3.2.2.2 of RFC 8785): escaping, and why a literal spells one string. */
module Strings {
  import opened Common
  import opened Unicode

  const QUOTE: CodePoint := 34
  const BACKSLASH: CodePoint := 92

  function HexDigit(d: nat): CodePoint
    requires d < 16
  {
    if d < 10 then 48 + d else 87 + d
  }

  function Escape(c: CodePoint): (t: Text)
    ensures 1 <= |t| <= 6
  {
    if c == 8 then [BACKSLASH, 98]
    else if c == 9 then [BACKSLASH, 116]
    else if c == 10 then [BACKSLASH, 110]
    else if c == 12 then [BACKSLASH, 102]
    else if c == 13 then [BACKSLASH, 114]
    else if c == QUOTE || c == BACKSLASH then [BACKSLASH, c]
    else if c < 0x20 then [BACKSLASH, 117, 48, 48, HexDigit(c / 16), HexDigit(c % 16)]
    else [c]
  }

  /** The escaped characters and the closing quote. */
  function Body(t: Text): Text {
    if t == [] then [QUOTE] else Escape(t[0]) + Body(t[1..])
  }

  function Quoted(t: Text): Text {
    [QUOTE] + Body(t)
  }

  /** Escapes are a prefix code, and none starts with a bare quote. */
  lemma EscapeSplit(c: CodePoint, d: CodePoint, s: Text, t: Text)
    requires Escape(c) + s == Escape(d) + t
    ensures c == d && s == t
  {
    var (x, y) := (Escape(c), Escape(d));
    var m := x + s;
    assert m[0] == x[0] && m[0] == y[0];
    if x[0] == BACKSLASH {
      assert m[1] == x[1] && m[1] == y[1];
      assert |x| == |y|;
    }
    SplitSame(x, y, s, t);
    EscapeInjective(c, d);
  }

  lemma EscapeInjective(c: CodePoint, d: CodePoint)
    requires Escape(c) == Escape(d)
    ensures c == d
  {
    var (x, y) := (Escape(c), Escape(d));
    assert x[0] == y[0];
    if |x| > 1 {
      assert x[1] == y[1];
    }
    if |x| > 2 {
      assert x[4] == y[4] && x[5] == y[5];
    }
  }

  lemma {:induction false} BodySplit(x: Text, y: Text, s: Text, t: Text)
    requires Body(x) + s == Body(y) + t
    ensures x == y && s == t
  {
    assert (Body(x) + s)[0] == Body(x)[0] && (Body(y) + t)[0] == Body(y)[0];
    if x == [] && y == [] {
      CancelLeft([QUOTE], s, t);
    } else if x != [] && y != [] {
      Assoc(Escape(x[0]), Body(x[1..]), s);
      Assoc(Escape(y[0]), Body(y[1..]), t);
      EscapeSplit(x[0], y[0], Body(x[1..]) + s, Body(y[1..]) + t);
      BodySplit(x[1..], y[1..], s, t);
      assert x == [x[0]] + x[1..] && y == [y[0]] + y[1..];
    }
  }

  /** A string literal is self-delimiting: it spells one string and ends at one place. */
  lemma QuotedSplit(x: Text, y: Text, s: Text, t: Text)
    requires Quoted(x) + s == Quoted(y) + t
    ensures x == y && s == t
  {
    Assoc([QUOTE], Body(x), s);
    Assoc([QUOTE], Body(y), t);
    CancelLeft([QUOTE], Body(x) + s, Body(y) + t);
    BodySplit(x, y, s, t);
  }

  /** No raw control character, and no lone surrogate that was not in the string. */
  lemma {:induction false} BodyClean(t: Text)
    requires ValidText(t)
    ensures ValidText(Body(t))
    ensures forall i | 0 <= i < |Body(t)| :: Body(t)[i] >= 0x20
  {
    if t != [] {
      BodyClean(t[1..]);
      EscapeClean(t[0]);
    }
  }

  lemma EscapeClean(c: CodePoint)
    ensures forall i | 0 <= i < |Escape(c)| :: Escape(c)[i] >= 0x20
    ensures !IsSurrogate(c) ==> ValidText(Escape(c))
  {
  }

  /** Just behind the first quote outside an escape, as a reader finds the end of a literal. */
  function Closing(t: Text): Option<nat> {
    if t == [] then None
    else if t[0] == QUOTE then Some(1)
    else if t[0] == BACKSLASH then if |t| < 2 then None else Behind(2, Closing(t[2..]))
    else Behind(1, Closing(t[1..]))
  }

  function Behind(n: nat, end: Option<nat>): Option<nat> {
    if end.None? then None else Some(n + end.value)
  }

  lemma {:induction false} SkipPlain(plain: Text, s: Text)
    requires forall i | 0 <= i < |plain| :: plain[i] != QUOTE && plain[i] != BACKSLASH
    ensures Closing(plain + s) == Behind(|plain|, Closing(s))
  {
    if plain == [] {
      assert plain + s == s;
    } else {
      assert (plain + s)[1..] == plain[1..] + s;
      SkipPlain(plain[1..], s);
    }
  }

  lemma SkipPair(c: CodePoint, s: Text)
    ensures Closing([BACKSLASH, c] + s) == Behind(2, Closing(s))
  {
    assert ([BACKSLASH, c] + s)[2..] == s;
  }

  lemma SkipSix(h: CodePoint, l: CodePoint, s: Text)
    requires h != QUOTE && h != BACKSLASH && l != QUOTE && l != BACKSLASH
    ensures Closing([BACKSLASH, 117, 48, 48, h, l] + s) == Behind(6, Closing(s))
  {
    var plain := [48, 48, h, l];
    SkipPlain(plain, s);
    SkipPair(117, plain + s);
    assert [BACKSLASH, 117, 48, 48, h, l] + s == [BACKSLASH, 117] + (plain + s);
  }

  lemma SkipEscape(c: CodePoint, s: Text)
    ensures Closing(Escape(c) + s) == Behind(|Escape(c)|, Closing(s))
  {
    var t := Escape(c);
    if |t| == 1 {
      SkipPlain(t, s);
    } else if |t| == 2 {
      SkipPair(t[1], s);
    } else {
      SkipSix(t[4], t[5], s);
    }
  }

  /** No raw quote: a reader meets the first unescaped one at the very end of the literal. */
  lemma {:induction false} BodyCloses(t: Text, s: Text)
    ensures Closing(Body(t) + s) == Some(|Body(t)|)
  {
    if t != [] {
      Assoc(Escape(t[0]), Body(t[1..]), s);
      SkipEscape(t[0], Body(t[1..]) + s);
      BodyCloses(t[1..], s);
    }
  }

  // ------------------------------------------------------------ the reader

  function HexValue(c: CodePoint): Option<nat> {
    if '0' as int <= c <= '9' as int then Some(c - '0' as int)
    else if 'a' as int <= c <= 'f' as int then Some(10 + (c - 'a' as int))
    else if 'A' as int <= c <= 'F' as int then Some(10 + (c - 'A' as int))
    else None
  }

  /** Four hexadecimal digits. */
  function ReadHex4(t: Text): Option<nat> {
    if |t| < 4 then None
    else
      var (a, b, c, d) := (HexValue(t[0]), HexValue(t[1]), HexValue(t[2]), HexValue(t[3]));
      if a.None? || b.None? || c.None? || d.None? then None
      else Some(((a.value * 16 + b.value) * 16 + c.value) * 16 + d.value)
  }

  /** The character of a two-character escape (section 7 of RFC 8259). */
  function ShortEscape(c: CodePoint): Option<CodePoint> {
    if c == '\"' as int then Some(0x22)
    else if c == '\\' as int then Some(0x5C)
    else if c == '/' as int then Some(0x2F)
    else if c == 'b' as int then Some(0x08)
    else if c == 'f' as int then Some(0x0C)
    else if c == 'n' as int then Some(0x0A)
    else if c == 'r' as int then Some(0x0D)
    else if c == 't' as int then Some(0x09)
    else None
  }

  /** An escape behind its backslash: the character, and how much text it takes. */
  function ReadEscape(t: Text): Option<(CodePoint, nat)> {
    if t == [] then None
    else if t[0] != 'u' as int then
      var c := ShortEscape(t[0]);
      if c.None? then None else Some((c.value, 1))
    else
      var high := ReadHex4(t[1..]);
      if high.None? || high.value >= 0x10000 then None
      else if 0xD800 <= high.value < 0xDC00 && |t| >= 7 && t[5] == BACKSLASH && t[6] == 'u' as int then
        var low := ReadHex4(t[7..]);
        if low.Some? && 0xDC00 <= low.value < 0xE000
        then Some((0x10000 + (high.value - 0xD800) * 0x400 + (low.value - 0xDC00), 11))
        else Some((high.value, 5))
      else Some((high.value, 5))
  }

  /** The characters of a string literal behind its opening quote, and the text behind the literal. */
  function ReadBody(t: Text): Option<(Text, Text)>
    decreases |t|
  {
    if t == [] || t[0] < 0x20 then None
    else if t[0] == QUOTE then Some(([], t[1..]))
    else if t[0] == BACKSLASH then
      var escape := ReadEscape(t[1..]);
      if escape.None? || 1 + escape.value.1 > |t| then None
      else Prepend(escape.value.0, ReadBody(t[1 + escape.value.1..]))
    else Prepend(t[0], ReadBody(t[1..]))
  }

  function Prepend(c: CodePoint, r: Option<(Text, Text)>): Option<(Text, Text)> {
    if r.None? then None else Some(([c] + r.value.0, r.value.1))
  }

  /** A string literal of section 7 of RFC 8259, and the text behind it. */
  function ReadString(t: Text): Option<(Text, Text)> {
    if t == [] || t[0] != QUOTE then None else ReadBody(t[1..])
  }

  lemma ReadShort(c: CodePoint, d: CodePoint, s: Text)
    requires ShortEscape(d) == Some(c)
    ensures ReadBody([BACKSLASH, d] + s) == Prepend(c, ReadBody(s))
  {
    var t := [BACKSLASH, d] + s;
    assert t[1..][0] == d && t[2..] == s;
  }

  lemma HexDigitValue(d: nat)
    requires d < 16
    ensures HexValue(HexDigit(d)) == Some(d)
  {
  }

  lemma ReadControl(c: CodePoint, s: Text)
    requires c < 0x20
    ensures ReadBody([BACKSLASH, 117, 48, 48, HexDigit(c / 16), HexDigit(c % 16)] + s) == Prepend(c, ReadBody(s))
  {
    var t := [BACKSLASH, 117, 48, 48, HexDigit(c / 16), HexDigit(c % 16)] + s;
    HexDigitValue(c / 16);
    HexDigitValue(c % 16);
    var hex := t[1..][1..];
    assert hex[0] == 48 && hex[1] == 48 && hex[2] == HexDigit(c / 16) && hex[3] == HexDigit(c % 16);
    assert ReadHex4(hex) == Some(c);
    assert t[6..] == s;
  }

  lemma ReadPlain(c: CodePoint, s: Text)
    requires c >= 0x20 && c != QUOTE && c != BACKSLASH
    ensures ReadBody([c] + s) == Prepend(c, ReadBody(s))
  {
    assert ([c] + s)[1..] == s;
  }

  lemma ShortEscapeSpells(c: CodePoint)
    requires |Escape(c)| == 2
    ensures Escape(c) == [BACKSLASH, Escape(c)[1]] && ShortEscape(Escape(c)[1]) == Some(c)
  {
  }

  /** Every escape spells the character it stands for. */
  lemma ReadsEscape(c: CodePoint, s: Text)
    ensures ReadBody(Escape(c) + s) == Prepend(c, ReadBody(s))
  {
    if |Escape(c)| == 2 {
      ShortEscapeSpells(c);
      ReadShort(c, Escape(c)[1], s);
    } else if c < 0x20 {
      ReadControl(c, s);
    } else {
      ReadPlain(c, s);
    }
  }

  lemma {:induction false} ReadsBody(t: Text, s: Text)
    ensures ReadBody(Body(t) + s) == Some((t, s))
  {
    if t == [] {
      assert ([QUOTE] + s)[1..] == s;
    } else {
      Assoc(Escape(t[0]), Body(t[1..]), s);
      ReadsEscape(t[0], Body(t[1..]) + s);
      ReadsBody(t[1..], s);
      assert [t[0]] + t[1..] == t;
    }
  }

  /** The literal written for a string is read, by the grammar, as that string. */
  lemma QuotedReads(t: Text, s: Text)
    ensures ReadString(Quoted(t) + s) == Some((t, s))
  {
    assert (Quoted(t) + s)[1..] == Body(t) + s;
    ReadsBody(t, s);
  }

  /** What RFC 8785 leaves no choice about: the shortest escape there is, and lower-case hex. */
  lemma EscapeIsShortest(c: CodePoint)
    ensures |Escape(c)| == 1 <==> c >= 0x20 && c != QUOTE && c != BACKSLASH
    ensures |Escape(c)| > 2 ==> forall d :: ShortEscape(d) != Some(c)
    ensures forall i | 0 <= i < |Escape(c)| && |Escape(c)| > 2 :: !('A' as int <= Escape(c)[i] <= 'F' as int)
  {
  }

  /** _serialize_string: the check, then one piece of output per character. */
  method SerializeString(text: Text) returns (result: Option<Text>)
    ensures result == if ValidText(text) then Some(Quoted(text)) else None
  {
    if !ValidText(text) {
      return None;
    }
    var out := [QUOTE];
    var i := 0;
    while i < |text|
      invariant 0 <= i <= |text|
      invariant out + Body(text[i..]) == Quoted(text)
    {
      ghost var rest := text[i..];
      assert rest[0] == text[i] && rest[1..] == text[i + 1..];
      Assoc(out, Escape(text[i]), Body(text[i + 1..]));
      out := out + Escape(text[i]);
      i := i + 1;
    }
    return Some(out + [QUOTE]);
  }
}
