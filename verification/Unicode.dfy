/**
 Text as Python holds it: a sequence of code points, surrogates included, with
 the UTF-8 bytes it is written as and the UTF-16 bytes member names sort by.
 */
module Unicode {
  import opened Common

  type CodePoint = x: int | 0 <= x < 0x110000

  type Text = seq<CodePoint>

  predicate IsSurrogate(c: int) {
    0xD800 <= c <= 0xDFFF
  }

  /** Text with a UTF-8 encoding: no lone surrogate. */
  predicate ValidText(t: Text) {
    forall i | 0 <= i < |t| :: !IsSurrogate(t[i])
  }

  function T(s: string): (t: Text)
    ensures |t| == |s| && ValidText(t)
  {
    seq(|s|, i requires 0 <= i < |s| => s[i] as int)
  }

  // ------------------------------------------------------------------- UTF-8

  function Utf8One(c: CodePoint): (b: Bytes)
    ensures 1 <= |b| <= 4
  {
    var q := c / 64;
    var r := q / 64;
    if c < 0x80 then [c]
    else if c < 0x800 then [0xC0 + q, 0x80 + c % 64]
    else if c < 0x10000 then [0xE0 + r, 0x80 + q % 64, 0x80 + c % 64]
    else [0xF0 + r / 64, 0x80 + r % 64, 0x80 + q % 64, 0x80 + c % 64]
  }

  function Utf8(t: Text): Bytes {
    if t == [] then [] else Utf8One(t[0]) + Utf8(t[1..])
  }

  lemma Utf8OneInjective(a: CodePoint, b: CodePoint)
    requires Utf8One(a) == Utf8One(b)
    ensures a == b
  {
    var (x, y) := (Utf8One(a), Utf8One(b));
    assert x[0] == y[0] && x[|x| - 1] == y[|x| - 1];
    if |x| >= 3 {
      assert x[1] == y[1] && x[2] == y[2];
    }
  }

  /** UTF-8 is a prefix code. */
  lemma Utf8OneSplit(a: CodePoint, b: CodePoint, s: Bytes, t: Bytes)
    requires Utf8One(a) + s == Utf8One(b) + t
    ensures a == b && s == t
  {
    var (x, y) := (Utf8One(a), Utf8One(b));
    var m := x + s;
    assert m[0] == x[0] && m[0] == y[0];
    assert |x| == |y|;
    assert x == m[..|x|] && y == m[..|x|];
    assert s == m[|x|..] && t == m[|x|..];
    Utf8OneInjective(a, b);
  }

  lemma {:induction false} Utf8Injective(a: Text, b: Text)
    requires Utf8(a) == Utf8(b)
    ensures a == b
  {
    if a != [] && b != [] {
      Utf8OneSplit(a[0], b[0], Utf8(a[1..]), Utf8(b[1..]));
      Utf8Injective(a[1..], b[1..]);
    }
  }

  /** A continuation byte of section 3 of RFC 3629. */
  predicate IsTail(b: Byte) {
    0x80 <= b < 0xC0
  }

  function SixBits(b: Byte): int
    requires IsTail(b)
  {
    b as int - 0x80
  }

  /** The first character of UTF-8 bytes, read by the table of section 4 of RFC 3629, and the bytes after it. */
  function DecodeOne(b: Bytes): Option<(CodePoint, Bytes)>
    requires b != []
  {
    var lead: int := b[0];
    if lead < 0x80 then Some((lead, b[1..]))
    else if 0xC2 <= lead < 0xE0 && |b| >= 2 && IsTail(b[1]) then
      Some(((lead - 0xC0) * 64 + SixBits(b[1]), b[2..]))
    else if 0xE0 <= lead < 0xF0 && |b| >= 3 && IsTail(b[1]) && IsTail(b[2]) then
      var c := ((lead - 0xE0) * 64 + SixBits(b[1])) * 64 + SixBits(b[2]);
      if c < 0x800 || IsSurrogate(c) then None else Some((c, b[3..]))
    else if 0xF0 <= lead < 0xF5 && |b| >= 4 && IsTail(b[1]) && IsTail(b[2]) && IsTail(b[3]) then
      var c := (((lead - 0xF0) * 64 + SixBits(b[1])) * 64 + SixBits(b[2])) * 64 + SixBits(b[3]);
      if c < 0x10000 || c >= 0x110000 then None else Some((c, b[4..]))
    else None
  }

  function DecodeUtf8(b: Bytes): Option<Text>
    decreases |b|
  {
    if b == [] then Some([])
    else
      var one := DecodeOne(b);
      if one.None? || |one.value.1| >= |b| then None
      else
        var rest := DecodeUtf8(one.value.1);
        if rest.None? then None else Some([one.value.0] + rest.value)
  }

  lemma DecodesOne(c: CodePoint, s: Bytes)
    requires !IsSurrogate(c)
    ensures DecodeOne(Utf8One(c) + s) == Some((c, s))
  {
    var b := Utf8One(c) + s;
    var x := Utf8One(c);
    assert forall i | 0 <= i < |x| :: b[i] == x[i];
    assert b[|x|..] == s;
  }

  lemma DecodesMore(b: Bytes, c: CodePoint, rest: Bytes, t: Text)
    requires b != [] && DecodeOne(b) == Some((c, rest)) && |rest| < |b| && DecodeUtf8(rest) == Some(t)
    ensures DecodeUtf8(b) == Some([c] + t)
  {
  }

  /** The bytes of a text are its UTF-8 encoding: a decoder of RFC 3629 gives it back. */
  lemma {:induction false} Utf8Decodes(t: Text)
    requires ValidText(t)
    ensures DecodeUtf8(Utf8(t)) == Some(t)
  {
    if t != [] {
      var rest := Utf8(t[1..]);
      DecodesOne(t[0], rest);
      Utf8Decodes(t[1..]);
      DecodesMore(Utf8One(t[0]) + rest, t[0], rest, t[1..]);
      assert [t[0]] + t[1..] == t;
    }
  }

  // ------------------------------------------------------------------ UTF-16

  type Unit = x: int | 0 <= x < 0x10000

  function UnitsOne(c: CodePoint): (us: seq<Unit>)
    ensures 1 <= |us| <= 2
  {
    if c < 0x10000 then [c]
    else [0xD800 + (c - 0x10000) / 0x400, 0xDC00 + (c - 0x10000) % 0x400]
  }

  function Units(t: Text): seq<Unit> {
    if t == [] then [] else UnitsOne(t[0]) + Units(t[1..])
  }

  /** The characters code units spell, a high and a low surrogate in a row being one (section 2.1 of RFC 2781). */
  function DecodeUnits(us: seq<Unit>): Text {
    if us == [] then []
    else if 0xD800 <= us[0] < 0xDC00 && |us| > 1 && 0xDC00 <= us[1] < 0xE000 then
      [0x10000 + (us[0] - 0xD800) * 0x400 + (us[1] - 0xDC00)] + DecodeUnits(us[2..])
    else [us[0]] + DecodeUnits(us[1..])
  }

  lemma {:induction false} UnitsDecode(t: Text)
    requires ValidText(t)
    ensures DecodeUnits(Units(t)) == t
  {
    if t != [] {
      UnitsDecode(t[1..]);
      var one, us := UnitsOne(t[0]), Units(t);
      assert us[|one|..] == Units(t[1..]) && forall i | 0 <= i < |one| :: us[i] == one[i];
      assert [t[0]] + t[1..] == t;
    }
  }

  function BigEndian(us: seq<Unit>): Bytes {
    if us == [] then [] else [us[0] / 256, us[0] % 256] + BigEndian(us[1..])
  }

  /** The sort key of a member name: name.encode("utf-16-be"). */
  function Utf16Be(t: Text): Bytes {
    BigEndian(Units(t))
  }

  lemma {:induction false} UnitsInjective(a: Text, b: Text)
    requires ValidText(a) && ValidText(b) && Units(a) == Units(b)
    ensures a == b
  {
    if a != [] && b != [] {
      var m := Units(a);
      assert m[0] == UnitsOne(a[0])[0] && m[0] == UnitsOne(b[0])[0];
      assert |UnitsOne(a[0])| == |UnitsOne(b[0])|;
      var w := |UnitsOne(a[0])|;
      assert w > 1 ==> m[1] == UnitsOne(a[0])[1] && m[1] == UnitsOne(b[0])[1];
      assert Units(a[1..]) == m[w..] && Units(b[1..]) == m[w..];
      UnitsInjective(a[1..], b[1..]);
    }
  }

  /** Lexicographic order, a proper prefix first. */
  predicate LexLess(a: seq<int>, b: seq<int>) {
    b != [] && (a == [] || a[0] < b[0] || (a[0] == b[0] && LexLess(a[1..], b[1..])))
  }

  /** a and b agree before position k, where a ends or holds the smaller number. */
  ghost predicate SmallerAt(a: seq<int>, b: seq<int>, k: nat) {
    k < |b| && k <= |a| && a[..k] == b[..k] && (k == |a| || a[k] < b[k])
  }

  /** The order is decided at the first difference. */
  lemma {:induction false} LexLessMeans(a: seq<int>, b: seq<int>)
    ensures LexLess(a, b) <==> exists k: nat :: SmallerAt(a, b, k)
  {
    if a == [] {
      assert b != [] ==> SmallerAt(a, b, 0);
    } else if b != [] {
      LexLessMeans(a[1..], b[1..]);
      if a[0] < b[0] {
        assert SmallerAt(a, b, 0);
      }
      if k: nat :| SmallerAt(a[1..], b[1..], k) && a[0] == b[0] {
        assert a[..k + 1] == [a[0]] + a[1..][..k] && b[..k + 1] == [b[0]] + b[1..][..k];
        assert SmallerAt(a, b, k + 1);
      }
      if k: nat :| SmallerAt(a, b, k) {
        if k > 0 {
          assert a[..k][0] == a[0] && b[..k][0] == b[0];
          assert a[1..][..k - 1] == a[..k][1..] && b[1..][..k - 1] == b[..k][1..];
          assert SmallerAt(a[1..], b[1..], k - 1);
        }
      }
    }
  }

  lemma {:induction false} LexTotal(a: seq<int>, b: seq<int>)
    ensures a == b || LexLess(a, b) || LexLess(b, a)
    ensures !(LexLess(a, b) && LexLess(b, a)) && (a == b ==> !LexLess(a, b))
  {
    if a != [] && b != [] {
      LexTotal(a[1..], b[1..]);
      assert a == [a[0]] + a[1..] && b == [b[0]] + b[1..];
    }
  }

  lemma {:induction false} LexTransitive(a: seq<int>, b: seq<int>, c: seq<int>)
    requires LexLess(a, b) && LexLess(b, c)
    ensures LexLess(a, c)
  {
    if a != [] && a[0] == b[0] == c[0] {
      LexTransitive(a[1..], b[1..], c[1..]);
    }
  }

  /** Big-endian bytes compare in the same order as the code units they spell. */
  lemma {:induction false} BytesOrderIsUnitOrder(a: seq<Unit>, b: seq<Unit>)
    ensures LexLess(BigEndian(a), BigEndian(b)) <==> LexLess(a, b)
  {
    if a != [] && b != [] {
      var x, y := BigEndian(a), BigEndian(b);
      assert x[0] == a[0] / 256 && x[1..][0] == a[0] % 256 && x[1..][1..] == BigEndian(a[1..]);
      assert y[0] == b[0] / 256 && y[1..][0] == b[0] % 256 && y[1..][1..] == BigEndian(b[1..]);
      BytesOrderIsUnitOrder(a[1..], b[1..]);
    }
  }

  /** The order RFC 8785 section 3.2.3 asks for: by UTF-16 code units. */
  predicate NameLess(a: Text, b: Text) {
    LexLess(Utf16Be(a), Utf16Be(b))
  }

  /** Before b at the first code unit in which they differ. */
  lemma NameLessIsUnitOrder(a: Text, b: Text)
    ensures NameLess(a, b) <==> LexLess(Units(a), Units(b))
    ensures NameLess(a, b) <==> exists k: nat :: SmallerAt(Units(a), Units(b), k)
  {
    BytesOrderIsUnitOrder(Units(a), Units(b));
    LexLessMeans(Units(a), Units(b));
  }

  lemma NameLessTotal(a: Text, b: Text)
    requires ValidText(a) && ValidText(b)
    ensures a == b || NameLess(a, b) || NameLess(b, a)
    ensures !(NameLess(a, b) && NameLess(b, a)) && (a == b ==> !NameLess(a, b))
  {
    NameLessIsUnitOrder(a, b);
    NameLessIsUnitOrder(b, a);
    LexTotal(Units(a), Units(b));
    if Units(a) == Units(b) {
      UnitsInjective(a, b);
    }
  }
}
