/**
 Number text (section 3.2.2.3 of RFC 8785): from the digits Python's repr
 prints to the ECMAScript layout, and back through the grammar of section 6
 of RFC 8259.

 A finite double is represented by any decimal text of its value: an integer
 part, a fraction and an exponent.
 */
module Numbers {
  import opened Common
  import opened Unicode

  type Digit = d: int | 0 <= d < 10

  /** The three parts of repr(abs(value)). */
  datatype Repr = Repr(whole: seq<Digit>, frac: seq<Digit>, exp: int)

  // -------------------------------------------------------------- arithmetic

  function P10(k: nat): (p: nat)
    ensures p > 0
  {
    if k == 0 then 1 else 10 * P10(k - 1)
  }

  /** x * 10^e. */
  function Times10(x: real, e: int): real
    decreases if e < 0 then -e else e
  {
    if e == 0 then x
    else if e > 0 then Times10(10.0 * x, e - 1)
    else Times10(x / 10.0, e + 1)
  }

  /** The integer a digit string writes. */
  function Nat(ds: seq<Digit>): nat {
    if ds == [] then 0 else 10 * Nat(ds[..|ds| - 1]) + ds[|ds| - 1]
  }

  function Magnitude(r: Repr): real {
    Times10(Nat(r.whole + r.frac) as real, r.exp - |r.frac|)
  }

  function SignedValue(negative: bool, r: Repr): real {
    if negative then -Magnitude(r) else Magnitude(r)
  }

  function Zeros(k: nat): (ds: seq<Digit>)
    ensures |ds| == k
  {
    if k == 0 then [] else Zeros(k - 1) + [0]
  }

  lemma Times10Step(x: real, e: int)
    ensures Times10(10.0 * x, e) == Times10(x, e + 1)
  {
  }

  lemma {:induction false} Times10Shift(n: nat, k: nat, e: int)
    ensures Times10((n * P10(k)) as real, e) == Times10(n as real, e + k)
  {
    if k > 0 {
      TimesP10(n, k);
      Times10Step((n * P10(k - 1)) as real, e);
      Times10Shift(n, k - 1, e + 1);
    }
  }

  lemma {:induction false} Times10Injective(x: real, y: real, e: int)
    requires Times10(x, e) == Times10(y, e)
    ensures x == y
    decreases if e < 0 then -e else e
  {
    if e > 0 {
      Times10Injective(10.0 * x, 10.0 * y, e - 1);
    } else if e < 0 {
      Times10Injective(x / 10.0, y / 10.0, e + 1);
    }
  }

  lemma {:induction false} Times10Sign(x: real, e: int)
    requires x >= 0.0
    ensures Times10(x, e) >= 0.0 && (Times10(x, e) == 0.0 <==> x == 0.0)
    decreases if e < 0 then -e else e
  {
    if e > 0 {
      Times10Sign(10.0 * x, e - 1);
    } else if e < 0 {
      Times10Sign(x / 10.0, e + 1);
    }
  }

  lemma TimesP10(n: nat, k: nat)
    requires k > 0
    ensures n * P10(k) == 10 * (n * P10(k - 1))
  {
  }

  lemma NatAppend(a: seq<Digit>, d: Digit)
    ensures Nat(a + [d]) == 10 * Nat(a) + d
  {
    assert (a + [d])[..|a|] == a;
  }

  lemma {:induction false} NatConcat(a: seq<Digit>, b: seq<Digit>)
    ensures Nat(a + b) == Nat(a) * P10(|b|) + Nat(b)
  {
    if b == [] {
      assert a + b == a;
    } else {
      var init, last := b[..|b| - 1], b[|b| - 1];
      assert a + b == (a + init) + [last];
      NatAppend(a + init, last);
      NatConcat(a, init);
      TimesP10(Nat(a), |b|);
    }
  }

  lemma {:induction false} NatZeros(k: nat)
    ensures Nat(Zeros(k)) == 0
  {
    if k > 0 {
      NatZeros(k - 1);
      assert Zeros(k)[..k - 1] == Zeros(k - 1);
    }
  }

  // --------------------------------------------------------- shortest digits

  function StripLeading(ds: seq<Digit>): (r: seq<Digit>)
    ensures |r| <= |ds|
  {
    if ds != [] && ds[0] == 0 then StripLeading(ds[1..]) else ds
  }

  function StripTrailing(ds: seq<Digit>): (r: seq<Digit>)
    ensures |r| <= |ds|
  {
    if ds != [] && ds[|ds| - 1] == 0 then StripTrailing(ds[..|ds| - 1]) else ds
  }

  /** (digits, n) with value == 0.digits * 10^n, no zero at either end. */
  function ShortestDigits(r: Repr): (seq<Digit>, int) {
    var raw := r.whole + r.frac;
    var stripped := StripLeading(raw);
    (StripTrailing(stripped), |r.whole| + r.exp - (|raw| - |stripped|))
  }

  predicate Normal(ds: seq<Digit>) {
    ds != [] && ds[0] != 0 && ds[|ds| - 1] != 0
  }

  /** The real number 0.digits * 10^n. */
  function Scaled(ds: seq<Digit>, n: int): real {
    Times10(Nat(ds) as real, n - |ds|)
  }

  lemma {:induction false} StripLeadingSpec(ds: seq<Digit>)
    ensures Nat(StripLeading(ds)) == Nat(ds)
    ensures StripLeading(ds) != [] ==> StripLeading(ds)[0] != 0
  {
    if ds != [] && ds[0] == 0 {
      assert ds == [0] + ds[1..] && Nat([0]) == 0;
      NatConcat([0], ds[1..]);
      StripLeadingSpec(ds[1..]);
    }
  }

  lemma {:induction false} StripTrailingSpec(ds: seq<Digit>)
    ensures Nat(ds) == Nat(StripTrailing(ds)) * P10(|ds| - |StripTrailing(ds)|)
    ensures StripTrailing(ds) <= ds
    ensures StripTrailing(ds) != [] ==> StripTrailing(ds)[|StripTrailing(ds)| - 1] != 0
  {
    if ds != [] && ds[|ds| - 1] == 0 {
      var init := ds[..|ds| - 1];
      StripTrailingSpec(init);
      TimesP10(Nat(StripTrailing(init)), |ds| - |StripTrailing(init)|);
    }
  }

  /** Stripping keeps the value and leaves no zero at either end. */
  lemma ShortestDigitsExact(r: Repr)
    requires Magnitude(r) != 0.0
    ensures Normal(ShortestDigits(r).0)
    ensures Scaled(ShortestDigits(r).0, ShortestDigits(r).1) == Magnitude(r)
  {
    var raw := r.whole + r.frac;
    var stripped := StripLeading(raw);
    var (ds, n) := ShortestDigits(r);
    StripLeadingSpec(raw);
    StripTrailingSpec(stripped);
    var k := |stripped| - |ds|;
    Times10Shift(Nat(ds), k, r.exp - |r.frac|);
    assert n - |ds| == r.exp - |r.frac| + k;
    Times10Sign(Nat(raw) as real, r.exp - |r.frac|);
  }

  // -------------------------------------------------------------- uniqueness

  lemma {:induction false} NatPositive(ds: seq<Digit>)
    requires ds != [] && ds[0] != 0
    ensures Nat(ds) > 0
  {
    if |ds| > 1 {
      NatPositive(ds[..|ds| - 1]);
    }
  }

  /** A digit string without leading zeros is determined by its number. */
  lemma {:induction false} NatInjective(a: seq<Digit>, b: seq<Digit>)
    requires a != [] ==> a[0] != 0
    requires b != [] ==> b[0] != 0
    requires Nat(a) == Nat(b)
    ensures a == b
  {
    if a == [] || b == [] {
      if a != [] { NatPositive(a); }
      if b != [] { NatPositive(b); }
    } else {
      NatInjective(a[..|a| - 1], b[..|b| - 1]);
      assert a == a[..|a| - 1] + [a[|a| - 1]] && b == b[..|b| - 1] + [b[|b| - 1]];
    }
  }

  lemma SameExponent(a: seq<Digit>, m: int, b: seq<Digit>, n: int)
    requires Normal(a) && Normal(b) && Scaled(a, m) == Scaled(b, n)
    ensures m - |a| >= n - |b|
  {
    if m - |a| < n - |b| {
      var k := (n - |b|) - (m - |a|);
      Times10Shift(Nat(b), k, m - |a|);
      Times10Injective(Nat(a) as real, (Nat(b) * P10(k)) as real, m - |a|);
      TimesP10(Nat(b), k);
    }
  }

  /** Normalised digits and exponent are determined by the real number they denote. */
  lemma ScaledInjective(a: seq<Digit>, m: int, b: seq<Digit>, n: int)
    requires Normal(a) && Normal(b) && Scaled(a, m) == Scaled(b, n)
    ensures a == b && m == n
  {
    SameExponent(a, m, b, n);
    SameExponent(b, n, a, m);
    Times10Injective(Nat(a) as real, Nat(b) as real, m - |a|);
    NatInjective(a, b);
  }

  // ------------------------------------------------------------------ layout

  const ZERO: CodePoint := 48
  const DOT: CodePoint := 46
  const EXP: CodePoint := 101
  const PLUS: CodePoint := 43
  const MINUS: CodePoint := 45

  function Chars(ds: seq<Digit>): (t: Text)
    ensures |t| == |ds|
  {
    if ds == [] then [] else [ZERO + ds[0]] + Chars(ds[1..])
  }

  /** str(n) for a non-negative integer. */
  function Decimal(n: nat): (ds: seq<Digit>)
    ensures ds != [] && Nat(ds) == n
  {
    if n < 10 then [n] else
      var ds := Decimal(n / 10) + [n % 10];
      assert ds[..|ds| - 1] == Decimal(n / 10);
      ds
  }

  function ExponentText(e: int): Text {
    [EXP] + (if e >= 0 then [PLUS] else [MINUS]) + Chars(Decimal(if e >= 0 then e else -e))
  }

  /** The four layouts of ECMAScript Number::toString. */
  function Layout(ds: seq<Digit>, n: int): Text
    requires ds != []
  {
    var k := |ds|;
    if k <= n <= 21 then Chars(ds + Zeros(n - k))
    else if 0 < n <= 21 then Chars(ds[..n]) + [DOT] + Chars(ds[n..])
    else if -6 < n <= 0 then Chars([0]) + [DOT] + Chars(Zeros(-n) + ds)
    else if k == 1 then Chars(ds) + ExponentText(n - 1)
    else Chars(ds[..1]) + [DOT] + Chars(ds[1..]) + ExponentText(n - 1)
  }

  function NumberText(negative: bool, r: Repr): Text {
    if Magnitude(r) == 0.0 then Chars([0])
    else
      ShortestDigitsExact(r);
      var (ds, n) := ShortestDigits(r);
      (if negative then [MINUS] else []) + Layout(ds, n)
  }

  // ------------------------------------------------- the grammar of RFC 8259

  datatype NumberParts = NumberParts(negative: bool, whole: seq<Digit>, frac: seq<Digit>, exp: int) {
    function Denotes(): real {
      SignedValue(negative, Repr(whole, frac, exp))
    }
  }

  predicate IsDigit(c: CodePoint) {
    ZERO <= c < ZERO + 10
  }

  /** The longest run of digits, and what follows it. */
  function ScanDigits(t: Text): (seq<Digit>, Text) {
    if t != [] && IsDigit(t[0]) then
      var (ds, rest) := ScanDigits(t[1..]);
      ([t[0] - ZERO] + ds, rest)
    else
      ([], t)
  }

  /** [ minus / plus ] 1*DIGIT, to the end of the text. */
  function ReadSignedDigits(t: Text): Option<int> {
    var signed := t != [] && (t[0] == PLUS || t[0] == MINUS);
    var (ds, rest) := ScanDigits(if signed then t[1..] else t);
    if ds == [] || rest != [] then None
    else Some(if signed && t[0] == MINUS then 0 - Nat(ds) else Nat(ds))
  }

  /** [ exp ], to the end of the text. */
  function ReadExponent(t: Text): Option<int> {
    if t == [] then Some(0)
    else if t[0] == EXP || t[0] == 69 then ReadSignedDigits(t[1..])
    else None
  }

  /** [ frac ] [ exp ], to the end of the text. */
  function ReadFraction(t: Text): Option<(seq<Digit>, int)> {
    var dotted := t != [] && t[0] == DOT;
    var (ds, rest) := if dotted then ScanDigits(t[1..]) else ([], t);
    var exp := ReadExponent(rest);
    if (dotted && ds == []) || exp.None? then None else Some((ds, exp.value))
  }

  /** [ minus ] int [ frac ] [ exp ]; int has no superfluous leading zero. */
  function ReadNumber(t: Text): Option<NumberParts> {
    var negative := t != [] && t[0] == MINUS;
    var (ds, rest) := ScanDigits(if negative then t[1..] else t);
    if ds == [] || (|ds| > 1 && ds[0] == 0) then None
    else
      var tail := ReadFraction(rest);
      if tail.None? then None else Some(NumberParts(negative, ds, tail.value.0, tail.value.1))
  }

  lemma ScanStep(t: Text, d: Digit, ds: seq<Digit>, rest: Text)
    requires t != [] && t[0] == ZERO + d && ScanDigits(t[1..]) == (ds, rest)
    ensures ScanDigits(t) == ([d] + ds, rest)
  {
  }

  lemma CharsTail(ds: seq<Digit>, rest: Text)
    requires ds != []
    ensures (Chars(ds) + rest)[0] == ZERO + ds[0] && (Chars(ds) + rest)[1..] == Chars(ds[1..]) + rest
  {
    assert Chars(ds) == [ZERO + ds[0]] + Chars(ds[1..]);
  }

  lemma {:induction false} ScanDigitsChars(ds: seq<Digit>, rest: Text)
    requires rest != [] ==> !IsDigit(rest[0])
    ensures ScanDigits(Chars(ds) + rest) == (ds, rest)
  {
    if ds == [] {
      assert Chars(ds) + rest == rest;
    } else {
      CharsTail(ds, rest);
      ScanDigitsChars(ds[1..], rest);
      ScanStep(Chars(ds) + rest, ds[0], ds[1..], rest);
      assert [ds[0]] + ds[1..] == ds;
    }
  }

  lemma ReadExponentText(e: int)
    ensures ReadExponent(ExponentText(e)) == Some(e)
  {
    var ds := Decimal(if e >= 0 then e else -e);
    var t := ExponentText(e)[1..];
    assert t[1..] == Chars(ds) + [];
    ScanDigitsChars(ds, []);
  }

  function FractionText(frac: seq<Digit>): Text {
    if frac == [] then [] else [DOT] + Chars(frac)
  }

  /** Text after the digits of a number. */
  ghost predicate ExponentTail(tail: Text, exp: int) {
    (tail == [] || (tail[0] != DOT && !IsDigit(tail[0]))) && ReadExponent(tail) == Some(exp)
  }

  lemma ReadFractionText(t: Text, frac: seq<Digit>, tail: Text, exp: int)
    requires t == FractionText(frac) + tail && ExponentTail(tail, exp)
    ensures ReadFraction(t) == Some((frac, exp))
    ensures t != [] ==> !IsDigit(t[0])
  {
    if frac == [] {
      assert t == tail;
    } else {
      DottedText(frac, tail);
      ScanDigitsChars(frac, tail);
      ReadDotted(t, frac, tail, exp);
    }
  }

  lemma DottedText(frac: seq<Digit>, tail: Text)
    requires frac != []
    ensures (FractionText(frac) + tail)[0] == DOT && (FractionText(frac) + tail)[1..] == Chars(frac) + tail
  {
  }

  lemma ReadDotted(t: Text, frac: seq<Digit>, tail: Text, exp: int)
    requires t != [] && t[0] == DOT && frac != [] && ScanDigits(t[1..]) == (frac, tail)
    requires ReadExponent(tail) == Some(exp)
    ensures ReadFraction(t) == Some((frac, exp))
  {
  }

  /** The parts a text is read as. */
  ghost predicate ReadsAs(t: Text, whole: seq<Digit>, frac: seq<Digit>, exp: int) {
    ReadNumber(t) == Some(NumberParts(false, whole, frac, exp))
  }

  lemma ReadNumberStep(t: Text, ds: seq<Digit>, rest: Text, frac: seq<Digit>, exp: int)
    requires t != [] && t[0] != MINUS && ScanDigits(t) == (ds, rest) && ReadFraction(rest) == Some((frac, exp))
    requires ds != [] && (|ds| > 1 ==> ds[0] != 0)
    ensures ReadsAs(t, ds, frac, exp)
  {
  }

  /** Reading digits, a fraction and an optional exponent back. */
  lemma ReadParts(t: Text, whole: seq<Digit>, frac: seq<Digit>, tail: Text, exp: int)
    requires t == Chars(whole) + FractionText(frac) + tail
    requires whole != [] && (|whole| > 1 ==> whole[0] != 0) && ExponentTail(tail, exp)
    ensures ReadsAs(t, whole, frac, exp)
  {
    var rest := FractionText(frac) + tail;
    ReadFractionText(rest, frac, tail, exp);
    ScanDigitsChars(whole, rest);
    CharsTail(whole, rest);
    Assoc(Chars(whole), FractionText(frac), tail);
    ReadNumberStep(t, whole, rest, frac, exp);
  }

  lemma PlainValue(ds: seq<Digit>, n: int)
    requires |ds| <= n
    ensures Magnitude(Repr(ds + Zeros(n - |ds|), [], 0)) == Scaled(ds, n)
  {
    var whole := ds + Zeros(n - |ds|);
    NatConcat(ds, Zeros(n - |ds|));
    NatZeros(n - |ds|);
    assert whole + [] == whole;
    Times10Shift(Nat(ds), n - |ds|, 0);
  }

  lemma SplitValue(ds: seq<Digit>, k: nat, exp: int)
    requires k <= |ds|
    ensures Magnitude(Repr(ds[..k], ds[k..], exp)) == Scaled(ds, exp + k)
  {
    assert ds[..k] + ds[k..] == ds;
  }

  lemma SmallValue(ds: seq<Digit>, n: int)
    requires n <= 0
    ensures Magnitude(Repr([0], Zeros(-n) + ds, 0)) == Scaled(ds, n)
  {
    NatConcat([0], Zeros(-n) + ds);
    NatConcat(Zeros(-n), ds);
    NatZeros(-n);
    assert Nat([0]) == 0;
  }

  /** The whole, fraction and exponent each layout writes. */
  function PartsOf(ds: seq<Digit>, n: int): (seq<Digit>, seq<Digit>, int)
    requires ds != []
  {
    if |ds| <= n <= 21 then (ds + Zeros(n - |ds|), [], 0)
    else if 0 < n <= 21 then (ds[..n], ds[n..], 0)
    else if -6 < n <= 0 then ([0], Zeros(-n) + ds, 0)
    else (ds[..1], ds[1..], n - 1)
  }

  lemma LayoutText(ds: seq<Digit>, n: int)
    requires ds != []
    ensures Layout(ds, n) == Chars(PartsOf(ds, n).0) + FractionText(PartsOf(ds, n).1) +
                             if -6 < n <= 21 then [] else ExponentText(n - 1)
  {
    var (whole, frac, exp) := PartsOf(ds, n);
    NilRight(Chars(whole));
    NilRight(Chars(whole) + FractionText(frac));
    Assoc(Chars(whole), [DOT], Chars(frac));
    if |ds| == 1 {
      assert ds[..1] == ds;
    }
  }

  lemma PartsValue(ds: seq<Digit>, n: int)
    requires ds != []
    ensures Magnitude(Repr(PartsOf(ds, n).0, PartsOf(ds, n).1, PartsOf(ds, n).2)) == Scaled(ds, n)
  {
    if |ds| <= n <= 21 {
      PlainValue(ds, n);
    } else if 0 < n <= 21 {
      SplitValue(ds, n, 0);
    } else if -6 < n <= 0 {
      SmallValue(ds, n);
    } else {
      SplitValue(ds, 1, n - 1);
    }
  }

  lemma LayoutReads(ds: seq<Digit>, n: int)
    requires Normal(ds)
    ensures ReadsAs(Layout(ds, n), PartsOf(ds, n).0, PartsOf(ds, n).1, PartsOf(ds, n).2)
  {
    var (whole, frac, exp) := PartsOf(ds, n);
    LayoutText(ds, n);
    if -6 < n <= 21 {
      ReadParts(Layout(ds, n), whole, frac, [], exp);
    } else {
      ReadExponentText(exp);
      ReadParts(Layout(ds, n), whole, frac, ExponentText(n - 1), exp);
    }
  }

  /** Every layout is a number of the grammar and denotes exactly 0.digits * 10^n. */
  lemma LayoutExact(ds: seq<Digit>, n: int)
    requires Normal(ds)
    ensures ReadNumber(Layout(ds, n)).Some?
    ensures !ReadNumber(Layout(ds, n)).value.negative
    ensures ReadNumber(Layout(ds, n)).value.Denotes() == Scaled(ds, n)
  {
    LayoutReads(ds, n);
    PartsValue(ds, n);
  }

  /** The text of a number is a JSON number that denotes exactly its value, sign included. */
  lemma NumberTextExact(negative: bool, r: Repr)
    ensures ReadNumber(NumberText(negative, r)).Some?
    ensures ReadNumber(NumberText(negative, r)).value.Denotes() == SignedValue(negative, r)
  {
    if Magnitude(r) == 0.0 {
      ReadParts(NumberText(negative, r), [0], [], [], 0);
      assert [0] + [] == [0] && Nat([0]) == 0;
    } else {
      ShortestDigitsExact(r);
      var (ds, n) := ShortestDigits(r);
      LayoutExact(ds, n);
      if negative {
        assert NumberText(negative, r)[1..] == Layout(ds, n);
      } else {
        LayoutStartsWithDigit(ds, n);
        assert NumberText(negative, r) == Layout(ds, n);
      }
    }
  }

  lemma LayoutStartsWithDigit(ds: seq<Digit>, n: int)
    requires ds != []
    ensures Layout(ds, n) != [] && IsDigit(Layout(ds, n)[0])
  {
  }

  lemma ValueNonNegative(r: Repr)
    ensures Magnitude(r) >= 0.0
  {
    Times10Sign(Nat(r.whole + r.frac) as real, r.exp - |r.frac|);
  }

  /** Two numbers have the same text exactly when they are the same number. */
  lemma NumberTextIffValue(x: bool, a: Repr, y: bool, b: Repr)
    ensures NumberText(x, a) == NumberText(y, b) <==> SignedValue(x, a) == SignedValue(y, b)
  {
    NumberTextExact(x, a);
    NumberTextExact(y, b);
    if SignedValue(x, a) == SignedValue(y, b) && Magnitude(a) != 0.0 {
      ValueNonNegative(a);
      ValueNonNegative(b);
      ShortestDigitsExact(a);
      ShortestDigitsExact(b);
      ScaledInjective(ShortestDigits(a).0, ShortestDigits(a).1, ShortestDigits(b).0, ShortestDigits(b).1);
    }
  }

  // ------------------------------------------------- what ECMAScript chooses

  lemma {:induction false} Times10Increasing(x: real, y: real, e: int)
    requires x < y
    ensures Times10(x, e) < Times10(y, e)
    decreases if e < 0 then -e else e
  {
    if e > 0 {
      Times10Increasing(10.0 * x, 10.0 * y, e - 1);
    } else if e < 0 {
      Times10Increasing(x / 10.0, y / 10.0, e + 1);
    }
  }

  lemma {:induction false} NatBounds(ds: seq<Digit>)
    requires ds != [] && ds[0] != 0
    ensures P10(|ds| - 1) <= Nat(ds) < P10(|ds|)
  {
    if |ds| > 1 {
      NatBounds(ds[..|ds| - 1]);
    } else {
      assert ds[..0] == [] && P10(1) == 10;
    }
  }

  /** 0.digits * 10^n lies in [10^(n-1), 10^n). */
  lemma ScaledBounds(ds: seq<Digit>, n: int)
    requires Normal(ds)
    ensures Times10(1.0, n - 1) <= Scaled(ds, n) < Times10(1.0, n)
  {
    var k, e := |ds|, n - |ds|;
    NatBounds(ds);
    Times10Shift(1, k - 1, e);
    Times10Shift(1, k, e);
    Times10Increasing(Nat(ds) as real, P10(k) as real, e);
    if P10(k - 1) < Nat(ds) {
      Times10Increasing(P10(k - 1) as real, Nat(ds) as real, e);
    }
  }

  lemma {:induction false} Times10Monotone(m: int, n: int)
    requires m <= n
    ensures Times10(1.0, m) <= Times10(1.0, n)
    decreases n - m
  {
    if m < n {
      Times10Monotone(m, n - 1);
      Times10Step(1.0, n - 1);
      Times10Sign(1.0, n - 1);
      Times10Increasing(1.0, 10.0, n - 1);
    }
  }

  lemma {:induction false} NoExponentInDigits(ds: seq<Digit>)
    ensures EXP !in Chars(ds)
  {
    if ds != [] {
      NoExponentInDigits(ds[1..]);
    }
  }

  lemma ExponentInLayout(ds: seq<Digit>, n: int)
    requires ds != []
    ensures EXP in Layout(ds, n) <==> !(-6 < n <= 21)
  {
    var (whole, frac, exp) := PartsOf(ds, n);
    LayoutText(ds, n);
    NoExponentInDigits(whole);
    NoExponentInDigits(frac);
    assert EXP !in FractionText(frac);
    if !(-6 < n <= 21) {
      assert ExponentText(n - 1)[0] == EXP;
    }
  }

  /** Exponent notation exactly for values below 10^-6 and from 10^21 on, as ECMAScript has it. */
  lemma NotationByMagnitude(negative: bool, r: Repr)
    ensures 'e' as int in NumberText(negative, r) <==>
            Magnitude(r) != 0.0 && !(Times10(1.0, -6) <= Magnitude(r) < Times10(1.0, 21))
  {
    NoExponentInDigits([0]);
    if Magnitude(r) != 0.0 {
      ShortestDigitsExact(r);
      var (ds, n) := ShortestDigits(r);
      ExponentInLayout(ds, n);
      ScaledBounds(ds, n);
      if n <= -6 {
        Times10Monotone(n, -6);
      } else {
        Times10Monotone(-6, n - 1);
      }
      if n <= 21 {
        Times10Monotone(n, 21);
      } else {
        Times10Monotone(21, n - 1);
      }
    }
  }

  /** No superfluous digit: no trailing zero behind the point, and one digit before it where there is an exponent. */
  lemma NoSuperfluousDigit(ds: seq<Digit>, n: int, parts: NumberParts)
    requires Normal(ds) && ReadNumber(Layout(ds, n)) == Some(parts)
    ensures parts.frac != [] ==> parts.frac[|parts.frac| - 1] != 0
    ensures 'e' as int in Layout(ds, n) ==> |parts.whole| == 1 && parts.whole[0] != 0
  {
    LayoutReads(ds, n);
    ExponentInLayout(ds, n);
  }

  lemma {:induction false} DecimalStarts(n: nat)
    ensures n > 0 ==> Decimal(n)[0] != 0
  {
    if n >= 10 {
      DecimalStarts(n / 10);
    }
  }

  /** An exponent is signed either way and has no leading zero. */
  lemma ExponentForm(e: int)
    ensures ExponentText(e)[0] == 'e' as int && ExponentText(e)[1] == if e < 0 then '-' as int else '+' as int
    ensures e != 0 ==> ExponentText(e)[2] != '0' as int
  {
    var ds := Decimal(if e >= 0 then e else -e);
    DecimalStarts(if e >= 0 then e else -e);
    assert Chars(ds)[0] == ZERO + ds[0];
  }
}
