/**
 The DER framing of RFC 3161 time-stamping (section 8.1.3 of X.690): elements
 with short and long lengths, non-negative integers, and the status of a response.
 */
module Der {
  import opened Common

  type Tag = Byte

  const SEQUENCE: Tag := 0x30
  const INTEGER: Tag := 0x02

  // ------------------------------------------------------------- big-endian

  /** int.from_bytes(b, "big"). */
  function FromBytes(b: Bytes): nat {
    if b == [] then 0 else 256 * FromBytes(b[..|b| - 1]) + b[|b| - 1]
  }

  function Pow256(width: nat): (p: nat)
    ensures p > 0
  {
    if width == 0 then 1 else 256 * Pow256(width - 1)
  }

  /** n.to_bytes(width, "big"), which raises OverflowError where n does not fit. */
  function ToBytes(n: nat, width: nat): (b: Bytes)
    requires n < Pow256(width)
    ensures |b| == width
    decreases width
  {
    if width == 0 then [] else ToBytes(n / 256, width - 1) + [n % 256]
  }

  lemma {:induction false} ToBytesExact(n: nat, width: nat)
    requires n < Pow256(width)
    ensures FromBytes(ToBytes(n, width)) == n
    decreases width
  {
    if width > 0 {
      ToBytesExact(n / 256, width - 1);
      assert ToBytes(n, width)[..width - 1] == ToBytes(n / 256, width - 1);
    }
  }

  /** Eight bits to the byte. */
  lemma BitsPerByte(n: nat)
    ensures n >= 256 ==> BitLength(n) == 8 + BitLength(n / 256) && BitLength(n / 256) > 0
    ensures n < 256 ==> BitLength(n) <= 8 && (BitLength(n) == 8 <==> n >= 128) && (BitLength(n) == 0 <==> n == 0)
  {
    var (a, b, c, d) := (n / 2, n / 4, n / 8, n / 16);
    assert a / 2 == b && b / 2 == c && c / 2 == d;
    var (e, f, g, h) := (n / 32, n / 64, n / 128, n / 256);
    assert d / 2 == e && e / 2 == f && f / 2 == g && g / 2 == h;
    assert BitLength(d) == if d == 0 then 0 else 1 + BitLength(e);
    assert BitLength(e) == if e == 0 then 0 else 1 + BitLength(f);
    assert BitLength(f) == if f == 0 then 0 else 1 + BitLength(g);
    assert BitLength(g) == if g == 0 then 0 else 1 + BitLength(h);
    assert BitLength(c) == if c == 0 then 0 else 1 + BitLength(d);
    assert BitLength(b) == if b == 0 then 0 else 1 + BitLength(c);
    assert BitLength(a) == if a == 0 then 0 else 1 + BitLength(b);
  }

  /** The width of a length, (n.bit_length() + 7) // 8. */
  function LengthWidth(n: nat): nat {
    (BitLength(n) + 7) / 8
  }

  /** The width of a non-negative integer, max(1, (n.bit_length() + 8) // 8). */
  function IntegerWidth(n: nat): (width: nat)
    ensures width >= 1
  {
    if (BitLength(n) + 8) / 8 > 1 then (BitLength(n) + 8) / 8 else 1
  }

  /** Neither width is ever too small, so to_bytes does not raise. */
  lemma {:induction false} WidthsSuffice(n: nat)
    ensures n < Pow256(LengthWidth(n)) && n < Pow256(IntegerWidth(n))
  {
    BitsPerByte(n);
    if n >= 256 {
      WidthsSuffice(n / 256);
      assert LengthWidth(n) == LengthWidth(n / 256) + 1 && IntegerWidth(n) == IntegerWidth(n / 256) + 1;
    } else {
      assert Pow256(0) == 1 && Pow256(1) == 256 && Pow256(2) == 65536;
      assert LengthWidth(n) == (if n == 0 then 0 else 1) && IntegerWidth(n) == (if n < 128 then 1 else 2);
    }
  }

  // ---------------------------------------------------------------- encoding

  function LengthBytes(n: nat): (raw: Bytes)
    ensures |raw| == LengthWidth(n)
  {
    WidthsSuffice(n);
    ToBytes(n, LengthWidth(n))
  }

  /** The content of _der_integer. */
  function IntegerBytes(n: nat): (raw: Bytes)
    ensures |raw| == IntegerWidth(n)
  {
    WidthsSuffice(n);
    ToBytes(n, IntegerWidth(n))
  }

  /** Lengths below 2^1016, the most one length octet can announce. */
  predicate Framable(n: nat) {
    LengthWidth(n) < 0x80
  }

  function Length(n: nat): Bytes
    requires Framable(n)
  {
    if n < 0x80 then [n] else [0x80 + |LengthBytes(n)|] + LengthBytes(n)
  }

  /** _der. */
  function Encode(tag: Tag, content: Bytes): Bytes
    requires Framable(|content|)
  {
    [tag] + Length(|content|) + content
  }

  /** A non-negative integer in two's complement, with no octet to spare (section 8.3.2 of X.690). */
  ghost predicate Minimal(b: Bytes) {
    b != [] && b[0] < 0x80 && (|b| > 1 ==> b[0] != 0 || b[1] >= 0x80)
  }

  /** Both widths grow by one byte with every factor 256. */
  lemma LastByte(n: nat)
    requires n >= 256
    ensures IntegerBytes(n) == IntegerBytes(n / 256) + [n % 256]
    ensures LengthBytes(n) == LengthBytes(n / 256) + [n % 256]
  {
    BitsPerByte(n);
  }

  lemma SmallBytes(n: nat)
    requires n < 256
    ensures IntegerBytes(n) == if n < 128 then [n] else [0, n]
    ensures LengthBytes(n) == if n == 0 then [] else [n]
  {
    BitsPerByte(n);
    assert Pow256(0) == 1 && Pow256(1) == 256 && Pow256(2) == 65536;
    assert ToBytes(0, 0) == [] && ToBytes(n, 1) == [n] && ToBytes(0, 1) == [0] && ToBytes(n, 2) == [0, n];
  }

  /** The byte count taken from bit_length gives the minimal non-negative encoding of the value. */
  lemma {:induction false} IntegerIsMinimal(n: nat)
    ensures FromBytes(IntegerBytes(n)) == n
    ensures Minimal(IntegerBytes(n))
  {
    WidthsSuffice(n);
    ToBytesExact(n, IntegerWidth(n));
    if n >= 256 {
      IntegerIsMinimal(n / 256);
      LastByte(n);
      if n < 65536 {
        SmallBytes(n / 256);
      }
    } else {
      SmallBytes(n);
    }
  }

  /** The byte count of a length gives its shortest big-endian form (section 10.1 of X.690). */
  lemma {:induction false} LengthIsShortest(n: nat)
    ensures FromBytes(LengthBytes(n)) == n
    ensures n > 0 ==> LengthBytes(n) != [] && LengthBytes(n)[0] != 0
  {
    WidthsSuffice(n);
    ToBytesExact(n, LengthWidth(n));
    if n >= 256 {
      LengthIsShortest(n / 256);
      LastByte(n);
    } else {
      SmallBytes(n);
    }
  }

  // ---------------------------------------------------------------- decoding

  /** A Python slice: bounds beyond the data are cut off, not an error. */
  function Slice(data: Bytes, lo: nat, hi: nat): Bytes {
    var h := if hi <= |data| then hi else |data|;
    if lo <= h then data[lo..h] else []
  }

  datatype ReadError = IndexError

  datatype Element = Element(tag: Tag, start: nat, end: nat)

  /** _read: tag and content bounds of the element at offset. */
  function Read(data: Bytes, offset: nat): Result<Element, ReadError> {
    if offset + 1 >= |data| then Err(IndexError)
    else
      var first := data[offset + 1];
      if first < 0x80 then Ok(Element(data[offset], offset + 2, offset + 2 + first))
      else
        var size := first - 0x80;
        var start := offset + 2 + size;
        Ok(Element(data[offset], start, start + FromBytes(Slice(data, offset + 2, start))))
  }

  // -------------------------------------------------------------- round trips

  /** The bytes b stand in data from offset on. */
  ghost predicate At(data: Bytes, offset: nat, b: Bytes) {
    offset + |b| <= |data| && data[offset..offset + |b|] == b
  }

  lemma AtSplit(data: Bytes, offset: nat, a: Bytes, b: Bytes)
    requires At(data, offset, a + b)
    ensures At(data, offset, a) && At(data, offset + |a|, b)
  {
    var whole := data[offset..offset + |a| + |b|];
    assert data[offset..offset + |a|] == whole[..|a|] && whole[..|a|] == a;
    assert data[offset + |a|..offset + |a| + |b|] == whole[|a|..] && whole[|a|..] == b;
  }

  lemma AtIndex(data: Bytes, offset: nat, b: Bytes, i: nat)
    requires At(data, offset, b) && i < |b|
    ensures data[offset + i] == b[i]
  {
    assert data[offset..offset + |b|][i] == data[offset + i];
  }

  lemma ReadShort(data: Bytes, offset: nat, tag: Tag, n: nat)
    requires n < 0x80 && At(data, offset, [tag] + [n])
    ensures Read(data, offset) == Ok(Element(tag, offset + 2, offset + 2 + n))
  {
    AtIndex(data, offset, [tag] + [n], 0);
    AtIndex(data, offset, [tag] + [n], 1);
  }

  lemma ReadLong(data: Bytes, offset: nat, tag: Tag, raw: Bytes)
    requires |raw| < 0x80 && At(data, offset, [tag, 0x80 + |raw|] + raw)
    ensures Read(data, offset) == Ok(Element(tag, offset + 2 + |raw|, offset + 2 + |raw| + FromBytes(raw)))
  {
    var start := [tag, 0x80 + |raw|];
    AtIndex(data, offset, start + raw, 0);
    AtIndex(data, offset, start + raw, 1);
    AtSplit(data, offset, start, raw);
    SliceAt(data, offset + 2, raw);
    assert data[offset] == tag && data[offset + 1] == 0x80 + |raw|;
    LongFrom(data, offset, raw);
  }

  lemma LongFrom(data: Bytes, offset: nat, raw: Bytes)
    requires offset + 1 < |data| && data[offset + 1] == 0x80 + |raw|
    requires Slice(data, offset + 2, offset + 2 + |raw|) == raw
    ensures Read(data, offset) ==
            Ok(Element(data[offset], offset + 2 + |raw|, offset + 2 + |raw| + FromBytes(raw)))
  {
  }

  /** What precedes the content. */
  function Header(tag: Tag, n: nat): (h: Bytes)
    requires Framable(n)
    ensures |h| >= 2
  {
    [tag] + Length(n)
  }

  lemma LongHeader(tag: Tag, raw: Bytes)
    requires |raw| < 0x80
    ensures [tag] + ([0x80 + |raw|] + raw) == [tag, 0x80 + |raw|] + raw
  {
  }

  lemma LongHeaderReads(data: Bytes, offset: nat, tag: Tag, n: nat, raw: Bytes)
    requires |raw| < 0x80 && FromBytes(raw) == n && At(data, offset, [tag] + ([0x80 + |raw|] + raw))
    ensures Read(data, offset) == Ok(Element(tag, offset + 2 + |raw|, offset + 2 + |raw| + n))
  {
    LongHeader(tag, raw);
    ReadLong(data, offset, tag, raw);
  }

  lemma HeaderForm(tag: Tag, n: nat, header: Bytes, raw: Bytes)
    requires Framable(n) && header == Header(tag, n) && raw == LengthBytes(n)
    ensures n < 0x80 ==> header == [tag] + [n] && |header| == 2
    ensures n >= 0x80 ==> header == [tag] + ([0x80 + |raw|] + raw) && |header| == 2 + |raw|
    ensures |raw| < 0x80 && FromBytes(raw) == n
  {
    LengthIsShortest(n);
  }

  lemma FormReads(data: Bytes, offset: nat, tag: Tag, n: nat, header: Bytes, raw: Bytes)
    requires At(data, offset, header) && |raw| < 0x80 && FromBytes(raw) == n
    requires n < 0x80 ==> header == [tag] + [n] && |header| == 2
    requires n >= 0x80 ==> header == [tag] + ([0x80 + |raw|] + raw) && |header| == 2 + |raw|
    ensures Read(data, offset) == Ok(Element(tag, offset + |header|, offset + |header| + n))
  {
    if n < 0x80 {
      ReadShort(data, offset, tag, n);
    } else {
      LongHeaderReads(data, offset, tag, n, raw);
    }
  }

  lemma HeaderReads(data: Bytes, offset: nat, tag: Tag, n: nat, header: Bytes)
    requires Framable(n) && header == Header(tag, n) && At(data, offset, header)
    ensures Read(data, offset) == Ok(Element(tag, offset + |header|, offset + |header| + n))
  {
    var raw := LengthBytes(n);
    HeaderForm(tag, n, header, raw);
    FormReads(data, offset, tag, n, header, raw);
  }

  /** Any element, short or long, is read back wherever it stands. */
  lemma ReadsBack(data: Bytes, offset: nat, tag: Tag, content: Bytes)
    requires Framable(|content|) && At(data, offset, Encode(tag, content))
    ensures var start := offset + |Header(tag, |content|)|;
            && Read(data, offset) == Ok(Element(tag, start, start + |content|))
            && start + |content| == offset + |Encode(tag, content)|
            && At(data, start, content)
  {
    AtSplit(data, offset, Header(tag, |content|), content);
    HeaderReads(data, offset, tag, |content|, Header(tag, |content|));
  }

  /** The first element of a run of bytes, however it was encoded. */
  lemma ReadFirst(data: Bytes, offset: nat, tag: Tag, content: Bytes, encoded: Bytes, rest: Bytes) returns (e: Element)
    requires Framable(|content|) && encoded == Encode(tag, content) && At(data, offset, encoded + rest)
    ensures Read(data, offset) == Ok(e) && e.tag == tag && At(data, e.start, content)
    ensures e.end == e.start + |content| && e.end == offset + |encoded|
  {
    AtSplit(data, offset, encoded, rest);
    ReadsBack(data, offset, tag, content);
    e := Read(data, offset).value;
  }

  // ------------------------------------------------------- several elements

  datatype Item = Item(tag: Tag, content: Bytes)

  /** An encoder, and a reader of one item that says where it ends. */
  type Encoder = Item -> Bytes
  type ItemReader = (Bytes, nat) -> Option<(Item, nat)>

  function EncodeAll(encode: Encoder, items: seq<Item>): Bytes {
    if items == [] then [] else encode(items[0]) + EncodeAll(encode, items[1..])
  }

  /** Reading items one after another until the data ends. */
  function ReadAll(read: ItemReader, data: Bytes, offset: nat): Option<seq<Item>>
    decreases |data| - offset
  {
    if offset == |data| then Some([])
    else
      var one := read(data, offset);
      if one.None? || !(offset < one.value.1 <= |data|) then None
      else
        var rest := ReadAll(read, data, one.value.1);
        if rest.None? then None else Some([one.value.0] + rest.value)
  }

  /** The reader finds an encoded item, and its end, between pre and post. */
  ghost predicate FoundBetween(encode: Encoder, read: ItemReader, item: Item, pre: Bytes, post: Bytes) {
    encode(item) != [] && read(pre + (encode(item) + post), |pre|) == Some((item, |pre| + |encode(item)|))
  }

  ghost predicate SelfDelimiting(encode: Encoder, read: ItemReader, item: Item) {
    forall pre: Bytes, post: Bytes :: FoundBetween(encode, read, item, pre, post)
  }

  lemma ParseOneMore(encode: Encoder, read: ItemReader, pre: Bytes, item: Item, encoded: Bytes, tail: Bytes,
                     rest: seq<Item>)
    requires encoded == encode(item) && FoundBetween(encode, read, item, pre, tail)
    requires ReadAll(read, (pre + encoded) + tail, |pre + encoded|) == Some(rest)
    ensures ReadAll(read, pre + (encoded + tail), |pre|) == Some([item] + rest)
  {
    Assoc(pre, encoded, tail);
  }

  /** Concatenations of self-delimiting items parse back, in order. */
  lemma {:induction false} ConcatenationParses(encode: Encoder, read: ItemReader, pre: Bytes, items: seq<Item>)
    requires forall i | 0 <= i < |items| :: SelfDelimiting(encode, read, items[i])
    ensures ReadAll(read, pre + EncodeAll(encode, items), |pre|) == Some(items)
    decreases |items|
  {
    if items == [] {
      NilRight(pre);
    } else {
      var item, rest := items[0], items[1..];
      var encoded, tail := encode(item), EncodeAll(encode, rest);
      assert SelfDelimiting(encode, read, item);
      assert FoundBetween(encode, read, item, pre, tail);
      ConcatenationParses(encode, read, pre + encoded, rest);
      ParseOneMore(encode, read, pre, item, encoded, tail, rest);
      assert items == [item] + rest;
    }
  }

  function EncodeItem(item: Item): Bytes {
    if Framable(|item.content|) then Encode(item.tag, item.content) else []
  }

  function ReadItem(data: Bytes, offset: nat): Option<(Item, nat)> {
    var e := Read(data, offset);
    if e.Err? || !(e.value.start <= e.value.end <= |data|) then None
    else Some((Item(e.value.tag, data[e.value.start..e.value.end]), e.value.end))
  }

  lemma ItemFrom(data: Bytes, offset: nat, item: Item, e: Element)
    requires Read(data, offset) == Ok(e) && e.tag == item.tag && At(data, e.start, item.content)
    requires e.end == e.start + |item.content|
    ensures ReadItem(data, offset) == Some((item, e.end))
  {
  }

  lemma AtEnd(pre: Bytes, b: Bytes)
    ensures At(pre + b, |pre|, b)
  {
  }

  lemma ElementFound(item: Item, encoded: Bytes, pre: Bytes, post: Bytes)
    requires Framable(|item.content|) && encoded == Encode(item.tag, item.content)
    ensures ReadItem(pre + (encoded + post), |pre|) == Some((item, |pre| + |encoded|))
  {
    var data := pre + (encoded + post);
    AtEnd(pre, encoded + post);
    var e := ReadFirst(data, |pre|, item.tag, item.content, encoded, post);
    ItemFrom(data, |pre|, item, e);
  }

  lemma ElementsSelfDelimiting(item: Item)
    requires Framable(|item.content|)
    ensures SelfDelimiting(EncodeItem, ReadItem, item)
  {
    forall pre: Bytes, post: Bytes ensures FoundBetween(EncodeItem, ReadItem, item, pre, post) {
      ElementFound(item, EncodeItem(item), pre, post);
    }
  }

  /** Concatenated DER elements parse back, in order, at any offset. */
  lemma ElementsParse(pre: Bytes, items: seq<Item>)
    requires forall i | 0 <= i < |items| :: Framable(|items[i].content|)
    ensures ReadAll(ReadItem, pre + EncodeAll(EncodeItem, items), |pre|) == Some(items)
  {
    forall i | 0 <= i < |items| ensures SelfDelimiting(EncodeItem, ReadItem, items[i]) {
      ElementsSelfDelimiting(items[i]);
    }
    ConcatenationParses(EncodeItem, ReadItem, pre, items);
  }

  // -------------------------------------------------------- response status

  datatype StatusError = NotASequence | InfoNotASequence | StatusNotAnInteger | Truncated

  /** response_status: the PKIStatus and whether a token follows the status info. */
  function ResponseStatus(response: Bytes): Result<(nat, bool), StatusError> {
    var outer := Read(response, 0);
    if outer.Err? then Err(Truncated)
    else if outer.value.tag != SEQUENCE || outer.value.end > |response| then Err(NotASequence)
    else
      var info := Read(response, outer.value.start);
      if info.Err? then Err(Truncated)
      else if info.value.tag != SEQUENCE then Err(InfoNotASequence)
      else
        var status := Read(response, info.value.start);
        if status.Err? then Err(Truncated)
        else if status.value.tag != INTEGER then Err(StatusNotAnInteger)
        else Ok((FromBytes(Slice(response, status.value.start, status.value.end)), info.value.end < outer.value.end))
  }

  /** Where the three nested elements of a response lead. */
  lemma StatusFrom(response: Bytes, outer: Element, info: Element, status: Element)
    requires Read(response, 0) == Ok(outer) && outer.tag == SEQUENCE && outer.end <= |response|
    requires Read(response, outer.start) == Ok(info) && info.tag == SEQUENCE
    requires Read(response, info.start) == Ok(status) && status.tag == INTEGER
    ensures ResponseStatus(response) ==
            Ok((FromBytes(Slice(response, status.start, status.end)), info.end < outer.end))
  {
  }

  lemma SliceAt(data: Bytes, offset: nat, b: Bytes)
    requires At(data, offset, b)
    ensures Slice(data, offset, offset + |b|) == b
  {
  }

  /** A status with whatever else the info holds, and a token or none, is read as built (section 2.4.2 of RFC 3161). */
  lemma StatusReadsBack(status: nat, more: Bytes, token: Bytes)
    requires Framable(|IntegerBytes(status)|)
    requires Framable(|Encode(INTEGER, IntegerBytes(status)) + more|)
    requires Framable(|Encode(SEQUENCE, Encode(INTEGER, IntegerBytes(status)) + more) + token|)
    ensures var info := Encode(SEQUENCE, Encode(INTEGER, IntegerBytes(status)) + more);
            ResponseStatus(Encode(SEQUENCE, info + token)) == Ok((status, token != []))
  {
    IntegerIsMinimal(status);
    NestedReads(IntegerBytes(status), more, token);
  }

  lemma StatusOfParts(response: Bytes, outer: Element, info: Element, status: Element, value: Bytes, token: Bytes)
    requires Read(response, 0) == Ok(outer) && outer.tag == SEQUENCE && outer.end <= |response|
    requires Read(response, outer.start) == Ok(info) && info.tag == SEQUENCE
    requires Read(response, info.start) == Ok(status) && status.tag == INTEGER
    requires At(response, status.start, value) && status.end == status.start + |value|
    requires outer.end == info.end + |token|
    ensures ResponseStatus(response) == Ok((FromBytes(value), token != []))
  {
    StatusFrom(response, outer, info, status);
    SliceAt(response, status.start, value);
  }

  lemma WholeAt(data: Bytes)
    ensures At(data, 0, data + [])
  {
    NilRight(data);
  }

  lemma NestedReads(value: Bytes, more: Bytes, token: Bytes)
    requires Framable(|value|) && Framable(|Encode(INTEGER, value) + more|)
    requires Framable(|Encode(SEQUENCE, Encode(INTEGER, value) + more) + token|)
    ensures ResponseStatus(Encode(SEQUENCE, Encode(SEQUENCE, Encode(INTEGER, value) + more) + token)) ==
            Ok((FromBytes(value), token != []))
  {
    var integer := Encode(INTEGER, value);
    var info := Encode(SEQUENCE, integer + more);
    var response := Encode(SEQUENCE, info + token);
    WholeAt(response);
    var outer := ReadFirst(response, 0, SEQUENCE, info + token, response, []);
    var e := ReadFirst(response, outer.start, SEQUENCE, integer + more, info, token);
    var status := ReadFirst(response, e.start, INTEGER, value, integer, more);
    StatusOfParts(response, outer, e, status, value, token);
  }

  /** A short response, byte by byte: tag 48 for both sequences, tag 2 for the status, and a token or none. */
  lemma ShortResponse(status: Byte, token: Bytes)
    requires status < 0x80 && |token| < 0x70
    ensures ResponseStatus([48, 5 + |token|, 48, 3, 2, 1, status] + token) == Ok((status, token != []))
  {
    var head: Bytes := [48, 5 + |token|, 48, 3, 2, 1, status];
    var response := head + token;
    assert forall i | 0 <= i < 7 :: response[i] == head[i];
    var value := Slice(response, 6, 7);
    assert value == [status];
    assert value[..0] == [] && FromBytes([]) == 0;
    assert FromBytes(value) == status;
    StatusFrom(response, Element(SEQUENCE, 2, 7 + |token|), Element(SEQUENCE, 4, 7), Element(INTEGER, 6, 7));
  }

  /** An element of another tag in one of the three places is refused, each with its own error. */
  lemma WrongTagsRefused(tag: Tag, content: Bytes, more: Bytes)
    requires Framable(|content|) && Framable(|Encode(tag, content) + more|)
    requires Framable(|Encode(SEQUENCE, Encode(tag, content) + more)|)
    ensures tag != 0x30 ==> ResponseStatus(Encode(tag, content)) == Err(NotASequence)
    ensures tag != 0x30 ==> ResponseStatus(Encode(SEQUENCE, Encode(tag, content) + more)) == Err(InfoNotASequence)
    ensures tag != 0x02 ==>
              ResponseStatus(Encode(SEQUENCE, Encode(SEQUENCE, Encode(tag, content) + more))) == Err(StatusNotAnInteger)
  {
    var inner := Encode(tag, content);
    var middle := Encode(SEQUENCE, inner + more);
    var response := Encode(SEQUENCE, middle);
    WholeAt(inner);
    var first := ReadFirst(inner, 0, tag, content, inner, []);
    WholeAt(middle);
    var second := ReadFirst(middle, 0, SEQUENCE, inner + more, middle, []);
    var within := ReadFirst(middle, second.start, tag, content, inner, more);
    WholeAt(response);
    var outer := ReadFirst(response, 0, SEQUENCE, middle, response, []);
    NilRight(middle);
    var info := ReadFirst(response, outer.start, SEQUENCE, inner + more, middle, []);
    var status := ReadFirst(response, info.start, tag, content, inner, more);
  }

  /** A response that stops before a length octet is truncated, and one cut short inside is no sequence. */
  lemma CutShort(response: Bytes)
    ensures |response| < 2 ==> ResponseStatus(response) == Err(Truncated)
    ensures |response| >= 2 && Read(response, 0).value.end > |response| ==>
              ResponseStatus(response) == Err(NotASequence)
  {
  }
}
