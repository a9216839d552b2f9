/** The slice decoder of rlp/raw.go.  `Parse` is the recursion over `Split` that reads one
    item and the items of a list; it is shown to be exactly the inverse of `Rlp.Encode`. */
module RlpRaw {
  import opened Wrappers
  import opened Rlp

  datatype Kind = KByte | KString | KList

  datatype Error = UnexpectedEof | CanonSize | ValueTooLarge | ExpectedString | ExpectedList

  /** What `ReadKind` reports about the first value of a buffer. */
  datatype Head = Head(kind: Kind, tagSize: nat, totalSize: nat)

  /** `readSize`: a big-endian size of `slen` bytes; sizes below 56 and leading zeros are refused. */
  function ReadSize(b: Bytes, slen: nat): (r: Result<nat, Error>)
    requires 1 <= slen <= 8
  {
    if slen > |b| then Err(UnexpectedEof)
    else
      var s := FromBigEndian(b[..slen]);
      if s < 56 || b[0] == 0 then Err(CanonSize) else Ok(s)
  }

  /** `ReadKind`.  Buffers are Go slices, so the 64-bit sums and differences in the source do
      not wrap: the tag has been read when `buflen - tagsize` is computed. */
  function ReadKind(buf: Bytes): (r: Result<Head, Error>)
    ensures r.Ok? ==> r.value.tagSize <= r.value.totalSize <= |buf| && r.value.totalSize > 0
    ensures r.Ok? && r.value.kind != KByte ==> r.value.tagSize > 0
  {
    if |buf| == 0 then Err(UnexpectedEof)
    else
      var b := buf[0];
      if b < 0x80 then Finish(KByte, 0, 1, |buf|)
      else if b < 0xB8 then
        if b - 0x80 == 1 && |buf| > 1 && buf[1] < 128 then Err(CanonSize)
        else Finish(KString, 1, b - 0x80, |buf|)
      else if b < 0xC0 then
        match ReadSize(buf[1..], b - 0xB7)
        case Err(e) => Err(e)
        case Ok(s) => Finish(KString, b - 0xB7 + 1, s, |buf|)
      else if b < 0xF8 then Finish(KList, 1, b - 0xC0, |buf|)
      else
        match ReadSize(buf[1..], b - 0xF7)
        case Err(e) => Err(e)
        case Ok(s) => Finish(KList, b - 0xF7 + 1, s, |buf|)
  }

  /** The common end of `ReadKind`: values larger than the input are refused. */
  function Finish(kind: Kind, tagSize: nat, contentSize: nat, buflen: nat): (r: Result<Head, Error>)
    requires tagSize <= buflen
  {
    if contentSize > buflen - tagSize then Err(ValueTooLarge)
    else Ok(Head(kind, tagSize, tagSize + contentSize))
  }

  /** `SplitString`. */
  function SplitString(b: Bytes): (r: Result<(Bytes, Bytes), Error>)
    ensures r.Ok? ==> |r.value.1| < |b|
  {
    match ReadKind(b)
    case Err(e) => Err(e)
    case Ok(h) =>
      if h.kind == KList then Err(ExpectedString)
      else Ok((b[h.tagSize..h.totalSize], b[h.totalSize..]))
  }

  /** `CountValues` as a recursion over the shrinking slice. */
  function ValuesIn(b: Bytes): (r: Result<nat, Error>)
    decreases |b|
  {
    if |b| == 0 then Ok(0)
    else
      match ReadKind(b)
      case Err(e) => Err(e)
      case Ok(h) =>
        match ValuesIn(b[h.totalSize..])
        case Err(e) => Err(e)
        case Ok(n) => Ok(n + 1)
  }

  /** `CountValues`. */
  method CountValues(input: Bytes) returns (r: Result<nat, Error>)
    ensures r == ValuesIn(input)
  {
    var b, i := input, 0;
    while |b| > 0
      invariant ValuesIn(input) ==
                match ValuesIn(b) case Ok(n) => Ok(i + n) case Err(e) => Err(e)
      decreases |b|
    {
      match ReadKind(b)
      case Err(e) => return Err(e);
      case Ok(h) => b := b[h.totalSize..];
      i := i + 1;
    }
    return Ok(i);
  }

  // ---------------------------------------------------------------------------------
  // Recursive decoding by Split
  // ---------------------------------------------------------------------------------

  /** The first item of a buffer and the bytes after it. */
  function Parse(b: Bytes): (r: Option<(Item, Bytes)>)
    ensures r.Some? ==> |r.value.1| < |b|
    decreases |b|, 0
  {
    match ReadKind(b)
    case Err(_) => None
    case Ok(h) =>
      var content, rest := b[h.tagSize..h.totalSize], b[h.totalSize..];
      if h.kind == KList then
        match ParseAll(content)
        case None => None
        case Some(items) => Some((List(items), rest))
      else Some((Str(content), rest))
  }

  /** The items that fill a list payload. */
  function ParseAll(b: Bytes): (r: Option<seq<Item>>)
    decreases |b|, 1
  {
    if b == [] then Some([])
    else
      match Parse(b)
      case None => None
      case Some((item, rest)) =>
        match ParseAll(rest)
        case None => None
        case Some(items) => Some([item] + items)
  }

  // ---------------------------------------------------------------------------------
  // Sizes
  // ---------------------------------------------------------------------------------

  lemma {:induction false} BigEndianValue(n: nat)
    ensures FromBigEndian(BigEndian(n)) == n
    ensures n > 0 ==> |BigEndian(n)| > 0 && BigEndian(n)[0] != 0
  {
    if n > 0 {
      BigEndianValue(n / 256);
      var s := BigEndian(n);
      assert s[..|s| - 1] == BigEndian(n / 256);
    }
  }

  /** Digits without a leading zero are the shortest digits of their number. */
  lemma {:induction false} BigEndianCanonical(s: Bytes)
    requires s == [] || s[0] != 0
    ensures BigEndian(FromBigEndian(s)) == s
    ensures s != [] ==> FromBigEndian(s) > 0
    decreases |s|
  {
    if s != [] {
      var front := s[..|s| - 1];
      BigEndianCanonical(front);
      var n := FromBigEndian(s);
      assert n / 256 == FromBigEndian(front) && n % 256 == s[|s| - 1];
      if front == [] { assert s[|s| - 1] == s[0]; }
      assert s == front + [s[|s| - 1]];
    }
  }

  lemma {:induction false} EightDigits(s: Bytes)
    requires |s| <= 8
    ensures FromBigEndian(s) < TWO_TO_THE_64
  {
    SomeDigits(s);
    assert Power256(8) == TWO_TO_THE_64 by {
      assert Power256(3) == 0x100_0000;
      assert Power256(6) == 0x1_0000_0000_0000;
    }
    PowerGrows(|s|, 8);
  }

  function Power256(k: nat): (p: nat)
    ensures p > 0
  {
    if k == 0 then 1 else 256 * Power256(k - 1)
  }

  lemma {:induction false} PowerGrows(j: nat, k: nat)
    requires j <= k
    ensures Power256(j) <= Power256(k)
    decreases k - j
  {
    if j < k { PowerGrows(j + 1, k); }
  }

  lemma {:induction false} SomeDigits(s: Bytes)
    ensures FromBigEndian(s) < Power256(|s|)
    decreases |s|
  {
    if s != [] { SomeDigits(s[..|s| - 1]); }
  }

  // ---------------------------------------------------------------------------------
  // ReadKind against the reference encoding
  // ---------------------------------------------------------------------------------

  /** A long header is read back. */
  lemma ReadLongSize(n: nat, tag: Byte, tail: Bytes)
    requires 56 <= n < TWO_TO_THE_64
    ensures var d := BigEndian(n);
            var buf := [tag] + d + tail;
            1 <= |d| <= 8 && buf[0] == tag && ReadSize(buf[1..], |d|) == Ok(n)
  {
    PutIntBytes(n, 0);
    BigEndianValue(n);
    var d := BigEndian(n);
    var buf := [tag] + d + tail;
    assert buf[1..] == d + tail;
    assert (d + tail)[..|d|] == d;
  }

  /** The two shapes of a header within the size limit. */
  lemma HeaderShape(small: Byte, large: Byte, n: nat)
    requires n < TWO_TO_THE_64 && small + 55 < 256 && large + 8 < 256
    ensures n < 56 ==> Header(small, large, n) == [small + n]
    ensures n >= 56 ==> 1 <= |BigEndian(n)| <= 8 && Header(small, large, n) == [large + |BigEndian(n)|] + BigEndian(n)
  {
    if n >= 56 { PutIntBytes(n, 0); }
  }

  /** The payload of an encoded value is what `ReadKind` finds behind its tag. */
  lemma ReadLongHeader(isList: bool, payload: Bytes, rest: Bytes)
    requires 56 <= |payload| < TWO_TO_THE_64
    ensures var h := if isList then Header(0xC0, 0xF7, |payload|) else Header(0x80, 0xB7, |payload|);
            ReadKind(h + payload + rest) ==
            Ok(Head(if isList then KList else KString, |h|, |h| + |payload|))
  {
    var n := |payload|;
    var d := BigEndian(n);
    HeaderShape(if isList then 0xC0 else 0x80, if isList then 0xF7 else 0xB7, n);
    var tag := (if isList then 0xF7 else 0xB7) + |d|;
    ReadLongSize(n, tag, payload + rest);
    assert [tag] + d + payload + rest == [tag] + d + (payload + rest);
  }

  lemma ReadShortHeader(isList: bool, payload: Bytes, rest: Bytes)
    requires |payload| < 56
    requires !isList && |payload| == 1 ==> payload[0] >= 0x80
    ensures var h := if isList then Header(0xC0, 0xF7, |payload|) else Header(0x80, 0xB7, |payload|);
            ReadKind(h + payload + rest) ==
            Ok(Head(if isList then KList else KString, |h|, |h| + |payload|))
  {
    var buf := [(if isList then 0xC0 else 0x80) + |payload|] + payload + rest;
    if |payload| > 0 {
      assert buf[1] == payload[0];
    }
  }

  lemma ReadHeader(isList: bool, payload: Bytes, rest: Bytes)
    requires |payload| < TWO_TO_THE_64
    requires !isList && |payload| == 1 ==> payload[0] >= 0x80
    ensures var h := if isList then Header(0xC0, 0xF7, |payload|) else Header(0x80, 0xB7, |payload|);
            ReadKind(h + payload + rest) ==
            Ok(Head(if isList then KList else KString, |h|, |h| + |payload|))
  {
    if |payload| < 56 {
      ReadShortHeader(isList, payload, rest);
    } else {
      ReadLongHeader(isList, payload, rest);
    }
  }

  lemma ReadString(b: Bytes, rest: Bytes)
    requires |b| < TWO_TO_THE_64
    ensures var e := EncodeString(b);
            ReadKind(e + rest).Ok? &&
            var h := ReadKind(e + rest).value;
            h.kind != KList && h.totalSize == |e| && e[h.tagSize..] == b
  {
    var e := EncodeString(b);
    if !(|b| == 1 && b[0] < 0x80) {
      ReadHeader(false, b, rest);
      assert e + rest == Header(0x80, 0xB7, |b|) + b + rest;
    }
  }

  lemma ReadList(payload: Bytes, rest: Bytes)
    requires |payload| < TWO_TO_THE_64
    ensures var e := EncodeListOf(payload);
            ReadKind(e + rest).Ok? &&
            var h := ReadKind(e + rest).value;
            h.kind == KList && h.totalSize == |e| && e[h.tagSize..] == payload
  {
    ReadHeader(true, payload, rest);
    assert EncodeListOf(payload) + rest == Header(0xC0, 0xF7, |payload|) + payload + rest;
  }

  /** An accepted size field is the shortest one. */
  lemma ReadSizeCanonical(b: Bytes, slen: nat)
    requires 1 <= slen <= 8 && ReadSize(b, slen).Ok?
    ensures slen <= |b|
    ensures 56 <= ReadSize(b, slen).value < TWO_TO_THE_64
    ensures BigEndian(ReadSize(b, slen).value) == b[..slen]
  {
    EightDigits(b[..slen]);
    BigEndianCanonical(b[..slen]);
  }

  /** The tag of an accepted value, taken alone, is the reference header. */
  lemma LongTagCanonical(b: Bytes, base: Byte)
    requires |b| > 0 && base + 1 <= b[0] <= base + 8
    requires ReadSize(b[1..], b[0] - base).Ok?
    ensures var n := ReadSize(b[1..], b[0] - base).value;
            56 <= n < TWO_TO_THE_64 && |b| >= b[0] - base + 1 &&
            b[..b[0] - base + 1] == [base + |BigEndian(n)|] + BigEndian(n)
  {
    ReadSizeCanonical(b[1..], b[0] - base);
    assert b[..b[0] - base + 1] == [b[0]] + b[1..][..b[0] - base];
  }

  lemma TagCanonical(b: Bytes)
    requires ReadKind(b).Ok? && b[0] >= 0x80
    ensures var h := ReadKind(b).value;
            var n := h.totalSize - h.tagSize;
            n < TWO_TO_THE_64 &&
            b[..h.tagSize] == if h.kind == KList then Header(0xC0, 0xF7, n) else Header(0x80, 0xB7, n)
  {
    var h := ReadKind(b).value;
    var n := h.totalSize - h.tagSize;
    if 0xB8 <= b[0] < 0xC0 {
      LongTagCanonical(b, 0xB7);
      HeaderShape(0x80, 0xB7, n);
    } else if 0xF8 <= b[0] {
      LongTagCanonical(b, 0xF7);
      HeaderShape(0xC0, 0xF7, n);
    } else {
      assert b[..h.tagSize] == [b[0]];
    }
  }

  /** Every accepted tag is the shortest one: the value read is the reference encoding of its
      content. */
  lemma ReadKindCanonical(b: Bytes)
    requires ReadKind(b).Ok?
    ensures var h := ReadKind(b).value;
            var content := b[h.tagSize..h.totalSize];
            |content| < TWO_TO_THE_64 &&
            b[..h.totalSize] == if h.kind == KList then EncodeListOf(content) else EncodeString(content)
  {
    var h := ReadKind(b).value;
    var content := b[h.tagSize..h.totalSize];
    assert b[..h.totalSize] == b[..h.tagSize] + content;
    if b[0] < 0x80 {
      assert content == [b[0]];
    } else {
      TagCanonical(b);
      if |content| == 1 && h.kind == KString {
        assert content[0] == b[h.tagSize];
      }
    }
  }

  // ---------------------------------------------------------------------------------
  // Parse is the inverse of Encode
  // ---------------------------------------------------------------------------------

  lemma EncodeNonEmpty(item: Item)
    ensures |Encode(item)| > 0
  {
  }

  /** Every item that has an encoding is read back from it, whatever follows. */
  lemma {:induction false} ParseEncoded(item: Item, rest: Bytes)
    requires |Encode(item)| < TWO_TO_THE_64
    ensures Parse(Encode(item) + rest) == Some((item, rest))
    decreases item, 0
  {
    var e := Encode(item);
    match item
    case Str(b) =>
      ReadString(b, rest);
      var h := ReadKind(e + rest).value;
      assert (e + rest)[h.tagSize..h.totalSize] == b;
    case List(items) =>
      ParseAllEncoded(items);
      ReadList(EncodeAll(items), rest);
      var h := ReadKind(e + rest).value;
      assert (e + rest)[h.tagSize..h.totalSize] == EncodeAll(items);
  }

  lemma {:induction false} ParseAllEncoded(items: seq<Item>)
    requires |EncodeAll(items)| < TWO_TO_THE_64
    ensures ParseAll(EncodeAll(items)) == Some(items)
    decreases items, 0
  {
    if items != [] {
      var e := EncodeAll(items);
      EncodeNonEmpty(items[0]);
      assert e == Encode(items[0]) + EncodeAll(items[1..]);
      ParseEncoded(items[0], EncodeAll(items[1..]));
      ParseAllEncoded(items[1..]);
      assert items == [items[0]] + items[1..];
    }
  }

  /** Every accepted buffer starts with the encoding of the item returned. */
  lemma {:induction false} ParseSound(b: Bytes)
    requires Parse(b).Some?
    ensures b == Encode(Parse(b).value.0) + Parse(b).value.1
    ensures |b| < TWO_TO_THE_64 ==> |Encode(Parse(b).value.0)| < TWO_TO_THE_64
    decreases |b|, 0
  {
    ReadKindCanonical(b);
    var h := ReadKind(b).value;
    if h.kind == KList { ParseAllSound(b[h.tagSize..h.totalSize]); }
  }

  lemma {:induction false} ParseAllSound(b: Bytes)
    requires ParseAll(b).Some?
    ensures EncodeAll(ParseAll(b).value) == b
    decreases |b|, 1
  {
    if b != [] {
      ParseSound(b);
      ParseAllSound(Parse(b).value.1);
    }
  }

  /** Decoding is the inverse of encoding: a buffer decodes to an item and a rest exactly when
      it is the encoding of that item followed by that rest. */
  lemma ParseIffEncoded(b: Bytes, item: Item, rest: Bytes)
    requires |b| < TWO_TO_THE_64
    ensures Parse(b) == Some((item, rest)) <==> b == Encode(item) + rest
  {
    if Parse(b) == Some((item, rest)) { ParseSound(b); }
    if b == Encode(item) + rest { ParseEncoded(item, rest); }
  }

  /** Two items with the same encoding are the same item, and no encoding is a proper prefix
      of another. */
  lemma EncodingPrefixFree(x: Item, y: Item, r: Bytes, s: Bytes)
    requires Encode(x) + r == Encode(y) + s
    requires |Encode(x)| < TWO_TO_THE_64 && |Encode(y)| < TWO_TO_THE_64
    ensures x == y && r == s
  {
    ParseEncoded(x, r);
    ParseEncoded(y, s);
  }
}
