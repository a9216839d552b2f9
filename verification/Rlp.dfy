/** Recursive length prefix items: the encoding of Appendix B of the Yellow Paper,
    the emitters of rlp/encode.go and the slice decoder of rlp/raw.go. */
module Rlp {
  import opened Wrappers

  type Byte = b: int | 0 <= b < 256
  type Bytes = seq<Byte>

  const TWO_TO_THE_64 := 0x1_0000_0000_0000_0000

  datatype Item = Str(bytes: Bytes) | List(items: seq<Item>)

  // ---------------------------------------------------------------------------------
  // Reference encoding
  // ---------------------------------------------------------------------------------

  /** Big-endian digits without leading zeros; zero has no digit. */
  function BigEndian(n: nat): (s: Bytes)
  {
    if n == 0 then [] else BigEndian(n / 256) + [n % 256]
  }

  function FromBigEndian(s: Bytes): (n: nat)
  {
    if s == [] then 0 else 256 * FromBigEndian(s[..|s| - 1]) + s[|s| - 1]
  }

  /** The header of a string (0x80, 0xB7) or of a list (0xC0, 0xF7) with the given payload
      size.  A size of 2^64 or more has no encoding; the tag is reduced so that the function
      is total, and every law about it assumes a smaller size. */
  function Header(smallTag: Byte, largeTag: Byte, size: nat): (h: Bytes)
  {
    if size < 56 then [(smallTag + size) % 256]
    else [(largeTag + |BigEndian(size)|) % 256] + BigEndian(size)
  }

  function EncodeString(b: Bytes): (r: Bytes)
  {
    if |b| == 1 && b[0] < 0x80 then b else Header(0x80, 0xB7, |b|) + b
  }

  function EncodeListOf(payload: Bytes): (r: Bytes)
  {
    Header(0xC0, 0xF7, |payload|) + payload
  }

  function Encode(item: Item): (r: Bytes)
    decreases item, 0
  {
    match item
    case Str(b) => EncodeString(b)
    case List(items) => EncodeListOf(EncodeAll(items))
  }

  function EncodeAll(items: seq<Item>): (r: Bytes)
    decreases items, 0
  {
    if items == [] then [] else Encode(items[0]) + EncodeAll(items[1..])
  }

  // ---------------------------------------------------------------------------------
  // Emitters of rlp/encode.go
  // ---------------------------------------------------------------------------------

  /** The low `width` bytes of i, most significant first: `byte(i>>(8*(width-1)))` to `byte(i)`. */
  function LowBytes(i: nat, width: nat): (s: Bytes)
    ensures |s| == width
  {
    if width == 0 then [] else LowBytes(i / 256, width - 1) + [i % 256]
  }

  /** The case split of `putint` on the magnitude of a 64-bit number. */
  function WidthOf(i: nat): (w: nat)
    ensures 1 <= w <= 8
  {
    if i < 0x100 then 1
    else if i < 0x1_0000 then 2
    else if i < 0x100_0000 then 3
    else if i < 0x1_0000_0000 then 4
    else if i < 0x100_0000_0000 then 5
    else if i < 0x1_0000_0000_0000 then 6
    else if i < 0x100_0000_0000_0000 then 7
    else 8
  }

  /** `putint`: the tag and the bytes of a 64-bit number. */
  function PutInt(i: nat, tag: Byte): (r: Bytes)
    requires tag + 8 < 256
  {
    [WidthOf(i) + tag] + LowBytes(i, WidthOf(i))
  }

  /** `puthead`. */
  function PutHead(smallTag: Byte, largeTag: Byte, size: nat): (r: Bytes)
    requires smallTag + 55 < 256 && largeTag + 8 < 256
  {
    if size < 56 then [smallTag + size] else PutInt(size, largeTag)
  }

  /** `ToRLPString` behind the empty-string case of `Encoder.AppendString`. */
  function ToRlpString(s: Bytes): (r: Bytes)
  {
    if |s| == 1 && s[0] <= 0x7F then [s[0]]
    else (if |s| < 56 then [0x80 + |s|] else PutInt(|s|, 0xB7)) + s
  }

  /** `headsize`; `bin.SizeInBytes` splits like `putint`. */
  function HeadSize(size: nat): (n: nat)
  {
    if size < 56 then 1 else 1 + WidthOf(size)
  }

  /** For a non-zero 64-bit number `putint` writes the shortest big-endian form. */
  lemma {:induction false} PutIntBytes(i: nat, tag: Byte)
    requires 0 < i < TWO_TO_THE_64 && tag + 8 < 256
    ensures PutInt(i, tag) == [tag + |BigEndian(i)|] + BigEndian(i)
    ensures 1 <= |BigEndian(i)| <= 8
    decreases i
  {
    if i >= 256 {
      assert WidthOf(i) == WidthOf(i / 256) + 1;
      PutIntBytes(i / 256, tag);
      assert PutInt(i / 256, tag)[1..] == LowBytes(i / 256, WidthOf(i / 256));
    } else {
      assert BigEndian(0) == [];
      assert LowBytes(i / 256, 0) == [];
    }
  }

  /** The branch-only emitters write the reference encoding of every 64-bit size. */
  lemma EmittersAreReference(s: Bytes, size: nat)
    requires |s| < TWO_TO_THE_64 && size < TWO_TO_THE_64
    ensures PutHead(0xC0, 0xF7, size) == Header(0xC0, 0xF7, size)
    ensures |Header(0xC0, 0xF7, size)| == HeadSize(size)
    ensures ToRlpString(s) == EncodeString(s)
  {
    if size >= 56 { PutIntBytes(size, 0xF7); }
    if |s| >= 56 { PutIntBytes(|s|, 0xB7); }
    if |s| == 1 { assert s == [s[0]]; }
  }
}
