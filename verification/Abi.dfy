/** The contract ABI of accounts/abi: values are packed into heads and tails, dynamic ones behind
    offsets, and read back through those offsets. */
module Abi {
  import opened Wrappers
  import opened Rlp
  import opened RlpRaw

  const WORD: nat := 32

  const MAX_INT64: nat := 0x7FFF_FFFF_FFFF_FFFF

  /** `Type`: integers of a number of bytes, static and dynamic byte strings, and the recursive
      types. */
  datatype Ty =
    | IntTy(signed: bool, bytes: nat)
    | BoolTy
    | AddressTy
    | FixedBytesTy(size: nat)
    | FunctionTy
    | StringTy
    | BytesTy
    | SliceTy(elem: Ty)
    | ArrayTy(count: nat, elem: Ty)
    | TupleTy(elems: seq<Ty>)

  datatype Val = Num(n: int) | Flag(b: bool) | Raw(bytes: Bytes) | Many(items: seq<Val>)

  // ---------------------------------------------------------------------------------
  // Types
  // ---------------------------------------------------------------------------------

  /** `isDynamicType`. */
  predicate Dynamic(t: Ty)
    decreases t, 0
  {
    match t
    case TupleTy(elems) => AnyDynamic(elems)
    case StringTy => true
    case BytesTy => true
    case SliceTy(_) => true
    case ArrayTy(_, elem) => Dynamic(elem)
    case _ => false
  }

  predicate AnyDynamic(ts: seq<Ty>)
    decreases ts, 0
  {
    ts != [] && (Dynamic(ts[0]) || AnyDynamic(ts[1..]))
  }

  /** `getTypeSize`. */
  function TypeSize(t: Ty): (n: nat)
    decreases t, 0
  {
    match t
    case ArrayTy(count, elem) =>
      if Dynamic(elem) then WORD else if elem.ArrayTy? then count * TypeSize(elem) else count * WORD
    case TupleTy(elems) => if AnyDynamic(elems) then WORD else TotalSize(elems)
    case _ => WORD
  }

  function TotalSize(ts: seq<Ty>): (n: nat)
    decreases ts, 0
  {
    if ts == [] then 0 else TypeSize(ts[0]) + TotalSize(ts[1..])
  }

  /** The types the codec is for: integers of at most 32 bytes, no empty arrays or tuples. */
  predicate Formed(t: Ty)
    decreases t, 0
  {
    match t
    case IntTy(_, n) => 1 <= n <= WORD
    case FixedBytesTy(n) => 1 <= n <= WORD
    case SliceTy(elem) => Formed(elem)
    case ArrayTy(n, elem) => n > 0 && Formed(elem)
    case TupleTy(elems) => elems != [] && AllFormed(elems)
    case _ => true
  }

  predicate AllFormed(ts: seq<Ty>)
    decreases ts, 0
  {
    ts == [] || (Formed(ts[0]) && AllFormed(ts[1..]))
  }

  /** The bytes a value takes where the values of a list stand one behind the other: all of it, or
      the offset of a dynamic one. */
  function HeadBytes(t: Ty): (n: nat)
    decreases t, 0
  {
    if Dynamic(t) then WORD
    else
      match t
      case ArrayTy(count, elem) => count * HeadBytes(elem)
      case TupleTy(elems) => HeadTotal(elems)
      case _ => WORD
  }

  function HeadTotal(ts: seq<Ty>): (n: nat)
    decreases ts, 0
  {
    if ts == [] then 0 else HeadBytes(ts[0]) + HeadTotal(ts[1..])
  }

  /** `getTypeSize` is right about t. */
  predicate Exact(t: Ty)
  {
    TypeSize(t) == HeadBytes(t)
  }

  // ---------------------------------------------------------------------------------
  // The types that read back
  // ---------------------------------------------------------------------------------

  /** Every list of values inside t stands where it is looked for. */
  predicate Good(t: Ty)
    decreases t, 0
  {
    match t
    case SliceTy(elem) => Good(elem) && (Dynamic(elem) || Exact(elem))
    case ArrayTy(n, elem) => Good(elem) && (Dynamic(elem) || Exact(elem) || n == 1)
    case TupleTy(elems) => GoodFields(elems)
    case _ => true
  }

  /** A list of fields or arguments: `getTypeSize` is right about all of them but the last, and
      about that as well if offsets depend on it. */
  predicate GoodFields(ts: seq<Ty>)
    decreases ts, 1
  {
    AllGood(ts) && Even(ts)
  }

  predicate AllGood(ts: seq<Ty>)
    decreases ts, 0
  {
    ts == [] || (Good(ts[0]) && AllGood(ts[1..]))
  }

  predicate Even(ts: seq<Ty>)
  {
    Steady(ts) && (AnyDynamic(ts) ==> TotalSize(ts) == HeadTotal(ts))
  }

  predicate Steady(ts: seq<Ty>)
  {
    |ts| <= 1 || (Exact(ts[0]) && Steady(ts[1..]))
  }

  /** The integers of a type. */
  predicate InRange(signed: bool, bytes: nat, n: int)
  {
    if signed then 0 <= 2 * n + Power256(bytes) < 2 * Power256(bytes) else 0 <= n < Power256(bytes)
  }

  /** v is a value of type t. */
  predicate Fits(t: Ty, v: Val)
    decreases t, 0
  {
    match t
    case IntTy(signed, n) => v.Num? && InRange(signed, n, v.n)
    case BoolTy => v.Flag?
    case AddressTy => v.Raw? && |v.bytes| == 20
    case FixedBytesTy(n) => v.Raw? && |v.bytes| == n
    case FunctionTy => v.Raw? && |v.bytes| == 24
    case StringTy => v.Raw?
    case BytesTy => v.Raw?
    case SliceTy(elem) => v.Many? && forall i :: 0 <= i < |v.items| ==> Fits(elem, v.items[i])
    case ArrayTy(n, elem) => v.Many? && |v.items| == n && forall i :: 0 <= i < n ==> Fits(elem, v.items[i])
    case TupleTy(elems) => v.Many? && AllFit(elems, v.items)
  }

  predicate AllFit(ts: seq<Ty>, vs: seq<Val>)
    decreases ts, 0
  {
    |ts| == |vs| && (ts == [] || (Fits(ts[0], vs[0]) && AllFit(ts[1..], vs[1..])))
  }

  // ---------------------------------------------------------------------------------
  // Words
  // ---------------------------------------------------------------------------------

  /** The k-byte big-endian form of n, modulo 256^k. */
  function Digits(n: nat, k: nat): (s: Bytes)
    ensures |s| == k
  {
    if k == 0 then [] else Digits(n / 256, k - 1) + [n % 256]
  }

  /** `packNum`: 256 bits, two's complement. */
  function NumWord(n: int): (w: Bytes)
    ensures |w| == WORD
  {
    Digits(n % Power256(WORD), WORD)
  }

  function Padding(n: nat): (z: Bytes)
    ensures |z| == n
  {
    seq(n, _ => 0)
  }

  function RightPad(b: Bytes, n: nat): (r: Bytes)
    ensures |r| == if |b| >= n then |b| else n
  {
    if |b| >= n then b else b + Padding(n - |b|)
  }

  function LeftPad(b: Bytes, n: nat): (r: Bytes)
    ensures |r| == if |b| >= n then |b| else n
  {
    if |b| >= n then b else Padding(n - |b|) + b
  }

  /** `packBytesSlice`. */
  function PackBytes(b: Bytes): (r: Bytes)
  {
    NumWord(|b|) + RightPad(b, (|b| + 31) / 32 * 32)
  }

  /** `readInteger`: native widths take the last bytes only. */
  function ReadInteger(signed: bool, bytes: nat, word: Bytes): (n: int)
    requires |word| == WORD && 1 <= bytes <= WORD
  {
    var width := if bytes == 1 || bytes == 2 || bytes == 4 || bytes == 8 then bytes else WORD;
    var m := FromBigEndian(word[WORD - width..]);
    if signed && 2 * m >= Power256(width) then m - Power256(width) else m
  }

  // ---------------------------------------------------------------------------------
  // Packing
  // ---------------------------------------------------------------------------------

  /** `pack` on a value that passes `typeCheck`. */
  function Pack(t: Ty, v: Val): (r: Bytes)
    requires Fits(t, v)
    decreases t, 1
  {
    match t
    case IntTy(_, _) => NumWord(v.n)
    case BoolTy => NumWord(if v.b then 1 else 0)
    case AddressTy => LeftPad(v.bytes, WORD)
    case FixedBytesTy(_) => RightPad(v.bytes, WORD)
    case FunctionTy => RightPad(v.bytes, WORD)
    case StringTy => PackBytes(v.bytes)
    case BytesTy => PackBytes(v.bytes)
    case SliceTy(elem) => NumWord(|v.items|) + PackEach(elem, v.items, Base(elem, |v.items|), [])
    case ArrayTy(n, elem) => PackEach(elem, v.items, Base(elem, n), [])
    case TupleTy(elems) => PackFields(elems, v.items, TotalSize(elems), [])
  }

  /** Where the tails of n elements start. */
  function Base(elem: Ty, n: nat): (r: nat)
  {
    if Dynamic(elem) then TypeSize(elem) * n else 0
  }

  /** The loop over the elements of a slice or array from some element on: heads, then the tails
      collected so far and to come. */
  function PackEach(elem: Ty, vs: seq<Val>, offset: nat, tail: Bytes): (r: Bytes)
    requires forall i :: 0 <= i < |vs| ==> Fits(elem, vs[i])
    decreases elem, 2, |vs|
  {
    if vs == [] then tail
    else
      var val := Pack(elem, vs[0]);
      if !Dynamic(elem) then val + PackEach(elem, vs[1..], offset, tail)
      else NumWord(offset) + PackEach(elem, vs[1..], offset + |val|, tail + val)
  }

  /** The loop over the fields of a tuple, and over arguments. */
  function PackFields(ts: seq<Ty>, vs: seq<Val>, offset: nat, tail: Bytes): (r: Bytes)
    requires AllFit(ts, vs)
    decreases ts, 2
  {
    if ts == [] then tail
    else
      var val := Pack(ts[0], vs[0]);
      if !Dynamic(ts[0]) then val + PackFields(ts[1..], vs[1..], offset, tail)
      else NumWord(offset) + PackFields(ts[1..], vs[1..], offset + |val|, tail + val)
  }

  // ---------------------------------------------------------------------------------
  // Unpacking
  // ---------------------------------------------------------------------------------

  /** `lengthPrefixPointsTo`: where the contents start, and their length. */
  function LengthPrefix(index: nat, output: Bytes): (r: Option<(nat, nat)>)
    requires index + WORD <= |output|
    ensures r.Some? ==> r.value.0 + r.value.1 <= |output|
  {
    var end := FromBigEndian(output[index..index + WORD]) + WORD;
    if end > |output| || end > MAX_INT64 then None
    else
      var length := FromBigEndian(output[end - WORD..end]);
      if end + length > MAX_INT64 || end + length > |output| then None else Some((end, length))
  }

  /** `tuplePointsTo`. */
  function TuplePointer(index: nat, output: Bytes): (r: Option<nat>)
    requires index + WORD <= |output|
    ensures r.Some? ==> r.value <= |output|
  {
    var offset := FromBigEndian(output[index..index + WORD]);
    if offset > |output| || offset > MAX_INT64 then None else Some(offset)
  }

  /** `toGoType`; None is an error or the panic of an offset out of range. */
  function ToGoType(index: nat, t: Ty, output: Bytes): (r: Option<Val>)
    requires Formed(t)
    decreases t, 1
  {
    if index + WORD > |output| then None
    else
      var word := output[index..index + WORD];
      match t
      case TupleTy(elems) =>
        if AnyDynamic(elems) then
          var begin := TuplePointer(index, output);
          if begin.None? then None else Listed(UnpackFields(elems, 0, output[begin.value..]))
        else Listed(UnpackFields(elems, 0, output[index..]))
      case SliceTy(elem) =>
        var p := LengthPrefix(index, output);
        if p.None? then None
        else if WORD * p.value.1 > |output| - p.value.0 then None
        else Listed(UnpackEach(elem, 0, p.value.1, output[p.value.0..]))
      case ArrayTy(n, elem) =>
        if Dynamic(elem) then
          var offset := FromBigEndian(word[WORD - 8..]);
          if offset > |output| || WORD * n > |output| - offset then None
          else Listed(UnpackEach(elem, 0, n, output[offset..]))
        else if WORD * n > |output| - index then None
        else Listed(UnpackEach(elem, 0, n, output[index..]))
      case StringTy =>
        var p := LengthPrefix(index, output);
        if p.None? then None else Some(Raw(output[p.value.0..p.value.0 + p.value.1]))
      case BytesTy =>
        var p := LengthPrefix(index, output);
        if p.None? then None else Some(Raw(output[p.value.0..p.value.0 + p.value.1]))
      case IntTy(signed, n) => Some(Num(ReadInteger(signed, n, word)))
      case BoolTy =>
        if word[..31] != Padding(31) || word[31] > 1 then None else Some(Flag(word[31] == 1))
      case AddressTy => Some(Raw(word[12..]))
      case FixedBytesTy(n) => Some(Raw(word[..n]))
      case FunctionTy => if FromBigEndian(word[24..]) != 0 then None else Some(Raw(word[..24]))
  }

  function Listed(vs: Option<seq<Val>>): (r: Option<Val>)
  {
    if vs.None? then None else Some(Many(vs.value))
  }

  /** The loop of `forEachUnpack` from position i on. */
  function UnpackEach(elem: Ty, i: nat, size: nat, output: Bytes): (r: Option<seq<Val>>)
    requires Formed(elem)
    decreases elem, 2, size
  {
    if size == 0 then Some([])
    else
      var v := ToGoType(i, elem, output);
      if v.None? then None
      else
        var rest := UnpackEach(elem, i + TypeSize(elem), size - 1, output);
        if rest.None? then None else Some([v.value] + rest.value)
  }

  /** The loops of `forTupleUnpack` and `UnpackValues`; `word` is the index plus the virtual
      arguments. */
  function UnpackFields(ts: seq<Ty>, word: int, output: Bytes): (r: Option<seq<Val>>)
    requires AllFormed(ts)
    decreases ts, 2
  {
    if ts == [] then Some([])
    else if word < 0 then None
    else
      var v := ToGoType(word * WORD, ts[0], output);
      var extra := if (ts[0].ArrayTy? || ts[0].TupleTy?) && !Dynamic(ts[0]) then TypeSize(ts[0]) / WORD - 1 else 0;
      if v.None? then None
      else
        var rest := UnpackFields(ts[1..], word + 1 + extra, output);
        if rest.None? then None else Some([v.value] + rest.value)
  }
}
