/** For which types the contract ABI reads back what it has written.  For every other type two
    values are built that are packed alike up to one mark, and not both of them are read back. */
module AbiLimits {
  import opened Wrappers
  import opened Rlp
  import opened RlpRaw
  import opened Abi
  import opened AbiRoundTrip

  // ---------------------------------------------------------------------------------
  // A witness
  // ---------------------------------------------------------------------------------

  const UINT256 := IntTy(false, 32)

  const PAIR := TupleTy([UINT256, UINT256])

  /** A fixed array of one pair of numbers, and a number. */
  const PAIR_AND_NUMBER := [ArrayTy(1, PAIR), UINT256]

  function PairVal(x: nat, y: nat): (v: Val)
  {
    Many([Many([Num(x), Num(y)])])
  }

  lemma OneWord(x: nat)
    requires x < Power256(WORD)
    ensures var us := [UINT256];
            AllFormed(us) && AllGood(us) && AllFit(us, [Num(x)]) && TotalSize(us) == WORD && !AnyDynamic(us) &&
            forall offset: nat :: PackFields(us, [Num(x)], offset, []) == NumWord(x)
  {
    hide NumWord, Power256;
    assert [UINT256][1..] == [] && [Num(x)][1..] == [];
    forall offset: nat ensures PackFields([UINT256], [Num(x)], offset, []) == NumWord(x) {
      assert PackFields([UINT256], [Num(x)], offset, []) == Pack(UINT256, Num(x)) + [];
    }
  }

  lemma TwoWords(x: nat, y: nat)
    requires x < Power256(WORD) && y < Power256(WORD)
    ensures var us := [UINT256, UINT256];
            AllFormed(us) && GoodFields(us) && AllFit(us, [Num(x), Num(y)]) && TotalSize(us) == 2 * WORD && !AnyDynamic(us) &&
            PackFields(us, [Num(x), Num(y)], TotalSize(us), []) == NumWord(x) + NumWord(y)
  {
    hide NumWord, Power256;
    var us, vs := [UINT256, UINT256], [Num(x), Num(y)];
    assert us[1..] == [UINT256] && vs[1..] == [Num(y)];
    OneWord(y);
    assert Exact(UINT256) && AllGood(us) && Steady(us);
    assert PackFields(us, vs, 64, []) == NumWord(x) + PackFields([UINT256], [Num(y)], 64, []);
  }

  lemma PairPacked(x: nat, y: nat, z: nat)
    requires x < Power256(WORD) && y < Power256(WORD) && z < Power256(WORD)
    ensures Formed(PAIR) && AllFormed(PAIR_AND_NUMBER) && !Dynamic(PAIR) && TypeSize(PAIR_AND_NUMBER[0]) == WORD
    ensures AllFit(PAIR_AND_NUMBER, [PairVal(x, y), Num(z)])
    ensures PackArguments(PAIR_AND_NUMBER, [PairVal(x, y), Num(z)]) == NumWord(x) + NumWord(y) + NumWord(z)
  {
    hide NumWord, Power256;
    TwoWords(x, y);
    OneWord(z);
    var pair := Many([Num(x), Num(y)]);
    assert Fits(PAIR, pair) && Pack(PAIR, pair) == NumWord(x) + NumWord(y);
    assert [pair][1..] == [];
    assert Fits(PAIR_AND_NUMBER[0], PairVal(x, y));
    assert PackEach(PAIR, [pair], 0, []) == Pack(PAIR, pair) + [];
    var vs := [PairVal(x, y), Num(z)];
    assert PAIR_AND_NUMBER[1..] == [UINT256] && vs[1..] == [Num(z)];
    assert Pack(PAIR_AND_NUMBER[0], vs[0]) == NumWord(x) + NumWord(y);
    assert PackFields(PAIR_AND_NUMBER, vs, 64, []) == Pack(PAIR_AND_NUMBER[0], vs[0]) + PackFields([UINT256], [Num(z)], 64, []);
  }

  lemma PairRead(x: nat, y: nat, data: Bytes)
    requires x < Power256(WORD) && y < Power256(WORD)
    requires |data| == 3 * WORD && NumWord(x) + NumWord(y) <= data
    ensures Formed(PAIR_AND_NUMBER[0]) && ToGoType(0, PAIR_AND_NUMBER[0], data) == Some(PairVal(x, y))
  {
    hide NumWord, Power256, UnpackFields;
    TwoWords(x, y);
    ListRead([UINT256, UINT256], [Num(x), Num(y)], data);
    assert data[0..] == data;
    assert ToGoType(0, PAIR, data) == Some(Many([Num(x), Num(y)]));
    assert UnpackEach(PAIR, 0 + TypeSize(PAIR), 0, data) == Some([]);
    assert [Many([Num(x), Num(y)])] + [] == [Many([Num(x), Num(y)])];
    assert UnpackEach(PAIR, 0, 1, data) == Some([Many([Num(x), Num(y)])]);
  }

  /** The number is read from the second half of the pair. */
  lemma PairMisread(x: nat, y: nat, z: nat)
    requires x < Power256(WORD) && y < Power256(WORD) && z < Power256(WORD)
    ensures AllFormed(PAIR_AND_NUMBER) && AllFit(PAIR_AND_NUMBER, [PairVal(x, y), Num(z)])
    ensures UnpackValues(PAIR_AND_NUMBER, PackArguments(PAIR_AND_NUMBER, [PairVal(x, y), Num(z)])) == Some([PairVal(x, y), Num(y)])
  {
    hide NumWord, Power256, ToGoType, ReadInteger;
    PairPacked(x, y, z);
    var data := NumWord(x) + NumWord(y) + NumWord(z);
    PairRead(x, y, data);
    SecondRead(y, data);
    NextWord(PAIR_AND_NUMBER, 0, data);
    assert PAIR_AND_NUMBER[1..] == [UINT256];
    assert [PairVal(x, y)] + [Num(y)] == [PairVal(x, y), Num(y)];
    hide UnpackFields;
  }

  lemma SecondRead(y: nat, data: Bytes)
    requires y < Power256(WORD) && |data| == 3 * WORD && data[WORD..2 * WORD] == NumWord(y)
    ensures AllFormed([UINT256]) && UnpackFields([UINT256], 1, data) == Some([Num(y)])
  {
    hide NumWord, Power256, ReadInteger;
    OneWord(y);
    ReadIntegerWord(false, 32, y);
    assert ToGoType(WORD, UINT256, data) == Some(Num(y));
    NextWord([UINT256], 1, data);
    assert [UINT256][1..] == [] && [Num(y)] + [] == [Num(y)];
    assert UnpackFields([], 2, data) == Some([]);
  }

  /** So these arguments are read back if and only if two of the numbers happen to be the same. */
  lemma PairReadBackIff(x: nat, y: nat, z: nat)
    requires x < Power256(WORD) && y < Power256(WORD) && z < Power256(WORD)
    ensures var vs := [PairVal(x, y), Num(z)];
            AllFormed(PAIR_AND_NUMBER) && AllFit(PAIR_AND_NUMBER, vs) &&
            (UnpackValues(PAIR_AND_NUMBER, PackArguments(PAIR_AND_NUMBER, vs)) == Some(vs) <==> y == z)
  {
    hide UnpackValues, PackArguments, AllFit, Fits, AllFormed;
    PairMisread(x, y, z);
  }

  // ---------------------------------------------------------------------------------
  // Values with a mark
  // ---------------------------------------------------------------------------------

  /** The fields of the values below. */
  function Parts(t: Ty, n: nat): (ts: seq<Ty>)
    ensures t.SliceTy? || t.ArrayTy? || t.TupleTy? ==> RankAll(ts) < Rank(t)
  {
    match t
    case SliceTy(elem) => RankCopies(elem, n); Copies(elem, n)
    case ArrayTy(k, elem) => RankCopies(elem, k); Copies(elem, k)
    case TupleTy(elems) => elems
    case _ => []
  }

  predicate IsList(t: Ty)
  {
    t.SliceTy? || t.ArrayTy? || t.TupleTy?
  }

  /** A value of zeros but for its first leaf, which is the mark, and the lengths, which make what
      follows the mark of a dynamic value longer than n words. */
  function Made(t: Ty, n: nat, mark: bool): (v: Val)
    decreases Rank(t), 0
  {
    var bit: Byte := if mark then 1 else 0;
    match t
    case IntTy(_, _) => Num(bit)
    case BoolTy => Flag(mark)
    case AddressTy => Raw([bit] + Padding(19))
    case FixedBytesTy(k) => Raw(if k == 0 then [] else [bit] + Padding(k - 1))
    case FunctionTy => Raw([bit] + Padding(23))
    case StringTy => Raw(Padding(WORD * n + 1 + bit))
    case BytesTy => Raw(Padding(WORD * n + 1 + bit))
    case _ => Many(MadeAll(Parts(t, n + 1), n, mark))
  }

  function MadeAll(ts: seq<Ty>, n: nat, mark: bool): (vs: seq<Val>)
    ensures |vs| == |ts|
    decreases RankAll(ts), 1, |ts|
  {
    if ts == [] then [] else [Made(ts[0], n, mark)] + MadeAll(ts[1..], n, false)
  }

  lemma {:induction false} MadeAllAt(ts: seq<Ty>, n: nat, k: nat)
    requires k < |ts|
    ensures MadeAll(ts, n, false)[k] == Made(ts[k], n, false)
    ensures MadeAll(ts, n, false)[k + 1..] == MadeAll(ts[k + 1..], n, false)
    ensures MadeAll(ts, n, false)[..k] == MadeAll(ts[..k], n, false)
    decreases k
  {
    hide Made;
    var vs := MadeAll(ts, n, false);
    if k > 0 {
      MadeAllAt(ts[1..], n, k - 1);
      assert vs[1..] == MadeAll(ts[1..], n, false);
      assert ts[1..][..k - 1] == ts[..k][1..] && vs[1..][..k - 1] == vs[..k][1..];
      assert ts[1..][k..] == ts[k + 1..] && vs[1..][k..] == vs[k + 1..];
      assert vs[..k] == [vs[0]] + vs[..k][1..];
    }
  }

  lemma PartsFormed(t: Ty, n: nat)
    requires Formed(t) && IsList(t) && n > 0
    ensures AllFormed(Parts(t, n)) && Parts(t, n) != []
  {
    if !t.TupleTy? { CopiesAre(t.elem, if t.SliceTy? then n else t.count); }
  }

  lemma {:induction false} MadeFits(t: Ty, n: nat, mark: bool)
    requires Formed(t)
    ensures Fits(t, Made(t, n, mark))
    decreases Rank(t), 0
  {
    if IsList(t) {
      var ts := Parts(t, n + 1);
      PartsFormed(t, n + 1);
      MadeAllFits(ts, n, mark);
      if !t.TupleTy? { CopiesFit(t.elem, MadeAll(ts, n, mark)); }
    } else if t.IntTy? {
      PowerGrows(1, t.bytes);
      assert Power256(1) == 256;
    }
  }

  lemma {:induction false} MadeAllFits(ts: seq<Ty>, n: nat, mark: bool)
    requires AllFormed(ts)
    ensures AllFit(ts, MadeAll(ts, n, mark))
    decreases RankAll(ts), 1, |ts|
  {
    hide Made, Fits;
    if ts != [] {
      MadeFits(ts[0], n, mark);
      MadeAllFits(ts[1..], n, false);
    }
  }

  /** What stands before the fields of a packed value. */
  function Prefix(t: Ty, count: nat): (r: Bytes)
  {
    if t.SliceTy? then NumWord(count) else []
  }

  function PackList(ts: seq<Ty>, vs: seq<Val>): (r: Bytes)
    requires AllFit(ts, vs)
  {
    PackFields(ts, vs, TotalSize(ts), [])
  }

  /** A list type is packed as its fields. */
  lemma PackIsList(t: Ty, vs: seq<Val>, n: nat)
    requires Formed(t) && IsList(t) && Fits(t, Many(vs)) && |vs| == |Parts(t, n)|
    ensures AllFit(Parts(t, n), vs)
    ensures Pack(t, Many(vs)) == Prefix(t, |vs|) + PackList(Parts(t, n), vs)
  {
    hide Pack, PackEach, PackFields, NumWord, Fits, Formed, AllFit, Dynamic, TypeSize, HeadBytes, TotalSize, HeadTotal, Copies, Rank, Base;
    PackOfItems(t, vs);
    if !t.TupleTy? {
      assert Parts(t, n) == Copies(t.elem, |vs|);
      ElementsAreFields(t.elem, vs);
    }
  }

  lemma PackOfItems(t: Ty, vs: seq<Val>)
    requires IsList(t) && Fits(t, Many(vs))
    ensures t.TupleTy? ==> AllFit(t.elems, vs) && Pack(t, Many(vs)) == PackFields(t.elems, vs, TotalSize(t.elems), [])
    ensures !t.TupleTy? ==> (forall i :: 0 <= i < |vs| ==> Fits(t.elem, vs[i])) && (t.ArrayTy? ==> |vs| == t.count)
    ensures !t.TupleTy? ==> Pack(t, Many(vs)) == Prefix(t, |vs|) + PackEach(t.elem, vs, Base(t.elem, |vs|), [])
  {
    hide PackEach, PackFields, NumWord, Formed, AllFit, Dynamic, TypeSize, HeadBytes, TotalSize, HeadTotal, Copies, Rank, Base;
  }

  // ---------------------------------------------------------------------------------
  // Lengths of marked values
  // ---------------------------------------------------------------------------------

  /** The same length, and the same last k bytes. */
  predicate Twins(p: Bytes, q: Bytes, k: nat)
  {
    |p| == |q| && k <= |p| && p[|p| - k..] == q[|q| - k..]
  }

  lemma TwinsAround(x: Bytes, y: Bytes, p: Bytes, q: Bytes, z: Bytes, k: nat)
    requires Twins(p, q, k) && |x| == |y|
    ensures Twins(x + p + z, y + q + z, k + |z|)
  {
    var m := |p| - k;
    assert (x + p + z)[|x| + m..] == p[m..] + z;
    assert (y + q + z)[|y| + m..] == q[m..] + z;
  }

  lemma TwinsLess(p: Bytes, q: Bytes, k: nat, j: nat)
    requires Twins(p, q, k) && j <= k
    ensures Twins(p, q, j)
  {
    assert p[|p| - j..] == p[|p| - k..][k - j..];
    assert q[|q| - j..] == q[|q| - k..][k - j..];
  }

  lemma TwinsAfter(x: Bytes, y: Bytes, z: Bytes)
    requires |x| == |y|
    ensures Twins(x + z, y + z, |z|)
  {
  }

  /** Every packed value takes a word, and a dynamic one more than n. */
  lemma {:induction false} MadeSize(t: Ty, n: nat, mark: bool)
    requires Formed(t) && Fits(t, Made(t, n, mark))
    ensures |Pack(t, Made(t, n, mark))| >= if Dynamic(t) then WORD * (n + 1) else WORD
    decreases Rank(t), 0
  {
    hide Pack, PackFields, Fits, MadeAll, NumWord, FieldTails;
    if !Dynamic(t) {
      StaticSize(t, Made(t, n, mark));
      SizeIsWords(t);
    } else if IsList(t) {
      var ts := Parts(t, n + 1);
      PartsFormed(t, n + 1);
      PackIsList(t, MadeAll(ts, n, mark), n + 1);
      MadeAllSize(ts, n, mark);
      if t.ArrayTy? { CopiesAre(t.elem, t.count); }
    } else {
      StringSize(t, n, mark);
    }
  }

  lemma StringSize(t: Ty, n: nat, mark: bool)
    requires t.StringTy? || t.BytesTy?
    ensures Fits(t, Made(t, n, mark)) && |Pack(t, Made(t, n, mark))| >= WORD * (n + 1)
  {
    hide NumWord;
  }

  lemma {:induction false} MadeAllSize(ts: seq<Ty>, n: nat, mark: bool)
    requires AllFormed(ts) && AllFit(ts, MadeAll(ts, n, mark))
    ensures |PackList(ts, MadeAll(ts, n, mark))| >= WORD * |ts|
    ensures AnyDynamic(ts) ==> |FieldTails(ts, MadeAll(ts, n, mark))| >= WORD * (n + 1)
    ensures AnyDynamic(ts) ==> |PackList(ts, MadeAll(ts, n, mark))| >= WORD * (n + 1)
    decreases RankAll(ts), 1, |ts|
  {
    var vs := MadeAll(ts, n, mark);
    hide Pack, PackFields, Made, MadeAll, Formed, Fits, TypeSize, HeadBytes, TotalSize, HeadTotal, FieldHeads;
    ListIs(ts, vs);
    TotalIsWords(ts);
    if ts != [] {
      MadeAllIs(ts, n, mark);
      MadeSize(ts[0], n, mark);
      MadeAllSize(ts[1..], n, false);
    }
  }

  lemma MadeAllIs(ts: seq<Ty>, n: nat, mark: bool)
    requires ts != []
    ensures MadeAll(ts, n, mark)[0] == Made(ts[0], n, mark) && MadeAll(ts, n, mark)[1..] == MadeAll(ts[1..], n, false)
  {
  }

  /** The marked and the unmarked value are packed to the same length, with the same end. */
  lemma {:induction false} MadeTwins(t: Ty, n: nat)
    requires Formed(t) && Fits(t, Made(t, n, false)) && Fits(t, Made(t, n, true))
    ensures |Pack(t, Made(t, n, false))| == |Pack(t, Made(t, n, true))|
    ensures Dynamic(t) ==> Twins(Pack(t, Made(t, n, false)), Pack(t, Made(t, n, true)), WORD * n)
    decreases Rank(t), 0
  {
    if !Dynamic(t) {
      StaticSize(t, Made(t, n, false));
      StaticSize(t, Made(t, n, true));
    } else if IsList(t) {
      var ts := Parts(t, n + 1);
      PartsFormed(t, n + 1);
      PackIsList(t, MadeAll(ts, n, false), n + 1);
      PackIsList(t, MadeAll(ts, n, true), n + 1);
      ListTwins(ts, n);
      if t.ArrayTy? { CopiesAre(t.elem, t.count); }
      var x := Prefix(t, |ts|);
      var p, q := PackList(ts, MadeAll(ts, n, false)), PackList(ts, MadeAll(ts, n, true));
      TwinsAround(x, x, p, q, [], WORD * n);
      assert x + p + [] == x + p && x + q + [] == x + q;
    } else {
      StringTwins(n);
    }
  }

  lemma StringTwins(n: nat)
    ensures Twins(PackBytes(Padding(WORD * n + 1)), PackBytes(Padding(WORD * n + 2)), WORD * n)
  {
    hide NumWord;
    var z := Padding(WORD * (n + 1));
    assert RightPad(Padding(WORD * n + 1), WORD * (n + 1)) == z;
    assert RightPad(Padding(WORD * n + 2), WORD * (n + 1)) == z;
    TwinsAfter(NumWord(WORD * n + 1), NumWord(WORD * n + 2), z);
    TwinsLess(NumWord(WORD * n + 1) + z, NumWord(WORD * n + 2) + z, |z|, WORD * n);
  }

  lemma {:induction false} ListTwins(ts: seq<Ty>, n: nat)
    requires AllFormed(ts) && ts != [] && AllFit(ts, MadeAll(ts, n, false)) && AllFit(ts, MadeAll(ts, n, true))
    ensures |PackList(ts, MadeAll(ts, n, false))| == |PackList(ts, MadeAll(ts, n, true))|
    ensures AnyDynamic(ts) || |ts| > n ==>
              Twins(PackList(ts, MadeAll(ts, n, false)), PackList(ts, MadeAll(ts, n, true)), WORD * n)
    decreases RankAll(ts), 1
  {
    hide Pack, PackFields, Made, MadeAll, Formed, Fits, TypeSize, HeadBytes, TotalSize, HeadTotal, FieldHeads, FieldTails, Twins;
    var a, b, rest := MadeAll(ts, n, false), MadeAll(ts, n, true), MadeAll(ts[1..], n, false);
    MadeAllIs(ts, n, false);
    MadeAllIs(ts, n, true);
    MadeTwins(ts[0], n);
    MadeAllSize(ts[1..], n, false);
    ListFirst(ts, a);
    ListFirst(ts, b);
    var own := |TailOf(ts[0], a[0])|;
    var h, z := FieldHeads(ts[1..], rest, TotalSize(ts) + own), FieldTails(ts[1..], rest);
    HeadsLength(ts[1..], rest, TotalSize(ts) + own);
    TotalIsWords(ts[1..]);
    var p, q := Pack(ts[0], a[0]), Pack(ts[0], b[0]);
    if Dynamic(ts[0]) {
      MiddleTwins(NumWord(TotalSize(ts)), h, p, q, z, WORD * n);
    } else {
      EndTwins(p, q, h, z);
      if AnyDynamic(ts) || |ts| > n { TwinsLess(PackList(ts, a), PackList(ts, b), |h + z|, WORD * n); }
    }
  }

  lemma MiddleTwins(w: Bytes, h: Bytes, p: Bytes, q: Bytes, z: Bytes, k: nat)
    requires Twins(p, q, k)
    ensures Twins(w + h + (p + z), w + h + (q + z), k)
  {
    TwinsAround(w + h, w + h, p, q, z, k);
    assert w + h + p + z == w + h + (p + z) && w + h + q + z == w + h + (q + z);
    TwinsLess(w + h + (p + z), w + h + (q + z), k + |z|, k);
  }

  lemma EndTwins(p: Bytes, q: Bytes, h: Bytes, z: Bytes)
    requires |p| == |q|
    ensures Twins(p + h + ([] + z), q + h + ([] + z), |h + z|)
  {
    TwinsAfter(p, q, h + z);
    assert p + (h + z) == p + h + ([] + z) && q + (h + z) == q + h + ([] + z);
  }

  /** The first field of a packed list. */
  lemma ListFirst(ts: seq<Ty>, vs: seq<Val>)
    requires AllFormed(ts) && ts != [] && AllFit(ts, vs)
    ensures AllFit(ts[1..], vs[1..]) && Fits(ts[0], vs[0])
    ensures PackList(ts, vs) ==
            HeadOf(ts[0], vs[0], TotalSize(ts)) + FieldHeads(ts[1..], vs[1..], TotalSize(ts) + |TailOf(ts[0], vs[0])|) +
            (TailOf(ts[0], vs[0]) + FieldTails(ts[1..], vs[1..]))
  {
    hide Pack, PackFields, Formed, Fits, TypeSize, HeadBytes, HeadOf, TailOf, FieldHeads, FieldTails;
    ListIs(ts, vs);
    FirstOff(ts, vs, TotalSize(ts));
  }

  // ---------------------------------------------------------------------------------
  // Reading zeros
  // ---------------------------------------------------------------------------------

  /** The first leaf of v is zero, or a list or string on the way to it is empty. */
  predicate LeadZero(t: Ty, v: Val)
    decreases t
  {
    match t
    case IntTy(_, _) => v == Num(0)
    case BoolTy => v == Flag(false)
    case AddressTy => v.Raw? && (v.bytes != [] ==> v.bytes[0] == 0)
    case FixedBytesTy(_) => v.Raw? && (v.bytes != [] ==> v.bytes[0] == 0)
    case FunctionTy => v.Raw? && (v.bytes != [] ==> v.bytes[0] == 0)
    case StringTy => v == Raw([])
    case BytesTy => v == Raw([])
    case SliceTy(_) => v == Many([])
    case ArrayTy(_, elem) => v.Many? && v.items != [] && LeadZero(elem, v.items[0])
    case TupleTy(elems) => v.Many? && v.items != [] && elems != [] && LeadZero(elems[0], v.items[0])
  }

  lemma {:induction false} MarkIsNotZero(t: Ty, n: nat)
    requires Formed(t)
    ensures !LeadZero(t, Made(t, n, true))
    decreases Rank(t)
  {
    if IsList(t) {
      var ts := Parts(t, n + 1);
      PartsFormed(t, n + 1);
      MadeAllIs(ts, n, true);
      RankAt(ts, 0);
      if !t.SliceTy? { MarkIsNotZero(ts[0], n); }
    }
  }

  /** What `toGoType` finds for a list type: its fields, read from where the list stands. */
  lemma ToList(t: Ty, index: nat, output: Bytes, at: nat, n: nat)
    requires Formed(t) && IsList(t) && index + WORD <= |output| <= MAX_INT64
    requires Dynamic(t) ==> output[index..index + WORD] == NumWord(at) && at <= |output|
    requires t.SliceTy? ==> at + WORD <= |output| && FromBigEndian(output[at..at + WORD]) == n
    ensures AllFormed(Parts(t, n))
    ensures var start := if !Dynamic(t) then index else if t.SliceTy? then at + WORD else at;
            var v := ToGoType(index, t, output);
            v.Some? ==> start <= |output| && v.value.Many? && UnpackFields(Parts(t, n), 0, output[start..]) == Some(v.value.items)
  {
    hide NumWord, Power256, FromBigEndian, UnpackFields, UnpackEach;
    if Dynamic(t) {
      MaxIntInWord();
      WordValue(at);
    }
    if t.SliceTy? {
      CopiesAre(t.elem, n);
      UnpackEachIsFields(t.elem, 0, n, output[at + WORD..]);
    } else if t.ArrayTy? {
      CopiesAre(t.elem, t.count);
      if Dynamic(t) { LowOffset(at); }
      UnpackEachIsFields(t.elem, 0, t.count, output[if Dynamic(t) then at else index..]);
    }
  }

  /** Field k of a list is read where the sizes of those before it say. */
  lemma {:induction false} FieldAt(ts: seq<Ty>, word: nat, output: Bytes, k: nat)
    requires AllFormed(ts) && k < |ts|
    ensures Formed(ts[k])
    ensures var r := UnpackFields(ts, word, output);
            r.Some? ==> |r.value| == |ts| && ToGoType(word * WORD + TotalSize(ts[..k]), ts[k], output) == Some(r.value[k])
    decreases k
  {
    hide ToGoType, TypeSize, HeadBytes, Formed;
    NextWord(ts, word, output);
    UnpackedLength(ts, word, output);
    if k > 0 {
      SizeIsWords(ts[0]);
      var next := word + TypeSize(ts[0]) / WORD;
      assert next * WORD == word * WORD + TypeSize(ts[0]);
      assert ts[1..][..k - 1] == ts[..k][1..];
      FieldAt(ts[1..], next, output, k - 1);
    } else {
      assert ts[..0] == [];
    }
  }

  lemma {:induction false} UnpackedLength(ts: seq<Ty>, word: nat, output: Bytes)
    requires AllFormed(ts)
    ensures var r := UnpackFields(ts, word, output); r.Some? ==> |r.value| == |ts|
    decreases |ts|
  {
    hide ToGoType, TypeSize, HeadBytes, Formed;
    if ts != [] {
      NextWord(ts, word, output);
      SizeIsWords(ts[0]);
      UnpackedLength(ts[1..], word + TypeSize(ts[0]) / WORD, output);
    }
  }

  predicate ZeroWord(output: Bytes, index: nat)
  {
    index + WORD <= |output| && output[index..index + WORD] == Padding(WORD)
  }

  /** Where a value is read from a zero word, and a zero word stands at the beginning, its first leaf
      is read as zero. */
  lemma {:induction false} ZeroRead(t: Ty, index: nat, output: Bytes)
    requires Formed(t) && ZeroWord(output, index) && ZeroWord(output, 0) && |output| <= MAX_INT64
    ensures var v := ToGoType(index, t, output); v.Some? ==> LeadZero(t, v.value)
    decreases Rank(t)
  {
    hide ToGoType, UnpackFields, LeadZero, FromBigEndian, Power256, NumWord, Digits, Padding;
    ZeroDigits(WORD);
    if IsList(t) {
      ZeroIsNumber();
      ToList(t, index, output, 0, 0);
      if !t.SliceTy? {
        var ts := Parts(t, 0);
        var start := if Dynamic(t) then 0 else index;
        assert output[0..] == output && output[start..][0..WORD] == output[start..start + WORD];
        RankAt(ts, 0);
        FieldAt(ts, 0, output[start..], 0);
        assert ts[..0] == [];
        ZeroRead(ts[0], 0, output[start..]);
        LeadOfList(t);
      } else {
        NothingUnpacked(output[WORD..]);
        LeadOfList(t);
      }
    } else {
      ZeroLeaf(t, index, output);
    }
  }

  lemma ZeroIsNumber()
    ensures NumWord(0) == Padding(WORD)
  {
    ZeroDigits(WORD);
    assert 0 % Power256(WORD) == 0;
    hide Power256, Digits;
  }

  lemma NothingUnpacked(output: Bytes)
    ensures UnpackFields([], 0, output) == Some([])
  {
  }

  lemma LeadOfList(t: Ty)
    requires Formed(t) && IsList(t)
    ensures t.SliceTy? ==> LeadZero(t, Many([]))
    ensures !t.SliceTy? ==> Parts(t, 0) != [] && forall v: Val :: LeadZero(t, v) <==> v.Many? && v.items != [] && LeadZero(Parts(t, 0)[0], v.items[0])
  {
  }

  lemma ZeroLeaf(t: Ty, index: nat, output: Bytes)
    requires Formed(t) && !IsList(t) && ZeroWord(output, index) && ZeroWord(output, 0) && |output| <= MAX_INT64
    ensures var v := ToGoType(index, t, output); v.Some? ==> LeadZero(t, v.value)
  {
    ZeroDigits(WORD);
    hide FromBigEndian, Power256;
    if t.IntTy? {
      ZeroInteger(t.signed, t.bytes);
    }
  }

  lemma ZeroInteger(signed: bool, bytes: nat)
    requires 1 <= bytes <= WORD
    ensures ReadInteger(signed, bytes, Padding(WORD)) == 0
  {
    var width := if bytes == 1 || bytes == 2 || bytes == 4 || bytes == 8 then bytes else WORD;
    ZeroDigits(width);
    assert Padding(WORD)[WORD - width..] == Padding(width);
    hide FromBigEndian;
  }

  // ---------------------------------------------------------------------------------
  // Heads of zeros
  // ---------------------------------------------------------------------------------

  lemma PaddingSum(a: nat, b: nat)
    ensures Padding(a) + Padding(b) == Padding(a + b)
  {
  }

  /** An unmarked static value is all zeros. */
  lemma {:induction false} ZeroPack(t: Ty, n: nat)
    requires Formed(t) && !Dynamic(t) && Fits(t, Made(t, n, false))
    ensures Pack(t, Made(t, n, false)) == Padding(HeadBytes(t))
    decreases Rank(t), 0
  {
    if IsList(t) {
      var ts := Parts(t, n + 1);
      var vs := MadeAll(ts, n, false);
      PartsFormed(t, n + 1);
      PackIsList(t, vs, n + 1);
      if t.ArrayTy? { CopiesAre(t.elem, t.count); }
      ListIs(ts, vs);
      HeadsLength(ts, vs, TotalSize(ts));
      ZeroHeads(ts, n, TotalSize(ts));
    } else {
      ZeroPackLeaf(t, n);
    }
  }

  lemma ZeroPackLeaf(t: Ty, n: nat)
    requires Formed(t) && !Dynamic(t) && !IsList(t) && Fits(t, Made(t, n, false))
    ensures Pack(t, Made(t, n, false)) == Padding(WORD)
  {
    hide NumWord;
    ZeroIsNumber();
  }

  lemma {:induction false} ZeroHeads(ts: seq<Ty>, n: nat, offset: nat)
    requires AllFormed(ts) && !AnyDynamic(ts) && AllFit(ts, MadeAll(ts, n, false))
    ensures FieldHeads(ts, MadeAll(ts, n, false), offset) == Padding(HeadTotal(ts))
    decreases RankAll(ts), 1, |ts|
  {
    hide Pack, Made, Fits, Formed, HeadBytes, NumWord;
    if ts != [] {
      MadeAllIs(ts, n, false);
      ZeroPack(ts[0], n);
      ZeroHeads(ts[1..], n, offset);
      PaddingSum(HeadBytes(ts[0]), HeadTotal(ts[1..]));
    }
  }

  /** A word among the heads of unmarked values is zero or one of their offsets. */
  lemma {:induction false} HeadWord(ts: seq<Ty>, n: nat, offset: nat, q: nat) returns (w: nat)
    requires AllFormed(ts) && AllFit(ts, MadeAll(ts, n, false))
    requires q % WORD == 0 && q + WORD <= HeadTotal(ts)
    ensures var vs := MadeAll(ts, n, false);
            var heads := FieldHeads(ts, vs, offset);
            |heads| == HeadTotal(ts) && offset <= w <= offset + |FieldTails(ts, vs)| &&
            (heads[q..q + WORD] == Padding(WORD) || heads[q..q + WORD] == NumWord(w))
    decreases |ts|
  {
    hide Pack, Made, Fits, Formed, HeadBytes, NumWord, FieldHeads, FieldTails, HeadOf, TailOf, MadeAll, Dynamic, Padding;
    var vs := MadeAll(ts, n, false);
    HeadsLength(ts, vs, offset);
    MadeAllIs(ts, n, false);
    FirstOff(ts, vs, offset);
    SizeIsWords(ts[0]);
    HeadTakes(ts[0], vs[0], offset);
    var k, off := HeadBytes(ts[0]), offset + |TailOf(ts[0], vs[0])|;
    if q < k {
      w := offset;
      FirstHeadWord(ts[0], n, offset, q);
      WordOfFirst(HeadOf(ts[0], vs[0], offset), FieldHeads(ts[1..], vs[1..], off), q);
    } else {
      WordsApart(q, k);
      w := HeadWord(ts[1..], n, off, q - k);
      WordOfSecond(HeadOf(ts[0], vs[0], offset), FieldHeads(ts[1..], vs[1..], off), q);
    }
  }

  lemma WordsApart(q: nat, k: nat)
    requires q >= k && q % WORD == 0 && k % WORD == 0
    ensures (q - k) % WORD == 0
  {
  }

  lemma WordOfFirst(a: Bytes, b: Bytes, q: nat)
    requires q + WORD <= |a|
    ensures (a + b)[q..q + WORD] == a[q..q + WORD]
  {
  }

  lemma WordOfSecond(a: Bytes, b: Bytes, q: nat)
    requires |a| <= q && q + WORD <= |a| + |b|
    ensures (a + b)[q..q + WORD] == b[q - |a|..q - |a| + WORD]
  {
  }

  lemma FirstHeadWord(t: Ty, n: nat, offset: nat, q: nat)
    requires Formed(t) && Fits(t, Made(t, n, false)) && q % WORD == 0 && q < HeadBytes(t)
    ensures var head := HeadOf(t, Made(t, n, false), offset);
            q + WORD <= |head| && (head[q..q + WORD] == Padding(WORD) || head[q..q + WORD] == NumWord(offset))
  {
    hide Pack, Made, Fits, Formed, NumWord;
    SizeIsWords(t);
    if Dynamic(t) { assert NumWord(offset)[0..WORD] == NumWord(offset); } else { ZeroPack(t, n); }
  }

  // ---------------------------------------------------------------------------------
  // The place that is not read back
  // ---------------------------------------------------------------------------------

  function FirstInexact(ts: seq<Ty>): (i: nat)
    ensures i <= |ts| && (i < |ts| ==> !Exact(ts[i])) && forall j :: 0 <= j < i ==> Exact(ts[j])
  {
    if ts == [] || !Exact(ts[0]) then 0 else 1 + FirstInexact(ts[1..])
  }

  function FirstDynamic(ts: seq<Ty>): (i: nat)
    ensures i <= |ts| && (i < |ts| ==> Dynamic(ts[i])) && forall j :: 0 <= j < i ==> !Dynamic(ts[j])
  {
    if ts == [] || Dynamic(ts[0]) then 0 else 1 + FirstDynamic(ts[1..])
  }

  function FirstBad(ts: seq<Ty>): (i: nat)
    ensures i <= |ts| && (i < |ts| ==> !Good(ts[i]))
  {
    if ts == [] || !Good(ts[0]) then 0 else 1 + FirstBad(ts[1..])
  }

  /** Where the mark goes: if the sizes are wrong, on a dynamic field before the first wrong one, or
      else on the field behind that; otherwise into a bad field. */
  function Spot(ts: seq<Ty>): (j: nat)
  {
    if Even(ts) then FirstBad(ts)
    else if FirstDynamic(ts) < FirstInexact(ts) then FirstDynamic(ts)
    else FirstInexact(ts) + 1
  }

  lemma {:induction false} FirstsAre(ts: seq<Ty>)
    ensures AnyDynamic(ts) <==> FirstDynamic(ts) < |ts|
    ensures AllGood(ts) <==> FirstBad(ts) == |ts|
    ensures FirstInexact(ts) == |ts| ==> Steady(ts) && TotalSize(ts) == HeadTotal(ts)
    ensures FirstInexact(ts) + 1 >= |ts| ==> Steady(ts)
    decreases |ts|
  {
    hide Dynamic, Good, TypeSize, HeadBytes;
    if ts != [] { FirstsAre(ts[1..]); }
  }

  lemma SpotInside(ts: seq<Ty>)
    requires AllFormed(ts) && !GoodFields(ts)
    ensures Spot(ts) < |ts|
  {
    hide Dynamic, Good, TypeSize, HeadBytes, FirstDynamic, FirstInexact, FirstBad;
    FirstsAre(ts);
    if !Even(ts) && FirstInexact(ts) < |ts| {
      AllFormedAt(ts, FirstInexact(ts));
      SizeIsWords(ts[FirstInexact(ts)]);
    }
  }

  /** A value of t with a mark that is not read back as it is, if t is not good. */
  function Bad(t: Ty, n: nat, mark: bool): (v: Val)
    decreases Rank(t), 0
  {
    if IsList(t) then Many(BadAll(Parts(t, 2), n, mark)) else Made(t, n, mark)
  }

  function BadAll(ts: seq<Ty>, n: nat, mark: bool): (vs: seq<Val>)
    ensures |vs| == |ts|
    decreases RankAll(ts), 1
  {
    var j, rest := Spot(ts), MadeAll(ts, n, false);
    if j >= |ts| then rest
    else
      RankAt(ts, j);
      rest[j := if Even(ts) then Bad(ts[j], n, mark) else Made(ts[j], n, mark)]
  }

  lemma {:induction false} BadFits(t: Ty, n: nat, mark: bool)
    requires Formed(t)
    ensures Fits(t, Bad(t, n, mark))
    decreases Rank(t), 0
  {
    if IsList(t) {
      var ts := Parts(t, 2);
      PartsFormed(t, 2);
      BadAllFits(ts, n, mark);
      if !t.TupleTy? { CopiesFit(t.elem, BadAll(ts, n, mark)); }
    } else {
      MadeFits(t, n, mark);
    }
  }

  lemma {:induction false} BadAllFits(ts: seq<Ty>, n: nat, mark: bool)
    requires AllFormed(ts)
    ensures AllFit(ts, BadAll(ts, n, mark))
    decreases RankAll(ts), 1
  {
    hide Made, Bad, Fits, Good, Exact, Even, Spot, MadeAll;
    var j, rest := Spot(ts), MadeAll(ts, n, false);
    MadeAllFits(ts, n, false);
    if j < |ts| {
      RankAt(ts, j);
      AllFormedAt(ts, j);
      BadFits(ts[j], n, mark);
      MadeFits(ts[j], n, mark);
      FitsUpdated(ts, rest, j, if Even(ts) then Bad(ts[j], n, mark) else Made(ts[j], n, mark));
    }
  }

  lemma {:induction false} FitsUpdated(ts: seq<Ty>, vs: seq<Val>, j: nat, v: Val)
    requires AllFit(ts, vs) && j < |ts| && Fits(ts[j], v)
    ensures AllFit(ts, vs[j := v])
    decreases j
  {
    hide Fits;
    if j > 0 {
      FitsUpdated(ts[1..], vs[1..], j - 1, v);
      assert vs[j := v][1..] == vs[1..][j - 1 := v];
    } else {
      assert vs[j := v][1..] == vs[1..];
    }
  }

  // ---------------------------------------------------------------------------------
  // A list around one field
  // ---------------------------------------------------------------------------------

  /** What stands around field j of a list of unmarked values: heads before and behind its own, and
      tails before and behind its own. */
  datatype Around = Around(h1: Bytes, h2: Bytes, t1: Bytes, t2: Bytes)

  /** ... when field j takes `own` bytes among the tails. */
  function AroundField(ts: seq<Ty>, n: nat, j: nat, own: nat): (r: Around)
    requires AllFormed(ts) && j < |ts|
  {
    FormedSplit(ts, j);
    FormedSplit(ts, j + 1);
    MadeAllFits(ts[..j], n, false);
    MadeAllFits(ts[j + 1..], n, false);
    var before, after := MadeAll(ts[..j], n, false), MadeAll(ts[j + 1..], n, false);
    var t1 := FieldTails(ts[..j], before);
    Around(FieldHeads(ts[..j], before, TotalSize(ts)),
           FieldHeads(ts[j + 1..], after, TotalSize(ts) + |t1| + own),
           t1, FieldTails(ts[j + 1..], after))
  }

  lemma PackedAround(ts: seq<Ty>, n: nat, j: nat, v: Val)
    requires AllFormed(ts) && j < |ts| && Fits(ts[j], v)
    ensures var vs := MadeAll(ts, n, false)[j := v];
            var r := AroundField(ts, n, j, |TailOf(ts[j], v)|);
            AllFit(ts, vs) && |r.h1| == HeadTotal(ts[..j]) && |r.h2| == HeadTotal(ts[j + 1..]) &&
            PackList(ts, vs) == r.h1 + HeadOf(ts[j], v, TotalSize(ts) + |r.t1|) + r.h2 + (r.t1 + TailOf(ts[j], v) + r.t2)
  {
    hide Made, Fits, Formed, FieldHeads, FieldTails, HeadOf, TailOf, MadeAll, AllFit, AllFormed, TotalSize, HeadTotal, PackFields;
    var vs := MadeAll(ts, n, false)[j := v];
    MadeAllFits(ts, n, false);
    FitsUpdated(ts, MadeAll(ts, n, false), j, v);
    MadeAllAt(ts, n, j);
    assert vs[..j] == MadeAll(ts, n, false)[..j] && vs[j + 1..] == MadeAll(ts, n, false)[j + 1..];
    FitsSplit(ts, vs, j);
    FormedSplit(ts, j);
    FormedSplit(ts, j + 1);
    ListIs(ts, vs);
    SplitAt(ts, vs, j, TotalSize(ts));
    var r := AroundField(ts, n, j, |TailOf(ts[j], v)|);
    HeadsLength(ts[..j], vs[..j], TotalSize(ts));
    HeadsLength(ts[j + 1..], vs[j + 1..], TotalSize(ts) + |r.t1| + |TailOf(ts[j], v)|);
  }

  // ---------------------------------------------------------------------------------
  // A dynamic value looked for too early
  // ---------------------------------------------------------------------------------

  /** The same first leaf. */
  predicate SameLead(t: Ty, v: Val, w: Val)
    decreases t
  {
    match t
    case ArrayTy(_, elem) => v.Many? && w.Many? && v.items != [] && w.items != [] && SameLead(elem, v.items[0], w.items[0])
    case TupleTy(elems) =>
      v.Many? && w.Many? && v.items != [] && w.items != [] && elems != [] && SameLead(elems[0], v.items[0], w.items[0])
    case _ => v == w
  }

  lemma FirstIsStatic(t: Ty, n: nat)
    requires Formed(t) && IsList(t) && !Dynamic(t)
    ensures Parts(t, n) != [] && !Dynamic(Parts(t, n)[0])
  {
  }

  lemma MadeIs(t: Ty, n: nat)
    requires IsList(t)
    ensures Made(t, n, false) == Many(MadeAll(Parts(t, n + 1), n, false))
    ensures Made(t, n, true) == Many(MadeAll(Parts(t, n + 1), n, true))
  {
  }

  lemma {:induction false} MarkShows(t: Ty, n: nat)
    requires Formed(t)
    ensures Made(t, n, false) != Made(t, n, true)
    ensures !Dynamic(t) ==> !SameLead(t, Made(t, n, false), Made(t, n, true))
    decreases Rank(t)
  {
    if IsList(t) {
      var ts := Parts(t, n + 1);
      PartsFormed(t, n + 1);
      MadeAllIs(ts, n, false);
      MadeAllIs(ts, n, true);
      RankAt(ts, 0);
      MarkShows(ts[0], n);
      MadeIs(t, n);
      assert Made(t, n, false).items[0] != Made(t, n, true).items[0];
      if !Dynamic(t) { FirstIsStatic(t, n + 1); }
    } else if t.AddressTy? || t.FixedBytesTy? || t.FunctionTy? {
      assert Made(t, n, false).bytes[0] != Made(t, n, true).bytes[0];
    } else if t.StringTy? || t.BytesTy? {
      assert |Made(t, n, false).bytes| != |Made(t, n, true).bytes|;
    }
  }

  /** A static value read from one word or more has its first leaf from the first. */
  lemma {:induction false} LeadRead(t: Ty, p: Bytes, q: Bytes)
    requires Formed(t) && !Dynamic(t) && WORD <= |p| <= MAX_INT64 && WORD <= |q| <= MAX_INT64 && p[..WORD] == q[..WORD]
    ensures var v, w := ToGoType(0, t, p), ToGoType(0, t, q);
            v.Some? && w.Some? ==> SameLead(t, v.value, w.value)
    decreases Rank(t)
  {
    if IsList(t) {
      hide ToGoType, UnpackFields, SameLead;
      var ts := Parts(t, 0);
      ToList(t, 0, p, 0, 0);
      ToList(t, 0, q, 0, 0);
      assert p[0..] == p && q[0..] == q && ts[..0] == [];
      LeadOfList(t);
      FirstIsStatic(t, 0);
      RankAt(ts, 0);
      FieldAt(ts, 0, p, 0);
      FieldAt(ts, 0, q, 0);
      LeadRead(ts[0], p, q);
      SameLeadOfList(t);
    }
  }

  lemma SameLeadOfList(t: Ty)
    requires Formed(t) && IsList(t) && !t.SliceTy? && Parts(t, 0) != []
    ensures forall v: Val, w: Val :: SameLead(t, v, w) <==>
              v.Many? && w.Many? && v.items != [] && w.items != [] && SameLead(Parts(t, 0)[0], v.items[0], w.items[0])
  {
  }

  /** A dynamic value behind an offset depends on nothing before it. */
  lemma ReadBehind(t: Ty, p: Bytes, q: Bytes, w: nat)
    requires Formed(t) && Dynamic(t) && WORD <= |p| == |q| <= MAX_INT64 && w <= MAX_INT64
    requires p[..WORD] == q[..WORD] == NumWord(w) && (w <= |p| ==> p[w..] == q[w..])
    ensures ToGoType(0, t, p) == ToGoType(0, t, q)
  {
    hide NumWord, Power256, FromBigEndian, UnpackFields, UnpackEach, LengthPrefix;
    MaxIntInWord();
    WordValue(w);
    LowOffset(w);
    assert p[0..WORD] == p[..WORD] && q[0..WORD] == q[..WORD];
    PrefixBehind(p, q, w);
    if t.StringTy? || t.BytesTy? {
      var at := LengthPrefix(0, p);
      if at.Some? {
        assert p[at.value.0..at.value.0 + at.value.1] == p[at.value.0..][..at.value.1];
        assert q[at.value.0..at.value.0 + at.value.1] == q[at.value.0..][..at.value.1];
      }
    }
  }

  lemma PrefixBehind(p: Bytes, q: Bytes, w: nat)
    requires WORD <= |p| == |q| <= MAX_INT64 && w <= MAX_INT64
    requires p[..WORD] == q[..WORD] == NumWord(w) && (w <= |p| ==> p[w..] == q[w..])
    ensures LengthPrefix(0, p) == LengthPrefix(0, q)
    ensures LengthPrefix(0, p).Some? ==> p[LengthPrefix(0, p).value.0..] == q[LengthPrefix(0, p).value.0..]
  {
    hide NumWord, Power256, FromBigEndian;
    MaxIntInWord();
    WordValue(w);
    assert p[0..WORD] == p[..WORD] && q[0..WORD] == q[..WORD];
    if w + WORD <= |p| {
      assert p[w..w + WORD] == p[w..][..WORD] && q[w..w + WORD] == q[w..][..WORD];
      assert p[w + WORD..] == p[w..][WORD..] && q[w + WORD..] == q[w..][WORD..];
    }
  }

  /** The length of a string or slice is the word it starts with. */
  lemma CountRead(t: Ty, index: nat, at: nat, s: Bytes)
    requires Formed(t) && (t.StringTy? || t.BytesTy? || t.SliceTy?) && index + WORD <= |s| <= MAX_INT64
    requires s[index..index + WORD] == NumWord(at) && at + WORD <= |s|
    ensures var v := ToGoType(index, t, s);
            v.Some? ==>
              FromBigEndian(s[at..at + WORD]) ==
              if t.SliceTy? then (if v.value.Many? then |v.value.items| else 0) else (if v.value.Raw? then |v.value.bytes| else 0)
  {
    MaxIntInWord();
    WordValue(at);
    hide NumWord, Power256, FromBigEndian, UnpackFields, UnpackEach;
    if t.SliceTy? {
      var n := FromBigEndian(s[at..at + WORD]);
      ToList(t, index, s, at, n);
      UnpackedLength(Parts(t, n), 0, s[at + WORD..]);
    }
  }

  /** Two outputs in which a dynamic value is looked for at `at`, where the same word stands: zero, or
      an offset beyond which the outputs agree.  The marked and the unmarked value are not both read. */
  lemma DynamicMisread(t: Ty, n: nat, index: nat, at: nat, p: Bytes, q: Bytes, w: nat)
    requires Formed(t) && Dynamic(t) && |p| == |q| <= MAX_INT64
    requires index + WORD <= |p| && p[index..index + WORD] == q[index..index + WORD] == NumWord(at)
    requires at + WORD <= |p| && p[at..at + WORD] == q[at..at + WORD]
    requires p[at..at + WORD] == Padding(WORD) || p[at..at + WORD] == NumWord(w)
    requires WORD * (n + 1) <= w <= MAX_INT64 && (at + w <= |p| ==> p[at + w..] == q[at + w..])
    ensures ToGoType(index, t, p) != Some(Made(t, n, false)) || ToGoType(index, t, q) != Some(Made(t, n, true))
  {
    ZeroDigits(WORD);
    MaxIntInWord();
    WordValue(w);
    hide NumWord, Power256, FromBigEndian, ToGoType, UnpackFields;
    if t.StringTy? || t.BytesTy? || t.SliceTy? {
      CountRead(t, index, at, p);
      CountRead(t, index, at, q);
    } else {
      ListMisread(t, n, index, at, p, q, w);
    }
  }

  lemma ListMisread(t: Ty, n: nat, index: nat, at: nat, p: Bytes, q: Bytes, w: nat)
    requires Formed(t) && Dynamic(t) && IsList(t) && !t.SliceTy? && |p| == |q| <= MAX_INT64
    requires index + WORD <= |p| && p[index..index + WORD] == q[index..index + WORD] == NumWord(at)
    requires at + WORD <= |p| && p[at..at + WORD] == q[at..at + WORD]
    requires p[at..at + WORD] == Padding(WORD) || p[at..at + WORD] == NumWord(w)
    requires w <= MAX_INT64 && (at + w <= |p| ==> p[at + w..] == q[at + w..])
    ensures ToGoType(index, t, p) != Some(Made(t, n, false)) || ToGoType(index, t, q) != Some(Made(t, n, true))
  {
    hide NumWord, Power256, FromBigEndian, ToGoType, UnpackFields, Padding, LeadZero, SameLead, Made, MadeAll, Formed, AllFormed, Dynamic, TypeSize;
    var ts := Parts(t, n + 1);
    PartsFormed(t, n + 1);
    MadeIs(t, n);
    ToList(t, index, p, at, n + 1);
    ToList(t, index, q, at, n + 1);
    var a, b := p[at..], q[at..];
    assert a[..WORD] == p[at..at + WORD] && b[..WORD] == q[at..at + WORD] && b[0..WORD] == b[..WORD];
    FieldAt(ts, 0, a, 0);
    FieldAt(ts, 0, b, 0);
    assert ts[..0] == [];
    MadeAllIs(ts, n, false);
    MadeAllIs(ts, n, true);
    FirstMisread(ts[0], n, a, b, w, at, p, q);
  }

  lemma FirstMisread(t: Ty, n: nat, a: Bytes, b: Bytes, w: nat, at: nat, p: Bytes, q: Bytes)
    requires Formed(t) && at <= |p| == |q| && a == p[at..] && b == q[at..] && WORD <= |a| <= MAX_INT64 && a[..WORD] == b[..WORD]
    requires b[..WORD] == Padding(WORD) || b[..WORD] == NumWord(w)
    requires w <= MAX_INT64 && (at + w <= |p| ==> p[at + w..] == q[at + w..])
    ensures ToGoType(0, t, a) != Some(Made(t, n, false)) || ToGoType(0, t, b) != Some(Made(t, n, true))
  {
    hide NumWord, ToGoType, Padding, LeadZero, SameLead, Made;
    MarkIsNotZero(t, n);
    MarkShows(t, n);
    if b[..WORD] == Padding(WORD) {
      assert b[0..WORD] == b[..WORD];
      ZeroRead(t, 0, b);
    } else if Dynamic(t) {
      if w <= |a| { assert a[w..] == p[at + w..] && b[w..] == q[at + w..]; }
      ReadBehind(t, a, b, w);
    } else {
      LeadRead(t, a, b);
    }
  }

  // ---------------------------------------------------------------------------------
  // Lists whose sizes are wrong
  // ---------------------------------------------------------------------------------

  lemma {:induction false} TotalSplit(ts: seq<Ty>, k: nat)
    requires k < |ts|
    ensures TotalSize(ts) == TotalSize(ts[..k]) + TypeSize(ts[k]) + TotalSize(ts[k + 1..])
    ensures HeadTotal(ts) == HeadTotal(ts[..k]) + HeadBytes(ts[k]) + HeadTotal(ts[k + 1..])
    decreases k
  {
    hide TypeSize, HeadBytes;
    if k > 0 {
      TotalSplit(ts[1..], k - 1);
      assert ts[1..][..k - 1] == ts[..k][1..] && ts[1..][k..] == ts[k + 1..];
    } else {
      assert ts[..0] == [];
    }
  }

  lemma {:induction false} ExactTotal(ts: seq<Ty>)
    requires forall i :: 0 <= i < |ts| ==> Exact(ts[i])
    ensures TotalSize(ts) == HeadTotal(ts)
    decreases |ts|
  {
    if ts != [] { ExactTotal(ts[1..]); }
  }

  lemma {:induction false} NoDynamic(ts: seq<Ty>)
    requires forall i :: 0 <= i < |ts| ==> !Dynamic(ts[i])
    ensures !AnyDynamic(ts)
    decreases |ts|
  {
    if ts != [] { NoDynamic(ts[1..]); }
  }

  /** A type of the wrong size makes the total wrong. */
  lemma InexactTotal(ts: seq<Ty>, k: nat)
    requires AllFormed(ts) && k < |ts| && !Exact(ts[k])
    ensures !Dynamic(ts[k]) && TotalSize(ts) + WORD <= HeadTotal(ts)
  {
    hide TypeSize, HeadBytes, TotalSize, HeadTotal, Formed, AllFormed;
    AllFormedAt(ts, k);
    FormedSplit(ts, k);
    FormedSplit(ts, k + 1);
    SizeIsWords(ts[k]);
    TotalIsWords(ts);
    TotalIsWords(ts[..k]);
    TotalIsWords(ts[k + 1..]);
    TotalSplit(ts, k);
  }

  /** The field behind the first wrong size is read from a word of zeros. */
  lemma BehindWrong(ts: seq<Ty>, n: nat, r: Bytes)
    requires AllFormed(ts) && FirstInexact(ts) + 1 < |ts| && FirstInexact(ts) <= FirstDynamic(ts)
    requires var vs := MadeAll(ts, n, false)[FirstInexact(ts) + 1 := Made(ts[FirstInexact(ts) + 1], n, true)];
             AllFit(ts, vs) && |PackList(ts, vs) + r| <= MAX_INT64
    ensures var vs := MadeAll(ts, n, false)[FirstInexact(ts) + 1 := Made(ts[FirstInexact(ts) + 1], n, true)];
            UnpackFields(ts, 0, PackList(ts, vs) + r) != Some(vs)
  {
    hide Made, MadeAll, Formed, AllFormed, Fits, AllFit, PackFields, UnpackFields, ToGoType, TypeSize, HeadBytes, TotalSize, HeadTotal,
      FieldHeads, FieldTails, NumWord, FirstInexact, FirstDynamic, Padding, LeadZero;
    var i := FirstInexact(ts);
    var j := i + 1;
    var vs := MadeAll(ts, n, false)[j := Made(ts[j], n, true)];
    var s := PackList(ts, vs) + r;
    AllFormedAt(ts, j);
    MadeFits(ts[j], n, true);
    PackedAround(ts, n, j, Made(ts[j], n, true));
    FormedSplit(ts, j);
    InexactTotal(ts[..j], i);
    TotalIsWords(ts[..j]);
    assert ts[..j][i] == ts[i];
    NoDynamic(ts[..j]);
    MadeAllFits(ts[..j], n, false);
    ZeroHeads(ts[..j], n, TotalSize(ts));
    var around := AroundField(ts, n, j, |TailOf(ts[j], Made(ts[j], n, true))|);
    var at := TotalSize(ts[..j]);
    StartsWith(s, around.h1, HeadOf(ts[j], Made(ts[j], n, true), TotalSize(ts) + |around.t1|), around.h2,
               around.t1 + TailOf(ts[j], Made(ts[j], n, true)) + around.t2, r);
    ZeroPrefix(s, HeadTotal(ts[..j]), at);
    ZeroPrefix(s, HeadTotal(ts[..j]), 0);
    FieldAt(ts, 0, s, j);
    ZeroRead(ts[j], at, s);
    MarkIsNotZero(ts[j], n);
  }

  lemma StartsWith(s: Bytes, a: Bytes, b: Bytes, c: Bytes, d: Bytes, r: Bytes)
    requires s == a + b + c + d + r
    ensures a <= s
  {
  }

  lemma ZeroPrefix(s: Bytes, k: nat, at: nat)
    requires Padding(k) <= s && at + WORD <= k
    ensures ZeroWord(s, at)
  {
    assert s[at..at + WORD] == s[..k][at..at + WORD];
  }

  /** A dynamic field before the first wrong size is looked for too early. */
  lemma BeforeWrong(ts: seq<Ty>, n: nat, r: Bytes)
    requires AllFormed(ts) && FirstDynamic(ts) < FirstInexact(ts) < |ts| && HeadTotal(ts) <= WORD * n
    requires AllFit(ts, MarkedAt(ts, n, FirstDynamic(ts), false)) && AllFit(ts, MarkedAt(ts, n, FirstDynamic(ts), true))
    requires |PackList(ts, MarkedAt(ts, n, FirstDynamic(ts), false)) + r| <= MAX_INT64
    ensures var d := FirstDynamic(ts);
            var a, b := MarkedAt(ts, n, d, false), MarkedAt(ts, n, d, true);
            UnpackFields(ts, 0, PackList(ts, a) + r) != Some(a) || UnpackFields(ts, 0, PackList(ts, b) + r) != Some(b)
  {
    hide Made, MadeAll, Formed, AllFormed, Fits, AllFit, PackFields, UnpackFields, ToGoType, TypeSize, HeadBytes, TotalSize, HeadTotal,
      FieldHeads, FieldTails, NumWord, FirstInexact, FirstDynamic, Padding, PackList, Pack, Twins, AroundField, MarkedAt, Dynamic;
    var d := FirstDynamic(ts);
    var p, q := PackList(ts, MarkedAt(ts, n, d, false)) + r, PackList(ts, MarkedAt(ts, n, d, true)) + r;
    var w := OutputsAgree(ts, n, r);
    DynamicAt(ts, d);
    DynamicMisread(ts[d], n, HeadTotal(ts[..d]), TotalSize(ts), p, q, w);
    if UnpackFields(ts, 0, p) == Some(MarkedAt(ts, n, d, false)) && UnpackFields(ts, 0, q) == Some(MarkedAt(ts, n, d, true)) {
      FieldRead(ts, n, d, false, p);
      FieldRead(ts, n, d, true, q);
    }
  }

  /** Field d is read at the end of the heads before it. */
  lemma FieldRead(ts: seq<Ty>, n: nat, d: nat, mark: bool, s: Bytes)
    requires AllFormed(ts) && d < |ts| && |s| <= MAX_INT64 && TotalSize(ts[..d]) == HeadTotal(ts[..d])
    requires Formed(ts[d]) && UnpackFields(ts, 0, s) == Some(MarkedAt(ts, n, d, mark))
    ensures ToGoType(HeadTotal(ts[..d]), ts[d], s) == Some(Made(ts[d], n, mark))
  {
    hide Made, MadeAll, Formed, AllFormed, UnpackFields, ToGoType, TypeSize, HeadBytes, TotalSize, HeadTotal;
    FieldAt(ts, 0, s, d);
  }

  lemma DynamicAt(ts: seq<Ty>, d: nat)
    requires AllFormed(ts) && d == FirstDynamic(ts) < |ts|
    ensures Formed(ts[d]) && Dynamic(ts[d]) && forall i :: 0 <= i < d ==> !Dynamic(ts[i])
  {
    hide Formed, AllFormed, Dynamic;
    AllFormedAt(ts, d);
  }

  /** The output around field d, which is the first dynamic one. */
  lemma OutputIs(ts: seq<Ty>, n: nat, d: nat, mark: bool, own: nat, r: Bytes)
    requires AllFormed(ts) && d == FirstDynamic(ts) < |ts| && AllFit(ts, MarkedAt(ts, n, d, mark))
    requires Formed(ts[d]) && Fits(ts[d], Made(ts[d], n, mark)) && own == |Pack(ts[d], Made(ts[d], n, mark))|
    ensures var around, u := AroundField(ts, n, d, own), Pack(ts[d], Made(ts[d], n, mark));
            |around.h1| == HeadTotal(ts[..d]) &&
            PackList(ts, MarkedAt(ts, n, d, mark)) + r == around.h1 + NumWord(TotalSize(ts)) + around.h2 + ([] + u + around.t2) + r
  {
    hide Made, MadeAll, Formed, AllFormed, Fits, AllFit, PackFields, TypeSize, HeadBytes, TotalSize, HeadTotal,
      FieldHeads, FieldTails, NumWord, FirstDynamic, Padding, PackList, Pack, AroundField, Dynamic;
    DynamicAt(ts, d);
    MadeFits(ts[d], n, mark);
    NoTailsBefore(ts, n, d, own);
    PackedAround(ts, n, d, Made(ts[d], n, mark));
  }

  /** The two outputs agree where field d is read and where it is looked for, and behind it. */
  lemma OutputsAgree(ts: seq<Ty>, n: nat, r: Bytes) returns (w: nat)
    requires AllFormed(ts) && FirstDynamic(ts) < FirstInexact(ts) < |ts| && HeadTotal(ts) <= WORD * n
    requires AllFit(ts, MarkedAt(ts, n, FirstDynamic(ts), false)) && AllFit(ts, MarkedAt(ts, n, FirstDynamic(ts), true))
    requires |PackList(ts, MarkedAt(ts, n, FirstDynamic(ts), false)) + r| <= MAX_INT64
    ensures var d := FirstDynamic(ts);
            var p, q := PackList(ts, MarkedAt(ts, n, d, false)) + r, PackList(ts, MarkedAt(ts, n, d, true)) + r;
            var i, at := HeadTotal(ts[..d]), TotalSize(ts);
            TotalSize(ts[..d]) == i && |p| == |q| && i + WORD <= at && at + WORD <= |p| &&
            p[i..i + WORD] == q[i..i + WORD] == NumWord(at) && p[at..at + WORD] == q[at..at + WORD] &&
            (p[at..at + WORD] == Padding(WORD) || p[at..at + WORD] == NumWord(w)) &&
            WORD * (n + 1) <= w <= MAX_INT64 && (at + w <= |p| ==> p[at + w..] == q[at + w..])
  {
    hide Made, MadeAll, Formed, AllFormed, Fits, AllFit, PackFields, UnpackFields, ToGoType, TypeSize, HeadBytes, TotalSize, HeadTotal,
      FieldHeads, FieldTails, NumWord, FirstInexact, FirstDynamic, Padding, PackList, Pack, Twins, AroundField, MarkedAt, Dynamic;
    var d := FirstDynamic(ts);
    var t := ts[d];
    DynamicAt(ts, d);
    MadeFits(t, n, false);
    MadeFits(t, n, true);
    var u, v := Pack(t, Made(t, n, false)), Pack(t, Made(t, n, true));
    MadeTwins(t, n);
    MadeSize(t, n, false);
    var own := |u|;
    var around := AroundField(ts, n, d, own);
    OutputIs(ts, n, d, false, own, r);
    OutputIs(ts, n, d, true, own, r);
    SizesBefore(ts, d);
    var h;
    h, w := WordBeyond(ts, n, d, own);
    var i, at := HeadTotal(ts[..d]), TotalSize(ts);
    TwoOutputs(around.h1, NumWord(at), h, u, v, around.t2, r, i, at - i - WORD, w, WORD * n);
  }

  /** Two outputs that differ in one tail only, the ends of which are the same. */
  lemma TwoOutputs(h1: Bytes, b: Bytes, h: Bytes, u: Bytes, v: Bytes, t2: Bytes, r: Bytes, i: nat, k: nat, w: nat, m: nat)
    requires i == |h1| && |b| == WORD && k + WORD <= |h| && Twins(u, v, m) && i + WORD + |h| <= m && i + WORD + k + |u| <= w
    ensures var p, q := h1 + b + h + ([] + u + t2) + r, h1 + b + h + ([] + v + t2) + r;
            var at := i + WORD + k;
            |p| == |q| && at + WORD <= |p| && p[i..i + WORD] == q[i..i + WORD] == b &&
            p[at..at + WORD] == q[at..at + WORD] == h[k..k + WORD] && (at + w <= |p| ==> p[at + w..] == q[at + w..])
  {
    hide Twins;
    var p, q := h1 + b + h + ([] + u + t2) + r, h1 + b + h + ([] + v + t2) + r;
    var x, z, at := h1 + b + h, t2 + r, i + WORD + k;
    Regrouped(h1, b, h, u, t2, r);
    Regrouped(h1, b, h, v, t2, r);
    HeadsOf(p, x, u + z, i, k, h1, b, h);
    HeadsOf(q, x, v + z, i, k, h1, b, h);
    TwinsAround(x, x, u, v, z, m);
    if at + w <= |p| {
      TwinsLess(p, q, m + |z|, |p| - (at + w));
      TwinsMeans(p, q, at + w);
    }
    TwinsMeans(p, q, |p| - (m + |z|));
  }

  lemma TwinsMeans(p: Bytes, q: Bytes, at: nat)
    requires at <= |p| && Twins(p, q, |p| - at)
    ensures |p| == |q| && p[at..] == q[at..]
  {
    assert |p| - (|p| - at) == at;
  }

  /** Unmarked values but for field d. */
  function MarkedAt(ts: seq<Ty>, n: nat, d: nat, mark: bool): (vs: seq<Val>)
    requires d < |ts|
  {
    MadeAll(ts, n, false)[d := Made(ts[d], n, mark)]
  }

  lemma Regrouped(a: Bytes, b: Bytes, c: Bytes, p: Bytes, t: Bytes, r: Bytes)
    ensures a + b + c + ([] + p + t) + r == a + b + c + p + (t + r)
    ensures a + b + c + p + (t + r) == (a + b + c) + (p + (t + r))
  {
    assert [] + p + t == p + t;
  }

  /** The words at two places of the heads. */
  lemma HeadsOf(s: Bytes, x: Bytes, rest: Bytes, i: nat, k: nat, a: Bytes, b: Bytes, c: Bytes)
    requires s == x + rest && x == a + b + c && i == |a| && |b| == WORD && k + WORD <= |c|
    ensures i + WORD <= |s| && s[i..i + WORD] == b
    ensures var at := i + WORD + k; at + WORD <= |s| && s[at..at + WORD] == c[k..k + WORD]
  {
  }

  /** Before the first dynamic field there are no tails. */
  lemma NoTailsBefore(ts: seq<Ty>, n: nat, d: nat, own: nat)
    requires AllFormed(ts) && d < |ts| && forall i :: 0 <= i < d ==> !Dynamic(ts[i])
    ensures AroundField(ts, n, d, own).t1 == []
  {
    hide Made, MadeAll, Formed, Fits, FieldHeads, FieldTails;
    FormedSplit(ts, d);
    MadeAllFits(ts[..d], n, false);
    NoDynamic(ts[..d]);
    HeadsLength(ts[..d], MadeAll(ts[..d], n, false), TotalSize(ts));
  }

  /** The fields before a dynamic one before the first wrong size stand where they should. */
  lemma SizesBefore(ts: seq<Ty>, d: nat)
    requires AllFormed(ts) && d == FirstDynamic(ts) < FirstInexact(ts) < |ts|
    ensures TotalSize(ts[..d]) == HeadTotal(ts[..d]) && HeadTotal(ts[..d]) + WORD <= TotalSize(ts)
    ensures TotalSize(ts) + WORD <= HeadTotal(ts) && HeadTotal(ts) == HeadTotal(ts[..d]) + WORD + HeadTotal(ts[d + 1..])
    ensures TotalSize(ts) % WORD == 0 && HeadTotal(ts[..d]) % WORD == 0
  {
    hide TypeSize, HeadBytes, TotalSize, HeadTotal, Formed, AllFormed, FirstInexact, FirstDynamic, Dynamic;
    ExactTotal(ts[..d]);
    AllFormedAt(ts, d);
    SizeIsWords(ts[d]);
    TotalSplit(ts, d);
    InexactTotal(ts, FirstInexact(ts));
    FormedSplit(ts, d);
    TotalIsWords(ts[..d]);
    TotalIsWords(ts);
  }

  /** What stands where a dynamic field is looked for: zero or the offset of a later field, which lies
      beyond the field. */
  lemma WordBeyond(ts: seq<Ty>, n: nat, d: nat, own: nat) returns (h: Bytes, w: nat)
    requires AllFormed(ts) && d == FirstDynamic(ts) < FirstInexact(ts) < |ts|
    ensures var around := AroundField(ts, n, d, own);
            var q := TotalSize(ts) - HeadTotal(ts[..d]) - WORD;
            h == around.h2 && |h| == HeadTotal(ts[d + 1..]) && 0 <= q && q + WORD <= |h| &&
            TotalSize(ts) + own <= w <= TotalSize(ts) + own + |around.t2| &&
            (h[q..q + WORD] == Padding(WORD) || h[q..q + WORD] == NumWord(w))
  {
    hide TypeSize, HeadBytes, TotalSize, HeadTotal, Formed, AllFormed, FirstInexact, FirstDynamic, Dynamic, Made, MadeAll, Fits, AllFit,
      FieldHeads, FieldTails, Padding, NumWord;
    SizesBefore(ts, d);
    NoTailsBefore(ts, n, d, own);
    FormedSplit(ts, d + 1);
    MadeAllFits(ts[d + 1..], n, false);
    h := AroundField(ts, n, d, own).h2;
    WordsApart(TotalSize(ts), HeadTotal(ts[..d]));
    w := HeadWord(ts[d + 1..], n, TotalSize(ts) + own, TotalSize(ts) - HeadTotal(ts[..d]) - WORD);
  }

  // ---------------------------------------------------------------------------------
  // Every list that is not good
  // ---------------------------------------------------------------------------------

  /** n words are more than the heads of any list inside t whose sizes are wrong. */
  predicate Reach(t: Ty, n: nat)
    decreases t, 0
  {
    match t
    case SliceTy(elem) => Reach(elem, n)
    case ArrayTy(_, elem) => Reach(elem, n)
    case TupleTy(elems) => ReachList(elems, n)
    case _ => true
  }

  predicate ReachList(ts: seq<Ty>, n: nat)
    decreases ts, 1
  {
    ReachAll(ts, n) && (AnyDynamic(ts) && !Even(ts) ==> HeadTotal(ts) <= WORD * n)
  }

  predicate ReachAll(ts: seq<Ty>, n: nat)
    decreases ts, 0
  {
    ts == [] || (Reach(ts[0], n) && ReachAll(ts[1..], n))
  }

  lemma {:induction false} ReachAt(ts: seq<Ty>, n: nat, k: nat)
    requires ReachAll(ts, n) && k < |ts|
    ensures Reach(ts[k], n)
    decreases k
  {
    if k > 0 { ReachAt(ts[1..], n, k - 1); }
  }

  lemma {:induction false} ReachCopies(elem: Ty, n: nat, k: nat)
    requires Reach(elem, n)
    ensures ReachAll(Copies(elem, k), n)
    decreases k
  {
    if k > 0 {
      assert Copies(elem, k)[1..] == Copies(elem, k - 1);
      ReachCopies(elem, n, k - 1);
    }
  }

  /** The parts of a bad list type are not good fields. */
  lemma BadParts(t: Ty, n: nat)
    requires Formed(t) && IsList(t) && Reach(t, n)
    ensures AllFormed(Parts(t, 2)) && ReachList(Parts(t, 2), n)
    ensures !Good(t) ==> !GoodFields(Parts(t, 2))
  {
    PartsFormed(t, 2);
    if !t.TupleTy? {
      var k := if t.SliceTy? then 2 else t.count;
      CopiesAre(t.elem, k);
      ReachCopies(t.elem, n, k);
      SizeIsWords(t.elem);
    }
  }

  /** Marked and unmarked, a bad list is packed to the same length. */
  lemma {:induction false} BadLength(t: Ty, n: nat)
    requires Formed(t) && Fits(t, Bad(t, n, false)) && Fits(t, Bad(t, n, true))
    ensures |Pack(t, Bad(t, n, false))| == |Pack(t, Bad(t, n, true))|
    decreases Rank(t), 0
  {
    if IsList(t) {
      var ts := Parts(t, 2);
      PartsFormed(t, 2);
      BadIs(t, n);
      PackIsList(t, BadAll(ts, n, false), 2);
      PackIsList(t, BadAll(ts, n, true), 2);
      BadAllLength(ts, n);
    } else {
      MadeTwins(t, n);
    }
  }

  lemma BadIs(t: Ty, n: nat)
    requires IsList(t)
    ensures Bad(t, n, false) == Many(BadAll(Parts(t, 2), n, false))
    ensures Bad(t, n, true) == Many(BadAll(Parts(t, 2), n, true))
  {
  }

  /** The marked field. */
  function SpotVal(ts: seq<Ty>, n: nat, mark: bool): (v: Val)
    requires Spot(ts) < |ts|
  {
    if Even(ts) then Bad(ts[Spot(ts)], n, mark) else Made(ts[Spot(ts)], n, mark)
  }

  lemma BadAllIs(ts: seq<Ty>, n: nat, mark: bool)
    requires Spot(ts) < |ts|
    ensures BadAll(ts, n, mark) == MadeAll(ts, n, false)[Spot(ts) := SpotVal(ts, n, mark)]
  {
  }

  lemma {:induction false} BadAllLength(ts: seq<Ty>, n: nat)
    requires AllFormed(ts) && AllFit(ts, BadAll(ts, n, false)) && AllFit(ts, BadAll(ts, n, true))
    ensures |PackList(ts, BadAll(ts, n, false))| == |PackList(ts, BadAll(ts, n, true))|
    decreases RankAll(ts), 1
  {
    hide Made, Bad, MadeAll, Formed, AllFormed, Fits, AllFit, PackFields, PackList, Pack, Spot, Even, AroundField, TotalSize, HeadTotal;
    if Spot(ts) < |ts| {
      hide BadAll;
      var j := Spot(ts);
      RankAt(ts, j);
      AllFormedAt(ts, j);
      BadAllIs(ts, n, false);
      BadAllIs(ts, n, true);
      MadeFits(ts[j], n, false);
      MadeFits(ts[j], n, true);
      BadFits(ts[j], n, false);
      BadFits(ts[j], n, true);
      if Even(ts) { BadLength(ts[j], n); } else { MadeTwins(ts[j], n); }
      PackedAround(ts, n, j, SpotVal(ts, n, false));
      PackedAround(ts, n, j, SpotVal(ts, n, true));
    }
  }

  /** Not both values of a list that is not good are read back, whatever follows them. */
  lemma {:induction false} ListFails(ts: seq<Ty>, n: nat, r: Bytes)
    requires AllFormed(ts) && !GoodFields(ts) && ReachList(ts, n)
    requires AllFit(ts, BadAll(ts, n, false)) && AllFit(ts, BadAll(ts, n, true))
    requires |PackList(ts, BadAll(ts, n, false)) + r| <= MAX_INT64
    ensures UnpackFields(ts, 0, PackList(ts, BadAll(ts, n, false)) + r) != Some(BadAll(ts, n, false)) ||
            UnpackFields(ts, 0, PackList(ts, BadAll(ts, n, true)) + r) != Some(BadAll(ts, n, true))
    decreases RankAll(ts), 1
  {
    hide Made, Bad, BadAll, MadeAll, Formed, AllFormed, Fits, AllFit, PackFields, PackList, Pack, UnpackFields, FirstInexact, FirstDynamic,
      TotalSize, HeadTotal, FirstBad, AllGood, Steady;
    SpotInside(ts);
    FirstsAre(ts);
    BadAllIs(ts, n, false);
    BadAllIs(ts, n, true);
    BadAllLength(ts, n);
    if Even(ts) {
      FieldFails(ts, n, r);
    } else if FirstDynamic(ts) < FirstInexact(ts) {
      BeforeWrong(ts, n, r);
    } else {
      BehindWrong(ts, n, r);
    }
  }

  /** A bad field in a list whose sizes are right is read where it stands. */
  lemma {:induction false} FieldFails(ts: seq<Ty>, n: nat, r: Bytes)
    requires AllFormed(ts) && Even(ts) && FirstBad(ts) < |ts| && ReachList(ts, n)
    requires AllFit(ts, BadAll(ts, n, false)) && AllFit(ts, BadAll(ts, n, true))
    requires |PackList(ts, BadAll(ts, n, false)) + r| <= MAX_INT64
    ensures UnpackFields(ts, 0, PackList(ts, BadAll(ts, n, false)) + r) != Some(BadAll(ts, n, false)) ||
            UnpackFields(ts, 0, PackList(ts, BadAll(ts, n, true)) + r) != Some(BadAll(ts, n, true))
    decreases RankAll(ts), 0
  {
    hide Made, Bad, BadAll, MadeAll, Formed, AllFormed, Fits, AllFit, PackFields, PackList, Pack, UnpackFields, ToGoType, Good,
      TotalSize, HeadTotal, FirstBad, Reach, ReachAll, AroundField;
    var j := FirstBad(ts);
    var t := ts[j];
    RankAt(ts, j);
    AllFormedAt(ts, j);
    ReachAt(ts, n, j);
    BadIsList(t);
    BadFits(t, n, false);
    BadFits(t, n, true);
    BadLength(t, n);
    BadAllIs(ts, n, false);
    BadAllIs(ts, n, true);
    BadIs(t, n);
    BadParts(t, n);
    var us := Parts(t, 2);
    BadAllFits(us, n, false);
    BadAllFits(us, n, true);
    var around := AroundField(ts, n, j, |TailOf(t, Bad(t, n, false))|);
    var behind := if Dynamic(t) then around.t2 + r else around.h2 + (around.t1 + around.t2) + r;
    BadAllLength(ts, n);
    BlockRead(ts, n, r, false);
    BlockRead(ts, n, r, true);
    ListFails(us, n, behind);
  }

  lemma BadIsList(t: Ty)
    requires !Good(t)
    ensures IsList(t)
  {
  }

  /** If the list is read back, the fields of its bad field are read back from where they stand. */
  lemma BlockRead(ts: seq<Ty>, n: nat, r: Bytes, mark: bool)
    requires AllFormed(ts) && Even(ts) && FirstBad(ts) < |ts| && IsList(ts[FirstBad(ts)]) && AllFit(ts, BadAll(ts, n, mark))
    requires |PackList(ts, BadAll(ts, n, mark)) + r| <= MAX_INT64
    ensures var t := ts[FirstBad(ts)];
            Formed(t) && Fits(t, Bad(t, n, mark)) && AllFormed(Parts(t, 2)) && AllFit(Parts(t, 2), BadAll(Parts(t, 2), n, mark)) &&
            var around := AroundField(ts, n, FirstBad(ts), |TailOf(t, Bad(t, n, mark))|);
            var behind := if Dynamic(t) then around.t2 + r else around.h2 + (around.t1 + around.t2) + r;
            var own := PackList(Parts(t, 2), BadAll(Parts(t, 2), n, mark)) + behind;
            |own| <= MAX_INT64 &&
            (UnpackFields(ts, 0, PackList(ts, BadAll(ts, n, mark)) + r) == Some(BadAll(ts, n, mark)) ==>
               UnpackFields(Parts(t, 2), 0, own) == Some(BadAll(Parts(t, 2), n, mark)))
  {
    hide Made, Bad, BadAll, MadeAll, Formed, AllFormed, Fits, AllFit, PackFields, PackList, Pack, UnpackFields, ToGoType, Good,
      TotalSize, HeadTotal, FirstBad, AroundField, NumWord, Power256, FromBigEndian, Even;
    var j := FirstBad(ts);
    var t := ts[j];
    var v := Bad(t, n, mark);
    var us := Parts(t, 2);
    var vs := BadAll(us, n, mark);
    AllFormedAt(ts, j);
    BadFits(t, n, mark);
    BadAllIs(ts, n, mark);
    BadIs(t, n);
    PartsFormed(t, 2);
    BadAllFits(us, n, mark);
    PackIsList(t, vs, 2);
    PackedAround(ts, n, j, v);
    EvenSizes(ts, j);
    TotalSplit(ts, j);
    SizeIsWords(t);
    var around := AroundField(ts, n, j, |TailOf(t, v)|);
    var s := PackList(ts, BadAll(ts, n, mark)) + r;
    var at := TotalSize(ts) + |around.t1|;
    FieldAt(ts, 0, s, j);
    if Dynamic(t) {
      DynamicBlock(s, around.h1, NumWord(at), around.h2, around.t1, Prefix(t, 2), PackList(us, vs), around.t2, r);
      MaxIntInWord();
      WordValue(2);
      ToList(t, |around.h1|, s, at, 2);
    } else {
      StaticSize(t, v);
      StaticBlock(s, around.h1, PackList(us, vs), around.h2, around.t1, around.t2, r);
      ToList(t, |around.h1|, s, 0, 2);
    }
  }

  /** In a list whose sizes are right everything before a field, and all heads before a tail, are. */
  lemma EvenSizes(ts: seq<Ty>, j: nat)
    requires AllFormed(ts) && Even(ts) && j < |ts|
    ensures TotalSize(ts[..j]) == HeadTotal(ts[..j])
    ensures Dynamic(ts[j]) ==> TotalSize(ts) == HeadTotal(ts)
  {
    hide TypeSize, HeadBytes, TotalSize, HeadTotal, FirstDynamic, Dynamic;
    SteadyAt(ts, j);
    ExactTotal(ts[..j]);
    FirstsAre(ts);
    if Dynamic(ts[j]) { SomeDynamic(ts, j); }
  }

  lemma {:induction false} SteadyAt(ts: seq<Ty>, j: nat)
    requires Steady(ts) && j < |ts|
    ensures forall i :: 0 <= i < j ==> Exact(ts[i])
    decreases j
  {
    hide Exact;
    if j > 0 {
      SteadyAt(ts[1..], j - 1);
      forall i | 0 <= i < j ensures Exact(ts[i]) { if i > 0 { assert ts[i] == ts[1..][i - 1]; } }
    }
  }

  lemma {:induction false} SomeDynamic(ts: seq<Ty>, j: nat)
    requires j < |ts| && Dynamic(ts[j])
    ensures AnyDynamic(ts)
    decreases j
  {
    if j > 0 { SomeDynamic(ts[1..], j - 1); }
  }

  lemma StaticBlock(s: Bytes, h1: Bytes, p: Bytes, h2: Bytes, t1: Bytes, t2: Bytes, r: Bytes)
    requires s == h1 + ([] + p) + h2 + (t1 + [] + t2) + r
    ensures s[|h1|..] == p + (h2 + (t1 + t2) + r)
  {
    assert t1 + [] + t2 == t1 + t2 && [] + p == p;
  }

  lemma DynamicBlock(s: Bytes, h1: Bytes, w: Bytes, h2: Bytes, t1: Bytes, x: Bytes, p: Bytes, t2: Bytes, r: Bytes)
    requires s == h1 + w + h2 + (t1 + (x + p) + t2) + r && |w| == WORD
    ensures s[|h1|..|h1| + WORD] == w
    ensures var at := |h1| + WORD + |h2| + |t1|;
            at + |x| <= |s| && s[at..at + |x|] == x && s[at + |x|..] == p + (t2 + r)
  {
  }

  // ---------------------------------------------------------------------------------
  // The exact condition
  // ---------------------------------------------------------------------------------

  /** All arguments of these types that fit in an output are read back. */
  ghost predicate RoundTrips(ts: seq<Ty>)
    requires AllFormed(ts)
  {
    forall vs :: AllFit(ts, vs) && |PackArguments(ts, vs)| <= MAX_INT64 ==> UnpackValues(ts, PackArguments(ts, vs)) == Some(vs)
  }

  /** Arguments are read back, whatever their values, exactly when their types are good.  For types
      that are not, an output has to have room for the values that show it. */
  lemma RoundTripsIff(ts: seq<Ty>, n: nat)
    requires AllFormed(ts) && ReachList(ts, n)
    requires AllFit(ts, BadAll(ts, n, false)) ==> |PackArguments(ts, BadAll(ts, n, false))| <= MAX_INT64
    ensures RoundTrips(ts) <==> GoodFields(ts)
  {
    hide PackArguments, UnpackValues, AllFit, Fits, BadAll, AllFormed;
    if GoodFields(ts) {
      forall vs | AllFit(ts, vs) && |PackArguments(ts, vs)| <= MAX_INT64
        ensures UnpackValues(ts, PackArguments(ts, vs)) == Some(vs)
      {
        RoundTrip(ts, vs);
      }
    } else {
      BadAllFits(ts, n, false);
      BadAllFits(ts, n, true);
      BadAllLength(ts, n);
      ArgumentsFail(ts, n);
    }
  }

  lemma ArgumentsFail(ts: seq<Ty>, n: nat)
    requires AllFormed(ts) && !GoodFields(ts) && ReachList(ts, n)
    requires AllFit(ts, BadAll(ts, n, false)) && AllFit(ts, BadAll(ts, n, true))
    requires |PackArguments(ts, BadAll(ts, n, false))| <= MAX_INT64
    ensures |PackArguments(ts, BadAll(ts, n, true))| <= MAX_INT64
    ensures UnpackValues(ts, PackArguments(ts, BadAll(ts, n, false))) != Some(BadAll(ts, n, false)) ||
            UnpackValues(ts, PackArguments(ts, BadAll(ts, n, true))) != Some(BadAll(ts, n, true))
  {
    hide BadAll, AllFit, Fits, PackFields, UnpackFields, GoodFields;
    var p, q := PackList(ts, BadAll(ts, n, false)), PackList(ts, BadAll(ts, n, true));
    assert p + [] == p && q + [] == q;
    BadAllLength(ts, n);
    ListFails(ts, n, []);
  }
}
