/** Packed values in the contract ABI of accounts/abi: lists as heads followed by tails, the bytes of
    every kind of value, the loops of the source, and reading back what was written. */
module AbiRoundTrip {
  import opened Wrappers
  import opened Rlp
  import opened RlpRaw
  import opened Abi
  import Words

  /** n fields of one type. */
  function Copies(elem: Ty, n: nat): (ts: seq<Ty>)
    ensures |ts| == n && forall i :: 0 <= i < n ==> ts[i] == elem
  {
    if n == 0 then [] else [elem] + Copies(elem, n - 1)
  }

  /** How deep a type is nested; a list is as deep as its deepest type, however long. */
  function Rank(t: Ty): (n: nat)
    decreases t, 0
  {
    match t
    case SliceTy(elem) => 1 + Rank(elem)
    case ArrayTy(_, elem) => 1 + Rank(elem)
    case TupleTy(elems) => 1 + RankAll(elems)
    case _ => 0
  }

  function RankAll(ts: seq<Ty>): (n: nat)
    decreases ts, 0
  {
    if ts == [] then 0
    else if Rank(ts[0]) > RankAll(ts[1..]) then Rank(ts[0]) else RankAll(ts[1..])
  }

  lemma {:induction false} RankAt(ts: seq<Ty>, k: nat)
    requires k < |ts|
    ensures Rank(ts[k]) <= RankAll(ts)
    decreases k
  {
    if k > 0 { RankAt(ts[1..], k - 1); }
  }

  lemma {:induction false} RankCopies(elem: Ty, n: nat)
    ensures RankAll(Copies(elem, n)) <= Rank(elem)
    decreases n
  {
    if n > 0 {
      assert Copies(elem, n)[1..] == Copies(elem, n - 1);
      RankCopies(elem, n - 1);
    }
  }

  lemma {:induction false} AllFormedAt(ts: seq<Ty>, k: nat)
    requires AllFormed(ts) && k < |ts|
    ensures Formed(ts[k])
    decreases k
  {
    if k > 0 { AllFormedAt(ts[1..], k - 1); }
  }

  lemma {:induction false} AllFitAt(ts: seq<Ty>, vs: seq<Val>, k: nat)
    requires AllFit(ts, vs) && k < |ts|
    ensures Fits(ts[k], vs[k])
    decreases k
  {
    if k > 0 { AllFitAt(ts[1..], vs[1..], k - 1); }
  }

  // ---------------------------------------------------------------------------------
  // Sizes
  // ---------------------------------------------------------------------------------

  /** Sizes are whole words; `getTypeSize` may be too small. */
  lemma {:induction false} SizeIsWords(t: Ty)
    requires Formed(t)
    ensures WORD <= TypeSize(t) <= HeadBytes(t) && TypeSize(t) % WORD == 0 && HeadBytes(t) % WORD == 0
    ensures Dynamic(t) || !(t.ArrayTy? || t.TupleTy?) ==> TypeSize(t) == HeadBytes(t) == WORD
    decreases t, 0
  {
    if !Dynamic(t) {
      match t
      case ArrayTy(n, elem) =>
        SizeIsWords(elem);
        ManyWords(n, if elem.ArrayTy? then TypeSize(elem) else WORD, HeadBytes(elem));
      case TupleTy(elems) => TotalIsWords(elems);
      case _ =>
    }
  }

  lemma ManyWords(n: nat, small: nat, large: nat)
    requires n > 0 && WORD <= small <= large && small % WORD == 0 && large % WORD == 0
    ensures WORD <= n * small <= n * large && (n * small) % WORD == 0 && (n * large) % WORD == 0
  {
    WordMultiple(n, small);
    WordMultiple(n, large);
    MulMonotone(n, small, large);
  }

  lemma {:induction false} TotalIsWords(ts: seq<Ty>)
    requires AllFormed(ts)
    ensures WORD * |ts| <= TotalSize(ts) <= HeadTotal(ts) && TotalSize(ts) % WORD == 0 && HeadTotal(ts) % WORD == 0
    decreases ts, 0
  {
    hide TypeSize, HeadBytes, Formed;
    if ts != [] {
      SizeIsWords(ts[0]);
      TotalIsWords(ts[1..]);
    }
  }

  lemma Grows(n: nat, k: nat)
    requires n > 0
    ensures n * k >= k
  {
    assert n * k == (n - 1) * k + k;
  }

  lemma MulMonotone(n: nat, a: nat, b: nat)
    requires a <= b
    ensures n * a <= n * b
  {
    assert n * b == n * a + n * (b - a);
  }

  lemma WordMultiple(n: nat, k: nat)
    requires n > 0 && k >= WORD && k % WORD == 0
    ensures n * k >= k && (n * k) % WORD == 0
  {
    var q := k / WORD;
    assert k == q * WORD;
    assert n * (q * WORD) == (n * q) * WORD;
    Words.ModUnique(n * k, WORD, n * q, 0);
    Grows(n, k);
  }

  /** What the types of a list say about a list of copies. */
  lemma {:induction false} CopiesAre(elem: Ty, n: nat)
    ensures TotalSize(Copies(elem, n)) == n * TypeSize(elem) && HeadTotal(Copies(elem, n)) == n * HeadBytes(elem)
    ensures AnyDynamic(Copies(elem, n)) <==> n > 0 && Dynamic(elem)
    ensures Formed(elem) ==> AllFormed(Copies(elem, n))
    ensures AllGood(Copies(elem, n)) <==> n == 0 || Good(elem)
    ensures Steady(Copies(elem, n)) <==> n <= 1 || Exact(elem)
    decreases n
  {
    hide TypeSize, HeadBytes, Dynamic, Formed, Good, Exact;
    if n > 0 {
      assert Copies(elem, n)[1..] == Copies(elem, n - 1);
      CopiesAre(elem, n - 1);
      assert n * TypeSize(elem) == TypeSize(elem) + (n - 1) * TypeSize(elem);
      assert n * HeadBytes(elem) == HeadBytes(elem) + (n - 1) * HeadBytes(elem);
    }
  }

  lemma {:induction false} CopiesFit(elem: Ty, vs: seq<Val>)
    ensures AllFit(Copies(elem, |vs|), vs) <==> forall i :: 0 <= i < |vs| ==> Fits(elem, vs[i])
    decreases |vs|
  {
    hide Fits;
    if vs != [] {
      assert Copies(elem, |vs|)[1..] == Copies(elem, |vs| - 1);
      CopiesFit(elem, vs[1..]);
      assert forall i :: 1 <= i < |vs| ==> vs[i] == vs[1..][i - 1];
      if forall i :: 0 <= i < |vs[1..]| ==> Fits(elem, vs[1..][i]) {
        forall i | 1 <= i < |vs| ensures Fits(elem, vs[i]) { assert vs[i] == vs[1..][i - 1]; }
      }
    }
  }

  /** The fields a value of a list type stands for. */
  function FieldsOf(t: Ty, n: nat): (ts: seq<Ty>)
    requires t.SliceTy? || t.ArrayTy? || t.TupleTy?
  {
    if t.TupleTy? then t.elems else Copies(t.elem, n)
  }

  // ---------------------------------------------------------------------------------
  // Elements as fields
  // ---------------------------------------------------------------------------------

  lemma {:induction false} EachIsFields(elem: Ty, vs: seq<Val>, offset: nat, tail: Bytes)
    requires AllFit(Copies(elem, |vs|), vs) && forall i :: 0 <= i < |vs| ==> Fits(elem, vs[i])
    ensures PackEach(elem, vs, offset, tail) == PackFields(Copies(elem, |vs|), vs, offset, tail)
    decreases |vs|
  {
    hide Pack, NumWord, Dynamic, Fits;
    if vs != [] {
      assert Copies(elem, |vs|)[1..] == Copies(elem, |vs| - 1);
      var val := Pack(elem, vs[0]);
      if Dynamic(elem) { EachIsFields(elem, vs[1..], offset + |val|, tail + val); }
      else { EachIsFields(elem, vs[1..], offset, tail); }
    }
  }

  /** Where offsets do not matter they can start anywhere. */
  lemma {:induction false} StaticOffset(ts: seq<Ty>, vs: seq<Val>, a: nat, b: nat, tail: Bytes)
    requires AllFit(ts, vs) && !AnyDynamic(ts)
    ensures PackFields(ts, vs, a, tail) == PackFields(ts, vs, b, tail)
    decreases |ts|
  {
    hide Pack, NumWord, Fits;
    if ts != [] { StaticOffset(ts[1..], vs[1..], a, b, tail); }
  }

  /** The packed elements of an array or slice are packed fields. */
  lemma ElementsAreFields(elem: Ty, vs: seq<Val>)
    requires forall i :: 0 <= i < |vs| ==> Fits(elem, vs[i])
    ensures AllFit(Copies(elem, |vs|), vs)
    ensures var ts := Copies(elem, |vs|);
            PackEach(elem, vs, Base(elem, |vs|), []) == PackFields(ts, vs, TotalSize(ts), [])
  {
    hide Pack, PackEach, PackFields, Fits, TypeSize, HeadBytes, Dynamic, TotalSize, HeadTotal, AnyDynamic, AllFit, AllFormed, AllGood, Steady, Copies;
    var ts := Copies(elem, |vs|);
    CopiesFit(elem, vs);
    CopiesAre(elem, |vs|);
    EachIsFields(elem, vs, Base(elem, |vs|), []);
    if !Dynamic(elem) { StaticOffset(ts, vs, Base(elem, |vs|), TotalSize(ts), []); }
  }

  /** The next field, in words. */
  lemma NextWord(ts: seq<Ty>, word: nat, output: Bytes)
    requires AllFormed(ts) && ts != []
    ensures UnpackFields(ts, word, output) ==
            var v := ToGoType(word * WORD, ts[0], output);
            if v.None? then None
            else
              var rest := UnpackFields(ts[1..], word + TypeSize(ts[0]) / WORD, output);
              if rest.None? then None else Some([v.value] + rest.value)
  {
    hide ToGoType, TypeSize, HeadBytes, Dynamic;
    SizeIsWords(ts[0]);
  }

  lemma {:induction false} UnpackEachIsFields(elem: Ty, word: nat, n: nat, output: Bytes)
    requires Formed(elem) && AllFormed(Copies(elem, n))
    ensures UnpackEach(elem, word * WORD, n, output) == UnpackFields(Copies(elem, n), word, output)
    decreases n
  {
    hide ToGoType, TypeSize, HeadBytes, Formed;
    if n > 0 {
      assert Copies(elem, n)[1..] == Copies(elem, n - 1);
      NextWord(Copies(elem, n), word, output);
      SizeIsWords(elem);
      var next := word + TypeSize(elem) / WORD;
      assert next * WORD == word * WORD + TypeSize(elem);
      UnpackEachIsFields(elem, next, n - 1, output);
    }
  }

  // ---------------------------------------------------------------------------------
  // Heads and tails
  // ---------------------------------------------------------------------------------

  /** The heads of a list whose first tail stands at `offset`. */
  function FieldHeads(ts: seq<Ty>, vs: seq<Val>, offset: nat): (r: Bytes)
    requires AllFit(ts, vs)
    decreases |ts|
  {
    if ts == [] then []
    else if Dynamic(ts[0]) then NumWord(offset) + FieldHeads(ts[1..], vs[1..], offset + |Pack(ts[0], vs[0])|)
    else Pack(ts[0], vs[0]) + FieldHeads(ts[1..], vs[1..], offset)
  }

  function FieldTails(ts: seq<Ty>, vs: seq<Val>): (r: Bytes)
    requires AllFit(ts, vs)
    decreases |ts|
  {
    if ts == [] then []
    else if Dynamic(ts[0]) then Pack(ts[0], vs[0]) + FieldTails(ts[1..], vs[1..])
    else FieldTails(ts[1..], vs[1..])
  }

  /** The loop that collects tails while it writes heads. */
  lemma {:induction false} FieldsAre(ts: seq<Ty>, vs: seq<Val>, offset: nat, tail: Bytes)
    requires AllFit(ts, vs)
    ensures PackFields(ts, vs, offset, tail) == FieldHeads(ts, vs, offset) + tail + FieldTails(ts, vs)
    decreases |ts|
  {
    hide Pack, NumWord, Dynamic, Fits;
    if ts != [] {
      var val := Pack(ts[0], vs[0]);
      if Dynamic(ts[0]) { FieldsAre(ts[1..], vs[1..], offset + |val|, tail + val); }
      else { FieldsAre(ts[1..], vs[1..], offset, tail); }
    }
  }

  /** Heads take what they should. */
  lemma {:induction false} HeadsLength(ts: seq<Ty>, vs: seq<Val>, offset: nat)
    requires AllFormed(ts) && AllFit(ts, vs)
    ensures |FieldHeads(ts, vs, offset)| == HeadTotal(ts)
    ensures !AnyDynamic(ts) ==> FieldTails(ts, vs) == []
    decreases RankAll(ts), 1, |ts|
  {
    hide Pack, NumWord, Digits, Fits;
    if ts != [] {
      if Dynamic(ts[0]) { HeadsLength(ts[1..], vs[1..], offset + |Pack(ts[0], vs[0])|); }
      else {
        StaticSize(ts[0], vs[0]);
        HeadsLength(ts[1..], vs[1..], offset);
      }
    }
  }

  /** A static value takes the size of its head. */
  lemma {:induction false} StaticSize(t: Ty, v: Val)
    requires Formed(t) && Fits(t, v) && !Dynamic(t)
    ensures |Pack(t, v)| == HeadBytes(t)
    decreases Rank(t), 0
  {
    match t
    case ArrayTy(n, elem) =>
      ElementsAreFields(elem, v.items);
      RankCopies(elem, n);
      CopiesAre(elem, n);
      var ts := Copies(elem, n);
      FieldsAre(ts, v.items, TotalSize(ts), []);
      HeadsLength(ts, v.items, TotalSize(ts));
    case TupleTy(elems) =>
      FieldsAre(elems, v.items, TotalSize(elems), []);
      HeadsLength(elems, v.items, TotalSize(elems));
    case _ =>
  }

  /** A packed list. */
  lemma ListIs(ts: seq<Ty>, vs: seq<Val>)
    requires AllFormed(ts) && AllFit(ts, vs)
    ensures PackFields(ts, vs, TotalSize(ts), []) == FieldHeads(ts, vs, TotalSize(ts)) + FieldTails(ts, vs)
    ensures |FieldHeads(ts, vs, TotalSize(ts))| == HeadTotal(ts)
  {
    hide Pack, PackFields, FieldHeads, FieldTails, NumWord, Fits, AllFit, Formed, AllFormed, TotalSize, HeadTotal;
    FieldsAre(ts, vs, TotalSize(ts), []);
    HeadsLength(ts, vs, TotalSize(ts));
  }

  /** The parts of a list around field k. */
  lemma {:induction false} FitsSplit(ts: seq<Ty>, vs: seq<Val>, k: nat)
    requires AllFit(ts, vs) && k < |ts|
    ensures AllFit(ts[..k], vs[..k]) && Fits(ts[k], vs[k]) && AllFit(ts[k + 1..], vs[k + 1..])
    decreases k
  {
    hide Fits;
    if k > 0 {
      FitsSplit(ts[1..], vs[1..], k - 1);
      assert ts[1..][..k - 1] == ts[..k][1..] && vs[1..][..k - 1] == vs[..k][1..];
    }
  }

  lemma {:induction false} FormedSplit(ts: seq<Ty>, k: nat)
    requires AllFormed(ts) && k <= |ts|
    ensures AllFormed(ts[..k]) && AllFormed(ts[k..])
    decreases k
  {
    hide Formed;
    if k > 0 {
      FormedSplit(ts[1..], k - 1);
      assert ts[1..][..k - 1] == ts[..k][1..] && ts[1..][k - 1..] == ts[k..];
    }
  }

  /** What stands for one field among the heads, its tail being at `at`. */
  function HeadOf(t: Ty, v: Val, at: nat): (r: Bytes)
    requires Fits(t, v)
  {
    if Dynamic(t) then NumWord(at) else Pack(t, v)
  }

  function TailOf(t: Ty, v: Val): (r: Bytes)
    requires Fits(t, v)
  {
    if Dynamic(t) then Pack(t, v) else []
  }

  lemma AllFitRest(ts: seq<Ty>, vs: seq<Val>)
    requires ts != [] && AllFit(ts, vs)
    ensures |vs| == |ts| && Fits(ts[0], vs[0]) && AllFit(ts[1..], vs[1..])
  {
  }

  lemma NoFields(ts: seq<Ty>, vs: seq<Val>, offset: nat)
    requires ts == [] && AllFit(ts, vs)
    ensures FieldHeads(ts, vs, offset) == [] && FieldTails(ts, vs) == []
  {
  }

  lemma FirstOff(ts: seq<Ty>, vs: seq<Val>, offset: nat)
    requires ts != [] && AllFit(ts, vs)
    ensures FieldTails(ts, vs) == TailOf(ts[0], vs[0]) + FieldTails(ts[1..], vs[1..])
    ensures FieldHeads(ts, vs, offset) ==
            HeadOf(ts[0], vs[0], offset) + FieldHeads(ts[1..], vs[1..], offset + |TailOf(ts[0], vs[0])|)
  {
    hide Pack, NumWord, Dynamic, Fits;
  }

  lemma {:induction false} SplitAt(ts: seq<Ty>, vs: seq<Val>, k: nat, offset: nat)
    requires AllFit(ts, vs) && k < |ts|
    requires AllFit(ts[..k], vs[..k]) && Fits(ts[k], vs[k]) && AllFit(ts[k + 1..], vs[k + 1..])
    ensures var before := FieldTails(ts[..k], vs[..k]);
            var own := TailOf(ts[k], vs[k]);
            FieldTails(ts, vs) == before + own + FieldTails(ts[k + 1..], vs[k + 1..]) &&
            FieldHeads(ts, vs, offset) ==
            FieldHeads(ts[..k], vs[..k], offset) + HeadOf(ts[k], vs[k], offset + |before|) +
            FieldHeads(ts[k + 1..], vs[k + 1..], offset + |before| + |own|)
    decreases k
  {
    hide Fits, AllFit, HeadOf, TailOf, FieldHeads, FieldTails;
    if k == 0 {
      NoFields(ts[..k], vs[..k], offset);
      FirstOff(ts, vs, offset);
    } else {
      AllFitRest(ts, vs);
      AllFitRest(ts[..k], vs[..k]);
      assert ts[1..][..k - 1] == ts[..k][1..] && vs[1..][..k - 1] == vs[..k][1..];
      assert ts[1..][k..] == ts[k + 1..] && vs[1..][k..] == vs[k + 1..];
      FirstOff(ts, vs, offset);
      FirstOff(ts[..k], vs[..k], offset);
      SplitAt(ts[1..], vs[1..], k - 1, offset + |TailOf(ts[0], vs[0])|);
    }
  }

  // =================================================================================
  // Unpacking inverts packing: every offset the packer writes leads the unpacker to the block it
  // belongs to, at any nesting.
  // =================================================================================

  // ---------------------------------------------------------------------------------
  // Words
  // ---------------------------------------------------------------------------------

  lemma ByteMod(n: nat, p: nat)
    requires p > 0
    ensures n % (256 * p) == 256 * ((n / 256) % p) + n % 256
  {
    var q, r := (n / 256) / p, (n / 256) % p;
    assert n / 256 == q * p + r;
    assert n == q * (256 * p) + (256 * r + n % 256);
    ModIs(n, 256 * p, q, 256 * r + n % 256);
  }

  lemma ModIs(x: int, m: nat, q: int, r: int)
    requires m > 0 && x == q * m + r && 0 <= r < m
    ensures x % m == r
  {
    Words.ModUnique(x, m, q, r);
  }

  /** The last j bytes are the number modulo 256^j. */
  lemma {:induction false} LastDigits(n: nat, k: nat, j: nat)
    requires j <= k
    ensures FromBigEndian(Digits(n, k)[k - j..]) == n % Power256(j)
    decreases j
  {
    var s := Digits(n, k)[k - j..];
    if j > 0 {
      LastDigits(n / 256, k - 1, j - 1);
      ByteMod(n, Power256(j - 1));
      assert s[..j - 1] == Digits(n / 256, k - 1)[(k - 1) - (j - 1)..];
      assert s[j - 1] == n % 256;
    }
  }

  lemma WordValue(n: nat)
    requires n < Power256(WORD)
    ensures FromBigEndian(NumWord(n)) == n
  {
    hide Power256, Digits, FromBigEndian;
    LastDigits(n, WORD, WORD);
    ModIs(n, Power256(WORD), 0, n);
    assert NumWord(n)[0..] == NumWord(n);
  }

  lemma MaxIntInWord()
    ensures MAX_INT64 < Power256(8) <= Power256(WORD)
  {
    assert Power256(3) == 0x100_0000;
    assert Power256(6) == 0x1_0000_0000_0000;
    PowerGrows(8, WORD);
  }

  lemma {:induction false} PowerSum(a: nat, b: nat)
    ensures Power256(a + b) == Power256(a) * Power256(b)
    decreases a
  {
    if a > 0 {
      PowerSum(a - 1, b);
      assert 256 * (Power256(a - 1) * Power256(b)) == (256 * Power256(a - 1)) * Power256(b);
    }
  }

  /** Reducing modulo 2^256 first changes nothing modulo a smaller power. */
  lemma ModOfWord(n: int, w: nat)
    requires w <= WORD && 0 <= n + Power256(w) && n < Power256(w)
    ensures (n % Power256(WORD)) % Power256(w) == if n < 0 then n + Power256(w) else n
  {
    PowerGrows(w, WORD);
    PowerSum(WORD - w, w);
    hide Power256;
    ModOfMultiple(n, Power256(w), Power256(WORD - w), Power256(WORD));
  }

  lemma ModOfMultiple(n: int, p: nat, q: nat, m: nat)
    requires p > 0 && q > 0 && m == q * p && p <= m && 0 <= n + p && n < p
    ensures (n % m) % p == if n < 0 then n + p else n
  {
    if n >= 0 {
      ModIs(n, m, 0, n);
      ModIs(n, p, 0, n);
    } else {
      ModIs(n, m, -1, n + m);
      assert (q - 1) * p == m - p;
      ModIs(n + m, p, q - 1, n + p);
    }
  }

  lemma ReadIntegerWord(signed: bool, bytes: nat, n: int)
    requires 1 <= bytes <= WORD && InRange(signed, bytes, n)
    ensures ReadInteger(signed, bytes, NumWord(n)) == n
  {
    hide Power256, Digits, FromBigEndian;
    var width := if bytes == 1 || bytes == 2 || bytes == 4 || bytes == 8 then bytes else WORD;
    PowerGrows(bytes, width);
    LastDigits(n % Power256(WORD), WORD, width);
    ModOfWord(n, width);
  }

  lemma {:induction false} ZeroDigits(k: nat)
    ensures Digits(0, k) == Padding(k)
    ensures FromBigEndian(Padding(k)) == 0
  {
    if k > 0 {
      ZeroDigits(k - 1);
      assert Padding(k) == Padding(k - 1) + [0];
      assert Padding(k)[..k - 1] == Padding(k - 1);
    }
  }

  lemma FlagWord(b: bool)
    ensures var w := NumWord(if b then 1 else 0); w[..31] == Padding(31) && w[31] == if b then 1 else 0
  {
    ZeroDigits(31);
    PowerGrows(1, WORD);
    assert Power256(1) == 256;
    var n: nat := if b then 1 else 0;
    assert n % Power256(WORD) == n by { ModIs(n, Power256(WORD), 0, n); }
    assert Digits(n, 32) == Digits(0, 31) + [n];
  }

  // ---------------------------------------------------------------------------------
  // Reading
  // ---------------------------------------------------------------------------------

  /** Value v of type t can be found from `index`: in place if static, else behind the offset
      `at` written there. */
  predicate Placed(t: Ty, v: Val, index: nat, at: nat, output: Bytes)
    requires Fits(t, v)
  {
    if !Dynamic(t) then index <= |output| && Pack(t, v) <= output[index..]
    else
      index + WORD <= |output| && output[index..index + WORD] == NumWord(at) &&
      at <= |output| && Pack(t, v) <= output[at..]
  }

  /** `toGoType` reads a placed value of a good type. */
  lemma {:induction false} Reads(t: Ty, v: Val, index: nat, at: nat, output: Bytes)
    requires Formed(t) && Good(t) && Fits(t, v) && |output| <= MAX_INT64 && Placed(t, v, index, at, output)
    ensures ToGoType(index, t, output) == Some(v)
    decreases Rank(t), 1
  {
    match t
    case TupleTy(elems) => ReadsTuple(t, v, index, at, output);
    case SliceTy(elem) => ReadsSlice(t, v, index, at, output);
    case ArrayTy(n, elem) => ReadsArray(t, v, index, at, output);
    case StringTy => ReadsBytes(t, v, index, at, output);
    case BytesTy => ReadsBytes(t, v, index, at, output);
    case _ => ReadsWord(t, v, index, output);
  }

  /** A value in one word. */
  lemma ReadsWord(t: Ty, v: Val, index: nat, output: Bytes)
    requires Formed(t) && Fits(t, v) && !Dynamic(t) && !t.TupleTy? && !t.ArrayTy?
    requires index <= |output| && Pack(t, v) <= output[index..]
    ensures ToGoType(index, t, output) == Some(v)
  {
    var w := output[index..index + WORD];
    assert w == output[index..][..WORD] == Pack(t, v);
    match t
    case IntTy(signed, n) => ReadIntegerWord(signed, n, v.n);
    case BoolTy => FlagWord(v.b);
    case AddressTy => assert w[12..] == v.bytes;
    case FixedBytesTy(n) => assert w[..n] == v.bytes;
    case FunctionTy =>
      assert w[..24] == v.bytes && w[24..] == Padding(8);
      ZeroDigits(8);
  }

  /** What `lengthPrefixPointsTo` finds: the count, and the contents behind it. */
  lemma ReadsPrefix(index: nat, at: nat, output: Bytes, n: nat, contents: Bytes)
    requires |output| <= MAX_INT64 && index + WORD <= |output| && output[index..index + WORD] == NumWord(at)
    requires at <= |output| && NumWord(n) + contents <= output[at..] && n <= |contents|
    ensures LengthPrefix(index, output) == Some((at + WORD, n))
    ensures contents <= output[at + WORD..]
  {
    hide NumWord, Digits, FromBigEndian, Power256;
    MaxIntInWord();
    WordValue(at);
    WordValue(n);
    var p := NumWord(n) + contents;
    assert output[at..at + WORD] == output[at..][..WORD] == p[..WORD] == NumWord(n);
    assert output[at + WORD..][..|contents|] == output[at..][..|p|][WORD..] == contents;
  }

  lemma SliceOfPrefix(output: Bytes, from: nat, contents: Bytes, b: Bytes)
    requires from <= |output| && contents <= output[from..] && b <= contents
    ensures from + |b| <= |output| && output[from..from + |b|] == b
  {
    assert output[from..from + |b|] == output[from..][..|contents|][..|b|];
  }

  lemma PaddedPrefix(b: Bytes, n: nat)
    ensures b <= RightPad(b, n)
  {
  }

  lemma ReadsBytes(t: Ty, v: Val, index: nat, at: nat, output: Bytes)
    requires (t.StringTy? || t.BytesTy?) && Fits(t, v) && |output| <= MAX_INT64 && Placed(t, v, index, at, output)
    ensures ToGoType(index, t, output) == Some(v)
  {
    hide FromBigEndian, Digits, NumWord, LengthPrefix, RightPad;
    var b := v.bytes;
    PaddedPrefix(b, (|b| + 31) / 32 * 32);
    var contents := RightPad(b, (|b| + 31) / 32 * 32);
    ReadsPrefix(index, at, output, |b|, contents);
    SliceOfPrefix(output, at + WORD, contents, b);
  }

  lemma ReadsTuple(t: Ty, v: Val, index: nat, at: nat, output: Bytes)
    requires t.TupleTy? && Formed(t) && Good(t) && Fits(t, v) && |output| <= MAX_INT64 && Placed(t, v, index, at, output)
    ensures ToGoType(index, t, output) == Some(v)
    decreases Rank(t), 0
  {
    hide NumWord, Digits, Power256, PackFields, UnpackFields;
    var start := if Dynamic(t) then at else index;
    ListLength(t.elems, v.items);
    TotalIsWords(t.elems);
    ListRead(t.elems, v.items, output[start..]);
    if Dynamic(t) {
      MaxIntInWord();
      WordValue(at);
    }
  }

  lemma ReadsSlice(t: Ty, v: Val, index: nat, at: nat, output: Bytes)
    requires t.SliceTy? && Formed(t) && Good(t) && Fits(t, v) && |output| <= MAX_INT64 && Placed(t, v, index, at, output)
    ensures ToGoType(index, t, output) == Some(v)
    decreases Rank(t), 0
  {
    hide NumWord, Digits, Power256, PackFields, UnpackFields, PackEach, UnpackEach, LengthPrefix;
    var n := |v.items|;
    var ts := Copies(t.elem, n);
    CopiesAre(t.elem, n);
    RankCopies(t.elem, n);
    GoodCopies(t.elem, n);
    ElementsAreFields(t.elem, v.items);
    ListLength(ts, v.items);
    var contents := PackEach(t.elem, v.items, Base(t.elem, n), []);
    ReadsPrefix(index, at, output, n, contents);
    ListRead(ts, v.items, output[at + WORD..]);
    UnpackEachIsFields(t.elem, 0, n, output[at + WORD..]);
    assert |output[at + WORD..]| >= |contents|;
  }

  lemma ReadsArray(t: Ty, v: Val, index: nat, at: nat, output: Bytes)
    requires t.ArrayTy? && Formed(t) && Good(t) && Fits(t, v) && |output| <= MAX_INT64 && Placed(t, v, index, at, output)
    ensures ToGoType(index, t, output) == Some(v)
    decreases Rank(t), 0
  {
    hide NumWord, Digits, Power256, FromBigEndian, PackFields, UnpackFields, PackEach, UnpackEach;
    var start := if Dynamic(t) then at else index;
    var n := t.count;
    var ts := Copies(t.elem, n);
    CopiesAre(t.elem, n);
    RankCopies(t.elem, n);
    GoodCopies(t.elem, n);
    ElementsAreFields(t.elem, v.items);
    ListLength(ts, v.items);
    ListRead(ts, v.items, output[start..]);
    UnpackEachIsFields(t.elem, 0, n, output[start..]);
    if Dynamic(t) {
      LowOffset(at);
      assert output[index..index + WORD] == NumWord(at);
    }
  }

  /** Elements of a good array or slice are good fields. */
  lemma GoodCopies(elem: Ty, n: nat)
    requires Formed(elem) && Good(elem) && (Dynamic(elem) || Exact(elem) || n <= 1)
    ensures GoodFields(Copies(elem, n))
  {
    CopiesAre(elem, n);
    SizeIsWords(elem);
  }

  /** A packed list has a word for each field at least. */
  lemma ListLength(ts: seq<Ty>, vs: seq<Val>)
    requires AllFormed(ts) && AllFit(ts, vs)
    ensures |PackFields(ts, vs, TotalSize(ts), [])| >= HeadTotal(ts) >= WORD * |ts|
  {
    ListIs(ts, vs);
    TotalIsWords(ts);
  }

  /** An offset is read from the last eight bytes of its word. */
  lemma LowOffset(at: nat)
    requires at <= MAX_INT64
    ensures FromBigEndian(NumWord(at)[WORD - 8..]) == at
  {
    MaxIntInWord();
    hide Power256, Digits, FromBigEndian;
    LastDigits(at, WORD, 8);
    ModIs(at, Power256(8), 0, at);
    ModIs(at, Power256(WORD), 0, at);
  }

  /** A good list is read from its beginning. */
  lemma ListRead(ts: seq<Ty>, vs: seq<Val>, output: Bytes)
    requires AllFormed(ts) && GoodFields(ts) && AllFit(ts, vs) && |output| <= MAX_INT64
    requires PackFields(ts, vs, TotalSize(ts), []) <= output
    ensures UnpackFields(ts, 0, output) == Some(vs)
    decreases RankAll(ts), 3
  {
    hide PackFields, UnpackFields;
    ListIs(ts, vs);
    assert output[0..] == output;
    var heads, tails := FieldHeads(ts, vs, TotalSize(ts)), FieldTails(ts, vs);
    assert output[HeadTotal(ts)..][..|tails|] == output[..|heads + tails|][|heads|..] == tails;
    assert output[..|heads|] == output[..|heads + tails|][..|heads|] == heads;
    FieldsRead(ts, vs, 0, TotalSize(ts), output);
  }

  /** The fields from the `word`-th word on, their tails beginning at `offset`. */
  lemma {:induction false} FieldsRead(ts: seq<Ty>, vs: seq<Val>, word: nat, offset: nat, output: Bytes)
    requires AllFormed(ts) && AllGood(ts) && Steady(ts) && AllFit(ts, vs) && |output| <= MAX_INT64
    requires word * WORD <= |output| && FieldHeads(ts, vs, offset) <= output[word * WORD..]
    requires AnyDynamic(ts) ==> offset <= |output| && FieldTails(ts, vs) <= output[offset..]
    ensures UnpackFields(ts, word, output) == Some(vs)
    decreases RankAll(ts), 2, |ts|
  {
    hide Pack, NumWord, Digits, Dynamic, TypeSize, HeadBytes, Fits, Formed, Good, ToGoType, Placed;
    if ts == [] {
      assert vs == [];
    } else {
      var t, v := ts[0], vs[0];
      NextWord(ts, word, output);
      FirstPlaced(ts, vs, word * WORD, offset, output);
      Reads(t, v, word * WORD, offset, output);
      if |ts| == 1 {
        assert ts[1..] == [] && vs[1..] == [];
      } else {
        SizeIsWords(t);
        var next := word + TypeSize(t) / WORD;
        assert next * WORD == word * WORD + TypeSize(t);
        RestPlaced(ts, vs, word * WORD, offset, output);
        FieldsRead(ts[1..], vs[1..], next, offset + |TailOf(t, v)|, output);
      }
      assert [vs[0]] + vs[1..] == vs;
    }
  }

  /** The first field stands in place, or behind its offset. */
  lemma FirstPlaced(ts: seq<Ty>, vs: seq<Val>, index: nat, offset: nat, output: Bytes)
    requires ts != [] && AllFit(ts, vs)
    requires index <= |output| && FieldHeads(ts, vs, offset) <= output[index..]
    requires AnyDynamic(ts) ==> offset <= |output| && FieldTails(ts, vs) <= output[offset..]
    ensures Placed(ts[0], vs[0], index, offset, output)
  {
    hide Pack, NumWord, Digits, Fits, Dynamic;
    var t, v := ts[0], vs[0];
    var heads := FieldHeads(ts, vs, offset);
    var head := HeadOf(t, v, offset);
    assert output[index..][..|head|] == output[index..][..|heads|][..|head|] == head;
    if Dynamic(t) {
      var tails, val := FieldTails(ts, vs), Pack(t, v);
      assert output[offset..][..|val|] == output[offset..][..|tails|][..|val|] == val;
    }
  }

  lemma HeadTakes(t: Ty, v: Val, at: nat)
    requires Formed(t) && Fits(t, v)
    ensures |HeadOf(t, v, at)| == HeadBytes(t)
  {
    hide Pack, NumWord, Digits, Fits;
    if !Dynamic(t) { StaticSize(t, v); } else { SizeIsWords(t); }
  }

  /** And so do the others. */
  lemma RestPlaced(ts: seq<Ty>, vs: seq<Val>, index: nat, offset: nat, output: Bytes)
    requires AllFormed(ts) && ts != [] && AllFit(ts, vs) && Exact(ts[0])
    requires index <= |output| && FieldHeads(ts, vs, offset) <= output[index..]
    requires AnyDynamic(ts) ==> offset <= |output| && FieldTails(ts, vs) <= output[offset..]
    ensures var next, off := index + TypeSize(ts[0]), offset + |TailOf(ts[0], vs[0])|;
            next <= |output| && FieldHeads(ts[1..], vs[1..], off) <= output[next..] &&
            (AnyDynamic(ts[1..]) ==> off <= |output| && FieldTails(ts[1..], vs[1..]) <= output[off..])
  {
    hide Pack, NumWord, Digits, Fits, FieldHeads, FieldTails, HeadOf, TailOf, Dynamic, TypeSize, HeadBytes;
    var t, v := ts[0], vs[0];
    HeadTakes(t, v, offset);
    FirstOff(ts, vs, offset);
    var off := offset + |TailOf(t, v)|;
    var head, rest := HeadOf(t, v, offset), FieldHeads(ts[1..], vs[1..], off);
    assert output[index..][..|head + rest|] == head + rest;
    assert output[index + |head|..][..|rest|] == output[index..][..|head + rest|][|head|..] == rest;
    if AnyDynamic(ts[1..]) {
      var own, tails := TailOf(t, v), FieldTails(ts[1..], vs[1..]);
      assert output[offset..][..|own + tails|] == own + tails;
      assert output[offset + |own|..][..|tails|] == output[offset..][..|own + tails|][|own|..] == tails;
    }
  }

  // ---------------------------------------------------------------------------------
  // Arguments
  // ---------------------------------------------------------------------------------

  /** `Arguments.Pack`. */
  function PackArguments(ts: seq<Ty>, vs: seq<Val>): (r: Bytes)
    requires AllFit(ts, vs)
  {
    PackFields(ts, vs, TotalSize(ts), [])
  }

  /** `Arguments.UnpackValues`. */
  function UnpackValues(ts: seq<Ty>, data: Bytes): (r: Option<seq<Val>>)
    requires AllFormed(ts)
  {
    UnpackFields(ts, 0, data)
  }

  /** Packing and unpacking arguments of good types gives them back. */
  lemma RoundTrip(ts: seq<Ty>, vs: seq<Val>)
    requires AllFormed(ts) && GoodFields(ts) && AllFit(ts, vs) && |PackArguments(ts, vs)| <= MAX_INT64
    ensures UnpackValues(ts, PackArguments(ts, vs)) == Some(vs)
  {
    ListRead(ts, vs, PackArguments(ts, vs));
  }

  /** What `getTypeSize` says of a fixed array of static tuples is right only for tuples of one
      word. */
  lemma TupleArraySizeRightIff(n: nat, elems: seq<Ty>, v: Val)
    requires Formed(ArrayTy(n, TupleTy(elems))) && !AnyDynamic(elems) && Fits(ArrayTy(n, TupleTy(elems)), v)
    ensures var t := ArrayTy(n, TupleTy(elems));
            (|Pack(t, v)| == TypeSize(t) <==> Exact(t)) && (Exact(t) <==> HeadTotal(elems) == WORD)
  {
    StaticSize(ArrayTy(n, TupleTy(elems)), v);
    hide Pack, Fits, Formed, AllFormed;
    Cancel(n, HeadTotal(elems), WORD);
  }

  lemma Cancel(n: nat, k: nat, w: nat)
    requires n > 0
    ensures n * k == n * w <==> k == w
  {
    if k > w {
      Grows(n, k - w);
      assert n * k == n * w + n * (k - w);
    } else {
      Grows(n, w - k);
      assert n * w == n * k + n * (w - k);
    }
  }

  // =================================================================================
  // The bytes of the packed form, field by field: what numbers words hold, where contents stand
  // and what fills the rest, and where heads and tails are (accounts/abi/pack.go, type.go,
  // argument.go).
  // =================================================================================

  lemma {:induction false} LeadingZeros(k: nat, b: Bytes)
    ensures FromBigEndian(Padding(k) + b) == FromBigEndian(b)
    decreases |b|
  {
    if b == [] {
      ZeroDigits(k);
      assert Padding(k) + b == Padding(k);
    } else {
      var s := Padding(k) + b;
      assert s[..|s| - 1] == Padding(k) + b[..|b| - 1];
      LeadingZeros(k, b[..|b| - 1]);
    }
  }

  /** The number that stands for a value in its word: two's complement for a negative one. */
  function NumberOf(v: Val): (n: nat)
    requires !v.Many?
  {
    match v
    case Num(n) => n % Power256(WORD)
    case Flag(b) => if b then 1 else 0
    case Raw(bytes) => FromBigEndian(bytes)
  }

  /** Numbers, truth values and addresses fill one word, which is their number. */
  lemma NumberLayout(t: Ty, v: Val)
    requires (t.IntTy? || t.BoolTy? || t.AddressTy?) && Formed(t) && Fits(t, v)
    ensures |Pack(t, v)| == WORD && FromBigEndian(Pack(t, v)) == NumberOf(v)
  {
    hide Power256, Digits, FromBigEndian, Padding;
    if t.AddressTy? {
      LeadingZeros(12, v.bytes);
    } else {
      WholeWord(if v.Num? then v.n else if v.b then 1 else 0);
    }
  }

  lemma WholeWord(n: int)
    ensures FromBigEndian(NumWord(n)) == n % Power256(WORD)
    ensures n == 0 || n == 1 ==> n % Power256(WORD) == n
  {
    hide Power256, Digits, FromBigEndian;
    MaxIntInWord();
    var m := n % Power256(WORD);
    LastDigits(m, WORD, WORD);
    assert NumWord(n)[0..] == NumWord(n);
    ModIs(m, Power256(WORD), 0, m);
    if n == 0 || n == 1 { ModIs(n, Power256(WORD), 0, n); }
  }

  /** Fixed bytes and functions fill one word from its beginning; the rest is zero. */
  lemma FixedLayout(t: Ty, v: Val)
    requires (t.FixedBytesTy? || t.FunctionTy?) && Formed(t) && Fits(t, v)
    ensures |Pack(t, v)| == WORD && v.bytes <= Pack(t, v)
    ensures forall i :: |v.bytes| <= i < WORD ==> Pack(t, v)[i] == 0
  {
  }

  /** Strings and bytes: their length as a word, the contents, and zeros up to a whole word. */
  lemma StringLayout(t: Ty, v: Val)
    requires (t.StringTy? || t.BytesTy?) && Fits(t, v) && |v.bytes| <= MAX_INT64
    ensures var r, n := Pack(t, v), |v.bytes|;
            |r| % WORD == 0 && WORD + n <= |r| < 2 * WORD + n && FromBigEndian(r[..WORD]) == n &&
            r[WORD..WORD + n] == v.bytes && forall i :: WORD + n <= i < |r| ==> r[i] == 0
  {
    hide NumWord, FromBigEndian, Power256;
    MaxIntInWord();
    WordValue(|v.bytes|);
    var n := |v.bytes|;
    var r := NumWord(n) + RightPad(v.bytes, (n + 31) / 32 * 32);
    assert r[..WORD] == NumWord(n);
  }

  /** Truth values and functions are read from packed words only; any other word is an error. */
  lemma WordsAreStrict(t: Ty, v: Val, word: Bytes)
    requires t.BoolTy? || t.FunctionTy?
    requires |word| == WORD && ToGoType(0, t, word) == Some(v)
    ensures Fits(t, v) && word == Pack(t, v)
  {
    hide FromBigEndian, Digits, Power256, NumWord;
    assert word[0..WORD] == word;
    if t.BoolTy? {
      var n := if v.b then 1 else 0;
      WholeWord(n);
      LeadingZeros(31, word[31..]);
      assert word == word[..31] + word[31..] && word[31..] == [word[31]];
      OneByte(word[31]);
      SameNumber(word, NumWord(n));
    } else {
      assert word == word[..24] + word[24..];
      ZeroDigits(8);
      SameNumber(word[24..], Padding(8));
    }
  }

  lemma OneByte(b: Byte)
    ensures FromBigEndian([b]) == b
  {
    assert [b][..0] == [];
  }

  /** Words of one length are determined by their number. */
  lemma {:induction false} SameNumber(a: Bytes, b: Bytes)
    requires |a| == |b| && FromBigEndian(a) == FromBigEndian(b)
    ensures a == b
    decreases |a|
  {
    if a != [] {
      var n := |a| - 1;
      SameNumber(a[..n], b[..n]);
      assert a == a[..n] + [a[n]] && b == b[..n] + [b[n]];
    }
  }

  /** Slices and arrays: the fields of a list of as many copies, a slice behind their number. */
  lemma ArrayLayout(t: Ty, vs: seq<Val>)
    requires (t.SliceTy? || t.ArrayTy?) && Fits(t, Many(vs))
    ensures var ts := Copies(t.elem, |vs|);
            AllFit(ts, vs) &&
            Pack(t, Many(vs)) == (if t.SliceTy? then NumWord(|vs|) else []) + PackFields(ts, vs, TotalSize(ts), [])
  {
    hide PackEach, PackFields, NumWord, TotalSize, AllFit, Copies, Base, Dynamic;
    ElementsAreFields(t.elem, vs);
  }

  /** Field k of a list: a static one stands among the heads, a dynamic one among the tails in the
      order of the fields, and its head is the offset of its tail by the sizes of `getTypeSize`. */
  lemma FieldLayout(ts: seq<Ty>, vs: seq<Val>, k: nat)
    requires AllFormed(ts) && AllFit(ts, vs) && k < |ts|
    ensures AllFit(ts[..k], vs[..k]) && Fits(ts[k], vs[k])
    ensures var r, val := PackFields(ts, vs, TotalSize(ts), []), Pack(ts[k], vs[k]);
            var i, tails := HeadTotal(ts[..k]), |FieldTails(ts[..k], vs[..k])|;
            |r| == HeadTotal(ts) + |FieldTails(ts, vs)| && i <= HeadTotal(ts) && tails <= |FieldTails(ts, vs)| &&
            if Dynamic(ts[k]) then
              NumWord(TotalSize(ts) + tails) <= r[i..] && val <= r[HeadTotal(ts) + tails..]
            else
              val <= r[i..]
  {
    hide Fits, AllFit, Formed, AllFormed, Pack, PackFields, NumWord, TotalSize, HeadTotal, FieldHeads, FieldTails, Dynamic;
    AllFitLength(ts, vs);
    FitsSplit(ts, vs, k);
    FormedSplit(ts, k);
    FormedSplit(ts, k + 1);
    ListIs(ts, vs);
    SplitAt(ts, vs, k, TotalSize(ts));
    HeadsLength(ts[..k], vs[..k], TotalSize(ts));
    var t1, own := FieldTails(ts[..k], vs[..k]), TailOf(ts[k], vs[k]);
    Stands(FieldHeads(ts[..k], vs[..k], TotalSize(ts)), HeadOf(ts[k], vs[k], TotalSize(ts) + |t1|),
           FieldHeads(ts[k + 1..], vs[k + 1..], TotalSize(ts) + |t1| + |own|), t1, own, FieldTails(ts[k + 1..], vs[k + 1..]));
  }

  lemma AllFitLength(ts: seq<Ty>, vs: seq<Val>)
    requires AllFit(ts, vs)
    ensures |vs| == |ts|
  {
  }

  lemma Stands(h1: Bytes, h: Bytes, h2: Bytes, t1: Bytes, t: Bytes, t2: Bytes)
    ensures var heads, r := h1 + h + h2, h1 + h + h2 + (t1 + t + t2);
            |h1| <= |heads| <= |r| && h <= r[|h1|..] && t <= r[|heads| + |t1|..]
  {
    var heads, r := h1 + h + h2, h1 + h + h2 + (t1 + t + t2);
    assert r[|h1|..] == h + (h2 + (t1 + t + t2));
    assert r[|heads| + |t1|..] == t + t2;
  }

  // =================================================================================
  // The packer and the unpacker of accounts/abi with the loops they are made of, each against its
  // recursive form.
  // =================================================================================

  /** `pack`. */
  method PackValue(t: Ty, v: Val) returns (r: Bytes)
    requires Fits(t, v)
    ensures r == Pack(t, v)
    decreases t, 4
  {
    if t.SliceTy? || t.ArrayTy? {
      var ret: Bytes := if t.SliceTy? then NumWord(|v.items|) else [];
      var body := PackItems(t.elem, v.items);
      r := ret + body;
    } else if t.TupleTy? {
      r := PackTuple(t.elems, v.items);
    } else {
      r := Pack(t, v);
    }
  }

  /** The elements of a slice or array. */
  method PackItems(elem: Ty, vs: seq<Val>) returns (r: Bytes)
    requires forall i :: 0 <= i < |vs| ==> Fits(elem, vs[i])
    ensures r == PackEach(elem, vs, Base(elem, |vs|), [])
    decreases elem, 5
  {
    hide Pack, PackEach, Dynamic, TypeSize, NumWord, Fits;
    NoneLeft(elem);
    var offset: nat := 0;
    var offsetReq := Dynamic(elem);
    if offsetReq { offset := TypeSize(elem) * |vs|; }
    var ret: Bytes, tail: Bytes := [], [];
    var i := 0;
    assert vs[0..] == vs;
    while i < |vs|
      invariant i <= |vs|
      invariant PackEach(elem, vs, Base(elem, |vs|), []) == ret + PackEach(elem, vs[i..], offset, tail)
    {
      var val := PackValue(elem, vs[i]);
      EachStep(elem, vs, i, offset, tail);
      if !offsetReq {
        Associate(ret, val, PackEach(elem, vs[i + 1..], offset, tail));
        ret := ret + val;
      } else {
        Associate(ret, NumWord(offset), PackEach(elem, vs[i + 1..], offset + |val|, tail + val));
        ret := ret + NumWord(offset);
        offset := offset + |val|;
        tail := tail + val;
      }
      i := i + 1;
    }
    r := ret + tail;
  }

  lemma EachStep(elem: Ty, vs: seq<Val>, i: nat, offset: nat, tail: Bytes)
    requires i < |vs| && forall j :: 0 <= j < |vs| ==> Fits(elem, vs[j])
    ensures var val := Pack(elem, vs[i]);
            PackEach(elem, vs[i..], offset, tail) ==
            if !Dynamic(elem) then val + PackEach(elem, vs[i + 1..], offset, tail)
            else NumWord(offset) + PackEach(elem, vs[i + 1..], offset + |val|, tail + val)
  {
    hide Pack, Dynamic, NumWord, Fits;
    assert vs[i..][1..] == vs[i + 1..];
  }

  lemma Associate(a: Bytes, b: Bytes, c: Bytes)
    ensures a + (b + c) == (a + b) + c
  {
  }

  lemma NoneLeft(elem: Ty)
    ensures forall offset: nat, tail: Bytes :: PackEach(elem, [], offset, tail) == tail
  {
  }

  /** The fields of a tuple, and `Arguments.Pack`. */
  method PackTuple(ts: seq<Ty>, vs: seq<Val>) returns (r: Bytes)
    requires AllFit(ts, vs)
    ensures r == PackFields(ts, vs, TotalSize(ts), [])
    decreases ts, 5
  {
    hide Pack, Dynamic, TypeSize, NumWord, Fits;
    var offset: nat := 0;
    var k := 0;
    assert ts[0..] == ts && vs[0..] == vs;
    while k < |ts|
      invariant k <= |ts| && TotalSize(ts) == offset + TotalSize(ts[k..])
    {
      assert ts[k..][1..] == ts[k + 1..];
      offset := offset + TypeSize(ts[k]);
      k := k + 1;
    }
    var ret: Bytes, tail: Bytes := [], [];
    var i := 0;
    while i < |ts|
      invariant i <= |ts| && AllFit(ts[i..], vs[i..])
      invariant PackFields(ts, vs, TotalSize(ts), []) == ret + PackFields(ts[i..], vs[i..], offset, tail)
    {
      assert ts[i..][1..] == ts[i + 1..] && vs[i..][1..] == vs[i + 1..];
      var val := PackValue(ts[i], vs[i]);
      if Dynamic(ts[i]) {
        ret := ret + NumWord(offset);
        tail := tail + val;
        offset := offset + |val|;
      } else {
        ret := ret + val;
      }
      i := i + 1;
    }
    r := ret + tail;
  }

  lemma NoFieldsLeft(ts: seq<Ty>, output: Bytes)
    requires ts == []
    ensures AllFormed(ts) && forall word: int :: UnpackFields(ts, word, output) == Some([])
  {
  }

  /** Values read, before the rest. */
  function Join(vs: seq<Val>, rest: Option<seq<Val>>): (r: Option<seq<Val>>)
  {
    if rest.None? then None else Some(vs + rest.value)
  }

  lemma JoinStep(vs: seq<Val>, v: Val, rest: Option<seq<Val>>)
    ensures Join(vs, if rest.None? then None else Some([v] + rest.value)) == Join(vs + [v], rest)
  {
    if rest.Some? { assert vs + ([v] + rest.value) == (vs + [v]) + rest.value; }
  }

  lemma JoinNothing(rest: Option<seq<Val>>)
    ensures Join([], rest) == rest
  {
    if rest.Some? { assert [] + rest.value == rest.value; }
  }

  /** `toGoType`. */
  method UnpackValue(index: nat, t: Ty, output: Bytes) returns (r: Option<Val>)
    requires Formed(t)
    ensures r == ToGoType(index, t, output)
    decreases t, 4
  {
    if index + WORD > |output| { return None; }
    if t.TupleTy? {
      var begin := index;
      if Dynamic(t) {
        var p := TuplePointer(index, output);
        if p.None? { return None; }
        begin := p.value;
      }
      var vs := UnpackTuple(t.elems, output[begin..]);
      r := Listed(vs);
    } else if t.SliceTy? {
      var p := LengthPrefix(index, output);
      if p.None? { return None; }
      if WORD * p.value.1 > |output| - p.value.0 { return None; }
      var vs := ForEachUnpack(t.elem, output[p.value.0..], 0, p.value.1);
      r := Listed(vs);
    } else if t.ArrayTy? {
      var begin := index;
      if Dynamic(t.elem) {
        begin := FromBigEndian(output[index..index + WORD][WORD - 8..]);
        if begin > |output| { return None; }
      }
      if WORD * t.count > |output| - begin { return None; }
      var vs := ForEachUnpack(t.elem, output[begin..], 0, t.count);
      r := Listed(vs);
    } else {
      r := ToGoType(index, t, output);
    }
  }

  /** The loop of `forEachUnpack`. */
  method ForEachUnpack(elem: Ty, output: Bytes, start: nat, size: nat) returns (r: Option<seq<Val>>)
    requires Formed(elem)
    ensures r == UnpackEach(elem, start, size, output)
    decreases elem, 5
  {
    hide ToGoType, TypeSize, Formed;
    var vs: seq<Val> := [];
    var i, j := start, 0;
    var elemSize := TypeSize(elem);
    ghost var whole := UnpackEach(elem, start, size, output);
    JoinNothing(whole);
    while j < size
      invariant j <= size && whole == Join(vs, UnpackEach(elem, i, size - j, output))
    {
      var inter := UnpackValue(i, elem, output);
      if inter.None? { return None; }
      JoinStep(vs, inter.value, UnpackEach(elem, i + elemSize, size - j - 1, output));
      vs := vs + [inter.value];
      i, j := i + elemSize, j + 1;
    }
    assert vs + [] == vs;
    r := Some(vs);
  }

  /** The loops of `forTupleUnpack` and of `Arguments.UnpackValues`, with the virtual arguments
      that static arrays and tuples add. */
  method UnpackTuple(ts: seq<Ty>, output: Bytes) returns (r: Option<seq<Val>>)
    requires AllFormed(ts)
    ensures r == UnpackFields(ts, 0, output)
    decreases ts, 5
  {
    hide UnpackFields, ToGoType, TypeSize, HeadBytes, Formed, Dynamic;
    NoFieldsLeft(ts[|ts|..], output);
    var vs: seq<Val> := [];
    var virtualArgs: nat := 0;
    var index := 0;
    ghost var whole := UnpackFields(ts, 0, output);
    assert ts[0..] == ts;
    JoinNothing(whole);
    while index < |ts|
      invariant index <= |ts| && AllFormed(ts[index..])
      invariant whole == Join(vs, UnpackFields(ts[index..], index + virtualArgs, output))
    {
      assert ts[index..][1..] == ts[index + 1..];
      SizeIsWords(ts[index]);
      NextWord(ts[index..], index + virtualArgs, output);
      var v := UnpackValue((index + virtualArgs) * WORD, ts[index], output);
      if v.None? { return None; }
      if ts[index].ArrayTy? && !Dynamic(ts[index]) {
        virtualArgs := virtualArgs + (TypeSize(ts[index]) / WORD - 1);
      } else if ts[index].TupleTy? && !Dynamic(ts[index]) {
        virtualArgs := virtualArgs + (TypeSize(ts[index]) / WORD - 1);
      }
      JoinStep(vs, v.value, UnpackFields(ts[index + 1..], index + 1 + virtualArgs, output));
      vs := vs + [v.value];
      index := index + 1;
    }
    assert vs + [] == vs;
    r := Some(vs);
  }
}
