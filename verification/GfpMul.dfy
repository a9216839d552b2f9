/** Montgomery multiplication of crypto/bn256/cloudflare/gfp_generic.go: products of 16-bit and
    32-bit parts collected in columns of weight 2^16, three carry passes that fold the columns
    into limbs, and the reduction by p. */
module GfpMul {
  import opened Words
  import opened Gfp

  /** np, the negative inverse of p modulo 2^256. */
  const NP: seq<Word> := [0x87d20782e4866389, 0x9ede7d651eca6ac9, 0xd8afcbd01833da80, 0xf57a22b791888c6b]

  const NP_VALUE: nat := 0xf57a22b791888c6b_d8afcbd01833da80_9ede7d651eca6ac9_87d20782e4866389

  /** The inverse of 2^256 modulo p. */
  const R_INVERSE: nat := 0x2e67157159e5c639_cf63e9cfb74492d9_eb2022850278edf8_ed84884a014afa37

  const PART: nat := 0x1_0000_0000_0000

  // ---------------------------------------------------------------------------------
  // Columns
  // ---------------------------------------------------------------------------------

  /** Powers of 2^16. */
  function Weight(k: nat): (p: nat)
    ensures p > 0
  {
    if k == 0 then 1 else 0x1_0000 * Weight(k - 1)
  }

  /** The number held in columns of weight 2^16, which may be wider than 16 bits. */
  function Columns(s: seq<Word>): (n: nat)
  {
    if s == [] then 0 else Columns(s[..|s| - 1]) + s[|s| - 1] * Weight(|s| - 1)
  }

  lemma {:induction false} WeightOfBlock(j: nat)
    ensures Weight(4 * j) == Pow(j)
  {
    if j > 0 {
      WeightOfBlock(j - 1);
      WeightStep(4 * j - 4);
      assert 4 * (j - 1) == 4 * j - 4;
    }
  }

  lemma WeightStep(k: nat)
    ensures Weight(k + 1) == 0x1_0000 * Weight(k)
    ensures Weight(k + 2) == 0x1_0000_0000 * Weight(k)
    ensures Weight(k + 3) == 0x1_0000_0000_0000 * Weight(k)
    ensures Weight(k + 4) == W * Weight(k)
    ensures Weight(k + 5) == 0x1_0000 * W * Weight(k)
  {
  }

  /** Adding x in column k. */
  lemma {:induction false} ColumnAdd(s: seq<Word>, k: nat, v: Word)
    requires k < |s|
    ensures Columns(s[k := v]) == Columns(s) + (v - s[k]) * Weight(k)
    decreases |s|
  {
    var n := |s| - 1;
    if k == n {
      assert s[k := v][..n] == s[..n];
      assert (v - s[k]) * Weight(k) == v * Weight(k) - s[k] * Weight(k);
    } else {
      assert s[k := v][..n] == s[..n][k := v];
      ColumnAdd(s[..n], k, v);
    }
  }

  lemma {:induction false} ColumnsZero(s: seq<Word>)
    requires forall k :: 0 <= k < |s| ==> s[k] == 0
    ensures Columns(s) == 0
    decreases |s|
  {
    if s != [] { ColumnsZero(s[..|s| - 1]); }
  }

  // ---------------------------------------------------------------------------------
  // The parts of a limb
  // ---------------------------------------------------------------------------------

  /** The four 16-bit parts of a limb and the two 32-bit parts of another. */
  predicate Parts(a: Word, a0: nat, a1: nat, a2: nat, a3: nat)
  {
    a0 < 0x1_0000 && a1 < 0x1_0000 && a2 < 0x1_0000 && a3 < 0x1_0000 &&
    a == a0 + a1 * 0x1_0000 + a2 * 0x1_0000_0000 + a3 * 0x1_0000_0000_0000
  }

  predicate Halves(b: Word, b0: nat, b2: nat)
  {
    b0 < 0x1_0000_0000 && b2 < 0x1_0000_0000 && b == b0 + b2 * 0x1_0000_0000
  }

  lemma PartsOf(a: Word)
    ensures Parts(a, And(a, 0xFFFF), And(a / 0x1_0000, 0xFFFF), And(a / 0x1_0000_0000, 0xFFFF), a / 0x1_0000_0000_0000)
  {
    MaskLow(a);
    MaskLow(a / 0x1_0000);
    MaskLow(a / 0x1_0000_0000);
    hide And;
    var q := a / 0x1_0000;
    assert a == q * 0x1_0000 + a % 0x1_0000;
    var r := q / 0x1_0000;
    assert q == r * 0x1_0000 + q % 0x1_0000 && r == a / 0x1_0000_0000;
    assert r == (r / 0x1_0000) * 0x1_0000 + r % 0x1_0000 && r / 0x1_0000 == a / 0x1_0000_0000_0000;
  }

  lemma HalvesOf(b: Word)
    ensures Halves(b, And(b, 0xFFFF_FFFF), b / 0x1_0000_0000)
  {
    MaskLow(b);
  }

  lemma ProductBound(x: nat, y: nat)
    requires x < 0x1_0000 && y < 0x1_0000_0000
    ensures 0 <= x * y < PART
  {
    MulBelow(x, y, 0xFFFF, 0xFFFF_FFFF);
  }

  lemma MulBelow(x: nat, y: nat, m: nat, n: nat)
    requires x <= m && y <= n
    ensures 0 <= x * y <= m * n
  {
    Grow(x, m, y);
    Grow(y, n, m);
  }

  /** The partial products make up the product, at weight w. */
  lemma ProductParts(a: Word, a0: nat, a1: nat, a2: nat, a3: nat, b: Word, b0: nat, b2: nat,
                     p0: nat, p1: nat, p2: nat, p3: nat, p4: nat, p5: nat, w: nat)
    requires Parts(a, a0, a1, a2, a3) && Halves(b, b0, b2)
    requires p0 == a0 * b0 && p1 == a1 * b0 && p2 == a2 * b0 + a0 * b2 && p3 == a3 * b0 + a1 * b2
    requires p4 == a2 * b2 && p5 == a3 * b2
    ensures p0 * w + p1 * (0x1_0000 * w) + p2 * (0x1_0000_0000 * w) + p3 * (0x1_0000_0000_0000 * w) +
            p4 * (W * w) + p5 * (0x1_0000 * W * w) == (a * b) * w
  {
    ProductSum(a, a0, a1, a2, a3, b, b0, b2);
    Spread(p0, p1, p2, p3, p4, p5, a * b, w);
  }

  lemma ProductSum(a: nat, a0: nat, a1: nat, a2: nat, a3: nat, b: nat, b0: nat, b2: nat)
    requires a == a0 + a1 * 0x1_0000 + a2 * 0x1_0000_0000 + a3 * 0x1_0000_0000_0000
    requires b == b0 + b2 * 0x1_0000_0000
    ensures a * b ==
            a0 * b0 + (a1 * b0) * 0x1_0000 + (a2 * b0 + a0 * b2) * 0x1_0000_0000 + (a3 * b0 + a1 * b2) * 0x1_0000_0000_0000 +
            (a2 * b2) * W + (a3 * b2) * (0x1_0000 * W)
  {
    assert a * b == a * b0 + (a * b2) * 0x1_0000_0000;
    PartsTimes(a, a0, a1, a2, a3, b0);
    PartsTimes(a, a0, a1, a2, a3, b2);
  }

  lemma PartsTimes(a: nat, a0: nat, a1: nat, a2: nat, a3: nat, x: nat)
    requires a == a0 + a1 * 0x1_0000 + a2 * 0x1_0000_0000 + a3 * 0x1_0000_0000_0000
    ensures a * x == a0 * x + (a1 * x) * 0x1_0000 + (a2 * x) * 0x1_0000_0000 + (a3 * x) * 0x1_0000_0000_0000
  {
  }

  lemma Spread(p0: nat, p1: nat, p2: nat, p3: nat, p4: nat, p5: nat, p: nat, w: nat)
    requires p == p0 + p1 * 0x1_0000 + p2 * 0x1_0000_0000 + p3 * 0x1_0000_0000_0000 + p4 * W + p5 * (0x1_0000 * W)
    ensures p0 * w + p1 * (0x1_0000 * w) + p2 * (0x1_0000_0000 * w) + p3 * (0x1_0000_0000_0000 * w) + p4 * (W * w) + p5 * (0x1_0000 * W * w) ==
            p * w
  {
    Scale(p1, 0x1_0000, w);
    Scale(p2, 0x1_0000_0000, w);
    Scale(p3, 0x1_0000_0000_0000, w);
    Scale(p4, W, w);
    Scale(p5, 0x1_0000 * W, w);
    assert p * w == p0 * w + (p1 * 0x1_0000) * w + (p2 * 0x1_0000_0000) * w + (p3 * 0x1_0000_0000_0000) * w +
                    (p4 * W) * w + (p5 * (0x1_0000 * W)) * w;
  }

  lemma Scale(p: nat, c: nat, w: nat)
    ensures p * (c * w) == (p * c) * w
  {
  }

  // ---------------------------------------------------------------------------------
  // Accumulating
  // ---------------------------------------------------------------------------------

  /** Every column holds at most 2 * `count` products: far below 2^64. */
  predicate Small(s: seq<Word>, count: nat)
  {
    forall k :: 0 <= k < |s| ==> s[k] <= 2 * PART * count
  }

  /** `buff[k] += x`; the sum does not wrap. */
  method AddTo(buff: array<Word>, k: nat, x: nat, ghost count: nat)
    requires k < buff.Length && x < 2 * PART && count <= 16 && buff[k] <= 2 * PART * count
    modifies buff
    ensures buff[..] == old(buff[..])[k := old(buff[k]) + x]
    ensures Columns(buff[..]) == Columns(old(buff[..])) + x * Weight(k)
  {
    ColumnAdd(buff[..], k, buff[k] + x);
    buff[k] := (buff[k] + x) % W;
  }

  /** The six additions for one pair of limbs. */
  method AddProducts(buff: array<Word>, block: nat, a0: nat, a1: nat, a2: nat, a3: nat, b: Word, ghost a: Word, ghost count: nat)
    requires 4 * block + 5 < buff.Length && Parts(a, a0, a1, a2, a3) && Small(buff[..], count) && count < 16
    modifies buff
    ensures Small(buff[..], count + 1)
    ensures Columns(buff[..]) == Columns(old(buff[..])) + Scaled(Times(a, b), block)
  {
    var b0, b2 := And(b, 0xFFFF_FFFF), b / 0x1_0000_0000;
    HalvesOf(b);
    ProductBound(a0, b0);
    ProductBound(a1, b0);
    ProductBound(a2, b0);
    ProductBound(a0, b2);
    ProductBound(a3, b0);
    ProductBound(a1, b2);
    ProductBound(a2, b2);
    ProductBound(a3, b2);
    var off := 4 * block;
    WeightOfBlock(block);
    WeightStep(off);
    var p0, p1, p2, p3, p4, p5 := a0 * b0, a1 * b0, a2 * b0 + a0 * b2, a3 * b0 + a1 * b2, a2 * b2, a3 * b2;
    AddSix(buff, off, p0, p1, p2, p3, p4, p5, count);
    ProductParts(a, a0, a1, a2, a3, b, b0, b2, p0, p1, p2, p3, p4, p5, Weight(off));
  }

  method AddSix(buff: array<Word>, off: nat, p0: nat, p1: nat, p2: nat, p3: nat, p4: nat, p5: nat, ghost count: nat)
    requires off + 5 < buff.Length && Small(buff[..], count) && count < 16
    requires p0 < 2 * PART && p1 < 2 * PART && p2 < 2 * PART && p3 < 2 * PART && p4 < 2 * PART && p5 < 2 * PART
    modifies buff
    ensures Small(buff[..], count + 1)
    ensures Columns(buff[..]) == Columns(old(buff[..])) + p0 * Weight(off) + p1 * Weight(off + 1) + p2 * Weight(off + 2) +
                                 p3 * Weight(off + 3) + p4 * Weight(off + 4) + p5 * Weight(off + 5)
  {
    hide Columns, Weight;
    AddTo(buff, off, p0, count);
    AddTo(buff, off + 1, p1, count);
    AddTo(buff, off + 2, p2, count);
    AddTo(buff, off + 3, p3, count);
    AddTo(buff, off + 4, p4, count);
    AddTo(buff, off + 5, p5, count);
  }

  function Times(x: nat, y: nat): (r: nat)
  {
    x * y
  }

  function HighPart(x: nat, y: nat): (r: nat)
  {
    x + y * 0x1_0000
  }

  /** A number at the weight of limb k. */
  function Scaled(x: nat, k: nat): (r: nat)
  {
    x * Pow(k)
  }

  /** The product of the first i limbs of a with b. */
  function Rows(a: seq<Word>, b: seq<Word>, i: nat): (r: nat)
    requires i <= |a|
  {
    Ev(a[..i]) * Ev(b)
  }

  /** ... and of limb i of a with the first j of b. */
  function Partial(a: seq<Word>, b: seq<Word>, i: nat, j: nat): (r: nat)
    requires i < |a| && j <= |b|
  {
    Rows(a, b, i) + a[i] * Pow(i) * Ev(b[..j])
  }

  /** Advancing the double loop by one pair of limbs. */
  lemma PairStep(a: seq<Word>, b: seq<Word>, i: nat, j: nat)
    requires i < |a| && j < |b|
    ensures Partial(a, b, i, j + 1) == Partial(a, b, i, j) + Scaled(Times(a[i], b[j]), i + j)
  {
    EvNext(b, j);
    PowSum(i, j);
    var x, y := a[i] * Pow(i), b[j] * Pow(j);
    assert x * (Ev(b[..j]) + y) == x * Ev(b[..j]) + x * y;
    Regroup(a[i], Pow(i), b[j], Pow(j));
  }

  lemma Regroup(a: nat, p: nat, b: nat, q: nat)
    ensures (a * p) * (b * q) == (a * b) * (p * q)
  {
    assert (a * p) * (b * q) == a * (p * (b * q)) == a * (b * (p * q));
  }

  lemma {:induction false} PowSum(i: nat, j: nat)
    ensures Pow(i + j) == Pow(i) * Pow(j)
    decreases i
  {
    if i > 0 {
      PowSum(i - 1, j);
      assert W * (Pow(i - 1) * Pow(j)) == (W * Pow(i - 1)) * Pow(j);
    }
  }

  /** A new and a finished row. */
  lemma RowStep(a: seq<Word>, b: seq<Word>, i: nat)
    requires i < |a|
    ensures Partial(a, b, i, 0) == Rows(a, b, i)
    ensures Partial(a, b, i, |b|) == Rows(a, b, i + 1)
  {
    EvNext(a, i);
    assert b[..|b|] == b && b[..0] == [];
    Distribute(Ev(a[..i]), a[i] * Pow(i), Ev(b));
  }

  lemma Distribute(x: nat, y: nat, p: nat)
    ensures (x + y) * p == x * p + y * p
  {
  }

  lemma ScaledSum(x: nat, y: nat, k: nat)
    ensures Scaled(x + y, k) == Scaled(x, k) + Scaled(y, k)
  {
    Distribute(x, y, Pow(k));
  }

  // ---------------------------------------------------------------------------------
  // Folding the columns into limbs
  // ---------------------------------------------------------------------------------

  /** Column i of the first n blocks of four, as a number of limbs. */
  function Column(s: seq<Word>, i: nat, n: nat): (r: nat)
    requires i < 4 && 4 * n <= |s|
  {
    if n == 0 then 0 else Column(s, i, n - 1) + s[4 * (n - 1) + i] * Pow(n - 1)
  }

  lemma {:induction false} ColumnSame(s: seq<Word>, t: seq<Word>, i: nat, n: nat)
    requires i < 4 && 4 * n <= |s| && 4 * n <= |t|
    requires forall j :: 0 <= j < n ==> s[4 * j + i] == t[4 * j + i]
    ensures Column(s, i, n) == Column(t, i, n)
  {
    if n > 0 { ColumnSame(s, t, i, n - 1); }
  }

  /** The columns of the blocks, taken together. */
  lemma {:induction false} ColumnsOfBlocks(s: seq<Word>, n: nat)
    requires 4 * n <= |s|
    ensures Columns(s[..4 * n]) == Column(s, 0, n) + Column(s, 1, n) * 0x1_0000 + Column(s, 2, n) * 0x1_0000_0000 +
                                   Column(s, 3, n) * 0x1_0000_0000_0000
  {
    if n > 0 {
      ColumnsOfBlocks(s, n - 1);
      FourColumns(s, n - 1);
    }
  }

  /** The four columns of one more block. */
  lemma FourColumns(s: seq<Word>, n: nat)
    requires 4 * n + 3 < |s|
    ensures var p := Pow(n);
            Columns(s[..4 * n + 4]) == Columns(s[..4 * n]) + s[4 * n] * p + (s[4 * n + 1] * p) * 0x1_0000 +
                                       (s[4 * n + 2] * p) * 0x1_0000_0000 + (s[4 * n + 3] * p) * 0x1_0000_0000_0000
  {
    var k, p := 4 * n, Pow(n);
    hide Columns, Weight, Pow;
    ColumnsNext(s, k);
    ColumnsNext(s, k + 1);
    ColumnsNext(s, k + 2);
    ColumnsNext(s, k + 3);
    WeightOfBlock(n);
    WeightStep(k);
    ColumnTerm(s[k + 1], 0x1_0000, Weight(k + 1), p);
    ColumnTerm(s[k + 2], 0x1_0000_0000, Weight(k + 2), p);
    ColumnTerm(s[k + 3], 0x1_0000_0000_0000, Weight(k + 3), p);
  }

  lemma ColumnTerm(x: nat, c: nat, w: nat, p: nat)
    requires w == c * p
    ensures x * w == (x * p) * c
  {
  }

  lemma ColumnsNext(s: seq<Word>, k: nat)
    requires k < |s|
    ensures Columns(s[..k + 1]) == Columns(s[..k]) + s[k] * Weight(k)
  {
    assert s[..k + 1][..k] == s[..k];
  }

  /** The shift of pass i. */
  function Shift(i: nat): (m: nat)
    requires 1 <= i <= 3
  {
    if i == 1 then 0x1_0000 else if i == 2 then 0x1_0000_0000 else 0x1_0000_0000_0000
  }

  /** A word shifted left and what is shifted out; with the part shifted out of the word below
      it does not wrap. */
  lemma ShiftSplit(y: Word, i: nat, head: nat)
    requires 1 <= i <= 3 && head < Shift(i)
    ensures var low, high := (y * Shift(i)) % W, y / (W / Shift(i));
            y * Shift(i) == low + high * W && high < Shift(i) && low + head < W
  {
    var m := Shift(i);
    var q := W / m;
    assert q * m == W;
    var high, rest := y / q, y % q;
    assert y == high * q + rest;
    Scale(high, q, m);
    MulBelow(rest, m, q - 1, m);
    assert (q - 1) * m == W - m;
    ModUnique(y * m, W, high, rest * m);
  }

  /** One of the carry passes: column i of each block is added, shifted, to the first word of
      the block, `head` and `carry` taking what overflows into the next block.  What leaves the
      last block is returned. */
  method CarryPass(buff: array<Word>, i: nat, n: nat) returns (ghost over: nat)
    requires 1 <= i <= 3 && 4 * n <= buff.Length
    modifies buff
    ensures forall k :: 0 <= k < buff.Length && !(k % 4 == 0 && k < 4 * n) ==> buff[k] == old(buff[k])
    ensures Column(buff[..], 0, n) + Scaled(over, n) == Column(old(buff[..]), 0, n) + Column(old(buff[..]), i, n) * Shift(i)
  {
    hide Column, Scaled, Shift, Pow;
    ghost var s := buff[..];
    NothingFolded(s, i);
    var head: nat, carry: nat := 0, 0;
    var j := 0;
    while j < n
      invariant j <= n && head < Shift(i) && carry <= 1
      invariant forall k :: 0 <= k < buff.Length && !(k % 4 == 0 && k < 4 * j) ==> buff[k] == s[k]
      invariant Column(buff[..], 0, j) + Scaled(head + carry, j) == Column(s, 0, j) + Column(s, i, j) * Shift(i)
    {
      ghost var t, h, c := buff[..], head, carry;
      assert t[4 * j + i] == s[4 * j + i] && t[4 * j] == s[4 * j];
      head, carry := CarryBlock(buff, i, j, head, carry);
      BlockStep(s, t, buff[..], i, j, h + c, head + carry);
      j := j + 1;
    }
    over := head + carry;
  }

  lemma NothingFolded(s: seq<Word>, i: nat)
    requires 1 <= i <= 3
    ensures Shift(i) > 0 && Column(s, 0, 0) + Scaled(0, 0) == Column(s, 0, 0) + Column(s, i, 0) * Shift(i)
  {
  }

  /** One more block is folded. */
  lemma BlockStep(s: seq<Word>, t: seq<Word>, u: seq<Word>, i: nat, j: nat, before: nat, after: nat)
    requires 1 <= i <= 3 && 4 * j + 4 <= |s| && |t| == |s| && |u| == |s|
    requires u == t[4 * j := u[4 * j]]
    requires s[4 * j] + s[4 * j + i] * Shift(i) + before == u[4 * j] + after * W
    requires Column(t, 0, j) + Scaled(before, j) == Column(s, 0, j) + Column(s, i, j) * Shift(i)
    ensures Column(u, 0, j + 1) + Scaled(after, j + 1) == Column(s, 0, j + 1) + Column(s, i, j + 1) * Shift(i)
  {
    hide Shift;
    ColumnSame(t, u, 0, j);
    PassStep(s[4 * j], s[4 * j + i], Shift(i), before, u[4 * j], after, Pow(j));
    Distribute(Column(s, i, j), s[4 * j + i] * Pow(j), Shift(i));
  }

  /** Column i of block j is added to the first word of the block. */
  method CarryBlock(buff: array<Word>, i: nat, j: nat, head: nat, carry: nat) returns (head': nat, carry': nat)
    requires 1 <= i <= 3 && 4 * j + 4 <= buff.Length && head < Shift(i) && carry <= 1
    modifies buff
    ensures head' < Shift(i) && carry' <= 1
    ensures buff[..] == old(buff[..])[4 * j := buff[4 * j]]
    ensures old(buff[4 * j]) + old(buff[4 * j + i]) * Shift(i) + head + carry == buff[4 * j] + (head' + carry') * W
  {
    var m, y := Shift(i), buff[4 * j + i];
    ShiftSplit(y, i, head);
    var xi: Word := buff[4 * j];
    var yi: Word := (y * m) % W + head;
    var zi := (xi + yi + carry) % W;
    CarryBitIsCarry(xi, yi, carry);
    buff[4 * j] := zi;
    carry' := CarryBit(xi, yi, zi);
    head' := y / (W / m);
  }

  lemma PassStep(x: nat, y: nat, m: nat, before: nat, z: nat, after: nat, p: nat)
    requires x + y * m + before == z + after * W
    ensures x * p + (y * p) * m + before * p == z * p + after * (W * p)
  {
    Distribute(x + y * m, before, p);
    Distribute(x, y * m, p);
    Distribute(z, after * W, p);
    assert (y * m) * p == (y * p) * m;
    Scale(after, W, p);
  }

  /** The columns that passes i to 3 still have to fold in. */
  function Tail(s: seq<Word>, i: nat, n: nat): (r: nat)
    requires 1 <= i <= 4 && 4 * n <= |s|
    decreases 4 - i
  {
    if i == 4 then 0 else Column(s, i, n) * Shift(i) + Tail(s, i + 1, n)
  }

  /** The three passes. */
  method Fold(buff: array<Word>, n: nat) returns (ghost over: nat)
    requires 4 * n <= buff.Length
    modifies buff
    ensures forall k :: 4 * n <= k < buff.Length ==> buff[k] == old(buff[k])
    ensures Column(buff[..], 0, n) + Scaled(over, n) == Columns(old(buff[..])[..4 * n])
  {
    ghost var s := buff[..];
    over := 0;
    ColumnsOfBlocks(s, n);
    var i := 1;
    while i < 4
      invariant 1 <= i <= 4
      invariant forall k :: 0 <= k < buff.Length && !(k % 4 == 0 && k < 4 * n) ==> buff[k] == s[k]
      invariant Column(buff[..], 0, n) + Scaled(over, n) + Tail(s, i, n) == Columns(s[..4 * n])
    {
      hide Column, Columns, Scaled, Shift;
      ColumnSame(buff[..], s, i, n);
      ghost var more := CarryPass(buff, i, n);
      ScaledSum(over, more, n);
      over := over + more;
      i := i + 1;
    }
  }

  /** The first words of the blocks are the limbs of the result. */
  lemma {:induction false} LimbsOfBlocks(s: seq<Word>, r: seq<Word>, n: nat)
    requires 4 * n <= |s| && |r| == n
    requires forall j :: 0 <= j < n ==> r[j] == s[4 * j]
    ensures Ev(r) == Column(s, 0, n)
    decreases n
  {
    if n > 0 { LimbsOfBlocks(s, r[..n - 1], n - 1); }
  }

  lemma {:induction false} EvSplit(b: seq<Word>, j: nat)
    requires j <= |b|
    ensures Ev(b) == Ev(b[..j]) + Ev(b[j..]) * Pow(j)
    decreases |b|
  {
    var n := |b| - 1;
    if j == |b| {
      assert b[..j] == b && b[j..] == [];
    } else {
      EvSplit(b[..n], j);
      assert b[..n][..j] == b[..j] && b[..n][j..] == b[j..n] && b[j..][..n - j] == b[j..n];
      PowSum(n - j, j);
      assert Ev(b[j..]) == Ev(b[j..n]) + b[n] * Pow(n - j);
      assert Ev(b) == Ev(b[..n]) + b[n] * Pow(n);
      hide Ev, Pow;
      Distribute(Ev(b[j..n]), b[n] * Pow(n - j), Pow(j));
      Scale(b[n], Pow(n - j), Pow(j));
    }
  }

  lemma NoOverflow(low: nat, over: nat, p: nat, total: nat)
    requires low + over * p == total < p
    ensures over == 0 && low == total
  {
    if over > 0 { Grow(1, over, p); }
  }

  /** A row of `mul`. */
  method Row(buff: array<Word>, a: seq<Word>, b: seq<Word>, i: nat)
    requires |a| == |b| == 4 && i < 4 && buff.Length == 32 && Small(buff[..], 4 * i)
    requires Columns(buff[..]) == Rows(a, b, i)
    modifies buff
    ensures Small(buff[..], 4 * i + 4)
    ensures Columns(buff[..]) == Rows(a, b, i + 1)
  {
    hide Rows, Partial, Scaled, Columns, Times, And, Parts;
    var ai := a[i];
    var a0, a1, a2, a3 := And(ai, 0xFFFF), And(ai / 0x1_0000, 0xFFFF), And(ai / 0x1_0000_0000, 0xFFFF), ai / 0x1_0000_0000_0000;
    PartsOf(ai);
    RowStep(a, b, i);
    var j := 0;
    while j < 4
      invariant j <= 4 && Small(buff[..], 4 * i + j)
      invariant Columns(buff[..]) == Partial(a, b, i, j)
    {
      PairStep(a, b, i, j);
      AddProducts(buff, i + j, a0, a1, a2, a3, b[j], ai, 4 * i + j);
      j := j + 1;
    }
  }

  /** `mul`: the full product. */
  method Mul(a: seq<Word>, b: seq<Word>) returns (r: seq<Word>)
    requires |a| == |b| == 4
    ensures |r| == 8 && Ev(r) == Ev(a) * Ev(b)
  {
    var buff := new Word[32](_ => 0);
    ColumnsZero(buff[..]);
    var i := 0;
    while i < 4
      invariant i <= 4 && Small(buff[..], 4 * i)
      invariant Columns(buff[..]) == Rows(a, b, i)
    {
      Row(buff, a, b, i);
      i := i + 1;
    }
    assert a[..4] == a && buff[..][..32] == buff[..];
    ProductBelow(a, b);
    ghost var over := Fold(buff, 8);
    NoOverflow(Column(buff[..], 0, 8), over, Pow(8), Ev(a) * Ev(b));
    r := [buff[0], buff[4], buff[8], buff[12], buff[16], buff[20], buff[24], buff[28]];
    LimbsOfBlocks(buff[..], r, 8);
  }

  lemma ProductBelow(a: seq<Word>, b: seq<Word>)
    requires |a| == |b| == 4
    ensures Ev(a) * Ev(b) < Pow(8)
  {
    EvBound(a);
    EvBound(b);
    MulBelow(Ev(a), Ev(b), Pow(4) - 1, Pow(4) - 1);
    PowSum(4, 4);
    assert (Pow(4) - 1) * (Pow(4) - 1) < Pow(4) * Pow(4);
  }

  /** A row of `halfMul`; products of weight 2^256 and more are skipped. */
  method HalfRow(buff: array<Word>, a: seq<Word>, b: seq<Word>, i: nat, ghost skipped: nat) returns (ghost more: nat)
    requires |a| == |b| == 4 && i < 4 && buff.Length == 18 && Small(buff[..], 4 * i)
    requires Columns(buff[..]) + Scaled(skipped, 4) == Rows(a, b, i)
    modifies buff
    ensures Small(buff[..], 4 * i + 4)
    ensures Columns(buff[..]) + Scaled(more, 4) == Rows(a, b, i + 1)
  {
    hide Rows, Partial, Scaled, Columns, Ev, Pow, Times, And, Parts;
    var ai := a[i];
    var a0, a1, a2, a3 := And(ai, 0xFFFF), And(ai / 0x1_0000, 0xFFFF), And(ai / 0x1_0000_0000, 0xFFFF), ai / 0x1_0000_0000_0000;
    PartsOf(ai);
    RowStep(a, b, i);
    var j := 0;
    while j < 4
      invariant j <= 4 - i && Small(buff[..], 4 * i + j)
      invariant Columns(buff[..]) + Scaled(skipped, 4) == Partial(a, b, i, j)
    {
      if i + j > 3 { break; }
      PairStep(a, b, i, j);
      AddProducts(buff, i + j, a0, a1, a2, a3, b[j], ai, 4 * i + j);
      j := j + 1;
    }
    SkipRest(a, b, i, j);
    more := skipped + Times(ai, Ev(b[j..]));
    ScaledSum(skipped, Times(ai, Ev(b[j..])), 4);
  }

  lemma SkippedPart(a: nat, p: nat, y: nat, z: nat, q: nat)
    ensures (a * p) * (y + z * q) == (a * p) * y + (a * z) * (p * q)
  {
    Expand(a * p, y, z * q);
    Regroup(a, p, z, q);
  }

  lemma Expand(x: nat, y: nat, z: nat)
    ensures x * (y + z) == x * y + x * z
  {
  }

  /** What a row leaves out has weight 2^256. */
  lemma SkipRest(a: seq<Word>, b: seq<Word>, i: nat, j: nat)
    requires |a| == |b| == 4 && i < 4 && i + j == 4
    ensures Partial(a, b, i, 4) == Partial(a, b, i, j) + Scaled(Times(a[i], Ev(b[j..])), 4)
  {
    hide Ev, Pow, Rows;
    EvSplit(b, j);
    PowSum(i, j);
    assert b[..4] == b;
    SkippedPart(a[i], Pow(i), Ev(b[..j]), Ev(b[j..]), Pow(j));
  }

  /** `halfMul`: the product modulo 2^256. */
  method HalfMul(a: seq<Word>, b: seq<Word>) returns (r: seq<Word>)
    requires |a| == |b| == 4
    ensures |r| == 4 && Ev(r) == (Ev(a) * Ev(b)) % R
  {
    hide Rows, Scaled, Columns, Ev, Pow, HighPart, Column;
    var buff := new Word[18](_ => 0);
    ghost var skipped: nat := 0;
    NothingYet(buff[..], a, b);
    var i := 0;
    while i < 4
      invariant i <= 4 && Small(buff[..], 4 * i)
      invariant Columns(buff[..]) + Scaled(skipped, 4) == Rows(a, b, i)
    {
      skipped := HalfRow(buff, a, b, i, skipped);
      i := i + 1;
    }
    ghost var s := buff[..];
    HighColumns(s);
    ghost var over := Fold(buff, 4);
    r := [buff[0], buff[4], buff[8], buff[12]];
    LimbsOfBlocks(buff[..], r, 4);
    LowHalf(a, b, r, over, skipped, HighPart(s[16], s[17]));
  }

  lemma NothingYet(s: seq<Word>, a: seq<Word>, b: seq<Word>)
    requires forall k :: 0 <= k < |s| ==> s[k] == 0
    ensures Columns(s) + Scaled(0, 4) == Rows(a, b, 0)
  {
    ColumnsZero(s);
    assert a[..0] == [];
  }

  /** What is left is the product but for multiples of 2^256. */
  lemma LowHalf(a: seq<Word>, b: seq<Word>, r: seq<Word>, over: nat, skipped: nat, high: nat)
    requires |a| == |r| == 4 && Ev(r) + Scaled(over, 4) + Scaled(high, 4) + Scaled(skipped, 4) == Rows(a, b, 4)
    ensures Ev(r) == (Ev(a) * Ev(b)) % R
  {
    EvBound(r);
    PowFour();
    assert a[..4] == a;
    ScaledSum(over, high, 4);
    ScaledSum(over + high, skipped, 4);
    ModUnique(Ev(a) * Ev(b), R, over + high + skipped, Ev(r));
  }

  /** The last two columns of `halfMul` have weight 2^256. */
  lemma HighColumns(s: seq<Word>)
    requires |s| == 18
    ensures Columns(s) == Columns(s[..16]) + Scaled(HighPart(s[16], s[17]), 4)
  {
    hide Columns, Weight, Pow;
    ColumnsNext(s, 16);
    ColumnsNext(s, 17);
    assert s[..18] == s;
    WeightOfBlock(4);
    WeightStep(16);
    TwoColumns(s[16], s[17], Pow(4));
  }

  lemma TwoColumns(x: nat, y: nat, p: nat)
    ensures x * p + y * (0x1_0000 * p) == HighPart(x, y) * p
  {
    Scale(y, 0x1_0000, p);
    Distribute(x, y * 0x1_0000, p);
  }

  // ---------------------------------------------------------------------------------
  // Montgomery reduction
  // ---------------------------------------------------------------------------------

  lemma Constants()
    ensures Ev(NP) == NP_VALUE && |NP| == 4
    ensures P * NP_VALUE + 1 == R * R_INVERSE
    ensures 2 * P < R && P > 1
  {
    EvFour(NP);
  }

  /** Adding m * p makes the low half vanish. */
  lemma LowHalfVanishes(x: nat, low: nat, m: nat)
    requires low == x % R && m == (low * NP_VALUE) % R
    ensures (x + m * P) % R == 0
  {
    Constants();
    var q, k := x / R, (low * NP_VALUE) / R;
    assert x == q * R + low && low * NP_VALUE == k * R + m;
    Triple(low, NP_VALUE, P);
    assert (low * NP_VALUE) * P == (k * R) * P + m * P by { Distribute(k * R, m, P); }
    Triple(k, R, P);
    assert low * (P * NP_VALUE + 1) == low * (P * NP_VALUE) + low;
    Triple(low, R, R_INVERSE);
    Vanish(x + m * P, q, low * R_INVERSE, k * P);
  }

  /** (x y) z = x (z y), and (x y) z = y (x z). */
  lemma Triple(x: nat, y: nat, z: nat)
    ensures (x * y) * z == x * (z * y) == y * (x * z)
  {
    assert (x * y) * z == x * (y * z);
    assert y * (x * z) == (y * x) * z;
  }

  lemma Vanish(v: nat, a: nat, b: nat, c: nat)
    requires v == a * R + R * b - R * c
    ensures v % R == 0
  {
    assert v == (a + b - c) * R + 0;
    ModUnique(v, R, a + b - c, 0);
  }

  /** The sum divided by 2^256 is below 2p. */
  lemma QuotientBound(x: nat, m: nat, u: nat)
    requires x < P * P && m < R && x + m * P == u * R
    ensures u < 2 * P
  {
    Constants();
    Grow(m, R, P);
    Grow(P, R, P);
    assert (2 * P) * R == R * P + R * P;
    LessByFactor(u, 2 * P, R);
  }

  /** u times 2^256 is congruent to the product. */
  lemma Congruent(x: nat, m: nat, u: nat, c: nat)
    requires x + m * P == u * R && c == Reduced(u) && u < 2 * P
    ensures c < P && (c * R) % P == x % P
  {
    var d: nat := if u >= P then 1 else 0;
    assert c == u - d * P;
    assert c * R == u * R - (d * R) * P by { Triple(d, P, R); assert (u - d * P) * R == u * R - (d * P) * R; }
    assert c * R + (d * R) * P == x + m * P;
    SameResidue(c * R, d * R, x, m);
  }

  lemma SameResidue(x: nat, k: nat, y: nat, l: nat)
    requires x + k * P == y + l * P
    ensures x % P == y % P
  {
    var q, r := y / P, y % P;
    assert y == q * P + r;
    assert x == (q + l - k) * P + r;
    ModUnique(x, P, q + l - k, r);
  }

  /** The result of `gfpMul` is unique: 2^256 can be divided out modulo p. */
  lemma MontgomeryUnique(c: nat, d: nat)
    requires c < P && d < P && (c * R) % P == (d * R) % P
    ensures c == d
  {
    Constants();
    var k := (c * R) / P - (d * R) / P;
    assert c * R == d * R + k * P;
    Divided(c, d, R, R_INVERSE, NP_VALUE, P, k);
    SignOfMultiple(k * R_INVERSE + d * NP_VALUE - c * NP_VALUE, P);
  }

  /** r has the inverse i modulo m: it can be divided out of a congruence. */
  lemma Divided(c: nat, d: nat, r: nat, i: nat, n: nat, m: nat, k: int)
    requires r * i == m * n + 1 && c * r == d * r + k * m
    ensures c - d == (k * i + d * n - c * n) * m
  {
    assert (c * r) * i == c * (r * i) && (d * r) * i == d * (r * i);
    assert c * (m * n + 1) == (c * n) * m + c && d * (m * n + 1) == (d * n) * m + d;
    assert (d * r + k * m) * i == (d * r) * i + (k * i) * m;
  }

  /** `gfpMul`: the Montgomery product; c may be a or b. */
  method GfpMul(c: array<Word>, a: array<Word>, b: array<Word>)
    requires c.Length == 4 && a.Length == 4 && b.Length == 4 && Ev(a[..]) < P && Ev(b[..]) < P
    modifies c
    ensures Ev(c[..]) < P && (Ev(c[..]) * R) % P == (Ev(old(a[..])) * Ev(old(b[..]))) % P
  {
    hide Ev, Pow;
    Constants();
    PValue();
    var product := Mul(a[..], b[..]);
    var m := HalfMul(product[..4], NP);
    var multiple := Mul(m, P2);
    var high, carry := AddHigh(product, multiple);
    c[0], c[1], c[2], c[3] := high[0], high[1], high[2], high[3];
    assert c[..] == high;
    Reduction(product, m, multiple, high, carry, Ev(old(a[..])), Ev(old(b[..])));
    GfpCarry(c, carry);
  }

  /** The addition of the eight limbs; only the upper half is kept. */
  method AddHigh(x: seq<Word>, y: seq<Word>) returns (high: seq<Word>, carry: Word)
    requires |x| == |y| == 8
    ensures |high| == 4 && carry <= 1
    ensures (Ev(x) + Ev(y)) % R == 0 ==> (Ev(high) + carry * R) * R == Ev(x) + Ev(y)
  {
    hide Ev, Pow;
    var s, t := new Word[8](k requires 0 <= k < 8 => x[k]), new Word[8](k requires 0 <= k < 8 => y[k]);
    assert s[..] == x && t[..] == y;
    carry := AddLimbs(s, s, t);
    high := s[4..];
    HighLimbs(s[..], carry, Ev(x) + Ev(y));
    assert s[..][4..] == high;
  }

  lemma HighLimbs(z: seq<Word>, carry: nat, sum: nat)
    requires |z| == 8 && Ev(z) + carry * Pow(8) == sum
    ensures sum % R == 0 ==> (Ev(z[4..]) + carry * R) * R == sum
  {
    hide Ev, Pow;
    EvSplit(z, 4);
    EvBound(z[..4]);
    HighOnly(sum, Ev(z[..4]), Ev(z[4..]), carry);
  }

  lemma HighOnly(sum: nat, low: nat, high: nat, carry: nat)
    requires sum == low + high * Pow(4) + carry * Pow(8) && low < Pow(4)
    ensures sum % R == 0 ==> (high + carry * R) * R == sum
  {
    PowFour();
    PowSum(4, 4);
    assert carry * (R * R) == (carry * R) * R;
    Distribute(high, carry * R, R);
    ModUnique(sum, R, high + carry * R, low);
  }

  lemma Reduction(product: seq<Word>, m: seq<Word>, multiple: seq<Word>, high: seq<Word>, carry: nat, a: nat, b: nat)
    requires |product| == 8 && |m| == 4 && a < P && b < P && Ev(product) == a * b
    requires Ev(m) == (Ev(product[..4]) * NP_VALUE) % R && Ev(multiple) == Ev(m) * P
    requires (Ev(product) + Ev(multiple)) % R == 0 ==> (Ev(high) + carry * R) * R == Ev(product) + Ev(multiple)
    ensures Ev(high) + carry * R < 2 * P
    ensures var c := Reduced(Ev(high) + carry * R); c < P && (c * R) % P == (a * b) % P
  {
    hide Ev, Pow, Reduced;
    LowLimbs(product);
    ReductionOf(Ev(product), Ev(product[..4]), Ev(m), Ev(high) + carry * R, Ev(multiple), a, b);
  }

  lemma LowLimbs(s: seq<Word>)
    requires |s| == 8
    ensures Ev(s[..4]) == Ev(s) % R
  {
    EvSplit(s, 4);
    EvBound(s[..4]);
    PowFour();
    ModUnique(Ev(s), R, Ev(s[4..]), Ev(s[..4]));
  }

  /** The same on numbers. */
  lemma ReductionOf(x: nat, low: nat, m: nat, u: nat, multiple: nat, a: nat, b: nat)
    requires a < P && b < P && x == a * b && low == x % R && m == (low * NP_VALUE) % R && multiple == m * P
    requires (x + multiple) % R == 0 ==> u * R == x + multiple
    ensures u < 2 * P && Reduced(u) < P && (Reduced(u) * R) % P == (a * b) % P
  {
    LowHalfVanishes(x, low, m);
    BelowSquare(a, b);
    QuotientBound(x, m, u);
    Congruent(x, m, u, Reduced(u));
  }

  lemma BelowSquare(a: nat, b: nat)
    requires a < P && b < P
    ensures a * b < P * P
  {
    MulBelow(a, b, P - 1, P - 1);
  }
}
