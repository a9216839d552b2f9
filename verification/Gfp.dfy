/** Field elements of crypto/bn256/cloudflare/gfp_generic.go: addition, subtraction and negation
    modulo p on four 64-bit limbs. */
module Gfp {
  import opened Words

  /** p2, little-endian. */
  const P2: seq<Word> := [0x3c208c16d87cfd47, 0x97816a916871ca8d, 0xb85045b68181585d, 0x30644e72e131a029]

  const P: nat := 0x30644e72e131a029_b85045b68181585d_97816a916871ca8d_3c208c16d87cfd47

  /** 2^256. */
  const R: nat := 0x1_0000000000000000_0000000000000000_0000000000000000_0000000000000000

  /** Powers of 2^64. */
  function Pow(k: nat): (p: nat)
    ensures p > 0
  {
    if k == 0 then 1 else W * Pow(k - 1)
  }

  /** The number with the given limbs, least significant first. */
  function Ev(s: seq<Word>): (n: nat)
  {
    if s == [] then 0 else Ev(s[..|s| - 1]) + s[|s| - 1] * Pow(|s| - 1)
  }

  lemma PowFour()
    ensures Pow(4) == R
  {
    assert Pow(1) == W;
    assert Pow(2) == W * W;
    assert Pow(3) == W * (W * W);
    assert Pow(4) == W * (W * (W * W));
  }

  lemma EvFour(s: seq<Word>)
    requires |s| == 4
    ensures Ev(s) == s[0] + s[1] * W + s[2] * (W * W) + s[3] * (W * (W * W))
  {
    EvNext(s, 0);
    EvNext(s, 1);
    EvNext(s, 2);
    EvNext(s, 3);
    assert s[..4] == s;
    assert Pow(0) == 1 && Pow(1) == W && Pow(2) == W * W && Pow(3) == W * (W * W);
  }

  /** One more limb. */
  lemma EvNext(s: seq<Word>, i: nat)
    requires i < |s|
    ensures Ev(s[..i + 1]) == Ev(s[..i]) + s[i] * Pow(i)
  {
    assert s[..i + 1][..i] == s[..i];
  }

  lemma PValue()
    ensures Ev(P2) == P && |P2| == 4
  {
    EvFour(P2);
  }

  lemma LimbBound(x: Word, p: nat)
    ensures x * p + p <= W * p
  {
    Grow(x + 1, W, p);
  }

  lemma {:induction false} EvBound(s: seq<Word>)
    ensures Ev(s) < Pow(|s|)
    decreases |s|
  {
    if s != [] {
      var n := |s| - 1;
      EvBound(s[..n]);
      LimbBound(s[n], Pow(n));
    }
  }

  // ---------------------------------------------------------------------------------
  // One step of a carry chain
  // ---------------------------------------------------------------------------------

  /** Adding a limb at weight `p`. */
  lemma AddStep(x: nat, y: nat, z: nat, k: nat, k': nat, p: nat)
    requires x + y + k == z + k' * W
    ensures x * p + y * p + k * p == z * p + k' * (W * p)
  {
    assert (x + y + k) * p == (z + k' * W) * p;
    assert (k' * W) * p == k' * (W * p);
  }

  /** Subtracting a limb at weight `p`. */
  lemma SubStep(x: nat, y: nat, z: nat, k: nat, k': nat, p: nat)
    requires x - y - k == z - k' * W
    ensures x * p - y * p - k * p == z * p - k' * (W * p)
  {
    assert (x - y - k) * p == (z - k' * W) * p;
    assert (k' * W) * p == k' * (W * p);
  }

  lemma BitAndNot(c: Word, h: Word)
    requires c <= 1 && h <= 1
    ensures And(c, Not(h)) == if c == 1 && h == 0 then 1 else 0
  {
    Pow2Values();
    AndLeftZero(Not(h) / 2, 63);
    assert c / 2 == 0;
  }

  lemma {:induction false} AndLeftZero(x: nat, n: nat)
    ensures AndBits(0, x, n) == 0
  {
    if n > 0 { AndLeftZero(x / 2, n - 1); }
  }

  // ---------------------------------------------------------------------------------
  // The operations
  // ---------------------------------------------------------------------------------

  /** The value below p of a number below 2p. */
  function Reduced(n: nat): (r: nat)
  {
    if n >= P then n - P else n
  }

  /** `gfpCarry`: one conditional subtraction of p; `head` is the limb above. */
  method GfpCarry(a: array<Word>, head: Word)
    requires a.Length == 4 && head <= 1
    modifies a
    ensures Ev(old(a[..])) + head * R < 2 * P ==> Ev(a[..]) == Reduced(Ev(old(a[..])) + head * R)
  {
    ghost var s := a[..];
    var b := new Word[4];
    var carry: Word := 0;
    var i := 0;
    PValue();
    while i < 4
      invariant i <= 4 && carry <= 1 && a[..] == s
      invariant Ev(b[..i]) - carry * Pow(i) == Ev(s[..i]) - Ev(P2[..i])
    {
      var pi, ai := P2[i], a[i];
      var bi := (ai - pi - carry) % W;
      BorrowBitIsBorrow(ai, pi, carry);
      SubStep(ai, pi, bi, carry, BorrowBit(ai, pi, bi), Pow(i));
      EvNext(s, i);
      EvNext(P2, i);
      ghost var before := b[..i];
      b[i] := bi;
      assert b[..i] == before;
      EvNext(b[..], i);
      assert b[..][..i] == b[..i] && b[..][..i + 1] == b[..i + 1];
      carry := BorrowBit(ai, pi, bi);
      i := i + 1;
    }
    assert s[..4] == s && P2[..4] == P2 && b[..4] == b[..];
    PowFour();
    BitAndNot(carry, head);
    EvBound(s);
    EvBound(b[..]);
    ghost var borrow := carry;
    carry := And(carry, Not(head));
    var mask: Word := (0 - carry) % W;
    SelectLimbs(a, b, mask);
    assert borrow * R == if borrow == 1 then R else 0;
    assert head * R == if head == 1 then R else 0;
  }

  /** The selection by a mask of all ones or zero. */
  method SelectLimbs(a: array<Word>, b: array<Word>, mask: Word)
    requires a.Length == b.Length == 4 && a != b && (mask == 0 || mask == W - 1)
    modifies a
    ensures a[..] == if mask == 0 then b[..] else old(a[..])
  {
    var nmask := Not(mask);
    for i := 0 to 4
      invariant forall k :: 0 <= k < i ==> a[k] == if mask == 0 then b[k] else old(a[k])
      invariant forall k :: i <= k < 4 ==> a[k] == old(a[k])
      invariant b[..] == old(b[..])
    {
      Select(a[i], b[i], mask);
      a[i] := Or(And(a[i], mask), And(b[i], nmask));
    }
  }

  /** c := a - b limb by limb; the result may overwrite b.  The borrow is returned. */
  method SubLimbs(c: array<Word>, a: seq<Word>, b: array<Word>) returns (carry: Word)
    requires c.Length == 4 && |a| == 4 && b.Length == 4
    modifies c
    ensures carry <= 1 && Ev(c[..]) - carry * R == Ev(a) - Ev(old(b[..]))
    ensures b != c ==> b[..] == old(b[..])
  {
    ghost var t := b[..];
    carry := 0;
    var i := 0;
    while i < 4
      invariant i <= 4 && carry <= 1
      invariant forall k :: i <= k < 4 ==> b[k] == t[k]
      invariant b != c ==> b[..] == t
      invariant Ev(c[..i]) - carry * Pow(i) == Ev(a[..i]) - Ev(t[..i])
    {
      var pi, bi := a[i], b[i];
      var ci := (pi - bi - carry) % W;
      BorrowBitIsBorrow(pi, bi, carry);
      SubStep(pi, bi, ci, carry, BorrowBit(pi, bi, ci), Pow(i));
      EvNext(a, i);
      EvNext(t, i);
      ghost var before := c[..i];
      c[i] := ci;
      assert c[..i] == before;
      EvNext(c[..], i);
      assert c[..][..i] == c[..i] && c[..][..i + 1] == c[..i + 1];
      carry := BorrowBit(pi, bi, ci);
      i := i + 1;
    }
    PowFour();
    assert a[..4] == a && t[..4] == t && c[..4] == c[..];
  }

  /** c := a + b limb by limb; the result may overwrite a or b.  The carry is returned. */
  method AddLimbs(c: array<Word>, a: array<Word>, b: array<Word>) returns (carry: Word)
    requires c.Length == a.Length == b.Length
    modifies c
    ensures carry <= 1 && Ev(c[..]) + carry * Pow(c.Length) == Ev(old(a[..])) + Ev(old(b[..]))
  {
    ghost var s, t := a[..], b[..];
    carry := 0;
    var i := 0;
    while i < a.Length
      invariant i <= a.Length && carry <= 1
      invariant forall k :: i <= k < a.Length ==> a[k] == s[k] && b[k] == t[k]
      invariant Ev(c[..i]) + carry * Pow(i) == Ev(s[..i]) + Ev(t[..i])
    {
      var ai, bi := a[i], b[i];
      var ci := (ai + bi + carry) % W;
      CarryBitIsCarry(ai, bi, carry);
      AddStep(ai, bi, ci, carry, CarryBit(ai, bi, ci), Pow(i));
      EvNext(s, i);
      EvNext(t, i);
      ghost var before := c[..i];
      c[i] := ci;
      assert c[..i] == before;
      EvNext(c[..], i);
      assert c[..][..i] == c[..i] && c[..][..i + 1] == c[..i + 1];
      carry := CarryBit(ai, bi, ci);
      i := i + 1;
    }
    assert s[..i] == s && t[..i] == t && c[..i] == c[..];
  }

  /** `gfpNeg`; c may be a. */
  method GfpNeg(c: array<Word>, a: array<Word>)
    requires c.Length == 4 && a.Length == 4 && Ev(a[..]) < P
    modifies c
    ensures Ev(c[..]) < P && (Ev(c[..]) + Ev(old(a[..]))) % P == 0
  {
    PValue();
    var borrow := SubLimbs(c, P2, a);
    EvBound(c[..]);
    PowFour();
    NoBorrow(Ev(c[..]), borrow, P - Ev(old(a[..])));
    GfpCarry(c, 0);
  }

  /** Four limbs hold a difference that is not negative without borrow. */
  lemma NoBorrow(n: nat, borrow: nat, d: nat)
    requires n < R && borrow <= 1 && n - borrow * R == d
    ensures borrow == 0 && n == d
  {
  }

  /** `gfpAdd`; c may be a or b. */
  method GfpAdd(c: array<Word>, a: array<Word>, b: array<Word>)
    requires c.Length == 4 && a.Length == 4 && b.Length == 4 && Ev(a[..]) < P && Ev(b[..]) < P
    modifies c
    ensures Ev(c[..]) == (Ev(old(a[..])) + Ev(old(b[..]))) % P
  {
    PowFour();
    var carry := AddLimbs(c, a, b);
    GfpCarry(c, carry);
  }

  /** `gfpSub`; c may be a or b. */
  method GfpSub(c: array<Word>, a: array<Word>, b: array<Word>)
    requires c.Length == 4 && a.Length == 4 && b.Length == 4 && Ev(a[..]) < P && Ev(b[..]) < P
    modifies c
    ensures Ev(c[..]) == (Ev(old(a[..])) - Ev(old(b[..]))) % P
  {
    PValue();
    ghost var x, y := Ev(a[..]), Ev(b[..]);
    var t := new Word[4];
    var borrow := SubLimbs(t, P2, b);
    EvBound(t[..]);
    PowFour();
    NoBorrow(Ev(t[..]), borrow, P - y);
    var carry := AddLimbs(c, a, t);
    GfpCarry(c, carry);
    SubMod(x, y, Ev(c[..]));
  }

  lemma SubMod(x: nat, y: nat, r: nat)
    requires x < P && y < P && r == Reduced(x + (P - y))
    ensures r == (x - y) % P
  {
  }
}
