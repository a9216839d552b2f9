/** 64-bit words as integers, with the bit operations crypto/bn256/cloudflare uses, and the
    carries it recovers from top bits. */
module Words {

  const W: nat := 0x1_0000_0000_0000_0000

  const TOP: nat := 0x8000_0000_0000_0000

  type Word = x: int | 0 <= x < W

  function Pow2(n: nat): (p: nat)
    ensures p > 0
  {
    if n == 0 then 1 else 2 * Pow2(n - 1)
  }

  /** Bitwise and of the low n bits. */
  function AndBits(x: nat, y: nat, n: nat): (r: nat)
    ensures r < Pow2(n)
  {
    if n == 0 then 0
    else (if x % 2 == 1 && y % 2 == 1 then 1 else 0) + 2 * AndBits(x / 2, y / 2, n - 1)
  }

  /** Bitwise or of the low n bits. */
  function OrBits(x: nat, y: nat, n: nat): (r: nat)
    ensures r < Pow2(n)
  {
    if n == 0 then 0
    else (if x % 2 == 1 || y % 2 == 1 then 1 else 0) + 2 * OrBits(x / 2, y / 2, n - 1)
  }

  lemma Pow2Values()
    ensures Pow2(16) == 0x1_0000 && Pow2(32) == 0x1_0000_0000 && Pow2(63) == TOP && Pow2(64) == W
  {
    assert Pow2(8) == 0x100;
    Pow2Sum(8, 8);
    Pow2Sum(16, 16);
    Pow2Sum(32, 32);
  }

  lemma {:induction false} Pow2Sum(m: nat, n: nat)
    ensures Pow2(m + n) == Pow2(m) * Pow2(n)
    decreases m
  {
    if m > 0 {
      Pow2Sum(m - 1, n);
      assert 2 * (Pow2(m - 1) * Pow2(n)) == (2 * Pow2(m - 1)) * Pow2(n);
    }
  }

  function And(x: Word, y: Word): (r: Word)
  {
    Pow2Values();
    AndBits(x, y, 64)
  }

  function Or(x: Word, y: Word): (r: Word)
  {
    Pow2Values();
    OrBits(x, y, 64)
  }

  function Not(x: Word): (r: Word) { W - 1 - x }

  // ---------------------------------------------------------------------------------
  // Top bits
  // ---------------------------------------------------------------------------------

  /** The top bit of a bitwise operation is the operation on the top bits. */
  lemma {:induction false} TopBits(x: nat, y: nat, n: nat)
    requires x < Pow2(n + 1) && y < Pow2(n + 1)
    ensures AndBits(x, y, n + 1) >= Pow2(n) <==> x >= Pow2(n) && y >= Pow2(n)
    ensures OrBits(x, y, n + 1) >= Pow2(n) <==> x >= Pow2(n) || y >= Pow2(n)
    decreases n
  {
    if n > 0 { TopBits(x / 2, y / 2, n - 1); }
  }

  predicate Top(x: Word) { x >= TOP }

  lemma TopAnd(x: Word, y: Word)
    ensures Top(And(x, y)) <==> Top(x) && Top(y)
  {
    Pow2Values();
    TopBits(x, y, 63);
  }

  lemma TopOr(x: Word, y: Word)
    ensures Top(Or(x, y)) <==> Top(x) || Top(y)
  {
    Pow2Values();
    TopBits(x, y, 63);
  }

  /** `(x&y | (x|y)&^z) >> 63`. */
  function CarryBit(x: Word, y: Word, z: Word): (c: nat)
  {
    Or(And(x, y), And(Or(x, y), Not(z))) / TOP
  }

  /** `(y&^x | (y|^x)&z) >> 63`. */
  function BorrowBit(x: Word, y: Word, z: Word): (c: nat)
  {
    Or(And(y, Not(x)), And(Or(y, Not(x)), z)) / TOP
  }

  /** The bit formula is the carry of the addition. */
  lemma CarryBitIsCarry(x: Word, y: Word, c: nat)
    requires c <= 1
    ensures var z := (x + y + c) % W;
            CarryBit(x, y, z) <= 1 && x + y + c == z + CarryBit(x, y, z) * W
  {
    hide And, Or;
    var z := (x + y + c) % W;
    TopAnd(x, y);
    TopOr(x, y);
    TopAnd(Or(x, y), Not(z));
    TopOr(And(x, y), And(Or(x, y), Not(z)));
    assert x + y + c == z || x + y + c == z + W;
    assert CarryBit(x, y, z) == if Top(Or(And(x, y), And(Or(x, y), Not(z)))) then 1 else 0;
  }

  /** The bit formula is the borrow of the subtraction. */
  lemma BorrowBitIsBorrow(x: Word, y: Word, c: nat)
    requires c <= 1
    ensures var z := (x - y - c) % W;
            BorrowBit(x, y, z) <= 1 && x - y - c == z - BorrowBit(x, y, z) * W
  {
    var z := (x - y - c) % W;
    TopAnd(y, Not(x));
    TopOr(y, Not(x));
    TopAnd(Or(y, Not(x)), z);
    TopOr(And(y, Not(x)), And(Or(y, Not(x)), z));
    hide And, Or;
    assert x - y - c == z || x - y - c == z - W;
    assert BorrowBit(x, y, z) == if Top(Or(And(y, Not(x)), And(Or(y, Not(x)), z))) then 1 else 0;
  }

  // ---------------------------------------------------------------------------------
  // Masks
  // ---------------------------------------------------------------------------------

  lemma {:induction false} AndZero(x: nat, n: nat)
    ensures AndBits(x, 0, n) == 0
  {
    if n > 0 { AndZero(x / 2, n - 1); }
  }

  lemma PowStep(m: nat)
    ensures Pow2(m) == if m == 0 then 1 else 2 * Pow2(m - 1)
  {
  }

  /** Masking with the low m bits. */
  lemma {:induction false} LowBitsMask(x: nat, m: nat, n: nat)
    requires m <= n
    ensures AndBits(x, Pow2(m) - 1, n) == x % Pow2(m)
    decreases n
  {
    hide Pow2, AndBits;
    if m == 0 {
      PowStep(0);
      AndZero(x, n);
    } else {
      PowStep(m);
      LowBitsMask(x / 2, m - 1, n - 1);
      OddMask(x, Pow2(m - 1), n);
      HalfMod(x, Pow2(m - 1));
    }
  }

  /** The lowest bit of an odd mask. */
  lemma OddMask(x: nat, p: nat, n: nat)
    requires p > 0 && n > 0
    ensures AndBits(x, 2 * p - 1, n) == x % 2 + 2 * AndBits(x / 2, p - 1, n - 1)
  {
    assert (2 * p - 1) / 2 == p - 1;
  }

  lemma HalfMod(x: nat, p: nat)
    requires p > 0
    ensures x % (2 * p) == x % 2 + 2 * ((x / 2) % p)
  {
    var q, r := (x / 2) / p, (x / 2) % p;
    assert x / 2 == q * p + r;
    assert x == q * (2 * p) + (2 * r + x % 2);
    ModUnique(x, 2 * p, q, 2 * r + x % 2);
  }

  /** A smaller multiple has a smaller factor. */
  lemma LessByFactor(u: nat, v: nat, r: nat)
    requires u * r < v * r
    ensures u < v
  {
    if v <= u { Grow(v, u, r); }
  }

  lemma {:induction false} Grow(x: nat, y: nat, p: nat)
    requires x <= y
    ensures x * p <= y * p
    decreases p
  {
    if p > 0 {
      Grow(x, y, p - 1);
      assert x * p == x * (p - 1) + x && y * p == y * (p - 1) + y;
    }
  }

  lemma SignOfMultiple(k: int, m: nat)
    ensures k > 0 ==> k * m >= m
    ensures k < 0 ==> k * m <= 0 - m
  {
    if k > 0 { AtLeastOnce(k, m); }
    if k < 0 {
      AtLeastOnce(0 - k, m);
      assert k * m == 0 - (0 - k) * m;
    }
  }

  lemma AtLeastOnce(k: nat, m: nat)
    requires k > 0
    ensures k * m >= m
  {
    var rest: nat := k - 1;
    assert k * m == rest * m + m;
  }

  lemma ModUnique(x: int, m: nat, q: int, r: int)
    requires m > 0 && x == q * m + r && 0 <= r < m
    ensures x % m == r && x / m == q
  {
    var k := x / m - q;
    assert k * m == r - x % m by { assert x == (x / m) * m + x % m; assert (x / m - q) * m == (x / m) * m - q * m; }
    SignOfMultiple(k, m);
  }

  lemma MaskLow(x: Word)
    ensures And(x, 0xFFFF) == x % 0x1_0000
    ensures And(x, 0xFFFF_FFFF) == x % 0x1_0000_0000
  {
    Pow2Values();
    LowBitsMask(x, 16, 64);
    LowBitsMask(x, 32, 64);
  }

  lemma MaskAll(x: Word)
    ensures And(x, W - 1) == x && And(x, 0) == 0
  {
    Pow2Values();
    PowStep(0);
    hide AndBits, Pow2;
    LowBitsMask(x, 64, 64);
    LowBitsMask(x, 0, 64);
  }

  lemma {:induction false} OrZeroBits(x: nat, n: nat)
    requires x < Pow2(n)
    ensures OrBits(x, 0, n) == x && OrBits(0, x, n) == x
  {
    if n > 0 { OrZeroBits(x / 2, n - 1); }
  }

  lemma OrZero(x: Word)
    ensures Or(x, 0) == x && Or(0, x) == x
  {
    Pow2Values();
    OrZeroBits(x, 64);
  }

  /** The selection `(a&m) | (b&^m)` by a mask that is all ones or zero. */
  lemma Select(a: Word, b: Word, mask: Word)
    requires mask == 0 || mask == W - 1
    ensures Or(And(a, mask), And(b, Not(mask))) == if mask == 0 then b else a
  {
    MaskAll(a);
    MaskAll(b);
    OrZero(a);
    OrZero(b);
  }
}
