/** The two floating-point constants that size buffers in libgnu/vasnprintf.c, read as exact
    rationals: 32 * 0.03345 = 1.0704 groups of nine digits per limb, and 2.322 / 32 limbs
    per factor of five. Both are justified here by one concrete comparison of powers. */
module Bounds {
  import opened Powers
  import opened Limbs

  /** `9 * ((size_t) (a_len * (32 * 0.03345f)) + 1)`. */
  function DecimalRoom(len: nat): (c: nat) {
    9 * DigitGroups(len)
  }

  function DigitGroups(len: nat): (t: nat) {
    len * 10704 / 10000 + 1
  }

  /** `(int) (abs_n * (2.322f / 32)) + 1`. */
  function FiveLimbs(n: nat): (c: nat) {
    n * 2322 / 32000 + 1
  }

  // ----- bounding a power of b by m * c^k, with m kept to a few digits

  predicate AtMost(b: nat, e: nat, m: nat, c: nat, k: nat) {
    Pow(b, e) <= m * Pow(c, k)
  }

  lemma FirstPower(b: nat, c: nat)
    ensures AtMost(b, 1, b, c, 0)
  {
    PowSucc(b, 0);
  }

  /** Multiply two bounds and drop the low digits of the mantissa, rounding up. */
  lemma Combine(b: nat, c: nat, e1: nat, m1: nat, k1: nat, e2: nat, m2: nat, k2: nat, m3: nat, j: nat, p: nat)
    requires AtMost(b, e1, m1, c, k1) && AtMost(b, e2, m2, c, k2)
    requires p == Pow(c, j) && m1 * m2 <= m3 * p
    ensures AtMost(b, e1 + e2, m3, c, k1 + k2 + j)
  {
    PowAdd(b, e1, e2);
    PowAdd(c, k1, k2);
    PowAdd(c, k1 + k2, j);
    CombineAlgebra(Pow(b, e1), Pow(b, e2), m1, m2, Pow(c, k1), Pow(c, k2), m3, p);
  }

  lemma CombineAlgebra(x: nat, y: nat, m1: nat, m2: nat, p1: nat, p2: nat, m3: nat, p: nat)
    requires x <= m1 * p1 && y <= m2 * p2 && m1 * m2 <= m3 * p
    ensures x * y <= m3 * ((p1 * p2) * p)
  {
    MulMono(x, m1 * p1, y);
    MulMono(y, m2 * p2, m1 * p1);
    assert (m1 * p1) * (m2 * p2) == (m1 * m2) * (p1 * p2) by {
      Regroup(m1, p1, m2, p2);
    }
    MulMono(m1 * m2, m3 * p, p1 * p2);
    assert (m3 * p) * (p1 * p2) == m3 * ((p1 * p2) * p) by {
      MulAssoc(m3, p, p1 * p2);
    }
  }

  lemma Regroup(a: int, b: int, c: int, d: int)
    ensures (a * b) * (c * d) == (a * c) * (b * d)
  {
    MulAssoc(a * b, c, d);
    MulAssoc(a, b, c);
    MulAssoc(a, c, b);
    MulAssoc(a * c, b, d);
  }

  lemma TenPowers()
    ensures Pow(10, 9) == 1000000000 && Pow(10, 10) == 10000000000
  {
    PowTriple(10, 3, 1000);
    PowSucc(10, 9);
  }

  lemma PowTriple(b: nat, n: nat, v: nat)
    requires Pow(b, n) == v
    ensures Pow(b, 3 * n) == v * v * v
  {
    PowAdd(b, n, n);
    PowAdd(b, 2 * n, n);
  }

  lemma TwoPowers()
    ensures Pow(2, 0) == 1 && Pow(2, 10) == 1024 && Pow(2, 20) == 1048576
    ensures Pow(2, 41) == 2199023255552 && Pow(2, 49) == 562949953421312
  {
    PowSucc(2, 0);
    PowTriple(2, 3, 8);
    PowSucc(2, 9);
    PowAdd(2, 10, 10);
    PowAdd(2, 20, 20);
    PowSucc(2, 40);
    PowTriple(2, 1, 2);
    PowAdd(2, 3, 5);
    PowAdd(2, 3, 2);
    PowAdd(2, 41, 8);
  }

  /** beta^199 < 10^1917, which is 10^(9 * 213). */
  lemma BetaTo199()
    ensures Pow(0x1_0000_0000, 199) < Pow(10, 1917)
  {
    hide *;
    TenPowers();
    FirstPower(0x1_0000_0000, 10);
    Combine(0x1_0000_0000, 10, 1, 4294967296, 0, 1, 4294967296, 0, 1844674408, 10, 10000000000);
    Combine(0x1_0000_0000, 10, 2, 1844674408, 10, 1, 4294967296, 0, 7922816255, 9, 1000000000);
    Combine(0x1_0000_0000, 10, 3, 7922816255, 19, 3, 7922816255, 19, 6277101742, 10, 10000000000);
    Combine(0x1_0000_0000, 10, 6, 6277101742, 48, 6, 6277101742, 48, 3940200628, 10, 10000000000);
    Combine(0x1_0000_0000, 10, 12, 3940200628, 106, 12, 3940200628, 106, 1552518099, 10, 10000000000);
    Combine(0x1_0000_0000, 10, 24, 1552518099, 222, 24, 1552518099, 222, 2410312448, 9, 1000000000);
    Combine(0x1_0000_0000, 10, 48, 2410312448, 453, 1, 4294967296, 0, 1035221314, 10, 10000000000);
    Combine(0x1_0000_0000, 10, 49, 1035221314, 463, 49, 1035221314, 463, 1071683169, 9, 1000000000);
    Combine(0x1_0000_0000, 10, 98, 1071683169, 935, 1, 4294967296, 0, 4602844163, 9, 1000000000);
    Combine(0x1_0000_0000, 10, 99, 4602844163, 944, 99, 4602844163, 944, 2118617439, 10, 10000000000);
    Combine(0x1_0000_0000, 10, 198, 2118617439, 1898, 1, 4294967296, 0, 9099392614, 9, 1000000000);
    Conclude(0x1_0000_0000, 199, 9099392614, 10, 1907, 10, 10000000000);
  }

  lemma Conclude(b: nat, e: nat, m: nat, c: nat, k: nat, j: nat, p: nat)
    requires AtMost(b, e, m, c, k) && p == Pow(c, j) && m < p && c > 0
    ensures Pow(b, e) < Pow(c, k + j)
  {
    PowAdd(c, k, j);
    MulStrict(m, p, Pow(c, k));
  }

  /** 5^205 < 2^476. */
  lemma FiveTo205()
    ensures Pow(5, 205) < Pow(2, 476)
  {
    hide *;
    TwoPowers();
    FirstPower(5, 2);
    Combine(5, 2, 1, 5, 0, 1, 5, 0, 25, 0, 1);
    Combine(5, 2, 2, 25, 0, 1, 5, 0, 125, 0, 1);
    Combine(5, 2, 3, 125, 0, 3, 125, 0, 15625, 0, 1);
    Combine(5, 2, 6, 15625, 0, 6, 15625, 0, 244140625, 0, 1);
    Combine(5, 2, 12, 244140625, 0, 12, 244140625, 0, 58207660913468, 10, 1024);
    Combine(5, 2, 24, 58207660913468, 10, 1, 5, 0, 291038304567340, 0, 1);
    Combine(5, 2, 25, 291038304567340, 10, 25, 291038304567340, 10, 38518598887745502, 41, 2199023255552);
    Combine(5, 2, 50, 38518598887745502, 61, 1, 5, 0, 188079096131570, 10, 1024);
    Combine(5, 2, 51, 188079096131570, 71, 51, 188079096131570, 71, 16086117467088275, 41, 2199023255552);
    Combine(5, 2, 102, 16086117467088275, 183, 102, 16086117467088275, 183, 117671868413236779874, 41, 2199023255552);
    Combine(5, 2, 204, 117671868413236779874, 407, 1, 5, 0, 561103193346199, 20, 1048576);
    Conclude(5, 205, 561103193346199, 2, 427, 49, 562949953421312);
  }

  // ----- from the concrete comparison to every length

  lemma WIsPow(n: nat)
    ensures W(n) == Pow(0x1_0000_0000, n)
  {
  }

  /** b^p <= c^q carries over to every pair of exponents in a better proportion. */
  lemma Proportion(b: nat, p: nat, c: nat, q: nat, x: nat, y: nat)
    requires c > 1 && b > 0 && Pow(b, p) <= Pow(c, q)
    requires q * x < p * y
    ensures Pow(b, x) < Pow(c, y)
  {
    hide *;
    if Pow(c, y) <= Pow(b, x) {
      PowMonoBase(Pow(c, y), Pow(b, x), p);
      PowMonoBase(Pow(b, p), Pow(c, q), x);
      PowStrictExp(c, q * x, p * y);
      PowSwap(c, y, p);
      PowSwap(b, x, p);
      PowOfPow(b, p, x);
      PowOfPow(c, q, x);
      assert false;
    }
  }

  lemma PowSwap(b: nat, x: nat, p: nat)
    ensures Pow(Pow(b, x), p) == Pow(b, p * x)
  {
    hide *;
    PowOfPow(b, x, p);
    assert x * p == p * x;
  }

  /** Every number of `len` limbs has at most `DigitGroups(len)` groups of nine digits. */
  lemma DecimalRoomSuffices(len: nat)
    ensures W(len) < Pow(1000000000, DigitGroups(len))
    ensures len <= DigitGroups(len)
  {
    hide Pow, W;
    var t := DigitGroups(len);
    assert 213 * len < 199 * t;
    BetaTo199();
    TenPowers();
    WIsPow(len);
    PowOfPow(10, 9, 213);
    Proportion(0x1_0000_0000, 199, Pow(10, 9), 213, len, t);
  }

  /** 5^n fits in `FiveLimbs(n)` limbs: a limb above that would make it too large. */
  lemma FiveLimbsSuffice(n: nat, len: nat)
    requires len > 0 && W(len - 1) <= Pow(5, n)
    ensures len <= FiveLimbs(n)
  {
    hide Pow, W;
    if len > FiveLimbs(n) {
      FiveTo205();
      WIsPow(len - 1);
      PowSquares();
      PowOfPow(2, 32, len - 1);
      assert 476 * n < 205 * (32 * (len - 1));
      Proportion(5, 205, 2, 476, n, 32 * (len - 1));
    }
  }

  lemma PowSquares()
    ensures Pow(2, 32) == 0x1_0000_0000
  {
    TwoPowers();
    PowAdd(2, 20, 10);
    PowAdd(2, 30, 2);
    PowSucc(2, 1);
    PowSucc(2, 0);
  }

  lemma WIsPowOfTwo(n: nat)
    ensures W(n) == Pow(2, 32 * n)
  {
    hide Pow, W;
    WIsPow(n);
    PowSquares();
    PowOfPow(2, 32, n);
  }

  /** Where thirteen limbs stand among the powers of ten. */
  lemma ThirteenLimbs()
    ensures DecimalRoom(13) == 126
    ensures Pow(10, 125) <= 3 * Pow(2, 414) < W(13) < Pow(10, 126)
    ensures W(12) <= 3 * Pow(2, 414)
  {
    hide Pow, W;
    BetaTo199();
    WIsPow(13);
    Proportion(0x1_0000_0000, 199, 10, 1917, 13, 126);
    FiveTo125();
    PowAdd(2, 125, 289);
    TenIsTwoTimesFive(125);
    MulMono(Pow(5, 125), 3 * Pow(2, 289), Pow(2, 125));
    WIsPowOfTwo(12);
    WIsPowOfTwo(13);
    PowMonoExp(2, 384, 414);
    PowSucc(2, 414);
    PowSucc(2, 415);
  }

  lemma TwelveLimbsBelow()
    ensures W(12) <= Pow(10, 125)
  {
    hide Pow, W;
    BetaTo199();
    WIsPow(12);
    Proportion(0x1_0000_0000, 199, 10, 1917, 12, 125);
  }

  /** 5^125 < 3 * 2^289, from the squares of both. */
  lemma FiveTo125()
    ensures Pow(5, 125) < 3 * Pow(2, 289)
  {
    hide Pow;
    FiveTo205();
    Proportion(5, 205, 2, 476, 250, 581);
    PowAdd(5, 125, 125);
    PowAdd(2, 289, 289);
    PowSucc(2, 578);
    PowSucc(2, 579);
    PowSucc(2, 580);
    SquaresDecide(Pow(5, 125), 3 * Pow(2, 289));
  }

  lemma SquaresDecide(a: nat, b: nat)
    requires a * a < b * b
    ensures a < b
  {
    if b <= a {
      MulMono(b, a, b);
      MulMono(b, a, a);
    }
  }
}
