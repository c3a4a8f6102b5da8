/** Powers of natural numbers, and rounding a quotient of naturals to the nearest
    integer with ties to even. Nothing here knows about limbs. */
module Powers {

  function Pow(b: nat, e: nat): (p: nat)
    ensures b > 0 ==> p > 0
    decreases e
  {
    if e == 0 then 1 else b * Pow(b, e - 1)
  }

  function Max(a: int, b: int): int {
    if a >= b then a else b
  }

  function Min(a: int, b: int): int {
    if a <= b then a else b
  }

  lemma MulMono(a: int, b: int, c: int)
    requires a <= b && 0 <= c
    ensures a * c <= b * c
    ensures c * a <= c * b
  {
  }

  lemma MulAssoc(a: int, b: int, c: int)
    ensures a * (b * c) == (a * b) * c
  {
  }

  /** The product, as a name that a proof can hide so that it stays linear. */
  function Times(a: int, b: int): (p: int) {
    a * b
  }

  lemma TimesDist(a: int, b: int, c: int)
    ensures Times(a, b + c) == Times(a, b) + Times(a, c)
    ensures Times(b + c, a) == Times(b, a) + Times(c, a)
  {
  }

  lemma TimesAssoc(a: int, b: int, c: int)
    ensures Times(a, Times(b, c)) == Times(Times(a, b), c)
  {
    MulAssoc(a, b, c);
  }

  lemma TimesComm(a: int, b: int)
    ensures Times(a, b) == Times(b, a)
  {
  }

  lemma TimesMono(a: int, b: int, c: int)
    requires a <= b && 0 <= c
    ensures Times(a, c) <= Times(b, c)
    ensures Times(c, a) <= Times(c, b)
  {
    MulMono(a, b, c);
  }

  lemma TimesZero(p: int)
    ensures Times(0, p) == 0
  {
  }

  lemma TimesScale(v: int, d: int)
    ensures Times(0x1_0000_0000 * v, d) == 0x1_0000_0000 * Times(v, d)
  {
  }

  lemma TimesOne(x: int)
    ensures Times(1, x) == x
  {
  }

  lemma TimesDown(q: int, t: int)
    ensures Times(q - 1, t) == Times(q, t) - t
    ensures Times(q - 2, t) == Times(q, t) - 2 * t
    ensures Times(q + 1, t) == Times(q, t) + t
    ensures q == 0 ==> Times(q, t) == 0
    ensures q == 1 ==> Times(q, t) == t
  {
  }

  lemma TimesSmall(c: int, w: int)
    requires w > 0
    ensures c == 0 ==> Times(c, w) == 0
    ensures c >= 1 ==> Times(c, w) >= w
    ensures c == 1 ==> Times(c, w) == w
    ensures c <= -1 ==> Times(c, w) <= 0 - w
    ensures c == -1 ==> Times(c, w) == 0 - w
    ensures c <= -2 ==> Times(c, w) <= 0 - 2 * w
    ensures Times(0 - c, w) == 0 - Times(c, w)
  {
    if c >= 1 {
      MulMono(1, c, w);
    }
    if c <= -2 {
      MulMono(c, -2, w);
    }
  }

  lemma TimesNeg(c: int, w: int)
    ensures Times(0 - c, w) == 0 - Times(c, w)
  {
  }

  lemma TimesCancel(a: int, b: int, c: int)
    requires c > 0 && Times(a, c) < Times(b, c)
    ensures a < b
  {
    MulCancel(a, b, c);
  }

  lemma TimesIsMul(a: int, b: int)
    ensures Times(a, b) == a * b
  {
  }

  lemma TimesStrict(a: int, b: int, c: int)
    requires a < b && 0 < c
    ensures Times(c, a) < Times(c, b)
  {
    MulStrict(a, b, c);
  }

  lemma TimesTen(p: int, v: int)
    ensures Times(p, 10 * v) == 10 * Times(p, v)
  {
  }

  lemma TimesOfZero(p: int)
    ensures Times(p, 0) == 0
  {
  }

  lemma MulStrict(a: int, b: int, c: int)
    requires a < b && 0 < c
    ensures a * c < b * c
    ensures c * a < c * b
  {
  }

  lemma MulCancel(a: int, b: int, c: int)
    requires a * c < b * c && 0 < c
    ensures a < b
  {
    if b <= a {
      MulMono(b, a, c);
    }
  }

  lemma MulCancelLe(a: int, b: int, c: int)
    requires a * c <= b * c && 0 < c
    ensures a <= b
  {
    if b < a {
      MulStrict(b, a, c);
    }
  }

  lemma PowSucc(b: nat, e: nat)
    ensures Pow(b, e + 1) == b * Pow(b, e)
  {
  }

  lemma {:induction false} PowAdd(b: nat, m: nat, n: nat)
    ensures Pow(b, m + n) == Pow(b, m) * Pow(b, n)
    decreases m
  {
    if m == 0 {
    } else {
      PowAdd(b, m - 1, n);
      PowSucc(b, m - 1);
      PowSucc(b, m - 1 + n);
      MulAssoc(b, Pow(b, m - 1), Pow(b, n));
    }
  }

  lemma {:induction false} PowOfPow(b: nat, m: nat, n: nat)
    ensures Pow(Pow(b, m), n) == Pow(b, m * n)
    decreases n
  {
    if n == 0 {
      assert m * n == 0;
    } else {
      PowOfPow(b, m, n - 1);
      assert m * n == m + m * (n - 1);
      PowAdd(b, m, m * (n - 1));
    }
  }

  lemma {:induction false} PowOfProduct(a: nat, b: nat, n: nat)
    ensures Pow(a * b, n) == Pow(a, n) * Pow(b, n)
    decreases n
  {
    if n == 0 {
    } else {
      PowOfProduct(a, b, n - 1);
      var x, y := Pow(a, n - 1), Pow(b, n - 1);
      assert (a * b) * (x * y) == (a * x) * (b * y);
    }
  }

  lemma {:induction false} PowMonoBase(a: nat, b: nat, n: nat)
    requires a <= b
    ensures Pow(a, n) <= Pow(b, n)
    decreases n
  {
    if n == 0 {
    } else {
      PowMonoBase(a, b, n - 1);
      MulMono(a, b, Pow(a, n - 1));
      MulMono(Pow(a, n - 1), Pow(b, n - 1), b);
    }
  }

  lemma PowMonoExp(b: nat, m: nat, n: nat)
    requires b > 0 && m <= n
    ensures Pow(b, m) <= Pow(b, n)
  {
    PowAdd(b, m, n - m);
    MulMono(1, Pow(b, n - m), Pow(b, m));
  }

  lemma PowStrictExp(b: nat, m: nat, n: nat)
    requires b > 1 && m < n
    ensures Pow(b, m) < Pow(b, n)
  {
    PowMonoExp(b, m + 1, n);
    MulStrict(1, b, Pow(b, m));
  }

  /** An exponent comparison read off a comparison of powers. */
  lemma PowExpLt(b: nat, m: nat, n: nat)
    requires b > 0 && Pow(b, m) < Pow(b, n)
    ensures m < n
  {
    if n <= m {
      PowMonoExp(b, n, m);
    }
  }

  lemma TenIsTwoTimesFive(n: nat)
    ensures Pow(10, n) == Pow(2, n) * Pow(5, n)
  {
    PowOfProduct(2, 5, n);
  }

  // ----- rounding a quotient to the nearest integer, ties to even

  /** q is an integer nearest to a/b, and the even one of the two when a/b is half-way. */
  predicate IsNearestEven(a: nat, b: nat, q: nat)
    requires b > 0
  {
    var d: int := a - q * b;
    2 * d <= b && -2 * d <= b && (2 * d == b || -2 * d == b ==> q % 2 == 0)
  }

  function RoundHalfEven(a: nat, b: nat): (q: nat)
    requires b > 0
  {
    var f, r := a / b, a % b;
    if 2 * r > b || (2 * r == b && f % 2 == 1) then f + 1 else f
  }

  lemma DivMod(a: nat, b: nat)
    requires b > 0
    ensures a == (a / b) * b + a % b && 0 <= a % b < b
  {
  }

  lemma MulGap(p: int, q: int, b: nat)
    ensures p < q ==> p * b + b <= q * b
    ensures p + 1 < q ==> p * b + 2 * b <= q * b
    ensures p + 1 == q ==> p * b + b == q * b
  {
    assert (p + 1) * b == p * b + b && (p + 2) * b == p * b + 2 * b;
    if p + 1 < q {
      MulMono(p + 2, q, b);
    }
  }

  lemma DivUnique(a: nat, b: nat, q: nat, r: nat)
    requires b > 0 && a == q * b + r && r < b
    ensures a / b == q && a % b == r
  {
    DivMod(a, b);
    MulGap(q, a / b, b);
    MulGap(a / b, q, b);
  }

  lemma RoundIsNearest(a: nat, b: nat)
    requires b > 0
    ensures IsNearestEven(a, b, RoundHalfEven(a, b))
  {
    DivMod(a, b);
    var f := a / b;
    assert (f + 1) * b == f * b + b;
  }

  lemma NearestIsUnique(a: nat, b: nat, q: nat, q': nat)
    requires b > 0 && IsNearestEven(a, b, q) && IsNearestEven(a, b, q')
    ensures q == q'
  {
    MulGap(q, q', b);
    MulGap(q', q, b);
  }

  /** The floor-based function and the nearest-integer property say the same. */
  lemma RoundHalfEvenCharacterised(a: nat, b: nat, q: nat)
    requires b > 0
    ensures q == RoundHalfEven(a, b) <==> IsNearestEven(a, b, q)
  {
    RoundIsNearest(a, b);
    if IsNearestEven(a, b, q) {
      NearestIsUnique(a, b, q, RoundHalfEven(a, b));
    }
  }

  /** Rounding does not see a common factor of numerator and denominator. */
  lemma RoundCommonFactor(k: nat, a: nat, b: nat)
    requires k > 0 && b > 0
    ensures k * b > 0
    ensures RoundHalfEven(k * a, k * b) == RoundHalfEven(a, b)
  {
    MulMono(1, b, k);
    DivMod(a, b);
    var f, r := a / b, a % b;
    assert k * a == f * (k * b) + k * r by {
      assert k * (f * b + r) == k * (f * b) + k * r;
      assert k * (f * b) == f * (k * b);
    }
    MulStrict(r, b, k);
    DivUnique(k * a, k * b, f, k * r);
    if 2 * r > b {
      MulStrict(b, 2 * r, k);
    } else if 2 * r < b {
      MulStrict(2 * r, b, k);
    }
    assert k * (2 * r) == 2 * (k * r);
  }

  lemma RoundExact(q: nat, b: nat)
    requires b > 0
    ensures RoundHalfEven(q * b, b) == q
  {
    DivUnique(q * b, b, q, 0);
  }
}
