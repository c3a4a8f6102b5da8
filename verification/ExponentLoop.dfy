/** The exponent search of `%e` (libgnu/vasnprintf.c:4177-4230): scale by the guessed exponent,
    correct the guess once by the number of digits, and settle the 9...9 / 10...0 boundary. */
module ExponentLoop {
  import opened Powers
  import opened Limbs
  import opened DecimalDigits
  import opened Decimal
  import opened Scale10

  /** x = m * 2^e scaled so that the digit of 10^k is the unit times 10^p, and rounded. */
  function Digits(m: nat, e: int, p: nat, k: int): (d: nat) {
    Rounded(m, e, p - k)
  }

  /** 10^k <= x < 10^(k+1). */
  predicate IsExponent(m: nat, e: int, k: int) {
    Denominator(e, -k) <= Numerator(m, e, -k) < 10 * Denominator(e, -k)
  }

  /** x rounded to p + 1 significant digits: the exponent and the digits, read off the exact
      exponent k. Rounding up to 10^(p+1) moves the exponent. */
  function CorrectExponent(m: nat, e: int, p: nat, k: int): (r: int) {
    if Digits(m, e, p, k) < Pow(10, p + 1) then k else k + 1
  }

  function CorrectDigits(m: nat, e: int, p: nat, k: int): (d: nat) {
    if Digits(m, e, p, k) < Pow(10, p + 1) then Digits(m, e, p, k) else Pow(10, p)
  }

  /** Rounding x to p + 1 digits stays below the next power of ten: x * 10^(p-k) < 10^(p+1) - 1/2. */
  predicate NoCarry(m: nat, e: int, p: nat, k: int) {
    2 * Numerator(m, e, p - k) < (2 * Pow(10, p + 1) - 1) * Denominator(e, p - k)
  }

  /** The guesses from which the search succeeds, as conditions on x. A guess one too high fails only for precision 0
      and x <= 10^guess / 2, one too low only when rounding to p + 1 digits carries. A guess two too high works exactly
      when rounding to p digits carries, p > 0. No other guess does. */
  predicate GoodGuess(m: nat, e: int, p: nat, k: int, guess: int) {
    || guess == k
    || (guess == k + 1 && (p > 0 || 2 * Numerator(m, e, -guess) > Denominator(e, -guess)))
    || (guess == k - 1 && NoCarry(m, e, p, k))
    || (guess == k + 2 && p > 0 && !NoCarry(m, e, p - 1, k))
  }

  datatype Outcome = Done(exponent: int, value: nat) | Aborted

  /** The loop (4181-4206), as a function of the rounded values it looks at. */
  function Search(m: nat, e: int, p: nat, exponent: int, adjusted: bool): (r: Outcome)
    decreases if adjusted then 0 else 1
  {
    var d := Digits(m, e, p, exponent);
    var n := |Numeral(d)|;
    if n == p + 1 then Done(exponent, d)
    else if n < p || n > p + 2 then Aborted
    else if adjusted then Aborted
    else if n == p then Search(m, e, p, exponent - 1, true)
    else Search(m, e, p, exponent + 1, true)
  }

  /** The borderline step (4208-4228). */
  function Settle(m: nat, e: int, p: nat, r: Outcome): (r': Outcome) {
    if r.Done? && r.value == Pow(10, p) && |Numeral(Digits(m, e, p, r.exponent - 1))| == p + 1
    then Done(r.exponent - 1, Digits(m, e, p, r.exponent - 1))
    else r
  }

  predicate DigitsTerminated(m: nat, e: int, p: nat, k: int) {
    IsTerminated(m, e, p - k)
  }

  /** Every digit buffer that the loop measures has its terminator. */
  predicate LoopTerminated(m: nat, e: int, p: nat, exponent: int, adjusted: bool)
    decreases if adjusted then 0 else 1
  {
    var n := |Numeral(Digits(m, e, p, exponent))|;
    && DigitsTerminated(m, e, p, exponent)
    && (adjusted || n == p + 1 || n < p || n > p + 2
        || LoopTerminated(m, e, p, if n == p then exponent - 1 else exponent + 1, true))
  }

  /** So has the one that the borderline step measures, if it comes to that. */
  predicate SettleTerminated(m: nat, e: int, p: nat, r: Outcome) {
    r.Done? && r.value == Pow(10, p) ==> DigitsTerminated(m, e, p, r.exponent - 1)
  }

  predicate AllTerminated(m: nat, e: int, p: nat, guess: int) {
    LoopTerminated(m, e, p, guess, false) && SettleTerminated(m, e, p, Search(m, e, p, guess, false))
  }

  // ----- scaling by ten

  lemma RoundAtLeast(a: nat, b: nat, n: nat)
    requires b > 0 && a >= Times(n, b)
    ensures RoundHalfEven(a, b) >= n
  {
    DivMod(a, b);
    TimesIsMul(n, b);
    MulGap(a / b, n, b);
  }

  lemma RoundAtMost(a: nat, b: nat, n: nat)
    requires b > 0 && a <= Times(n, b)
    ensures RoundHalfEven(a, b) <= n
  {
    DivMod(a, b);
    TimesIsMul(n, b);
    MulGap(n, a / b, b);
  }

  /** Rounding reaches n only from n - 1/2 on. */
  lemma RoundReaches(a: nat, b: nat, n: nat)
    requires b > 0 && RoundHalfEven(a, b) >= n
    ensures 2 * a >= 2 * Times(n, b) - b
  {
    RoundIsNearest(a, b);
    TimesIsMul(n, b);
    MulMono(n, RoundHalfEven(a, b), b);
  }

  lemma RoundZero(a: nat, b: nat)
    requires b > 0
    ensures RoundHalfEven(a, b) == 0 <==> 2 * a <= b
  {
    RoundHalfEvenCharacterised(a, b, 0);
  }

  /** The fractions for 10^n and 10^(n+1) differ by the factor ten. */
  lemma TenTimes(m: nat, e: int, n: int)
    ensures Numerator(m, e, n + 1) * Denominator(e, n) == 10 * Numerator(m, e, n) * Denominator(e, n + 1)
  {
    var a, b := m * Pow(2, Pos(e)), Pow(2, Pos(-e));
    if n >= 0 {
      PowSucc(10, n);
      PowZero(10);
      hide Pow;
      TenAlgebra(a, b, Pow(10, n));
    } else {
      PowSucc(10, -n - 1);
      PowZero(10);
      hide Pow;
      TenAlgebra2(a, b, Pow(10, -n - 1));
    }
  }

  lemma TenAlgebra(a: int, b: int, t: int)
    ensures (a * (10 * t)) * (b * 1) == 10 * (a * t) * (b * 1)
  {
    assert a * (10 * t) == 10 * (a * t);
  }

  lemma TenAlgebra2(a: int, b: int, t: int)
    ensures (a * 1) * (b * (10 * t)) == 10 * (a * 1) * (b * t)
  {
    assert b * (10 * t) == 10 * (b * t);
    assert a * (10 * (b * t)) == 10 * a * (b * t);
  }

  /** x * 10^(n+1) rounded, over the denominator of x * 10^n. */
  lemma RoundedTen(m: nat, e: int, n: int)
    ensures Rounded(m, e, n + 1) == RoundHalfEven(10 * Numerator(m, e, n), Denominator(e, n))
  {
    hide RoundHalfEven, Numerator, Denominator;
    TenTimes(m, e, n);
    RoundSameRatio(Numerator(m, e, n + 1), Denominator(e, n + 1), 10 * Numerator(m, e, n), Denominator(e, n));
  }

  lemma RoundedHundred(m: nat, e: int, n: int)
    ensures Rounded(m, e, n + 2) == RoundHalfEven(100 * Numerator(m, e, n), Denominator(e, n))
  {
    hide RoundHalfEven, Numerator, Denominator;
    TenTimes(m, e, n);
    TenTimes(m, e, n + 1);
    HundredCross(Numerator(m, e, n), Denominator(e, n), Numerator(m, e, n + 1), Denominator(e, n + 1),
                 Numerator(m, e, n + 2), Denominator(e, n + 2));
    RoundSameRatio(Numerator(m, e, n + 2), Denominator(e, n + 2), 100 * Numerator(m, e, n), Denominator(e, n));
  }

  lemma HundredCross(a0: int, b0: int, a1: int, b1: int, a2: int, b2: int)
    requires a1 * b0 == 10 * a0 * b1 && a2 * b1 == 10 * a1 * b2 && b1 > 0
    ensures a2 * b0 == 100 * a0 * b2
  {
    assert (a2 * b0) * b1 == (100 * a0 * b2) * b1 by {
      assert (a2 * b1) * b0 == (10 * a1 * b2) * b0 == 10 * b2 * (a1 * b0) == 10 * b2 * (10 * a0 * b1);
    }
    MulCancelEq(a2 * b0, 100 * a0 * b2, b1);
  }

  lemma MulCancelEq(a: int, b: int, c: int)
    requires a * c == b * c && c > 0
    ensures a == b
  {
    if a < b {
      MulStrict(a, b, c);
    } else if b < a {
      MulStrict(b, a, c);
    }
  }

  // ----- every positive number has its exponent

  /** 10^k <= x. */
  predicate AtLeastPower(m: nat, e: int, k: int) {
    Denominator(e, -k) <= Numerator(m, e, -k)
  }

  lemma NextPower(m: nat, e: int, k: int)
    ensures AtLeastPower(m, e, k + 1) <==> 10 * Denominator(e, -k) <= Numerator(m, e, -k)
  {
    hide Numerator, Denominator;
    TenTimes(m, e, -k - 1);
    TenfoldCompare(Numerator(m, e, -k), Denominator(e, -k), Numerator(m, e, -k - 1), Denominator(e, -k - 1));
  }

  lemma TenfoldCompare(a: int, b: int, a': int, b': int)
    requires a * b' == 10 * a' * b && b > 0 && b' > 0
    ensures b' <= a' <==> 10 * b <= a
  {
    assert (10 * b) * b' == 10 * b' * b;
    if b' <= a' {
      MulMono(b', a', 10 * b);
      if a < 10 * b {
        MulStrict(a, 10 * b, b');
      }
    } else {
      MulStrict(a', b', 10 * b);
      if 10 * b <= a {
        MulMono(10 * b, a, b');
      }
    }
  }

  lemma {:induction false} BelowPower(m: nat)
    ensures m < Pow(2, m)
  {
    if m > 0 {
      BelowPower(m - 1);
      PowSucc(2, m - 1);
    }
  }

  lemma PowerBelow(m: nat, e: int)
    requires m > 0
    ensures AtLeastPower(m, e, 0 - Abs(e))
  {
    var n := Abs(e);
    PowZero(10);
    PowMonoExp(2, Pos(-e), n);
    PowMonoBase(2, 10, n);
    MulMono(1, m * Pow(2, Pos(e)), Pow(10, n));
    MulMono(1, m, Pow(2, Pos(e)));
  }

  lemma PowerAbove(m: nat, e: int)
    ensures !AtLeastPower(m, e, m + Abs(e))
  {
    var n := m + Abs(e);
    PowZero(10);
    BelowPower(m);
    MulStrict(m, Pow(2, m), Pow(2, Pos(e)));
    PowAdd(2, m, Pos(e));
    PowMonoExp(2, m + Pos(e), n);
    PowMonoBase(2, 10, n);
    MulMono(1, Pow(2, Pos(-e)), Pow(10, n));
  }

  lemma {:induction false} Climb(m: nat, e: int, low: int, high: int) returns (k: int)
    requires low <= high && AtLeastPower(m, e, low) && !AtLeastPower(m, e, high)
    ensures IsExponent(m, e, k)
    decreases high - low
  {
    NextPower(m, e, low);
    if AtLeastPower(m, e, low + 1) {
      k := Climb(m, e, low + 1, high);
    } else {
      k := low;
    }
  }

  lemma {:induction false} LowerPowers(m: nat, e: int, k: int, l: int)
    requires AtLeastPower(m, e, l) && k <= l
    ensures AtLeastPower(m, e, k)
    decreases l - k
  {
    if k < l {
      NextPower(m, e, l - 1);
      LowerPowers(m, e, k, l - 1);
    }
  }

  lemma ExponentUnique(m: nat, e: int, k: int, l: int)
    requires IsExponent(m, e, k) && IsExponent(m, e, l)
    ensures k == l
  {
    hide Numerator, Denominator;
    NextPower(m, e, k);
    NextPower(m, e, l);
    if k < l {
      LowerPowers(m, e, k + 1, l);
    } else if l < k {
      LowerPowers(m, e, l + 1, k);
    }
  }

  /** x has an exponent exactly if it is positive, and then only one. */
  lemma ExponentExistsIff(m: nat, e: int)
    ensures (exists k :: IsExponent(m, e, k)) <==> m > 0
    ensures forall k, l :: IsExponent(m, e, k) && IsExponent(m, e, l) ==> k == l
  {
    if m > 0 {
      PowerBelow(m, e);
      PowerAbove(m, e);
      var k := Climb(m, e, 0 - Abs(e), m + Abs(e));
    }
    forall k, l | IsExponent(m, e, k) && IsExponent(m, e, l)
      ensures k == l
    {
      ExponentUnique(m, e, k, l);
    }
  }

  // ----- what the three neighbouring scalings can be

  /** x * 10^(p-k) lies in [10^p, 10^(p+1)) for the exact exponent k. */
  lemma {:induction false} ScaledRange(m: nat, e: int, p: nat, k: int)
    requires IsExponent(m, e, k)
    ensures Times(Pow(10, p), Denominator(e, p - k)) <= Numerator(m, e, p - k)
    ensures Numerator(m, e, p - k) < Times(10 * Pow(10, p), Denominator(e, p - k))
    decreases p
  {
    if p == 0 {
      PowZero(10);
      TimesOne(Denominator(e, -k));
    } else {
      hide Pow, Numerator, Denominator;
      ScaledRange(m, e, p - 1, k);
      PowSucc(10, p - 1);
      TenTimes(m, e, p - 1 - k);
      RangeStep(Numerator(m, e, p - 1 - k), Denominator(e, p - 1 - k), Numerator(m, e, p - k),
                Denominator(e, p - k), Pow(10, p - 1));
    }
  }

  lemma RangeStep(a: int, b: int, a': int, b': int, t: int)
    requires Times(t, b) <= a < Times(10 * t, b) && b > 0 && b' > 0
    requires a' * b == 10 * a * b'
    ensures Times(10 * t, b') <= a' < Times(10 * (10 * t), b')
  {
    MulMono(t * b, a, 10 * b');
    MulStrict(a, 10 * t * b, 10 * b');
    assert (10 * t * b') * b <= a' * b by {
      assert (t * b) * (10 * b') == (10 * t * b') * b;
      assert a * (10 * b') == 10 * a * b';
    }
    assert a' * b < (10 * (10 * t) * b') * b by {
      assert (10 * t * b) * (10 * b') == (10 * (10 * t) * b') * b;
      assert a * (10 * b') == 10 * a * b';
    }
    MulCancelLe(10 * t * b', a', b);
    MulCancel(a', 10 * (10 * t) * b', b);
  }

  /** Rounding stays below n only up to n - 1/2. */
  lemma RoundShort(a: nat, b: nat, n: nat)
    requires b > 0 && RoundHalfEven(a, b) < n
    ensures 2 * a <= 2 * Times(n, b) - b
  {
    RoundIsNearest(a, b);
    TimesIsMul(n, b);
    MulGap(RoundHalfEven(a, b), n, b);
  }

  /** The rounded values of y, 10 y and 100 y, where 10 y lies in [t, 10 t). */
  lemma Neighbours(a: nat, b: nat, t: nat)
    requires b > 0 && Times(t, b) <= 10 * a < Times(10 * t, b)
    ensures RoundHalfEven(a, b) <= t <= RoundHalfEven(10 * a, b) <= 10 * t <= RoundHalfEven(100 * a, b) <= 100 * t
    ensures t % 10 == 0 ==> RoundHalfEven(a, b) >= t / 10
    ensures RoundHalfEven(10 * a, b) == 10 * t ==> RoundHalfEven(a, b) == t
    ensures RoundHalfEven(100 * a, b) == 100 * t ==> RoundHalfEven(10 * a, b) == 10 * t
  {
    TenMore(t, b);
    TenMore(10 * t, b);
    hide RoundHalfEven, Times;
    RoundAtMost(a, b, t);
    RoundAtLeast(10 * a, b, t);
    RoundAtMost(10 * a, b, 10 * t);
    RoundAtLeast(100 * a, b, 10 * t);
    RoundAtMost(100 * a, b, 100 * t);
    if t % 10 == 0 {
      TenMore(t / 10, b);
      RoundAtLeast(a, b, t / 10);
    }
    if RoundHalfEven(10 * a, b) == 10 * t && RoundHalfEven(a, b) < t {
      RoundReaches(10 * a, b, 10 * t);
      RoundShort(a, b, t);
    }
    if RoundHalfEven(100 * a, b) == 100 * t && RoundHalfEven(10 * a, b) < 10 * t {
      RoundReaches(100 * a, b, 100 * t);
      RoundShort(10 * a, b, 10 * t);
    }
  }

  lemma TenMore(t: int, b: int)
    ensures Times(10 * t, b) == 10 * Times(t, b)
  {
  }

  /** The same for the digits seen with exponents k + 1, k and k - 1. */
  lemma DigitsNear(m: nat, e: int, p: nat, k: int)
    requires IsExponent(m, e, k)
    ensures Digits(m, e, p, k + 1) <= Pow(10, p) <= Digits(m, e, p, k) <= Pow(10, p + 1)
    ensures Pow(10, p + 1) <= Digits(m, e, p, k - 1) <= Pow(10, p + 2)
    ensures p > 0 ==> Digits(m, e, p, k + 1) >= Pow(10, p - 1)
    ensures p == 0 ==> (Digits(m, e, p, k + 1) == 0 <==> 2 * Numerator(m, e, -(k + 1)) <= Denominator(e, -(k + 1)))
    ensures Digits(m, e, p, k) == Pow(10, p + 1) ==> Digits(m, e, p, k + 1) == Pow(10, p)
    ensures Digits(m, e, p, k - 1) == Pow(10, p + 2) ==> Digits(m, e, p, k) == Pow(10, p + 1)
  {
    PowSucc(10, p);
    PowSucc(10, p + 1);
    if p > 0 {
      PowSucc(10, p - 1);
    }
    hide Pow, Numerator, Denominator, Rounded;
    var n := p - k - 1;
    var a, b, t := Numerator(m, e, n), Denominator(e, n), Pow(10, p);
    ScaledRange(m, e, p, k);
    TenTimes(m, e, n);
    RangeDown(a, b, Numerator(m, e, n + 1), Denominator(e, n + 1), t);
    RoundedIs(m, e, n);
    RoundedTen(m, e, n);
    RoundedHundred(m, e, n);
    Neighbours(a, b, t);
    RoundZero(a, b);
  }

  lemma RoundedIs(m: nat, e: int, n: int)
    ensures Rounded(m, e, n) == RoundHalfEven(Numerator(m, e, n), Denominator(e, n))
  {
  }

  lemma RangeDown(a: int, b: int, a': int, b': int, t: int)
    requires Times(t, b') <= a' < Times(10 * t, b') && b > 0 && b' > 0
    requires a' * b == 10 * a * b'
    ensures Times(t, b) <= 10 * a < Times(10 * t, b)
  {
    MulMono(t * b', a', b);
    MulStrict(a', 10 * t * b', b);
    assert (t * b') * b == (t * b) * b' && (10 * t * b') * b == (10 * t * b) * b';
    assert 10 * a * b' == (10 * a) * b';
    MulCancelLe(t * b, 10 * a, b');
    MulCancel(10 * a, 10 * t * b, b');
  }

  /** Digit counts as comparisons of values. */
  lemma CountIs(d: nat, p: nat)
    ensures |Numeral(d)| == p + 1 <==> d < Pow(10, p + 1) && (p == 0 || d >= Pow(10, p))
    ensures p > 0 && d < Pow(10, p) && d >= Pow(10, p - 1) ==> |Numeral(d)| == p
    ensures Pow(10, p + 1) <= d < Pow(10, p + 2) ==> |Numeral(d)| == p + 2
    ensures d == Pow(10, p + 2) ==> |Numeral(d)| == p + 3
  {
    PowStrictExp(10, p + 2, p + 3);
    hide Pow, Numeral;
    NumeralLength(d, p + 1);
    NumeralLength(d, p + 2);
    NumeralLength(d, p + 3);
    if p > 0 {
      NumeralLength(d, p);
      if p > 1 {
        NumeralLength(d, p - 1);
      }
    }
  }

  /** The target of the search: p + 1 digits, and the rounding of x at its own exponent. */
  lemma CorrectIsRounded(m: nat, e: int, p: nat, k: int)
    requires IsExponent(m, e, k)
    ensures CorrectDigits(m, e, p, k) == Digits(m, e, p, CorrectExponent(m, e, p, k))
    ensures |Numeral(CorrectDigits(m, e, p, k))| == p + 1
  {
    PowStrictExp(10, p, p + 1);
    hide Digits, Pow, Numeral;
    DigitsNear(m, e, p, k);
    CountIs(CorrectDigits(m, e, p, k), p);
  }

  // ----- the three guesses

  lemma GuessExact(m: nat, e: int, p: nat, k: int)
    requires IsExponent(m, e, k)
    ensures Settle(m, e, p, Search(m, e, p, k, false))
         == Done(CorrectExponent(m, e, p, k), CorrectDigits(m, e, p, k))
  {
    PowStrictExp(10, p, p + 1);
    PowStrictExp(10, p + 1, p + 2);
    hide Digits, Pow, Numeral;
    DigitsNear(m, e, p, k);
    CountIs(Digits(m, e, p, k), p);
    CountIs(Digits(m, e, p, k + 1), p);
    CountIs(Digits(m, e, p, k - 1), p);
  }

  lemma GuessTooHigh(m: nat, e: int, p: nat, k: int)
    requires IsExponent(m, e, k)
    ensures Settle(m, e, p, Search(m, e, p, k + 1, false))
         == if GoodGuess(m, e, p, k, k + 1) then Done(CorrectExponent(m, e, p, k), CorrectDigits(m, e, p, k))
            else Done(k + 1, 0)
  {
    PowStrictExp(10, p, p + 1);
    PowStrictExp(10, p + 1, p + 2);
    hide Digits, Pow, Numeral, Numerator, Denominator, NoCarry;
    DigitsNear(m, e, p, k);
    CountIs(Digits(m, e, p, k), p);
    CountIs(Digits(m, e, p, k + 1), p);
    CountIs(Digits(m, e, p, k - 1), p);
  }

  /** Rounding stays below an even number t exactly below t - 1/2. */
  lemma RoundBelow(a: nat, b: nat, t: nat)
    requires b > 0 && t > 0 && t % 2 == 0
    ensures RoundHalfEven(a, b) < t <==> 2 * a < (2 * t - 1) * b
  {
    var q := RoundHalfEven(a, b);
    RoundIsNearest(a, b);
    hide RoundHalfEven;
    assert (2 * t - 1) * b == 2 * (t * b) - b;
    MulGap(q, t, b);
    MulGap(t, q, b);
  }

  lemma NoCarryIff(m: nat, e: int, p: nat, k: int)
    ensures NoCarry(m, e, p, k) <==> Digits(m, e, p, k) < Pow(10, p + 1)
  {
    PowSucc(10, p);
    hide Pow, RoundHalfEven, Numerator, Denominator;
    RoundBelow(Numerator(m, e, p - k), Denominator(e, p - k), Pow(10, p + 1));
  }

  lemma GuessTooLow(m: nat, e: int, p: nat, k: int)
    requires IsExponent(m, e, k)
    ensures Settle(m, e, p, Search(m, e, p, k - 1, false))
         == if GoodGuess(m, e, p, k, k - 1) then Done(CorrectExponent(m, e, p, k), CorrectDigits(m, e, p, k))
            else Aborted
  {
    PowStrictExp(10, p, p + 1);
    PowStrictExp(10, p + 1, p + 2);
    NoCarryIff(m, e, p, k);
    hide Digits, Pow, Numeral, Numerator, Denominator, NoCarry;
    DigitsNear(m, e, p, k);
    CountIs(Digits(m, e, p, k), p);
    CountIs(Digits(m, e, p, k + 1), p);
    CountIs(Digits(m, e, p, k - 1), p);
  }

  /** Digit counts at the exponent and one above. */
  lemma CountsCarry(m: nat, e: int, q: nat, k: int)
    requires IsExponent(m, e, k)
    ensures |Numeral(Digits(m, e, q, k + 1))| <= q + 1
    ensures NoCarry(m, e, q, k) ==> |Numeral(Digits(m, e, q, k))| <= q + 1
    ensures !NoCarry(m, e, q, k) ==>
              && Digits(m, e, q, k) == Pow(10, q + 1) && |Numeral(Digits(m, e, q, k + 1))| == q + 1
              && |Numeral(Digits(m, e, q, k))| == q + 2
  {
    PowStrictExp(10, q, q + 1);
    PowStrictExp(10, q + 1, q + 2);
    NoCarryIff(m, e, q, k);
    hide Digits, Pow, Numeral, NoCarry, IsExponent;
    DigitsNear(m, e, q, k);
    CountIs(Digits(m, e, q, k + 1), q);
    CountIs(Digits(m, e, q, k), q);
    NumeralLength(Digits(m, e, q, k), q + 1);
    NumeralLength(Digits(m, e, q, k + 1), q + 1);
  }

  /** Two and one above the exponent both counts are too small, unless rounding to p digits carries. */
  lemma CountsAbove(m: nat, e: int, p: nat, k: int)
    requires IsExponent(m, e, k) && p > 0
    ensures |Numeral(Digits(m, e, p, k + 2))| <= p
    ensures NoCarry(m, e, p - 1, k) ==> |Numeral(Digits(m, e, p, k + 1))| <= p
    ensures !NoCarry(m, e, p - 1, k) ==>
              && Digits(m, e, p, k + 1) == Pow(10, p) && |Numeral(Digits(m, e, p, k + 2))| == p
              && |Numeral(Digits(m, e, p, k + 1))| == p + 1
  {
    DigitsBelow(m, e, p, k);
    hide *;
    CountsCarry(m, e, p - 1, k);
  }

  /** One digit less at the same exponent is the same number at the exponent above. */
  lemma DigitsBelow(m: nat, e: int, p: nat, k: int)
    requires p > 0
    ensures Digits(m, e, p - 1, k) == Digits(m, e, p, k + 1)
    ensures Digits(m, e, p - 1, k + 1) == Digits(m, e, p, k + 2)
  {
    hide Rounded;
  }

  /** Two too high, with at least one digit after the point: only a carry in the next digit can help. */
  lemma GuessTwoTooHigh(m: nat, e: int, p: nat, k: int)
    requires IsExponent(m, e, k) && p > 0
    ensures Settle(m, e, p, Search(m, e, p, k + 2, false))
         == if GoodGuess(m, e, p, k, k + 2) then Done(CorrectExponent(m, e, p, k), CorrectDigits(m, e, p, k))
            else Aborted
  {
    PowStrictExp(10, p, p + 1);
    hide Digits, Pow, Numeral, Numerator, Denominator, NoCarry, IsExponent;
    CountsAbove(m, e, p, k);
    DigitsNear(m, e, p, k);
    CountIs(Digits(m, e, p, k), p);
  }

  // ----- guesses further away

  lemma RoundMono(a: nat, a': nat, b: nat)
    requires b > 0 && a <= a'
    ensures RoundHalfEven(a, b) <= RoundHalfEven(a', b)
  {
    RoundIsNearest(a, b);
    RoundIsNearest(a', b);
    MulGap(RoundHalfEven(a', b), RoundHalfEven(a, b), b);
  }

  lemma {:induction false} RoundedMono(m: nat, e: int, n: int, n': int)
    requires n <= n'
    ensures Rounded(m, e, n) <= Rounded(m, e, n')
    decreases n' - n
  {
    if n < n' {
      RoundedMono(m, e, n, n' - 1);
      RoundedIs(m, e, n' - 1);
      RoundedTen(m, e, n' - 1);
      hide Rounded, RoundHalfEven, Numerator, Denominator;
      var a := Numerator(m, e, n' - 1);
      RoundMono(a, 10 * a, Denominator(e, n' - 1));
    }
  }

  /** Below half of the unit nothing is left: here x is at most a tenth of it. */
  lemma RoundedToZero(m: nat, e: int, k: int, n: int)
    requires IsExponent(m, e, k) && n <= -k - 2
    ensures Rounded(m, e, n) == 0 && Rounded(m, e, -k - 1) <= 1
  {
    PowZero(10);
    hide Rounded, RoundHalfEven, Numerator, Denominator, Pow;
    var a, b := Numerator(m, e, -k - 2), Denominator(e, -k - 2);
    DigitsIs(m, e, 0, k + 1);
    DigitsNear(m, e, 0, k);
    RoundedIs(m, e, -k - 2);
    RoundedTen(m, e, -k - 2);
    if 2 * a > b {
      TimesIsMul(5, b);
      RoundAtLeast(10 * a, b, 5);
    }
    RoundZero(a, b);
    RoundedMono(m, e, n, -k - 2);
  }

  lemma DigitsIs(m: nat, e: int, p: nat, k: int)
    ensures Digits(m, e, p, k) == Rounded(m, e, p - k)
  {
  }

  /** The digits of zero and of one are one digit. */
  lemma OneDigit(d: nat)
    requires d <= 1
    ensures |Numeral(d)| == 1
  {
  }

  /** Three or more too high, or two with no digit after the point: too few digits, or just a zero. */
  lemma GuessFarTooHigh(m: nat, e: int, p: nat, k: int, guess: int)
    requires IsExponent(m, e, k) && guess >= k + 2 && (guess == k + 2 ==> p == 0)
    ensures Settle(m, e, p, Search(m, e, p, guess, false)) == if p == 0 then Done(guess, 0) else Aborted
  {
    PowZero(10);
    hide Pow, Numeral, Digits, IsExponent;
    if p <= 1 {
      TinyDigits(m, e, p, k, guess);
    } else {
      TooFewDigits(m, e, p, k, guess);
    }
  }

  lemma TinyDigits(m: nat, e: int, p: nat, k: int, guess: int)
    requires IsExponent(m, e, k) && guess >= k + 2 + p && p <= 1
    ensures Digits(m, e, p, guess) == 0 && |Numeral(Digits(m, e, p, guess))| == 1
    ensures p == 1 ==> |Numeral(Digits(m, e, 1, guess - 1))| == 1
  {
    hide Rounded, Numeral, IsExponent;
    RoundedToZero(m, e, k, p - guess);
    OneDigit(0);
    if p == 1 {
      RoundedMono(m, e, p - (guess - 1), -k - 1);
      OneDigit(Digits(m, e, 1, guess - 1));
    }
  }

  lemma TooFewDigits(m: nat, e: int, p: nat, k: int, guess: int)
    requires IsExponent(m, e, k) && guess >= k + 3 && p >= 2
    ensures |Numeral(Digits(m, e, p, guess))| < p
  {
    PowStrictExp(10, p - 2, p - 1);
    hide Pow, Numeral, Rounded;
    RoundedMono(m, e, p - guess, p - k - 3);
    DigitsIs(m, e, p - 2, k + 1);
    DigitsNear(m, e, p - 2, k);
    NumeralLength(Digits(m, e, p, guess), p - 1);
  }

  /** Two or more too low: too many digits. */
  lemma GuessFarTooLow(m: nat, e: int, p: nat, k: int, guess: int)
    requires IsExponent(m, e, k) && guess <= k - 2
    ensures Settle(m, e, p, Search(m, e, p, guess, false)) == Aborted
  {
    hide Pow, Numeral, Rounded;
    RoundedMono(m, e, p + 2 - k, p - guess);
    DigitsIs(m, e, p + 2, k);
    DigitsNear(m, e, p + 2, k);
    NumeralLength(Digits(m, e, p, guess), p + 2);
  }

  /** From any guess whatever, the search ends with x correctly rounded to p + 1 digits exactly when the guess is
      good. */
  lemma SearchCorrect(m: nat, e: int, p: nat, k: int, guess: int)
    requires IsExponent(m, e, k)
    ensures Settle(m, e, p, Search(m, e, p, guess, false))
         == Done(CorrectExponent(m, e, p, k), CorrectDigits(m, e, p, k))
       <==> GoodGuess(m, e, p, k, guess)
  {
    hide Search, Settle, Digits, Pow, Numerator, Denominator, IsExponent, CorrectExponent, CorrectDigits, NoCarry;
    CorrectNotZero(m, e, p, k);
    if guess == k {
      GuessExact(m, e, p, k);
    } else if guess == k + 1 {
      GuessTooHigh(m, e, p, k);
    } else if guess == k - 1 {
      GuessTooLow(m, e, p, k);
    } else if guess < k {
      GuessFarTooLow(m, e, p, k, guess);
    } else if guess == k + 2 && p > 0 {
      GuessTwoTooHigh(m, e, p, k);
    } else {
      GuessFarTooHigh(m, e, p, k, guess);
    }
  }

  lemma CorrectNotZero(m: nat, e: int, p: nat, k: int)
    requires IsExponent(m, e, k)
    ensures CorrectDigits(m, e, p, k) > 0
  {
    hide Digits, Pow;
    DigitsNear(m, e, p, k);
  }

  /** The sufficient conditions in terms of x alone: x above half of 10^guess, or x below three
      halves of 10^(guess+1), as a guess one off from a good logarithm has them. */
  lemma NearMissIsGood(m: nat, e: int, p: nat, k: int, guess: int)
    requires IsExponent(m, e, k)
    requires guess == k + 1 ==> 2 * Numerator(m, e, -guess) > Denominator(e, -guess)
    requires guess == k - 1 ==> 2 * Numerator(m, e, -k) < 3 * Denominator(e, -k)
    requires k - 1 <= guess <= k + 1
    ensures GoodGuess(m, e, p, k, guess)
  {
    if guess == k - 1 {
      BelowThreeHalves(m, e, p, k);
      NoCarryIff(m, e, p, k);
    }
  }

  lemma {:induction false} ThreeHalvesScaled(m: nat, e: int, p: nat, k: int)
    requires 2 * Numerator(m, e, -k) < 3 * Denominator(e, -k)
    ensures 2 * Numerator(m, e, p - k) < Times(3 * Pow(10, p), Denominator(e, p - k))
    decreases p
  {
    if p == 0 {
      PowZero(10);
    } else {
      hide Pow, Numerator, Denominator;
      ThreeHalvesScaled(m, e, p - 1, k);
      PowSucc(10, p - 1);
      TenTimes(m, e, p - 1 - k);
      ScaledStep(Numerator(m, e, p - 1 - k), Denominator(e, p - 1 - k), Numerator(m, e, p - k),
                 Denominator(e, p - k), Pow(10, p - 1));
    }
  }

  lemma ScaledStep(a: int, b: int, a': int, b': int, t: int)
    requires 2 * a < Times(3 * t, b) && b > 0 && b' > 0
    requires a' * b == 10 * a * b'
    ensures 2 * a' < Times(3 * (10 * t), b')
  {
    MulStrict(2 * a, 3 * t * b, 10 * b');
    assert (2 * a) * (10 * b') == (2 * a') * b;
    assert (3 * t * b) * (10 * b') == (3 * (10 * t) * b') * b;
    MulCancel(2 * a', 3 * (10 * t) * b', b);
  }

  lemma BelowThreeHalves(m: nat, e: int, p: nat, k: int)
    requires 2 * Numerator(m, e, -k) < 3 * Denominator(e, -k)
    ensures Digits(m, e, p, k) < Pow(10, p + 1)
  {
    PowSucc(10, p);
    hide Pow, Numerator, Denominator, RoundHalfEven;
    ThreeHalvesScaled(m, e, p, k);
    var a, b, t := Numerator(m, e, p - k), Denominator(e, p - k), Pow(10, p);
    TwoIsEnough(t, a, b);
    RoundAtMost(a, b, 2 * t);
    RoundedIs(m, e, p - k);
  }

  lemma TwoIsEnough(t: int, a: int, b: int)
    requires 2 * a < Times(3 * t, b) && t > 0 && b > 0
    ensures a <= Times(2 * t, b)
  {
    MulMono(3 * t, 4 * t, b);
    assert 4 * t * b == 2 * (2 * t * b);
  }

  // ----- the terminators

  lemma NearIsTerminated(m: nat, e: int, p: nat, k: int, exponent: int)
    requires IsExponent(m, e, k) && p <= 122 && exponent >= k - 1
    ensures DigitsTerminated(m, e, p, exponent)
  {
    hide Pow, Rounded, IsTerminated;
    PowStrictExp(10, p + 2, 125);
    DigitsIs(m, e, p, k - 1);
    DigitsNear(m, e, p, k);
    RoundedMono(m, e, p - exponent, p - (k - 1));
    SmallIsTerminated(m, e, p - exponent);
  }

  /** At most 122 digits after the point: from any guess that is at most one too low, no buffer of the search lacks its
      terminator. */
  lemma SearchTerminated(m: nat, e: int, p: nat, k: int, guess: int)
    requires IsExponent(m, e, k) && p <= 122 && guess >= k - 1
    ensures AllTerminated(m, e, p, guess)
  {
    EndsAbove(m, e, p, k, guess);
    hide Pow, Numeral, Digits, DigitsTerminated, IsExponent, Search;
    forall j: int | j >= k - 1
      ensures DigitsTerminated(m, e, p, j)
    {
      NearIsTerminated(m, e, p, k, j);
    }
    TooManyAt(m, e, p, k);
  }

  lemma TooManyAt(m: nat, e: int, p: nat, k: int)
    requires IsExponent(m, e, k)
    ensures |Numeral(Digits(m, e, p, k - 1))| > p + 1
  {
    hide Pow, Numeral, Digits, IsExponent;
    DigitsNear(m, e, p, k);
    NumeralLength(Digits(m, e, p, k - 1), p + 1);
  }

  /** A search that does not begin below k - 1 does not end below k. */
  lemma EndsAbove(m: nat, e: int, p: nat, k: int, guess: int)
    requires IsExponent(m, e, k) && guess >= k - 1
    ensures var r := Search(m, e, p, guess, false); r.Done? ==> r.exponent >= k
  {
    TooManyAt(m, e, p, k);
    hide Numeral, Digits, IsExponent;
  }

  // ----- the code

  /** Exactly `precision` zeroes and a single one, low digit first (1506-1516). The terminator
      stops the scan inside the buffer. */
  method IsBorderline(digits: array<char>, ghost n: nat, precision: nat, ghost d: nat) returns (b: bool)
    requires n < digits.Length && digits[n] == '\0' && digits[..n] == Numeral(d)
    ensures b <==> d == Pow(10, precision)
  {
    NumeralDenotes(d);
    hide Pow, DVal, Numeral;
    var i, p := 0, precision;
    while p > 0
      invariant 0 <= i <= n && 0 <= p && i + p == precision
      invariant forall t :: 0 <= t < i ==> digits[t] == '0'
      decreases p
    {
      if digits[i] != '0' {
        NotBorderline(digits[..n], d, precision, i);
        return false;
      }
      assert i < n;
      p := p - 1;
      i := i + 1;
    }
    if digits[i] != '1' {
      NotBorderline(digits[..n], d, precision, i);
      return false;
    }
    assert i < n;
    i := i + 1;
    b := digits[i] == '\0';
    if b {
      assert i <= n && (i < n ==> IsDigit(digits[..n][i]));
      assert digits[..n] == digits[..precision] + ['1'];
      IsBorderlineValue(digits[..precision], d);
    } else {
      assert i < n;
      NotBorderline(digits[..n], d, precision, i);
    }
  }

  lemma IsBorderlineValue(zeros: seq<char>, d: nat)
    requires forall t :: 0 <= t < |zeros| ==> zeros[t] == '0'
    requires DVal(zeros + ['1']) == d
    ensures d == Pow(10, |zeros|)
  {
    ZerosDenote(zeros);
    DValAppend(zeros, '1');
    TimesComm(Pow(10, |zeros|), 1);
    TimesOne(Pow(10, |zeros|));
  }

  /** The numeral of 10^precision is precision zeroes and a one. */
  lemma PowerNumeral(precision: nat)
    ensures |Numeral(Pow(10, precision))| == precision + 1
    ensures forall t :: 0 <= t < precision ==> Numeral(Pow(10, precision))[t] == '0'
    ensures Numeral(Pow(10, precision))[precision] == '1'
  {
    if precision > 0 {
      PowerNumeral(precision - 1);
      PowSucc(10, precision - 1);
    }
  }

  lemma NotBorderline(s: seq<char>, d: nat, precision: nat, i: nat)
    requires s == Numeral(d) && i <= |s|
    requires i <= precision ==> i == |s| || s[i] != (if i < precision then '0' else '1')
    requires i > precision ==> i < |s|
    ensures d != Pow(10, precision)
  {
    PowerNumeral(precision);
  }

  /** One round of the loop. */
  lemma SearchStep(m: nat, e: int, p: nat, exponent: int, adjusted: bool)
    ensures Digits(m, e, p, exponent) == Rounded(m, e, p - exponent)
    ensures DigitsTerminated(m, e, p, exponent) == IsTerminated(m, e, p - exponent)
    ensures var n := |Numeral(Digits(m, e, p, exponent))|;
            var next := if n == p then exponent - 1 else exponent + 1;
            if n == p + 1 then
              && Search(m, e, p, exponent, adjusted) == Done(exponent, Digits(m, e, p, exponent))
              && LoopTerminated(m, e, p, exponent, adjusted) == DigitsTerminated(m, e, p, exponent)
            else if n < p || n > p + 2 || adjusted then
              && Search(m, e, p, exponent, adjusted) == Aborted
              && LoopTerminated(m, e, p, exponent, adjusted) == DigitsTerminated(m, e, p, exponent)
            else
              && Search(m, e, p, exponent, adjusted) == Search(m, e, p, next, true)
              && LoopTerminated(m, e, p, exponent, adjusted)
                 == (DigitsTerminated(m, e, p, exponent) && LoopTerminated(m, e, p, next, true))
  {
    hide Numeral, Rounded, IsTerminated;
  }

  lemma AllTerminatedIs(m: nat, e: int, p: nat, guess: int)
    ensures AllTerminated(m, e, p, guess)
       <==> LoopTerminated(m, e, p, guess, false) && SettleTerminated(m, e, p, Search(m, e, p, guess, false))
  {
  }

  datatype Ending = Finished | Abort | Unterminated

  /** The loop (4181-4206), left with as many digits as wanted, or by an abort, or at a digit string without terminator. */
  method SearchLoop(m: Mpn, e: int, precision: nat, guess: int)
    returns (ending: Ending, exponent: int, digits: array<char>, ndigits: nat, ghost rounds: nat)
    requires m.Valid()
    ensures rounds <= 2
    ensures ending == Unterminated <==> !LoopTerminated(m.Value(), e, precision, guess, false)
    ensures ending == Abort ==> Search(m.Value(), e, precision, guess, false) == Aborted
    ensures ending == Finished ==>
              && Search(m.Value(), e, precision, guess, false) == Done(exponent, Digits(m.Value(), e, precision, exponent))
              && ndigits < digits.Length && digits[ndigits] == '\0'
              && digits[..ndigits] == Numeral(Digits(m.Value(), e, precision, exponent))
  {
    exponent := guess;
    ghost var v := m.Value();
    var adjusted := false;
    rounds := 0;
    ending := Unterminated;
    hide *;
    while true
      invariant v == m.Value()
      invariant Search(v, e, precision, guess, false) == Search(v, e, precision, exponent, adjusted)
      invariant LoopTerminated(v, e, precision, guess, false) == LoopTerminated(v, e, precision, exponent, adjusted)
      invariant rounds == (if adjusted then 1 else 0) && ending == Unterminated
      decreases !adjusted
    {
      var terminated;
      digits, ndigits, terminated := Scale10RoundDecimal(e, m, precision - exponent);
      rounds := rounds + 1;
      SearchStep(v, e, precision, exponent, adjusted);
      if !terminated {
        return;
      }
      NumeralLengthIs(digits[..ndigits], Digits(v, e, precision, exponent));
      if ndigits == precision + 1 {
        ending := Finished;
        return;
      }
      if ndigits < precision || ndigits > precision + 2 || adjusted {
        ending := Abort;
        return;
      }
      exponent := if ndigits == precision then exponent - 1 else exponent + 1;
      adjusted := true;
    }
  }

  /** The search as coded. Its result is that of the two functions above; it scales at most
      three times, and it never loops more than twice. */
  method SearchExponent(m: Mpn, e: int, precision: nat, guess: int)
    returns (ending: Ending, exponent: int, digits: array<char>, ndigits: nat, ghost rounds: nat)
    requires m.Valid()
    ensures rounds <= 2
    ensures ending == Unterminated <==> !AllTerminated(m.Value(), e, precision, guess)
    ensures var r := Settle(m.Value(), e, precision, Search(m.Value(), e, precision, guess, false));
            && (ending == Abort ==> r == Aborted)
            && (ending == Finished ==>
                  r.Done? && exponent == r.exponent && ndigits < digits.Length && digits[ndigits] == '\0'
                  && digits[..ndigits] == Numeral(r.value))
  {
    ghost var v := m.Value();
    AllTerminatedIs(v, e, precision, guess);
    SettleAborted(v, e, precision);
    hide *;
    ending, exponent, digits, ndigits, rounds := SearchLoop(m, e, precision, guess);
    if ending == Finished {
      var settled;
      settled, exponent, digits, ndigits := SettleBorderline(m, e, precision, exponent, digits, ndigits);
      ending := if settled then Finished else Unterminated;
    }
  }

  /** With a good guess for the exponent k of x: no abort, and precision + 1 digits that are x correctly rounded, unless
      a digit buffer on the way has no cell for its terminator. */
  method RoundToDigits(m: Mpn, e: int, precision: nat, guess: int, ghost k: int)
    returns (terminated: bool, exponent: int, digits: array<char>, ndigits: nat)
    requires m.Valid() && IsExponent(m.Value(), e, k) && GoodGuess(m.Value(), e, precision, k, guess)
    ensures terminated <==> AllTerminated(m.Value(), e, precision, guess)
    ensures terminated ==>
              && ndigits == precision + 1 < digits.Length && digits[ndigits] == '\0'
              && exponent == CorrectExponent(m.Value(), e, precision, k)
              && digits[..ndigits] == Numeral(CorrectDigits(m.Value(), e, precision, k))
  {
    hide Numeral, Rounded, Pow, Val, Settle, Search, IsExponent, CorrectExponent, CorrectDigits, Digits, AllTerminated;
    ghost var rounds;
    var ending;
    SearchCorrect(m.Value(), e, precision, k, guess);
    CorrectIsRounded(m.Value(), e, precision, k);
    ending, exponent, digits, ndigits, rounds := SearchExponent(m, e, precision, guess);
    // neither abort of the loop is reached
    assert ending != Abort;
    terminated := ending == Finished;
    if terminated {
      NumeralLengthIs(digits[..ndigits], CorrectDigits(m.Value(), e, precision, k));
    }
  }

  lemma NumeralLengthIs(s: seq<char>, d: nat)
    requires s == Numeral(d)
    ensures |s| == |Numeral(d)|
  {
  }

  lemma SettleAborted(m: nat, e: int, p: nat)
    ensures Settle(m, e, p, Aborted) == Aborted && SettleTerminated(m, e, p, Aborted)
  {
  }

  lemma SettleFinished(m: nat, e: int, p: nat, exponent: int)
    ensures SettleTerminated(m, e, p, Done(exponent, Digits(m, e, p, exponent)))
       <==> (Digits(m, e, p, exponent) == Pow(10, p) ==> IsTerminated(m, e, p - exponent + 1))
  {
  }

  method SettleBorderline(m: Mpn, e: int, precision: nat, exp0: int, digits0: array<char>, ndigits0: nat)
    returns (terminated: bool, exponent: int, digits: array<char>, ndigits: nat)
    requires m.Valid() && ndigits0 < digits0.Length && digits0[ndigits0] == '\0'
    requires digits0[..ndigits0] == Numeral(Digits(m.Value(), e, precision, exp0))
    ensures terminated <==> SettleTerminated(m.Value(), e, precision, Done(exp0, Digits(m.Value(), e, precision, exp0)))
    ensures terminated ==>
              && ndigits < digits.Length && digits[ndigits] == '\0'
              && Settle(m.Value(), e, precision, Done(exp0, Digits(m.Value(), e, precision, exp0)))
                 == Done(exponent, Digits(m.Value(), e, precision, exponent))
              && digits[..ndigits] == Numeral(Digits(m.Value(), e, precision, exponent))
  {
    terminated, exponent, digits, ndigits := true, exp0, digits0, ndigits0;
    ghost var v := m.Value();
    SettleFinished(v, e, precision, exp0);
    hide Numeral, Rounded, Pow, Val, IsTerminated, SettleTerminated;
    var borderline := IsBorderline(digits, ndigits, precision, Digits(v, e, precision, exp0));
    if borderline {
      var digits2, ndigits2;
      digits2, ndigits2, terminated := Scale10RoundDecimal(e, m, precision - exponent + 1);
      NumeralLengthIs(digits2[..ndigits2], Digits(v, e, precision, exponent - 1));
      if terminated && ndigits2 == precision + 1 {
        digits, ndigits := digits2, ndigits2;
        exponent := exponent - 1;
      }
    }
  }
}
