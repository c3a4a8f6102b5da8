/** `scale10_round_decimal_decoded` (libgnu/vasnprintf.c:1071-1284): the decimal digits of
    m * 2^e * 10^n rounded to an integer. */
module Scale10 {
  import opened Powers
  import opened Limbs
  import opened Division
  import opened Divide
  import opened Bounds
  import opened Decimal

  function Pos(x: int): (n: nat) {
    if x >= 0 then x else 0
  }

  function Numerator(m: nat, e: int, n: int): (a: nat) {
    m * Pow(2, Pos(e)) * Pow(10, Pos(n))
  }

  function Denominator(e: int, n: int): (b: nat)
    ensures b > 0
  {
    MulMono(1, Pow(2, Pos(-e)), Pow(10, Pos(-n)));
    Pow(2, Pos(-e)) * Pow(10, Pos(-n))
  }

  /** round (m * 2^e * 10^n): the specification, free of bignums and of the case split. */
  function Rounded(m: nat, e: int, n: int): (y: nat) {
    RoundHalfEven(Numerator(m, e, n), Denominator(e, n))
  }

  // ----- the specification in terms of 2^s * 5^n

  function Numerator5(m: nat, s: int, n: int): (a: nat) {
    m * Pow(2, Pos(s)) * Pow(5, Pos(n))
  }

  function Denominator5(s: int, n: int): (b: nat)
    ensures b > 0
  {
    MulMono(1, Pow(2, Pos(-s)), Pow(5, Pos(-n)));
    Pow(2, Pos(-s)) * Pow(5, Pos(-n))
  }

  /** Equal fractions round alike. */
  lemma RoundSameRatio(a: nat, b: nat, c: nat, d: nat)
    requires b > 0 && d > 0 && a * d == c * b
    ensures RoundHalfEven(a, b) == RoundHalfEven(c, d)
  {
    RoundCommonFactor(d, a, b);
    RoundCommonFactor(b, c, d);
    assert d * a == b * c && d * b == b * d;
  }

  lemma PowAdd3(b: nat, x: nat, y: nat, z: nat)
    ensures Pow(b, x + y + z) == Pow(b, x) * Pow(b, y) * Pow(b, z)
  {
    hide *;
    PowAdd(b, x, y);
    PowAdd(b, x + y, z);
  }

  lemma CrossLeft(m: int, a: int, b2: int, b5: int, c: int, d: int)
    ensures (m * a * (b2 * b5)) * (c * d) == (m * (b5 * d)) * (a * b2 * c)
  {
    assert m * a * (b2 * b5) == (m * b5) * (a * b2);
    Regroup(m * b5, a * b2, d, c);
    assert c * d == d * c;
    MulAssoc(m, b5, d);
  }

  lemma CrossRight(m: int, a: int, b5: int, c: int, d2: int, d5: int)
    ensures (m * a * b5) * (c * (d2 * d5)) == (m * (b5 * d5)) * (a * c * d2)
  {
    assert m * a * b5 == (m * b5) * a;
    assert c * (d2 * d5) == d5 * (c * d2);
    Regroup(m * b5, a, d5, c * d2);
    MulAssoc(m, b5, d5);
    MulAssoc(a, c, d2);
  }

  lemma CrossEqual(m: nat, e: int, n: int)
    ensures Numerator(m, e, n) * Denominator5(e + n, n) == Numerator5(m, e + n, n) * Denominator(e, n)
  {
    hide Pow;
    var s := e + n;
    TenIsTwoTimesFive(Pos(n));
    TenIsTwoTimesFive(Pos(-n));
    CrossLeft(m, Pow(2, Pos(e)), Pow(2, Pos(n)), Pow(5, Pos(n)), Pow(2, Pos(-s)), Pow(5, Pos(-n)));
    CrossRight(m, Pow(2, Pos(s)), Pow(5, Pos(n)), Pow(2, Pos(-e)), Pow(2, Pos(-n)), Pow(5, Pos(-n)));
    PowAdd3(2, Pos(e), Pos(n), Pos(-s));
    PowAdd3(2, Pos(s), Pos(-e), Pos(-n));
    assert Pos(e) + Pos(n) + Pos(-s) == Pos(s) + Pos(-e) + Pos(-n);
  }

  /** 2^e * 10^n = 2^(e+n) * 5^n, whatever the signs. */
  lemma TwosAndFives(m: nat, e: int, n: int)
    ensures Rounded(m, e, n) == RoundHalfEven(Numerator5(m, e + n, n), Denominator5(e + n, n))
  {
    hide Pow, RoundHalfEven, Numerator, Numerator5, Denominator, Denominator5;
    CrossEqual(m, e, n);
    RoundSameRatio(Numerator(m, e, n), Denominator(e, n), Numerator5(m, e + n, n), Denominator5(e + n, n));
  }

  /** Factoring out a common power of ten leaves nothing to round. */
  lemma CommonTens(m: nat, s: nat, n: nat, k: nat)
    requires k <= s && k <= n
    ensures RoundHalfEven(Numerator5(m, s, n), Denominator5(s, n))
         == RoundHalfEven(Numerator5(m, s - k, n - k), Denominator5(s - k, n - k)) * Pow(10, k)
  {
    RoundExact(Numerator5(m, s, n), 1);
    RoundExact(Numerator5(m, s - k, n - k), 1);
    PowZero(2);
    PowZero(5);
    hide Pow, RoundHalfEven;
    PowAdd(2, s - k, k);
    PowAdd(5, n - k, k);
    TenIsTwoTimesFive(k);
    TensAlgebra(m, Pow(2, s - k), Pow(2, k), Pow(5, n - k), Pow(5, k));
  }

  lemma TensAlgebra(m: int, a: int, b: int, c: int, d: int)
    ensures m * (a * b) * (c * d) == (m * a * c) * (b * d)
  {
    MulAssoc(m, a, b);
    Regroup(m * a, b, c, d);
  }

  // ----- 5^|n| by steps of thirteen powers (1116-1143)

  const SMALL_POW5: seq<Limb> :=
    [1, 5, 25, 125, 625, 3125, 15625, 78125, 390625, 1953125, 9765625, 48828125, 244140625, 1220703125]

  lemma {:induction false} SmallPow5(i: nat)
    requires i <= 13
    ensures SMALL_POW5[i] == Pow(5, i) && SMALL_POW5[i] > 0
  {
    if i > 0 {
      SmallPow5(i - 1);
      PowSucc(5, i - 1);
    }
  }

  /** Multiply the bignum at the start of the buffer by a digit; it may grow by one limb. */
  method MultiplyBy(buf: array<Limb>, len: nat, digit: Limb) returns (len': nat)
    requires 0 < len <= buf.Length && buf[len - 1] != 0 && digit > 0
    requires Times(digit, Val(buf[..len])) >= W(len) ==> len < buf.Length
    modifies buf
    ensures len <= len' <= len + 1 && len' <= buf.Length && buf[len' - 1] != 0
    ensures Val(buf[..len']) == Times(digit, old(Val(buf[..len])))
  {
    hide Val, W, Times;
    ghost var o := buf[..len];
    assert buf[0..0 + len] == o;
    var carry := ScaleRow(buf, 0, buf, 0, len, digit);
    ghost var low := buf[..len];
    assert buf[0..0 + len] == low;
    len' := len;
    if carry > 0 {
      TimesSmall(carry, W(len));
      assert len < buf.Length;
      buf[len] := carry;
      assert buf[..len + 1] == low + [carry];
      TimesAppend(low, carry);
      len' := len + 1;
    } else {
      TimesZero(W(len));
      TopNonzero(o);
      TimesMono(1, digit, Val(o));
      TimesOne(Val(o));
      TopNonzeroIf(low);
    }
  }

  method BuildPow5(pow5: array<Limb>, absN: nat) returns (len: nat)
    requires FiveLimbs(absN) <= pow5.Length
    modifies pow5
    ensures 0 < len <= FiveLimbs(absN) && pow5[len - 1] != 0
    ensures Val(pow5[..len]) == Pow(5, absN)
  {
    pow5[0] := 1;
    len := 1;
    assert pow5[..1] == [1];
    SingleLimb(1);
    PowZero(5);
    if absN > 0 {
      var n13 := 0;
      hide Val, W, Times, Pow, FiveLimbs;
      while n13 <= absN
        invariant 0 <= n13 <= absN + 13
        invariant 0 < len <= FiveLimbs(absN) && pow5[len - 1] != 0
        invariant Val(pow5[..len]) == Pow(5, Min(n13, absN))
      {
        var i := if n13 + 13 <= absN then 13 else absN - n13;
        SmallPow5(i);
        Pow5Step(n13, i, absN, pow5[..len]);
        len := MultiplyBy(pow5, len, SMALL_POW5[i]);
        TopNonzero(pow5[..len]);
        FiveLimbsSuffice(absN, len);
        n13 := n13 + 13;
      }
    }
  }

  /** Neither the new value nor the limb it may need exceeds the room for 5^absN. */
  lemma Pow5Step(n13: nat, i: nat, absN: nat, s: seq<Limb>)
    requires n13 + i <= absN && Val(s) == Pow(5, n13)
    ensures Times(Pow(5, i), Val(s)) == Pow(5, n13 + i)
    ensures Pow(5, n13 + i) <= Pow(5, absN)
    ensures Times(Pow(5, i), Val(s)) >= W(|s|) ==> |s| + 1 <= FiveLimbs(absN)
  {
    hide Val, W, Pow, FiveLimbs;
    PowAdd(5, i, n13);
    TimesIsMul(Pow(5, i), Pow(5, n13));
    PowMonoExp(5, n13 + i, absN);
    if Times(Pow(5, i), Val(s)) >= W(|s|) {
      FiveLimbsSuffice(absN, |s| + 1);
    }
  }

  // ----- multiplication by 2^|s| (1144-1180, 1212-1221, 1230-1269)

  /** Whole limbs and remaining bits make up the shift. */
  lemma ShiftSplit(absS: nat)
    ensures Pow(2, absS) == Times(W(absS / 32), Pow(2, absS % 32))
  {
    hide Pow, W;
    WIsPow(absS / 32);
    PowSquares();
    PowOfPow(2, 32, absS / 32);
    PowAdd(2, 32 * (absS / 32), absS % 32);
    TimesIsMul(W(absS / 32), Pow(2, absS % 32));
  }

  /** Move a bignum up by k limbs, from the top down, and clear the limbs below. */
  method MoveUp(buf: array<Limb>, len: nat, k: nat)
    requires len + k <= buf.Length
    modifies buf
    ensures buf[k..k + len] == old(buf[..len])
    ensures Val(buf[..len + k]) == Times(W(k), old(Val(buf[..len])))
  {
    hide Val, W, Times;
    ghost var o := buf[..len];
    var count := len;
    while count > 0
      invariant 0 <= count <= len
      invariant forall t :: 0 <= t < count ==> buf[t] == o[t]
      invariant forall t :: count <= t < len ==> buf[k + t] == o[t]
    {
      count := count - 1;
      buf[k + count] := buf[count];
    }
    ClearBelow(buf, k);
    assert buf[..len + k] == buf[..k] + o;
    ValTimesConcat(buf[..k], o);
  }

  method ClearBelow(buf: array<Limb>, k: nat)
    requires k <= buf.Length
    modifies buf
    ensures Val(buf[..k]) == 0
    ensures forall t :: k <= t < buf.Length ==> buf[t] == old(buf[t])
  {
    var count := k;
    while count > 0
      invariant 0 <= count <= k
      invariant forall t :: count <= t < k ==> buf[t] == 0
      invariant forall t :: k <= t < buf.Length ==> buf[t] == old(buf[t])
    {
      count := count - 1;
      buf[count] := 0;
    }
    ValZeros(buf[..k]);
  }

  /** The bignum at the start of the buffer, times 2^absS, in place. */
  method ShiftInPlace(buf: array<Limb>, len: nat, absS: nat) returns (len': nat)
    requires 0 < len && len + 1 + absS / 32 <= buf.Length && buf[len - 1] != 0
    modifies buf
    ensures len' <= buf.Length && Val(buf[..len']) == Times(Pow(2, absS), old(Val(buf[..len])))
  {
    hide Val, W, Times, Pow;
    ghost var v := Val(buf[..len]);
    ShiftSplit(absS);
    PowZero(2);
    TimesOne(v);
    len' := len;
    if absS % 32 > 0 {
      len' := MultiplyBy(buf, len, ShiftDigit(absS % 32));
    }
    assert Val(buf[..len']) == Times(Pow(2, absS % 32), v);
    TimesAssoc(W(absS / 32), Pow(2, absS % 32), v);
    if absS / 32 > 0 {
      MoveUp(buf, len', absS / 32);
      len' := len' + absS / 32;
    } else {
      WZero();
      TimesOne(Pow(2, absS % 32));
    }
  }

  lemma WZero()
    ensures W(0) == 1
  {
  }

  /** 2^absS, written just above the first `len` limbs of the buffer. */
  method PlacePowerOfTwo(buf: array<Limb>, len: nat, absS: nat)
    requires len + absS / 32 + 1 <= buf.Length
    modifies buf
    ensures buf[..len] == old(buf[..len])
    ensures Val(buf[len..len + (absS / 32 + 1)]) == Pow(2, absS)
  {
    hide Val, W, Times, Pow;
    var k := absS / 32;
    var i := 0;
    while i < k
      invariant 0 <= i <= k
      invariant forall t :: len <= t < len + i ==> buf[t] == 0
      invariant buf[..len] == old(buf[..len])
    {
      buf[len + i] := 0;
      i := i + 1;
    }
    ghost var zeros := buf[len..len + k];
    ValZeros(zeros);
    buf[len + k] := ShiftDigit(absS % 32);
    assert buf[len..len + (k + 1)] == zeros + [buf[len + k]];
    TimesAppend(zeros, buf[len + k]);
    ShiftSplit(absS);
    TimesComm(W(k), Pow(2, absS % 32));
  }

  /** m * 2^absS in a new buffer. */
  method ShiftedCopy(m: Mpn, absS: nat) returns (num: Mpn)
    requires m.Valid()
    ensures num.Valid() && fresh(num.limbs)
    ensures num.Value() == Times(Pow(2, absS), m.Value())
  {
    hide Val, W, Times, Pow;
    var k, len := absS / 32, m.nlimbs;
    var buf := new Limb[len + k + 1];
    ClearBelow(buf, k);
    ghost var zeros := buf[..k];
    var digit := ShiftDigit(absS % 32);
    // for s_bits = 0 the loop degenerates to a copy: the digit is 1 and the carry stays 0
    var accu := ScaleRow(m.limbs, m.start, buf, k, len, digit);
    ghost var body := buf[k..k + len];
    TimesZero(W(len));
    ShiftSplit(absS);
    TimesAssoc(W(k), Pow(2, absS % 32), m.Value());
    assert buf[..k] == zeros;
    if accu > 0 {
      buf[k + len] := accu;
      assert buf[k..k + len] == body;
      assert buf[0..0 + (k + len + 1)] == zeros + (body + [accu]);
      TimesAppend(body, accu);
      ValTimesConcat(zeros, body + [accu]);
      num := Mpn(buf, 0, k + len + 1);
    } else {
      assert buf[0..0 + (k + len)] == zeros + body;
      ValTimesConcat(zeros, body);
      num := Mpn(buf, 0, k + len);
    }
  }

  // ----- the whole operation

  function Abs(x: int): (n: nat) {
    if x >= 0 then x else -x
  }

  /** z is round (v * 2^s * 5^n), without leading zero limbs. */
  ghost predicate IsScaled(z: Mpn, v: nat, s: int, n: int)
    reads z.limbs
  {
    z.Valid() && z.Normal() && z.Value() == RoundHalfEven(Numerator5(v, s, n), Denominator5(s, n))
  }

  /** z = round (m * 2^s * 5^n), by multiplication, division, or both, after the signs. */
  method ScaleRound(m: Mpn, s: int, n: int) returns (z: Mpn)
    requires m.Valid()
    ensures fresh(z.limbs) && IsScaled(z, m.Value(), s, n)
  {
    var pow5 := new Limb[FiveLimbs(Abs(n)) + Abs(s) / 32 + 1];
    var len := BuildPow5(pow5, Abs(n));
    hide Val, W, Times, Pow, FiveLimbs, IsScaled;
    if if n >= 0 then s >= 0 else s <= 0 {
      z := ScaleSameSigns(m, s, n, pow5, len);
    } else if n >= 0 {
      z := ScaleDown(m, s, n, pow5, len);
    } else {
      z := ScaleUp(m, s, n, pow5, len);
    }
  }

  /** n and s of the same sign: multiply with, or divide by, 5^|n| * 2^|s|. */
  method ScaleSameSigns(m: Mpn, s: int, n: int, pow5: array<Limb>, len0: nat) returns (z: Mpn)
    requires m.Valid() && m.limbs != pow5 && if n >= 0 then s >= 0 else s <= 0
    requires 0 < len0 && len0 + 1 + Abs(s) / 32 <= pow5.Length && pow5[len0 - 1] != 0
    requires Val(pow5[..len0]) == Pow(5, Abs(n))
    modifies pow5
    ensures fresh(z.limbs) && IsScaled(z, m.Value(), s, n)
  {
    hide Val, W, Times, Pow, RoundHalfEven;
    ghost var v := m.Value();
    var len := ShiftInPlace(pow5, len0, Abs(s));
    assert pow5[0..0 + len] == pow5[..len];
    if n >= 0 {
      CaseMultiply(v, s, n);
      z := Multiply(m, Mpn(pow5, 0, len));
    } else {
      CaseDivide(v, s, n);
      z := Divide.Divide(m, Mpn(pow5, 0, len));
    }
  }

  /** n >= 0, s < 0: multiply with 5^|n|, then divide by 2^|s|. */
  method ScaleDown(m: Mpn, s: int, n: int, pow5: array<Limb>, len: nat) returns (z: Mpn)
    requires m.Valid() && m.limbs != pow5 && n >= 0 > s
    requires len + 1 + Abs(s) / 32 <= pow5.Length && Val(pow5[..len]) == Pow(5, Abs(n))
    modifies pow5
    ensures fresh(z.limbs) && IsScaled(z, m.Value(), s, n)
  {
    hide Val, W, Times, Pow, RoundHalfEven;
    assert pow5[0..0 + len] == pow5[..len];
    CaseMultiplyDivide(m.Value(), s, n);
    var numerator := Multiply(m, Mpn(pow5, 0, len));
    PlacePowerOfTwo(pow5, len, Abs(s));
    z := Divide.Divide(numerator, Mpn(pow5, len, Abs(s) / 32 + 1));
  }

  /** n < 0, s > 0: multiply with 2^|s|, then divide by 5^|n|. */
  method ScaleUp(m: Mpn, s: int, n: int, pow5: array<Limb>, len: nat) returns (z: Mpn)
    requires m.Valid() && m.limbs != pow5 && n < 0 < s
    requires len <= pow5.Length && Val(pow5[..len]) == Pow(5, Abs(n))
    ensures fresh(z.limbs) && IsScaled(z, m.Value(), s, n)
  {
    hide Val, W, Times, Pow, RoundHalfEven;
    var numerator := ShiftedCopy(m, Abs(s));
    assert pow5[0..0 + len] == pow5[..len];
    CaseShiftDivide(m.Value(), s, n);
    z := Divide.Divide(numerator, Mpn(pow5, 0, len));
  }

  lemma CaseMultiply(v: nat, s: int, n: int)
    requires n >= 0 && s >= 0
    ensures v * Times(Pow(2, s), Pow(5, n)) == RoundHalfEven(Numerator5(v, s, n), Denominator5(s, n))
  {
    PowZero(2);
    PowZero(5);
    RoundExact(Numerator5(v, s, n), 1);
    TimesIsMul(Pow(2, s), Pow(5, n));
    hide Pow, RoundHalfEven;
    MulAssoc(v, Pow(2, s), Pow(5, n));
  }

  lemma CaseDivide(v: nat, s: int, n: int)
    requires n < 0 && s <= 0
    ensures Times(Pow(2, -s), Pow(5, -n)) == Denominator5(s, n) && v == Numerator5(v, s, n)
  {
    PowZero(2);
    PowZero(5);
    TimesIsMul(Pow(2, -s), Pow(5, -n));
  }

  lemma CaseMultiplyDivide(v: nat, s: int, n: int)
    requires n >= 0 && s < 0
    ensures v * Pow(5, n) == Numerator5(v, s, n) && Pow(2, -s) == Denominator5(s, n)
  {
    PowZero(2);
    PowZero(5);
  }

  lemma CaseShiftDivide(v: nat, s: int, n: int)
    requires n < 0 && s > 0
    ensures Times(Pow(2, s), v) == Numerator5(v, s, n) && Pow(5, -n) == Denominator5(s, n)
  {
    PowZero(2);
    PowZero(5);
    TimesIsMul(Pow(2, s), v);
  }

  /** The power of ten that is split off before the bignums are computed (1094-1103). */
  function CommonPower(e: int, n: int): (k: nat) {
    if e + n > 0 && n > 0 then Min(e + n, n) else 0
  }

  /** The buffer for the digits of round (m * 2^e * 10^n) has a cell for the terminator. What counts is the number
      without the common power of ten. */
  predicate IsTerminated(m: nat, e: int, n: int) {
    TerminatorFits(Rounded(m, e, n) / Pow(10, CommonPower(e, n)))
  }

  /** Splitting off the common power of ten, and putting it back as zeroes. */
  lemma CommonTensRounded(m: nat, e: int, n: int)
    ensures var k := CommonPower(e, n);
            var z := RoundHalfEven(Numerator5(m, e + n - k, n - k), Denominator5(e + n - k, n - k));
            Rounded(m, e, n) == z * Pow(10, k) && Rounded(m, e, n) / Pow(10, k) == z
  {
    TwosAndFives(m, e, n);
    PowZero(10);
    hide Pow, RoundHalfEven, Rounded, Numerator5, Denominator5;
    var k := CommonPower(e, n);
    if k > 0 {
      CommonTens(m, e + n, n, k);
    }
    DivUnique(Rounded(m, e, n), Pow(10, k),
              RoundHalfEven(Numerator5(m, e + n - k, n - k), Denominator5(e + n - k, n - k)), 0);
  }

  /** What the scaled bignum says about the digits and about the terminator. */
  lemma ScaledBignum(z: Mpn, m: nat, e: int, n: int)
    requires var k := CommonPower(e, n); IsScaled(z, m, e + n - k, n - k)
    ensures z.Valid() && z.Value() * Pow(10, CommonPower(e, n)) == Rounded(m, e, n)
    ensures z.Value() < Pow(10, DecimalRoom(z.nlimbs) - 1) <==> IsTerminated(m, e, n)
  {
    hide Val, Pow, RoundHalfEven, Rounded, Numerator5, Denominator5, LimbCount, DecimalRoom, CommonPower;
    CommonTensRounded(m, e, n);
    NormalLength(z);
  }

  /** The decimal digits of round (m * 2^e * 10^n), low digit first, and whether a terminator follows them. */
  method Scale10RoundDecimal(e: int, m: Mpn, n: int) returns (digits: array<char>, ndigits: nat, terminated: bool)
    requires m.Valid()
    ensures fresh(digits) && ndigits <= digits.Length
    ensures digits[..ndigits] == Numeral(Rounded(m.Value(), e, n))
    ensures terminated <==> IsTerminated(m.Value(), e, n)
    ensures terminated ==> ndigits < digits.Length && digits[ndigits] == '\0'
  {
    var s, n', zeroes := e + n, n, 0;
    hide Val, Pow, RoundHalfEven, Rounded, Numeral, IsScaled, IsTerminated, DecimalRoom;
    if s > 0 && n' > 0 {
      zeroes := if s < n' then s else n';
      s := s - zeroes;
      n' := n' - zeroes;
    }
    var z := ScaleRound(m, s, n');
    ScaledBignum(z, m.Value(), e, n);
    digits, ndigits, terminated := ConvertToDecimal(z, zeroes);
  }

  /** Numbers below 10^125 always leave a cell, also when scaled. */
  lemma SmallIsTerminated(m: nat, e: int, n: int)
    requires Rounded(m, e, n) < Pow(10, 125)
    ensures IsTerminated(m, e, n)
  {
    hide Pow, Rounded, TerminatorFits;
    var p := Pow(10, CommonPower(e, n));
    DivMod(Rounded(m, e, n), p);
    MulMono(1, p, Rounded(m, e, n) / p);
    SmallFits(Rounded(m, e, n) / p);
  }

  /** For an integer it is the integer itself that counts, whatever the precision n asked for. */
  lemma IntegerTerminatedIff(m: nat, e: nat, n: nat)
    ensures Rounded(m, e, n) == (m * Pow(2, e)) * Pow(10, n)
    ensures IsTerminated(m, e, n) <==> TerminatorFits(m * Pow(2, e))
  {
    var v, q := m * Pow(2, e), Pow(10, n);
    assert Numerator(m, e, n) == v * q;
    RoundExact(v * q, 1);
    PowZero(2);
    PowZero(10);
    assert Rounded(m, e, n) == v * q;
    hide Pow, Rounded, TerminatorFits;
    assert CommonPower(e, n) == n;
    DivUnique(v * q, q, v, 0);
  }

  /** From 10^125 up to beta^13 the digits fill the buffer. */
  lemma NotTerminated(m: nat, e: nat, n: nat)
    requires Pow(10, 125) <= m * Pow(2, e) < W(13)
    ensures !IsTerminated(m, e, n)
    ensures |Numeral(Rounded(m, e, n))| == 126 + n == DecimalRoom(13) + n
  {
    hide Pow, Rounded, W, Numeral, IsTerminated, TerminatorFits;
    IntegerTerminatedIff(m, e, n);
    var v := m * Pow(2, e);
    ThirteenLimbs();
    TwelveLimbsBelow();
    ThirteenLimbsFitIff(v);
    TerminatorFitsIff(v, n, 126);
    TerminatorFitsIff(v, n, 127);
  }

  /** 3 * 2^414, a double of about 1.27e125, is such a number. */
  lemma NotTerminatedSample(n: nat)
    ensures !IsTerminated(3, 414, n)
  {
    hide Pow, W, IsTerminated, Rounded, Numeral;
    ThirteenLimbs();
    NotTerminated(3, 414, n);
  }
}
