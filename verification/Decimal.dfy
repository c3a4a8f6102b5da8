/** Decimal numerals, low digit first, and `convert_to_decimal` (libgnu/vasnprintf.c:839-891). */
module Decimal {
  import opened Powers
  import opened Limbs
  import opened Division
  import opened Bounds
  import opened DecimalDigits

  predicate AllDigits(s: seq<char>) {
    forall i :: 0 <= i < |s| ==> IsDigit(s[i])
  }

  /** The number a low-to-high digit string denotes. */
  function DVal(s: seq<char>): (v: nat) {
    if s == [] then 0 else DigitOf(s[0]) + 10 * DVal(s[1..])
  }

  /** The numeral of v, low digit first: no leading zero, except that zero is "0". */
  function Numeral(v: nat): (s: seq<char>)
    ensures |s| > 0
  {
    if v < 10 then [DigitChar(v)] else [DigitChar(v % 10)] + Numeral(v / 10)
  }

  predicate IsNumeral(s: seq<char>) {
    && AllDigits(s)
    && |s| > 0
    && (s[|s| - 1] == '0' ==> |s| == 1)
  }

  lemma {:induction false} NumeralDenotes(v: nat)
    ensures IsNumeral(Numeral(v)) && DVal(Numeral(v)) == v
    ensures v > 0 ==> Numeral(v)[|Numeral(v)| - 1] != '0'
  {
    if v < 10 {
      assert Numeral(v)[1..] == [];
    } else {
      NumeralDenotes(v / 10);
      assert Numeral(v)[1..] == Numeral(v / 10);
    }
  }

  /** A numeral is determined by the number it denotes. */
  lemma {:induction false} NumeralUnique(s: seq<char>)
    requires IsNumeral(s)
    ensures s == Numeral(DVal(s))
  {
    if |s| == 1 {
      assert s[1..] == [];
      assert s == [DigitChar(DigitOf(s[0]))];
    } else {
      NumeralUnique(s[1..]);
      NumeralPositive(s[1..]);
      NumeralStep(s[0], DVal(s[1..]));
      hide Numeral, DigitOf;
      assert s == [s[0]] + s[1..];
    }
  }

  lemma NumeralStep(c: char, v: nat)
    requires IsDigit(c) && v > 0
    ensures Numeral(DigitOf(c) + 10 * v) == [c] + Numeral(v)
  {
    var d := DigitOf(c) + 10 * v;
    assert d % 10 == DigitOf(c) && d / 10 == v;
    assert DigitChar(DigitOf(c)) == c;
  }

  lemma {:induction false} NumeralPositive(s: seq<char>)
    requires AllDigits(s) && |s| > 0 && s[|s| - 1] != '0'
    ensures DVal(s) > 0
  {
    if |s| > 1 {
      NumeralPositive(s[1..]);
    }
  }

  /** The length of a numeral is the place of its highest digit. */
  lemma {:induction false} NumeralLength(v: nat, k: nat)
    requires k > 0
    ensures |Numeral(v)| <= k <==> v < Pow(10, k)
    decreases v
  {
    PowSucc(10, k - 1);
    if v < 10 {
      PowMonoExp(10, 1, k);
    } else if k == 1 {
    } else {
      NumeralLength(v / 10, k - 1);
    }
  }

  lemma {:induction false} DValConcat(s: seq<char>, t: seq<char>)
    ensures DVal(s + t) == DVal(s) + Times(Pow(10, |s|), DVal(t))
  {
    if s == [] {
      assert s + t == t;
    } else {
      DValConcat(s[1..], t);
      assert (s + t)[1..] == s[1..] + t;
      DValConcatAlgebra(Pow(10, |s| - 1), DVal(t));
    }
  }

  lemma DValConcatAlgebra(p: int, v: int)
    ensures Times(10 * p, v) == 10 * Times(p, v)
  {
  }

  lemma DValAppend(s: seq<char>, c: char)
    ensures DVal(s + [c]) == DVal(s) + Times(Pow(10, |s|), DigitOf(c))
  {
    DValConcat(s, [c]);
    assert DVal([c]) == DigitOf(c);
  }

  // ----- one group of nine digits

  /** The digits out so far, lowest first, and the number still to be converted. */
  predicate Emitted(s: seq<char>, v: nat, total: nat) {
    AllDigits(s) && DVal(s) + Times(Pow(10, |s|), v) == total
  }

  lemma DigitStep(s: seq<char>, rem: nat, total: nat)
    requires Emitted(s, rem, total)
    ensures Emitted(s + [DigitChar(rem % 10)], rem / 10, total)
  {
    hide DVal, Pow, Times;
    var c, p := DigitChar(rem % 10), Pow(10, |s|);
    DValAppend(s, c);
    PowSucc(10, |s|);
    DValConcatAlgebra(p, rem / 10);
    TimesDist(p, 10 * (rem / 10), rem % 10);
    TimesTen(p, rem / 10);
  }

  /** "Store the remainder as 9 decimal digits", lowest first. */
  method EmitNine(c: array<char>, d: nat, rem: nat)
    requires d + 9 <= c.Length && rem < 1000000000
    modifies c
    ensures AllDigits(c[d..d + 9]) && DVal(c[d..d + 9]) == rem
    ensures forall k :: 0 <= k < c.Length && !(d <= k < d + 9) ==> c[k] == old(c[k])
  {
    EmitStart(rem);
    assert c[d..d] == [];
    hide *;
    var r, count := rem, 9;
    while count > 0
      invariant 0 <= count <= 9
      invariant 0 <= r < Pow(10, count)
      invariant Emitted(c[d..d + (9 - count)], r, rem)
      invariant forall k :: 0 <= k < c.Length && !(d <= k < d + (9 - count)) ==> c[k] == old(c[k])
    {
      var i := d + (9 - count);
      ghost var was := c[d..i];
      DigitStep(was, r, rem);
      PowSucc(10, count - 1);
      c[i] := DigitChar(r % 10);
      assert c[d..i + 1] == was + [DigitChar(r % 10)];
      r := r / 10;
      count := count - 1;
    }
    EmittedAll(c[d..d + 9], r, rem);
  }

  lemma EmitStart(rem: nat)
    requires rem < 1000000000
    ensures Emitted([], rem, rem) && rem < Pow(10, 9)
  {
    TenPowers();
    PowZero(10);
    hide Pow;
    TimesOne(rem);
  }

  lemma PowZero(b: nat)
    ensures Pow(b, 0) == 1
  {
  }

  /** Nothing is left to convert: the digits denote the whole number. */
  lemma EmittedAll(s: seq<char>, v: nat, total: nat)
    requires Emitted(s, v, total) && v < Pow(10, 0)
    ensures AllDigits(s) && DVal(s) == total
  {
    PowZero(10);
    TimesOfZero(Pow(10, |s|));
  }

  // ----- the whole conversion

  lemma EmittedStep(s: seq<char>, v: nat, total: nat, group: seq<char>, q: nat)
    requires Emitted(s, v, total) && AllDigits(group) && |group| == 9
    requires v == Times(q, 1000000000) + DVal(group)
    ensures Emitted(s + group, q, total)
  {
    hide DVal, Pow, Times;
    var p := Pow(10, |s|);
    DValConcat(s, group);
    PowAdd(10, |s|, 9);
    TenPowers();
    TimesIsMul(p, Pow(10, 9));
    TimesDist(p, Times(q, 1000000000), DVal(group));
    TimesComm(q, 1000000000);
    TimesAssoc(p, 1000000000, q);
  }

  /** One division by 10^9 uses up one group of the room, and either drops a limb or leaves
      a number too large for as many limbs as groups. */
  lemma RoundShrinks(q: seq<Limb>, rem: int, v: nat, t: nat)
    requires |q| > 0 && v == Times(Val(q), 1000000000) + rem && 0 <= rem
    requires v < Pow(1000000000, t) && |q| <= t
    ensures Val(q) < Pow(1000000000, t - 1)
    ensures q[|q| - 1] == 0 ==> Val(q[..|q| - 1]) == Val(q)
    ensures q[|q| - 1] != 0 ==> |q| <= t - 1
  {
    hide Val, W, Pow, Times;
    PowSucc(1000000000, t - 1);
    TimesBillion(Val(q), Pow(1000000000, t - 1));
    TopLimb(q);
    TimesZero(W(|q| - 1));
    if q[|q| - 1] != 0 {
      LimbsOverGroups(q, t - 1);
    }
  }

  lemma TimesBillion(v: int, p: int)
    ensures Times(v, 1000000000) == 1000000000 * v
  {
  }

  lemma LimbsOverGroups(q: seq<Limb>, t: nat)
    requires |q| > 0 && q[|q| - 1] != 0 && Val(q) < Pow(1000000000, t)
    ensures |q| <= t
  {
    hide Val, W, Pow;
    ValTop(q);
    WIsPow(|q| - 1);
    PowMonoBase(1000000000, 0x1_0000_0000, |q| - 1);
    PowExpLt(1000000000, |q| - 1, t);
  }

  method LeadingZeros10(c: array<char>, d: nat) returns (d': nat)
    requires d <= c.Length && AllDigits(c[..d])
    ensures d' <= d && DVal(c[..d']) == DVal(c[..d])
    ensures AllDigits(c[..d']) && (d' > 0 ==> c[d' - 1] != '0')
  {
    d' := d;
    while d' > 0 && c[d' - 1] == '0'
      invariant d' <= d && DVal(c[..d']) == DVal(c[..d]) && AllDigits(c[..d'])
    {
      assert c[..d'] == c[..d' - 1] + [c[d' - 1]];
      DValAppend(c[..d' - 1], '0');
      TimesOfZero(Pow(10, d' - 1));
      d' := d' - 1;
    }
  }

  /** The digits of a * 10^zeroes, in the `DecimalRoom(nlimbs) + zeroes` cells that are allocated. They always fit;
      the terminator is stored only if a cell is left for it. The limbs of a are destroyed. */
  method ConvertToDecimal(a: Mpn, zeroes: nat) returns (c: array<char>, n: nat, terminated: bool)
    requires a.Valid()
    modifies a.limbs
    ensures fresh(c) && c.Length == DecimalRoom(a.nlimbs) + zeroes
    ensures n <= c.Length && c[..n] == old(Numeral(a.Value() * Pow(10, zeroes)))
    ensures terminated <==> old(a.Value()) < Pow(10, DecimalRoom(a.nlimbs) - 1)
    ensures terminated ==> n < c.Length && c[n] == '\0'
  {
    hide DVal, Pow, Times, Val, W;
    ghost var v := a.Value();
    ghost var total := v * Pow(10, zeroes);
    c := new char[DecimalRoom(a.nlimbs) + zeroes];
    var d := FillZeroes(c, zeroes, v);
    d := EmitGroups(a.limbs, a.start, a.nlimbs, c, d, total);
    d := LeadingZeros10(c, d);
    if d == 0 {
      c[0] := '0';
      d := 1;
      assert c[..1] == ['0'];
      ZeroDigits();
    }
    NumeralUnique(c[..d]);
    TerminatorFitsIff(v, zeroes, DecimalRoom(a.nlimbs));
    n := d;
    ghost var out := c[..n];
    terminated := n < c.Length;
    if terminated {
      c[n] := '\0';
      assert c[..n] == out;
    }
  }

  /** A buffer of `room + zeroes` cells has one left after the digits of v * 10^zeroes exactly if v has fewer digits
      than `room`, whatever the number of zeroes. */
  lemma TerminatorFitsIff(v: nat, zeroes: nat, room: nat)
    requires room > 1
    ensures |Numeral(v * Pow(10, zeroes))| < room + zeroes <==> v < Pow(10, room - 1)
  {
    hide Pow, Numeral;
    var p, q := Pow(10, room - 1), Pow(10, zeroes);
    NumeralLength(v * q, room - 1 + zeroes);
    PowAdd(10, room - 1, zeroes);
    if v < p {
      MulStrict(v, p, q);
    } else {
      MulMono(p, v, q);
    }
  }

  // ----- which numbers leave no cell for the terminator

  /** The number of limbs of v without leading zero limbs. */
  function LimbCount(v: nat): (n: nat) {
    if v == 0 then 0 else 1 + LimbCount(v / 0x1_0000_0000)
  }

  lemma {:induction false} LimbCountIs(v: nat, n: nat)
    ensures LimbCount(v) <= n <==> v < W(n)
  {
    if v > 0 && n > 0 {
      LimbCountIs(v / 0x1_0000_0000, n - 1);
    }
  }

  /** A bignum without leading zero limb has as many limbs as its value. */
  lemma NormalLength(a: Mpn)
    requires a.Valid() && a.Normal()
    ensures a.nlimbs == LimbCount(a.Value())
  {
    hide Val, W;
    var s, n := a.Digits(), a.nlimbs;
    ValBound(s);
    LimbCountIs(Val(s), n);
    if n > 0 {
      ValTop(s);
      LimbCountIs(Val(s), n - 1);
    }
  }

  /** The buffer for z, which has no leading zero limb, has a cell for the terminator. */
  predicate TerminatorFits(z: nat) {
    z < Pow(10, DecimalRoom(LimbCount(z)) - 1)
  }

  /** Up to twelve limbs the rounding up of the room leaves a cell. */
  lemma TwelveLimbsFit(z: nat)
    requires z < W(12)
    ensures TerminatorFits(z)
  {
    hide Pow, W;
    var n := LimbCount(z);
    LimbCountIs(z, 12);
    LimbCountIs(z, n);
    BetaTo199();
    WIsPow(n);
    assert 1917 * n < 199 * (DecimalRoom(n) - 1);
    Proportion(0x1_0000_0000, 199, 10, 1917, n, DecimalRoom(n) - 1);
  }

  /** Thirteen limbs do not fit from 10^125 on: all 126 cells are taken by digits. */
  lemma ThirteenLimbsFitIff(z: nat)
    requires W(12) <= z < W(13)
    ensures DecimalRoom(LimbCount(z)) == 126
    ensures TerminatorFits(z) <==> z < Pow(10, 125)
    ensures !TerminatorFits(z) ==> |Numeral(z)| == 126
  {
    hide Pow, W, Numeral;
    LimbCountIs(z, 12);
    LimbCountIs(z, 13);
    assert LimbCount(z) == 13;
    ThirteenLimbs();
    NumeralLength(z, 125);
    NumeralLength(z, 126);
  }

  /** So every number below 10^125 leaves a cell. */
  lemma SmallFits(z: nat)
    requires z < Pow(10, 125)
    ensures TerminatorFits(z)
  {
    hide Pow, W, TerminatorFits;
    ThirteenLimbs();
    if z < W(12) {
      TwelveLimbsFit(z);
    } else {
      ThirteenLimbsFitIff(z);
    }
  }

  lemma ZeroDigits()
    ensures DVal(['0']) == DVal([])
  {
  }

  method FillZeroes(c: array<char>, zeroes: nat, ghost v: nat) returns (d: nat)
    requires zeroes <= c.Length
    modifies c
    ensures d == zeroes && Emitted(c[..d], v, v * Pow(10, zeroes))
  {
    d := 0;
    while d < zeroes
      invariant 0 <= d <= zeroes
      invariant forall k :: 0 <= k < d ==> c[k] == '0'
    {
      c[d] := '0';
      d := d + 1;
    }
    ZerosDenote(c[..d]);
  }

  lemma {:induction false} ZerosDenote(s: seq<char>)
    requires forall k :: 0 <= k < |s| ==> s[k] == '0'
    ensures DVal(s) == 0
  {
    if s != [] {
      ZerosDenote(s[1..]);
    }
  }

  /** The state between rounds: t groups of room left for the `len` limbs still there. */
  predicate Converting(out: seq<char>, limbs: seq<Limb>, t: nat, total: nat) {
    && |limbs| <= t
    && Val(limbs) < Pow(1000000000, t)
    && Emitted(out, Val(limbs), total)
  }

  method EmitGroup(limbs: array<Limb>, start: nat, len: nat, c: array<char>, d: nat, ghost t: nat, ghost total: nat)
    returns (len': nat)
    requires start + len <= limbs.Length && d + 9 <= c.Length && len > 0
    requires Converting(c[..d], limbs[start..start + len], t, total)
    modifies limbs, c
    ensures len' <= len && t > 0
    ensures Converting(c[..d + 9], limbs[start..start + len'], t - 1, total)
  {
    hide DVal, Pow, Times, Val, W, Emitted;
    ghost var v := Val(limbs[start..start + len]);
    var remainder := DivideSmall(limbs, start, limbs, start, len, 1000000000);
    ghost var q, out := limbs[start..start + len], c[..d];
    RoundShrinks(q, remainder, v, t);
    EmitNine(c, d, remainder);
    assert c[..d + 9] == out + c[d..d + 9];
    EmittedStep(out, v, total, c[d..d + 9], Val(q));
    len' := len;
    if limbs[start + len - 1] == 0 {
      len' := len - 1;
      assert limbs[start..start + len'] == q[..len - 1];
    }
  }

  /** The main loop: nine digits a round, until no limb is left. */
  method EmitGroups(limbs: array<Limb>, start: nat, nlimbs: nat, c: array<char>, zeroes: nat, ghost total: nat)
    returns (d: nat)
    requires start + nlimbs <= limbs.Length && c.Length >= DecimalRoom(nlimbs) + zeroes
    requires Emitted(c[..zeroes], Val(limbs[start..start + nlimbs]), total)
    modifies limbs, c
    ensures d <= DecimalRoom(nlimbs) + zeroes
    ensures AllDigits(c[..d]) && DVal(c[..d]) == total
  {
    var len := nlimbs;
    ghost var t := DigitGroups(len);
    d := zeroes;
    ConvertingStart(c[..d], limbs[start..start + len], total);
    hide DVal, Pow, Times, Val, W, Emitted, Converting;
    while len > 0
      invariant 0 <= len <= nlimbs && 0 <= t && d + 9 * t == DecimalRoom(nlimbs) + zeroes
      invariant Converting(c[..d], limbs[start..start + len], t, total)
      decreases t
    {
      RoomForGroup(c[..d], limbs[start..start + len], t, total);
      len := EmitGroup(limbs, start, len, c, d, t, total);
      d := d + 9;
      t := t - 1;
    }
    assert limbs[start..start + 0] == [];
    ConvertingEnd(c[..d], t, total);
  }

  lemma ConvertingStart(out: seq<char>, limbs: seq<Limb>, total: nat)
    requires Emitted(out, Val(limbs), total)
    ensures Converting(out, limbs, DigitGroups(|limbs|), total)
  {
    hide Val, W, Emitted, Pow;
    DecimalRoomSuffices(|limbs|);
    ValBound(limbs);
  }

  lemma RoomForGroup(out: seq<char>, limbs: seq<Limb>, t: nat, total: nat)
    requires Converting(out, limbs, t, total) && |limbs| > 0
    ensures t > 0
  {
  }

  lemma ConvertingEnd(out: seq<char>, t: nat, total: nat)
    requires Converting(out, [], t, total)
    ensures AllDigits(out) && DVal(out) == total
  {
    PowZero(10);
    EmittedAll(out, 0, total);
  }
}
