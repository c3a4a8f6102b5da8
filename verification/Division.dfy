/** `divide` (libgnu/vasnprintf.c:400-837): the quotient of two bignums, rounded to nearest
    with ties to even. The buffer `room` holds the remainder below and the quotient above;
    the cell of a dead remainder limb is reused for the next quotient limb. */
module Division {
  import opened Powers
  import opened Limbs

  // ----- the trial digit (674-720)

  /** r1, r0, rm are the top three limbs of the window, b1 and b2 the top two of the divisor. */
  function Top3(r1: Limb, r0: Limb, rm: Limb): (t: int) {
    (r1 * 0x1_0000_0000 + r0) * 0x1_0000_0000 + rm
  }

  function Top2(b1: Limb, b2: Limb): (t: int) {
    b1 * 0x1_0000_0000 + b2
  }

  /** What the fix-up achieves: qs divides the top limbs exactly, unless it is capped. */
  predicate TrialDigit(qs: int, t3: int, t2: int) {
    && Times(qs, t2) <= t3
    && (qs == 0xffff_ffff || t3 < Times(qs + 1, t2))
  }

  method ComputeTrial(r1: Limb, r0: Limb, rm: Limb, b1: Limb, b2: Limb) returns (qs: Limb)
    requires b1 >= 0x8000_0000
    ensures TrialDigit(qs, Top3(r1, r0, rm), Top2(b1, b2))
  {
    var c1: Limb;
    if r1 < b1 {
      var num: TwoLimb := r1 * 0x1_0000_0000 + r0;
      QuotientBound(num, b1, r1);
      qs := num / b1;
      c1 := num % b1;
    } else {
      qs := 0xffff_ffff;
      c1 := (r0 + b1) % 0x1_0000_0000;
      if r1 > b1 || c1 < b1 {
        OverflowSkipsTest(r1, r0, rm, b1, b2);
        return;
      }
      OverflowRemainder(b1);
    }
    var c2: TwoLimb := c1 * 0x1_0000_0000 + rm;
    RowBound(b2, qs, 0, 0);
    var c3: TwoLimb := b2 * qs;
    FixUp(qs, c1, r1, r0, rm, b1, b2);
    if c3 > c2 {
      var over := c3 - c2;
      qs := qs - 1;
      if over > Top2(b1, b2) {
        qs := qs - 1;
      }
    }
  }

  lemma OverflowRemainder(b1: Limb)
    ensures Times(0xffff_ffff, b1) == 0x1_0000_0000 * b1 - b1
  {
  }

  /** Overflow with r[j+n]*beta + r[j+n-1] - (beta-1)*b[n-1] >= beta: no test is needed. */
  lemma OverflowSkipsTest(r1: Limb, r0: Limb, rm: Limb, b1: Limb, b2: Limb)
    requires r1 > b1 || (r1 == b1 && r0 + b1 >= 0x1_0000_0000)
    ensures TrialDigit(0xffff_ffff, Top3(r1, r0, rm), Top2(b1, b2))
  {
  }

  /** c3 - c2 is the excess of q0 * Top2 over Top3, and two steps always clear it. */
  lemma FixUp(q0: Limb, c1: Limb, r1: Limb, r0: Limb, rm: Limb, b1: Limb, b2: Limb)
    requires b1 >= 0x8000_0000
    requires r1 * 0x1_0000_0000 + r0 == Times(q0, b1) + c1
    requires q0 == 0xffff_ffff || c1 < b1
    ensures var over := b2 * q0 - (c1 * 0x1_0000_0000 + rm);
            var t3, t2 := Top3(r1, r0, rm), Top2(b1, b2);
            && (over <= 0 ==> TrialDigit(q0, t3, t2))
            && (over > 0 ==> q0 > 0)
            && (0 < over <= t2 ==> TrialDigit(q0 - 1, t3, t2))
            && (over > t2 ==> q0 > 1 && TrialDigit(q0 - 2, t3, t2))
  {
    var over := b2 * q0 - (c1 * 0x1_0000_0000 + rm);
    var t3, t2 := Top3(r1, r0, rm), Top2(b1, b2);
    Excess(q0, c1, rm, b1, b2);
    assert Times(q0, t2) - t3 == over;
    MulMono(q0, 0xffff_ffff, b2);
    assert over <= 0xffff_ffff * b2 <= 2 * t2;
    TimesDown(q0, t2);
    if c1 < b1 {
      NextExceeds(q0, c1, b1, b2);
    }
  }

  lemma Excess(q0: int, c1: Limb, rm: Limb, b1: Limb, b2: Limb)
    ensures Times(q0, Top2(b1, b2)) == Times(q0, b1) * 0x1_0000_0000 + b2 * q0
  {
  }

  lemma NextExceeds(q0: int, c1: Limb, b1: Limb, b2: Limb)
    requires c1 < b1 && 0 <= q0
    ensures (Times(q0, b1) + c1) * 0x1_0000_0000 + 0xffff_ffff < Times(q0 + 1, Top2(b1, b2))
  {
    TimesDown(q0, b1);
    MulMono(0, q0 + 1, b2);
    Excess(q0 + 1, c1, 0, b1, b2);
  }

  // ----- one quotient digit (672-775)

  /** The trial digit is the true digit or one more: the window minus qs divisors lies
      within one divisor below or above zero. P is the weight of the limbs not looked at. */
  lemma TrialIsClose(qs: int, t3: int, t2: int, wlow: int, blow: int, p: int, w: int, b: int)
    requires TrialDigit(qs, t3, t2) && 0 <= qs <= 0xffff_ffff
    requires w == Times(t3, p) + wlow && 0 <= wlow < p
    requires b == Times(t2, p) + blow && 0 <= blow < p
    requires t2 >= 0x1_0000_0000 && 0 <= w < 0x1_0000_0000 * b
    ensures -b <= w - Times(qs, b) < b
  {
    TrialNotTooBig(qs, t3, t2, blow, p, b);
    if qs == 0xffff_ffff {
      CappedDigit(b);
    } else {
      TrialNotTooSmall(qs, t3, t2, blow, p, b);
    }
  }

  lemma CappedDigit(b: int)
    ensures Times(0xffff_ffff, b) == 0x1_0000_0000 * b - b
  {
  }

  lemma TrialNotTooBig(qs: int, t3: int, t2: int, blow: int, p: int, b: int)
    requires Times(qs, t2) <= t3 && 0 <= qs <= 0xffff_ffff && t2 >= 0x1_0000_0000
    requires b == Times(t2, p) + blow && 0 <= blow < p
    ensures Times(qs, b) <= Times(t3, p) + b
  {
    TimesMono(Times(qs, t2), t3, p);
    TimesMono(qs, 0x1_0000_0000, blow);
    TimesMono(0x1_0000_0000, t2, p);
    ScaledLow(blow, p);
    hide *;
    TimesDist(qs, Times(t2, p), blow);
    TimesAssoc(qs, t2, p);
  }

  lemma ScaledLow(blow: int, p: int)
    requires blow <= p
    ensures Times(0x1_0000_0000, blow) <= Times(0x1_0000_0000, p)
  {
  }

  lemma TrialNotTooSmall(qs: int, t3: int, t2: int, blow: int, p: int, b: int)
    requires t3 < Times(qs + 1, t2) && 0 <= qs
    requires b == Times(t2, p) + blow && 0 <= blow < p
    ensures Times(t3, p) + p <= Times(qs, b) + b
  {
    TimesMono(t3 + 1, Times(qs + 1, t2), p);
    TimesMono(0, qs + 1, blow);
    TimesZero(blow);
    TimesDown(t3, p);
    TimesDown(qs, b);
    hide *;
    TimesDist(qs + 1, Times(t2, p), blow);
    TimesAssoc(qs + 1, t2, p);
  }

  /** The inner loop `r := r - q * b`, on the window that starts at j. */
  method SubtractMultiple(room: array<Limb>, j: nat, b: array<Limb>, off: nat, n: nat, qs: Limb) returns (cr: Limb)
    requires room != b && j + n <= room.Length && off + n <= b.Length
    modifies room
    ensures Row(room[j..j + n], 0 - cr, old(room[j..j + n]), 0 - qs, b[off..off + n])
    ensures forall k :: 0 <= k < room.Length && !(j <= k < j + n) ==> room[k] == old(room[k])
  {
    hide *;
    cr := 0;
    var i := 0;
    ghost var o := room[j..j + n];
    RowEmpty(0 - qs);
    assert room[j..j] == o[..0] == b[off..off] == [];
    while i < n
      invariant 0 <= i <= n && cr <= qs
      invariant Row(room[j..j + i], 0 - cr, o[..i], 0 - qs, b[off..off + i])
      invariant forall k :: i <= k < n ==> room[j + k] == o[k]
      invariant forall k :: 0 <= k < room.Length && !(j <= k < j + i) ==> room[k] == old(room[k])
    {
      SubtractCell(qs, b[off + i], cr, room[j + i], cr + qs * b[off + i] + (0xffff_ffff - room[j + i]));
      var carry: TwoLimb := cr + qs * b[off + i] + (0xffff_ffff - room[j + i]);
      ghost var was, w := room[j..j + i], 0xffff_ffff - carry % 0x1_0000_0000;
      RowStep(was, 0 - cr, o[..i], 0 - qs, b[off..off + i], b[off + i], o[i], 0 - carry / 0x1_0000_0000, w);
      room[j + i] := 0xffff_ffff - carry % 0x1_0000_0000;
      assert room[j..j + i + 1] == was + [w];
      assert o[..i + 1] == o[..i] + [o[i]];
      assert b[off..off + i + 1] == b[off..off + i] + [b[off + i]];
      cr := carry / 0x1_0000_0000;
      i := i + 1;
    }
    assert o[..n] == o;
  }

  /** The complemented sum of one cell is the difference, with the borrow in `carry / beta`. */
  lemma SubtractCell(qs: Limb, x: Limb, cr: int, cell: Limb, carry: int)
    requires 0 <= cr <= qs && carry == cr + qs * x + (0xffff_ffff - cell)
    ensures 0 <= carry < 0x1_0000_0000_0000_0000 && carry / 0x1_0000_0000 <= qs
    ensures 0 - cr + Times(0 - qs, x) + cell
         == (0 - carry / 0x1_0000_0000) * 0x1_0000_0000 + (0xffff_ffff - carry % 0x1_0000_0000)
  {
    MulMono(x, 0xffff_ffff, qs);
    MulMono(0, x, qs);
    assert Times(0 - qs, x) == 0 - qs * x;
  }

  /** Adding the divisor back; the caller forgets the carry out of the top. */
  method AddBack(room: array<Limb>, j: nat, b: array<Limb>, off: nat, n: nat) returns (carry: Limb)
    requires room != b && j + n <= room.Length && off + n <= b.Length
    modifies room
    ensures Row(room[j..j + n], carry, old(room[j..j + n]), 1, b[off..off + n])
    ensures carry <= 1
    ensures forall k :: 0 <= k < room.Length && !(j <= k < j + n) ==> room[k] == old(room[k])
  {
    hide *;
    carry := 0;
    var i := 0;
    ghost var o := room[j..j + n];
    RowEmpty(1);
    assert room[j..j] == o[..0] == b[off..off] == [];
    while i < n
      invariant 0 <= i <= n && carry <= 1
      invariant Row(room[j..j + i], carry, o[..i], 1, b[off..off + i])
      invariant forall k :: i <= k < n ==> room[j + k] == o[k]
      invariant forall k :: 0 <= k < room.Length && !(j <= k < j + i) ==> room[k] == old(room[k])
    {
      var source1, source2 := b[off + i], room[j + i];
      var sum := (source1 + source2 + carry) % 0x1_0000_0000;
      var carry' := if carry != 0 then (if source1 >= 0xffff_ffff - source2 then 1 else 0)
                    else (if source1 > 0xffff_ffff - source2 then 1 else 0);
      ghost var was := room[j..j + i];
      TimesOne(source1);
      RowStep(was, carry, o[..i], 1, b[off..off + i], source1, o[i], carry', sum);
      room[j + i] := sum;
      assert room[j..j + i + 1] == was + [sum];
      assert o[..i + 1] == o[..i] + [o[i]];
      assert b[off..off + i + 1] == b[off..off + i] + [b[off + i]];
      carry := carry';
      i := i + 1;
    }
    assert o[..n] == o;
  }

  /** Joining a limb x below the digits t at weight p. */
  lemma JoinLimb(low: int, t: int, x: int, p: int)
    ensures low + Times(x, p) + Times(t * 0x1_0000_0000, p) == Times(t * 0x1_0000_0000 + x, p) + low
  {
    TimesDist(p, t * 0x1_0000_0000, x);
  }

  /** Two limbs off the top of a bignum. */
  lemma SplitTop2(s: seq<Limb>)
    requires |s| >= 2
    ensures var n := |s| - 2;
            Val(s) == Times(Top2(s[n + 1], s[n]), W(n)) + Val(s[..n])
  {
    hide Val, W, Times;
    var n := |s| - 2;
    TopLimb(s);
    TopLimb(s[..n + 1]);
    assert s[..n + 1][..n] == s[..n];
    TimesPowSucc(s[n + 1], n);
    JoinLimb(Val(s[..n]), s[n + 1], s[n], W(n));
  }

  lemma SplitTop3(s: seq<Limb>)
    requires |s| >= 3
    ensures var n := |s| - 3;
            Val(s) == Times(Top3(s[n + 2], s[n + 1], s[n]), W(n)) + Val(s[..n])
  {
    hide Val, W, Times;
    var n := |s| - 3;
    SplitTop2(s);
    TopLimb(s[..n + 1]);
    assert s[..n + 1][..n] == s[..n];
    TimesPowSucc(Top2(s[n + 2], s[n + 1]), n);
    JoinLimb(Val(s[..n]), Top2(s[n + 2], s[n + 1]), s[n], W(n));
  }

  lemma TopLimb(s: seq<Limb>)
    requires |s| >= 1
    ensures Val(s) == Val(s[..|s| - 1]) + Times(s[|s| - 1], W(|s| - 1))
  {
    ValTop(s);
  }

  /** The trial digit of an (n+1)-limb window w under an n-limb divisor b. */
  lemma WindowTrial(w: seq<Limb>, b: seq<Limb>, qs: Limb)
    requires |b| >= 2 && |w| == |b| + 1 && b[|b| - 1] >= 0x8000_0000
    requires TrialDigit(qs, Top3(w[|b|], w[|b| - 1], w[|b| - 2]), Top2(b[|b| - 1], b[|b| - 2]))
    requires Val(w) < 0x1_0000_0000 * Val(b)
    ensures 0 - Val(b) <= Val(w) - Times(qs, Val(b)) < Val(b)
  {
    var n := |b| - 2;
    var t2 := Top2(b[n + 1], b[n]);
    assert t2 >= 0x1_0000_0000;
    hide *;
    SplitTop3(w);
    SplitTop2(b);
    ValBound(w[..n]);
    ValBound(b[..n]);
    TrialIsClose(qs, Top3(w[n + 2], w[n + 1], w[n]), t2, Val(w[..n]), Val(b[..n]), W(n), Val(w), Val(b));
  }

  /** No borrow out of the window: the top limb cancels and the low limbs are the remainder. */
  lemma NoBorrow(w: seq<Limb>, b: seq<Limb>, qs: Limb, low: seq<Limb>, cr: Limb)
    requires |w| == |b| + 1 && Val(w) - Times(qs, Val(b)) < Val(b)
    requires Row(low, 0 - cr, w[..|b|], 0 - qs, b) && cr <= w[|b|]
    ensures Val(low) < Val(b) && Val(w) == Times(qs, Val(b)) + Val(low)
  {
    hide Val, W, Times;
    var n := |b|;
    TopLimb(w);
    ValBound(b);
    ValBound(low);
    TimesSmall(w[n] - cr, W(n));
    TimesDist(W(n), w[n], 0 - cr);
    TimesNeg(qs, Val(b));
  }

  /** A borrow: the trial digit was one too high, and adding b back drops exactly one carry. */
  lemma Borrow(w: seq<Limb>, b: seq<Limb>, qs: Limb, low: seq<Limb>, cr: Limb, low': seq<Limb>, carry: Limb)
    requires |w| == |b| + 1 && 0 - Val(b) <= Val(w) - Times(qs, Val(b))
    requires Row(low, 0 - cr, w[..|b|], 0 - qs, b) && cr > w[|b|]
    requires Row(low', carry, low, 1, b) && carry <= 1
    ensures Val(low') < Val(b) && Val(w) == Times(qs - 1, Val(b)) + Val(low')
  {
    hide Val, W, Times;
    var n := |b|;
    TopLimb(w);
    ValBound(b);
    ValBound(low);
    ValBound(low');
    TimesSmall(w[n] - cr, W(n));
    TimesSmall(carry, W(n));
    TimesDist(W(n), w[n], 0 - cr);
    TimesNeg(qs, Val(b));
    TimesOne(Val(b));
    TimesDown(qs, Val(b));
  }

  /** Skipping the subtraction for q* = 0 is sound: the window already is the remainder. */
  lemma ZeroDigit(w: seq<Limb>, b: seq<Limb>)
    requires |w| == |b| + 1 && Val(w) - Times(0, Val(b)) < Val(b)
    ensures Val(w[..|b|]) < Val(b) && Val(w) == Times(0, Val(b)) + Val(w[..|b|])
  {
    TimesZero(Val(b));
    hide Val, W, Times;
    TopLimb(w);
    ValBound(b);
    TimesSmall(w[|b|], W(|b|));
  }

  /** One pass of the division loop: the digit of the window at j replaces the window's top
      limb, and the remainder stays in the limbs below it. */
  method QuotientDigit(room: array<Limb>, j: nat, b: array<Limb>, off: nat, n: nat)
    requires room != b && j + n < room.Length && n >= 2 && off + n <= b.Length
    requires b[off + n - 1] >= 0x8000_0000
    requires Val(room[j..j + n + 1]) < 0x1_0000_0000 * Val(b[off..off + n])
    modifies room
    ensures Val(room[j..j + n]) < Val(b[off..off + n])
    ensures old(Val(room[j..j + n + 1])) == Times(room[j + n], Val(b[off..off + n])) + Val(room[j..j + n])
    ensures forall k :: 0 <= k < room.Length && !(j <= k <= j + n) ==> room[k] == old(room[k])
  {
    hide *;
    ghost var w, bs := room[j..j + n + 1], b[off..off + n];
    assert w[..n] == room[j..j + n];
    var qs := ComputeTrial(room[j + n], room[j + n - 1], room[j + n - 2], b[off + n - 1], b[off + n - 2]);
    WindowTrial(w, bs, qs);
    if qs > 0 {
      var cr := SubtractMultiple(room, j, b, off, n, qs);
      ghost var low := room[j..j + n];
      if cr > room[j + n] {
        var carry := AddBack(room, j, b, off, n);
        Borrow(w, bs, qs, low, cr, room[j..j + n], carry);
        qs := qs - 1;
      } else {
        NoBorrow(w, bs, qs, low, cr);
      }
    } else {
      ZeroDigit(w, bs);
    }
    ghost var rest := room[j..j + n];
    room[j + n] := qs;
    assert room[j..j + n] == rest;
  }

  // ----- the division loop (638-776): one buffer for remainder and quotient

  /** With k digits still to come, a is the quotient so far times b times beta^k, plus a
      remainder too small to contribute to the digits already produced. */
  predicate Partial(a: int, q: int, r: int, b: int, k: nat) {
    && a == Times(Times(q, b), W(k)) + r
    && 0 <= r < Times(b, W(k))
  }

  lemma WindowBound(a: int, q: int, low: int, w: int, b: int, j: nat)
    requires Partial(a, q, low + Times(W(j), w), b, j + 1) && low >= 0
    ensures w < 0x1_0000_0000 * b
  {
    TimesPowSucc(b, j);
    TimesComm(W(j), w);
    hide Val, W, Times;
    TimesCancel(w, b * 0x1_0000_0000, W(j));
  }

  lemma PartialStep(a: int, q: int, low: int, w: int, b: int, j: nat, d: int, rem: int)
    requires Partial(a, q, low + Times(W(j), w), b, j + 1)
    requires 0 <= low < W(j) && w == Times(d, b) + rem && 0 <= rem < b
    ensures Partial(a, d + 0x1_0000_0000 * q, low + Times(W(j), rem), b, j)
  {
    TimesPowSucc(Times(q, b), j);
    TimesMono(rem + 1, b, W(j));
    TimesMono(0, rem, W(j));
    TimesZero(W(j));
    TimesDown(rem, W(j));
    TimesScale(q, b);
    hide Val, W, Times;
    TimesComm(W(j), w);
    TimesComm(W(j), rem);
    TimesDist(W(j), Times(d, b), rem);
    TimesDist(b, d, 0x1_0000_0000 * q);
    TimesDist(W(j), Times(d, b), 0x1_0000_0000 * Times(q, b));
  }

  /** The state of the buffer with k digits to come: remainder below limb n + k, quotient above. */
  predicate Overlaid(room: seq<Limb>, a: int, b: int, n: nat, m: nat, k: nat)
    requires n + k <= m + 1 <= |room|
  {
    Partial(a, Val(room[n + k..m + 1]), Val(room[..n + k]), b, k)
  }

  lemma OverlaidWindow(room: seq<Limb>, a: int, b: int, n: nat, m: nat, j: nat)
    requires n + j <= m < |room| && Overlaid(room, a, b, n, m, j + 1)
    ensures Val(room[j..j + n + 1]) < 0x1_0000_0000 * b
  {
    hide Val, W, Times, Partial;
    assert room[..n + j + 1] == room[..j] + room[j..j + n + 1];
    ValTimesConcat(room[..j], room[j..j + n + 1]);
    WindowBound(a, Val(room[n + j + 1..m + 1]), Val(room[..j]), Val(room[j..j + n + 1]), b, j);
  }

  lemma OverlaidStep(room: seq<Limb>, room': seq<Limb>, a: int, b: int, n: nat, m: nat, j: nat)
    requires n + j <= m < |room| == |room'| && Overlaid(room, a, b, n, m, j + 1)
    requires forall k :: 0 <= k < |room| && !(j <= k <= j + n) ==> room'[k] == room[k]
    requires Val(room'[j..j + n]) < b
    requires Val(room[j..j + n + 1]) == Times(room'[j + n], b) + Val(room'[j..j + n])
    ensures Overlaid(room', a, b, n, m, j)
  {
    hide Val, W, Times, Partial;
    var low, w, rem, high := room[..j], room[j..j + n + 1], room'[j..j + n], room[n + j + 1..m + 1];
    assert room[..n + j + 1] == low + w;
    ValTimesConcat(low, w);
    ValBound(low);
    assert room'[..n + j] == low + rem;
    ValTimesConcat(low, rem);
    assert room'[n + j..m + 1] == [room'[j + n]] + high;
    ValPrepend(room'[j + n], high);
    PartialStep(a, Val(high), Val(low), Val(w), b, j, room'[j + n], Val(rem));
  }

  method LongDivide(room: array<Limb>, m: nat, b: array<Limb>, off: nat, n: nat)
    requires room != b && 2 <= n <= m < room.Length && off + n <= b.Length
    requires b[off + n - 1] >= 0x8000_0000
    requires Val(room[..m + 1]) < Times(Val(b[off..off + n]), W(m - n + 1))
    modifies room
    ensures old(Val(room[..m + 1])) == Times(Val(room[n..m + 1]), Val(b[off..off + n])) + Val(room[..n])
    ensures Val(room[..n]) < Val(b[off..off + n])
  {
    ghost var a, bv := Val(room[..m + 1]), Val(b[off..off + n]);
    PartialStart(a, bv, m - n + 1);
    var k := m - n + 1;
    assert room[..][n + k..m + 1] == [] && room[..][..n + k] == room[..m + 1];
    hide *;
    while k > 0
      invariant 0 <= k <= m - n + 1
      invariant Overlaid(room[..], a, bv, n, m, k)
    {
      var j := k - 1;
      ghost var before := room[..];
      OverlaidWindow(before, a, bv, n, m, j);
      assert room[j..j + n + 1] == before[j..j + n + 1];
      QuotientDigit(room, j, b, off, n);
      assert room[..][j..j + n] == room[j..j + n];
      OverlaidStep(before, room[..], a, bv, n, m, j);
      k := j;
    }
    assert room[..][n + 0..m + 1] == room[n..m + 1] && room[..][..n + 0] == room[..n];
    PartialEnd(a, room[..], bv, n, m);
  }

  lemma PartialStart(a: int, b: int, k: nat)
    requires 0 <= a < Times(b, W(k))
    ensures Val([]) == 0 && Partial(a, Val([]), a, b, k)
  {
    TimesZero(b);
    TimesZero(W(k));
  }

  lemma PartialEnd(a: int, room: seq<Limb>, b: int, n: nat, m: nat)
    requires n <= m + 1 <= |room| && Overlaid(room, a, b, n, m, 0)
    ensures a == Times(Val(room[n + 0..m + 1]), b) + Val(room[..n + 0]) && Val(room[..n + 0]) < b
  {
  }

  lemma ValTimesConcat(s: seq<Limb>, t: seq<Limb>)
    ensures Val(s + t) == Val(s) + Times(W(|s|), Val(t))
  {
    ValConcat(s, t);
  }

  // ----- normalising the divisor (551-637)

  /** Multiplied by p, a limb x keeps within 32 bits and gets its highest bit set. */
  predicate Normalises(p: int, x: int) {
    0x8000_0000 <= Times(p, x) && Times(p, x + 1) <= 0x1_0000_0000
  }

  /** 32 minus the bit length of a nonzero limb, by five halvings. */
  method LeadingZeros(limb: Limb) returns (s: nat)
    requires limb > 0
    ensures s < 32
    ensures Normalises(Pow(2, s), limb)
  {
    BitsStart(limb);
    var msd: int := limb;
    s := 31;
    msd, s := DropBits(limb, msd, s, 16, 0x10000);
    msd, s := DropBits(limb, msd, s, 8, 0x100);
    msd, s := DropBits(limb, msd, s, 4, 0x10);
    msd, s := DropBits(limb, msd, s, 2, 0x4);
    msd, s := DropBits(limb, msd, s, 1, 0x2);
    BitsEnd(limb, s);
  }

  /** `if (msd >= 2^k) { msd = msd >> k; s -= k; }`, where p = 2^k. */
  method DropBits(ghost limb: Limb, msd: int, s: nat, k: nat, p: nat) returns (msd': int, s': nat)
    requires p == Pow(2, k) && 0 < msd < p * p && k <= s <= 31
    requires Shifted(limb, msd, 31 - s)
    ensures 0 < msd' < p && s - k <= s' <= s
    ensures Shifted(limb, msd', 31 - s')
  {
    msd', s' := msd, s;
    if msd >= p {
      BitsStep(limb, msd, 31 - s, k, p);
      DivRange(msd, p);
      msd' := msd / p;
      s' := s - k;
    }
  }

  lemma DivRange(x: int, p: nat)
    requires p > 0 && p <= x < p * p
    ensures 0 < x / p < p
  {
    DivMod(x, p);
    var d := x / p;
    if d <= 0 {
      MulMono(d, 0, p);
    }
    if d >= p {
      MulMono(p, d, p);
    }
  }

  /** msd is the limb shifted right by t bits. */
  predicate Shifted(limb: int, msd: int, t: nat) {
    Times(msd, Pow(2, t)) <= limb < Times(msd + 1, Pow(2, t))
  }

  lemma BitsStart(limb: int)
    ensures Shifted(limb, limb, 0)
    ensures Pow(2, 1) == 2 && Pow(2, 2) == 0x4 && Pow(2, 4) == 0x10 && Pow(2, 8) == 0x100
    ensures Pow(2, 16) == 0x10000 && Pow(2, 32) == 0x1_0000_0000
  {
    PowSquare(1, 2);
    PowSquare(2, 0x4);
    PowSquare(4, 0x10);
    PowSquare(8, 0x100);
    PowSquare(16, 0x10000);
  }

  lemma PowSquare(n: nat, v: nat)
    requires Pow(2, n) == v
    ensures Pow(2, 2 * n) == v * v
  {
    PowAdd(2, n, n);
  }

  lemma BitsStep(limb: int, msd: int, t: nat, k: nat, p: nat)
    requires Shifted(limb, msd, t) && msd >= 0 && p == Pow(2, k)
    ensures Shifted(limb, msd / p, t + k)
  {
    PowAdd(2, k, t);
    DivMod(msd, p);
    var d, w := msd / p, Pow(2, t);
    TimesDown(d, p);
    TimesMono(Times(d, p), msd, w);
    TimesMono(msd + 1, Times(d + 1, p), w);
    TimesIsMul(p, w);
    hide *;
    TimesAssoc(d, p, w);
    TimesAssoc(d + 1, p, w);
  }

  lemma BitsEnd(limb: int, s: nat)
    requires s <= 31 && Shifted(limb, 1, 31 - s)
    ensures Normalises(Pow(2, s), limb)
  {
    BitsStart(limb);
    PowSucc(2, 31);
    PowAdd(2, s, 31 - s);
    BitsEndAlgebra(limb, Pow(2, s), Pow(2, 31 - s));
  }

  lemma BitsEndAlgebra(limb: int, u: nat, v: nat)
    requires u > 0 && u * v == 0x8000_0000 && Times(1, v) <= limb < Times(2, v)
    ensures Normalises(u, limb)
  {
    MulMono(v, limb, u);
    MulMono(limb + 1, 2 * v, u);
    assert u * (2 * v) == 2 * (u * v);
  }
}
