/** Bignums as the formatter keeps them: little-endian limbs of 32 bits inside a larger
    buffer (libgnu/vasnprintf.c). A twolimb is the 64-bit accumulator; that every running
    sum stays inside these two types is part of what is proved. */
module Limbs {
  import opened Powers

  type Limb = x: int | 0 <= x < 0x1_0000_0000
  type TwoLimb = x: int | 0 <= x < 0x1_0000_0000_0000_0000

  /** The weight of limb n, beta^n. */
  function W(n: nat): (w: nat)
    ensures w > 0
  {
    Pow(0x1_0000_0000, n)
  }

  /** The number a little-endian limb sequence denotes. */
  function Val(s: seq<Limb>): (v: nat) {
    if s == [] then 0 else s[0] + 0x1_0000_0000 * Val(s[1..])
  }

  lemma {:induction false} ValAppend(s: seq<Limb>, x: Limb)
    ensures Val(s + [x]) == Val(s) + x * W(|s|)
  {
    if s == [] {
      assert s + [x] == [x];
    } else {
      ValAppend(s[1..], x);
      assert (s + [x])[1..] == s[1..] + [x];
      assert 0x1_0000_0000 * (x * W(|s| - 1)) == x * W(|s|);
    }
  }

  lemma {:induction false} ValConcat(s: seq<Limb>, t: seq<Limb>)
    ensures Val(s + t) == Val(s) + W(|s|) * Val(t)
  {
    if s == [] {
      assert s + t == t;
    } else {
      ValConcat(s[1..], t);
      assert (s + t)[1..] == s[1..] + t;
      assert 0x1_0000_0000 * (W(|s| - 1) * Val(t)) == W(|s|) * Val(t);
    }
  }

  lemma {:induction false} ValBound(s: seq<Limb>)
    ensures Val(s) < W(|s|)
  {
    if s == [] {
    } else {
      ValBound(s[1..]);
    }
  }

  lemma {:induction false} ValZeros(s: seq<Limb>)
    requires forall k :: 0 <= k < |s| ==> s[k] == 0
    ensures Val(s) == 0
  {
    if s == [] {
    } else {
      ValZeros(s[1..]);
    }
  }

  /** Splitting off the highest limb. */
  lemma ValTop(s: seq<Limb>)
    requires |s| > 0
    ensures Val(s) == Val(s[..|s| - 1]) + s[|s| - 1] * W(|s| - 1)
    ensures s[|s| - 1] > 0 ==> Val(s) >= W(|s| - 1)
  {
    var n := |s| - 1;
    assert s == s[..n] + [s[n]];
    ValAppend(s[..n], s[n]);
    if s[n] > 0 {
      MulMono(1, s[n], W(n));
    }
  }

  lemma ValSplit(s: seq<Limb>, k: nat)
    requires k <= |s|
    ensures Val(s) == Val(s[..k]) + W(k) * Val(s[k..])
  {
    assert s == s[..k] + s[k..];
    ValConcat(s[..k], s[k..]);
  }

  /** One more limb of a stretch of an array. */
  lemma ValExtend(a: array<Limb>, lo: nat, hi: nat)
    requires lo <= hi < a.Length
    ensures Val(a[lo..hi + 1]) == Val(a[lo..hi]) + a[hi] * W(hi - lo)
  {
    assert a[lo..hi + 1] == a[lo..hi] + [a[hi]];
    ValAppend(a[lo..hi], a[hi]);
  }

  /** A bignum: `nlimbs` limbs of a buffer, from `start` on. The buffer and the start stand
      for the pointer in the C structure. */
  datatype Mpn = Mpn(limbs: array<Limb>, start: nat, nlimbs: nat) {
    predicate Valid() {
      start + nlimbs <= limbs.Length
    }

    function Digits(): (s: seq<Limb>)
      requires Valid()
      reads limbs
    {
      limbs[start..start + nlimbs]
    }

    function Value(): (v: nat)
      requires Valid()
      reads limbs
    {
      Val(Digits())
    }

    /** No leading zero limb. */
    predicate Normal()
      requires Valid()
      reads limbs
    {
      nlimbs > 0 ==> limbs[start + nlimbs - 1] != 0
    }
  }

  // ----- loops over limbs that several operations share

  lemma TimesAppend(s: seq<Limb>, x: Limb)
    ensures Val(s + [x]) == Val(s) + Times(x, W(|s|))
  {
    ValAppend(s, x);
  }

  lemma TimesSplit(s: seq<Limb>, k: nat)
    requires k <= |s|
    ensures Val(s) == Val(s[..k]) + Times(W(k), Val(s[k..]))
  {
    ValSplit(s, k);
  }

  lemma TimesPowSucc(c: int, n: nat)
    ensures Times(c, W(n + 1)) == Times(c * 0x1_0000_0000, W(n))
  {
  }

  lemma ValPrepend(x: Limb, s: seq<Limb>)
    ensures Val([x] + s) == x + 0x1_0000_0000 * Val(s)
  {
    assert ([x] + s)[1..] == s;
  }

  lemma {:induction false} WAdd(m: nat, n: nat)
    ensures W(m + n) == Times(W(m), W(n))
    decreases m
  {
    if m > 0 {
      WAdd(m - 1, n);
    }
  }

  /** The algebra of one step of a multiply-accumulate row. */
  lemma RowAlgebra(v: int, o: int, s: int, v': int, o': int, s': int,
                   c: int, d: int, x: int, cell: int, c': int, w: int, p: int)
    requires v + Times(c, p) == o + Times(d, s)
    requires c + Times(d, x) + cell == c' * 0x1_0000_0000 + w
    requires v' == v + Times(w, p) && o' == o + Times(cell, p) && s' == s + Times(x, p)
    ensures v' + Times(c' * 0x1_0000_0000, p) == o' + Times(d, s')
  {
    hide *;
    TimesDist(p, c' * 0x1_0000_0000, w);
    TimesDist(p, c + Times(d, x), cell);
    TimesDist(p, c, Times(d, x));
    TimesDist(d, s, Times(x, p));
    TimesAssoc(d, x, p);
  }

  /** Drop leading zero limbs. */
  method Normalise(limbs: array<Limb>, start: nat, len: nat) returns (n: nat)
    requires start + len <= limbs.Length
    ensures n <= len && Val(limbs[start..start + n]) == Val(limbs[start..start + len])
    ensures n > 0 ==> limbs[start + n - 1] != 0
  {
    n := len;
    while n > 0 && limbs[start + n - 1] == 0
      invariant 0 <= n <= len
      invariant Val(limbs[start..start + n]) == Val(limbs[start..start + len])
    {
      ValExtend(limbs, start, start + n - 1);
      n := n - 1;
    }
  }

  /** Multiply by a digit while copying, or in place: `*dst++ = low (accu += d * *src++)`. A
      shift to the left by k < 32 bits is the digit 2^k. */
  method ScaleRow(src: array<Limb>, soff: nat, dst: array<Limb>, doff: nat, len: nat, d: Limb) returns (carry: Limb)
    requires soff + len <= src.Length && doff + len <= dst.Length && d > 0
    requires src == dst ==> soff == doff
    modifies dst
    ensures Val(dst[doff..doff + len]) + Times(carry, W(len)) == Times(d, old(Val(src[soff..soff + len])))
    ensures carry < d
    ensures forall k :: 0 <= k < dst.Length && !(doff <= k < doff + len) ==> dst[k] == old(dst[k])
  {
    carry := 0;
    var j := 0;
    ghost var o := src[soff..soff + len];
    while j < len
      invariant 0 <= j <= len
      invariant Val(dst[doff..doff + j]) + Times(carry, W(j)) == Times(d, Val(o[..j]))
      invariant carry < d
      invariant forall k :: j <= k < len ==> src[soff + k] == o[k]
      invariant forall k :: 0 <= k < dst.Length && !(doff <= k < doff + j) ==> dst[k] == old(dst[k])
    {
      hide *;
      ScaleBound(d, o[j], carry);
      var accu: TwoLimb := carry + d * src[soff + j];
      ScaleStep(dst[doff..doff + j], carry, d, o[..j], o[j], accu / 0x1_0000_0000, accu % 0x1_0000_0000);
      assert o[..j + 1] == o[..j] + [o[j]];
      ghost var was := dst[doff..doff + j];
      dst[doff + j] := accu % 0x1_0000_0000;
      assert dst[doff..doff + j + 1] == was + [accu % 0x1_0000_0000];
      carry := accu / 0x1_0000_0000;
      j := j + 1;
    }
    assert o[..len] == o;
  }

  lemma ScaleBound(d: Limb, x: Limb, carry: int)
    requires 0 <= carry < d
    ensures 0 <= carry + Times(d, x) < d * 0x1_0000_0000
    ensures Times(d, x) == d * x
  {
    MulMono(x, 0xffff_ffff, d);
    MulMono(0, x, d);
  }

  lemma ScaleStep(v: seq<Limb>, c: int, d: int, s: seq<Limb>, x: Limb, c': int, w: Limb)
    requires |v| == |s|
    requires Val(v) + Times(c, W(|v|)) == Times(d, Val(s))
    requires c + Times(d, x) == c' * 0x1_0000_0000 + w
    ensures Val(v + [w]) + Times(c', W(|v| + 1)) == Times(d, Val(s + [x]))
  {
    TimesZero(W(|v|));
    hide *;
    TimesAppend(v, w);
    TimesAppend(s, x);
    TimesPowSucc(c', |v|);
    RowAlgebra(Val(v), 0, Val(s), Val(v + [w]), 0, Val(s + [x]), c, d, x, 0, c', w, W(|v|));
  }

  /** One two-limb number divided by one limb. */
  method DivideLimb(rem: Limb, x: Limb, den: Limb) returns (quot: Limb, r: Limb)
    requires rem < den
    ensures rem * 0x1_0000_0000 + x == Times(quot, den) + r && r < den
  {
    hide *;
    var num: TwoLimb := rem * 0x1_0000_0000 + x;
    QuotientBound(num, den, rem);
    quot, r := num / den, num % den;
  }

  /** Division by one limb, from the top limb down, while copying or in place. */
  method DivideSmall(src: array<Limb>, soff: nat, dst: array<Limb>, doff: nat, len: nat, den: Limb) returns (rem: Limb)
    requires soff + len <= src.Length && doff + len <= dst.Length && den > 0
    requires src == dst ==> soff == doff
    modifies dst
    ensures old(Val(src[soff..soff + len])) == Times(Val(dst[doff..doff + len]), den) + rem
    ensures rem < den
    ensures forall k :: 0 <= k < dst.Length && !(doff <= k < doff + len) ==> dst[k] == old(dst[k])
  {
    rem := 0;
    var count := len;
    ghost var o := src[soff..soff + len];
    TimesZero(den);
    while count > 0
      invariant 0 <= count <= len
      invariant Val(o[count..]) == Times(Val(dst[doff + count..doff + len]), den) + rem
      invariant rem < den
      invariant forall k :: 0 <= k < count ==> src[soff + k] == o[k]
      invariant forall k :: 0 <= k < dst.Length && !(doff + count <= k < doff + len) ==> dst[k] == old(dst[k])
    {
      hide *;
      count := count - 1;
      var quot, r := DivideLimb(rem, src[soff + count], den);
      ghost var was := dst[doff + count + 1..doff + len];
      DivideSmallStep(was, o[count + 1..], rem, o[count], quot, r, den);
      assert o[count..] == [o[count]] + o[count + 1..];
      dst[doff + count] := quot;
      assert dst[doff + count..doff + len] == [quot] + was;
      rem := r;
    }
    assert o[0..] == o;
  }

  lemma QuotientBound(num: int, den: Limb, rem: int)
    requires 0 <= rem < den && rem * 0x1_0000_0000 <= num < (rem + 1) * 0x1_0000_0000
    ensures 0 <= num / den < 0x1_0000_0000 && 0 <= num % den < den
    ensures num == Times(num / den, den) + num % den
  {
    DivMod(num, den);
    if num / den >= 0x1_0000_0000 {
      MulMono(0x1_0000_0000, num / den, den);
    }
  }

  lemma DivideSmallStep(q: seq<Limb>, a: seq<Limb>, rem: int, x: Limb, q0: Limb, rem': int, den: int)
    requires Val(a) == Times(Val(q), den) + rem
    requires rem * 0x1_0000_0000 + x == Times(q0, den) + rem'
    ensures Val([x] + a) == Times(Val([q0] + q), den) + rem'
  {
    hide *;
    ValPrepend(x, a);
    ValPrepend(q0, q);
    TimesDist(den, q0, 0x1_0000_0000 * Val(q));
    TimesScale(Val(q), den);
  }

  // ----- multiplication (libgnu/vasnprintf.c:330-390)

  /** A row being rewritten in place: old limbs o, new limbs v with carry c, after adding d
      times the limbs s. Subtraction is a negative d and a negative carry. */
  predicate Row(v: seq<Limb>, c: int, o: seq<Limb>, d: int, s: seq<Limb>) {
    && |v| == |o| == |s|
    && Val(v) + Times(c, W(|v|)) == Val(o) + Times(d, Val(s))
  }

  lemma RowEmpty(d: int)
    ensures Row([], 0, [], d, [])
  {
    assert Times(d, 0) == 0;
  }

  /** One more limb w of the row, out of the old cell, carry c and d times limb x. */
  lemma RowStep(v: seq<Limb>, c: int, o: seq<Limb>, d: int, s: seq<Limb>, x: Limb, cell: Limb, c': int, w: Limb)
    requires Row(v, c, o, d, s)
    requires c + Times(d, x) + cell == c' * 0x1_0000_0000 + w
    ensures Row(v + [w], c', o + [cell], d, s + [x])
  {
    hide Val, W, Times;
    TimesAppend(v, w);
    TimesAppend(o, cell);
    TimesAppend(s, x);
    TimesPowSucc(c', |v|);
    RowAlgebra(Val(v), Val(o), Val(s), Val(v + [w]), Val(o + [cell]), Val(s + [x]), c, d, x, cell, c', w, W(|v|));
  }

  lemma RowBound(d: Limb, x: Limb, carry: int, cell: Limb)
    requires 0 <= carry < 0x1_0000_0000
    ensures 0 <= carry + Times(d, x) + cell < 0x1_0000_0000 * 0x1_0000_0000
    ensures Times(d, x) == d * x
  {
    MulMono(d, 0x1_0000_0000 - 1, x);
    MulMono(x, 0x1_0000_0000 - 1, 0x1_0000_0000 - 1);
    MulMono(0, d, x);
  }

  /** The inner loop: add `digit1` times a bignum onto the row of `dp` that starts at `i`. */
  method AddRow(dp: array<Limb>, i: nat, digit1: Limb, src: array<Limb>, off: nat, len2: nat) returns (carry: Limb)
    requires dp != src && i + len2 <= dp.Length && off + len2 <= src.Length
    modifies dp
    ensures Row(dp[i..i + len2], carry, old(dp[i..i + len2]), digit1, src[off..off + len2])
    ensures forall k :: 0 <= k < dp.Length && !(i <= k < i + len2) ==> dp[k] == old(dp[k])
  {
    hide *;
    carry := 0;
    var j := 0;
    ghost var o := dp[i..i + len2];
    RowEmpty(digit1);
    assert dp[i..i] == o[..0] == src[off..off] == [];
    while j < len2
      invariant 0 <= j <= len2
      invariant Row(dp[i..i + j], carry, o[..j], digit1, src[off..off + j])
      invariant forall k :: j <= k < len2 ==> dp[i + k] == o[k]
      invariant forall k :: 0 <= k < dp.Length && !(i <= k < i + j) ==> dp[k] == old(dp[k])
    {
      RowBound(digit1, src[off + j], carry, dp[i + j]);
      var accu: TwoLimb := carry + digit1 * src[off + j] + dp[i + j];
      ghost var was := dp[i..i + j];
      RowStep(was, carry, o[..j], digit1, src[off..off + j], src[off + j], o[j],
              accu / 0x1_0000_0000, accu % 0x1_0000_0000);
      dp[i + j] := accu % 0x1_0000_0000;
      assert dp[i..i + j + 1] == was + [accu % 0x1_0000_0000];
      assert o[..j + 1] == o[..j] + [o[j]];
      assert src[off..off + j + 1] == src[off..off + j] + [src[off + j]];
      carry := accu / 0x1_0000_0000;
      j := j + 1;
    }
    assert o[..len2] == o;
  }

  method Clear(dp: array<Limb>, len: nat)
    requires len <= dp.Length
    modifies dp
    ensures Val(dp[..len]) == 0
  {
    var k := len;
    while k > 0
      invariant 0 <= k <= len
      invariant forall t :: k <= t < len ==> dp[t] == 0
    {
      k := k - 1;
      dp[k] := 0;
    }
    ValZeros(dp[..len]);
  }

  /** The double loop, for 1 <= len1; `dp` holds len1 + len2 limbs. */
  method MultiplyRows(s1: Mpn, s2: Mpn, dp: array<Limb>)
    requires s1.Valid() && s2.Valid() && dp != s1.limbs && dp != s2.limbs
    requires dp.Length == s1.nlimbs + s2.nlimbs
    modifies dp
    ensures Val(dp[..]) == Times(s1.Value(), s2.Value())
  {
    var len1, len2 := s1.nlimbs, s2.nlimbs;
    Clear(dp, len2);
    ghost var x, y := s1.Digits(), s2.Digits();
    var i := 0;
    while i < len1
      invariant 0 <= i <= len1
      invariant Val(dp[..i + len2]) == Times(Val(x[..i]), Val(y))
    {
      var digit1 := s1.limbs[s1.start + i];
      ghost var before := dp[..];
      var carry := AddRow(dp, i, digit1, s2.limbs, s2.start, len2);
      dp[i + len2] := carry;
      MultiplyRow(before, dp[..], i, len2, digit1, x, y);
      i := i + 1;
    }
    assert x[..len1] == x && dp[..len1 + len2] == dp[..];
  }

  method Multiply(src1: Mpn, src2: Mpn) returns (dest: Mpn)
    requires src1.Valid() && src2.Valid()
    ensures dest.Valid() && fresh(dest.limbs)
    ensures dest.Value() == src1.Value() * src2.Value()
    ensures dest.Normal()
  {
    var s1, s2 := src1, src2;
    if s1.nlimbs > s2.nlimbs {
      s1, s2 := s2, s1;
    }
    ghost var product := src1.Value() * src2.Value();
    assert product == s1.Value() * s2.Value();
    if s1.nlimbs == 0 {
      var empty := new Limb[0];
      dest := Mpn(empty, 0, 0);
    } else {
      dest := MultiplyNonzero(s1, s2);
    }
  }

  method MultiplyNonzero(s1: Mpn, s2: Mpn) returns (dest: Mpn)
    requires s1.Valid() && s2.Valid()
    ensures dest.Valid() && fresh(dest.limbs)
    ensures dest.Value() == s1.Value() * s2.Value()
    ensures dest.Normal()
  {
    var dlen := s1.nlimbs + s2.nlimbs;
    var dp := new Limb[dlen];
    MultiplyRows(s1, s2, dp);
    assert dp[0..0 + dlen] == dp[..];
    dlen := Normalise(dp, 0, dlen);
    dest := Mpn(dp, 0, dlen);
  }

  /** Rewriting the row that starts at i, and the limb above it, changes the value by
      beta^i times the change of the row. */
  lemma RowChange(before: seq<Limb>, after: seq<Limb>, i: nat, n: nat, delta: int)
    requires i + n < |after| == |before|
    requires forall k :: 0 <= k < i ==> after[k] == before[k]
    requires Val(after[i..i + n]) + Times(after[i + n], W(n)) == Val(before[i..i + n]) + delta
    ensures Val(after[..i + 1 + n]) == Val(before[..i + n]) + Times(W(i), delta)
  {
    hide *;
    var s, t := before[..i + n], after[..i + 1 + n];
    TimesSplit(s, i);
    TimesSplit(t, i);
    assert s[..i] == t[..i] && s[i..] == before[i..i + n];
    assert t[i..] == after[i..i + n] + [after[i + n]];
    TimesAppend(after[i..i + n], after[i + n]);
    TimesDist(W(i), Val(s[i..]), delta);
  }

  lemma MultiplyRow(before: seq<Limb>, after: seq<Limb>, i: nat, len2: nat, digit1: Limb, x: seq<Limb>, y: seq<Limb>)
    requires i + len2 < |after| == |before| && i < |x| && x[i] == digit1 && |y| == len2
    requires Val(before[..i + len2]) == Times(Val(x[..i]), Val(y))
    requires forall k :: 0 <= k < i ==> after[k] == before[k]
    requires Row(after[i..i + len2], after[i + len2], before[i..i + len2], digit1, y)
    ensures Val(after[..i + 1 + len2]) == Times(Val(x[..i + 1]), Val(y))
  {
    hide Val, W, Times;
    RowChange(before, after, i, len2, Times(digit1, Val(y)));
    assert x[..i + 1] == x[..i] + [digit1];
    TimesAppend(x[..i], digit1);
    TimesDist(Val(y), Val(x[..i]), Times(digit1, W(i)));
    TimesAssoc(W(i), digit1, Val(y));
    TimesComm(W(i), digit1);
  }
}
