/** `divide` as a whole (libgnu/vasnprintf.c:400-837): choice of path, comparison of twice the
    remainder with the divisor, and the increment of the quotient. */
module Divide {
  import opened Powers
  import opened Limbs
  import opened Division

  method Copy(src: array<Limb>, soff: nat, dst: array<Limb>, len: nat)
    requires src != dst && soff + len <= src.Length && len <= dst.Length
    modifies dst
    ensures dst[..len] == src[soff..soff + len]
    ensures forall k :: len <= k < dst.Length ==> dst[k] == old(dst[k])
  {
    var i := 0;
    while i < len
      invariant 0 <= i <= len
      invariant forall k :: 0 <= k < i ==> dst[k] == src[soff + k]
      invariant forall k :: len <= k < dst.Length ==> dst[k] == old(dst[k])
    {
      dst[i] := src[soff + i];
      i := i + 1;
    }
  }

  // ----- twice the remainder against the divisor (801-820)

  /** `x << 1` and `x + 1` as the 32-bit type computes them. */
  function ShiftedUp(x: int): (y: Limb)
    requires 0 <= x < 0x1_0000_0000
    ensures y <= 0xffff_fffe
  {
    (2 * x) % 0x1_0000_0000
  }

  function Successor(x: int): (y: Limb) {
    (x + 1) % 0x1_0000_0000
  }

  /** Limb i of 2 * r. */
  function TwiceLimb(r: seq<Limb>, i: nat): (d: Limb) {
    HighBit(r, i) + (if i < |r| then ShiftedUp(r[i]) else 0)
  }

  /** The bit that limb i - 1 shifts into limb i. */
  function HighBit(r: seq<Limb>, i: nat): (h: Limb)
    ensures h <= 1
  {
    if 0 < i <= |r| then r[i - 1] / 0x8000_0000 else 0
  }

  function Twice(r: seq<Limb>, n: nat): (d: seq<Limb>)
    ensures |d| == n && forall i :: 0 <= i < n ==> d[i] == TwiceLimb(r, i)
  {
    seq(n, i requires 0 <= i < n => TwiceLimb(r, i))
  }

  lemma {:induction false} TwicePrefix(r: seq<Limb>, n: nat, i: nat)
    requires i <= n
    ensures Val(Twice(r, n)[..i]) + HighBit(r, i) * W(i) == 2 * Val(r[..Min(i, |r|)])
  {
    if i == 0 {
    } else {
      TwicePrefix(r, n, i - 1);
      var d := Twice(r, n);
      assert d[..i] == d[..i - 1] + [d[i - 1]];
      ValAppend(d[..i - 1], d[i - 1]);
      if i - 1 < |r| {
        assert r[..i] == r[..i - 1] + [r[i - 1]];
        ValAppend(r[..i - 1], r[i - 1]);
        TwiceCell(r[i - 1], HighBit(r, i - 1), HighBit(r, i), d[i - 1], W(i - 1), W(i));
      } else {
        TwiceAbove(HighBit(r, i - 1), d[i - 1], W(i - 1));
      }
    }
  }

  lemma TwiceCell(x: Limb, h: int, h': int, d: int, w: int, w': int)
    requires h' == x / 0x8000_0000 && d == h + ShiftedUp(x) && w' == 0x1_0000_0000 * w
    ensures d * w + h' * w' == h * w + 2 * (x * w)
  {
    assert d + 0x1_0000_0000 * h' == h + 2 * x;
    assert (d + 0x1_0000_0000 * h') * w == d * w + h' * (0x1_0000_0000 * w);
  }

  lemma TwiceAbove(h: int, d: int, w: int)
    requires d == h
    ensures d * w == h * w
  {
  }

  lemma TwiceValue(r: seq<Limb>, n: nat)
    requires |r| <= n
    ensures Val(Twice(r, n + 1)) == 2 * Val(r)
  {
    TwicePrefix(r, n + 1, n + 1);
    assert Twice(r, n + 1)[..n + 1] == Twice(r, n + 1) && r[..|r|] == r;
  }

  /** The highest differing limb decides. */
  lemma HigherLimbDecides(s: seq<Limb>, t: seq<Limb>, i: nat)
    requires |s| == |t| && i < |s| && s[i] < t[i] && s[i + 1..] == t[i + 1..]
    ensures Val(s) < Val(t)
  {
    hide Val, W, Times;
    TimesSplit(s, i + 1);
    TimesSplit(t, i + 1);
    TopLimb(s[..i + 1]);
    TopLimb(t[..i + 1]);
    ValBound(s[..i + 1][..i]);
    TimesMono(s[i] + 1, t[i], W(i));
    TimesDown(s[i], W(i));
    assert s[..i + 1][..i] == s[..i];
  }

  /** The sign of 2 * r - b, comparing limbs from the top down. */
  method CompareTwice(room: array<Limb>, rlen: nat, b: array<Limb>, off: nat, n: nat) returns (c: int)
    requires rlen <= room.Length && off + n <= b.Length
    requires rlen > 0 ==> room[rlen - 1] != 0
    ensures c > 0 <==> 2 * Val(room[..rlen]) > Val(b[off..off + n])
    ensures c < 0 <==> 2 * Val(room[..rlen]) < Val(b[off..off + n])
  {
    ghost var r, bv := room[..rlen], b[off..off + n];
    hide *;
    if rlen > n {
      LongerIsLarger(r, bv);
      return 1;
    }
    ghost var d, t := Twice(r, n + 1), bv + [0];
    TwiceValue(r, n);
    TimesAppendZero(bv);
    c := CompareLimbs(room, rlen, b, off, n, d, t);
  }

  method CompareLimbs(room: array<Limb>, rlen: nat, b: array<Limb>, off: nat, n: nat,
                      ghost d: seq<Limb>, ghost t: seq<Limb>) returns (c: int)
    requires rlen <= room.Length && rlen <= n && off + n <= b.Length
    requires d == Twice(room[..rlen], n + 1) && t == b[off..off + n] + [0]
    ensures c > 0 <==> Val(d) > Val(t)
    ensures c < 0 <==> Val(d) < Val(t)
  {
    hide *;
    var i := n;
    while true
      invariant 0 <= i <= n && |d| == |t| == n + 1
      invariant d[i + 1..] == t[i + 1..]
      decreases i
    {
      var ri: int := (if 0 < i <= rlen then room[i - 1] / 0x8000_0000 else 0)
                     + (if i < rlen then ShiftedUp(room[i]) else 0);
      var bi: Limb := if i < n then b[off + i] else 0;
      TwiceCellIs(room, rlen, n + 1, i, ri);
      assert t[i] == bi;
      if ri > bi {
        HigherLimbDecides(t, d, i);
        return 1;
      }
      if ri < bi {
        HigherLimbDecides(d, t, i);
        return -1;
      }
      assert d[i..] == [d[i]] + d[i + 1..] && t[i..] == [t[i]] + t[i + 1..];
      if i == 0 {
        break;
      }
      i := i - 1;
    }
    assert d == d[0..] && t == t[0..];
    c := 0;
  }

  lemma TwiceCellIs(room: array<Limb>, rlen: nat, n: nat, i: nat, ri: int)
    requires rlen <= room.Length && i < n
    requires ri == (if 0 < i <= rlen then room[i - 1] / 0x8000_0000 else 0)
                   + (if i < rlen then ShiftedUp(room[i]) else 0)
    ensures Twice(room[..rlen], n)[i] == ri
  {
  }

  lemma LongerIsLarger(r: seq<Limb>, b: seq<Limb>)
    requires |r| > |b| && r[|r| - 1] != 0
    ensures Val(r) > Val(b)
  {
    hide Val, W;
    TopNonzero(r);
    ValBound(b);
    WMono(|b|, |r| - 1);
  }

  lemma {:induction false} WMono(m: nat, n: nat)
    requires m <= n
    ensures W(m) <= W(n)
    decreases n
  {
    if m < n {
      WMono(m, n - 1);
    }
  }

  // ----- adding one to the quotient (821-830)

  /** The carry has run through limbs o, all of them ones, and left zeros v. */
  predicate Carried(v: seq<Limb>, o: seq<Limb>) {
    && |v| == |o|
    && Val(v) == 0
    && Val(o) + 1 == W(|o|)
  }

  /** The carry loop: it stops at the first limb that does not wrap to zero. */
  method CarryUp(room: array<Limb>, off: nat, len: nat) returns (stopped: bool)
    requires off + len <= room.Length
    modifies room
    ensures forall k :: 0 <= k < room.Length && !(off <= k < off + len) ==> room[k] == old(room[k])
    ensures stopped ==> Val(room[off..off + len]) == old(Val(room[off..off + len])) + 1
    ensures stopped ==> len > 0 && (old(room[off + len - 1]) != 0 ==> room[off + len - 1] != 0)
    ensures !stopped ==> Carried(room[off..off + len], old(room[off..off + len]))
  {
    hide *;
    ghost var o := room[off..off + len];
    var i := 0;
    CarryStart();
    assert room[off..off] == [] == o[..0];
    while i < len
      invariant 0 <= i <= len
      invariant Carried(room[off..off + i], o[..i])
      invariant forall k :: i <= k < len ==> room[off + k] == o[k]
      invariant forall k :: 0 <= k < room.Length && !(off <= k < off + i) ==> room[k] == old(room[k])
    {
      ghost var was := room[off..off + i];
      SuccessorCases(o[i]);
      room[off + i] := Successor(room[off + i]);
      assert room[off..off + i] == was;
      if room[off + i] != 0 {
        CarryStops(was, o, room[off + i], room[off..off + len]);
        return true;
      }
      assert o[..i + 1] == o[..i] + [o[i]];
      assert room[off..off + i + 1] == was + [0];
      CarryStep(was, o[..i]);
      i := i + 1;
    }
    assert o[..len] == o;
    stopped := false;
  }

  /** `q++`; the quotient may grow by one limb. */
  method Increment(room: array<Limb>, off: nat, len: nat) returns (len': nat)
    requires off + len < room.Length
    requires len > 0 ==> room[off + len - 1] != 0
    modifies room
    ensures len <= len' <= len + 1
    ensures Val(room[off..off + len']) == old(Val(room[off..off + len])) + 1
    ensures len' > 0 ==> room[off + len' - 1] != 0
  {
    hide *;
    ghost var o := room[off..off + len];
    var stopped := CarryUp(room, off, len);
    len' := len;
    if !stopped {
      ghost var zeros := room[off..off + len];
      CarryGrows(zeros, o);
      room[off + len] := 1;
      assert room[off..off + len + 1] == zeros + [1];
      len' := len + 1;
    }
  }

  lemma SuccessorCases(x: Limb)
    ensures Successor(x) == 0 <==> x == 0xffff_ffff
    ensures x < 0xffff_ffff ==> Successor(x) - 1 == x
  {
  }

  lemma CarryStart()
    ensures Carried([], [])
  {
  }

  lemma TimesAppendZero(s: seq<Limb>)
    ensures Val(s + [0]) == Val(s)
  {
    ValAppend(s, 0);
  }

  lemma CarryStep(v: seq<Limb>, o: seq<Limb>)
    requires Carried(v, o)
    ensures Carried(v + [0], o + [0xffff_ffff])
  {
    ValAppend(v, 0);
    ValAppend(o, 0xffff_ffff);
  }

  lemma CarryGrows(v: seq<Limb>, o: seq<Limb>)
    requires Carried(v, o)
    ensures Val(v + [1]) == Val(o) + 1
  {
    ValAppend(v, 1);
  }

  lemma CarryStops(v: seq<Limb>, o: seq<Limb>, y: Limb, t: seq<Limb>)
    requires |v| < |o| == |t| && Carried(v, o[..|v|]) && y - 1 == o[|v|]
    requires t[..|v|] == v && t[|v|] == y && t[|v| + 1..] == o[|v| + 1..]
    ensures Val(t) == Val(o) + 1
  {
    hide Val, W, Times;
    var i := |v|;
    var high := o[i + 1..];
    assert t == (v + [y]) + high && o == (o[..i] + [o[i]]) + high;
    CarryStopsBelow(v, o[..i], y, o[i]);
    ValTimesConcat(o[..i] + [o[i]], high);
    ValTimesConcat(v + [y], high);
  }

  lemma CarryStopsBelow(v: seq<Limb>, o: seq<Limb>, y: Limb, x: Limb)
    requires |v| == |o| && Carried(v, o) && y - 1 == x
    ensures Val(v + [y]) == Val(o + [x]) + 1
  {
    hide Val, W, Times;
    TimesAppend(o, x);
    TimesAppend(v, y);
    TimesDown(x, W(|o|));
  }

  // ----- the three paths

  /** What each path leaves behind: the quotient q and remainder r of a by b, both scaled by
      the power of two that normalised the divisor (bs = scale * b). */
  predicate Divided(q: seq<Limb>, r: seq<Limb>, a: nat, b: nat, bs: nat, scale: nat) {
    && scale > 0
    && bs == Times(scale, b)
    && Times(scale, a) == Times(Val(q), bs) + Val(r)
    && Val(r) < bs
    && (|q| > 0 ==> q[|q| - 1] != 0)
    && (|r| > 0 ==> r[|r| - 1] != 0)
  }

  /** m < n: the quotient is zero and the remainder is a. */
  lemma SmallDividend(a: seq<Limb>, b: seq<Limb>)
    requires |a| < |b| && b[|b| - 1] != 0
    requires |a| > 0 ==> a[|a| - 1] != 0
    ensures Divided([], a, Val(a), Val(b), Val(b), 1)
  {
    hide W, Val, Times;
    TopNonzero(b);
    ValBound(a);
    WMono(|a|, |b| - 1);
    TimesOne(Val(a));
    TimesOne(Val(b));
    TimesZero(Val(b));
    SingleLimb(0);
  }

  /** A quotient of an m-limb number by an n-limb one has at least m - n limbs. */
  lemma QuotientLength(q: int, a: int, b: int, scale: int, k: nat, n: nat)
    requires Times(scale, a) < Times(q + 1, Times(scale, b)) && scale > 0
    requires a >= W(k + n) && 0 <= b < W(n)
    ensures q >= W(k)
  {
    WAdd(k, n);
    if q + 1 <= W(k) {
      TimesMono(q + 1, W(k), b);
      TimesMono(b, W(n), W(k));
      TimesMono(Times(q + 1, b), a, scale);
      hide *;
      TimesAssoc(q + 1, scale, b);
      TimesComm(q + 1, scale);
      TimesAssoc(scale, q + 1, b);
      assert false;
    }
  }

  /** Dropping at most one zero limb normalises the quotient. */
  lemma DropOneZero(q: seq<Limb>, r: int, a: seq<Limb>, b: seq<Limb>, bs: int, scale: int)
    requires |a| >= |b| > 0 && |q| >= 1 && |q| <= |a| - |b| + 1 && scale > 0 && bs == Times(scale, Val(b))
    requires a[|a| - 1] != 0 && Times(scale, Val(a)) == Times(Val(q), bs) + r && r < bs
    requires |q| == |a| - |b| + 1 && q[|q| - 1] == 0
    ensures Val(q[..|q| - 1]) == Val(q)
    ensures |q| > 1 ==> q[|q| - 2] != 0
  {
    hide Val, W, Times;
    var L := |q| - 1;
    TimesZero(W(L));
    TopLimb(q);
    if L > 0 {
      TopNonzero(a);
      ValBound(b);
      TimesDown(Val(q), bs);
      QuotientLength(Val(q), Val(a), Val(b), scale, L - 1, |b|);
      TopNonzeroIf(q[..L]);
    }
  }

  lemma TopNonzero(s: seq<Limb>)
    requires |s| > 0 && s[|s| - 1] != 0
    ensures Val(s) >= W(|s| - 1)
  {
    ValTop(s);
  }

  lemma TopNonzeroIf(s: seq<Limb>)
    requires |s| > 0 && Val(s) >= W(|s| - 1)
    ensures s[|s| - 1] != 0
  {
    hide Val, W, Times;
    TopLimb(s);
    TimesZero(W(|s| - 1));
    ValBound(s[..|s| - 1]);
  }

  /** n = 1: single precision division. */
  method DividePath1(room: array<Limb>, a: array<Limb>, aoff: nat, m: nat, den: Limb, ghost bs: seq<Limb>)
    returns (rlen: nat, qlen: nat)
    requires room != a && aoff + m <= a.Length && m + 2 <= room.Length && m >= 1
    requires a[aoff + m - 1] != 0 && den > 0 && bs == [den]
    modifies room
    ensures rlen <= 1 && qlen <= m
    ensures Divided(room[1..1 + qlen], room[..rlen], Val(a[aoff..aoff + m]), Val(bs), Val(bs), 1)
  {
    hide *;
    ghost var av := a[aoff..aoff + m];
    SingleLimb(den);
    var remainder := DivideSmall(a, aoff, room, 1, m, den);
    ghost var q := room[1..1 + m];
    TimesOne(Val(av));
    TimesOne(Val(bs));
    rlen := 0;
    if remainder > 0 {
      room[0] := remainder;
      rlen := 1;
      assert room[..1] == [remainder];
    }
    assert room[1..1 + m] == q;
    SingleLimb(remainder);
    qlen := m;
    if room[qlen] == 0 {
      DropOneZero(q, remainder, av, bs, Val(bs), 1);
      qlen := qlen - 1;
      assert room[1..1 + qlen] == q[..m - 1];
    }
    Path1Done(room[1..1 + qlen], room[..rlen], av, bs, remainder);
  }

  lemma SingleLimb(x: Limb)
    ensures Val([x]) == x && Val([]) == 0
  {
  }

  lemma Path1Done(q: seq<Limb>, r: seq<Limb>, a: seq<Limb>, bs: seq<Limb>, rem: Limb)
    requires Times(1, Val(a)) == Times(Val(q), Val(bs)) + rem && rem < Val(bs)
    requires |q| > 0 ==> q[|q| - 1] != 0
    requires r == if rem > 0 then [rem] else []
    ensures Divided(q, r, Val(a), Val(bs), Val(bs), 1)
  {
    SingleLimb(rem);
    hide Times, Val;
    TimesOne(Val(bs));
  }

  /** The copy of b shifted left by s bits: no bits are lost, and its top bit is set. */
  lemma ShiftedDivisor(b: seq<Limb>, bs: seq<Limb>, accu: Limb, p: int)
    requires |b| == |bs| > 0 && p > 0
    requires Val(bs) + Times(accu, W(|b|)) == Times(p, Val(b))
    requires Normalises(p, b[|b| - 1])
    ensures accu == 0 && Val(bs) == Times(p, Val(b))
    ensures bs[|b| - 1] >= 0x8000_0000
  {
    hide Val, W, Times;
    var n, top: int, t: int := |b| - 1, b[|b| - 1], bs[|b| - 1];
    var w := W(n);
    TopLimb(b);
    TopLimb(bs);
    ValBound(b[..n]);
    ValBound(bs[..n]);
    TimesDown(top, w);
    TimesPowSucc(accu, n);
    TimesPowSucc(1, n);
    TimesOne(W(n + 1));
    // Val(b) lies between top * w and (top + 1) * w
    TimesMono(Times(top, w), Val(b), p);
    TimesMono(Val(b) + 1, Times(top + 1, w), p);
    TimesDist(p, Val(b), 1);
    TimesComm(p, 1);
    TimesOne(p);
    TimesAssoc(p, top, w);
    TimesAssoc(p, top + 1, w);
    TimesMono(0x8000_0000, Times(p, top), w);
    TimesMono(Times(p, top + 1), 0x1_0000_0000, w);
    TimesSmall(accu, W(n + 1));
    TimesDown(t, w);
    TimesCancelLe(0x8000_0000, t, w);
  }

  /** A lower bound on the top digit read off a bound with the next digit. */
  lemma TimesCancelLe(c: int, t: int, w: int)
    requires w > 0
    ensures Times(c, w) < Times(t + 1, w) ==> c <= t
  {
    if Times(c, w) < Times(t + 1, w) {
      MulCancel(c, t + 1, w);
    }
  }

  /** a < beta^m makes the shifted a too small to contribute to digit m - n + 1. */
  lemma DividendFits(a: int, p: int, m: nat, bs: seq<Limb>)
    requires 0 <= a < W(m) && 0 < p <= 0x8000_0000 && 0 < |bs| <= m && bs[|bs| - 1] >= 0x8000_0000
    ensures Times(p, a) < Times(Val(bs), W(m - |bs| + 1))
  {
    hide Val, W, Times;
    var n := |bs|;
    TopLimb(bs);
    TimesMono(0x8000_0000, bs[n - 1], W(n - 1));
    TimesMono(Times(0x8000_0000, W(n - 1)), Val(bs), W(m - n + 1));
    WAdd(n - 1, m - n + 1);
    TimesAssoc(0x8000_0000, W(n - 1), W(m - n + 1));
    TimesMono(p, 0x8000_0000, a);
    TimesStrict(a, W(m), 0x8000_0000);
  }

  /** `1 << s`. */
  function ShiftDigit(s: nat): (d: Limb)
    requires s < 32
    ensures 0 < d <= 0x8000_0000 && d == Pow(2, s)
  {
    BitsStart(0);
    PowSucc(2, 31);
    PowMonoExp(2, s, 31);
    Pow(2, s)
  }

  /** b shifted left by s bits, in a new buffer unless s = 0. */
  method ShiftDivisor(b: array<Limb>, boff: nat, n: nat, s: nat) returns (bs: array<Limb>, off: nat)
    requires boff + n <= b.Length && n > 0 && s < 32
    requires Normalises(Pow(2, s), b[boff + n - 1])
    ensures (bs == b && off == boff) || (fresh(bs) && off == 0)
    ensures off + n <= bs.Length
    ensures Val(bs[off..off + n]) == Times(Pow(2, s), Val(b[boff..boff + n]))
    ensures bs[off + n - 1] >= 0x8000_0000
  {
    if s == 0 {
      TimesOne(Val(b[boff..boff + n]));
      TimesOne(b[boff + n - 1]);
      return b, boff;
    }
    hide *;
    bs := new Limb[n];
    off := 0;
    var accu := ScaleRow(b, boff, bs, 0, n, ShiftDigit(s));
    ShiftedDivisor(b[boff..boff + n], bs[0..0 + n], accu, ShiftDigit(s));
    assert accu == 0;
  }

  /** r := a shifted left by s bits, with one limb more. */
  method ShiftDividend(a: array<Limb>, aoff: nat, m: nat, room: array<Limb>, s: nat)
    requires a != room && aoff + m <= a.Length && m < room.Length && s < 32
    modifies room
    ensures Val(room[..m + 1]) == Times(Pow(2, s), Val(a[aoff..aoff + m]))
  {
    if s == 0 {
      Copy(a, aoff, room, m);
      room[m] := 0;
      ValExtend(room, 0, m);
      TimesOne(Val(a[aoff..aoff + m]));
      assert room[0..m] == a[aoff..aoff + m];
      assert room[0..m + 1] == room[..m + 1];
      return;
    }
    hide *;
    var accu := ScaleRow(a, aoff, room, 0, m, ShiftDigit(s));
    ghost var low := room[0..0 + m];
    room[m] := accu;
    assert room[..m + 1] == low + [accu];
    TimesAppend(low, accu);
  }

  /** Both operands shifted by the leading zero bits of the divisor, and the long division. */
  method ShiftAndDivide(room: array<Limb>, a: array<Limb>, aoff: nat, m: nat, b: array<Limb>, boff: nat, n: nat)
    returns (bs: array<Limb>, off: nat, ghost scale: nat)
    requires room != a && room != b && aoff + m <= a.Length && m + 2 <= room.Length
    requires 2 <= n <= m && boff + n <= b.Length && b[boff + n - 1] != 0
    modifies room
    ensures bs != room && off + n <= bs.Length && 0 < scale
    ensures Val(bs[off..off + n]) == Times(scale, old(Val(b[boff..boff + n])))
    ensures Times(scale, Val(a[aoff..aoff + m]))
         == Times(Val(room[n..m + 1]), Val(bs[off..off + n])) + Val(room[..n])
    ensures Val(room[..n]) < Val(bs[off..off + n])
  {
    hide *;
    ValBound(a[aoff..aoff + m]);
    var s := LeadingZeros(b[boff + n - 1]);
    scale := ShiftDigit(s);
    bs, off := ShiftDivisor(b, boff, n, s);
    ShiftDividend(a, aoff, m, room, s);
    DividendFits(Val(a[aoff..aoff + m]), ShiftDigit(s), m, bs[off..off + n]);
    LongDivide(room, m, bs, off, n);
  }

  /** Quotient and remainder without their leading zero limbs. */
  method TrimPathN(room: array<Limb>, m: nat, n: nat, ghost av: seq<Limb>, ghost bv: seq<Limb>, ghost bsv: nat,
                   ghost scale: nat)
    returns (rlen: nat, qlen: nat)
    requires 2 <= n <= m < room.Length && |av| == m && |bv| == n && av[m - 1] != 0
    requires scale > 0 && bsv == Times(scale, Val(bv)) && Val(room[..n]) < bsv
    requires Times(scale, Val(av)) == Times(Val(room[n..m + 1]), bsv) + Val(room[..n])
    ensures rlen <= n && n + qlen <= m + 1
    ensures Divided(room[n..n + qlen], room[..rlen], Val(av), Val(bv), bsv, scale)
  {
    hide *;
    ghost var q, r := room[n..m + 1], room[..n];
    qlen := m - n + 1;
    if room[n + qlen - 1] == 0 {
      DropOneZero(q, Val(r), av, bv, bsv, scale);
      qlen := qlen - 1;
      assert room[n..n + qlen] == q[..|q| - 1];
    }
    rlen := Normalise(room, 0, n);
    assert room[0..0 + n] == room[..n] && room[0..0 + rlen] == room[..rlen];
    PathNDone(room[n..n + qlen], room[..rlen], Val(av), Val(bv), bsv, scale);
  }

  /** n > 1: multiple precision division. */
  method DividePathN(room: array<Limb>, a: array<Limb>, aoff: nat, m: nat, b: array<Limb>, boff: nat, n: nat)
    returns (rlen: nat, qlen: nat, bs: array<Limb>, off: nat, ghost scale: nat)
    requires room != a && room != b && aoff + m <= a.Length && m + 2 <= room.Length
    requires 2 <= n <= m && boff + n <= b.Length
    requires a[aoff + m - 1] != 0 && b[boff + n - 1] != 0
    modifies room
    ensures rlen <= n && n + qlen <= m + 1 && bs != room && off + n <= bs.Length
    ensures Divided(room[n..n + qlen], room[..rlen], Val(a[aoff..aoff + m]), old(Val(b[boff..boff + n])),
                    Val(bs[off..off + n]), scale)
  {
    hide *;
    ghost var av, bv := a[aoff..aoff + m], b[boff..boff + n];
    bs, off, scale := ShiftAndDivide(room, a, aoff, m, b, boff, n);
    rlen, qlen := TrimPathN(room, m, n, av, bv, Val(bs[off..off + n]), scale);
  }

  lemma PathNDone(q: seq<Limb>, r: seq<Limb>, a: nat, b: nat, bs: nat, scale: nat)
    requires scale > 0 && bs == Times(scale, b) && Times(scale, a) == Times(Val(q), bs) + Val(r) && Val(r) < bs
    requires (|q| > 0 ==> q[|q| - 1] != 0) && (|r| > 0 ==> r[|r| - 1] != 0)
    ensures Divided(q, r, a, b, bs, scale)
  {
    hide Val, Times;
  }

  // ----- the whole operation

  /** The remainder test decides the rounding, and scaling does not change it. */
  lemma RoundedQuotient(q: seq<Limb>, r: seq<Limb>, a: nat, b: nat, bs: nat, scale: nat)
    requires b > 0 && Divided(q, r, a, b, bs, scale)
    ensures RoundHalfEven(a, b)
         == if 2 * Val(r) > bs || (2 * Val(r) == bs && Val(q) % 2 == 1) then Val(q) + 1 else Val(q)
  {
    TimesIsMul(scale, a);
    TimesIsMul(scale, b);
    TimesIsMul(Val(q), bs);
    RoundCommonFactor(scale, a, b);
    DivUnique(scale * a, scale * b, Val(q), Val(r));
  }

  /** The low limb decides parity. */
  lemma {:induction false} Parity(q: seq<Limb>)
    ensures Val(q) % 2 == if |q| > 0 then q[0] % 2 else 0
  {
    if |q| > 0 {
      var high := Val(q[1..]);
      assert Val(q) == q[0] + 2 * (0x8000_0000 * high);
    }
  }

  lemma NoLimbs(s: seq<Limb>)
    requires s == []
    ensures Val(s) == 0
  {
  }

  method Divide(a: Mpn, b: Mpn) returns (q: Mpn)
    requires a.Valid() && b.Valid() && b.Value() > 0
    ensures q.Valid() && fresh(q.limbs)
    ensures q.Value() == RoundHalfEven(a.Value(), b.Value())
    ensures q.Normal()
  {
    NoLimbs(b.limbs[b.start..b.start]);
    hide Val, RoundHalfEven;
    var room := new Limb[a.nlimbs + 2];
    var alen := Normalise(a.limbs, a.start, a.nlimbs);
    var blen := Normalise(b.limbs, b.start, b.nlimbs);
    // `b.Value() > 0` is what keeps the abort for a zero divisor from being reached
    assert blen > 0;
    q := DivideNormal(room, a.limbs, a.start, alen, b.limbs, b.start, blen);
  }

  method DivideNormal(room: array<Limb>, a: array<Limb>, aoff: nat, m: nat, b: array<Limb>, boff: nat, n: nat)
    returns (q: Mpn)
    requires room != a && room != b && room.Length >= m + 2
    requires aoff + m <= a.Length && boff + n <= b.Length && n > 0
    requires m > 0 ==> a[aoff + m - 1] != 0
    requires b[boff + n - 1] != 0 && Val(b[boff..boff + n]) > 0
    modifies room
    ensures q.Valid() && q.limbs == room && q.Normal()
    ensures q.Value() == old(RoundHalfEven(Val(a[aoff..aoff + m]), Val(b[boff..boff + n])))
  {
    hide *;
    ghost var av, bv := a[aoff..aoff + m], b[boff..boff + n];
    var rlen, qlen, qoff, bs, off := m, 0, m, b, boff;
    ghost var scale := 1;
    if m < n {
      Copy(a, aoff, room, m);
      assert room[..m] == av && room[m..m + 0] == [];
      SmallDividend(av, bv);
    } else if n == 1 {
      assert bv == [b[boff]];
      rlen, qlen := DividePath1(room, a, aoff, m, b[boff], bv);
      qoff := 1;
    } else {
      rlen, qlen, bs, off, scale := DividePathN(room, a, aoff, m, b, boff, n);
      qoff := n;
    }
    q := RoundUp(room, qoff, qlen, rlen, bs, off, n, av, bv, scale);
  }

  method RoundUp(room: array<Limb>, qoff: nat, qlen: nat, rlen: nat, bs: array<Limb>, off: nat, n: nat,
                 ghost av: seq<Limb>, ghost bv: seq<Limb>, ghost scale: nat) returns (q: Mpn)
    requires qoff + qlen < room.Length && rlen <= room.Length && off + n <= bs.Length && Val(bv) > 0
    requires Divided(room[qoff..qoff + qlen], room[..rlen], Val(av), Val(bv), Val(bs[off..off + n]), scale)
    modifies room
    ensures q.Valid() && q.limbs == room && q.Normal()
    ensures q.Value() == RoundHalfEven(Val(av), Val(bv))
  {
    hide Val, W, Times, RoundHalfEven;
    var c := CompareTwice(room, rlen, bs, off, n);
    RoundedQuotient(room[qoff..qoff + qlen], room[..rlen], Val(av), Val(bv), Val(bs[off..off + n]), scale);
    Parity(room[qoff..qoff + qlen]);
    var len := qlen;
    if c > 0 || (c == 0 && qlen > 0 && room[qoff] % 2 == 1) {
      len := Increment(room, qoff, qlen);
    }
    q := Mpn(room, qoff, len);
  }
}
