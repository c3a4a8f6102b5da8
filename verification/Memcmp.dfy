/** The word-at-a-time comparison of libgnu/memcmp.c on a little-endian machine with eight-byte `op_t`. */
module Memcmp {
  import opened Words

  // ---------------------------------------------------------------- specification

  /** The order of two byte strings of the same length: by the first pair that differs. */
  function Lexicographic(a: seq<Byte>, b: seq<Byte>): (s: Sign)
    requires |a| == |b|
    ensures s == Zero <==> a == b
  {
    if |a| == 0 then Zero
    else if a[0] < b[0] then Negative
    else if a[0] > b[0] then Positive
    else
      assert a == [a[0]] + a[1..] && b == [b[0]] + b[1..];
      Lexicographic(a[1..], b[1..])
  }

  ghost predicate FirstDifference(a: seq<Byte>, b: seq<Byte>, i: nat)
    requires |a| == |b|
  {
    i < |a| && a[..i] == b[..i] && a[i] != b[i]
  }

  /** The same order by position: wherever the first difference is, its bytes decide. */
  lemma {:induction false} FirstDifferenceDecides(a: seq<Byte>, b: seq<Byte>, i: nat)
    requires |a| == |b| && FirstDifference(a, b, i)
    ensures Lexicographic(a, b) == if a[i] < b[i] then Negative else Positive
  {
    if i > 0 {
      assert a[0] == a[..i][0] == b[..i][0] == b[0];
      assert a[1..][..i - 1] == a[..i][1..] && b[1..][..i - 1] == b[..i][1..];
      FirstDifferenceDecides(a[1..], b[1..], i - 1);
    }
  }

  /** The difference of the first pair of bytes that differs among the n pairs at p and q, or 0. */
  function Difference(mem: seq<Byte>, p: nat, q: nat, n: nat): (r: CInt)
    requires p + n <= |mem| && q + n <= |mem|
    decreases n
  {
    if n == 0 then 0
    else if mem[p] != mem[q] then ByteDifference(mem[p], mem[q])
    else Difference(mem, p + 1, q + 1, n - 1)
  }

  /** The order of two strings whose first bytes are x and y, and whose other bytes are ordered as `rest`. */
  function OrderThen(x: Byte, y: Byte, rest: Sign): Sign {
    if x < y then Negative else if x > y then Positive else rest
  }

  lemma {:induction false} DifferenceIsLexicographic(mem: seq<Byte>, p: nat, q: nat, n: nat)
    requires p + n <= |mem| && q + n <= |mem|
    ensures SignOf(Difference(mem, p, q, n)) == Lexicographic(mem[p..p + n], mem[q..q + n])
    decreases n
  {
    hide *;
    if n == 0 {
      NothingDiffers(mem, p, q);
    } else {
      DifferenceStep(mem, p, q, n);
      LexicographicStep(mem, p, q, n);
      DifferenceIsLexicographic(mem, p + 1, q + 1, n - 1);
    }
  }

  lemma NothingDiffers(mem: seq<Byte>, p: nat, q: nat)
    requires p <= |mem| && q <= |mem|
    ensures SignOf(Difference(mem, p, q, 0)) == Lexicographic(mem[p..p + 0], mem[q..q + 0])
  {
  }

  lemma DifferenceStep(mem: seq<Byte>, p: nat, q: nat, n: nat)
    requires p + n <= |mem| && q + n <= |mem| && n > 0
    ensures SignOf(Difference(mem, p, q, n))
         == OrderThen(mem[p], mem[q], SignOf(Difference(mem, p + 1, q + 1, n - 1)))
  {
    ByteDifferenceSign(mem[p], mem[q]);
    hide ByteDifference, SignOf;
  }

  lemma LexicographicStep(mem: seq<Byte>, p: nat, q: nat, n: nat)
    requires p + n <= |mem| && q + n <= |mem| && n > 0
    ensures Lexicographic(mem[p..p + n], mem[q..q + n])
         == OrderThen(mem[p], mem[q], Lexicographic(mem[p + 1..p + 1 + (n - 1)], mem[q + 1..q + 1 + (n - 1)]))
  {
    assert mem[p..p + n][1..] == mem[p + 1..p + 1 + (n - 1)];
    assert mem[q..q + n][1..] == mem[q + 1..q + 1 + (n - 1)];
  }

  /** Comparing i pairs and then j more is comparing i + j pairs. */
  lemma {:induction false} DifferenceSplit(mem: seq<Byte>, p: nat, q: nat, i: nat, j: nat)
    requires p + i + j <= |mem| && q + i + j <= |mem|
    ensures Difference(mem, p, q, i + j)
         == if Difference(mem, p, q, i) != 0 then Difference(mem, p, q, i) else Difference(mem, p + i, q + i, j)
    decreases i
  {
    hide ByteDifference;
    hide SignOf;
    if i > 0 {
      ByteNonZero(mem[p], mem[q]);
      DifferenceSplit(mem, p + 1, q + 1, i - 1, j);
    }
  }

  lemma ByteNonZero(a: Byte, b: Byte)
    ensures ByteDifference(a, b) == 0 <==> a == b
  {
    hide ByteDifference;
    ByteDifferenceSign(a, b);
  }

  // ---------------------------------------------------------------- words

  /** A load through an `op_t *`: the address must be aligned. */
  function Fetch(mem: seq<Byte>, p: int): (w: Word)
    requires p % 8 == 0 && 0 <= p && p + 8 <= |mem|
  {
    Load(mem, p)
  }

  function WordDifference(a: Word, b: Word, i: nat): CInt
    requires i <= 8
    decreases 8 - i
  {
    if i == 8 then 0
    else if ByteAt(a, i) != ByteAt(b, i) then ByteDifference(ByteAt(a, i), ByteAt(b, i))
    else WordDifference(a, b, i + 1)
  }

  lemma {:induction false} WordDifferenceInMemory(mem: seq<Byte>, p: nat, q: nat, i: nat)
    requires i <= 8 && p + 8 <= |mem| && q + 8 <= |mem|
    ensures WordDifference(Load(mem, p), Load(mem, q), i) == Difference(mem, p + i, q + i, 8 - i)
    decreases 8 - i
  {
    hide ByteDifference;
    hide Load;
    hide ByteAt;
    if i < 8 {
      LoadedByte(mem, p, i);
      LoadedByte(mem, q, i);
      WordDifferenceInMemory(mem, p, q, i + 1);
    }
  }

  lemma {:induction false} EqualFrom(a: Word, b: Word, i: nat)
    requires i <= 8
    ensures WordDifference(a, b, i) == 0 <==> forall k: nat :: i <= k < 8 ==> ByteAt(a, k) == ByteAt(b, k)
    decreases 8 - i
  {
    hide ByteDifference;
    hide ByteAt;
    if i < 8 {
      ByteNonZero(ByteAt(a, i), ByteAt(b, i));
      EqualFrom(a, b, i + 1);
    }
  }

  lemma WordDifferenceZero(a: Word, b: Word)
    ensures WordDifference(a, b, 0) == 0 <==> a == b
  {
    hide *;
    EqualFrom(a, b, 0);
    WordsEqual(a, b);
  }

  /** Compare two words known to differ, byte by byte in memory order. */
  method MemcmpBytes(a: Word, b: Word) returns (r: CInt)
    requires a != b
    ensures r == WordDifference(a, b, 0)
  {
    hide ByteAt;
    hide ByteDifference;
    WordDifferenceZero(a, b);
    var src := 0;
    var a0, b0 := ByteAt(a, 0), ByteAt(b, 0);
    src := 1;
    while a0 == b0
      invariant 1 <= src <= 8
      invariant a0 == ByteAt(a, src - 1) && b0 == ByteAt(b, src - 1)
      invariant WordDifference(a, b, src - 1) == WordDifference(a, b, 0) != 0
      decreases 8 - src
    {
      a0, b0 := ByteAt(a, src), ByteAt(b, src);
      src := src + 1;
    }
    r := ByteDifference(a0, b0);
  }

  // ---------------------------------------------------------------- runs of words

  /** The first c words of the two runs are equal. */
  ghost predicate Agree(mem: seq<Byte>, s1: nat, s2: nat, c: nat) {
    && s1 + 8 * c <= |mem| && s2 + 8 * c <= |mem|
    && Difference(mem, s1, s2, 8 * c) == 0
  }

  /** x and y are word c of the two runs. */
  ghost predicate Pending(mem: seq<Byte>, s1: nat, s2: nat, c: nat, x: Word, y: Word) {
    && s1 + 8 * c + 8 <= |mem| && s2 + 8 * c + 8 <= |mem|
    && x == Load(mem, s1 + 8 * c) && y == Load(mem, s2 + 8 * c)
  }

  lemma PendingDifference(mem: seq<Byte>, s1: nat, s2: nat, c: nat, x: Word, y: Word)
    requires Agree(mem, s1, s2, c) && Pending(mem, s1, s2, c, x, y)
    ensures WordDifference(x, y, 0) == Difference(mem, s1, s2, 8 * c + 8)
  {
    hide Difference;
    hide WordDifference;
    hide Load;
    WordDifferenceInMemory(mem, s1 + 8 * c, s2 + 8 * c, 0);
    DifferenceSplit(mem, s1, s2, 8 * c, 8);
  }

  lemma WordAgrees(mem: seq<Byte>, s1: nat, s2: nat, c: nat, x: Word, y: Word)
    requires Agree(mem, s1, s2, c) && Pending(mem, s1, s2, c, x, y) && x == y
    ensures Agree(mem, s1, s2, c + 1)
  {
    hide Difference;
    hide WordDifference;
    hide Load;
    PendingDifference(mem, s1, s2, c, x, y);
    WordDifferenceZero(x, y);
    assert 8 * (c + 1) == 8 * c + 8;
  }

  lemma WordDecides(mem: seq<Byte>, s1: nat, s2: nat, n: nat, c: nat, x: Word, y: Word)
    requires s1 + 8 * n <= |mem| && s2 + 8 * n <= |mem| && c < n
    requires Agree(mem, s1, s2, c) && Pending(mem, s1, s2, c, x, y) && x != y
    ensures WordDifference(x, y, 0) == Difference(mem, s1, s2, 8 * n)
  {
    hide Difference;
    hide WordDifference;
    hide Load;
    PendingDifference(mem, s1, s2, c, x, y);
    WordDifferenceZero(x, y);
    DifferenceSplit(mem, s1, s2, 8 * c + 8, 8 * n - 8 * c - 8);
  }

  lemma AllAgree(mem: seq<Byte>, s1: nat, s2: nat, n: nat)
    requires Agree(mem, s1, s2, n)
    ensures Difference(mem, s1, s2, 8 * n) == 0
  {
  }

  /** Word c of two aligned runs of n words can be fetched. */
  lemma Fetched(mem: seq<Byte>, s1: nat, s2: nat, n: nat, c: nat, p: int, q: int)
    requires s1 % 8 == 0 && s2 % 8 == 0 && c < n
    requires s1 + 8 * n <= |mem| && s2 + 8 * n <= |mem|
    requires p == s1 + 8 * c && q == s2 + 8 * c
    ensures p % 8 == 0 && p + 8 <= |mem| && q % 8 == 0 && q + 8 <= |mem|
    ensures Pending(mem, s1, s2, c, Fetch(mem, p), Fetch(mem, q))
  {
    hide Load;
  }

  /** `if (x != y) return CMP_LT_OR_GT (x, y);` for word c of n. */
  method CompareWords(mem: seq<Byte>, s1: nat, s2: nat, n: nat, ghost c: nat, x: Word, y: Word)
    returns (decided: bool, r: CInt)
    requires s1 + 8 * n <= |mem| && s2 + 8 * n <= |mem| && c < n
    requires Agree(mem, s1, s2, c) && Pending(mem, s1, s2, c, x, y)
    ensures decided ==> r == Difference(mem, s1, s2, 8 * n)
    ensures !decided ==> Agree(mem, s1, s2, c + 1)
  {
    hide *;
    decided, r := x != y, 0;
    if decided {
      r := MemcmpBytes(x, y);
      WordDecides(mem, s1, s2, n, c, x, y);
    } else {
      WordAgrees(mem, s1, s2, c, x, y);
    }
  }

  // ---------------------------------------------------------------- equally aligned blocks

  /** One stage of the unrolled loop: fetch the next pair, element k of the two pointers, then compare word c. */
  method CommonStage(mem: seq<Byte>, s1: nat, s2: nat, n: nat, ghost c: nat, srcp1: int, srcp2: int, k: nat,
                     x: Word, y: Word)
    returns (decided: bool, r: CInt, nextX: Word, nextY: Word)
    requires s1 % 8 == 0 && s2 % 8 == 0 && c + 1 < n
    requires s1 + 8 * n <= |mem| && s2 + 8 * n <= |mem|
    requires srcp1 + 8 * k == s1 + 8 * (c + 1) && srcp2 + 8 * k == s2 + 8 * (c + 1)
    requires Agree(mem, s1, s2, c) && Pending(mem, s1, s2, c, x, y)
    ensures decided ==> r == Difference(mem, s1, s2, 8 * n)
    ensures !decided ==> Agree(mem, s1, s2, c + 1) && Pending(mem, s1, s2, c + 1, nextX, nextY)
  {
    hide *;
    Fetched(mem, s1, s2, n, c + 1, srcp1 + 8 * k, srcp2 + 8 * k);
    nextX, nextY := Fetch(mem, srcp1 + 8 * k), Fetch(mem, srcp2 + 8 * k);
    decided, r := CompareWords(mem, s1, s2, n, c, x, y);
  }

  /** The unrolled loop, entered at its head (0), `do3` (1), `do2` (2) or `do1` (3) with word 0 still to be compared. */
  method CommonLoop(mem: seq<Byte>, s1: nat, s2: nat, n: nat, p1: int, p2: int, wordsLeft: nat, entryPoint: nat,
                    x0: Word, x1: Word, y0: Word, y1: Word)
    returns (r: CInt)
    requires s1 % 8 == 0 && s2 % 8 == 0 && n > 0
    requires s1 + 8 * n <= |mem| && s2 + 8 * n <= |mem|
    requires entryPoint < 4 && wordsLeft == n - 1 + entryPoint && wordsLeft % 4 == 0
    requires p1 == s1 + 8 * (1 - entryPoint) && p2 == s2 + 8 * (1 - entryPoint)
    requires Agree(mem, s1, s2, 0)
    requires if entryPoint % 2 == 0 then Pending(mem, s1, s2, 0, x1, y1) else Pending(mem, s1, s2, 0, x0, y0)
    ensures r == Difference(mem, s1, s2, 8 * n)
  {
    hide *;
    var srcp1, srcp2, len, entry := p1, p2, wordsLeft, entryPoint;
    var a0, a1, b0, b1 := x0, x1, y0, y1;
    ghost var c := 0;
    var decided: bool;
    while len != 0
      invariant 0 <= entry < 4 && 0 <= c < n && 0 <= len == n - c - 1 + entry && len % 4 == 0
      invariant len == 0 ==> entry == 0
      invariant srcp1 == s1 + 8 * (c + 1 - entry) && srcp2 == s2 + 8 * (c + 1 - entry)
      invariant Agree(mem, s1, s2, c)
      invariant if entry % 2 == 0 then Pending(mem, s1, s2, c, a1, b1) else Pending(mem, s1, s2, c, a0, b0)
      decreases len
    {
      if entry == 0 {
        decided, r, a0, b0 := CommonStage(mem, s1, s2, n, c, srcp1, srcp2, 0, a1, b1);
        if decided { return; }
        c, entry := c + 1, 1;
      }
      if entry == 1 {
        decided, r, a1, b1 := CommonStage(mem, s1, s2, n, c, srcp1, srcp2, 1, a0, b0);
        if decided { return; }
        c, entry := c + 1, 2;
      }
      if entry == 2 {
        decided, r, a0, b0 := CommonStage(mem, s1, s2, n, c, srcp1, srcp2, 2, a1, b1);
        if decided { return; }
        c, entry := c + 1, 3;
      }
      decided, r, a1, b1 := CommonStage(mem, s1, s2, n, c, srcp1, srcp2, 3, a0, b0);
      if decided { return; }
      c, entry := c + 1, 0;
      srcp1, srcp2, len := srcp1 + 32, srcp2 + 32, len - 4;
    }
    decided, r := CompareWords(mem, s1, s2, n, c, a1, b1);
    if !decided {
      AllAgree(mem, s1, s2, n);
      r := 0;
    }
  }

  /** Compare n words at two aligned addresses. */
  method MemcmpCommonAlignment(mem: seq<Byte>, s1: nat, s2: nat, n: nat) returns (r: CInt)
    requires s1 % 8 == 0 && s2 % 8 == 0
    requires s1 + 8 * n <= |mem| && s2 + 8 * n <= |mem|
    ensures r == Difference(mem, s1, s2, 8 * n)
  {
    if n == 0 {
      return 0;
    }
    assert Agree(mem, s1, s2, 0);
    hide *;
    Fetched(mem, s1, s2, n, 0, s1, s2);
    var x, y := Fetch(mem, s1), Fetch(mem, s2);
    if n % 4 == 2 {
      r := CommonLoop(mem, s1, s2, n, s1 - 16, s2 - 16, n + 2, 3, x, 0, y, 0);
    } else if n % 4 == 3 {
      r := CommonLoop(mem, s1, s2, n, s1 - 8, s2 - 8, n + 1, 2, 0, x, 0, y);
    } else if n % 4 == 0 {
      r := CommonLoop(mem, s1, s2, n, s1, s2, n, 1, x, 0, y, 0);
    } else {
      r := CommonLoop(mem, s1, s2, n, s1 + 8, s2 + 8, n - 1, 0, 0, x, 0, y);
    }
  }

  // ---------------------------------------------------------------- differently aligned blocks

  /** lo and hi are the aligned words of which word c of the run at base + shift is made. */
  ghost predicate Straddled(mem: seq<Byte>, base: nat, c: nat, lo: Word, hi: Word) {
    && base + 8 * c + 16 <= |mem|
    && lo == Load(mem, base + 8 * c) && hi == Load(mem, base + 8 * c + 8)
  }

  /** y is word c of the run at s2. */
  ghost predicate Ready(mem: seq<Byte>, s2: nat, c: nat, y: Word) {
    s2 + 8 * c + 8 <= |mem| && y == Load(mem, s2 + 8 * c)
  }

  lemma StraddledWord(mem: seq<Byte>, base: nat, shift: nat, s2: nat, c: nat, lo: Word, hi: Word, y: Word)
    requires 1 <= shift < 8
    requires Straddled(mem, base, c, lo, hi) && Ready(mem, s2, c, y)
    ensures Pending(mem, base + shift, s2, c, Merge(lo, 8 * shift, hi, 64 - 8 * shift), y)
  {
    hide Load;
    hide Merge;
    MergeLoads(mem, base + 8 * c, shift);
  }

  /** The loads of one stage stay inside memory, because memory is made of whole words. */
  lemma FetchedAhead(mem: seq<Byte>, base: nat, shift: nat, s2: nat, n: nat, c: nat, lo: Word, hi: Word, p: int, q: int)
    requires base % 8 == 0 && 1 <= shift < 8 && s2 % 8 == 0 && |mem| % 8 == 0 && c + 1 < n
    requires base + shift + 8 * n <= |mem| && s2 + 8 * n <= |mem|
    requires Straddled(mem, base, c, lo, hi)
    requires p == base + 8 * c + 16 && q == s2 + 8 * c + 8
    ensures p % 8 == 0 && p + 8 <= |mem| && q % 8 == 0 && q + 8 <= |mem|
    ensures Straddled(mem, base, c + 1, hi, Fetch(mem, p)) && Ready(mem, s2, c + 1, Fetch(mem, q))
  {
    hide Load;
  }

  lemma FetchedFirst(mem: seq<Byte>, base: nat, shift: nat, s2: nat, n: nat)
    requires base % 8 == 0 && 1 <= shift < 8 && s2 % 8 == 0 && |mem| % 8 == 0 && n > 0
    requires base + shift + 8 * n <= |mem| && s2 + 8 * n <= |mem|
    ensures base + 16 <= |mem| && s2 + 8 <= |mem|
    ensures Straddled(mem, base, 0, Fetch(mem, base), Fetch(mem, base + 8)) && Ready(mem, s2, 0, Fetch(mem, s2))
  {
    hide Load;
  }

  /** One stage: fetch the next aligned word of each run, elements k of the two pointers, then merge and compare
      word c. */
  method ShiftedStage(mem: seq<Byte>, base: nat, shift: nat, s2: nat, n: nat, ghost c: nat,
                      srcp1: int, srcp2: int, k: nat, lo: Word, hi: Word, y: Word)
    returns (decided: bool, r: CInt, nextHi: Word, nextY: Word)
    requires base % 8 == 0 && 1 <= shift < 8 && s2 % 8 == 0 && |mem| % 8 == 0 && c + 1 < n
    requires base + shift + 8 * n <= |mem| && s2 + 8 * n <= |mem|
    requires srcp1 + 8 * k == base + 8 * (c + 2) && srcp2 + 8 * k == s2 + 8 * (c + 1)
    requires Agree(mem, base + shift, s2, c) && Straddled(mem, base, c, lo, hi) && Ready(mem, s2, c, y)
    ensures decided ==> r == Difference(mem, base + shift, s2, 8 * n)
    ensures !decided ==> && Agree(mem, base + shift, s2, c + 1)
                         && Straddled(mem, base, c + 1, hi, nextHi) && Ready(mem, s2, c + 1, nextY)
  {
    hide *;
    FetchedAhead(mem, base, shift, s2, n, c, lo, hi, srcp1 + 8 * k, srcp2 + 8 * k);
    nextHi, nextY := Fetch(mem, srcp1 + 8 * k), Fetch(mem, srcp2 + 8 * k);
    var x := Merge(lo, 8 * shift, hi, 64 - 8 * shift);
    StraddledWord(mem, base, shift, s2, c, lo, hi, y);
    decided, r := CompareWords(mem, base + shift, s2, n, c, x, y);
  }

  /** The unrolled loop, entered at its head (0), `do3` (1), `do2` (2) or `do1` (3) with word 0 still to be compared. */
  method ShiftedLoop(mem: seq<Byte>, base: nat, shift: nat, s2: nat, n: nat, p1: int, p2: int, wordsLeft: nat,
                     entryPoint: nat, a: (Word, Word, Word, Word), b: (Word, Word, Word, Word))
    returns (r: CInt)
    requires base % 8 == 0 && 1 <= shift < 8 && s2 % 8 == 0 && |mem| % 8 == 0 && n > 0
    requires base + shift + 8 * n <= |mem| && s2 + 8 * n <= |mem|
    requires entryPoint < 4 && wordsLeft == n - 1 + entryPoint && wordsLeft % 4 == 0
    requires p1 == base + 8 * (2 - entryPoint) && p2 == s2 + 8 * (1 - entryPoint)
    requires Agree(mem, base + shift, s2, 0)
    requires entryPoint == 0 ==> Straddled(mem, base, 0, a.2, a.3) && Ready(mem, s2, 0, b.3)
    requires entryPoint == 1 ==> Straddled(mem, base, 0, a.3, a.0) && Ready(mem, s2, 0, b.0)
    requires entryPoint == 2 ==> Straddled(mem, base, 0, a.0, a.1) && Ready(mem, s2, 0, b.1)
    requires entryPoint == 3 ==> Straddled(mem, base, 0, a.1, a.2) && Ready(mem, s2, 0, b.2)
    ensures r == Difference(mem, base + shift, s2, 8 * n)
  {
    hide *;
    var srcp1, srcp2, len, entry := p1, p2, wordsLeft, entryPoint;
    var a0, a1, a2, a3 := a.0, a.1, a.2, a.3;
    var b0, b1, b2, b3 := b.0, b.1, b.2, b.3;
    ghost var c := 0;
    var decided: bool;
    while len != 0
      invariant 0 <= entry < 4 && 0 <= c < n && 0 <= len == n - c - 1 + entry && len % 4 == 0
      invariant len == 0 ==> entry == 0
      invariant srcp1 == base + 8 * (c + 2 - entry) && srcp2 == s2 + 8 * (c + 1 - entry)
      invariant Agree(mem, base + shift, s2, c)
      invariant entry == 0 ==> Straddled(mem, base, c, a2, a3) && Ready(mem, s2, c, b3)
      invariant entry == 1 ==> Straddled(mem, base, c, a3, a0) && Ready(mem, s2, c, b0)
      invariant entry == 2 ==> Straddled(mem, base, c, a0, a1) && Ready(mem, s2, c, b1)
      invariant entry == 3 ==> Straddled(mem, base, c, a1, a2) && Ready(mem, s2, c, b2)
      decreases len
    {
      if entry == 0 {
        decided, r, a0, b0 := ShiftedStage(mem, base, shift, s2, n, c, srcp1, srcp2, 0, a2, a3, b3);
        if decided { return; }
        c, entry := c + 1, 1;
      }
      if entry == 1 {
        decided, r, a1, b1 := ShiftedStage(mem, base, shift, s2, n, c, srcp1, srcp2, 1, a3, a0, b0);
        if decided { return; }
        c, entry := c + 1, 2;
      }
      if entry == 2 {
        decided, r, a2, b2 := ShiftedStage(mem, base, shift, s2, n, c, srcp1, srcp2, 2, a0, a1, b1);
        if decided { return; }
        c, entry := c + 1, 3;
      }
      decided, r, a3, b3 := ShiftedStage(mem, base, shift, s2, n, c, srcp1, srcp2, 3, a1, a2, b2);
      if decided { return; }
      c, entry := c + 1, 0;
      srcp1, srcp2, len := srcp1 + 32, srcp2 + 32, len - 4;
    }
    StraddledWord(mem, base, shift, s2, c, a2, a3, b3);
    decided, r := CompareWords(mem, base + shift, s2, n, c, Merge(a2, 8 * shift, a3, 64 - 8 * shift), b3);
    if !decided {
      AllAgree(mem, base + shift, s2, n);
      r := 0;
    }
  }

  /** Compare n words at an unaligned and an aligned address. */
  method MemcmpNotCommonAlignment(mem: seq<Byte>, s1: nat, s2: nat, n: nat) returns (r: CInt)
    requires s1 % 8 != 0 && s2 % 8 == 0 && |mem| % 8 == 0
    requires s1 + 8 * n <= |mem| && s2 + 8 * n <= |mem|
    ensures r == Difference(mem, s1, s2, 8 * n)
  {
    if n == 0 {
      return 0;
    }
    assert Agree(mem, s1, s2, 0);
    hide Agree;
    hide Straddled;
    hide Ready;
    hide Difference;
    hide Fetch;
    var shift := s1 % 8;
    var base := s1 - shift;
    FetchedFirst(mem, base, shift, s2, n);
    var lo, hi, y := Fetch(mem, base), Fetch(mem, base + 8), Fetch(mem, s2);
    if n % 4 == 2 {
      r := ShiftedLoop(mem, base, shift, s2, n, base - 8, s2 - 16, n + 2, 3, (0, lo, hi, 0), (0, 0, y, 0));
    } else if n % 4 == 3 {
      r := ShiftedLoop(mem, base, shift, s2, n, base, s2 - 8, n + 1, 2, (lo, hi, 0, 0), (0, y, 0, 0));
    } else if n % 4 == 0 {
      r := ShiftedLoop(mem, base, shift, s2, n, base + 8, s2, n, 1, (hi, 0, 0, lo), (y, 0, 0, 0));
    } else {
      r := ShiftedLoop(mem, base, shift, s2, n, base + 16, s2 + 8, n - 1, 0, (0, 0, lo, hi), (0, 0, 0, y));
    }
  }

  // ---------------------------------------------------------------- the whole comparison

  /** The first i pairs agree, so what is left decides. */
  lemma Advance(mem: seq<Byte>, s1: nat, s2: nat, len: nat, i: nat, j: nat)
    requires s1 + len <= |mem| && s2 + len <= |mem| && i + j <= len
    requires Difference(mem, s1, s2, i) == 0
    ensures Difference(mem, s1, s2, i + j) == Difference(mem, s1 + i, s2 + i, j)
  {
    hide Difference;
    DifferenceSplit(mem, s1, s2, i, j);
  }

  lemma ByteDecides(mem: seq<Byte>, s1: nat, s2: nat, len: nat, i: nat)
    requires s1 + len <= |mem| && s2 + len <= |mem| && i < len
    requires Difference(mem, s1, s2, i) == 0
    ensures var res := SubtractBytes(mem[s1 + i], mem[s2 + i]);
            if res != 0 then ToInt(res) == Difference(mem, s1, s2, len) else Difference(mem, s1, s2, i + 1) == 0
  {
    hide SubtractBytes;
    hide ToInt;
    hide SignOf;
    ByteDifferenceSign(mem[s1 + i], mem[s2 + i]);
    ByteNonZero(mem[s1 + i], mem[s2 + i]);
    DifferenceSplit(mem, s1, s2, i, 1);
    DifferenceSplit(mem, s1, s2, i, len - i);
  }

  /** `res = a0 - b0; if (res != 0) return res;` for byte i of len. */
  method CompareBytes(mem: seq<Byte>, s1: nat, s2: nat, len: nat, i: nat) returns (decided: bool, r: CInt)
    requires s1 + len <= |mem| && s2 + len <= |mem| && i < len
    requires Difference(mem, s1, s2, i) == 0
    ensures decided ==> r == Difference(mem, s1, s2, len)
    ensures !decided ==> Difference(mem, s1, s2, i + 1) == 0
  {
    hide *;
    ByteDecides(mem, s1, s2, len, i);
    var res := SubtractBytes(mem[s1 + i], mem[s2 + i]);
    decided, r := res != 0, ToInt(res);
  }

  lemma Nothing(mem: seq<Byte>, s1: nat, s2: nat)
    requires s1 <= |mem| && s2 <= |mem|
    ensures Difference(mem, s1, s2, 0) == 0
  {
  }

  lemma Meaning(mem: seq<Byte>, s1: nat, s2: nat, n: nat)
    requires s1 + n <= |mem| && s2 + n <= |mem|
    ensures SignOf(Difference(mem, s1, s2, n)) == Lexicographic(mem[s1..s1 + n], mem[s2..s2 + n])
    ensures Difference(mem, s1, s2, n) == 0 <==> mem[s1..s1 + n] == mem[s2..s2 + n]
  {
    hide Difference;
    DifferenceIsLexicographic(mem, s1, s2, n);
  }

  /** The whole words of len bytes, with the result kept in an `op_t` on the way. */
  method CompareWholeWords(mem: seq<Byte>, s1: nat, s2: nat, len: nat) returns (decided: bool, r: CInt)
    requires |mem| % 8 == 0 && s2 % 8 == 0
    requires s1 + len <= |mem| && s2 + len <= |mem|
    ensures decided ==> r == Difference(mem, s1, s2, len)
    ensures !decided ==> Difference(mem, s1, s2, len - len % 8) == 0
  {
    hide *;
    if s1 % 8 == 0 {
      r := MemcmpCommonAlignment(mem, s1, s2, len / 8);
    } else {
      r := MemcmpNotCommonAlignment(mem, s1, s2, len / 8);
    }
    assert 8 * (len / 8) == len - len % 8;
    DifferenceSplit(mem, s1, s2, len - len % 8, len % 8);
    IntThroughWord(r);
    var res := ToWord(r);
    decided, r := res != 0, ToInt(res);
  }

  /** Compare bytes until the second block is aligned; sixteen bytes are enough to get there. */
  method CompareUntilAligned(mem: seq<Byte>, s1: nat, s2: nat, n: nat)
    returns (decided: bool, r: CInt, srcp1: nat, srcp2: nat, len: nat)
    requires s1 + n <= |mem| && s2 + n <= |mem| && n >= 16
    ensures decided ==> r == Difference(mem, s1, s2, n)
    ensures !decided ==> && srcp2 % 8 == 0 && len <= n && srcp1 == s1 + n - len && srcp2 == s2 + n - len
                         && Difference(mem, s1, s2, n - len) == 0
  {
    hide *;
    Nothing(mem, s1, s2);
    srcp1, srcp2, len := s1, s2, n;
    ghost var rest := (8 - s2 % 8) % 8;
    while srcp2 % 8 != 0
      invariant 0 <= n - len <= rest && srcp1 == s1 + n - len && srcp2 == s2 + n - len
      invariant Difference(mem, s1, s2, n - len) == 0
      decreases len
    {
      decided, r := CompareBytes(mem, s1, s2, n, n - len);
      if decided { return; }
      srcp1, srcp2, len := srcp1 + 1, srcp2 + 1, len - 1;
    }
    decided, r := false, 0;
  }

  /** memcmp: the sign of the result is the lexicographic order of the two blocks. */
  method Memcmp(mem: seq<Byte>, s1: nat, s2: nat, n: nat) returns (r: CInt)
    requires |mem| % 8 == 0
    requires s1 + n <= |mem| && s2 + n <= |mem|
    ensures r == Difference(mem, s1, s2, n)
    ensures SignOf(r) == Lexicographic(mem[s1..s1 + n], mem[s2..s2 + n])
    ensures r == 0 <==> mem[s1..s1 + n] == mem[s2..s2 + n]
  {
    hide *;
    Meaning(mem, s1, s2, n);
    Nothing(mem, s1, s2);
    var srcp1, srcp2, len := s1, s2, n;
    var decided: bool;
    if len >= 16 {
      decided, r, srcp1, srcp2, len := CompareUntilAligned(mem, s1, s2, n);
      if decided { return; }
      var whole := len - len % 8;
      Advance(mem, s1, s2, n, n - len, len);
      Advance(mem, s1, s2, n, n - len, whole);
      decided, r := CompareWholeWords(mem, srcp1, srcp2, len);
      if decided { return; }
      srcp1, srcp2, len := srcp1 + whole, srcp2 + whole, len % 8;
    }
    while len != 0
      invariant 0 <= len <= n && srcp1 == s1 + n - len && srcp2 == s2 + n - len
      invariant Difference(mem, s1, s2, n - len) == 0
      decreases len
    {
      decided, r := CompareBytes(mem, s1, s2, n, n - len);
      if decided { return; }
      srcp1, srcp2, len := srcp1 + 1, srcp2 + 1, len - 1;
    }
    r := 0;
  }
}
