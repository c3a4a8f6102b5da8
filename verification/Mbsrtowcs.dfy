/** The two passes of libgnu/mbsrtowcs-impl.h: converting a null-terminated string, and counting its characters. */
module Mbsrtowcs {
  import opened Utf8
  import opened Mbrtowc

  datatype Result = Count(n: nat) | IllegalSequence

  datatype Pointer = Null | At(i: nat)

  /** The string at src ends with the null byte at e. */
  predicate StringAt(mem: seq<Byte>, src: nat, e: nat) {
    src <= e < |mem| && mem[e] == 0 && forall i :: src <= i < e ==> mem[i] != 0
  }

  /** The characters a string holds before its null character, or before its first invalid sequence. */
  function CharsBefore(d: Decoded): (k: int) {
    if d.rest == [] then |d.chars| - 1 else |d.chars|
  }

  // ---------------------------------------------------------------- the bytes offered to mbrtowc

  /** strnlen1: the length of the string including its null byte, but at most maxlen. */
  method Strnlen1(mem: seq<Byte>, p: nat, maxlen: nat, ghost e: nat) returns (n: nat)
    requires StringAt(mem, p, e)
    ensures n == if e - p < maxlen then e - p + 1 else maxlen
  {
    n := 0;
    while n < maxlen
      invariant n <= maxlen && p + n <= e
    {
      if mem[p + n] == 0 {
        return n + 1;
      }
      n := n + 1;
    }
  }

  /** Lines 35-46: at least four bytes, or all bytes up to and including the null byte. */
  method SourceAvailable(mem: seq<Byte>, src: nat, mbLenMax: nat, ghost e: nat) returns (avail: nat)
    requires StringAt(mem, src, e)
    ensures 1 <= avail && src + avail <= e + 1
    ensures avail >= 4 || src + avail == e + 1
  {
    if mem[src] == 0 {
      avail := 1;
    } else if mem[src + 1] == 0 {
      avail := 2;
    } else if mem[src + 2] == 0 {
      avail := 3;
    } else if mbLenMax <= 4 || mem[src + 3] == 0 {
      avail := 4;
    } else {
      avail := Strnlen1(mem, src + 4, mbLenMax - 4, e);
      avail := avail + 4;
    }
  }

  // ---------------------------------------------------------------- one character

  /** The bytes offered decide as the whole rest of the string would, and they are never too few. */
  lemma AvailableDecides(saved: seq<Byte>, mem: seq<Byte>, i: nat, avail: nat, e: nat)
    requires StringAt(mem, i, e) && ProperPrefix(saved)
    requires i + avail <= e + 1 && (avail >= 4 || i + avail == e + 1)
    ensures var x, y := saved + mem[i..i + avail], saved + mem[i..e + 1];
            && Head(x) == Head(y) && x[..Head(x)] == y[..Head(y)] && !ProperPrefix(x)
  {
    hide WellFormed;
    hide Head;
    hide ProperPrefix;
    var x, y := saved + mem[i..i + avail], saved + mem[i..e + 1];
    assert x == y[..|x|];
    FourDecide(y, |x|);
    assert i + avail == e + 1 ==> x[|x| - 1] == 0;
    if ProperPrefix(x) {
      ProperPrefixFacts(x);
    }
    assert x[..Head(x)] == y[..Head(y)];
  }

  /** A character of the string is its null character exactly when it ends with the null byte. */
  lemma CharacterEnds(saved: seq<Byte>, mem: seq<Byte>, i: nat, e: nat)
    requires StringAt(mem, i, e) && ProperPrefix(saved)
    requires Head(saved + mem[i..e + 1]) > 0
    ensures var y := saved + mem[i..e + 1];
            var k, c := Head(y), Scalar(y[..Head(y)]);
            && k > |saved|
            && (c == 0 ==> saved == [] && i == e && k == 1)
            && (c != 0 ==> i + (k - |saved|) <= e && y[k..] == mem[i + (k - |saved|)..e + 1])
  {
    hide WellFormed;
    hide Head;
    hide ProperPrefix;
    hide Scalar;
    var y := saved + mem[i..e + 1];
    var k := Head(y);
    CompletedBeyondSaved(saved, mem[i..e + 1]);
    NullIsOneByte(y[..k]);
    WellFormedLength(y[..k]);
    assert y[..k][k - 1] == y[k - 1] && y[|y| - 1] == mem[e];
    assert forall t :: |saved| <= t < |y| ==> y[t] == mem[i + t - |saved|];
    if Scalar(y[..k]) != 0 {
      assert y[k..] == mem[i + (k - |saved|)..e + 1];
    }
  }

  /** The string from i, behind the bytes saved, decodes to d. */
  ghost predicate Left(saved: seq<Byte>, mem: seq<Byte>, i: nat, e: nat, d: Decoded) {
    StringAt(mem, i, e) && ProperPrefix(saved) && Decode(saved + mem[i..e + 1]) == d
  }

  lemma LeftHasNull(saved: seq<Byte>, mem: seq<Byte>, i: nat, e: nat, d: Decoded)
    requires Left(saved, mem, i, e, d) && d.rest == []
    ensures d.chars != []
  {
    hide Head;
    hide ProperPrefix;
    assert |saved + mem[i..e + 1]| > 0;
  }

  /** One call of mbrtowc, seen on the rest of the string. It never answers that bytes are missing. */
  lemma OneCharacter(saved: seq<Byte>, mem: seq<Byte>, i: nat, avail: nat, e: nat, d: Decoded,
                     pwcNull: bool, ret: Ret, stored: Stored, saved': seq<Byte>)
    requires Left(saved, mem, i, e, d)
    requires 1 <= avail && i + avail <= e + 1 && (avail >= 4 || i + avail == e + 1)
    requires Outcome(saved, mem[i..i + avail], pwcNull, ret, stored, saved')
    ensures match ret
            case Incomplete => false
            case Illegal => d.chars == [] && d.rest != [] && saved' == saved
            case Converted(n) =>
              && d.chars != [] && stored == (if pwcNull then Nothing else Wide(d.chars[0])) && saved' == []
              && if n == 0 then d == Decoded([0], [])
                 else i + n <= e && Left([], mem, i + n, e, Decoded(d.chars[1..], d.rest))
  {
    hide Head;
    hide ProperPrefix;
    hide WellFormed;
    hide Scalar;
    hide Decode;
    var y := saved + mem[i..e + 1];
    AvailableDecides(saved, mem, i, avail, e);
    if Head(y) == 0 {
      DecodeNone(y);
    } else {
      DecodeOne(y);
      CharacterEnds(saved, mem, i, e);
      var c, n := Scalar(y[..Head(y)]), Head(y) - |saved|;
      if c == 0 {
        assert y[1..] == [];
        HeadOfNothing();
        DecodeNone([]);
      } else {
        NothingSaved();
        assert y[Head(y)..] == [] + mem[i + n..e + 1];
      }
    }
  }

  /** The first j characters of d have been read; the string from i holds the others. */
  ghost predicate Reached(saved: seq<Byte>, mem: seq<Byte>, i: nat, e: nat, d: Decoded, j: nat) {
    j <= |d.chars| && Left(saved, mem, i, e, Decoded(d.chars[j..], d.rest))
  }

  lemma ReachedHasNull(saved: seq<Byte>, mem: seq<Byte>, i: nat, e: nat, d: Decoded, j: nat)
    requires Reached(saved, mem, i, e, d, j)
    ensures d.rest == [] ==> j < |d.chars|
  {
    hide Left;
    if d.rest == [] {
      LeftHasNull(saved, mem, i, e, Decoded(d.chars[j..], d.rest));
    }
  }

  /** Lines 35-56, and again 82-101: offer the bytes available to mbrtowc. */
  method NextCharacter(mem: seq<Byte>, i: nat, pstate: array<Byte>, pwcNull: bool, mbLenMax: nat, mbCurMax: nat,
                       ghost e: nat, ghost d: Decoded, ghost j: nat)
    returns (ret: Ret, stored: Stored)
    requires mbLenMax >= 4 && mbCurMax >= 4
    requires Valid(pstate) && Reached(Saved(pstate), mem, i, e, d, j)
    modifies pstate
    ensures pstate[0] <= 3 && Valid(pstate)
    ensures match ret
            case Incomplete => false
            case Illegal => j == |d.chars| && d.rest != [] && Saved(pstate) == old(Saved(pstate))
            case Converted(n) =>
              && j < |d.chars| && stored == (if pwcNull then Nothing else Wide(d.chars[j])) && Saved(pstate) == []
              && if n == 0 then d.chars[j] == 0 && j + 1 == |d.chars| && d.rest == []
                 else i + n <= e && Reached([], mem, i + n, e, d, j + 1)
  {
    hide Head;
    hide Decode;
    hide ProperPrefix;
    hide Outcome;
    ghost var saved, now := Saved(pstate), Decoded(d.chars[j..], d.rest);
    var avail := SourceAvailable(mem, i, mbLenMax, e);
    ret, stored := Mbrtowc.Mbrtowc(pstate, pwcNull, false, mem[i..i + avail], mbCurMax);
    OneCharacter(saved, mem, i, avail, e, now, pwcNull, ret, stored, Saved(pstate));
    // `if (ret == (size_t)(-2)) abort ();`
    assert ret != Incomplete;
    if ret.Converted? && ret.n == 0 {
      assert d.chars[j] == now.chars[0] && |now.chars| == |d.chars| - j;
    }
  }

  // ---------------------------------------------------------------- the two passes

  /** How many wide characters are stored: the null character is stored if there is room, and not counted. */
  function StoredCount(d: Decoded, len: nat): (n: int) {
    var k := CharsBefore(d);
    if len <= k then len else if d.rest == [] then k + 1 else k
  }

  /** The result of converting a string that decodes to d, with room for len wide characters. */
  ghost predicate Conversion(d: Decoded, len: nat, before: seq<int>, after: seq<int>, r: Result) {
    var k, n := CharsBefore(d), StoredCount(d, len);
    && 0 <= k && 0 <= n <= |d.chars| && n <= |before|
    && (len > k && d.rest == [] ==> d.chars[k] == 0)
    && after == d.chars[..n] + before[n..]
    && r == (if len <= k then Count(len) else if d.rest == [] then Count(k) else IllegalSequence)
  }

  lemma StoreOne(chars: seq<int>, before: seq<int>, j: nat)
    requires j < |chars| && j < |before|
    ensures (chars[..j] + before[j..])[j := chars[j]] == chars[..j + 1] + before[j + 1..]
  {
  }

  lemma Ended(d: Decoded, len: nat, before: seq<int>, after: seq<int>, j: nat)
    requires j < len <= |before| && j <= |d.chars|
    ensures j + 1 == |d.chars| && d.chars[j] == 0 && d.rest == [] && after == d.chars[..j + 1] + before[j + 1..] ==>
      CharsBefore(d) == j && StoredCount(d, len) == j + 1 && Conversion(d, len, before, after, Count(j))
    ensures j == |d.chars| && d.rest != [] && after == d.chars[..j] + before[j..] ==>
      CharsBefore(d) == j == StoredCount(d, len) && Conversion(d, len, before, after, IllegalSequence)
  {
  }

  lemma Full(d: Decoded, len: nat, before: seq<int>, after: seq<int>)
    requires len <= |before| && len <= |d.chars| && after == d.chars[..len] + before[len..]
    requires d.rest == [] ==> len < |d.chars|
    ensures CharsBefore(d) >= len == StoredCount(d, len) && Conversion(d, len, before, after, Count(len))
  {
  }

  /** Why the loop of the converting pass ends. */
  datatype Stop = NoRoom | NullStored | BadInput

  /** The loop, lines 30-65. */
  method ConvertLoop(dest: array<int>, len: nat, mem: seq<Byte>, srcp: nat, pstate: array<Byte>,
                     mbLenMax: nat, mbCurMax: nat, ghost e: nat, ghost d: Decoded)
    returns (stop: Stop, i: nat, j: nat)
    requires len <= dest.Length && mbLenMax >= 4 && mbCurMax >= 4
    requires pstate.Length == 4 && pstate[0] <= 3 && Valid(pstate) && Reached(Saved(pstate), mem, srcp, e, d, 0)
    modifies dest, pstate
    ensures pstate[0] <= 3 && Valid(pstate) && srcp <= i
    ensures j <= len && j + (if stop == NullStored then 1 else 0) <= |d.chars|
    ensures stop != NullStored ==> dest[..] == d.chars[..j] + old(dest[..])[j..] && Reached(Saved(pstate), mem, i, e, d, j)
    ensures stop == NoRoom ==> j == len
    ensures stop == BadInput ==> j < len && j == |d.chars| && d.rest != []
    ensures stop == NullStored ==>
      && j < len && j + 1 == |d.chars| && d.chars[j] == 0 && d.rest == [] && Saved(pstate) == []
      && dest[..] == d.chars[..j + 1] + old(dest[..])[j + 1..]
  {
    hide *;
    ghost var before := dest[..];
    i, j := srcp, 0;
    while j < len
      invariant j <= len && srcp <= i && j <= |d.chars|
      invariant pstate[0] <= 3 && Valid(pstate) && Reached(Saved(pstate), mem, i, e, d, j)
      invariant dest[..] == d.chars[..j] + before[j..]
    {
      var ret, stored := NextCharacter(mem, i, pstate, false, mbLenMax, mbCurMax, e, d, j);
      if ret == Illegal {
        return BadInput, i, j;
      }
      StoreOne(d.chars, before, j);
      dest[j] := stored.c;
      if ret.n == 0 {
        return NullStored, i, j;
      }
      i, j := i + ret.n, j + 1;
    }
    return NoRoom, i, j;
  }

  /** The converting pass, `dest` not NULL. */
  method Convert(dest: array<int>, len: nat, mem: seq<Byte>, srcp: nat, pstate: array<Byte>,
                 mbLenMax: nat, mbCurMax: nat, ghost e: nat)
    returns (r: Result, src: Pointer)
    requires len <= dest.Length && mbLenMax >= 4 && mbCurMax >= 4
    requires StringAt(mem, srcp, e) && Valid(pstate)
    modifies dest, pstate
    ensures Valid(pstate)
    ensures var d := Decode(old(Saved(pstate)) + mem[srcp..e + 1]);
            && Conversion(d, len, old(dest[..]), dest[..], r)
            && match src
               case Null => len > CharsBefore(d) && d.rest == [] && Saved(pstate) == []
               case At(i) =>
                 && srcp <= i && (len <= CharsBefore(d) || d.rest != [])
                 && 0 <= StoredCount(d, len) && Reached(Saved(pstate), mem, i, e, d, StoredCount(d, len))
  {
    ghost var d := Decode(Saved(pstate) + mem[srcp..e + 1]);
    ghost var before := dest[..];
    assert d.chars[0..] == d.chars;
    assert Reached(Saved(pstate), mem, srcp, e, d, 0);
    hide *;
    var stop, i, j := ConvertLoop(dest, len, mem, srcp, pstate, mbLenMax, mbCurMax, e, d);
    match stop {
      case NullStored =>
        Ended(d, len, before, dest[..], j);
        return Count(j), Null;
      case BadInput =>
        Ended(d, len, before, dest[..], j);
        return IllegalSequence, At(i);
      case NoRoom =>
        ReachedHasNull(Saved(pstate), mem, i, e, d, j);
        Full(d, len, before, dest[..]);
        return Count(j), At(i);
    }
  }

  lemma Counted(d: Decoded, j: nat)
    ensures j + 1 == |d.chars| && d.rest == [] ==> CharsBefore(d) == j
    ensures j == |d.chars| && d.rest != [] ==> CharsBefore(d) == j
  {
  }

  /** `mbstate_t state = *ps;` */
  method CopyState(pstate: array<Byte>) returns (state: array<Byte>)
    requires Valid(pstate)
    ensures fresh(state) && Valid(state) && Saved(state) == Saved(pstate)
  {
    hide ProperPrefix;
    state := new Byte[4];
    state[0], state[1], state[2], state[3] := pstate[0], pstate[1], pstate[2], pstate[3];
    assert Saved(state) == Saved(pstate);
  }

  /** The loop of the counting pass, lines 77-111. */
  method CountLoop(mem: seq<Byte>, srcp: nat, state: array<Byte>, mbLenMax: nat, mbCurMax: nat, ghost e: nat,
                   ghost d: Decoded)
    returns (r: Result)
    requires mbLenMax >= 4 && mbCurMax >= 4 && srcp <= e
    requires state.Length == 4 && state[0] <= 3 && Valid(state) && Reached(Saved(state), mem, srcp, e, d, 0)
    modifies state
    ensures 0 <= CharsBefore(d)
    ensures r == if d.rest == [] then Count(CharsBefore(d)) else IllegalSequence
  {
    hide *;
    var i, totalcount := srcp, 0;
    while true
      invariant 0 <= totalcount && i <= e
      invariant state[0] <= 3 && Valid(state) && Reached(Saved(state), mem, i, e, d, totalcount)
      decreases e - i
    {
      var ret, stored := NextCharacter(mem, i, state, true, mbLenMax, mbCurMax, e, d, totalcount);
      if ret == Illegal {
        Counted(d, totalcount);
        return IllegalSequence;
      }
      if ret.n == 0 {
        Counted(d, totalcount);
        return Count(totalcount);
      }
      i := i + ret.n;
      totalcount := totalcount + 1;
    }
  }

  /** The counting pass, `dest` NULL: it leaves the conversion state alone. */
  method CountChars(mem: seq<Byte>, srcp: nat, pstate: array<Byte>, mbLenMax: nat, mbCurMax: nat, ghost e: nat)
    returns (r: Result)
    requires mbLenMax >= 4 && mbCurMax >= 4
    requires StringAt(mem, srcp, e) && Valid(pstate)
    ensures var d := Decode(Saved(pstate) + mem[srcp..e + 1]);
            && 0 <= CharsBefore(d)
            && r == if d.rest == [] then Count(CharsBefore(d)) else IllegalSequence
  {
    ghost var d := Decode(Saved(pstate) + mem[srcp..e + 1]);
    var state := CopyState(pstate);
    assert d.chars[0..] == d.chars;
    assert Reached(Saved(state), mem, srcp, e, d, 0);
    hide Decode;
    hide Reached;
    r := CountLoop(mem, srcp, state, mbLenMax, mbCurMax, e, d);
  }

  /** The usual two calls: count, allocate one more than the count, convert. All characters arrive, then the null. */
  method CountThenConvert(mem: seq<Byte>, srcp: nat, pstate: array<Byte>, mbLenMax: nat, mbCurMax: nat, ghost e: nat)
    returns (counted: Result, converted: Result, dest: array<int>)
    requires mbLenMax >= 4 && mbCurMax >= 4
    requires StringAt(mem, srcp, e) && Valid(pstate)
    modifies pstate
    ensures var d := Decode(old(Saved(pstate)) + mem[srcp..e + 1]);
            if d.rest == [] then counted.Count? && counted.n + 1 == dest.Length && converted == counted && dest[..] == d.chars
            else counted == IllegalSequence
  {
    counted := CountChars(mem, srcp, pstate, mbLenMax, mbCurMax, e);
    hide Decode;
    if counted == IllegalSequence {
      dest := new int[0];
      converted := IllegalSequence;
    } else {
      dest := new int[counted.n + 1];
      var src;
      converted, src := Convert(dest, dest.Length, mem, srcp, pstate, mbLenMax, mbCurMax, e);
      assert dest[..] == dest[..dest.Length];
    }
  }
}
