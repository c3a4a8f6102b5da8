/** The restartable decoder of libgnu/mbrtowc.c in a UTF-8 locale. The state is four bytes: a count and the bytes
    of a character begun but not finished. The system's `mbtowc` is taken to be a UTF-8 decoder. */
module Mbrtowc {
  import opened Utf8

  /** `(size_t)(-2)` is Incomplete and `(size_t)(-1)` is Illegal. */
  datatype Ret = Converted(n: nat) | Incomplete | Illegal

  datatype Stored = Nothing | Wide(c: int)

  function Saved(pstate: array<Byte>): (s: seq<Byte>)
    requires pstate.Length == 4 && pstate[0] <= 3
    reads pstate
  {
    pstate[1..1 + pstate[0]]
  }

  /** What every call keeps: the bytes saved can still become a character. */
  ghost predicate Valid(pstate: array<Byte>)
    reads pstate
  {
    pstate.Length == 4 && pstate[0] <= 3 && ProperPrefix(Saved(pstate))
  }

  // ---------------------------------------------------------------- what a call does

  /** The system function: the length of the character at p, 0 for a null character, or -1. */
  function SystemMbtowc(p: seq<Byte>): (res: int) {
    if Head(p) == 0 then -1 else if Scalar(p[..Head(p)]) == 0 then 0 else Head(p)
  }

  function ByteXor80(c: int): int {
    if c < 0x80 then c + 0x80 else c - 0x80
  }

  /** The built-in knowledge of UTF-8 that tells an unfinished character from an invalid one. */
  predicate TooFew(p: seq<Byte>)
    requires 0 < |p| < 4
  {
    var c := p[0];
    c >= 0xc2
    && if c < 0xe0 then |p| == 1
       else if c < 0xf0 then
         || |p| == 1
         || (|p| == 2
             && ByteXor80(p[1]) < 0x40 && (c >= 0xe1 || p[1] >= 0xa0) && (c != 0xed || p[1] < 0xa0))
       else if c <= 0xf4 then
         || |p| == 1
         || (&& ByteXor80(p[1]) < 0x40
             && (c >= 0xf1 || p[1] >= 0x90)
             && (c < 0xf4 || (c == 0xf4 && p[1] < 0x90))
             && (|p| == 2 || ByteXor80(p[2]) < 0x40))
       else false
  }

  /** A character that starts with p, if p is accepted. */
  function Completion(p: seq<Byte>): (w: seq<Byte>)
    requires 0 < |p| < 4
  {
    if p[0] < 0xe0 then p + [0x80]
    else if p[0] < 0xf0 then
      if |p| == 1 then p + [if p[0] == 0xe0 then 0xa0 else 0x80, 0x80] else p + [0x80]
    else if |p| == 1 then p + [if p[0] == 0xf0 then 0x90 else 0x80, 0x80, 0x80]
    else if |p| == 2 then p + [0x80, 0x80]
    else p + [0x80]
  }

  lemma TooFewCompletes(p: seq<Byte>)
    requires 0 < |p| < 4 && TooFew(p)
    ensures ProperPrefix(p)
  {
    var w := Completion(p);
    assert WellFormed(w);
    assert p < w;
  }

  lemma PrefixIsTooFew(p: seq<Byte>, w: seq<Byte>)
    requires 0 < |p| < 4 && WellFormed(w) && p < w
    ensures TooFew(p)
  {
    assert forall i :: 0 <= i < |p| ==> p[i] == w[i];
  }

  /** The branches of the source accept exactly the beginnings of characters. */
  lemma TooFewIff(p: seq<Byte>)
    requires 0 < |p| < 4
    ensures TooFew(p) <==> ProperPrefix(p)
  {
    hide WellFormed;
    hide TooFew;
    if TooFew(p) {
      TooFewCompletes(p);
    }
    if ProperPrefix(p) {
      var w: seq<Byte> :| WellFormed(w) && p < w;
      PrefixIsTooFew(p, w);
    }
  }

  /** Only the single null byte is the null character. */
  lemma NullIsOneByte(s: seq<Byte>)
    requires WellFormed(s)
    ensures Scalar(s) == 0 <==> s[0] == 0
    ensures s[0] == 0 ==> |s| == 1
  {
  }

  /** Four bytes decide. */
  lemma FourDecide(x: seq<Byte>, m: nat)
    requires m <= |x| && (m >= 4 || m == |x|)
    ensures Head(x[..m]) == Head(x)
    ensures m >= 4 ==> !ProperPrefix(x)
    ensures m < 4 ==> x[..m] == x
  {
    hide WellFormed;
    hide Head;
    if Head(x) > 0 {
      assert x[..m][..Head(x)] == x[..Head(x)];
      HeadIs(x[..m], Head(x));
    }
    if Head(x[..m]) > 0 {
      assert x[..m][..Head(x[..m])] == x[..Head(x[..m])];
      HeadIs(x, Head(x[..m]));
    }
    if ProperPrefix(x) {
      ProperPrefixFacts(x);
    }
  }

  /** A character completed by new bytes ends among them, and it is not null. */
  lemma CompletedBeyondSaved(saved: seq<Byte>, s: seq<Byte>)
    requires ProperPrefix(saved) && Head(saved + s) > 0
    ensures Head(saved + s) > |saved|
    ensures saved != [] ==> Scalar((saved + s)[..Head(saved + s)]) != 0
  {
    hide WellFormed;
    hide Head;
    hide Scalar;
    var x := saved + s;
    var k := Head(x);
    ProperPrefixFacts(saved);
    if k <= |saved| {
      assert saved[..k] == x[..k];
      HeadIs(saved, k);
      assert false;
    }
    NullIsOneByte(x[..k]);
    if saved != [] {
      assert x[..k][0] == saved[0];
    }
  }

  /** What the buffer p shows is true of all the bytes x. */
  lemma BufferDecides(saved: seq<Byte>, s: seq<Byte>, p: seq<Byte>)
    requires ProperPrefix(saved) && |s| > 0 && p <= saved + s && p != []
    requires |p| >= 4 || p == saved + s
    ensures var x := saved + s;
            && Head(p) == Head(x) && p[..Head(p)] == x[..Head(x)]
            && if Head(x) > 0 then
                 && Head(x) > |saved|
                 && (Scalar(x[..Head(x)]) == 0 ==> saved == [])
               else
                 (|p| >= 4 ==> !ProperPrefix(x)) && (|p| < 4 ==> (TooFew(p) <==> ProperPrefix(x)))
  {
    hide WellFormed;
    hide Head;
    hide Scalar;
    hide ProperPrefix;
    hide TooFew;
    var x := saved + s;
    assert p == x[..|p|];
    FourDecide(x, |p|);
    assert p[..Head(p)] == x[..Head(x)];
    if Head(x) > 0 {
      CompletedBeyondSaved(saved, s);
    } else if |p| < 4 {
      TooFewIff(p);
    }
  }

  /** What a call with the bytes s does: one step of decoding the saved bytes followed by s. */
  ghost predicate Outcome(saved: seq<Byte>, s: seq<Byte>, pwcNull: bool, ret: Ret, stored: Stored, saved': seq<Byte>) {
    var x := saved + s;
    if s == [] then ret == Incomplete && stored == Nothing && saved' == saved
    else if Head(x) > 0 then
      var c := Scalar(x[..Head(x)]);
      && ret.Converted? && ret.n == (if c == 0 then 0 else Head(x) - |saved|)
      && stored == (if pwcNull then Nothing else Wide(c))
      && saved' == []
    else if ProperPrefix(x) then ret == Incomplete && stored == Nothing && saved' == x
    else ret == Illegal && stored == Nothing && saved' == saved
  }

  lemma NothingSaved()
    ensures ProperPrefix([])
  {
    var w: seq<Byte> := [0];
    assert WellFormed(w) && [] < w;
  }

  // ---------------------------------------------------------------- the call

  /** Lines 61-87 for a non-zero count: the saved bytes and as many new ones as fit in `buf`. */
  method FillBuffer(pstate: array<Byte>, s: seq<Byte>) returns (p: seq<Byte>)
    requires pstate.Length == 4 && 1 <= pstate[0] <= 3 && |s| > 0
    ensures |p| <= 4 && p <= Saved(pstate) + s
    ensures |p| == 4 || p == Saved(pstate) + s
  {
    var nstate := pstate[0];
    var buf := new Byte[4];
    if nstate == 3 {
      buf[2] := pstate[3];
    }
    if nstate >= 2 {
      buf[1] := pstate[2];
    }
    buf[0] := pstate[1];
    var m: int := nstate;
    buf[m] := s[0];
    m := m + 1;
    if |s| >= 2 && m < 4 {
      buf[m] := s[1];
      m := m + 1;
      if |s| >= 3 && m < 4 {
        buf[m] := s[2];
        m := m + 1;
      }
    }
    p := buf[..m];
    ghost var x := Saved(pstate) + s;
    assert forall i :: 0 <= i < nstate ==> x[i] == pstate[1 + i] == p[i];
    assert forall i :: nstate <= i < m ==> x[i] == s[i - nstate] == p[i];
    assert p == x[..m];
  }

  /** Lines 298-313: keep all the bytes. */
  method SaveBytes(pstate: array<Byte>, s: seq<Byte>, m: nat)
    requires pstate.Length == 4 && pstate[0] <= 3 && |s| > 0 && m == pstate[0] + |s| < 4
    modifies pstate
    ensures pstate[0] <= 3 && Saved(pstate) == old(Saved(pstate)) + s
  {
    var k: int := pstate[0];
    k := k + 1;
    pstate[k] := s[0];
    if k < m {
      k := k + 1;
      pstate[k] := s[1];
      if k < m {
        k := k + 1;
        pstate[k] := s[2];
      }
    }
    // `if (k != m) abort ();`
    assert k == m;
    pstate[0] := m;
  }

  /** mbrtowc; s is the n bytes at the source's pointer. The three aborts are shown not to be reached. */
  method Mbrtowc(pstate: array<Byte>, pwcIsNull: bool, sIsNull: bool, bytes: seq<Byte>, mbCurMax: nat)
    returns (ret: Ret, stored: Stored)
    requires pstate.Length == 4 && (pstate[0] <= 3 ==> Valid(pstate)) && mbCurMax >= 4
    modifies pstate
    ensures old(pstate[0]) > 3 ==> ret == (if bytes == [] && !sIsNull then Incomplete else Illegal) && stored == Nothing
    ensures old(pstate[0]) > 3 ==> pstate[..] == old(pstate[..])
    ensures old(pstate[0]) <= 3 ==>
      && Valid(pstate)
      && Outcome(old(Saved(pstate)), if sIsNull then [0] else bytes, pwcIsNull || sIsNull, ret, stored, Saved(pstate))
  {
    hide WellFormed;
    hide Head;
    hide Scalar;
    hide ProperPrefix;
    hide TooFew;
    var pwcNull, s := pwcIsNull, bytes;
    if sIsNull {
      pwcNull := true;
      s := [0];
    }
    stored := Nothing;
    if |s| == 0 {
      return Incomplete, Nothing;
    }
    var nstate := pstate[0];
    var p := s;
    if 1 <= nstate <= 3 {
      p := FillBuffer(pstate, s);
    } else if nstate != 0 {
      return Illegal, Nothing;
    }
    ghost var saved := Saved(pstate);
    ghost var x := saved + s;
    BufferDecides(saved, s, p);
    var m := |p|;
    var res := SystemMbtowc(p);
    if res >= 0 {
      if !pwcNull {
        stored := Wide(Scalar(p[..Head(p)]));
        // `if ((*pwc == 0) != (res == 0)) abort ();`
        assert stored.c == 0 <==> res == 0;
      }
      // `if (nstate >= (res > 0 ? res : 1)) abort ();`
      assert nstate < if res > 0 then res else 1;
      ret := Converted(res - nstate);
      pstate[0] := 0;
      assert Saved(pstate) == [];
      NothingSaved();
      return;
    }
    if m >= 4 || m >= mbCurMax {
      return Illegal, Nothing;
    }
    if TooFew(p) {
      SaveBytes(pstate, s, m);
      return Incomplete, Nothing;
    }
    return Illegal, Nothing;
  }

  // ---------------------------------------------------------------- many calls

  /** A sequence of pieces, one after the other. */
  function Joined(pieces: seq<seq<Byte>>): (s: seq<Byte>) {
    if |pieces| == 0 then [] else Joined(pieces[..|pieces| - 1]) + pieces[|pieces| - 1]
  }

  /** What has been decoded of the bytes fed so far: the characters, and the bytes still saved. */
  ghost predicate Streaming(fed: seq<Byte>, chars: seq<int>, saved: seq<Byte>) {
    Decode(fed) == Decoded(chars, saved) && ProperPrefix(saved)
  }

  /** The bytes fed contain an invalid sequence after the given characters. */
  ghost predicate Broken(fed: seq<Byte>, chars: seq<int>) {
    var d := Decode(fed);
    d.chars == chars && Head(d.rest) == 0 && !ProperPrefix(d.rest)
  }

  lemma DecodeOne(x: seq<Byte>)
    requires Head(x) > 0
    ensures Decode(x).chars == [Scalar(x[..Head(x)])] + Decode(x[Head(x)..]).chars
    ensures Decode(x).rest == Decode(x[Head(x)..]).rest
  {
    hide Head;
    hide WellFormed;
    hide Scalar;
  }

  lemma DecodeNone(x: seq<Byte>)
    requires Head(x) == 0
    ensures Decode(x) == Decoded([], x)
  {
    hide Head;
  }

  /** A character completed by the first n bytes of s. */
  lemma StreamCharacter(fed: seq<Byte>, chars: seq<int>, saved: seq<Byte>, s: seq<Byte>, n: nat, c: int)
    requires Streaming(fed, chars, saved) && n <= |s|
    requires var x := saved + s; Head(x) == |saved| + n > 0 && Scalar(x[..Head(x)]) == c
    ensures Streaming(fed + s[..n], chars + [c], [])
  {
    hide Head;
    hide WellFormed;
    hide Scalar;
    hide Decode;
    hide ProperPrefix;
    var x := saved + s;
    var w := saved + s[..n];
    assert w == x[..Head(x)];
    assert w[..|w|] == w && w[|w|..] == [];
    HeadIs(w, |w|);
    DecodeOne(w);
    HeadOfNothing();
    DecodeNone([]);
    DecodeAppend(fed, s[..n]);
    NothingSaved();
  }

  /** One call, seen on the whole stream. */
  lemma StreamStep(fed: seq<Byte>, chars: seq<int>, saved: seq<Byte>, s: seq<Byte>, ret: Ret, stored: Stored,
                   saved': seq<Byte>)
    requires Streaming(fed, chars, saved) && s != []
    requires Outcome(saved, s, false, ret, stored, saved')
    ensures match ret
            case Converted(n) =>
              var used := if n == 0 then 1 else n;
              used <= |s| && stored.Wide? && Streaming(fed + s[..used], chars + [stored.c], saved')
            case Incomplete => Streaming(fed + s, chars, saved')
            case Illegal => Broken(fed + s, chars)
  {
    hide Head;
    hide WellFormed;
    hide Scalar;
    hide Streaming;
    hide Broken;
    hide ProperPrefix;
    assert ProperPrefix(saved) by { StreamingSaved(fed, chars, saved); }
    var x := saved + s;
    if Head(x) > 0 {
      CompletedBeyondSaved(saved, s);
      NullIsOneByte(x[..Head(x)]);
      StreamCharacter(fed, chars, saved, s, Head(x) - |saved|, stored.c);
    } else if ProperPrefix(x) {
      StreamIncomplete(fed, chars, saved, s);
    } else {
      StreamIllegal(fed, chars, saved, s);
    }
  }

  lemma StreamingSaved(fed: seq<Byte>, chars: seq<int>, saved: seq<Byte>)
    requires Streaming(fed, chars, saved)
    ensures ProperPrefix(saved)
  {
  }

  lemma HeadOfNothing()
    ensures Head([]) == 0
  {
  }

  lemma StreamIncomplete(fed: seq<Byte>, chars: seq<int>, saved: seq<Byte>, s: seq<Byte>)
    requires Streaming(fed, chars, saved) && Head(saved + s) == 0 && ProperPrefix(saved + s)
    ensures Streaming(fed + s, chars, saved + s)
  {
    hide Head;
    hide Decode;
    hide ProperPrefix;
    DecodeAppend(fed, s);
    DecodeNone(saved + s);
  }

  /** An invalid sequence stays one whatever would have followed. */
  lemma StreamIllegal(fed: seq<Byte>, chars: seq<int>, saved: seq<Byte>, s: seq<Byte>)
    requires Streaming(fed, chars, saved) && Head(saved + s) == 0 && !ProperPrefix(saved + s)
    ensures Broken(fed + s, chars)
  {
    hide Head;
    hide Decode;
    hide ProperPrefix;
    DecodeAppend(fed, s);
    DecodeNone(saved + s);
  }

  lemma BrokenStays(fed: seq<Byte>, chars: seq<int>, more: seq<Byte>)
    requires Broken(fed, chars)
    ensures Broken(fed + more, chars)
  {
    hide Head;
    hide Decode;
    hide ProperPrefix;
    var rest := Decode(fed).rest;
    BadStaysBad(rest, more);
    DecodeAppend(fed, more);
    DecodeNone(rest + more);
  }

  /** Call mbrtowc until a piece is used up, as a caller does; a null character counts as one byte. */
  method FeedPiece(pstate: array<Byte>, piece: seq<Byte>, mbCurMax: nat, ghost fed: seq<Byte>, before: seq<int>)
    returns (ok: bool, chars: seq<int>)
    requires Valid(pstate) && mbCurMax >= 4
    requires Streaming(fed, before, Saved(pstate))
    modifies pstate
    ensures ok ==> Valid(pstate) && Streaming(fed + piece, chars, Saved(pstate))
    ensures !ok ==> Broken(fed + piece, chars)
  {
    hide Outcome;
    hide Streaming;
    hide Broken;
    hide ProperPrefix;
    chars := before;
    var i := 0;
    assert fed + piece[..0] == fed;
    while i < |piece|
      invariant 0 <= i <= |piece|
      invariant Valid(pstate) && Streaming(fed + piece[..i], chars, Saved(pstate))
    {
      ghost var saved, s, done := Saved(pstate), piece[i..], fed + piece[..i];
      var ret, wc := Mbrtowc(pstate, false, false, piece[i..], mbCurMax);
      StreamStep(done, chars, saved, s, ret, wc, Saved(pstate));
      assert done + s == fed + piece && piece[..|piece|] == piece;
      match ret
      case Converted(n) =>
        var used := if n == 0 then 1 else n;
        assert done + s[..used] == fed + piece[..i + used];
        chars := chars + [wc.c];
        i := i + used;
      case Incomplete =>
        i := |piece|;
      case Illegal =>
        return false, chars;
    }
    assert piece[..i] == piece;
    ok := true;
  }

  /** Any number of pieces, empty ones among them: what comes out is the one-shot decoding of all the bytes. */
  method FeedAll(pstate: array<Byte>, pieces: seq<seq<Byte>>, mbCurMax: nat) returns (ok: bool, chars: seq<int>)
    requires pstate.Length == 4 && pstate[0] == 0 && mbCurMax >= 4
    modifies pstate
    ensures ok ==> Valid(pstate) && Decode(Joined(pieces)) == Decoded(chars, Saved(pstate))
    ensures ok <==> ProperPrefix(Decode(Joined(pieces)).rest)
    ensures chars == Decode(Joined(pieces)).chars
  {
    ok, chars := true, [];
    NothingSaved();
    HeadOfNothing();
    DecodeNone([]);
    assert Saved(pstate) == [];
    hide Streaming;
    hide Broken;
    hide ProperPrefix;
    var i := 0;
    while i < |pieces|
      invariant 0 <= i <= |pieces|
      invariant ok ==> Valid(pstate) && Streaming(Joined(pieces[..i]), chars, Saved(pstate))
      invariant !ok ==> Broken(Joined(pieces[..i]), chars)
    {
      ghost var fed := Joined(pieces[..i]);
      assert pieces[..i + 1][..i] == pieces[..i];
      if ok {
        ok, chars := FeedPiece(pstate, pieces[i], mbCurMax, fed, chars);
      } else {
        BrokenStays(fed, chars, pieces[i]);
      }
      i := i + 1;
    }
    assert pieces[..i] == pieces;
    StreamEnd(Joined(pieces), chars);
  }

  lemma StreamEnd(fed: seq<Byte>, chars: seq<int>)
    ensures forall saved :: Streaming(fed, chars, saved) ==> Decode(fed) == Decoded(chars, saved) && ProperPrefix(saved)
    ensures Broken(fed, chars) ==> Decode(fed).chars == chars && !ProperPrefix(Decode(fed).rest)
  {
  }
}
