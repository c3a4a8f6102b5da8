/** The word-at-a-time search of libgnu/memchr.c, with eight-byte longwords. */
module Memchr {
  import opened Words

  datatype Found = Null | At(p: nat)

  /** c in every byte. */
  function Repeated(c: Byte): (w: Word) {
    Join(c, c, c, c, c, c, c, c)
  }

  /** The words `repeated_one` and `repeated_c`. */
  method RepeatedWords(c: Byte) returns (repeatedOne: Word, repeatedC: Word)
    ensures repeatedOne == Repeated(1) && repeatedC == Repeated(c)
  {
    repeatedOne := 0x0101_0101;
    repeatedC := (c as Word) | ((c as Word) << 8);
    repeatedC := repeatedC | (repeatedC << 16);
    repeatedOne := repeatedOne | ((repeatedOne << 31) << 1);
    repeatedC := repeatedC | ((repeatedC << 31) << 1);
  }

  predicate WordTest(longword1: Word, repeatedOne: Word) {
    ((longword1 - repeatedOne) & !longword1 & (repeatedOne << 7)) != 0
  }

  lemma ZeroByteTest(w: Word)
    ensures WordTest(w, Repeated(1)) <==> HasZeroByte(w)
  {
    assert Repeated(1) == 0x0101_0101_0101_0101;
  }

  /** The zero bytes of x are where w and v agree. */
  predicate Marks(x: Word, w: Word, v: Word) {
    && (ByteAt(x, 0) == 0 <==> ByteAt(w, 0) == ByteAt(v, 0)) && (ByteAt(x, 1) == 0 <==> ByteAt(w, 1) == ByteAt(v, 1))
    && (ByteAt(x, 2) == 0 <==> ByteAt(w, 2) == ByteAt(v, 2)) && (ByteAt(x, 3) == 0 <==> ByteAt(w, 3) == ByteAt(v, 3))
    && (ByteAt(x, 4) == 0 <==> ByteAt(w, 4) == ByteAt(v, 4)) && (ByteAt(x, 5) == 0 <==> ByteAt(w, 5) == ByteAt(v, 5))
    && (ByteAt(x, 6) == 0 <==> ByteAt(w, 6) == ByteAt(v, 6)) && (ByteAt(x, 7) == 0 <==> ByteAt(w, 7) == ByteAt(v, 7))
  }

  lemma XorZeroBytes(w: Word, v: Word)
    ensures && (ByteAt(w ^ v, 0) == 0 <==> ByteAt(w, 0) == ByteAt(v, 0)) && (ByteAt(w ^ v, 1) == 0 <==> ByteAt(w, 1) == ByteAt(v, 1))
            && (ByteAt(w ^ v, 2) == 0 <==> ByteAt(w, 2) == ByteAt(v, 2)) && (ByteAt(w ^ v, 3) == 0 <==> ByteAt(w, 3) == ByteAt(v, 3))
            && (ByteAt(w ^ v, 4) == 0 <==> ByteAt(w, 4) == ByteAt(v, 4)) && (ByteAt(w ^ v, 5) == 0 <==> ByteAt(w, 5) == ByteAt(v, 5))
            && (ByteAt(w ^ v, 6) == 0 <==> ByteAt(w, 6) == ByteAt(v, 6)) && (ByteAt(w ^ v, 7) == 0 <==> ByteAt(w, 7) == ByteAt(v, 7))
  {
  }

  lemma XorMarks(w: Word, v: Word)
    ensures Marks(w ^ v, w, v)
  {
    hide ByteAt;
    XorZeroBytes(w, v);
  }

  lemma RepeatedBytes(c: Byte)
    ensures var v := Repeated(c);
            && ByteAt(v, 0) == c && ByteAt(v, 1) == c && ByteAt(v, 2) == c && ByteAt(v, 3) == c
            && ByteAt(v, 4) == c && ByteAt(v, 5) == c && ByteAt(v, 6) == c && ByteAt(v, 7) == c
  {
    JoinBytes(c, c, c, c, c, c, c, c);
    hide Join;
    hide ByteAt;
  }

  /** Those marks, read off the memory the word was loaded from. */
  lemma MarkedBytes(mem: seq<Byte>, p: nat, c: Byte, x: Word)
    requires p + 8 <= |mem| && Marks(x, Load(mem, p), Repeated(c))
    ensures HasZeroByte(x) <==> c in mem[p..p + 8]
  {
    hide Load;
    hide Repeated;
    hide ByteAt;
    RepeatedBytes(c);
    forall i: nat | i < 8
      ensures ByteAt(Load(mem, p), i) == mem[p + i]
    {
      LoadedByte(mem, p, i);
    }
    assert mem[p..p + 8]
        == [mem[p], mem[p + 1], mem[p + 2], mem[p + 3], mem[p + 4], mem[p + 5], mem[p + 6], mem[p + 7]];
  }

  /** The exclusive-or of the word loaded at p has a zero byte exactly when one of the eight bytes from p is c. */
  lemma LoadedWordHasByte(mem: seq<Byte>, p: nat, c: Byte)
    requires p + 8 <= |mem|
    ensures HasZeroByte(Load(mem, p) ^ Repeated(c)) <==> c in mem[p..p + 8]
  {
    hide *;
    XorMarks(Load(mem, p), Repeated(c));
    MarkedBytes(mem, p, c, Load(mem, p) ^ Repeated(c));
  }

  /** Search the n bytes at s for the byte cIn is converted to. Every load lies inside those bytes. */
  method Memchr(mem: seq<Byte>, s: nat, cIn: int, n: nat) returns (r: Found)
    requires s + n <= |mem|
    ensures var c := (cIn % 256) as Byte;
            match r
            case Null => c !in mem[s..s + n]
            case At(p) => s <= p < s + n && mem[p] == c && c !in mem[s..p]
  {
    hide *;
    var c := (cIn % 256) as Byte;
    var left := n;
    var charPtr := s;
    while left > 0 && charPtr % 8 != 0
      invariant 0 <= left && charPtr + left == s + n && charPtr >= s
      invariant c !in mem[s..charPtr]
      decreases left
    {
      if mem[charPtr] == c {
        return At(charPtr);
      }
      left := left - 1;
      charPtr := charPtr + 1;
    }
    var longwordPtr := charPtr;
    var repeatedOne, repeatedC := RepeatedWords(c);
    while left >= 8
      invariant 0 <= left && longwordPtr + left == s + n && longwordPtr >= s
      invariant c !in mem[s..longwordPtr]
      invariant left < 8 || longwordPtr % 8 == 0
      decreases left
    {
      var longword1 := Load(mem, longwordPtr) ^ repeatedC;
      LoadedWordHasByte(mem, longwordPtr, c);
      ZeroByteTest(longword1);
      if WordTest(longword1, repeatedOne) {
        break;
      }
      assert mem[s..longwordPtr + 8] == mem[s..longwordPtr] + mem[longwordPtr..longwordPtr + 8];
      longwordPtr := longwordPtr + 8;
      left := left - 8;
    }
    charPtr := longwordPtr;
    while left > 0
      invariant 0 <= left && charPtr + left == s + n && charPtr >= s
      invariant c !in mem[s..charPtr]
      decreases left
    {
      if mem[charPtr] == c {
        return At(charPtr);
      }
      left := left - 1;
      charPtr := charPtr + 1;
    }
    return Null;
  }
}
