/** Bytes and eight-byte little-endian words (`unsigned long` with sizeof 8), as bit-vectors. */
module Words {
  type Byte = bv8
  type Word = bv64

  /** Byte i of a word in memory order. */
  function ByteAt(w: Word, i: nat): (b: Byte)
    requires i < 8
  {
    if i == 0 then (w & 0xff) as Byte
    else if i == 1 then ((w >> 8) & 0xff) as Byte
    else if i == 2 then ((w >> 16) & 0xff) as Byte
    else if i == 3 then ((w >> 24) & 0xff) as Byte
    else if i == 4 then ((w >> 32) & 0xff) as Byte
    else if i == 5 then ((w >> 40) & 0xff) as Byte
    else if i == 6 then ((w >> 48) & 0xff) as Byte
    else ((w >> 56) & 0xff) as Byte
  }

  function Join(b0: Byte, b1: Byte, b2: Byte, b3: Byte, b4: Byte, b5: Byte, b6: Byte, b7: Byte): (w: Word) {
    (b0 as Word) | ((b1 as Word) << 8) | ((b2 as Word) << 16) | ((b3 as Word) << 24)
    | ((b4 as Word) << 32) | ((b5 as Word) << 40) | ((b6 as Word) << 48) | ((b7 as Word) << 56)
  }

  /** The word stored at p. */
  function Load(mem: seq<Byte>, p: nat): (w: Word)
    requires p + 8 <= |mem|
  {
    Join(mem[p], mem[p + 1], mem[p + 2], mem[p + 3], mem[p + 4], mem[p + 5], mem[p + 6], mem[p + 7])
  }

  lemma JoinBytes(b0: Byte, b1: Byte, b2: Byte, b3: Byte, b4: Byte, b5: Byte, b6: Byte, b7: Byte)
    ensures var w := Join(b0, b1, b2, b3, b4, b5, b6, b7);
            && ByteAt(w, 0) == b0 && ByteAt(w, 1) == b1 && ByteAt(w, 2) == b2 && ByteAt(w, 3) == b3
            && ByteAt(w, 4) == b4 && ByteAt(w, 5) == b5 && ByteAt(w, 6) == b6 && ByteAt(w, 7) == b7
  {
  }

  lemma LoadedByte(mem: seq<Byte>, p: nat, i: nat)
    requires p + 8 <= |mem| && i < 8
    ensures ByteAt(Load(mem, p), i) == mem[p + i]
  {
    JoinBytes(mem[p], mem[p + 1], mem[p + 2], mem[p + 3], mem[p + 4], mem[p + 5], mem[p + 6], mem[p + 7]);
    hide Join;
    hide ByteAt;
  }

  /** Words are equal exactly when their bytes are. */
  lemma WordsEqual(a: Word, b: Word)
    ensures a == b <==> && ByteAt(a, 0) == ByteAt(b, 0) && ByteAt(a, 1) == ByteAt(b, 1)
                        && ByteAt(a, 2) == ByteAt(b, 2) && ByteAt(a, 3) == ByteAt(b, 3)
                        && ByteAt(a, 4) == ByteAt(b, 4) && ByteAt(a, 5) == ByteAt(b, 5)
                        && ByteAt(a, 6) == ByteAt(b, 6) && ByteAt(a, 7) == ByteAt(b, 7)
  {
  }

  predicate HasZeroByte(w: Word) {
    || ByteAt(w, 0) == 0 || ByteAt(w, 1) == 0 || ByteAt(w, 2) == 0 || ByteAt(w, 3) == 0
    || ByteAt(w, 4) == 0 || ByteAt(w, 5) == 0 || ByteAt(w, 6) == 0 || ByteAt(w, 7) == 0
  }

  /** MERGE on a little-endian machine: `(w0 >> sh) | (w1 << (64 - sh))`. */
  function Merge(w0: Word, shl: nat, w1: Word, shr: nat): (w: Word)
    requires shl <= 64 && shr <= 64
  {
    (w0 >> shl) | (w1 << shr)
  }

  lemma MergeIs(w0: Word, w1: Word)
    ensures Merge(w0, 8, w1, 56) == (w0 >> 8) | (w1 << 56)
    ensures Merge(w0, 16, w1, 48) == (w0 >> 16) | (w1 << 48)
    ensures Merge(w0, 24, w1, 40) == (w0 >> 24) | (w1 << 40)
    ensures Merge(w0, 32, w1, 32) == (w0 >> 32) | (w1 << 32)
    ensures Merge(w0, 40, w1, 24) == (w0 >> 40) | (w1 << 24)
    ensures Merge(w0, 48, w1, 16) == (w0 >> 48) | (w1 << 16)
    ensures Merge(w0, 56, w1, 8) == (w0 >> 56) | (w1 << 8)
  {
  }

  /** Byte i of a merged word: the high bytes of w0, then the low bytes of w1. */
  lemma MergedBytes(w0: Word, w1: Word, i: nat)
    requires i < 8
    ensures ByteAt((w0 >> 8) | (w1 << 56), i) == if i < 7 then ByteAt(w0, i + 1) else ByteAt(w1, i - 7)
    ensures ByteAt((w0 >> 16) | (w1 << 48), i) == if i < 6 then ByteAt(w0, i + 2) else ByteAt(w1, i - 6)
    ensures ByteAt((w0 >> 24) | (w1 << 40), i) == if i < 5 then ByteAt(w0, i + 3) else ByteAt(w1, i - 5)
    ensures ByteAt((w0 >> 32) | (w1 << 32), i) == if i < 4 then ByteAt(w0, i + 4) else ByteAt(w1, i - 4)
    ensures ByteAt((w0 >> 40) | (w1 << 24), i) == if i < 3 then ByteAt(w0, i + 5) else ByteAt(w1, i - 3)
    ensures ByteAt((w0 >> 48) | (w1 << 16), i) == if i < 2 then ByteAt(w0, i + 6) else ByteAt(w1, i - 2)
    ensures ByteAt((w0 >> 56) | (w1 << 8), i) == if i < 1 then ByteAt(w0, i + 7) else ByteAt(w1, i - 1)
  {
    if i == 0 {
    } else if i == 1 {
    } else if i == 2 {
    } else if i == 3 {
    } else if i == 4 {
    } else if i == 5 {
    } else if i == 6 {
    } else {
    }
  }

  /** Byte i of a merged word: bytes k..8 of w0, then bytes 0..k of w1. */
  ghost predicate MergedByte(w: Word, w0: Word, w1: Word, k: nat, i: nat)
    requires 1 <= k < 8 && i < 8
  {
    ByteAt(w, i) == (if i + k < 8 then ByteAt(w0, i + k) else ByteAt(w1, i + k - 8))
  }

  /** Shifting by whole bytes and merging reads eight consecutive bytes of w0 followed by w1, starting at byte k. */
  lemma MergeByte(w0: Word, w1: Word, k: nat, i: nat)
    requires 1 <= k < 8 && i < 8
    ensures MergedByte(Merge(w0, 8 * k, w1, 64 - 8 * k), w0, w1, k, i)
  {
    hide Merge, ByteAt;
    MergeIs(w0, w1);
    MergedBytes(w0, w1, i);
    if k == 1 {
    } else if k == 2 {
    } else if k == 3 {
    } else if k == 4 {
    } else if k == 5 {
    } else if k == 6 {
    } else {
    }
  }

  lemma MergedLoadByte(mem: seq<Byte>, p: nat, k: nat, i: nat, w: Word)
    requires 1 <= k < 8 && i < 8 && p + 16 <= |mem|
    requires MergedByte(w, Load(mem, p), Load(mem, p + 8), k, i)
    ensures ByteAt(w, i) == ByteAt(Load(mem, p + k), i)
  {
    hide Load;
    hide ByteAt;
    LoadedByte(mem, p + k, i);
    if i + k < 8 {
      LoadedByte(mem, p, i + k);
    } else {
      LoadedByte(mem, p + 8, i + k - 8);
    }
  }

  /** Merging the two aligned words around an unaligned address gives the word at that address. */
  lemma MergeLoads(mem: seq<Byte>, p: nat, k: nat)
    requires 1 <= k < 8 && p + 16 <= |mem|
    ensures Merge(Load(mem, p), 8 * k, Load(mem, p + 8), 64 - 8 * k) == Load(mem, p + k)
  {
    hide *;
    var w := Merge(Load(mem, p), 8 * k, Load(mem, p + 8), 64 - 8 * k);
    forall i: nat | i < 8
      ensures ByteAt(w, i) == ByteAt(Load(mem, p + k), i)
    {
      MergeByte(Load(mem, p), Load(mem, p + 8), k, i);
      MergedLoadByte(mem, p, k, i, w);
    }
    WordsEqual(w, Load(mem, p + k));
  }

  /** A 32-bit two's complement `int`. */
  type CInt = bv32

  datatype Sign = Negative | Zero | Positive

  function SignOf(i: CInt): Sign {
    if i == 0 then Zero else if i < 0x8000_0000 then Positive else Negative
  }

  /** Conversion of an `op_t` to `int`: the low 32 bits. */
  function ToInt(w: Word): CInt {
    (w & 0xffff_ffff) as CInt
  }

  /** Conversion of an `int` to `op_t`: sign extension. */
  function ToWord(i: CInt): Word {
    if i < 0x8000_0000 then i as Word else (i as Word) | 0xffff_ffff_0000_0000
  }

  /** `a0 - b0` on bytes held in words. */
  function SubtractBytes(a: Byte, b: Byte): Word {
    (a as Word) - (b as Word)
  }

  /** The same, returned as an `int`. */
  function ByteDifference(a: Byte, b: Byte): CInt {
    ToInt(SubtractBytes(a, b))
  }

  /** The wrap-around of the unsigned subtraction does not show: the sign is the order of the bytes. */
  lemma ByteDifferenceSign(a: Byte, b: Byte)
    ensures SignOf(ByteDifference(a, b)) == if a < b then Negative else if a == b then Zero else Positive
    ensures SubtractBytes(a, b) == 0 <==> a == b
  {
  }

  /** The sign is the top bit. */
  lemma SignBit(i: CInt)
    ensures SignOf(i) == Negative <==> i >> 31 == 1
    ensures SignOf(i) == Zero <==> i == 0
  {
  }

  /** An `int` result survives being kept in an `op_t`, whose upper bits all are the sign. */
  lemma IntThroughWord(i: CInt)
    ensures ToInt(ToWord(i)) == i && (ToWord(i) == 0 <==> i == 0)
    ensures ToWord(i) >> 31 == if SignOf(i) == Negative then 0x1_ffff_ffff else 0
  {
  }
}
