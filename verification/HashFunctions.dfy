/** The hash functions of src/hash.cc. */
module HashFunctions {
  import opened Buckets
  import opened OrderedTable

  /** The value of the string hash, before the remainder: 28 bits. */
  function StringValue(s: seq<bv8>): (h: bv32)
    ensures h < 0x1000_0000
  {
    if |s| == 0 then 0 else Mixed(StringValue(s[..|s| - 1]), s[|s| - 1])
  }

  /** One character more: 16 times the value and the character, of which the lowest 28 bits are kept and the four above
      them, 16 times over, are mixed in by an exclusive or. */
  function Mixed(h: bv32, c: bv8): (r: bv32)
    ensures r < 0x1000_0000
  {
    Folded((h << 4) + SignExtended(c))
  }

  function Folded(sum: bv32): (r: bv32)
    ensures r < 0x1000_0000
  {
    (sum & 0x0fff_ffff) ^ ((sum >> 28) << 4)
  }

  /** A `char` is signed. */
  function SignExtended(c: bv8): bv32 {
    if c < 0x80 then c as bv32 else (c as bv32) | 0xffff_ff00
  }

  /** The low byte is c, and the bits above all are its top bit. */
  lemma SignExtension(c: bv8)
    ensures SignExtended(c) & 0xff == c as bv32 && SignExtended(c) >> 7 == if c >> 7 == 1 then 0x1ff_ffff else 0
  {
  }

  /** `h % M`; the number of buckets is never 0. */
  function StringHash(s: seq<bv8>, M: int): (r: int) {
    if M > 0 then StringValue(s) as int % M else 0
  }

  /** Folding the top four bits back and clearing them. */
  lemma FoldedBits(sum: bv32)
    ensures var g := sum & 0xf000_0000; Folded(sum) == if g != 0 then (sum ^ (g >> 24)) ^ g else sum
  {
  }

  method FoldBack(sum: bv32) returns (h: bv32)
    ensures h == Folded(sum)
  {
    h := sum;
    var g := h & 0xf000_0000;
    if g != 0 {
      h := h ^ (g >> 24);
      h := h ^ g;
    }
    FoldedBits(sum);
  }

  /** The body of the loop. */
  method MixIn(h0: bv32, c: bv8) returns (h: bv32)
    ensures h == Mixed(h0, c)
  {
    h := FoldBack((h0 << 4) + SignExtended(c));
  }

  /** As long as 28 bits suffice, the value is the number whose digits to the base 16 are the characters. */
  lemma MixedSmall(h: bv32, c: bv8)
    requires h <= 0xff_fff8 && c < 0x80
    ensures Mixed(h, c) == 16 * h + c as bv32
  {
  }

  /** For instance. */
  lemma HashOfAb()
    ensures StringValue([0x61, 0x62]) == 0x672
  {
    assert [0x61 as bv8, 0x62][..1] == [0x61] && [0x61 as bv8][..0] == [];
    MixedSmall(0, 0x61);
    MixedSmall(0x61, 0x62);
  }

  lemma StringValueStep(s: seq<bv8>, p: nat)
    requires p < |s|
    ensures StringValue(s[..p + 1]) == Mixed(StringValue(s[..p]), s[p])
  {
    assert s[..p + 1][..p] == s[..p] && s[..p + 1][p] == s[p];
    hide Mixed;
  }

  /** The hash of a string is one of the M bucket numbers. */
  method HashString(s: seq<bv8>, M: int) returns (r: int)
    requires M > 0
    ensures 0 <= r < M && r == StringHash(s, M)
  {
    var h: bv32 := 0;
    var p := 0;
    assert s[..0] == [];
    while p < |s|
      invariant 0 <= p <= |s| && h == StringValue(s[..p])
    {
      StringValueStep(s, p);
      hide *;
      h := MixIn(h, s[p]);
      p := p + 1;
    }
    assert s[..p] == s;
    r := h as int % M;
  }

  /** The remainder of C++ truncates toward zero. */
  function Remainder(x: int, m: int): (r: int)
    requires m > 0
  {
    if x >= 0 then x % m else -(-x % m)
  }

  /** `(unsigned int)x % M`, and the other unsigned versions with their widths. */
  function HashUnsigned(x: int, width: nat, M: int): (r: int) {
    if M > 0 && width > 0 then Remainder(x % width, M) else 0
  }

  /** A key that fits in the unsigned type is reduced as it is, a negative one as its two's complement. */
  lemma UnsignedIs(x: int, width: nat, M: int)
    requires M > 0 && 0 - width <= x < width
    ensures HashUnsigned(x, width, M) == (if x >= 0 then x else x + width) % M
  {
    if x >= 0 {
      assert x % width == x;
    } else {
      assert x % width == (x + width) % width;
    }
  }

  /** The hashes of strings and of unsigned and pointer keys are what a table asks for. */
  lemma HashesOk(width: nat)
    ensures HashOk(StringHash)
    ensures HashOk((x: int, M: int) => HashUnsigned(x, width, M))
  {
  }

  /** `(long long)x % M`: a bucket number exactly when x is not negative or a multiple of M. No table of the program has
      such keys. */
  lemma HashLongLongInRangeIff(x: int, M: int)
    requires M > 0
    ensures 0 <= Remainder(x, M) < M <==> x >= 0 || -x % M == 0
  {
  }

  /** The program's ordered table, from strings to strings. */
  method RunOnStrings(ops: seq<Op<seq<bv8>, seq<bv8>>>) returns (t: OrderedTable<seq<bv8>, seq<bv8>>)
    ensures t.Valid() && InLastPutOrder(ops, t.keyArray, t.dataArray)
  {
    HashesOk(1);
    t := Run(StringHash, ops);
  }
}
