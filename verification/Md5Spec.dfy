/** The MD5 message digest as RFC 1321 defines it: one pure function of the whole message. */
module Md5Spec {
  import opened Common

  type Byte = bv8
  type Word = bv32

  /** The four chaining words. */
  datatype Chain = ABCD(a: Word, b: Word, c: Word, d: Word)

  const INIT := ABCD(0x67452301, 0xefcdab89, 0x98badcfe, 0x10325476)

  // Section 3.4, the auxiliary functions
  function F(x: Word, y: Word, z: Word): Word { (x & y) | (!x & z) }
  function G(x: Word, y: Word, z: Word): Word { (x & z) | (y & !z) }
  function H(x: Word, y: Word, z: Word): Word { x ^ y ^ z }
  function I(x: Word, y: Word, z: Word): Word { y ^ (x | !z) }

  function Mix(round: nat, x: Word, y: Word, z: Word): Word {
    match round case 0 => F(x, y, z) case 1 => G(x, y, z) case 2 => H(x, y, z) case _ => I(x, y, z)
  }

  /** Section 3.4: which of the 16 words operation i consumes. */
  function Index(i: nat): (k: nat)
    ensures k < 16
  {
    if i < 16 then i else if i < 32 then (5 * i + 1) % 16 else if i < 48 then (3 * i + 5) % 16 else 7 * i % 16
  }

  /** Section 3.4: by how many bits operation i rotates. */
  function Shift(i: nat): (s: nat)
    ensures 0 < s < 32
  {
    match (i / 16, i % 4)
    case (0, 0) => 7 case (0, 1) => 12 case (0, 2) => 17 case (0, _) => 22
    case (1, 0) => 5 case (1, 1) => 9 case (1, 2) => 14 case (1, _) => 20
    case (2, 0) => 4 case (2, 1) => 11 case (2, 2) => 16 case (2, _) => 23
    case (_, 0) => 6 case (_, 1) => 10 case (_, 2) => 15 case (_, _) => 21
  }

  /** Section 3.4: the integer part of 2^32 times the absolute sine of i + 1. */
  function T(i: nat): Word {
    if i < 16 then T1(i) else if i < 32 then T2(i - 16) else if i < 48 then T3(i - 32) else T4(i - 48)
  }

  function T1(i: nat): Word {
    match i
    case 0 => 0xd76aa478 case 1 => 0xe8c7b756 case 2 => 0x242070db case 3 => 0xc1bdceee
    case 4 => 0xf57c0faf case 5 => 0x4787c62a case 6 => 0xa8304613 case 7 => 0xfd469501
    case 8 => 0x698098d8 case 9 => 0x8b44f7af case 10 => 0xffff5bb1 case 11 => 0x895cd7be
    case 12 => 0x6b901122 case 13 => 0xfd987193 case 14 => 0xa679438e case _ => 0x49b40821
  }

  function T2(i: nat): Word {
    match i
    case 0 => 0xf61e2562 case 1 => 0xc040b340 case 2 => 0x265e5a51 case 3 => 0xe9b6c7aa
    case 4 => 0xd62f105d case 5 => 0x02441453 case 6 => 0xd8a1e681 case 7 => 0xe7d3fbc8
    case 8 => 0x21e1cde6 case 9 => 0xc33707d6 case 10 => 0xf4d50d87 case 11 => 0x455a14ed
    case 12 => 0xa9e3e905 case 13 => 0xfcefa3f8 case 14 => 0x676f02d9 case _ => 0x8d2a4c8a
  }

  function T3(i: nat): Word {
    match i
    case 0 => 0xfffa3942 case 1 => 0x8771f681 case 2 => 0x6d9d6122 case 3 => 0xfde5380c
    case 4 => 0xa4beea44 case 5 => 0x4bdecfa9 case 6 => 0xf6bb4b60 case 7 => 0xbebfbc70
    case 8 => 0x289b7ec6 case 9 => 0xeaa127fa case 10 => 0xd4ef3085 case 11 => 0x04881d05
    case 12 => 0xd9d4d039 case 13 => 0xe6db99e5 case 14 => 0x1fa27cf8 case _ => 0xc4ac5665
  }

  function T4(i: nat): Word {
    match i
    case 0 => 0xf4292244 case 1 => 0x432aff97 case 2 => 0xab9423a7 case 3 => 0xfc93a039
    case 4 => 0x655b59c3 case 5 => 0x8f0ccc92 case 6 => 0xffeff47d case 7 => 0x85845dd1
    case 8 => 0x6fa87e4f case 9 => 0xfe2ce6e0 case 10 => 0xa3014314 case 11 => 0x4e0811a1
    case 12 => 0xf7537e82 case 13 => 0xbd3af235 case 14 => 0x2ad7d2bb case _ => 0xeb86d391
  }

  function RotL(x: Word, s: nat): Word
    requires s < 32
  {
    (x << s) | (x >> (32 - s))
  }

  /** Section 2: addition of words, modulo 2^32. */
  function Sum(x: Word, y: Word): Word { x + y }

  /** One operation [abcd k s i], with the four words renamed so that the next one reads the same. */
  function Op(i: nat, s: Chain, x: seq<Word>): Chain
    requires |x| == 16
  {
    ABCD(s.d, Sum(s.b, RotL(Sum(s.a, Sum(Mix(i / 16, s.b, s.c, s.d), Sum(x[Index(i)], T(i)))), Shift(i))), s.b, s.c)
  }

  function Ops(n: nat, s: Chain, x: seq<Word>): Chain
    requires |x| == 16
  {
    if n == 0 then s else Op(n - 1, Ops(n - 1, s, x), x)
  }

  function Add(s: Chain, t: Chain): Chain {
    ABCD(Sum(s.a, t.a), Sum(s.b, t.b), Sum(s.c, t.c), Sum(s.d, t.d))
  }

  /** Section 2: bytes of a word, the low-order byte first. */
  function LeWord(b0: Byte, b1: Byte, b2: Byte, b3: Byte): Word {
    (b3 as Word << 24) | (b2 as Word << 16) | (b1 as Word << 8) | b0 as Word
  }

  function LeBytes(w: Word): (b: seq<Byte>)
    ensures |b| == 4
  {
    [(w & 0xff) as Byte, ((w >> 8) & 0xff) as Byte, ((w >> 16) & 0xff) as Byte, ((w >> 24) & 0xff) as Byte]
  }

  function Words(block: seq<Byte>): seq<Word>
    requires |block| == 64
  {
    seq(16, k requires 0 <= k < 16 => LeWord(block[4 * k], block[4 * k + 1], block[4 * k + 2], block[4 * k + 3]))
  }

  function Block(s: Chain, block: seq<Byte>): Chain
    requires |block| == 64
  {
    Add(s, Ops(64, s, Words(block)))
  }

  /** Chaining over a whole number of 64-byte blocks. */
  function Fold(s: Chain, bytes: seq<Byte>): Chain
    requires |bytes| % 64 == 0
  {
    if bytes == [] then s else Block(Fold(s, bytes[..|bytes| - 64]), bytes[|bytes| - 64..])
  }

  function Zeros(n: nat): (z: seq<Byte>)
    ensures |z| == n
  {
    seq(n, _ => 0)
  }

  function ToWord(x: nat): Word
    requires x < WORD
  {
    x as Word
  }

  /** Section 3.2: the 64-bit length in bits, as two words with the low-order one first. */
  function LengthBytes(n: nat): (b: seq<Byte>)
    ensures |b| == 8
  {
    LeBytes(ToWord(8 * n % WORD)) + LeBytes(ToWord(8 * n / WORD % WORD))
  }

  /** Section 3.1 of RFC 1321: one bit, then zeros up to 56 modulo 64 bytes. */
  function Padding(n: nat): (p: seq<Byte>)
    ensures (n + |p|) % 64 == 56
  {
    [0x80] + Zeros(if n % 64 < 56 then 55 - n % 64 else 119 - n % 64)
  }

  lemma WholeBlocks(n: nat, p: nat)
    requires (n + p) % 64 == 56
    ensures (n + p + 8) % 64 == 0
  {
  }

  function Pad(m: seq<Byte>): (p: seq<Byte>)
    ensures |p| % 64 == 0
  {
    WholeBlocks(|m|, |Padding(|m|)|);
    m + Padding(|m|) + LengthBytes(|m|)
  }

  function Digest(m: seq<Byte>): (digest: seq<Byte>)
    ensures |digest| == 16
  {
    var s := Fold(INIT, Pad(m));
    LeBytes(s.a) + LeBytes(s.b) + LeBytes(s.c) + LeBytes(s.d)
  }

  // What the rotations do that are used: the top bits come in at the bottom, and the others move up
  lemma Rotation4(x: Word) ensures RotL(x, 4) & 0xf == x >> 28 && RotL(x, 4) >> 4 == x & 0x0fff_ffff {}
  lemma Rotation5(x: Word) ensures RotL(x, 5) & 0x1f == x >> 27 && RotL(x, 5) >> 5 == x & 0x07ff_ffff {}
  lemma Rotation6(x: Word) ensures RotL(x, 6) & 0x3f == x >> 26 && RotL(x, 6) >> 6 == x & 0x03ff_ffff {}
  lemma Rotation7(x: Word) ensures RotL(x, 7) & 0x7f == x >> 25 && RotL(x, 7) >> 7 == x & 0x01ff_ffff {}
  lemma Rotation9(x: Word) ensures RotL(x, 9) & 0x1ff == x >> 23 && RotL(x, 9) >> 9 == x & 0x007f_ffff {}
  lemma Rotation10(x: Word) ensures RotL(x, 10) & 0x3ff == x >> 22 && RotL(x, 10) >> 10 == x & 0x003f_ffff {}
  lemma Rotation11(x: Word) ensures RotL(x, 11) & 0x7ff == x >> 21 && RotL(x, 11) >> 11 == x & 0x001f_ffff {}
  lemma Rotation12(x: Word) ensures RotL(x, 12) & 0xfff == x >> 20 && RotL(x, 12) >> 12 == x & 0x000f_ffff {}
  lemma Rotation14(x: Word) ensures RotL(x, 14) & 0x3fff == x >> 18 && RotL(x, 14) >> 14 == x & 0x0003_ffff {}
  lemma Rotation15(x: Word) ensures RotL(x, 15) & 0x7fff == x >> 17 && RotL(x, 15) >> 15 == x & 0x0001_ffff {}
  lemma Rotation16(x: Word) ensures RotL(x, 16) & 0xffff == x >> 16 && RotL(x, 16) >> 16 == x & 0xffff {}
  lemma Rotation17(x: Word) ensures RotL(x, 17) & 0x0001_ffff == x >> 15 && RotL(x, 17) >> 17 == x & 0x7fff {}
  lemma Rotation20(x: Word) ensures RotL(x, 20) & 0x000f_ffff == x >> 12 && RotL(x, 20) >> 20 == x & 0xfff {}
  lemma Rotation21(x: Word) ensures RotL(x, 21) & 0x001f_ffff == x >> 11 && RotL(x, 21) >> 21 == x & 0x7ff {}
  lemma Rotation22(x: Word) ensures RotL(x, 22) & 0x003f_ffff == x >> 10 && RotL(x, 22) >> 22 == x & 0x3ff {}
  lemma Rotation23(x: Word) ensures RotL(x, 23) & 0x007f_ffff == x >> 9 && RotL(x, 23) >> 23 == x & 0x1ff {}

  /** Addition counts on from 0, and wraps. */
  lemma SumCounts(x: Word, y: Word)
    ensures Sum(x, 0) == x && Sum(x, y + 1) == Sum(x, y) + 1
  {
  }

  /** Section 3.3: the initial words, low-order bytes first. */
  lemma InitialBytes()
    ensures LeBytes(INIT.a) == [0x01, 0x23, 0x45, 0x67] && LeBytes(INIT.b) == [0x89, 0xab, 0xcd, 0xef]
    ensures LeBytes(INIT.c) == [0xfe, 0xdc, 0xba, 0x98] && LeBytes(INIT.d) == [0x76, 0x54, 0x32, 0x10]
  {
  }

  /** Section 3.1: what comes behind the message, before the length. */
  lemma PadShape(m: seq<Byte>)
    ensures var p := Pad(m);
            && |m| + 9 <= |p| < |m| + 73 && m <= p && p[|m|] == 0x80
            && (forall i :: |m| < i < |p| - 8 ==> p[i] == 0)
            && p[|p| - 8..] == LengthBytes(|m|)
  {
    var p, z := Padding(|m|), Zeros(|Padding(|m|)| - 1);
    hide LengthBytes;
    assert Pad(m) == m + ([0x80] + z) + LengthBytes(|m|);
    assert forall i :: |m| < i < |m| + |p| ==> Pad(m)[i] == z[i - |m| - 1];
  }

  /** The first block can be taken off the front as well. */
  lemma {:induction false} FoldAppend(s: Chain, a: seq<Byte>, b: seq<Byte>)
    requires |a| % 64 == 0 && |b| % 64 == 0
    ensures Fold(s, a + b) == Fold(Fold(s, a), b)
    decreases |b|
  {
    hide Block;
    if b == [] {
      assert a + b == a;
    } else {
      var n := |b| - 64;
      assert (a + b)[..|a| + n] == a + b[..n] && (a + b)[|a| + n..] == b[n..];
      FoldAppend(s, a, b[..n]);
    }
  }

  lemma FoldBlock(s: Chain, a: seq<Byte>, block: seq<Byte>)
    requires |a| % 64 == 0 && |block| == 64
    ensures Fold(s, a + block) == Block(Fold(s, a), block)
  {
    hide Block;
    assert (a + block)[..|a|] == a && (a + block)[|a|..] == block;
  }
}
