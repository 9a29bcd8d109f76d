/** The streaming digest: a context that is fed in pieces and updated in place, against the one-shot definition. */
module Md5 {
  import opened Common
  import opened Md5Spec
  import opened Md5Transform
  import DivMod

  /** A word as the bytes of the host's memory, on a big-endian or on a little-endian machine. */
  function NativeBytes(big: bool, w: Word): (b: seq<Byte>)
    ensures |b| == 4
  {
    var b := LeBytes(w);
    if big then [b[3], b[2], b[1], b[0]] else b
  }

  function NativeWord(big: bool, b: seq<Byte>): Word
    requires |b| == 4
  {
    if big then LeWord(b[3], b[2], b[1], b[0]) else LeWord(b[0], b[1], b[2], b[3])
  }

  lemma Join(w: Word, b0: Byte, b1: Byte, b2: Byte, b3: Byte)
    requires b0 == (w & 0xff) as Byte && b1 == ((w >> 8) & 0xff) as Byte
    requires b2 == ((w >> 16) & 0xff) as Byte && b3 == ((w >> 24) & 0xff) as Byte
    ensures (b3 as Word << 24) | (b2 as Word << 16) | (b1 as Word << 8) | b0 as Word == w
  {
  }

  lemma Split(b0: Byte, b1: Byte, b2: Byte, b3: Byte, w: Word)
    requires w == LeWord(b0, b1, b2, b3)
    ensures b0 == (w & 0xff) as Byte && b1 == ((w >> 8) & 0xff) as Byte
    ensures b2 == ((w >> 16) & 0xff) as Byte && b3 == ((w >> 24) & 0xff) as Byte
  {
  }

  lemma WordOfBytes(w: Word)
    ensures var b := LeBytes(w);
            LeWord(b[0], b[1], b[2], b[3]) == w
  {
    var b := LeBytes(w);
    Join(w, b[0], b[1], b[2], b[3]);
  }

  lemma BytesOfWord(b0: Byte, b1: Byte, b2: Byte, b3: Byte)
    ensures LeBytes(LeWord(b0, b1, b2, b3)) == [b0, b1, b2, b3]
  {
    hide LeWord;
    Split(b0, b1, b2, b3, LeWord(b0, b1, b2, b3));
  }

  lemma LoadStored(big: bool, w: Word)
    ensures NativeWord(big, NativeBytes(big, w)) == w
  {
    hide LeWord, LeBytes;
    WordOfBytes(w);
  }

  /** Storing the little-endian reading of a native word yields its little-endian bytes, on either kind of host. */
  lemma ByteReversed(big: bool, w: Word)
    ensures var b := NativeBytes(big, w);
            NativeBytes(big, LeWord(b[0], b[1], b[2], b[3])) == LeBytes(w)
  {
    hide LeWord, LeBytes;
    var b := NativeBytes(big, w);
    BytesOfWord(b[0], b[1], b[2], b[3]);
  }

  /** Memory seen as an array of words. */
  function NativeWords(big: bool, b: seq<Byte>): (x: seq<Word>)
    requires |b| == 64
    ensures |x| == 16
  {
    seq(16, k requires 0 <= k < 16 => NativeWord(big, b[4 * k..4 * k + 4]))
  }

  /** What byteReverse achieves: word k of the host's view is the little-endian reading of the bytes. */
  ghost predicate ReversedWord(big: bool, was: seq<Byte>, now: seq<Byte>, k: nat)
    requires |was| == |now| && 4 * k + 4 <= |was|
  {
    var b := NativeBytes(big, LeWord(was[4 * k], was[4 * k + 1], was[4 * k + 2], was[4 * k + 3]));
    now[4 * k] == b[0] && now[4 * k + 1] == b[1] && now[4 * k + 2] == b[2] && now[4 * k + 3] == b[3]
  }

  method ByteReverse(big: bool, a: array<Byte>, longs: nat)
    requires 0 < longs && 4 * longs <= a.Length
    modifies a
    ensures forall k: nat :: k < longs ==> ReversedWord(big, old(a[..]), a[..], k)
    ensures forall i :: 4 * longs <= i < a.Length ==> a[i] == old(a[i])
  {
    hide LeWord, NativeBytes;
    var k := 0;
    while k < longs
      invariant k <= longs
      invariant forall j: nat :: j < k ==> ReversedWord(big, old(a[..]), a[..], j)
      invariant forall i :: 4 * k <= i < a.Length ==> a[i] == old(a[i])
    {
      var t := LeWord(a[4 * k], a[4 * k + 1], a[4 * k + 2], a[4 * k + 3]);
      var b := NativeBytes(big, t);
      ghost var before := a[..];
      a[4 * k] := b[0];
      a[4 * k + 1] := b[1];
      a[4 * k + 2] := b[2];
      a[4 * k + 3] := b[3];
      forall j: nat | j <= k ensures ReversedWord(big, old(a[..]), a[..], j) {
        assert j < k ==> ReversedWord(big, old(a[..]), before, j);
      }
      k := k + 1;
    }
  }

  /** The web server's copy leaves the bytes alone on little-endian hosts, and meets the same contract. */
  method ByteReverseIfBig(big: bool, a: array<Byte>, longs: nat)
    requires 0 < longs && 4 * longs <= a.Length
    modifies a
    ensures forall k: nat :: k < longs ==> ReversedWord(big, old(a[..]), a[..], k)
    ensures forall i :: 4 * longs <= i < a.Length ==> a[i] == old(a[i])
  {
    hide LeWord;
    if big {
      ByteReverse(big, a, longs);
    } else {
      forall k: nat | k < longs
        ensures ReversedWord(big, old(a[..]), a[..], k)
      {
        BytesOfWord(a[4 * k], a[4 * k + 1], a[4 * k + 2], a[4 * k + 3]);
      }
    }
  }

  method Reverse(big: bool, always: bool, a: array<Byte>, longs: nat)
    requires 0 < longs && 4 * longs <= a.Length
    modifies a
    ensures forall k: nat :: k < longs ==> ReversedWord(big, old(a[..]), a[..], k)
    ensures forall i :: 4 * longs <= i < a.Length ==> a[i] == old(a[i])
  {
    if always {
      ByteReverse(big, a, longs);
    } else {
      ByteReverseIfBig(big, a, longs);
    }
  }

  /** The two-word bit counter after n bytes. */
  ghost predicate Counts(lo: nat, hi: nat, n: nat) {
    lo == 8 * n % WORD && hi == 8 * n / WORD % WORD
  }

  /** Adding 8 * len: a carry test on the low word, the top three bits of len on the high word. */
  function AddBits(lo: nat, hi: nat, len: nat): (nat, nat) {
    var l := (lo + 8 * len % WORD) % WORD;
    var h := if l < lo then (hi + 1) % WORD else hi;
    (l, (h + len / 0x2000_0000) % WORD)
  }

  lemma CountBits(lo: nat, hi: nat, n: nat, len: nat)
    requires Counts(lo, hi, n) && len < WORD
    ensures var (l, h) := AddBits(lo, hi, len);
            Counts(l, h, n + len)
  {
    var q, c, r := 8 * n / WORD, len / 0x2000_0000, len % 0x2000_0000;
    var l := 8 * r;
    DivMod.Parts(8 * n, WORD);
    DivMod.Parts(len, 0x2000_0000);
    DivMod.Unique(8 * len, WORD, c, l);
    var carry := if lo + l >= WORD then 1 else 0;
    DivMod.Unique(lo + l, WORD, carry, lo + l - carry * WORD);
    var (l', h') := AddBits(lo, hi, len);
    assert l' == lo + l - carry * WORD && (l' < lo <==> carry == 1);
    assert h' == ((q % WORD + carry) % WORD + c) % WORD;
    DivMod.Unique(8 * (n + len), WORD, q + c + carry, l');
    WrapSum(q, carry, c);
  }

  /** The low word alone tells how full the buffer is. */
  lemma BytesBuffered(lo: nat, n: nat)
    requires lo == 8 * n % WORD
    ensures lo / 8 % 64 == n % 64
  {
    var q := 8 * n / WORD;
    assert 8 * n == q * WORD + lo;
    var m := n - q * 0x2000_0000;
    assert lo == 8 * m;
    DivMod.Unique(n, 64, m / 64 + q * 0x80_0000, m % 64);
  }

  lemma WrapSum(q: nat, carry: nat, c: nat)
    ensures ((q % WORD + carry) % WORD + c) % WORD == (q + c + carry) % WORD
  {
  }

  function Whole(n: nat): (w: nat)
    ensures w <= n && w % 64 == 0 && n - w < 64
  {
    n - n % 64
  }

  /** After byteReverse over the whole buffer the host reads the words of the block. */
  lemma ReversedWords(big: bool, was: seq<Byte>, now: seq<Byte>)
    requires |was| == |now| == 64
    requires forall k: nat :: k < 16 ==> ReversedWord(big, was, now, k)
    ensures NativeWords(big, now) == Words(was)
  {
    hide LeWord, NativeBytes, NativeWord;
    forall k: nat | k < 16
      ensures NativeWords(big, now)[k] == Words(was)[k]
    {
      ReversedNative(big, was, now, k);
    }
  }

  lemma ReversedNative(big: bool, was: seq<Byte>, now: seq<Byte>, k: nat)
    requires |was| == |now| && 4 * k + 4 <= |was| && ReversedWord(big, was, now, k)
    ensures NativeWord(big, now[4 * k..4 * k + 4]) ==
            LeWord(was[4 * k], was[4 * k + 1], was[4 * k + 2], was[4 * k + 3])
  {
    hide LeWord, NativeBytes, NativeWord;
    var w := LeWord(was[4 * k], was[4 * k + 1], was[4 * k + 2], was[4 * k + 3]);
    assert now[4 * k..4 * k + 4] == NativeBytes(big, w);
    LoadStored(big, w);
  }

  method Copy(a: array<Byte>, at: nat, bytes: seq<Byte>)
    requires at + |bytes| <= a.Length
    modifies a
    ensures a[..] == old(a[..at]) + bytes + old(a[at + |bytes|..])
  {
    forall j | 0 <= j < |bytes| {
      a[at + j] := bytes[j];
    }
  }

  class Md5Context {
    const big: bool     // the byte order of the host
    const always: bool  // which of the two copies of the code
    const buf: array<Word>
    const input: array<Byte>
    var lo: nat
    var hi: nat
    ghost var msg: seq<Byte>

    ghost predicate Shape() {
      buf.Length == 4 && input.Length == 64
    }

    ghost function Hash(): Chain
      requires Shape()
      reads buf
    {
      ABCD(buf[0], buf[1], buf[2], buf[3])
    }

    /** The hash is that of the first q bytes of m. */
    ghost predicate Hashed(m: seq<Byte>, q: nat)
      reads buf
    {
      Shape() && q <= |m| && q % 64 == 0 && Hash() == Fold(INIT, m[..q])
    }

    /** The hash covers the whole blocks seen so far, the buffer holds the rest, the counter their length in bits. */
    ghost predicate Valid()
      reads this, buf, input
    {
      && Shape()
      && Counts(lo, hi, |msg|)
      && Hashed(msg, Whole(|msg|))
      && input[..|msg| % 64] == msg[Whole(|msg|)..]
    }

    constructor Init(big: bool, always: bool)
      ensures Valid() && msg == [] && fresh(buf) && fresh(input)
    {
      this.big, this.always := big, always;
      buf := new Word[4](i => if i == 0 then 0x67452301 else if i == 1 then 0xefcdab89
                              else if i == 2 then 0x98badcfe else 0x10325476);
      input := new Byte[64](_ => 0);
      lo, hi := 0, 0;
      msg := [];
    }

    method TransformInput()
      requires Shape()
      modifies buf, input
      ensures Hash() == Block(old(Hash()), old(input[..]))
    {
      hide Ops, Add, LeWord, NativeWord, NativeBytes, Words, NativeWords;
      Reverse(big, always, input, 16);
      ReversedWords(big, old(input[..]), input[..]);
      Transform(buf, NativeWords(big, input[..]));
    }

    /** Adds the bits of len more bytes to the two-word counter. */
    method CountLength(len: nat, ghost n: nat)
      requires Counts(lo, hi, n) && len < WORD
      modifies this`lo, this`hi
      ensures Counts(lo, hi, n + len)
    {
      hide Counts;
      CountBits(lo, hi, n, len);
      var t := lo;
      lo := (t + 8 * len % WORD) % WORD;
      if lo < t {
        hi := (hi + 1) % WORD;
      }
      hi := (hi + len / 0x2000_0000) % WORD;
      assert (lo, hi) == AddBits(old(lo), old(hi), len);
    }

    /** Takes bytes q to q + 64 of the message m, of which the first q are hashed and t are buffered. */
    method UpdateBlock(t: nat, bytes: seq<Byte>, ghost m: seq<Byte>, ghost q: nat)
      requires Hashed(m, q) && t + |bytes| == 64
      requires q + 64 <= |m| && input[..t] + bytes == m[q..q + 64]
      modifies buf, input
      ensures Hashed(m, q + 64)
    {
      hide Block;
      Copy(input, t, bytes);
      assert input[..] == m[q..q + 64];
      TransformInput();
      FoldNext(m, q);
    }

    /** Feeds one more piece. */
    method Update(data: seq<Byte>)
      requires Valid() && |data| < WORD
      modifies this, buf, input
      ensures Valid() && msg == old(msg) + data
    {
      hide Counts, Fold, Hash;
      ghost var n := |msg|;
      var t := lo;
      CountedLow(lo, hi, n);
      CountLength(|data|, n);
      Appended(msg, data, Whole(n));
      msg := msg + data;
      Absorb(t / 8 % 64, data, msg, n);
    }

    /** Fills up the t buffered bytes, processes whole blocks, and keeps what remains. */
    method Absorb(t: nat, data: seq<Byte>, ghost m: seq<Byte>, ghost n: nat)
      requires n + |data| == |m| && t == n % 64 && Hashed(m, Whole(n))
      requires m[Whole(n)..] == input[..t] + data && m[n..] == data
      modifies buf, input
      ensures Hashed(m, Whole(|m|)) && input[..|m| % 64] == m[Whole(|m|)..]
    {
      hide Fold, Hash;
      var p := 0;
      if t != 0 {
        var room := 64 - t;
        if |data| < room {
          SameWhole(n, |data|);
          Copy(input, t, data);
          return;
        }
        FirstBlock(input[..t], data, m, Whole(n), room);
        UpdateBlock(t, data[..room], m, Whole(n));
        p := room;
      }
      p := UpdateBlocks(data, p, m, n);
      Copy(input, 0, data[p..]);
      assert data[p..] == m[n..][p..];
    }

    /** Stores the two counter words behind 56 bytes in the buffer, which the host then reads as words. */
    method StoreLength(lo: Word, hi: Word)
      requires Shape()
      modifies input
      ensures NativeWords(big, input[..]) == Words(old(input[..56]) + LeBytes(lo) + LeBytes(hi))
    {
      hide LeWord, NativeWord, NativeBytes, LeBytes, Words, NativeWords, ReversedWord;
      ghost var was := input[..];
      Reverse(big, always, input, 14);
      ghost var now := input[..];
      LastWords(big, was, now, lo, hi);
      Copy(input, 56, NativeBytes(big, lo));
      Copy(input, 60, NativeBytes(big, hi));
      assert input[..] == now[..56] + NativeBytes(big, lo) + NativeBytes(big, hi);
      assert was[..56] == old(input[..56]);
    }

    /** Appends the length in bits to 56 bytes in the buffer and transforms the last block. */
    method TransformLast(ghost n: nat)
      requires Shape() && Counts(lo, hi, n)
      modifies buf, input
      ensures Hash() == Block(old(Hash()), old(input[..56]) + LengthBytes(n))
    {
      hide Ops, Add, LengthBytes, LeBytes, Words, NativeWords, ToWord;
      LengthWords(lo, hi, n);
      StoreLength(ToWord(lo), ToWord(hi));
      assert old(input[..56]) + LeBytes(ToWord(lo)) + LeBytes(ToWord(hi)) == old(input[..56]) + LengthBytes(n);
      Transform(buf, NativeWords(big, input[..]));
    }

    /** Pads the message, appends its length and returns the digest of everything fed so far. */
    method Final() returns (digest: seq<Byte>)
      requires Valid()
      modifies this, buf, input
      ensures digest == Digest(old(msg))
      ensures lo == hi == 0 && (forall i :: 0 <= i < 4 ==> buf[i] == 0) && (forall i :: 0 <= i < 64 ==> input[i] == 0)
    {
      hide Counts, Fold, Block, LengthBytes, Pad, Zeros, LeBytes;
      var count := lo / 8 % 64;
      CountedLow(lo, hi, |msg|);
      PadFold(msg);
      Pad56(count, msg[Whole(|msg|)..]);
      TransformLast(|msg|);
      digest := Output();
      lo, hi := 0, 0;
      forall i | 0 <= i < 4 { buf[i] := 0; }
      forall i | 0 <= i < 64 { input[i] := 0; }
    }

    /** Pads out to 56 mod 64: within the block, or with a block of its own. */
    method Pad56(count: nat, ghost tail: seq<Byte>)
      requires Shape() && count < 64 && input[..count] == tail
      modifies buf, input
      ensures count < 56 ==>
                Hash() == old(Hash()) && input[..56] == tail + [0x80] + Zeros(55 - count)
      ensures count >= 56 ==>
                Hash() == Block(old(Hash()), tail + [0x80] + Zeros(63 - count)) && input[..56] == Zeros(56)
    {
      hide Block;
      input[count] := 0x80;
      var p := count + 1;
      var room := 64 - 1 - count;
      assert input[..p] == tail + [0x80];
      if room < 8 {
        Copy(input, p, Zeros(room));
        assert input[..] == tail + [0x80] + Zeros(63 - count);
        TransformInput();
        Copy(input, 0, Zeros(56));
      } else {
        Copy(input, p, Zeros(room - 8));
      }
    }

    /** The four words of the hash as bytes, the low-order byte of each first. */
    method Output() returns (digest: seq<Byte>)
      requires Shape()
      ensures var s := Hash();
              digest == LeBytes(s.a) + LeBytes(s.b) + LeBytes(s.c) + LeBytes(s.d)
    {
      hide LeWord, LeBytes, NativeBytes, ReversedWord;
      var image := new Byte[16];
      Copy(image, 0, NativeBytes(big, buf[0]) + NativeBytes(big, buf[1]) +
                     NativeBytes(big, buf[2]) + NativeBytes(big, buf[3]));
      ghost var was := image[..];
      Reverse(big, always, image, 4);
      digest := image[..];
      OutputBytes(big, Hash(), was, digest);
    }

    /** Processes data in 64-byte chunks. */
    method UpdateBlocks(data: seq<Byte>, from: nat, ghost m: seq<Byte>, ghost n: nat) returns (p: nat)
      requires from <= |data| && n + |data| == |m| && m[n..] == data
      requires Hashed(m, n + from)
      modifies buf, input
      ensures p <= |data| && n + p == Whole(|m|) && Hashed(m, n + p)
      ensures p == from ==> input[..] == old(input[..])
    {
      hide Fold, Hash, Whole;
      p := from;
      while |data| - p >= 64
        invariant from <= p <= |data| && Hashed(m, n + p)
        invariant p == from ==> input[..] == old(input[..])
      {
        Slice(m, n, data, p);
        UpdateBlock(0, data[p..p + 64], m, n + p);
        p := p + 64;
      }
      WholeBlocksOnly(n + p, |data| - p);
    }
  }

  /** The padded message is hashed as one or two blocks after the whole ones, depending on the room for the length. */
  lemma PadFold(m: seq<Byte>)
    ensures var n := |m|;
            var s, tail := Fold(INIT, m[..Whole(n)]), m[Whole(n)..] + [0x80];
            Fold(INIT, Pad(m)) ==
            if n % 64 < 56 then Block(s, tail + Zeros(55 - n % 64) + LengthBytes(n))
            else Block(Block(s, tail + Zeros(63 - n % 64)), Zeros(56) + LengthBytes(n))
  {
    hide Block, LengthBytes;
    var n := |m|;
    var head, tail := m[..Whole(n)], m[Whole(n)..] + [0x80];
    if n % 64 < 56 {
      var last := tail + Zeros(55 - n % 64) + LengthBytes(n);
      assert Pad(m) == head + last;
      FoldBlock(INIT, head, last);
    } else {
      var next, last := tail + Zeros(63 - n % 64), Zeros(56) + LengthBytes(n);
      assert Pad(m) == head + next + last;
      FoldBlock(INIT, head, next);
      FoldBlock(INIT, head + next, last);
    }
  }

  /** The two counter words, stored as host words behind the reversed bytes, complete the last block. */
  lemma LastWords(big: bool, was: seq<Byte>, now: seq<Byte>, lo: Word, hi: Word)
    requires |was| == |now| == 64
    requires forall k: nat :: k < 14 ==> ReversedWord(big, was, now, k)
    ensures NativeWords(big, now[..56] + NativeBytes(big, lo) + NativeBytes(big, hi)) ==
            Words(was[..56] + LeBytes(lo) + LeBytes(hi))
  {
    hide LeWord, NativeBytes, NativeWord, LeBytes, ReversedWord;
    var full := now[..56] + NativeBytes(big, lo) + NativeBytes(big, hi);
    var block := was[..56] + LeBytes(lo) + LeBytes(hi);
    forall k: nat | k < 16
      ensures NativeWords(big, full)[k] == Words(block)[k]
    {
      if k < 14 {
        ReversedNative(big, was, now, k);
        FrontSlice(now, NativeBytes(big, lo) + NativeBytes(big, hi), k);
        assert full == now[..56] + (NativeBytes(big, lo) + NativeBytes(big, hi));
      } else if k == 14 {
        assert full[56..60] == NativeBytes(big, lo) && block[56..60] == LeBytes(lo);
        StoredWord(big, full, block, 14, lo);
      } else {
        assert full[60..64] == NativeBytes(big, hi) && block[60..64] == LeBytes(hi);
        StoredWord(big, full, block, 15, hi);
      }
    }
  }

  lemma FrontSlice(b: seq<Byte>, rest: seq<Byte>, k: nat)
    requires |b| == 64 && |rest| == 8 && k < 14
    ensures (b[..56] + rest)[4 * k..4 * k + 4] == b[4 * k..4 * k + 4]
  {
  }

  lemma StoredWord(big: bool, full: seq<Byte>, block: seq<Byte>, k: nat, w: Word)
    requires |full| == |block| == 64 && k < 16
    requires full[4 * k..4 * k + 4] == NativeBytes(big, w) && block[4 * k..4 * k + 4] == LeBytes(w)
    ensures NativeWords(big, full)[k] == Words(block)[k]
  {
    hide LeWord, NativeBytes, NativeWord, LeBytes;
    LoadStored(big, w);
    WordOfBytes(w);
    var b := block[4 * k..4 * k + 4];
    assert b[0] == block[4 * k] && b[1] == block[4 * k + 1] && b[2] == block[4 * k + 2] && b[3] == block[4 * k + 3];
  }

  lemma Slice(m: seq<Byte>, n: nat, data: seq<Byte>, p: nat)
    requires n <= |m| && m[n..] == data && p + 64 <= |data|
    ensures data[p..p + 64] == m[n + p..n + p + 64]
  {
  }

  lemma Appended(m: seq<Byte>, data: seq<Byte>, q: nat)
    requires q <= |m|
    ensures (m + data)[..q] == m[..q] && (m + data)[q..] == m[q..] + data && (m + data)[|m|..] == data
  {
  }

  lemma LengthWords(lo: nat, hi: nat, n: nat)
    requires Counts(lo, hi, n)
    ensures LengthBytes(n) == LeBytes(ToWord(lo)) + LeBytes(ToWord(hi))
  {
    hide LeBytes, ToWord;
  }

  lemma FirstBlock(buffered: seq<Byte>, data: seq<Byte>, m: seq<Byte>, q: nat, room: nat)
    requires q <= |m| && m[q..] == buffered + data && room <= |data| && |buffered| + room == 64
    ensures q + 64 <= |m| && buffered + data[..room] == m[q..q + 64]
  {
    assert m[q..q + 64] == m[q..][..64];
  }

  /** The last eight bytes of the padded message are two words that make its length in bits, modulo 2^64. */
  lemma LengthIsRight(n: nat) returns (lo: nat, hi: nat)
    ensures lo < WORD && hi < WORD && lo + WORD * hi == 8 * n % (WORD * WORD)
    ensures var b := LengthBytes(n);
            LeWord(b[0], b[1], b[2], b[3]) == ToWord(lo) && LeWord(b[4], b[5], b[6], b[7]) == ToWord(hi)
  {
    hide LeBytes, LeWord, ToWord;
    lo, hi := 8 * n % WORD, 8 * n / WORD % WORD;
    WordOfBytes(ToWord(lo));
    WordOfBytes(ToWord(hi));
    LengthNumber(8 * n);
  }

  lemma LengthNumber(x: nat)
    ensures x % WORD + WORD * (x / WORD % WORD) == x % (WORD * WORD)
  {
    DivMod.Parts(x, WORD);
    DivMod.Parts(x / WORD, WORD);
    TwoWords(x / WORD / WORD, x / WORD % WORD, x % WORD);
  }

  lemma TwoWords(q: nat, hi: nat, lo: nat)
    requires hi < WORD && lo < WORD
    ensures ((q * WORD + hi) * WORD + lo) % (WORD * WORD) == WORD * hi + lo
  {
    DivMod.AddRounds(WORD * hi + lo, q, WORD * WORD);
    DivMod.Unique(WORD * hi + lo, WORD * WORD, 0, WORD * hi + lo);
    assert (q * WORD + hi) * WORD + lo == WORD * hi + lo + q * (WORD * WORD);
  }

  lemma WholeBlocksOnly(q: nat, k: nat)
    requires q % 64 == 0 && k < 64
    ensures Whole(q + k) == q
  {
  }

  lemma SameWhole(n: nat, k: nat)
    requires n % 64 + k < 64
    ensures Whole(n + k) == Whole(n)
  {
  }

  lemma CountedLow(lo: nat, hi: nat, n: nat)
    requires Counts(lo, hi, n)
    ensures lo / 8 % 64 == n % 64
  {
    BytesBuffered(lo, n);
  }

  lemma FoldNext(m: seq<Byte>, q: nat)
    requires q % 64 == 0 && q + 64 <= |m|
    ensures Fold(INIT, m[..q + 64]) == Block(Fold(INIT, m[..q]), m[q..q + 64])
  {
    hide Block;
    FoldBlock(INIT, m[..q], m[q..q + 64]);
    assert m[..q] + m[q..q + 64] == m[..q + 64];
  }

  lemma OutputWord(big: bool, was: seq<Byte>, now: seq<Byte>, k: nat, w: Word)
    requires |was| == |now| && 4 * k + 4 <= |was| && ReversedWord(big, was, now, k)
    requires was[4 * k..4 * k + 4] == NativeBytes(big, w)
    ensures now[4 * k..4 * k + 4] == LeBytes(w)
  {
    hide LeWord, LeBytes, NativeBytes;
    ByteReversed(big, w);
    var b := was[4 * k..4 * k + 4];
    assert b[0] == was[4 * k] && b[1] == was[4 * k + 1] && b[2] == was[4 * k + 2] && b[3] == was[4 * k + 3];
  }

  lemma OutputBytes(big: bool, s: Chain, was: seq<Byte>, now: seq<Byte>)
    requires was == NativeBytes(big, s.a) + NativeBytes(big, s.b) + NativeBytes(big, s.c) + NativeBytes(big, s.d)
    requires |now| == 16 && forall k: nat :: k < 4 ==> ReversedWord(big, was, now, k)
    ensures now == LeBytes(s.a) + LeBytes(s.b) + LeBytes(s.c) + LeBytes(s.d)
  {
    hide LeBytes, NativeBytes, ReversedWord;
    assert was[0..4] == NativeBytes(big, s.a) && was[4..8] == NativeBytes(big, s.b);
    assert was[8..12] == NativeBytes(big, s.c) && was[12..16] == NativeBytes(big, s.d);
    OutputWord(big, was, now, 0, s.a);
    OutputWord(big, was, now, 1, s.b);
    OutputWord(big, was, now, 2, s.c);
    OutputWord(big, was, now, 3, s.d);
    Quarters(now);
  }

  lemma Quarters(b: seq<Byte>)
    requires |b| == 16
    ensures b == b[0..4] + b[4..8] + b[8..12] + b[12..16]
  {
  }

  function Concat(parts: seq<seq<Byte>>): seq<Byte> {
    if parts == [] then [] else Concat(parts[..|parts| - 1]) + parts[|parts| - 1]
  }

  /** A client that feeds any number of pieces gets the digest of their concatenation, however it is split. */
  method Md5Parts(big: bool, parts: seq<seq<Byte>>) returns (digest: seq<Byte>)
    requires forall i :: 0 <= i < |parts| ==> |parts[i]| < WORD
    ensures digest == Digest(Concat(parts))
  {
    hide Digest, Md5Context.Valid;
    var ctx := new Md5Context.Init(big, false);
    for i := 0 to |parts|
      invariant ctx.Valid() && fresh(ctx) && fresh(ctx.buf) && fresh(ctx.input)
      invariant ctx.msg == Concat(parts[..i])
    {
      assert parts[..i + 1][..i] == parts[..i];
      ctx.Update(parts[i]);
    }
    assert parts[..|parts|] == parts;
    digest := ctx.Final();
  }

  method Md5(big: bool, input: seq<Byte>) returns (digest: seq<Byte>)
    requires |input| < 0x8000_0000
    ensures digest == Digest(input)
  {
    hide Digest, Md5Context.Valid;
    var ctx := new Md5Context.Init(big, true);
    ctx.Update(input);
    assert ctx.msg == input;
    digest := ctx.Final();
  }

  // The digest as text

  const HEX: string := "0123456789abcdef"

  function Digit(n: nat): char
    requires n < 16
  {
    HEX[n]
  }

  function HighHalf(b: Byte): (n: nat)
    ensures n < 16
  {
    (b >> 4) as nat
  }

  function LowHalf(b: Byte): (n: nat)
    ensures n < 16
  {
    (b & 0x0f) as nat
  }

  function Hex(b: seq<Byte>): (s: string)
    ensures |s| == 2 * |b|
  {
    if b == [] then "" else Hex(b[..|b| - 1]) + [Digit(HighHalf(b[|b| - 1])), Digit(LowHalf(b[|b| - 1]))]
  }

  /** Each byte gives two digits, the high half first. */
  lemma {:induction false} HexAt(b: seq<Byte>, k: nat)
    requires k < |b|
    ensures Hex(b)[2 * k] == Digit(HighHalf(b[k])) && Hex(b)[2 * k + 1] == Digit(LowHalf(b[k]))
  {
    hide HighHalf, LowHalf, Digit;
    if k < |b| - 1 {
      HexAt(b[..|b| - 1], k);
    }
  }

  lemma DigitIs(n: nat)
    requires n < 16
    ensures Digit(n) == if n < 10 then '0' + n as char else 'a' + (n - 10) as char
  {
  }

  lemma HalvesAre(b: Byte)
    ensures 16 * HighHalf(b) + LowHalf(b) == b as nat
  {
  }

  lemma Halves(x: Byte, y: Byte)
    requires HighHalf(x) == HighHalf(y) && LowHalf(x) == LowHalf(y)
    ensures x == y
  {
    SameHalves(x, y, x >> 4, y >> 4, x & 0x0f, y & 0x0f);
  }

  lemma SameHalves(x: Byte, y: Byte, xh: Byte, yh: Byte, xl: Byte, yl: Byte)
    requires xh == x >> 4 && yh == y >> 4 && xl == x & 0x0f && yl == y & 0x0f && xh == yh && xl == yl
    ensures x == y
  {
    assert x == (xh << 4) | xl && y == (yh << 4) | yl;
  }

  lemma DigitIsInjective(m: nat, n: nat)
    requires m < 16 && n < 16 && Digit(m) == Digit(n)
    ensures m == n
  {
  }

  lemma HexStep(b: seq<Byte>)
    requires b != []
    ensures var x := b[|b| - 1]; Hex(b) == Hex(b[..|b| - 1]) + [Digit(HighHalf(x)), Digit(LowHalf(x))]
  {
  }

  lemma SamePairs(u: string, p: char, q: char, v: string, r: char, t: char)
    requires |u| == |v| && u + [p, q] == v + [r, t]
    ensures u == v && p == r && q == t
  {
    var s := u + [p, q];
    assert u == s[..|u|] && v == s[..|u|];
    assert s[|u|] == p && s[|u| + 1] == q && (v + [r, t])[|u|] == r && (v + [r, t])[|u| + 1] == t;
  }

  /** The text determines the bytes. */
  lemma {:induction false} HexIsInjective(a: seq<Byte>, b: seq<Byte>)
    requires Hex(a) == Hex(b)
    ensures a == b
  {
    if a != [] {
      hide HighHalf, LowHalf, Digit, Hex;
      var c, d, x, y := a[..|a| - 1], b[..|b| - 1], a[|a| - 1], b[|b| - 1];
      assert |a| == |b|;
      HexStep(a);
      HexStep(b);
      SamePairs(Hex(c), Digit(HighHalf(x)), Digit(LowHalf(x)), Hex(d), Digit(HighHalf(y)), Digit(LowHalf(y)));
      HexIsInjective(c, d);
      DigitIsInjective(HighHalf(x), HighHalf(y));
      DigitIsInjective(LowHalf(x), LowHalf(y));
      Halves(x, y);
      assert a == c + [x] && b == d + [y];
    }
  }

  method Bin2Str(p: seq<Byte>) returns (to: string)
    ensures to == Hex(p)
  {
    hide HighHalf, LowHalf;
    to := "";
    assert p[..0] == [];
    for i := 0 to |p|
      invariant to == Hex(p[..i])
    {
      assert p[..i + 1][..i] == p[..i];
      to := to + [Digit(HighHalf(p[i]))];
      to := to + [Digit(LowHalf(p[i]))];
    }
    assert p[..|p|] == p;
  }

  /** The web server's digest of a list of strings: 32 hexadecimal digits. */
  method MgMd5(big: bool, parts: seq<seq<Byte>>) returns (buf: string)
    requires forall i :: 0 <= i < |parts| ==> |parts[i]| < WORD
    ensures buf == Hex(Digest(Concat(parts))) && |buf| == 32
  {
    hide Digest;
    var hash := Md5Parts(big, parts);
    buf := Bin2Str(hash);
  }
}
