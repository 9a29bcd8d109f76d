/** The digest of "abc" by the definitions: the value in the test suite of RFC 1321 (section A.5). */
module Md5Vector {
  import opened Common
  import opened Md5Spec
  import opened Md5Transform

  const ABC: seq<Byte> := [0x61, 0x62, 0x63]

  /** Its only block: three bytes, the first bit of the padding, zeros, and a length of 24 bits. */
  ghost predicate AbcBlock(x: seq<Word>) {
    && |x| == 16 && x[0] == 0x80636261 && x[14] == 24
    && x[1] == x[2] == x[3] == x[4] == x[5] == x[6] == x[7] == 0
    && x[8] == x[9] == x[10] == x[11] == x[12] == x[13] == x[15] == 0
  }

  function NewWord(f: Word, a: Word, b: Word, x: Word, t: Word, s: nat): Word
    requires s < 32
  {
    Sum(b, RotL(Sum(a, Sum(f, Sum(x, t))), s))
  }

  /** One operation on known words. */
  lemma Next(i: nat, x: seq<Word>, c: Chain, to: Word)
    requires i < 64 && |x| == 16 && Ops(i, INIT, x) == c
    requires to == NewWord(Mix(i / 16, c.b, c.c, c.d), c.a, c.b, x[Index(i)], T(i), Shift(i))
    ensures Ops(i + 1, INIT, x) == ABCD(c.d, to, c.b, c.c)
  {
    hide Sum, RotL, Mix, Index, T, Shift;
  }

  lemma Abc1(x: seq<Word>)
    requires AbcBlock(x)
    ensures Ops(16, INIT, x) == ABCD(0xdda9b9a6, 0x72aff2e0, 0xe396856b, 0xa1051895)
  {
    hide T, Index, Shift, Ops;
    Table1();
    assert Ops(0, INIT, x) == INIT by { Zero(x); }
    Next(0, x, ABCD(0x67452301, 0xefcdab89, 0x98badcfe, 0x10325476), 0xd6d117b4);
    Next(1, x, ABCD(0x10325476, 0xd6d117b4, 0xefcdab89, 0x98badcfe), 0x344a8432);
    Next(2, x, ABCD(0x98badcfe, 0x344a8432, 0xd6d117b4, 0xefcdab89), 0x2f6fbd72);
    Next(3, x, ABCD(0xefcdab89, 0x2f6fbd72, 0x344a8432, 0xd6d117b4), 0x7ad956f2);
    Next(4, x, ABCD(0xd6d117b4, 0x7ad956f2, 0x2f6fbd72, 0x344a8432), 0xc73741ef);
    Next(5, x, ABCD(0x344a8432, 0xc73741ef, 0x7ad956f2, 0x2f6fbd72), 0x8bac3051);
    Next(6, x, ABCD(0x2f6fbd72, 0x8bac3051, 0xc73741ef, 0x7ad956f2), 0x207dc67b);
    Next(7, x, ABCD(0x7ad956f2, 0x207dc67b, 0x8bac3051, 0xc73741ef), 0x928d99f6);
    Next(8, x, ABCD(0xc73741ef, 0x928d99f6, 0x207dc67b, 0x8bac3051), 0x854b3712);
    Next(9, x, ABCD(0x8bac3051, 0x854b3712, 0x928d99f6, 0x207dc67b), 0x74e2f284);
    Next(10, x, ABCD(0x207dc67b, 0x74e2f284, 0x854b3712, 0x928d99f6), 0x3020401c);
    Next(11, x, ABCD(0x928d99f6, 0x3020401c, 0x74e2f284, 0x854b3712), 0x5ed49596);
    Next(12, x, ABCD(0x854b3712, 0x5ed49596, 0x3020401c, 0x74e2f284), 0xdda9b9a6);
    Next(13, x, ABCD(0x74e2f284, 0xdda9b9a6, 0x5ed49596, 0x3020401c), 0xa1051895);
    Next(14, x, ABCD(0x3020401c, 0xa1051895, 0xdda9b9a6, 0x5ed49596), 0xe396856b);
    Next(15, x, ABCD(0x5ed49596, 0xe396856b, 0xa1051895, 0xdda9b9a6), 0x72aff2e0);
  }

  lemma Abc2(x: seq<Word>)
    requires AbcBlock(x) && Ops(16, INIT, x) == ABCD(0xdda9b9a6, 0x72aff2e0, 0xe396856b, 0xa1051895)
    ensures Ops(32, INIT, x) == ABCD(0x790a77fb, 0x726342d3, 0xa62884aa, 0x9f47e4f8)
  {
    hide T, Index, Shift, Ops;
    Table2();
    Next(16, x, ABCD(0xdda9b9a6, 0x72aff2e0, 0xe396856b, 0xa1051895), 0x3e9e9126);
    Next(17, x, ABCD(0xa1051895, 0x3e9e9126, 0x72aff2e0, 0xe396856b), 0x4a1d804e);
    Next(18, x, ABCD(0xe396856b, 0x4a1d804e, 0x3e9e9126, 0x72aff2e0), 0xe25e1652);
    Next(19, x, ABCD(0x72aff2e0, 0xe25e1652, 0x4a1d804e, 0x3e9e9126), 0xb5b204e4);
    Next(20, x, ABCD(0x3e9e9126, 0xb5b204e4, 0xe25e1652, 0x4a1d804e), 0x59a8ffda);
    Next(21, x, ABCD(0x4a1d804e, 0x59a8ffda, 0xb5b204e4, 0xe25e1652), 0x6d002f1e);
    Next(22, x, ABCD(0xe25e1652, 0x6d002f1e, 0x59a8ffda, 0xb5b204e4), 0xabfc7920);
    Next(23, x, ABCD(0xb5b204e4, 0xabfc7920, 0x6d002f1e, 0x59a8ffda), 0x47092c07);
    Next(24, x, ABCD(0x59a8ffda, 0x47092c07, 0xabfc7920, 0x6d002f1e), 0xb7f268cf);
    Next(25, x, ABCD(0x6d002f1e, 0xb7f268cf, 0x47092c07, 0xabfc7920), 0x09388eff);
    Next(26, x, ABCD(0xabfc7920, 0x09388eff, 0xb7f268cf, 0x47092c07), 0xfe1623b1);
    Next(27, x, ABCD(0x47092c07, 0xfe1623b1, 0x09388eff, 0xb7f268cf), 0x786acb8f);
    Next(28, x, ABCD(0xb7f268cf, 0x786acb8f, 0xfe1623b1, 0x09388eff), 0x790a77fb);
    Next(29, x, ABCD(0x09388eff, 0x790a77fb, 0x786acb8f, 0xfe1623b1), 0x9f47e4f8);
    Next(30, x, ABCD(0xfe1623b1, 0x9f47e4f8, 0x790a77fb, 0x786acb8f), 0xa62884aa);
    Next(31, x, ABCD(0x786acb8f, 0xa62884aa, 0x9f47e4f8, 0x790a77fb), 0x726342d3);
  }

  lemma Abc3(x: seq<Word>)
    requires AbcBlock(x) && Ops(32, INIT, x) == ABCD(0x790a77fb, 0x726342d3, 0xa62884aa, 0x9f47e4f8)
    ensures Ops(48, INIT, x) == ABCD(0x7f2e507b, 0x7beb9700, 0x8fae6399, 0x99d9679d)
  {
    hide T, Index, Shift, Ops;
    Table3();
    Next(32, x, ABCD(0x790a77fb, 0x726342d3, 0xa62884aa, 0x9f47e4f8), 0xb3707ebf);
    Next(33, x, ABCD(0x9f47e4f8, 0xb3707ebf, 0x726342d3, 0xa62884aa), 0x60127b2e);
    Next(34, x, ABCD(0xa62884aa, 0x60127b2e, 0xb3707ebf, 0x726342d3), 0x8d212ff5);
    Next(35, x, ABCD(0x726342d3, 0x8d212ff5, 0x60127b2e, 0xb3707ebf), 0x3b0875c7);
    Next(36, x, ABCD(0xb3707ebf, 0x3b0875c7, 0x8d212ff5, 0x60127b2e), 0x21b117b9);
    Next(37, x, ABCD(0x60127b2e, 0x21b117b9, 0x3b0875c7, 0x8d212ff5), 0x6e7429d5);
    Next(38, x, ABCD(0x8d212ff5, 0x6e7429d5, 0x21b117b9, 0x3b0875c7), 0x3575227e);
    Next(39, x, ABCD(0x3b0875c7, 0x3575227e, 0x6e7429d5, 0x21b117b9), 0x5a2f5ea5);
    Next(40, x, ABCD(0x21b117b9, 0x5a2f5ea5, 0x3575227e, 0x6e7429d5), 0x11de1779);
    Next(41, x, ABCD(0x6e7429d5, 0x11de1779, 0x5a2f5ea5, 0x3575227e), 0xfadcaa38);
    Next(42, x, ABCD(0x3575227e, 0xfadcaa38, 0x11de1779, 0x5a2f5ea5), 0x31c465ca);
    Next(43, x, ABCD(0x5a2f5ea5, 0x31c465ca, 0xfadcaa38, 0x11de1779), 0x4c6124f4);
    Next(44, x, ABCD(0x11de1779, 0x4c6124f4, 0x31c465ca, 0xfadcaa38), 0x7f2e507b);
    Next(45, x, ABCD(0xfadcaa38, 0x7f2e507b, 0x4c6124f4, 0x31c465ca), 0x99d9679d);
    Next(46, x, ABCD(0x31c465ca, 0x99d9679d, 0x7f2e507b, 0x4c6124f4), 0x8fae6399);
    Next(47, x, ABCD(0x4c6124f4, 0x8fae6399, 0x99d9679d, 0x7f2e507b), 0x7beb9700);
  }

  lemma Abc4(x: seq<Word>)
    requires AbcBlock(x) && Ops(48, INIT, x) == ABCD(0x7f2e507b, 0x7beb9700, 0x8fae6399, 0x99d9679d)
    ensures Ops(64, INIT, x) == ABCD(0x310ade8f, 0xc08226b3, 0xe484b9d8, 0x624d8cb2)
  {
    hide T, Index, Shift, Ops;
    Table4();
    Next(48, x, ABCD(0x7f2e507b, 0x7beb9700, 0x8fae6399, 0x99d9679d), 0x7b201df8);
    Next(49, x, ABCD(0x99d9679d, 0x7b201df8, 0x7beb9700, 0x8fae6399), 0xf4e8e96e);
    Next(50, x, ABCD(0x8fae6399, 0xf4e8e96e, 0x7b201df8, 0x7beb9700), 0xb298cefd);
    Next(51, x, ABCD(0x7beb9700, 0xb298cefd, 0xf4e8e96e, 0x7b201df8), 0x8bf025c4);
    Next(52, x, ABCD(0x7b201df8, 0x8bf025c4, 0xb298cefd, 0xf4e8e96e), 0x06cc5e8a);
    Next(53, x, ABCD(0xf4e8e96e, 0x06cc5e8a, 0x8bf025c4, 0xb298cefd), 0x5b0d97aa);
    Next(54, x, ABCD(0xb298cefd, 0x5b0d97aa, 0x06cc5e8a, 0x8bf025c4), 0x7d632dd0);
    Next(55, x, ABCD(0x8bf025c4, 0x7d632dd0, 0x5b0d97aa, 0x06cc5e8a), 0x3bfa2c27);
    Next(56, x, ABCD(0x06cc5e8a, 0x3bfa2c27, 0x7d632dd0, 0x5b0d97aa), 0x7f81cc35);
    Next(57, x, ABCD(0x5b0d97aa, 0x7f81cc35, 0x3bfa2c27, 0x7d632dd0), 0x094454ab);
    Next(58, x, ABCD(0x7d632dd0, 0x094454ab, 0x7f81cc35, 0x3bfa2c27), 0x4f9dbe3f);
    Next(59, x, ABCD(0x3bfa2c27, 0x4f9dbe3f, 0x094454ab, 0x7f81cc35), 0x7327d604);
    Next(60, x, ABCD(0x7f81cc35, 0x7327d604, 0x4f9dbe3f, 0x094454ab), 0x310ade8f);
    Next(61, x, ABCD(0x094454ab, 0x310ade8f, 0x7327d604, 0x4f9dbe3f), 0x624d8cb2);
    Next(62, x, ABCD(0x4f9dbe3f, 0x624d8cb2, 0x310ade8f, 0x7327d604), 0xe484b9d8);
    Next(63, x, ABCD(0x7327d604, 0xe484b9d8, 0x624d8cb2, 0x310ade8f), 0xc08226b3);
  }

  lemma Zero(x: seq<Word>)
    requires |x| == 16
    ensures Ops(0, INIT, x) == INIT
  {
  }

  lemma AbcPadded()
    ensures |Pad(ABC)| == 64 && AbcBlock(Words(Pad(ABC)))
  {
    hide LeWord, LeBytes;
    var p := Pad(ABC);
    assert p == ABC + ([0x80] + Zeros(52)) + LengthBytes(3);
    assert p[..4] == [0x61, 0x62, 0x63, 0x80];
    assert forall i :: 4 <= i < 56 ==> p[i] == 0;
    AbcLength();
    assert p[56..] == [24, 0, 0, 0, 0, 0, 0, 0];
    assert p[56] == 24 && forall i :: 57 <= i < 64 ==> p[i] == p[56..][i - 56] == 0;
    AbcWords();
  }

  lemma AbcLength()
    ensures LengthBytes(3) == [24, 0, 0, 0, 0, 0, 0, 0]
  {
    assert 8 * 3 % WORD == 24 && 8 * 3 / WORD % WORD == 0;
    assert LeBytes(24) == [24, 0, 0, 0] && LeBytes(0) == [0, 0, 0, 0];
  }

  lemma AbcWords()
    ensures LeWord(0x61, 0x62, 0x63, 0x80) == 0x80636261 && LeWord(24, 0, 0, 0) == 24 && LeWord(0, 0, 0, 0) == 0
  {
  }

  lemma AbcSums()
    ensures Add(INIT, ABCD(0x310ade8f, 0xc08226b3, 0xe484b9d8, 0x624d8cb2)) ==
            ABCD(0x98500190, 0xb04fd23c, 0x7d3f96d6, 0x727fe128)
    ensures LeBytes(0x98500190) == [0x90, 0x01, 0x50, 0x98]
    ensures LeBytes(0xb04fd23c) == [0x3c, 0xd2, 0x4f, 0xb0]
    ensures LeBytes(0x7d3f96d6) == [0xd6, 0x96, 0x3f, 0x7d]
    ensures LeBytes(0x727fe128) == [0x28, 0xe1, 0x7f, 0x72]
  {
  }

  /** MD5 ("abc") = 900150983cd24fb0d6963f7d28e17f72 */
  lemma AbcDigest()
    ensures Digest(ABC) == [0x90, 0x01, 0x50, 0x98, 0x3c, 0xd2, 0x4f, 0xb0,
                            0xd6, 0x96, 0x3f, 0x7d, 0x28, 0xe1, 0x7f, 0x72]
  {
    var p := Pad(ABC);
    hide Pad, Ops, Words, LeBytes, LeWord, Add;
    AbcPadded();
    Abc1(Words(p));
    Abc2(Words(p));
    Abc3(Words(p));
    Abc4(Words(p));
    AbcSums();
    assert p[..0] == [] && p[0..] == p;
    assert Fold(INIT, p[..0]) == INIT && Fold(INIT, p) == Block(INIT, p);
  }
}
