/** The unrolled core of the digest: 64 in-place steps on four working words, against the 64 operations of the RFC. */
module Md5Transform {
  import opened Md5Spec

  // The core functions with fewer operations than in the RFC
  function F1(x: Word, y: Word, z: Word): Word { z ^ (x & (y ^ z)) }
  function F2(x: Word, y: Word, z: Word): Word { F1(z, x, y) }
  function F3(x: Word, y: Word, z: Word): Word { x ^ y ^ z }
  function F4(x: Word, y: Word, z: Word): Word { y ^ (x | !z) }

  function Md5Step(f: Word, w: Word, x: Word, data: Word, s: nat): Word
    requires 0 < s < 32
  {
    Sum(RotL(Sum(w, Sum(f, data)), s), x)
  }

  lemma SelectF(x: Word, y: Word, z: Word)
    ensures z ^ (x & (y ^ z)) == (x & y) | (!x & z)
  {
  }

  lemma SelectG(x: Word, y: Word, z: Word)
    ensures y ^ (z & (x ^ y)) == (x & z) | (y & !z)
  {
  }

  lemma F1IsF(x: Word, y: Word, z: Word)
    ensures F1(x, y, z) == F(x, y, z)
  {
    SelectF(x, y, z);
  }

  lemma F2IsG(x: Word, y: Word, z: Word)
    ensures F2(x, y, z) == G(x, y, z)
  {
    SelectG(x, y, z);
  }

  lemma Commute(x: Word, y: Word)
    ensures Sum(x, y) == Sum(y, x)
  {
  }

  lemma OpIsStep(i: nat, c: Chain, x: seq<Word>)
    requires i < 64 && |x| == 16
    ensures Op(i, c, x) ==
            ABCD(c.d, Md5Step(Mix(i / 16, c.b, c.c, c.d), c.a, c.b, Sum(x[Index(i)], T(i)), Shift(i)), c.b, c.c)
  {
    hide Sum, RotL, Mix, Index, T, Shift;
    Commute(c.b, RotL(Sum(c.a, Sum(Mix(i / 16, c.b, c.c, c.d), Sum(x[Index(i)], T(i)))), Shift(i)));
  }

  lemma Op1(i: nat, s: Chain, x: seq<Word>, c: Chain)
    requires 0 <= i < 16 && |x| == 16 && Ops(i, s, x) == c
    ensures Ops(i + 1, s, x) ==
            ABCD(c.d, Md5Step(F1(c.b, c.c, c.d), c.a, c.b, Sum(x[Index(i)], T(i)), Shift(i)), c.b, c.c)
  {
    hide Sum, RotL, Index, T, Shift, Md5Step;
    OpIsStep(i, c, x);
    F1IsF(c.b, c.c, c.d);
  }

  lemma Table1()
    ensures Index(0) == 0 && T(0) == 0xd76aa478 && Shift(0) == 7
    ensures Index(1) == 1 && T(1) == 0xe8c7b756 && Shift(1) == 12
    ensures Index(2) == 2 && T(2) == 0x242070db && Shift(2) == 17
    ensures Index(3) == 3 && T(3) == 0xc1bdceee && Shift(3) == 22
    ensures Index(4) == 4 && T(4) == 0xf57c0faf && Shift(4) == 7
    ensures Index(5) == 5 && T(5) == 0x4787c62a && Shift(5) == 12
    ensures Index(6) == 6 && T(6) == 0xa8304613 && Shift(6) == 17
    ensures Index(7) == 7 && T(7) == 0xfd469501 && Shift(7) == 22
    ensures Index(8) == 8 && T(8) == 0x698098d8 && Shift(8) == 7
    ensures Index(9) == 9 && T(9) == 0x8b44f7af && Shift(9) == 12
    ensures Index(10) == 10 && T(10) == 0xffff5bb1 && Shift(10) == 17
    ensures Index(11) == 11 && T(11) == 0x895cd7be && Shift(11) == 22
    ensures Index(12) == 12 && T(12) == 0x6b901122 && Shift(12) == 7
    ensures Index(13) == 13 && T(13) == 0xfd987193 && Shift(13) == 12
    ensures Index(14) == 14 && T(14) == 0xa679438e && Shift(14) == 17
    ensures Index(15) == 15 && T(15) == 0x49b40821 && Shift(15) == 22
  {
  }

  lemma Op2(i: nat, s: Chain, x: seq<Word>, c: Chain)
    requires 16 <= i < 32 && |x| == 16 && Ops(i, s, x) == c
    ensures Ops(i + 1, s, x) ==
            ABCD(c.d, Md5Step(F2(c.b, c.c, c.d), c.a, c.b, Sum(x[Index(i)], T(i)), Shift(i)), c.b, c.c)
  {
    hide Sum, RotL, Index, T, Shift, Md5Step;
    OpIsStep(i, c, x);
    F2IsG(c.b, c.c, c.d);
  }

  lemma Table2()
    ensures Index(16) == 1 && T(16) == 0xf61e2562 && Shift(16) == 5
    ensures Index(17) == 6 && T(17) == 0xc040b340 && Shift(17) == 9
    ensures Index(18) == 11 && T(18) == 0x265e5a51 && Shift(18) == 14
    ensures Index(19) == 0 && T(19) == 0xe9b6c7aa && Shift(19) == 20
    ensures Index(20) == 5 && T(20) == 0xd62f105d && Shift(20) == 5
    ensures Index(21) == 10 && T(21) == 0x02441453 && Shift(21) == 9
    ensures Index(22) == 15 && T(22) == 0xd8a1e681 && Shift(22) == 14
    ensures Index(23) == 4 && T(23) == 0xe7d3fbc8 && Shift(23) == 20
    ensures Index(24) == 9 && T(24) == 0x21e1cde6 && Shift(24) == 5
    ensures Index(25) == 14 && T(25) == 0xc33707d6 && Shift(25) == 9
    ensures Index(26) == 3 && T(26) == 0xf4d50d87 && Shift(26) == 14
    ensures Index(27) == 8 && T(27) == 0x455a14ed && Shift(27) == 20
    ensures Index(28) == 13 && T(28) == 0xa9e3e905 && Shift(28) == 5
    ensures Index(29) == 2 && T(29) == 0xfcefa3f8 && Shift(29) == 9
    ensures Index(30) == 7 && T(30) == 0x676f02d9 && Shift(30) == 14
    ensures Index(31) == 12 && T(31) == 0x8d2a4c8a && Shift(31) == 20
  {
  }

  lemma Op3(i: nat, s: Chain, x: seq<Word>, c: Chain)
    requires 32 <= i < 48 && |x| == 16 && Ops(i, s, x) == c
    ensures Ops(i + 1, s, x) ==
            ABCD(c.d, Md5Step(F3(c.b, c.c, c.d), c.a, c.b, Sum(x[Index(i)], T(i)), Shift(i)), c.b, c.c)
  {
    hide Sum, RotL, Index, T, Shift, Md5Step;
    OpIsStep(i, c, x);
  }

  lemma Table3()
    ensures Index(32) == 5 && T(32) == 0xfffa3942 && Shift(32) == 4
    ensures Index(33) == 8 && T(33) == 0x8771f681 && Shift(33) == 11
    ensures Index(34) == 11 && T(34) == 0x6d9d6122 && Shift(34) == 16
    ensures Index(35) == 14 && T(35) == 0xfde5380c && Shift(35) == 23
    ensures Index(36) == 1 && T(36) == 0xa4beea44 && Shift(36) == 4
    ensures Index(37) == 4 && T(37) == 0x4bdecfa9 && Shift(37) == 11
    ensures Index(38) == 7 && T(38) == 0xf6bb4b60 && Shift(38) == 16
    ensures Index(39) == 10 && T(39) == 0xbebfbc70 && Shift(39) == 23
    ensures Index(40) == 13 && T(40) == 0x289b7ec6 && Shift(40) == 4
    ensures Index(41) == 0 && T(41) == 0xeaa127fa && Shift(41) == 11
    ensures Index(42) == 3 && T(42) == 0xd4ef3085 && Shift(42) == 16
    ensures Index(43) == 6 && T(43) == 0x04881d05 && Shift(43) == 23
    ensures Index(44) == 9 && T(44) == 0xd9d4d039 && Shift(44) == 4
    ensures Index(45) == 12 && T(45) == 0xe6db99e5 && Shift(45) == 11
    ensures Index(46) == 15 && T(46) == 0x1fa27cf8 && Shift(46) == 16
    ensures Index(47) == 2 && T(47) == 0xc4ac5665 && Shift(47) == 23
  {
  }

  lemma Op4(i: nat, s: Chain, x: seq<Word>, c: Chain)
    requires 48 <= i < 64 && |x| == 16 && Ops(i, s, x) == c
    ensures Ops(i + 1, s, x) ==
            ABCD(c.d, Md5Step(F4(c.b, c.c, c.d), c.a, c.b, Sum(x[Index(i)], T(i)), Shift(i)), c.b, c.c)
  {
    hide Sum, RotL, Index, T, Shift, Md5Step;
    OpIsStep(i, c, x);
  }

  lemma Table4()
    ensures Index(48) == 0 && T(48) == 0xf4292244 && Shift(48) == 6
    ensures Index(49) == 7 && T(49) == 0x432aff97 && Shift(49) == 10
    ensures Index(50) == 14 && T(50) == 0xab9423a7 && Shift(50) == 15
    ensures Index(51) == 5 && T(51) == 0xfc93a039 && Shift(51) == 21
    ensures Index(52) == 12 && T(52) == 0x655b59c3 && Shift(52) == 6
    ensures Index(53) == 3 && T(53) == 0x8f0ccc92 && Shift(53) == 10
    ensures Index(54) == 10 && T(54) == 0xffeff47d && Shift(54) == 15
    ensures Index(55) == 1 && T(55) == 0x85845dd1 && Shift(55) == 21
    ensures Index(56) == 8 && T(56) == 0x6fa87e4f && Shift(56) == 6
    ensures Index(57) == 15 && T(57) == 0xfe2ce6e0 && Shift(57) == 10
    ensures Index(58) == 6 && T(58) == 0xa3014314 && Shift(58) == 15
    ensures Index(59) == 13 && T(59) == 0x4e0811a1 && Shift(59) == 21
    ensures Index(60) == 4 && T(60) == 0xf7537e82 && Shift(60) == 6
    ensures Index(61) == 11 && T(61) == 0xbd3af235 && Shift(61) == 10
    ensures Index(62) == 2 && T(62) == 0x2ad7d2bb && Shift(62) == 15
    ensures Index(63) == 9 && T(63) == 0xeb86d391 && Shift(63) == 21
  {
  }

  method Round1(ghost s: Chain, x: seq<Word>, from: Chain) returns (to: Chain)
    requires |x| == 16
    requires from == Ops(0, s, x)
    ensures to == Ops(16, s, x)
  {
    hide Ops, Op, Sum, RotL, Mix, Md5Step, F1, F2, F3, F4, Index, T, Shift;
    Table1();
    var ABCD(a, b, c, d) := from;
    Op1(0, s, x, ABCD(a, b, c, d));
    a := Md5Step(F1(b, c, d), a, b, Sum(x[0], 0xd76aa478), 7);
    Op1(1, s, x, ABCD(d, a, b, c));
    d := Md5Step(F1(a, b, c), d, a, Sum(x[1], 0xe8c7b756), 12);
    Op1(2, s, x, ABCD(c, d, a, b));
    c := Md5Step(F1(d, a, b), c, d, Sum(x[2], 0x242070db), 17);
    Op1(3, s, x, ABCD(b, c, d, a));
    b := Md5Step(F1(c, d, a), b, c, Sum(x[3], 0xc1bdceee), 22);
    Op1(4, s, x, ABCD(a, b, c, d));
    a := Md5Step(F1(b, c, d), a, b, Sum(x[4], 0xf57c0faf), 7);
    Op1(5, s, x, ABCD(d, a, b, c));
    d := Md5Step(F1(a, b, c), d, a, Sum(x[5], 0x4787c62a), 12);
    Op1(6, s, x, ABCD(c, d, a, b));
    c := Md5Step(F1(d, a, b), c, d, Sum(x[6], 0xa8304613), 17);
    Op1(7, s, x, ABCD(b, c, d, a));
    b := Md5Step(F1(c, d, a), b, c, Sum(x[7], 0xfd469501), 22);
    Op1(8, s, x, ABCD(a, b, c, d));
    a := Md5Step(F1(b, c, d), a, b, Sum(x[8], 0x698098d8), 7);
    Op1(9, s, x, ABCD(d, a, b, c));
    d := Md5Step(F1(a, b, c), d, a, Sum(x[9], 0x8b44f7af), 12);
    Op1(10, s, x, ABCD(c, d, a, b));
    c := Md5Step(F1(d, a, b), c, d, Sum(x[10], 0xffff5bb1), 17);
    Op1(11, s, x, ABCD(b, c, d, a));
    b := Md5Step(F1(c, d, a), b, c, Sum(x[11], 0x895cd7be), 22);
    Op1(12, s, x, ABCD(a, b, c, d));
    a := Md5Step(F1(b, c, d), a, b, Sum(x[12], 0x6b901122), 7);
    Op1(13, s, x, ABCD(d, a, b, c));
    d := Md5Step(F1(a, b, c), d, a, Sum(x[13], 0xfd987193), 12);
    Op1(14, s, x, ABCD(c, d, a, b));
    c := Md5Step(F1(d, a, b), c, d, Sum(x[14], 0xa679438e), 17);
    Op1(15, s, x, ABCD(b, c, d, a));
    b := Md5Step(F1(c, d, a), b, c, Sum(x[15], 0x49b40821), 22);
    to := ABCD(a, b, c, d);
  }

  method Round2(ghost s: Chain, x: seq<Word>, from: Chain) returns (to: Chain)
    requires |x| == 16
    requires from == Ops(16, s, x)
    ensures to == Ops(32, s, x)
  {
    hide Ops, Op, Sum, RotL, Mix, Md5Step, F1, F2, F3, F4, Index, T, Shift;
    Table2();
    var ABCD(a, b, c, d) := from;
    Op2(16, s, x, ABCD(a, b, c, d));
    a := Md5Step(F2(b, c, d), a, b, Sum(x[1], 0xf61e2562), 5);
    Op2(17, s, x, ABCD(d, a, b, c));
    d := Md5Step(F2(a, b, c), d, a, Sum(x[6], 0xc040b340), 9);
    Op2(18, s, x, ABCD(c, d, a, b));
    c := Md5Step(F2(d, a, b), c, d, Sum(x[11], 0x265e5a51), 14);
    Op2(19, s, x, ABCD(b, c, d, a));
    b := Md5Step(F2(c, d, a), b, c, Sum(x[0], 0xe9b6c7aa), 20);
    Op2(20, s, x, ABCD(a, b, c, d));
    a := Md5Step(F2(b, c, d), a, b, Sum(x[5], 0xd62f105d), 5);
    Op2(21, s, x, ABCD(d, a, b, c));
    d := Md5Step(F2(a, b, c), d, a, Sum(x[10], 0x02441453), 9);
    Op2(22, s, x, ABCD(c, d, a, b));
    c := Md5Step(F2(d, a, b), c, d, Sum(x[15], 0xd8a1e681), 14);
    Op2(23, s, x, ABCD(b, c, d, a));
    b := Md5Step(F2(c, d, a), b, c, Sum(x[4], 0xe7d3fbc8), 20);
    Op2(24, s, x, ABCD(a, b, c, d));
    a := Md5Step(F2(b, c, d), a, b, Sum(x[9], 0x21e1cde6), 5);
    Op2(25, s, x, ABCD(d, a, b, c));
    d := Md5Step(F2(a, b, c), d, a, Sum(x[14], 0xc33707d6), 9);
    Op2(26, s, x, ABCD(c, d, a, b));
    c := Md5Step(F2(d, a, b), c, d, Sum(x[3], 0xf4d50d87), 14);
    Op2(27, s, x, ABCD(b, c, d, a));
    b := Md5Step(F2(c, d, a), b, c, Sum(x[8], 0x455a14ed), 20);
    Op2(28, s, x, ABCD(a, b, c, d));
    a := Md5Step(F2(b, c, d), a, b, Sum(x[13], 0xa9e3e905), 5);
    Op2(29, s, x, ABCD(d, a, b, c));
    d := Md5Step(F2(a, b, c), d, a, Sum(x[2], 0xfcefa3f8), 9);
    Op2(30, s, x, ABCD(c, d, a, b));
    c := Md5Step(F2(d, a, b), c, d, Sum(x[7], 0x676f02d9), 14);
    Op2(31, s, x, ABCD(b, c, d, a));
    b := Md5Step(F2(c, d, a), b, c, Sum(x[12], 0x8d2a4c8a), 20);
    to := ABCD(a, b, c, d);
  }

  method Round3(ghost s: Chain, x: seq<Word>, from: Chain) returns (to: Chain)
    requires |x| == 16
    requires from == Ops(32, s, x)
    ensures to == Ops(48, s, x)
  {
    hide Ops, Op, Sum, RotL, Mix, Md5Step, F1, F2, F3, F4, Index, T, Shift;
    Table3();
    var ABCD(a, b, c, d) := from;
    Op3(32, s, x, ABCD(a, b, c, d));
    a := Md5Step(F3(b, c, d), a, b, Sum(x[5], 0xfffa3942), 4);
    Op3(33, s, x, ABCD(d, a, b, c));
    d := Md5Step(F3(a, b, c), d, a, Sum(x[8], 0x8771f681), 11);
    Op3(34, s, x, ABCD(c, d, a, b));
    c := Md5Step(F3(d, a, b), c, d, Sum(x[11], 0x6d9d6122), 16);
    Op3(35, s, x, ABCD(b, c, d, a));
    b := Md5Step(F3(c, d, a), b, c, Sum(x[14], 0xfde5380c), 23);
    Op3(36, s, x, ABCD(a, b, c, d));
    a := Md5Step(F3(b, c, d), a, b, Sum(x[1], 0xa4beea44), 4);
    Op3(37, s, x, ABCD(d, a, b, c));
    d := Md5Step(F3(a, b, c), d, a, Sum(x[4], 0x4bdecfa9), 11);
    Op3(38, s, x, ABCD(c, d, a, b));
    c := Md5Step(F3(d, a, b), c, d, Sum(x[7], 0xf6bb4b60), 16);
    Op3(39, s, x, ABCD(b, c, d, a));
    b := Md5Step(F3(c, d, a), b, c, Sum(x[10], 0xbebfbc70), 23);
    Op3(40, s, x, ABCD(a, b, c, d));
    a := Md5Step(F3(b, c, d), a, b, Sum(x[13], 0x289b7ec6), 4);
    Op3(41, s, x, ABCD(d, a, b, c));
    d := Md5Step(F3(a, b, c), d, a, Sum(x[0], 0xeaa127fa), 11);
    Op3(42, s, x, ABCD(c, d, a, b));
    c := Md5Step(F3(d, a, b), c, d, Sum(x[3], 0xd4ef3085), 16);
    Op3(43, s, x, ABCD(b, c, d, a));
    b := Md5Step(F3(c, d, a), b, c, Sum(x[6], 0x04881d05), 23);
    Op3(44, s, x, ABCD(a, b, c, d));
    a := Md5Step(F3(b, c, d), a, b, Sum(x[9], 0xd9d4d039), 4);
    Op3(45, s, x, ABCD(d, a, b, c));
    d := Md5Step(F3(a, b, c), d, a, Sum(x[12], 0xe6db99e5), 11);
    Op3(46, s, x, ABCD(c, d, a, b));
    c := Md5Step(F3(d, a, b), c, d, Sum(x[15], 0x1fa27cf8), 16);
    Op3(47, s, x, ABCD(b, c, d, a));
    b := Md5Step(F3(c, d, a), b, c, Sum(x[2], 0xc4ac5665), 23);
    to := ABCD(a, b, c, d);
  }

  method Round4(ghost s: Chain, x: seq<Word>, from: Chain) returns (to: Chain)
    requires |x| == 16
    requires from == Ops(48, s, x)
    ensures to == Ops(64, s, x)
  {
    hide Ops, Op, Sum, RotL, Mix, Md5Step, F1, F2, F3, F4, Index, T, Shift;
    Table4();
    var ABCD(a, b, c, d) := from;
    Op4(48, s, x, ABCD(a, b, c, d));
    a := Md5Step(F4(b, c, d), a, b, Sum(x[0], 0xf4292244), 6);
    Op4(49, s, x, ABCD(d, a, b, c));
    d := Md5Step(F4(a, b, c), d, a, Sum(x[7], 0x432aff97), 10);
    Op4(50, s, x, ABCD(c, d, a, b));
    c := Md5Step(F4(d, a, b), c, d, Sum(x[14], 0xab9423a7), 15);
    Op4(51, s, x, ABCD(b, c, d, a));
    b := Md5Step(F4(c, d, a), b, c, Sum(x[5], 0xfc93a039), 21);
    Op4(52, s, x, ABCD(a, b, c, d));
    a := Md5Step(F4(b, c, d), a, b, Sum(x[12], 0x655b59c3), 6);
    Op4(53, s, x, ABCD(d, a, b, c));
    d := Md5Step(F4(a, b, c), d, a, Sum(x[3], 0x8f0ccc92), 10);
    Op4(54, s, x, ABCD(c, d, a, b));
    c := Md5Step(F4(d, a, b), c, d, Sum(x[10], 0xffeff47d), 15);
    Op4(55, s, x, ABCD(b, c, d, a));
    b := Md5Step(F4(c, d, a), b, c, Sum(x[1], 0x85845dd1), 21);
    Op4(56, s, x, ABCD(a, b, c, d));
    a := Md5Step(F4(b, c, d), a, b, Sum(x[8], 0x6fa87e4f), 6);
    Op4(57, s, x, ABCD(d, a, b, c));
    d := Md5Step(F4(a, b, c), d, a, Sum(x[15], 0xfe2ce6e0), 10);
    Op4(58, s, x, ABCD(c, d, a, b));
    c := Md5Step(F4(d, a, b), c, d, Sum(x[6], 0xa3014314), 15);
    Op4(59, s, x, ABCD(b, c, d, a));
    b := Md5Step(F4(c, d, a), b, c, Sum(x[13], 0x4e0811a1), 21);
    Op4(60, s, x, ABCD(a, b, c, d));
    a := Md5Step(F4(b, c, d), a, b, Sum(x[4], 0xf7537e82), 6);
    Op4(61, s, x, ABCD(d, a, b, c));
    d := Md5Step(F4(a, b, c), d, a, Sum(x[11], 0xbd3af235), 10);
    Op4(62, s, x, ABCD(c, d, a, b));
    c := Md5Step(F4(d, a, b), c, d, Sum(x[2], 0x2ad7d2bb), 15);
    Op4(63, s, x, ABCD(b, c, d, a));
    b := Md5Step(F4(c, d, a), b, c, Sum(x[9], 0xeb86d391), 21);
    to := ABCD(a, b, c, d);
  }

  /** Transforms the hash by one block of 16 words; for any words this is what the RFC's operations do. */
  method Transform(buf: array<Word>, x: seq<Word>)
    requires buf.Length == 4 && |x| == 16
    modifies buf
    ensures var s := ABCD(old(buf[0]), old(buf[1]), old(buf[2]), old(buf[3]));
            ABCD(buf[0], buf[1], buf[2], buf[3]) == Add(s, Ops(64, s, x))
  {
    hide Sum, Op;
    var s := ABCD(buf[0], buf[1], buf[2], buf[3]);
    var t := Round1(s, x, s);
    t := Round2(s, x, t);
    t := Round3(s, x, t);
    t := Round4(s, x, t);
    buf[0] := Sum(buf[0], t.a);
    buf[1] := Sum(buf[1], t.b);
    buf[2] := Sum(buf[2], t.c);
    buf[3] := Sum(buf[3], t.d);
  }
}
