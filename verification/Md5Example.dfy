// An example of section A.5 of RFC 1321: the digest of "abc", with the registers of its only block after every four
// operations.

module Md5Example {
  import opened HashBlocks
  import opened Md5

  const MESSAGE: seq<bv8> := [0x61, 0x62, 0x63]

  function OnlyBlock(): Block {
    MESSAGE + [0x80] + Zeros(52) + [24, 0, 0, 0, 0, 0, 0, 0]
  }

  /** The words of the block, and which of them each operation takes. */
  lemma WordIs(k: nat)
    requires k < 16
    ensures X(OnlyBlock(), k) == if k == 0 then 0x80636261 else if k == 14 then 24 else 0
  {
    hide Word;
    SomeWords();
  }

  lemma SomeWords()
    ensures Word(0x61, 0x62, 0x63, 0x80) == 0x80636261 && Word(0, 0, 0, 0) == 0 && Word(24, 0, 0, 0) == 24
  {
  }

  function WordOf(t: nat): bv32
    requires t < 64
  {
    var k := if t < 16 then t else if t < 32 then (5 * t + 1) % 16 else if t < 48 then (3 * t + 5) % 16 else 7 * t % 16;
    if k == 0 then 0x80636261 else if k == 14 then 24 else 0
  }

  lemma WordAt(t: nat)
    requires t < 64
    ensures X(OnlyBlock(), WordIndex(t)) == WordOf(t)
  {
    hide X, Second, Third, Fourth;
    WordIs(WordIndex(t));
  }

  // ---- the operations --------------------------------------------------------------------------------

  function Op(round: nat, a: bv32, b: bv32, c: bv32, d: bv32, x: bv32, k: bv32, s: bv8): bv32 {
    Plus(b, Rotl(Sum4(a, Aux(round, b, c, d), x, k), s))
  }

  /** Four operations write all registers, in the order a, d, c, b. */
  lemma FourMore(t: nat)
    requires t % 4 == 0 && t + 4 <= 64
    ensures var r := Operations(INITIAL, OnlyBlock(), t);
            var a := Op(t / 16, r.a, r.b, r.c, r.d, WordOf(t), Constant(t), Shift(t));
            var d := Op(t / 16, r.d, a, r.b, r.c, WordOf(t + 1), Constant(t + 1), Shift(t + 1));
            var c := Op(t / 16, r.c, d, a, r.b, WordOf(t + 2), Constant(t + 2), Shift(t + 2));
            var b := Op(t / 16, r.b, c, d, a, WordOf(t + 3), Constant(t + 3), Shift(t + 3));
            Operations(INITIAL, OnlyBlock(), t + 4) == Registers(a, b, c, d)
  {
    hide Op, Operations, WordOf, Constant, Shift, OnlyBlock;
    OneMoreIs(t);
    OneMoreIs(t + 1);
    OneMoreIs(t + 2);
    OneMoreIs(t + 3);
    Quarter(t);
  }

  lemma Quarter(t: nat)
    requires t % 4 == 0
    ensures (t + 1) % 4 == 1 && (t + 2) % 4 == 2 && (t + 3) % 4 == 3
    ensures (t + 1) / 16 == t / 16 && (t + 2) / 16 == t / 16 && (t + 3) / 16 == t / 16
  {
  }

  lemma OneMoreIs(t: nat)
    requires t < 64
    ensures var r := Operations(INITIAL, OnlyBlock(), t); var v := Named(r, t % 4);
            Operations(INITIAL, OnlyBlock(), t + 1)
            == Write(r, t % 4, Op(t / 16, v.a, v.b, v.c, v.d, WordOf(t), Constant(t), Shift(t)))
  {
    hide X, OnlyBlock, Plus, Rotl, Sum4, Aux, WordIndex, WordOf, Named, Write, Constant, Shift;
    WordAt(t);
  }

  lemma NoOperations()
    ensures Operations(INITIAL, OnlyBlock(), 0) == Registers(0x67452301, 0xefcdab89, 0x98badcfe, 0x10325476)
  {
    hide OnlyBlock;
  }

  lemma Values0()
    ensures Op(0, 0x67452301, 0xefcdab89, 0x98badcfe, 0x10325476, 0x80636261, 0xd76aa478, 7) == 0xd6d117b4
    ensures Op(0, 0x10325476, 0xd6d117b4, 0xefcdab89, 0x98badcfe, 0, 0xe8c7b756, 12) == 0x344a8432
    ensures Op(0, 0x98badcfe, 0x344a8432, 0xd6d117b4, 0xefcdab89, 0, 0x242070db, 17) == 0x2f6fbd72
    ensures Op(0, 0xefcdab89, 0x2f6fbd72, 0x344a8432, 0xd6d117b4, 0, 0xc1bdceee, 22) == 0x7ad956f2
  {
  }

  lemma Table0()
    ensures WordOf(0) == 0x80636261 && Constant(0) == 0xd76aa478 && Shift(0) == 7
    ensures WordOf(1) == 0 && Constant(1) == 0xe8c7b756 && Shift(1) == 12
    ensures WordOf(2) == 0 && Constant(2) == 0x242070db && Shift(2) == 17
    ensures WordOf(3) == 0 && Constant(3) == 0xc1bdceee && Shift(3) == 22
  {
  }

  lemma Operations4()
    ensures Operations(INITIAL, OnlyBlock(), 4) == Registers(0xd6d117b4, 0x7ad956f2, 0x2f6fbd72, 0x344a8432)
  {
    hide Op, WordOf, Constant, Shift, Operations, OnlyBlock;
    NoOperations();
    Values0();
    Table0();
    FourMore(0);
  }

  lemma Values4()
    ensures Op(0, 0xd6d117b4, 0x7ad956f2, 0x2f6fbd72, 0x344a8432, 0, 0xf57c0faf, 7) == 0xc73741ef
    ensures Op(0, 0x344a8432, 0xc73741ef, 0x7ad956f2, 0x2f6fbd72, 0, 0x4787c62a, 12) == 0x8bac3051
    ensures Op(0, 0x2f6fbd72, 0x8bac3051, 0xc73741ef, 0x7ad956f2, 0, 0xa8304613, 17) == 0x207dc67b
    ensures Op(0, 0x7ad956f2, 0x207dc67b, 0x8bac3051, 0xc73741ef, 0, 0xfd469501, 22) == 0x928d99f6
  {
  }

  lemma Table4()
    ensures WordOf(4) == 0 && Constant(4) == 0xf57c0faf && Shift(4) == 7
    ensures WordOf(5) == 0 && Constant(5) == 0x4787c62a && Shift(5) == 12
    ensures WordOf(6) == 0 && Constant(6) == 0xa8304613 && Shift(6) == 17
    ensures WordOf(7) == 0 && Constant(7) == 0xfd469501 && Shift(7) == 22
  {
  }

  lemma Operations8()
    ensures Operations(INITIAL, OnlyBlock(), 8) == Registers(0xc73741ef, 0x928d99f6, 0x207dc67b, 0x8bac3051)
  {
    hide Op, WordOf, Constant, Shift, Operations, OnlyBlock;
    Operations4();
    Values4();
    Table4();
    FourMore(4);
  }

  lemma Values8()
    ensures Op(0, 0xc73741ef, 0x928d99f6, 0x207dc67b, 0x8bac3051, 0, 0x698098d8, 7) == 0x854b3712
    ensures Op(0, 0x8bac3051, 0x854b3712, 0x928d99f6, 0x207dc67b, 0, 0x8b44f7af, 12) == 0x74e2f284
    ensures Op(0, 0x207dc67b, 0x74e2f284, 0x854b3712, 0x928d99f6, 0, 0xffff5bb1, 17) == 0x3020401c
    ensures Op(0, 0x928d99f6, 0x3020401c, 0x74e2f284, 0x854b3712, 0, 0x895cd7be, 22) == 0x5ed49596
  {
  }

  lemma Table8()
    ensures WordOf(8) == 0 && Constant(8) == 0x698098d8 && Shift(8) == 7
    ensures WordOf(9) == 0 && Constant(9) == 0x8b44f7af && Shift(9) == 12
    ensures WordOf(10) == 0 && Constant(10) == 0xffff5bb1 && Shift(10) == 17
    ensures WordOf(11) == 0 && Constant(11) == 0x895cd7be && Shift(11) == 22
  {
  }

  lemma Operations12()
    ensures Operations(INITIAL, OnlyBlock(), 12) == Registers(0x854b3712, 0x5ed49596, 0x3020401c, 0x74e2f284)
  {
    hide Op, WordOf, Constant, Shift, Operations, OnlyBlock;
    Operations8();
    Values8();
    Table8();
    FourMore(8);
  }

  lemma Values12()
    ensures Op(0, 0x854b3712, 0x5ed49596, 0x3020401c, 0x74e2f284, 0, 0x6b901122, 7) == 0xdda9b9a6
    ensures Op(0, 0x74e2f284, 0xdda9b9a6, 0x5ed49596, 0x3020401c, 0, 0xfd987193, 12) == 0xa1051895
    ensures Op(0, 0x3020401c, 0xa1051895, 0xdda9b9a6, 0x5ed49596, 24, 0xa679438e, 17) == 0xe396856b
    ensures Op(0, 0x5ed49596, 0xe396856b, 0xa1051895, 0xdda9b9a6, 0, 0x49b40821, 22) == 0x72aff2e0
  {
  }

  lemma Table12()
    ensures WordOf(12) == 0 && Constant(12) == 0x6b901122 && Shift(12) == 7
    ensures WordOf(13) == 0 && Constant(13) == 0xfd987193 && Shift(13) == 12
    ensures WordOf(14) == 24 && Constant(14) == 0xa679438e && Shift(14) == 17
    ensures WordOf(15) == 0 && Constant(15) == 0x49b40821 && Shift(15) == 22
  {
  }

  lemma Operations16()
    ensures Operations(INITIAL, OnlyBlock(), 16) == Registers(0xdda9b9a6, 0x72aff2e0, 0xe396856b, 0xa1051895)
  {
    hide Op, WordOf, Constant, Shift, Operations, OnlyBlock;
    Operations12();
    Values12();
    Table12();
    FourMore(12);
  }

  lemma Values16()
    ensures Op(1, 0xdda9b9a6, 0x72aff2e0, 0xe396856b, 0xa1051895, 0, 0xf61e2562, 5) == 0x3e9e9126
    ensures Op(1, 0xa1051895, 0x3e9e9126, 0x72aff2e0, 0xe396856b, 0, 0xc040b340, 9) == 0x4a1d804e
    ensures Op(1, 0xe396856b, 0x4a1d804e, 0x3e9e9126, 0x72aff2e0, 0, 0x265e5a51, 14) == 0xe25e1652
    ensures Op(1, 0x72aff2e0, 0xe25e1652, 0x4a1d804e, 0x3e9e9126, 0x80636261, 0xe9b6c7aa, 20) == 0xb5b204e4
  {
  }

  lemma Table16()
    ensures WordOf(16) == 0 && Constant(16) == 0xf61e2562 && Shift(16) == 5
    ensures WordOf(17) == 0 && Constant(17) == 0xc040b340 && Shift(17) == 9
    ensures WordOf(18) == 0 && Constant(18) == 0x265e5a51 && Shift(18) == 14
    ensures WordOf(19) == 0x80636261 && Constant(19) == 0xe9b6c7aa && Shift(19) == 20
  {
  }

  lemma Operations20()
    ensures Operations(INITIAL, OnlyBlock(), 20) == Registers(0x3e9e9126, 0xb5b204e4, 0xe25e1652, 0x4a1d804e)
  {
    hide Op, WordOf, Constant, Shift, Operations, OnlyBlock;
    Operations16();
    Values16();
    Table16();
    FourMore(16);
  }

  lemma Values20()
    ensures Op(1, 0x3e9e9126, 0xb5b204e4, 0xe25e1652, 0x4a1d804e, 0, 0xd62f105d, 5) == 0x59a8ffda
    ensures Op(1, 0x4a1d804e, 0x59a8ffda, 0xb5b204e4, 0xe25e1652, 0, 0x02441453, 9) == 0x6d002f1e
    ensures Op(1, 0xe25e1652, 0x6d002f1e, 0x59a8ffda, 0xb5b204e4, 0, 0xd8a1e681, 14) == 0xabfc7920
    ensures Op(1, 0xb5b204e4, 0xabfc7920, 0x6d002f1e, 0x59a8ffda, 0, 0xe7d3fbc8, 20) == 0x47092c07
  {
  }

  lemma Table20()
    ensures WordOf(20) == 0 && Constant(20) == 0xd62f105d && Shift(20) == 5
    ensures WordOf(21) == 0 && Constant(21) == 0x02441453 && Shift(21) == 9
    ensures WordOf(22) == 0 && Constant(22) == 0xd8a1e681 && Shift(22) == 14
    ensures WordOf(23) == 0 && Constant(23) == 0xe7d3fbc8 && Shift(23) == 20
  {
  }

  lemma Operations24()
    ensures Operations(INITIAL, OnlyBlock(), 24) == Registers(0x59a8ffda, 0x47092c07, 0xabfc7920, 0x6d002f1e)
  {
    hide Op, WordOf, Constant, Shift, Operations, OnlyBlock;
    Operations20();
    Values20();
    Table20();
    FourMore(20);
  }

  lemma Values24()
    ensures Op(1, 0x59a8ffda, 0x47092c07, 0xabfc7920, 0x6d002f1e, 0, 0x21e1cde6, 5) == 0xb7f268cf
    ensures Op(1, 0x6d002f1e, 0xb7f268cf, 0x47092c07, 0xabfc7920, 24, 0xc33707d6, 9) == 0x09388eff
    ensures Op(1, 0xabfc7920, 0x09388eff, 0xb7f268cf, 0x47092c07, 0, 0xf4d50d87, 14) == 0xfe1623b1
    ensures Op(1, 0x47092c07, 0xfe1623b1, 0x09388eff, 0xb7f268cf, 0, 0x455a14ed, 20) == 0x786acb8f
  {
  }

  lemma Table24()
    ensures WordOf(24) == 0 && Constant(24) == 0x21e1cde6 && Shift(24) == 5
    ensures WordOf(25) == 24 && Constant(25) == 0xc33707d6 && Shift(25) == 9
    ensures WordOf(26) == 0 && Constant(26) == 0xf4d50d87 && Shift(26) == 14
    ensures WordOf(27) == 0 && Constant(27) == 0x455a14ed && Shift(27) == 20
  {
  }

  lemma Operations28()
    ensures Operations(INITIAL, OnlyBlock(), 28) == Registers(0xb7f268cf, 0x786acb8f, 0xfe1623b1, 0x09388eff)
  {
    hide Op, WordOf, Constant, Shift, Operations, OnlyBlock;
    Operations24();
    Values24();
    Table24();
    FourMore(24);
  }

  lemma Values28()
    ensures Op(1, 0xb7f268cf, 0x786acb8f, 0xfe1623b1, 0x09388eff, 0, 0xa9e3e905, 5) == 0x790a77fb
    ensures Op(1, 0x09388eff, 0x790a77fb, 0x786acb8f, 0xfe1623b1, 0, 0xfcefa3f8, 9) == 0x9f47e4f8
    ensures Op(1, 0xfe1623b1, 0x9f47e4f8, 0x790a77fb, 0x786acb8f, 0, 0x676f02d9, 14) == 0xa62884aa
    ensures Op(1, 0x786acb8f, 0xa62884aa, 0x9f47e4f8, 0x790a77fb, 0, 0x8d2a4c8a, 20) == 0x726342d3
  {
  }

  lemma Table28()
    ensures WordOf(28) == 0 && Constant(28) == 0xa9e3e905 && Shift(28) == 5
    ensures WordOf(29) == 0 && Constant(29) == 0xfcefa3f8 && Shift(29) == 9
    ensures WordOf(30) == 0 && Constant(30) == 0x676f02d9 && Shift(30) == 14
    ensures WordOf(31) == 0 && Constant(31) == 0x8d2a4c8a && Shift(31) == 20
  {
  }

  lemma Operations32()
    ensures Operations(INITIAL, OnlyBlock(), 32) == Registers(0x790a77fb, 0x726342d3, 0xa62884aa, 0x9f47e4f8)
  {
    hide Op, WordOf, Constant, Shift, Operations, OnlyBlock;
    Operations28();
    Values28();
    Table28();
    FourMore(28);
  }

  lemma Values32()
    ensures Op(2, 0x790a77fb, 0x726342d3, 0xa62884aa, 0x9f47e4f8, 0, 0xfffa3942, 4) == 0xb3707ebf
    ensures Op(2, 0x9f47e4f8, 0xb3707ebf, 0x726342d3, 0xa62884aa, 0, 0x8771f681, 11) == 0x60127b2e
    ensures Op(2, 0xa62884aa, 0x60127b2e, 0xb3707ebf, 0x726342d3, 0, 0x6d9d6122, 16) == 0x8d212ff5
    ensures Op(2, 0x726342d3, 0x8d212ff5, 0x60127b2e, 0xb3707ebf, 24, 0xfde5380c, 23) == 0x3b0875c7
  {
  }

  lemma Table32()
    ensures WordOf(32) == 0 && Constant(32) == 0xfffa3942 && Shift(32) == 4
    ensures WordOf(33) == 0 && Constant(33) == 0x8771f681 && Shift(33) == 11
    ensures WordOf(34) == 0 && Constant(34) == 0x6d9d6122 && Shift(34) == 16
    ensures WordOf(35) == 24 && Constant(35) == 0xfde5380c && Shift(35) == 23
  {
  }

  lemma Operations36()
    ensures Operations(INITIAL, OnlyBlock(), 36) == Registers(0xb3707ebf, 0x3b0875c7, 0x8d212ff5, 0x60127b2e)
  {
    hide Op, WordOf, Constant, Shift, Operations, OnlyBlock;
    Operations32();
    Values32();
    Table32();
    FourMore(32);
  }

  lemma Values36()
    ensures Op(2, 0xb3707ebf, 0x3b0875c7, 0x8d212ff5, 0x60127b2e, 0, 0xa4beea44, 4) == 0x21b117b9
    ensures Op(2, 0x60127b2e, 0x21b117b9, 0x3b0875c7, 0x8d212ff5, 0, 0x4bdecfa9, 11) == 0x6e7429d5
    ensures Op(2, 0x8d212ff5, 0x6e7429d5, 0x21b117b9, 0x3b0875c7, 0, 0xf6bb4b60, 16) == 0x3575227e
    ensures Op(2, 0x3b0875c7, 0x3575227e, 0x6e7429d5, 0x21b117b9, 0, 0xbebfbc70, 23) == 0x5a2f5ea5
  {
  }

  lemma Table36()
    ensures WordOf(36) == 0 && Constant(36) == 0xa4beea44 && Shift(36) == 4
    ensures WordOf(37) == 0 && Constant(37) == 0x4bdecfa9 && Shift(37) == 11
    ensures WordOf(38) == 0 && Constant(38) == 0xf6bb4b60 && Shift(38) == 16
    ensures WordOf(39) == 0 && Constant(39) == 0xbebfbc70 && Shift(39) == 23
  {
  }

  lemma Operations40()
    ensures Operations(INITIAL, OnlyBlock(), 40) == Registers(0x21b117b9, 0x5a2f5ea5, 0x3575227e, 0x6e7429d5)
  {
    hide Op, WordOf, Constant, Shift, Operations, OnlyBlock;
    Operations36();
    Values36();
    Table36();
    FourMore(36);
  }

  lemma Values40()
    ensures Op(2, 0x21b117b9, 0x5a2f5ea5, 0x3575227e, 0x6e7429d5, 0, 0x289b7ec6, 4) == 0x11de1779
    ensures Op(2, 0x6e7429d5, 0x11de1779, 0x5a2f5ea5, 0x3575227e, 0x80636261, 0xeaa127fa, 11) == 0xfadcaa38
    ensures Op(2, 0x3575227e, 0xfadcaa38, 0x11de1779, 0x5a2f5ea5, 0, 0xd4ef3085, 16) == 0x31c465ca
    ensures Op(2, 0x5a2f5ea5, 0x31c465ca, 0xfadcaa38, 0x11de1779, 0, 0x04881d05, 23) == 0x4c6124f4
  {
  }

  lemma Table40()
    ensures WordOf(40) == 0 && Constant(40) == 0x289b7ec6 && Shift(40) == 4
    ensures WordOf(41) == 0x80636261 && Constant(41) == 0xeaa127fa && Shift(41) == 11
    ensures WordOf(42) == 0 && Constant(42) == 0xd4ef3085 && Shift(42) == 16
    ensures WordOf(43) == 0 && Constant(43) == 0x04881d05 && Shift(43) == 23
  {
  }

  lemma Operations44()
    ensures Operations(INITIAL, OnlyBlock(), 44) == Registers(0x11de1779, 0x4c6124f4, 0x31c465ca, 0xfadcaa38)
  {
    hide Op, WordOf, Constant, Shift, Operations, OnlyBlock;
    Operations40();
    Values40();
    Table40();
    FourMore(40);
  }

  lemma Values44()
    ensures Op(2, 0x11de1779, 0x4c6124f4, 0x31c465ca, 0xfadcaa38, 0, 0xd9d4d039, 4) == 0x7f2e507b
    ensures Op(2, 0xfadcaa38, 0x7f2e507b, 0x4c6124f4, 0x31c465ca, 0, 0xe6db99e5, 11) == 0x99d9679d
    ensures Op(2, 0x31c465ca, 0x99d9679d, 0x7f2e507b, 0x4c6124f4, 0, 0x1fa27cf8, 16) == 0x8fae6399
    ensures Op(2, 0x4c6124f4, 0x8fae6399, 0x99d9679d, 0x7f2e507b, 0, 0xc4ac5665, 23) == 0x7beb9700
  {
  }

  lemma Table44()
    ensures WordOf(44) == 0 && Constant(44) == 0xd9d4d039 && Shift(44) == 4
    ensures WordOf(45) == 0 && Constant(45) == 0xe6db99e5 && Shift(45) == 11
    ensures WordOf(46) == 0 && Constant(46) == 0x1fa27cf8 && Shift(46) == 16
    ensures WordOf(47) == 0 && Constant(47) == 0xc4ac5665 && Shift(47) == 23
  {
  }

  lemma Operations48()
    ensures Operations(INITIAL, OnlyBlock(), 48) == Registers(0x7f2e507b, 0x7beb9700, 0x8fae6399, 0x99d9679d)
  {
    hide Op, WordOf, Constant, Shift, Operations, OnlyBlock;
    Operations44();
    Values44();
    Table44();
    FourMore(44);
  }

  lemma Values48()
    ensures Op(3, 0x7f2e507b, 0x7beb9700, 0x8fae6399, 0x99d9679d, 0x80636261, 0xf4292244, 6) == 0x7b201df8
    ensures Op(3, 0x99d9679d, 0x7b201df8, 0x7beb9700, 0x8fae6399, 0, 0x432aff97, 10) == 0xf4e8e96e
    ensures Op(3, 0x8fae6399, 0xf4e8e96e, 0x7b201df8, 0x7beb9700, 24, 0xab9423a7, 15) == 0xb298cefd
    ensures Op(3, 0x7beb9700, 0xb298cefd, 0xf4e8e96e, 0x7b201df8, 0, 0xfc93a039, 21) == 0x8bf025c4
  {
  }

  lemma Table48()
    ensures WordOf(48) == 0x80636261 && Constant(48) == 0xf4292244 && Shift(48) == 6
    ensures WordOf(49) == 0 && Constant(49) == 0x432aff97 && Shift(49) == 10
    ensures WordOf(50) == 24 && Constant(50) == 0xab9423a7 && Shift(50) == 15
    ensures WordOf(51) == 0 && Constant(51) == 0xfc93a039 && Shift(51) == 21
  {
  }

  lemma Operations52()
    ensures Operations(INITIAL, OnlyBlock(), 52) == Registers(0x7b201df8, 0x8bf025c4, 0xb298cefd, 0xf4e8e96e)
  {
    hide Op, WordOf, Constant, Shift, Operations, OnlyBlock;
    Operations48();
    Values48();
    Table48();
    FourMore(48);
  }

  lemma Values52()
    ensures Op(3, 0x7b201df8, 0x8bf025c4, 0xb298cefd, 0xf4e8e96e, 0, 0x655b59c3, 6) == 0x06cc5e8a
    ensures Op(3, 0xf4e8e96e, 0x06cc5e8a, 0x8bf025c4, 0xb298cefd, 0, 0x8f0ccc92, 10) == 0x5b0d97aa
    ensures Op(3, 0xb298cefd, 0x5b0d97aa, 0x06cc5e8a, 0x8bf025c4, 0, 0xffeff47d, 15) == 0x7d632dd0
    ensures Op(3, 0x8bf025c4, 0x7d632dd0, 0x5b0d97aa, 0x06cc5e8a, 0, 0x85845dd1, 21) == 0x3bfa2c27
  {
  }

  lemma Table52()
    ensures WordOf(52) == 0 && Constant(52) == 0x655b59c3 && Shift(52) == 6
    ensures WordOf(53) == 0 && Constant(53) == 0x8f0ccc92 && Shift(53) == 10
    ensures WordOf(54) == 0 && Constant(54) == 0xffeff47d && Shift(54) == 15
    ensures WordOf(55) == 0 && Constant(55) == 0x85845dd1 && Shift(55) == 21
  {
  }

  lemma Operations56()
    ensures Operations(INITIAL, OnlyBlock(), 56) == Registers(0x06cc5e8a, 0x3bfa2c27, 0x7d632dd0, 0x5b0d97aa)
  {
    hide Op, WordOf, Constant, Shift, Operations, OnlyBlock;
    Operations52();
    Values52();
    Table52();
    FourMore(52);
  }

  lemma Values56()
    ensures Op(3, 0x06cc5e8a, 0x3bfa2c27, 0x7d632dd0, 0x5b0d97aa, 0, 0x6fa87e4f, 6) == 0x7f81cc35
    ensures Op(3, 0x5b0d97aa, 0x7f81cc35, 0x3bfa2c27, 0x7d632dd0, 0, 0xfe2ce6e0, 10) == 0x094454ab
    ensures Op(3, 0x7d632dd0, 0x094454ab, 0x7f81cc35, 0x3bfa2c27, 0, 0xa3014314, 15) == 0x4f9dbe3f
    ensures Op(3, 0x3bfa2c27, 0x4f9dbe3f, 0x094454ab, 0x7f81cc35, 0, 0x4e0811a1, 21) == 0x7327d604
  {
  }

  lemma Table56()
    ensures WordOf(56) == 0 && Constant(56) == 0x6fa87e4f && Shift(56) == 6
    ensures WordOf(57) == 0 && Constant(57) == 0xfe2ce6e0 && Shift(57) == 10
    ensures WordOf(58) == 0 && Constant(58) == 0xa3014314 && Shift(58) == 15
    ensures WordOf(59) == 0 && Constant(59) == 0x4e0811a1 && Shift(59) == 21
  {
  }

  lemma Operations60()
    ensures Operations(INITIAL, OnlyBlock(), 60) == Registers(0x7f81cc35, 0x7327d604, 0x4f9dbe3f, 0x094454ab)
  {
    hide Op, WordOf, Constant, Shift, Operations, OnlyBlock;
    Operations56();
    Values56();
    Table56();
    FourMore(56);
  }

  lemma Values60()
    ensures Op(3, 0x7f81cc35, 0x7327d604, 0x4f9dbe3f, 0x094454ab, 0, 0xf7537e82, 6) == 0x310ade8f
    ensures Op(3, 0x094454ab, 0x310ade8f, 0x7327d604, 0x4f9dbe3f, 0, 0xbd3af235, 10) == 0x624d8cb2
    ensures Op(3, 0x4f9dbe3f, 0x624d8cb2, 0x310ade8f, 0x7327d604, 0, 0x2ad7d2bb, 15) == 0xe484b9d8
    ensures Op(3, 0x7327d604, 0xe484b9d8, 0x624d8cb2, 0x310ade8f, 0, 0xeb86d391, 21) == 0xc08226b3
  {
  }

  lemma Table60()
    ensures WordOf(60) == 0 && Constant(60) == 0xf7537e82 && Shift(60) == 6
    ensures WordOf(61) == 0 && Constant(61) == 0xbd3af235 && Shift(61) == 10
    ensures WordOf(62) == 0 && Constant(62) == 0x2ad7d2bb && Shift(62) == 15
    ensures WordOf(63) == 0 && Constant(63) == 0xeb86d391 && Shift(63) == 21
  {
  }

  lemma Operations64()
    ensures Operations(INITIAL, OnlyBlock(), 64) == Registers(0x310ade8f, 0xc08226b3, 0xe484b9d8, 0x624d8cb2)
  {
    hide Op, WordOf, Constant, Shift, Operations, OnlyBlock;
    Operations60();
    Values60();
    Table60();
    FourMore(60);
  }

  // ---- the digest ----------------------------------------------------------------------------------------

  lemma PaddedMessage()
    ensures Padded(MESSAGE, LengthBytes(BitLength(3))) == OnlyBlock()
  {
    LengthOfMessage();
    hide LengthBytes, BitLength;
    assert PadZeros(3) == 52;
  }

  lemma LengthOfMessage()
    ensures BitLength(3) == 24 && LengthBytes(24) == [24, 0, 0, 0, 0, 0, 0, 0]
  {
    hide ByteOf;
    OneByte(24, 0, 24);
    HighByte(1); HighByte(2); HighByte(3); HighByte(4); HighByte(5); HighByte(6); HighByte(7);
  }

  lemma HighByte(i: nat)
    requires i >= 1
    ensures ByteOf(24, i) == 0
  {
    hide ByteOf;
    assert Pow256(i) >= 256;
    OneByte(24, i, 0);
  }

  lemma OneByte(bits: nat, i: nat, b: bv8)
    requires Digit(bits, i) == b as nat
    ensures ByteOf(bits, i) == b
  {
    hide Digit;
  }

  lemma Hashed()
    ensures Compress(INITIAL, OnlyBlock()) == [0x98500190, 0xb04fd23c, 0x7d3f96d6, 0x727fe128]
  {
    hide Operations, OnlyBlock;
    Operations64();
  }

  lemma BytesMore(ws: seq<bv32>, w: bv32)
    ensures AllBytes(ws + [w]) == AllBytes(ws) + Bytes(w)
  {
    hide Bytes;
    assert (ws + [w])[..|ws|] == ws;
  }

  lemma FourWords(a: bv32, b: bv32, c: bv32, d: bv32)
    ensures AllBytes([] + [a] + [b] + [c] + [d]) == Bytes(a) + Bytes(b) + Bytes(c) + Bytes(d)
  {
    hide Bytes, AllBytes;
    NoBytes();
    BytesMore([], a);
    BytesMore([] + [a], b);
    BytesMore([] + [a] + [b], c);
    BytesMore([] + [a] + [b] + [c], d);
    assert [] + Bytes(a) == Bytes(a);
  }

  lemma NoBytes()
    ensures AllBytes([]) == []
  {
  }

  lemma DigestWords()
    ensures Bytes(0x98500190) == [0x90, 0x01, 0x50, 0x98]
    ensures Bytes(0xb04fd23c) == [0x3c, 0xd2, 0x4f, 0xb0]
    ensures Bytes(0x7d3f96d6) == [0xd6, 0x96, 0x3f, 0x7d]
    ensures Bytes(0x727fe128) == [0x28, 0xe1, 0x7f, 0x72]
  {
  }

  lemma DigestBytes()
    ensures AllBytes([0x98500190, 0xb04fd23c, 0x7d3f96d6, 0x727fe128]) ==
      [0x90, 0x01, 0x50, 0x98, 0x3c, 0xd2, 0x4f, 0xb0, 0xd6, 0x96, 0x3f, 0x7d, 0x28, 0xe1, 0x7f, 0x72]
  {
    hide Bytes, AllBytes;
    DigestWords();
    FourWords(0x98500190, 0xb04fd23c, 0x7d3f96d6, 0x727fe128);
    var ws := [] + [0x98500190] + [0xb04fd23c] + [0x7d3f96d6] + [0x727fe128];
    assert ws == [0x98500190, 0xb04fd23c, 0x7d3f96d6, 0x727fe128];
    assert AllBytes(ws)
        == [0x90, 0x01, 0x50, 0x98, 0x3c, 0xd2, 0x4f, 0xb0, 0xd6, 0x96, 0x3f, 0x7d, 0x28, 0xe1, 0x7f, 0x72];
  }

  /** The digest of "abc" is that of the RFC. */
  lemma DigestOfAbc()
    ensures Digest(MESSAGE) ==
      [0x90, 0x01, 0x50, 0x98, 0x3c, 0xd2, 0x4f, 0xb0, 0xd6, 0x96, 0x3f, 0x7d, 0x28, 0xe1, 0x7f, 0x72]
  {
    hide Compress, Padded, LengthBytes, BitLength, OnlyBlock, AllBytes;
    PaddedMessage();
    Hashed();
    DigestBytes();
    var m := OnlyBlock();
    assert m[..64] == m && m[64..] == [];
    assert Fold<Hash>(Compress, INITIAL, m) == Compress(INITIAL, m);
  }
}
