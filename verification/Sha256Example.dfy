// The example of FIPS 180-4 for SHA-256: the digest of "abc", with the message schedule and the working variables of
// its only block, four at a time.

module Sha256Example {
  import opened HashBlocks
  import opened Sha256

  const MESSAGE: seq<bv8> := [0x61, 0x62, 0x63]

  function OnlyBlock(): Block {
    MESSAGE + [0x80] + Zeros(52) + [0, 0, 0, 0, 0, 0, 0, 24]
  }

  // ---- the message schedule ------------------------------------------------------------------------

  datatype Quad = Quad(w0: bv32, w1: bv32, w2: bv32, w3: bv32)

  function List(q: Quad): (ws: seq<bv32>)
    ensures |ws| == 4
  {
    [q.w0, q.w1, q.w2, q.w3]
  }

  const Q0 := Quad(0x61626380, 0x00000000, 0x00000000, 0x00000000)
  const Q4 := Quad(0x00000000, 0x00000000, 0x00000000, 0x00000000)
  const Q8 := Quad(0x00000000, 0x00000000, 0x00000000, 0x00000000)
  const Q12 := Quad(0x00000000, 0x00000000, 0x00000000, 0x00000018)
  const Q16 := Quad(0x61626380, 0x000f0000, 0x7da86405, 0x600003c6)
  const Q20 := Quad(0x3e9d7b78, 0x0183fc00, 0x12dcbfdb, 0xe2e2c38e)
  const Q24 := Quad(0xc8215c1a, 0xb73679a2, 0xe5bc3909, 0x32663c5b)
  const Q28 := Quad(0x9d209d67, 0xec8726cb, 0x702138a4, 0xd3b7973b)
  const Q32 := Quad(0x93f5997f, 0x3b68ba73, 0xaff4ffc1, 0xf10a5c62)
  const Q36 := Quad(0x0a8b3996, 0x72af830a, 0x9409e33e, 0x24641522)
  const Q40 := Quad(0x9f47bf94, 0xf0a64f5a, 0x3e246a79, 0x27333ba3)
  const Q44 := Quad(0x0c4763f2, 0x840abf27, 0x7a290d5d, 0x065c43da)
  const Q48 := Quad(0xfb3e89cb, 0xcc7617db, 0xb9e66c34, 0xa9993667)
  const Q52 := Quad(0x84badedd, 0xc21462bc, 0x1487472c, 0xb20f7a99)
  const Q56 := Quad(0xef57b9cd, 0xebe6b238, 0x9fe3095e, 0x78bc8d4b)
  const Q60 := Quad(0xa43fcf15, 0x668b2ff8, 0xeeaba2cc, 0x12b1edeb)

  ghost predicate IsQuad(t: nat, q: Quad) {
    var m := OnlyBlock();
    W(m, t) == q.w0 && W(m, t + 1) == q.w1 && W(m, t + 2) == q.w2 && W(m, t + 3) == q.w3
  }

  function NextWord(w2: bv32, w7: bv32, w15: bv32, w16: bv32): bv32 {
    Plus(Plus(Plus(SmallSigma1(w2), w7), SmallSigma0(w15)), w16)
  }

  /** The four words behind sixteen. */
  function NextQuad(a: Quad, b: Quad, c: Quad, d: Quad): Quad {
    var w16, w17 := NextWord(d.w2, c.w1, a.w1, a.w0), NextWord(d.w3, c.w2, a.w2, a.w1);
    Quad(w16, w17, NextWord(w16, c.w3, a.w3, a.w2), NextWord(w17, d.w0, b.w0, a.w3))
  }

  lemma LaterWord(m: Block, t: nat)
    requires t >= 16
    ensures W(m, t) == NextWord(W(m, t - 2), W(m, t - 7), W(m, t - 15), W(m, t - 16))
  {
    hide Plus, SmallSigma0, SmallSigma1, Word;
  }

  lemma Later(t: nat, a: Quad, b: Quad, c: Quad, d: Quad)
    requires IsQuad(t, a) && IsQuad(t + 4, b) && IsQuad(t + 8, c) && IsQuad(t + 12, d)
    ensures IsQuad(t + 16, NextQuad(a, b, c, d))
  {
    hide W, NextWord, OnlyBlock;
    LaterWord(OnlyBlock(), t + 16);
    LaterWord(OnlyBlock(), t + 17);
    LaterWord(OnlyBlock(), t + 18);
    LaterWord(OnlyBlock(), t + 19);
  }

  lemma FirstWords()
    ensures IsQuad(0, Q0) && IsQuad(4, Q4) && IsQuad(8, Q8) && IsQuad(12, Q12)
  {
    hide Word;
    assert Word(0x61, 0x62, 0x63, 0x80) == 0x61626380 && Word(0, 0, 0, 0) == 0 && Word(0, 0, 0, 24) == 24 by {
      SomeWords();
    }
  }

  lemma SomeWords()
    ensures Word(0x61, 0x62, 0x63, 0x80) == 0x61626380 && Word(0, 0, 0, 0) == 0 && Word(0, 0, 0, 24) == 24
  {
  }

  lemma Next16()
    ensures NextQuad(Q0, Q4, Q8, Q12) == Q16
  {
  }

  lemma Next20()
    ensures NextQuad(Q4, Q8, Q12, Q16) == Q20
  {
  }

  lemma Next24()
    ensures NextQuad(Q8, Q12, Q16, Q20) == Q24
  {
  }

  lemma Next28()
    ensures NextQuad(Q12, Q16, Q20, Q24) == Q28
  {
  }

  lemma Next32()
    ensures NextQuad(Q16, Q20, Q24, Q28) == Q32
  {
  }

  lemma Next36()
    ensures NextQuad(Q20, Q24, Q28, Q32) == Q36
  {
  }

  lemma Next40()
    ensures NextQuad(Q24, Q28, Q32, Q36) == Q40
  {
  }

  lemma Next44()
    ensures NextQuad(Q28, Q32, Q36, Q40) == Q44
  {
  }

  lemma Next48()
    ensures NextQuad(Q32, Q36, Q40, Q44) == Q48
  {
  }

  lemma Next52()
    ensures NextQuad(Q36, Q40, Q44, Q48) == Q52
  {
  }

  lemma Next56()
    ensures NextQuad(Q40, Q44, Q48, Q52) == Q56
  {
  }

  lemma Next60()
    ensures NextQuad(Q44, Q48, Q52, Q56) == Q60
  {
  }

  lemma AllWords()
    ensures IsQuad(0, Q0) && IsQuad(4, Q4) && IsQuad(8, Q8) && IsQuad(12, Q12)
    ensures IsQuad(16, Q16) && IsQuad(20, Q20) && IsQuad(24, Q24) && IsQuad(28, Q28)
    ensures IsQuad(32, Q32) && IsQuad(36, Q36) && IsQuad(40, Q40) && IsQuad(44, Q44)
    ensures IsQuad(48, Q48) && IsQuad(52, Q52) && IsQuad(56, Q56) && IsQuad(60, Q60)
  {
    hide IsQuad, NextQuad;
    FirstWords();
    Next16(); Later(0, Q0, Q4, Q8, Q12);
    Next20(); Later(4, Q4, Q8, Q12, Q16);
    Next24(); Later(8, Q8, Q12, Q16, Q20);
    Next28(); Later(12, Q12, Q16, Q20, Q24);
    Next32(); Later(16, Q16, Q20, Q24, Q28);
    Next36(); Later(20, Q20, Q24, Q28, Q32);
    Next40(); Later(24, Q24, Q28, Q32, Q36);
    Next44(); Later(28, Q28, Q32, Q36, Q40);
    Next48(); Later(32, Q32, Q36, Q40, Q44);
    Next52(); Later(36, Q36, Q40, Q44, Q48);
    Next56(); Later(40, Q40, Q44, Q48, Q52);
    Next60(); Later(44, Q44, Q48, Q52, Q56);
  }

  // ---- the rounds --------------------------------------------------------------------------------------

  const V0 := Vars(0x6a09e667, 0xbb67ae85, 0x3c6ef372, 0xa54ff53a, 0x510e527f, 0x9b05688c, 0x1f83d9ab, 0x5be0cd19)
  const V4 := Vars(0xd550f666, 0xc8c347a7, 0x5a6ad9ad, 0x5d6aebcd, 0x24e00850, 0xf92939eb, 0x78ce7989, 0xfa2a4622)
  const V8 := Vars(0x85a07b5f, 0xe5030380, 0x2b4209f5, 0x04409a6a, 0x0c657a79, 0x9b27a401, 0x714260ad, 0x43ada245)
  const V12 := Vars(0xf71fc5a9, 0x4798a3f4, 0x8c87346b, 0x8e04ecb9, 0x816fd6e9, 0x436b23e8, 0x1cc92596, 0x32ca2d8c)
  const V16 := Vars(0xb0fa238e, 0xc0645fde, 0xd932eb16, 0x87912990, 0x07590dcd, 0x0b92f20c, 0x745a48de, 0x1e578218)
  const V20 := Vars(0xe1f20c33, 0xfe777bbf, 0xc2fbd9d1, 0x21da9a9b, 0xb0638179, 0xcc899961, 0x846ee454, 0x8034229c)
  const V24 := Vars(0xc5d53d8d, 0xa7a3623f, 0xc2606d6d, 0x9dc68b63, 0xaa47c347, 0x49f5114a, 0xe1257970, 0x8ada8930)
  const V28 := Vars(0x77d37528, 0xb62ec4bc, 0xcde8037d, 0x1c2c2838, 0xedffbff8, 0xc74c6516, 0x14383d8e, 0x2823ef91)
  const V32 := Vars(0x73b33bf5, 0xea992a22, 0xa0060b30, 0x363482c9, 0xba591112, 0x0109ab3a, 0xade79437, 0x6112a3b7)
  const V36 := Vars(0x65a0cfe4, 0xa9a7738c, 0xfe604df5, 0x98e12507, 0xf4b002d6, 0x085f3833, 0x59249dd3, 0x9cd9f5f6)
  const V40 := Vars(0x79ea687a, 0x6dc57a8a, 0x34df1604, 0x41a65cb1, 0x1efbc0a0, 0xf0781bc8, 0xa507a53d, 0x0772a26b)
  const V44 := Vars(0x9d4baf93, 0x17aa0dfe, 0xdf46652f, 0xd6670766, 0xfda24c2e, 0xdecd4715, 0x838b2711, 0x26352d63)
  const V48 := Vars(0x4172328d, 0xa14c14b0, 0x72ab4b91, 0x26628815, 0xfecf0bc6, 0xd57b94a9, 0xb7755da1, 0xa80f11f0)
  const V52 := Vars(0x886e7a22, 0x7a0508a1, 0xf11bfaa8, 0x05757ceb, 0x49231c1e, 0x52f1ccf7, 0x6e5c390c, 0xbd714038)
  const V56 := Vars(0x38cc9913, 0x3ec45cdb, 0xf5702fdb, 0x101fd28f, 0x54cb266b, 0xe50e1b4f, 0x9f4787c3, 0x529e7d00)
  const V60 := Vars(0xb6ae8fff, 0xffb70472, 0xc062d46f, 0xfcd1887b, 0xb21bad3d, 0x6d83bfc6, 0x7e44008e, 0x9b5e906c)
  const V64 := Vars(0x506e3058, 0xd39a2165, 0x04d24d6c, 0xb85e2ce9, 0x5ef50f24, 0xfb121210, 0x948d25b6, 0x961f4894)

  function Constant(t: nat): bv32
    requires t < 64
  {
    K[t]
  }

  /** Some rounds, from round `t` on. */
  function RunOn(v: Vars, t: nat, ws: seq<bv32>): Vars
    requires t + |ws| <= 64
    decreases ws
  {
    if ws == [] then v else RunOn(Round(v, Constant(t), ws[0]), t + 1, ws[1..])
  }

  lemma RunStep(v: Vars, t: nat, w: bv32, ws: seq<bv32>)
    requires t + 1 + |ws| <= 64
    ensures RunOn(v, t, [w] + ws) == RunOn(Round(v, Constant(t), w), t + 1, ws)
  {
    hide Round;
    assert ([w] + ws)[1..] == ws;
  }

  lemma RunFour(v: Vars, t: nat, q: Quad)
    requires t + 4 <= 64
    ensures RunOn(v, t, List(q)) ==
            Round(Round(Round(Round(v, Constant(t), q.w0), Constant(t + 1), q.w1), Constant(t + 2), q.w2),
                  Constant(t + 3), q.w3)
  {
    hide Round, RunOn, Constant;
    var a := Round(v, Constant(t), q.w0);
    var b := Round(a, Constant(t + 1), q.w1);
    var c := Round(b, Constant(t + 2), q.w2);
    assert List(q) == [q.w0] + ([q.w1] + ([q.w2] + ([q.w3] + [])));
    RunStep(v, t, q.w0, [q.w1] + ([q.w2] + ([q.w3] + [])));
    RunStep(a, t + 1, q.w1, [q.w2] + ([q.w3] + []));
    RunStep(b, t + 2, q.w2, [q.w3] + []);
    RunStep(c, t + 3, q.w3, []);
    RunNone(Round(c, Constant(t + 3), q.w3), t + 4);
  }

  lemma RunNone(v: Vars, t: nat)
    requires t <= 64
    ensures RunOn(v, t, []) == v
  {
  }

  lemma Values0()
    ensures Round(V0, 0x428a2f98, 0x61626380) ==
            Vars(0x5d6aebcd, 0x6a09e667, 0xbb67ae85, 0x3c6ef372, 0xfa2a4622, 0x510e527f, 0x9b05688c, 0x1f83d9ab)
    ensures Round(Vars(0x5d6aebcd, 0x6a09e667, 0xbb67ae85, 0x3c6ef372, 0xfa2a4622, 0x510e527f, 0x9b05688c, 0x1f83d9ab),
                  0x71374491, 0x00000000) ==
            Vars(0x5a6ad9ad, 0x5d6aebcd, 0x6a09e667, 0xbb67ae85, 0x78ce7989, 0xfa2a4622, 0x510e527f, 0x9b05688c)
    ensures Round(Vars(0x5a6ad9ad, 0x5d6aebcd, 0x6a09e667, 0xbb67ae85, 0x78ce7989, 0xfa2a4622, 0x510e527f, 0x9b05688c),
                  0xb5c0fbcf, 0x00000000) ==
            Vars(0xc8c347a7, 0x5a6ad9ad, 0x5d6aebcd, 0x6a09e667, 0xf92939eb, 0x78ce7989, 0xfa2a4622, 0x510e527f)
    ensures Round(Vars(0xc8c347a7, 0x5a6ad9ad, 0x5d6aebcd, 0x6a09e667, 0xf92939eb, 0x78ce7989, 0xfa2a4622, 0x510e527f),
                  0xe9b5dba5, 0x00000000) == V4
  {
  }

  lemma Rounds0()
    ensures RunOn(V0, 0, List(Q0)) == V4
  {
    hide Round;
    Values0();
    RunFour(V0, 0, Q0);
    assert Constant(0) == 0x428a2f98 && Constant(1) == 0x71374491;
    assert Constant(2) == 0xb5c0fbcf && Constant(3) == 0xe9b5dba5;
  }

  lemma Values4()
    ensures Round(V4, 0x3956c25b, 0x00000000) ==
            Vars(0x04409a6a, 0xd550f666, 0xc8c347a7, 0x5a6ad9ad, 0x43ada245, 0x24e00850, 0xf92939eb, 0x78ce7989)
    ensures Round(Vars(0x04409a6a, 0xd550f666, 0xc8c347a7, 0x5a6ad9ad, 0x43ada245, 0x24e00850, 0xf92939eb, 0x78ce7989),
                  0x59f111f1, 0x00000000) ==
            Vars(0x2b4209f5, 0x04409a6a, 0xd550f666, 0xc8c347a7, 0x714260ad, 0x43ada245, 0x24e00850, 0xf92939eb)
    ensures Round(Vars(0x2b4209f5, 0x04409a6a, 0xd550f666, 0xc8c347a7, 0x714260ad, 0x43ada245, 0x24e00850, 0xf92939eb),
                  0x923f82a4, 0x00000000) ==
            Vars(0xe5030380, 0x2b4209f5, 0x04409a6a, 0xd550f666, 0x9b27a401, 0x714260ad, 0x43ada245, 0x24e00850)
    ensures Round(Vars(0xe5030380, 0x2b4209f5, 0x04409a6a, 0xd550f666, 0x9b27a401, 0x714260ad, 0x43ada245, 0x24e00850),
                  0xab1c5ed5, 0x00000000) == V8
  {
  }

  lemma Rounds4()
    ensures RunOn(V4, 4, List(Q4)) == V8
  {
    hide Round;
    Values4();
    RunFour(V4, 4, Q4);
    assert Constant(4) == 0x3956c25b && Constant(5) == 0x59f111f1;
    assert Constant(6) == 0x923f82a4 && Constant(7) == 0xab1c5ed5;
  }

  lemma Values8()
    ensures Round(V8, 0xd807aa98, 0x00000000) ==
            Vars(0x8e04ecb9, 0x85a07b5f, 0xe5030380, 0x2b4209f5, 0x32ca2d8c, 0x0c657a79, 0x9b27a401, 0x714260ad)
    ensures Round(Vars(0x8e04ecb9, 0x85a07b5f, 0xe5030380, 0x2b4209f5, 0x32ca2d8c, 0x0c657a79, 0x9b27a401, 0x714260ad),
                  0x12835b01, 0x00000000) ==
            Vars(0x8c87346b, 0x8e04ecb9, 0x85a07b5f, 0xe5030380, 0x1cc92596, 0x32ca2d8c, 0x0c657a79, 0x9b27a401)
    ensures Round(Vars(0x8c87346b, 0x8e04ecb9, 0x85a07b5f, 0xe5030380, 0x1cc92596, 0x32ca2d8c, 0x0c657a79, 0x9b27a401),
                  0x243185be, 0x00000000) ==
            Vars(0x4798a3f4, 0x8c87346b, 0x8e04ecb9, 0x85a07b5f, 0x436b23e8, 0x1cc92596, 0x32ca2d8c, 0x0c657a79)
    ensures Round(Vars(0x4798a3f4, 0x8c87346b, 0x8e04ecb9, 0x85a07b5f, 0x436b23e8, 0x1cc92596, 0x32ca2d8c, 0x0c657a79),
                  0x550c7dc3, 0x00000000) == V12
  {
  }

  lemma Rounds8()
    ensures RunOn(V8, 8, List(Q8)) == V12
  {
    hide Round;
    Values8();
    RunFour(V8, 8, Q8);
    assert Constant(8) == 0xd807aa98 && Constant(9) == 0x12835b01;
    assert Constant(10) == 0x243185be && Constant(11) == 0x550c7dc3;
  }

  lemma Values12()
    ensures Round(V12, 0x72be5d74, 0x00000000) ==
            Vars(0x87912990, 0xf71fc5a9, 0x4798a3f4, 0x8c87346b, 0x1e578218, 0x816fd6e9, 0x436b23e8, 0x1cc92596)
    ensures Round(Vars(0x87912990, 0xf71fc5a9, 0x4798a3f4, 0x8c87346b, 0x1e578218, 0x816fd6e9, 0x436b23e8, 0x1cc92596),
                  0x80deb1fe, 0x00000000) ==
            Vars(0xd932eb16, 0x87912990, 0xf71fc5a9, 0x4798a3f4, 0x745a48de, 0x1e578218, 0x816fd6e9, 0x436b23e8)
    ensures Round(Vars(0xd932eb16, 0x87912990, 0xf71fc5a9, 0x4798a3f4, 0x745a48de, 0x1e578218, 0x816fd6e9, 0x436b23e8),
                  0x9bdc06a7, 0x00000000) ==
            Vars(0xc0645fde, 0xd932eb16, 0x87912990, 0xf71fc5a9, 0x0b92f20c, 0x745a48de, 0x1e578218, 0x816fd6e9)
    ensures Round(Vars(0xc0645fde, 0xd932eb16, 0x87912990, 0xf71fc5a9, 0x0b92f20c, 0x745a48de, 0x1e578218, 0x816fd6e9),
                  0xc19bf174, 0x00000018) == V16
  {
  }

  lemma Rounds12()
    ensures RunOn(V12, 12, List(Q12)) == V16
  {
    hide Round;
    Values12();
    RunFour(V12, 12, Q12);
    assert Constant(12) == 0x72be5d74 && Constant(13) == 0x80deb1fe;
    assert Constant(14) == 0x9bdc06a7 && Constant(15) == 0xc19bf174;
  }

  lemma Values16()
    ensures Round(V16, 0xe49b69c1, 0x61626380) ==
            Vars(0x21da9a9b, 0xb0fa238e, 0xc0645fde, 0xd932eb16, 0x8034229c, 0x07590dcd, 0x0b92f20c, 0x745a48de)
    ensures Round(Vars(0x21da9a9b, 0xb0fa238e, 0xc0645fde, 0xd932eb16, 0x8034229c, 0x07590dcd, 0x0b92f20c, 0x745a48de),
                  0xefbe4786, 0x000f0000) ==
            Vars(0xc2fbd9d1, 0x21da9a9b, 0xb0fa238e, 0xc0645fde, 0x846ee454, 0x8034229c, 0x07590dcd, 0x0b92f20c)
    ensures Round(Vars(0xc2fbd9d1, 0x21da9a9b, 0xb0fa238e, 0xc0645fde, 0x846ee454, 0x8034229c, 0x07590dcd, 0x0b92f20c),
                  0x0fc19dc6, 0x7da86405) ==
            Vars(0xfe777bbf, 0xc2fbd9d1, 0x21da9a9b, 0xb0fa238e, 0xcc899961, 0x846ee454, 0x8034229c, 0x07590dcd)
    ensures Round(Vars(0xfe777bbf, 0xc2fbd9d1, 0x21da9a9b, 0xb0fa238e, 0xcc899961, 0x846ee454, 0x8034229c, 0x07590dcd),
                  0x240ca1cc, 0x600003c6) == V20
  {
  }

  lemma Rounds16()
    ensures RunOn(V16, 16, List(Q16)) == V20
  {
    hide Round;
    Values16();
    RunFour(V16, 16, Q16);
    assert Constant(16) == 0xe49b69c1 && Constant(17) == 0xefbe4786;
    assert Constant(18) == 0x0fc19dc6 && Constant(19) == 0x240ca1cc;
  }

  lemma Values20()
    ensures Round(V20, 0x2de92c6f, 0x3e9d7b78) ==
            Vars(0x9dc68b63, 0xe1f20c33, 0xfe777bbf, 0xc2fbd9d1, 0x8ada8930, 0xb0638179, 0xcc899961, 0x846ee454)
    ensures Round(Vars(0x9dc68b63, 0xe1f20c33, 0xfe777bbf, 0xc2fbd9d1, 0x8ada8930, 0xb0638179, 0xcc899961, 0x846ee454),
                  0x4a7484aa, 0x0183fc00) ==
            Vars(0xc2606d6d, 0x9dc68b63, 0xe1f20c33, 0xfe777bbf, 0xe1257970, 0x8ada8930, 0xb0638179, 0xcc899961)
    ensures Round(Vars(0xc2606d6d, 0x9dc68b63, 0xe1f20c33, 0xfe777bbf, 0xe1257970, 0x8ada8930, 0xb0638179, 0xcc899961),
                  0x5cb0a9dc, 0x12dcbfdb) ==
            Vars(0xa7a3623f, 0xc2606d6d, 0x9dc68b63, 0xe1f20c33, 0x49f5114a, 0xe1257970, 0x8ada8930, 0xb0638179)
    ensures Round(Vars(0xa7a3623f, 0xc2606d6d, 0x9dc68b63, 0xe1f20c33, 0x49f5114a, 0xe1257970, 0x8ada8930, 0xb0638179),
                  0x76f988da, 0xe2e2c38e) == V24
  {
  }

  lemma Rounds20()
    ensures RunOn(V20, 20, List(Q20)) == V24
  {
    hide Round;
    Values20();
    RunFour(V20, 20, Q20);
    assert Constant(20) == 0x2de92c6f && Constant(21) == 0x4a7484aa;
    assert Constant(22) == 0x5cb0a9dc && Constant(23) == 0x76f988da;
  }

  lemma Values24()
    ensures Round(V24, 0x983e5152, 0xc8215c1a) ==
            Vars(0x1c2c2838, 0xc5d53d8d, 0xa7a3623f, 0xc2606d6d, 0x2823ef91, 0xaa47c347, 0x49f5114a, 0xe1257970)
    ensures Round(Vars(0x1c2c2838, 0xc5d53d8d, 0xa7a3623f, 0xc2606d6d, 0x2823ef91, 0xaa47c347, 0x49f5114a, 0xe1257970),
                  0xa831c66d, 0xb73679a2) ==
            Vars(0xcde8037d, 0x1c2c2838, 0xc5d53d8d, 0xa7a3623f, 0x14383d8e, 0x2823ef91, 0xaa47c347, 0x49f5114a)
    ensures Round(Vars(0xcde8037d, 0x1c2c2838, 0xc5d53d8d, 0xa7a3623f, 0x14383d8e, 0x2823ef91, 0xaa47c347, 0x49f5114a),
                  0xb00327c8, 0xe5bc3909) ==
            Vars(0xb62ec4bc, 0xcde8037d, 0x1c2c2838, 0xc5d53d8d, 0xc74c6516, 0x14383d8e, 0x2823ef91, 0xaa47c347)
    ensures Round(Vars(0xb62ec4bc, 0xcde8037d, 0x1c2c2838, 0xc5d53d8d, 0xc74c6516, 0x14383d8e, 0x2823ef91, 0xaa47c347),
                  0xbf597fc7, 0x32663c5b) == V28
  {
  }

  lemma Rounds24()
    ensures RunOn(V24, 24, List(Q24)) == V28
  {
    hide Round;
    Values24();
    RunFour(V24, 24, Q24);
    assert Constant(24) == 0x983e5152 && Constant(25) == 0xa831c66d;
    assert Constant(26) == 0xb00327c8 && Constant(27) == 0xbf597fc7;
  }

  lemma Values28()
    ensures Round(V28, 0xc6e00bf3, 0x9d209d67) ==
            Vars(0x363482c9, 0x77d37528, 0xb62ec4bc, 0xcde8037d, 0x6112a3b7, 0xedffbff8, 0xc74c6516, 0x14383d8e)
    ensures Round(Vars(0x363482c9, 0x77d37528, 0xb62ec4bc, 0xcde8037d, 0x6112a3b7, 0xedffbff8, 0xc74c6516, 0x14383d8e),
                  0xd5a79147, 0xec8726cb) ==
            Vars(0xa0060b30, 0x363482c9, 0x77d37528, 0xb62ec4bc, 0xade79437, 0x6112a3b7, 0xedffbff8, 0xc74c6516)
    ensures Round(Vars(0xa0060b30, 0x363482c9, 0x77d37528, 0xb62ec4bc, 0xade79437, 0x6112a3b7, 0xedffbff8, 0xc74c6516),
                  0x06ca6351, 0x702138a4) ==
            Vars(0xea992a22, 0xa0060b30, 0x363482c9, 0x77d37528, 0x0109ab3a, 0xade79437, 0x6112a3b7, 0xedffbff8)
    ensures Round(Vars(0xea992a22, 0xa0060b30, 0x363482c9, 0x77d37528, 0x0109ab3a, 0xade79437, 0x6112a3b7, 0xedffbff8),
                  0x14292967, 0xd3b7973b) == V32
  {
  }

  lemma Rounds28()
    ensures RunOn(V28, 28, List(Q28)) == V32
  {
    hide Round;
    Values28();
    RunFour(V28, 28, Q28);
    assert Constant(28) == 0xc6e00bf3 && Constant(29) == 0xd5a79147;
    assert Constant(30) == 0x06ca6351 && Constant(31) == 0x14292967;
  }

  lemma Values32()
    ensures Round(V32, 0x27b70a85, 0x93f5997f) ==
            Vars(0x98e12507, 0x73b33bf5, 0xea992a22, 0xa0060b30, 0x9cd9f5f6, 0xba591112, 0x0109ab3a, 0xade79437)
    ensures Round(Vars(0x98e12507, 0x73b33bf5, 0xea992a22, 0xa0060b30, 0x9cd9f5f6, 0xba591112, 0x0109ab3a, 0xade79437),
                  0x2e1b2138, 0x3b68ba73) ==
            Vars(0xfe604df5, 0x98e12507, 0x73b33bf5, 0xea992a22, 0x59249dd3, 0x9cd9f5f6, 0xba591112, 0x0109ab3a)
    ensures Round(Vars(0xfe604df5, 0x98e12507, 0x73b33bf5, 0xea992a22, 0x59249dd3, 0x9cd9f5f6, 0xba591112, 0x0109ab3a),
                  0x4d2c6dfc, 0xaff4ffc1) ==
            Vars(0xa9a7738c, 0xfe604df5, 0x98e12507, 0x73b33bf5, 0x085f3833, 0x59249dd3, 0x9cd9f5f6, 0xba591112)
    ensures Round(Vars(0xa9a7738c, 0xfe604df5, 0x98e12507, 0x73b33bf5, 0x085f3833, 0x59249dd3, 0x9cd9f5f6, 0xba591112),
                  0x53380d13, 0xf10a5c62) == V36
  {
  }

  lemma Rounds32()
    ensures RunOn(V32, 32, List(Q32)) == V36
  {
    hide Round;
    Values32();
    RunFour(V32, 32, Q32);
    assert Constant(32) == 0x27b70a85 && Constant(33) == 0x2e1b2138;
    assert Constant(34) == 0x4d2c6dfc && Constant(35) == 0x53380d13;
  }

  lemma Values36()
    ensures Round(V36, 0x650a7354, 0x0a8b3996) ==
            Vars(0x41a65cb1, 0x65a0cfe4, 0xa9a7738c, 0xfe604df5, 0x0772a26b, 0xf4b002d6, 0x085f3833, 0x59249dd3)
    ensures Round(Vars(0x41a65cb1, 0x65a0cfe4, 0xa9a7738c, 0xfe604df5, 0x0772a26b, 0xf4b002d6, 0x085f3833, 0x59249dd3),
                  0x766a0abb, 0x72af830a) ==
            Vars(0x34df1604, 0x41a65cb1, 0x65a0cfe4, 0xa9a7738c, 0xa507a53d, 0x0772a26b, 0xf4b002d6, 0x085f3833)
    ensures Round(Vars(0x34df1604, 0x41a65cb1, 0x65a0cfe4, 0xa9a7738c, 0xa507a53d, 0x0772a26b, 0xf4b002d6, 0x085f3833),
                  0x81c2c92e, 0x9409e33e) ==
            Vars(0x6dc57a8a, 0x34df1604, 0x41a65cb1, 0x65a0cfe4, 0xf0781bc8, 0xa507a53d, 0x0772a26b, 0xf4b002d6)
    ensures Round(Vars(0x6dc57a8a, 0x34df1604, 0x41a65cb1, 0x65a0cfe4, 0xf0781bc8, 0xa507a53d, 0x0772a26b, 0xf4b002d6),
                  0x92722c85, 0x24641522) == V40
  {
  }

  lemma Rounds36()
    ensures RunOn(V36, 36, List(Q36)) == V40
  {
    hide Round;
    Values36();
    RunFour(V36, 36, Q36);
    assert Constant(36) == 0x650a7354 && Constant(37) == 0x766a0abb;
    assert Constant(38) == 0x81c2c92e && Constant(39) == 0x92722c85;
  }

  lemma Values40()
    ensures Round(V40, 0xa2bfe8a1, 0x9f47bf94) ==
            Vars(0xd6670766, 0x79ea687a, 0x6dc57a8a, 0x34df1604, 0x26352d63, 0x1efbc0a0, 0xf0781bc8, 0xa507a53d)
    ensures Round(Vars(0xd6670766, 0x79ea687a, 0x6dc57a8a, 0x34df1604, 0x26352d63, 0x1efbc0a0, 0xf0781bc8, 0xa507a53d),
                  0xa81a664b, 0xf0a64f5a) ==
            Vars(0xdf46652f, 0xd6670766, 0x79ea687a, 0x6dc57a8a, 0x838b2711, 0x26352d63, 0x1efbc0a0, 0xf0781bc8)
    ensures Round(Vars(0xdf46652f, 0xd6670766, 0x79ea687a, 0x6dc57a8a, 0x838b2711, 0x26352d63, 0x1efbc0a0, 0xf0781bc8),
                  0xc24b8b70, 0x3e246a79) ==
            Vars(0x17aa0dfe, 0xdf46652f, 0xd6670766, 0x79ea687a, 0xdecd4715, 0x838b2711, 0x26352d63, 0x1efbc0a0)
    ensures Round(Vars(0x17aa0dfe, 0xdf46652f, 0xd6670766, 0x79ea687a, 0xdecd4715, 0x838b2711, 0x26352d63, 0x1efbc0a0),
                  0xc76c51a3, 0x27333ba3) == V44
  {
  }

  lemma Rounds40()
    ensures RunOn(V40, 40, List(Q40)) == V44
  {
    hide Round;
    Values40();
    RunFour(V40, 40, Q40);
    assert Constant(40) == 0xa2bfe8a1 && Constant(41) == 0xa81a664b;
    assert Constant(42) == 0xc24b8b70 && Constant(43) == 0xc76c51a3;
  }

  lemma Values44()
    ensures Round(V44, 0xd192e819, 0x0c4763f2) ==
            Vars(0x26628815, 0x9d4baf93, 0x17aa0dfe, 0xdf46652f, 0xa80f11f0, 0xfda24c2e, 0xdecd4715, 0x838b2711)
    ensures Round(Vars(0x26628815, 0x9d4baf93, 0x17aa0dfe, 0xdf46652f, 0xa80f11f0, 0xfda24c2e, 0xdecd4715, 0x838b2711),
                  0xd6990624, 0x840abf27) ==
            Vars(0x72ab4b91, 0x26628815, 0x9d4baf93, 0x17aa0dfe, 0xb7755da1, 0xa80f11f0, 0xfda24c2e, 0xdecd4715)
    ensures Round(Vars(0x72ab4b91, 0x26628815, 0x9d4baf93, 0x17aa0dfe, 0xb7755da1, 0xa80f11f0, 0xfda24c2e, 0xdecd4715),
                  0xf40e3585, 0x7a290d5d) ==
            Vars(0xa14c14b0, 0x72ab4b91, 0x26628815, 0x9d4baf93, 0xd57b94a9, 0xb7755da1, 0xa80f11f0, 0xfda24c2e)
    ensures Round(Vars(0xa14c14b0, 0x72ab4b91, 0x26628815, 0x9d4baf93, 0xd57b94a9, 0xb7755da1, 0xa80f11f0, 0xfda24c2e),
                  0x106aa070, 0x065c43da) == V48
  {
  }

  lemma Rounds44()
    ensures RunOn(V44, 44, List(Q44)) == V48
  {
    hide Round;
    Values44();
    RunFour(V44, 44, Q44);
    assert Constant(44) == 0xd192e819 && Constant(45) == 0xd6990624;
    assert Constant(46) == 0xf40e3585 && Constant(47) == 0x106aa070;
  }

  lemma Values48()
    ensures Round(V48, 0x19a4c116, 0xfb3e89cb) ==
            Vars(0x05757ceb, 0x4172328d, 0xa14c14b0, 0x72ab4b91, 0xbd714038, 0xfecf0bc6, 0xd57b94a9, 0xb7755da1)
    ensures Round(Vars(0x05757ceb, 0x4172328d, 0xa14c14b0, 0x72ab4b91, 0xbd714038, 0xfecf0bc6, 0xd57b94a9, 0xb7755da1),
                  0x1e376c08, 0xcc7617db) ==
            Vars(0xf11bfaa8, 0x05757ceb, 0x4172328d, 0xa14c14b0, 0x6e5c390c, 0xbd714038, 0xfecf0bc6, 0xd57b94a9)
    ensures Round(Vars(0xf11bfaa8, 0x05757ceb, 0x4172328d, 0xa14c14b0, 0x6e5c390c, 0xbd714038, 0xfecf0bc6, 0xd57b94a9),
                  0x2748774c, 0xb9e66c34) ==
            Vars(0x7a0508a1, 0xf11bfaa8, 0x05757ceb, 0x4172328d, 0x52f1ccf7, 0x6e5c390c, 0xbd714038, 0xfecf0bc6)
    ensures Round(Vars(0x7a0508a1, 0xf11bfaa8, 0x05757ceb, 0x4172328d, 0x52f1ccf7, 0x6e5c390c, 0xbd714038, 0xfecf0bc6),
                  0x34b0bcb5, 0xa9993667) == V52
  {
  }

  lemma Rounds48()
    ensures RunOn(V48, 48, List(Q48)) == V52
  {
    hide Round;
    Values48();
    RunFour(V48, 48, Q48);
    assert Constant(48) == 0x19a4c116 && Constant(49) == 0x1e376c08;
    assert Constant(50) == 0x2748774c && Constant(51) == 0x34b0bcb5;
  }

  lemma Values52()
    ensures Round(V52, 0x391c0cb3, 0x84badedd) ==
            Vars(0x101fd28f, 0x886e7a22, 0x7a0508a1, 0xf11bfaa8, 0x529e7d00, 0x49231c1e, 0x52f1ccf7, 0x6e5c390c)
    ensures Round(Vars(0x101fd28f, 0x886e7a22, 0x7a0508a1, 0xf11bfaa8, 0x529e7d00, 0x49231c1e, 0x52f1ccf7, 0x6e5c390c),
                  0x4ed8aa4a, 0xc21462bc) ==
            Vars(0xf5702fdb, 0x101fd28f, 0x886e7a22, 0x7a0508a1, 0x9f4787c3, 0x529e7d00, 0x49231c1e, 0x52f1ccf7)
    ensures Round(Vars(0xf5702fdb, 0x101fd28f, 0x886e7a22, 0x7a0508a1, 0x9f4787c3, 0x529e7d00, 0x49231c1e, 0x52f1ccf7),
                  0x5b9cca4f, 0x1487472c) ==
            Vars(0x3ec45cdb, 0xf5702fdb, 0x101fd28f, 0x886e7a22, 0xe50e1b4f, 0x9f4787c3, 0x529e7d00, 0x49231c1e)
    ensures Round(Vars(0x3ec45cdb, 0xf5702fdb, 0x101fd28f, 0x886e7a22, 0xe50e1b4f, 0x9f4787c3, 0x529e7d00, 0x49231c1e),
                  0x682e6ff3, 0xb20f7a99) == V56
  {
  }

  lemma Rounds52()
    ensures RunOn(V52, 52, List(Q52)) == V56
  {
    hide Round;
    Values52();
    RunFour(V52, 52, Q52);
    assert Constant(52) == 0x391c0cb3 && Constant(53) == 0x4ed8aa4a;
    assert Constant(54) == 0x5b9cca4f && Constant(55) == 0x682e6ff3;
  }

  lemma Values56()
    ensures Round(V56, 0x748f82ee, 0xef57b9cd) ==
            Vars(0xfcd1887b, 0x38cc9913, 0x3ec45cdb, 0xf5702fdb, 0x9b5e906c, 0x54cb266b, 0xe50e1b4f, 0x9f4787c3)
    ensures Round(Vars(0xfcd1887b, 0x38cc9913, 0x3ec45cdb, 0xf5702fdb, 0x9b5e906c, 0x54cb266b, 0xe50e1b4f, 0x9f4787c3),
                  0x78a5636f, 0xebe6b238) ==
            Vars(0xc062d46f, 0xfcd1887b, 0x38cc9913, 0x3ec45cdb, 0x7e44008e, 0x9b5e906c, 0x54cb266b, 0xe50e1b4f)
    ensures Round(Vars(0xc062d46f, 0xfcd1887b, 0x38cc9913, 0x3ec45cdb, 0x7e44008e, 0x9b5e906c, 0x54cb266b, 0xe50e1b4f),
                  0x84c87814, 0x9fe3095e) ==
            Vars(0xffb70472, 0xc062d46f, 0xfcd1887b, 0x38cc9913, 0x6d83bfc6, 0x7e44008e, 0x9b5e906c, 0x54cb266b)
    ensures Round(Vars(0xffb70472, 0xc062d46f, 0xfcd1887b, 0x38cc9913, 0x6d83bfc6, 0x7e44008e, 0x9b5e906c, 0x54cb266b),
                  0x8cc70208, 0x78bc8d4b) == V60
  {
  }

  lemma Rounds56()
    ensures RunOn(V56, 56, List(Q56)) == V60
  {
    hide Round;
    Values56();
    RunFour(V56, 56, Q56);
    assert Constant(56) == 0x748f82ee && Constant(57) == 0x78a5636f;
    assert Constant(58) == 0x84c87814 && Constant(59) == 0x8cc70208;
  }

  lemma Values60()
    ensures Round(V60, 0x90befffa, 0xa43fcf15) ==
            Vars(0xb85e2ce9, 0xb6ae8fff, 0xffb70472, 0xc062d46f, 0x961f4894, 0xb21bad3d, 0x6d83bfc6, 0x7e44008e)
    ensures Round(Vars(0xb85e2ce9, 0xb6ae8fff, 0xffb70472, 0xc062d46f, 0x961f4894, 0xb21bad3d, 0x6d83bfc6, 0x7e44008e),
                  0xa4506ceb, 0x668b2ff8) ==
            Vars(0x04d24d6c, 0xb85e2ce9, 0xb6ae8fff, 0xffb70472, 0x948d25b6, 0x961f4894, 0xb21bad3d, 0x6d83bfc6)
    ensures Round(Vars(0x04d24d6c, 0xb85e2ce9, 0xb6ae8fff, 0xffb70472, 0x948d25b6, 0x961f4894, 0xb21bad3d, 0x6d83bfc6),
                  0xbef9a3f7, 0xeeaba2cc) ==
            Vars(0xd39a2165, 0x04d24d6c, 0xb85e2ce9, 0xb6ae8fff, 0xfb121210, 0x948d25b6, 0x961f4894, 0xb21bad3d)
    ensures Round(Vars(0xd39a2165, 0x04d24d6c, 0xb85e2ce9, 0xb6ae8fff, 0xfb121210, 0x948d25b6, 0x961f4894, 0xb21bad3d),
                  0xc67178f2, 0x12b1edeb) == V64
  {
  }

  lemma Rounds60()
    ensures RunOn(V60, 60, List(Q60)) == V64
  {
    hide Round;
    Values60();
    RunFour(V60, 60, Q60);
    assert Constant(60) == 0x90befffa && Constant(61) == 0xa4506ceb;
    assert Constant(62) == 0xbef9a3f7 && Constant(63) == 0xc67178f2;
  }

  lemma {:induction false} RunOnIs(t: nat, ws: seq<bv32>)
    requires t + |ws| <= 64 && forall i :: 0 <= i < |ws| ==> W(OnlyBlock(), t + i) == ws[i]
    ensures RunOn(Rounds(INITIAL, OnlyBlock(), t), t, ws) == Rounds(INITIAL, OnlyBlock(), t + |ws|)
    decreases ws
  {
    hide Round, W, OnlyBlock;
    if ws != [] {
      assert W(OnlyBlock(), t + 0) == ws[0];
      forall i | 0 <= i < |ws| - 1
        ensures W(OnlyBlock(), t + 1 + i) == ws[1..][i]
      {
        assert W(OnlyBlock(), t + (i + 1)) == ws[i + 1];
      }
      RunOnIs(t + 1, ws[1..]);
    }
  }

  lemma RunQuad(t: nat, q: Quad)
    requires t + 4 <= 64 && IsQuad(t, q)
    ensures RunOn(Rounds(INITIAL, OnlyBlock(), t), t, List(q)) == Rounds(INITIAL, OnlyBlock(), t + 4)
  {
    hide Rounds, W, OnlyBlock, RunOn;
    RunOnIs(t, List(q));
  }

  lemma NoRounds()
    ensures Rounds(INITIAL, OnlyBlock(), 0) == V0
  {
    hide OnlyBlock;
  }

  lemma RoundsTo16()
    ensures Rounds(INITIAL, OnlyBlock(), 16) == V16
  {
    hide IsQuad, RunOn, List, OnlyBlock, Rounds;
    AllWords();
    NoRounds();
    Rounds0(); RunQuad(0, Q0);
    Rounds4(); RunQuad(4, Q4);
    Rounds8(); RunQuad(8, Q8);
    Rounds12(); RunQuad(12, Q12);
  }

  lemma RoundsTo32()
    ensures Rounds(INITIAL, OnlyBlock(), 32) == V32
  {
    hide IsQuad, RunOn, List, OnlyBlock, Rounds;
    AllWords();
    RoundsTo16();
    Rounds16(); RunQuad(16, Q16);
    Rounds20(); RunQuad(20, Q20);
    Rounds24(); RunQuad(24, Q24);
    Rounds28(); RunQuad(28, Q28);
  }

  lemma RoundsTo48()
    ensures Rounds(INITIAL, OnlyBlock(), 48) == V48
  {
    hide IsQuad, RunOn, List, OnlyBlock, Rounds;
    AllWords();
    RoundsTo32();
    Rounds32(); RunQuad(32, Q32);
    Rounds36(); RunQuad(36, Q36);
    Rounds40(); RunQuad(40, Q40);
    Rounds44(); RunQuad(44, Q44);
  }

  lemma RoundsTo64()
    ensures Rounds(INITIAL, OnlyBlock(), 64) == V64
  {
    hide IsQuad, RunOn, List, OnlyBlock, Rounds;
    AllWords();
    RoundsTo48();
    Rounds48(); RunQuad(48, Q48);
    Rounds52(); RunQuad(52, Q52);
    Rounds56(); RunQuad(56, Q56);
    Rounds60(); RunQuad(60, Q60);
  }

  // ---- the digest ----------------------------------------------------------------------------------------

  lemma PaddedMessage()
    ensures Padded(MESSAGE, LengthBytes(BitLength(3))) == OnlyBlock()
  {
    LengthOfMessage();
    hide LengthBytes, BitLength;
    assert PadZeros(3) == 52;
  }

  lemma LengthOfMessage()
    ensures BitLength(3) == 24 && LengthBytes(24) == [0, 0, 0, 0, 0, 0, 0, 24]
  {
    hide ByteOf;
    OneByte(24, 0, 24);
    HighByte(1); HighByte(2); HighByte(3); HighByte(4); HighByte(5); HighByte(6); HighByte(7);
  }

  lemma HighByte(i: nat)
    requires i >= 1
    ensures ByteOf(24, i) == 0
  {
    hide ByteOf;
    assert Pow256(i) >= 256;
    OneByte(24, i, 0);
  }

  lemma OneByte(bits: nat, i: nat, b: bv8)
    requires Digit(bits, i) == b as nat
    ensures ByteOf(bits, i) == b
  {
    hide Digit;
  }

  lemma Hashed()
    ensures Compress(INITIAL, OnlyBlock()) == [0xba7816bf, 0x8f01cfea, 0x414140de, 0x5dae2223,
                                0xb00361a3, 0x96177a9c, 0xb410ff61, 0xf20015ad]
  {
    hide Rounds, OnlyBlock;
    RoundsTo64();
  }

  lemma BytesMore(ws: seq<bv32>, w: bv32)
    ensures AllBytes(ws + [w]) == AllBytes(ws) + Bytes(w)
  {
    hide Bytes;
    assert (ws + [w])[..|ws|] == ws;
  }

  lemma FourWords(ws: seq<bv32>, a: bv32, b: bv32, c: bv32, d: bv32)
    ensures AllBytes(ws + [a] + [b] + [c] + [d]) == AllBytes(ws) + Bytes(a) + Bytes(b) + Bytes(c) + Bytes(d)
  {
    hide Bytes, AllBytes;
    BytesMore(ws, a);
    BytesMore(ws + [a], b);
    BytesMore(ws + [a] + [b], c);
    BytesMore(ws + [a] + [b] + [c], d);
  }

  lemma FirstBytes()
    ensures Bytes(0xba7816bf) == [0xba, 0x78, 0x16, 0xbf]
    ensures Bytes(0x8f01cfea) == [0x8f, 0x01, 0xcf, 0xea]
    ensures Bytes(0x414140de) == [0x41, 0x41, 0x40, 0xde]
    ensures Bytes(0x5dae2223) == [0x5d, 0xae, 0x22, 0x23]
  {
  }

  lemma LastBytes()
    ensures Bytes(0xb00361a3) == [0xb0, 0x03, 0x61, 0xa3]
    ensures Bytes(0x96177a9c) == [0x96, 0x17, 0x7a, 0x9c]
    ensures Bytes(0xb410ff61) == [0xb4, 0x10, 0xff, 0x61]
    ensures Bytes(0xf20015ad) == [0xf2, 0x00, 0x15, 0xad]
  {
  }

  lemma DigestBytes()
    ensures AllBytes([0xba7816bf, 0x8f01cfea, 0x414140de, 0x5dae2223,
                                0xb00361a3, 0x96177a9c, 0xb410ff61, 0xf20015ad]) ==
      [0xba, 0x78, 0x16, 0xbf, 0x8f, 0x01, 0xcf, 0xea, 0x41, 0x41, 0x40, 0xde, 0x5d, 0xae, 0x22, 0x23,
       0xb0, 0x03, 0x61, 0xa3, 0x96, 0x17, 0x7a, 0x9c, 0xb4, 0x10, 0xff, 0x61, 0xf2, 0x00, 0x15, 0xad]
  {
    hide Bytes, AllBytes;
    FirstBytes();
    LastBytes();
    NoBytes();
    FourWords([], 0xba7816bf, 0x8f01cfea, 0x414140de, 0x5dae2223);
    var front := [] + [0xba7816bf] + [0x8f01cfea] + [0x414140de] + [0x5dae2223];
    FourWords(front, 0xb00361a3, 0x96177a9c, 0xb410ff61, 0xf20015ad);
    assert front + [0xb00361a3] + [0x96177a9c] + [0xb410ff61] + [0xf20015ad]
        == [0xba7816bf, 0x8f01cfea, 0x414140de, 0x5dae2223,
                                0xb00361a3, 0x96177a9c, 0xb410ff61, 0xf20015ad];
    assert AllBytes(front)
      == [0xba, 0x78, 0x16, 0xbf, 0x8f, 0x01, 0xcf, 0xea, 0x41, 0x41, 0x40, 0xde, 0x5d, 0xae, 0x22, 0x23];
  }

  lemma NoBytes()
    ensures AllBytes([]) == []
  {
  }

  /** The digest of "abc" is that of the standard's example. */
  lemma DigestOfAbc()
    ensures Digest(MESSAGE) ==
      [0xba, 0x78, 0x16, 0xbf, 0x8f, 0x01, 0xcf, 0xea, 0x41, 0x41, 0x40, 0xde, 0x5d, 0xae, 0x22, 0x23,
       0xb0, 0x03, 0x61, 0xa3, 0x96, 0x17, 0x7a, 0x9c, 0xb4, 0x10, 0xff, 0x61, 0xf2, 0x00, 0x15, 0xad]
  {
    hide Compress, Padded, LengthBytes, BitLength, OnlyBlock, AllBytes;
    PaddedMessage();
    Hashed();
    DigestBytes();
    var m := OnlyBlock();
    assert m[..64] == m && m[64..] == [];
    assert Fold<Hash>(Compress, INITIAL, m) == Compress(INITIAL, m);
  }
}
