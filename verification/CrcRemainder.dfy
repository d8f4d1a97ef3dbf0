// What the register of Crc32 computes: the remainder of a polynomial over GF(2) by the generator of RFC 1952
// (section 8, where it is that of ISO 3309).

module CrcRemainder {
  import opened Bits
  import opened Words
  import opened Crc32

  // ---- polynomials ------------------------------------------------------------------------------

  /** A polynomial is its coefficients, the highest power first. */
  type Poly = seq<bool>

  /** x^32 + x^26 + x^23 + x^22 + x^16 + x^12 + x^11 + x^10 + x^8 + x^7 + x^5 + x^4 + x^2 + x + 1. */
  const POWERS := {32, 26, 23, 22, 16, 12, 11, 10, 8, 7, 5, 4, 2, 1, 0}

  function Generator(): (g: Poly)
    ensures |g| == 33 && g[0] && forall i :: 0 <= i < 33 ==> (g[i] <==> 32 - i in POWERS)
  {
    seq(33, i => 32 - i in POWERS)
  }

  function Zero(n: nat): (z: Poly)
    ensures |z| == n && forall i :: 0 <= i < n ==> !z[i]
  {
    seq(n, _ => false)
  }

  function Sum(a: Poly, b: Poly): (s: Poly)
    requires |a| == |b|
    ensures |s| == |a| && forall i :: 0 <= i < |a| ==> s[i] == (a[i] != b[i])
  {
    seq(|a|, i requires 0 <= i < |a| => a[i] != b[i])
  }

  /** The generator, or nothing, times x^n. */
  function Shifted(b: bool, n: nat): (s: Poly)
    ensures |s| == n + 33
  {
    (if b then Generator() else Zero(33)) + Zero(n)
  }

  /** The generator times `q`. */
  function Product(q: Poly): (r: Poly)
    ensures |r| == |q| + 32
    decreases q
  {
    if q == [] then Zero(32) else Sum(Shifted(q[0], |q| - 1), [false] + Product(q[1..]))
  }

  /** A multiple of the generator. Coefficients 0 in front make room for the zero polynomial, of any length. */
  ghost predicate Multiple(m: Poly) {
    exists q: Poly :: Product(q) == Zero(32) + m
  }

  // ---- the constant -----------------------------------------------------------------------------------

  predicate Odd(w: bv32) {
    w & 1 == 1
  }

  function Half(w: bv32): bv32 {
    w >> 1
  }

  lemma HoldsOne(w: bv32, b: bool, bits: seq<bool>)
    requires Odd(w) == b && Holds(Half(w), bits)
    ensures Holds(w, [b] + bits)
  {
    StartsHalf(w);
    hide Holds;
    HoldsMore(w, b, Half(w), bits);
  }

  lemma StartsHalf(w: bv32)
    ensures Starts(w, Odd(w), Half(w))
  {
  }

  /** A hexadecimal digit below what a word holds. */
  lemma HoldsDigit(w: bv32, a: bool, b: bool, c: bool, d: bool, w': bv32, bits: seq<bool>)
    requires Odd(w) == a && Odd(Half(w)) == b && Odd(Half(Half(w))) == c && Odd(Half(Half(Half(w)))) == d
    requires w' == Half(Half(Half(Half(w)))) && Holds(w', bits)
    ensures Holds(w, [a, b, c, d] + bits)
  {
    hide Holds, Odd, Half;
    var x := Half(w);
    var y := Half(x);
    HoldsOne(Half(y), d, bits);
    HoldsOne(y, c, [d] + bits);
    HoldsOne(x, b, [c] + ([d] + bits));
    HoldsOne(w, a, [b] + ([c] + ([d] + bits)));
    assert [a] + ([b] + ([c] + ([d] + bits))) == [a, b, c, d] + bits;
  }

  /** The constant of the program holds the coefficients of the generator behind x^32, from x^31 on. */
  lemma PolyIsGenerator()
    ensures Holds(POLY, Generator()[1..])
  {
    var t, f := true, false;
    assert Holds(0, []);
    hide Holds;
    HoldsDigit(0xE, f, t, t, t, 0, []);
    HoldsDigit(0xED, t, f, t, t, 0xE, [f, t, t, t] + []);
    var x := [t, f, t, t] + ([f, t, t, t] + []);
    HoldsDigit(0xEDB, t, t, f, t, 0xED, x);
    HoldsDigit(0xEDB8, f, f, f, t, 0xEDB, [t, t, f, t] + x);
    var y := [f, f, f, t] + ([t, t, f, t] + x);
    HoldsDigit(0xEDB88, f, f, f, t, 0xEDB8, y);
    HoldsDigit(0xEDB883, t, t, f, f, 0xEDB88, [f, f, f, t] + y);
    var z := [t, t, f, f] + ([f, f, f, t] + y);
    HoldsDigit(0xEDB8832, f, t, f, f, 0xEDB883, z);
    HoldsDigit(0xEDB88320, f, f, f, f, 0xEDB8832, [f, t, f, f] + z);
    assert Generator()[1..] == [f, f, f, f] + ([f, t, f, f] + z);
  }

  // ---- the register is linear in the message ------------------------------------------------------------

  lemma ShiftSum(s: bv32, t: bv32, b: bool, c: bool)
    ensures Xor(Shift(s, b), Shift(t, c)) == Shift(Xor(s, t), b != c)
  {
    hide Step, Xor;
    ShiftOfDifference(s, t, b, c);
  }

  lemma {:induction false} FeedSum(s: bv32, a: Poly, t: bv32, b: Poly)
    requires |a| == |b|
    ensures Feed(Xor(s, t), Sum(a, b)) == Xor(Feed(s, a), Feed(t, b))
    decreases a
  {
    hide Shift, Xor;
    if a != [] {
      ShiftSum(s, t, a[0], b[0]);
      FeedSum(Shift(s, a[0]), a[1..], Shift(t, b[0]), b[1..]);
      assert Sum(a, b)[1..] == Sum(a[1..], b[1..]);
    }
  }

  lemma XorSame(c: bv32)
    ensures Xor(c, c) == 0
  {
  }

  lemma ShiftNothing()
    ensures Shift(0, false) == 0
  {
  }

  lemma {:induction false} StepsNothing(n: nat)
    ensures Steps(0, n) == 0
  {
    if n > 0 {
      StepsNothing(n - 1);
    }
  }

  lemma {:induction false} FeedZero(n: nat)
    ensures Feed(0, Zero(n)) == 0
  {
    hide Shift;
    if n > 0 {
      ShiftNothing();
      FeedZero(n - 1);
      assert Zero(n)[1..] == Zero(n - 1);
    }
  }

  lemma FirstShift()
    ensures Shift(0, true) == POLY
  {
  }

  /** The generator leaves nothing in the register. */
  lemma FeedGenerator()
    ensures Feed(0, Generator()) == 0
  {
    hide Shift, Xor, Holds;
    FirstShift();
    PolyIsGenerator();
    FeedIsSteps(POLY, POLY, Generator()[1..]);
    XorSame(POLY);
    StepsNothing(32);
  }

  lemma FeedShifted(b: bool, n: nat)
    ensures Feed(0, Shifted(b, n)) == 0
  {
    hide Shift;
    FeedGenerator();
    FeedZero(33);
    FeedZero(n);
    FeedConcat(0, if b then Generator() else Zero(33), Zero(n));
  }

  lemma FeedBehindZero(m: Poly)
    ensures Feed(0, [false] + m) == Feed(0, m)
  {
    hide Shift;
    ShiftNothing();
    assert ([false] + m)[1..] == m;
  }

  // ---- multiples, and no others, leave nothing ------------------------------------------------------------

  lemma {:induction false} FeedProduct(q: Poly)
    ensures Feed(0, Product(q)) == 0
    decreases q
  {
    hide Feed, Xor;
    if q == [] {
      FeedZero(32);
    } else {
      FeedProduct(q[1..]);
      FeedShifted(q[0], |q| - 1);
      FeedBehindZero(Product(q[1..]));
      FeedSum(0, Shifted(q[0], |q| - 1), 0, [false] + Product(q[1..]));
      XorSame(0);
    }
  }

  /** Division: what the register is empty after is a multiple. */
  lemma {:induction false} Quotient(m: Poly) returns (q: Poly)
    requires |m| >= 32 && Feed(0, m) == 0
    ensures Product(q) == m
    decreases |m|
  {
    hide Feed, Xor, Shifted;
    var n := |m| - 32;
    if n == 0 {
      q := [];
      FeedZero(32);
      if m != Zero(32) {
        WindowDetected(0, m, Zero(32));
      }
    } else {
      var s := Shifted(m[0], n - 1);
      var rest := Sum(s, m);
      ShiftedStarts(m[0], n - 1);
      FeedShifted(m[0], n - 1);
      FeedSum(0, s, 0, m);
      XorSame(0);
      assert rest == [false] + rest[1..];
      FeedBehindZero(rest[1..]);
      var q' := Quotient(rest[1..]);
      q := [m[0]] + q';
      assert q[1..] == q';
      assert Sum(s, rest) == m;
    }
  }

  lemma ShiftedStarts(b: bool, n: nat)
    ensures Shifted(b, n)[0] == b
  {
  }

  /** The register is empty after a bit string exactly if it is a multiple of the generator. */
  lemma EmptyIffMultiple(m: Poly)
    ensures Feed(0, m) == 0 <==> Multiple(m)
  {
    hide Feed, Product;
    FeedZero(32);
    FeedConcat(0, Zero(32), m);
    if Feed(0, m) == 0 {
      var q := Quotient(Zero(32) + m);
    }
    if Multiple(m) {
      var q: Poly :| Product(q) == Zero(32) + m;
      FeedProduct(q);
    }
  }

  /** Two messages of one length have the same checksum exactly if their difference is a multiple of it. */
  lemma SameCrcIff(a: seq<byte>, b: seq<byte>)
    requires |a| == |b|
    ensures Crc(a) == Crc(b) <==> Multiple(Sum(SrcBits(a), SrcBits(b)))
  {
    hide Feed, Xor, Multiple, Run, SrcBits, Crc;
    var x, y := SrcBits(a), SrcBits(b);
    RunIsFeed(ALL_ONES, a);
    RunIsFeed(ALL_ONES, b);
    FeedSum(ALL_ONES, x, ALL_ONES, y);
    XorSame(ALL_ONES);
    EmptyIffMultiple(Sum(x, y));
    XorZeroIff(Run(ALL_ONES, a), Run(ALL_ONES, b));
    SameRun(a, b);
  }

  function Flip(x: bv32): bv32 {
    x ^ ALL_ONES
  }

  lemma FlipInjective(x: bv32, y: bv32)
    ensures Flip(x) == Flip(y) <==> x == y
  {
    XorInjective(x, y);
  }

  lemma CrcIs(data: seq<byte>)
    ensures Crc(data) == Flip(Run(ALL_ONES, data))
  {
    hide Run;
  }

  lemma SameRun(a: seq<byte>, b: seq<byte>)
    ensures Crc(a) == Crc(b) <==> Run(ALL_ONES, a) == Run(ALL_ONES, b)
  {
    hide Run, Crc, Flip;
    CrcIs(a);
    CrcIs(b);
    FlipInjective(Run(ALL_ONES, a), Run(ALL_ONES, b));
  }

  lemma XorZeroIff(x: bv32, y: bv32)
    ensures Xor(x, y) == 0 <==> x == y
  {
  }

  lemma OneByte(c: bv32, b: byte, w: bv32)
    requires w == c ^ Word(b)
    ensures Update(c, b) == Step(Step(Step(Step(Step(Step(Step(Step(w))))))))
  {
    hide Step;
  }

  lemma Fed123()
    ensures Update(0xFFFFFFFF, 49) == 0x7C231048
    ensures Update(0x7C231048, 50) == 0xB0ACBB32
    ensures Update(0xB0ACBB32, 51) == 0x77B79C2D
  {
    assert Word(49) == 49 && Word(50) == 50 && Word(51) == 51;
    OneByte(0xFFFFFFFF, 49, 0xFFFFFFCE);
    OneByte(0x7C231048, 50, 0x7C23107A);
    OneByte(0xB0ACBB32, 51, 0xB0ACBB01);
  }

  lemma Fed456()
    ensures Update(0x77B79C2D, 52) == 0x641C1F5C
    ensures Update(0x641C1F5C, 53) == 0x340AC5E3
    ensures Update(0x340AC5E3, 54) == 0xF68D2C9E
  {
    assert Word(52) == 52 && Word(53) == 53 && Word(54) == 54;
    OneByte(0x77B79C2D, 52, 0x77B79C19);
    OneByte(0x641C1F5C, 53, 0x641C1F69);
    OneByte(0x340AC5E3, 54, 0x340AC5D5);
  }

  lemma Fed789()
    ensures Update(0xF68D2C9E, 55) == 0xAFFC9660
    ensures Update(0xAFFC9660, 56) == 0x651F2550
    ensures Update(0x651F2550, 57) == 0x340BC6D9
  {
    assert Word(55) == 55 && Word(56) == 56 && Word(57) == 57;
    OneByte(0xF68D2C9E, 55, 0xF68D2CA9);
    OneByte(0xAFFC9660, 56, 0xAFFC9658);
    OneByte(0x651F2550, 57, 0x651F2569);
  }

  /** The checksum of the digits from 1 to 9, by which CRC-32 is told from its relatives. */
  lemma CheckValue()
    ensures Crc([49, 50, 51, 52, 53, 54, 55, 56, 57]) == 0xCBF43926
  {
    hide Update, Run;
    Fed123();
    Fed456();
    Fed789();
    RunNothing();
    var digits: seq<byte> := [];
    for i := 0 to 9
      invariant |digits| == i && forall k :: 0 <= k < i ==> digits[k] == 49 + k
      invariant Run(ALL_ONES, digits)
                == [0xFFFFFFFF, 0x7C231048, 0xB0ACBB32, 0x77B79C2D, 0x641C1F5C, 0x340AC5E3, 0xF68D2C9E, 0xAFFC9660,
                    0x651F2550, 0x340BC6D9][i]
    {
      RunAppend(ALL_ONES, digits, 49 + i);
      digits := digits + [49 + i];
    }
    assert digits == [49, 50, 51, 52, 53, 54, 55, 56, 57];
  }

  lemma RunNothing()
    ensures Run(ALL_ONES, []) == 0xFFFFFFFF
  {
  }
}
