// The bitwise CRC-32 of gzip (RFC 1952 section 8), and the error bursts it is sure to detect.

module Crc32 {
  import opened Bits
  import opened Words

  const POLY: bv32 := 0xEDB88320
  const ALL_ONES: bv32 := 0xFFFFFFFF

  /** One turn of the shift register. */
  function Step(c: bv32): bv32 {
    if c & 1 == 1 then (c >> 1) ^ POLY else c >> 1
  }

  function Steps(c: bv32, n: nat): bv32
    decreases n
  {
    if n == 0 then c else Steps(Step(c), n - 1)
  }

  function Update(crc: bv32, b: byte): bv32 {
    Steps(crc ^ Word(b), 8)
  }

  /** The register after a byte string has been fed in. */
  function Run(crc: bv32, data: seq<byte>): bv32 {
    if data == [] then crc else Update(Run(crc, data[..|data| - 1]), data[|data| - 1])
  }

  function Crc(data: seq<byte>): bv32 {
    Run(ALL_ONES, data) ^ ALL_ONES
  }

  lemma RunAppend(crc: bv32, data: seq<byte>, b: byte)
    ensures Run(crc, data + [b]) == Update(Run(crc, data), b)
  {
    hide Update;
    assert (data + [b])[..|data + [b]| - 1] == data;
  }

  /** crc32_update. */
  method Crc32Update(crc: bv32, b: byte) returns (r: bv32)
    ensures r == Update(crc, b)
  {
    r := crc ^ Word(b);
    for i := 0 to 8
      invariant Steps(r, 8 - i) == Update(crc, b)
    {
      r := if r & 1 == 1 then (r >> 1) ^ POLY else r >> 1;
    }
  }

  /** crc32_buf. */
  method Crc32Buf(data: seq<byte>) returns (r: bv32)
    ensures r == Crc(data)
  {
    var crc := ALL_ONES;
    for i := 0 to |data|
      invariant crc == Run(ALL_ONES, data[..i])
    {
      assert data[..i + 1][..i] == data[..i];
      crc := Crc32Update(crc, data[i]);
    }
    assert data[..|data|] == data;
    return crc ^ ALL_ONES;
  }

  // ---- the shift register, one message bit at a time ------------------------------

  function Xor(a: bv32, b: bv32): bv32 {
    a ^ b
  }

  /** The register after one message bit. */
  function Shift(c: bv32, b: bool): bv32 {
    Step(Xor(c, BitWord(b)))
  }

  /** Feeding a bit string into the register. */
  function Feed(c: bv32, bits: seq<bool>): bv32
    decreases bits
  {
    if bits == [] then c else Feed(Shift(c, bits[0]), bits[1..])
  }

  /** The update step is linear over GF(2). */
  lemma StepLinear(a: bv32, b: bv32)
    ensures Step(Xor(a, b)) == Xor(Step(a), Step(b))
  {
    StepLinearRaw(a, b);
    assert Xor(a, b) == a ^ b && Xor(Step(a), Step(b)) == Step(a) ^ Step(b);
  }

  lemma StepLinearRaw(a: bv32, b: bv32)
    ensures Step(a ^ b) == Step(a) ^ Step(b)
  {
    XorHalf(a, b);
    XorLow(a, b);
    XorCancel(a >> 1, b >> 1);
  }

  lemma XorHalf(a: bv32, b: bv32)
    ensures (a ^ b) >> 1 == (a >> 1) ^ (b >> 1)
  {
  }

  lemma XorLow(a: bv32, b: bv32)
    ensures (a ^ b) & 1 == 1 <==> (a & 1 == 1) != (b & 1 == 1)
  {
  }

  lemma XorCancel(x: bv32, y: bv32)
    ensures (x ^ POLY) ^ (y ^ POLY) == x ^ y
    ensures (x ^ POLY) ^ y == (x ^ y) ^ POLY
    ensures x ^ (y ^ POLY) == (x ^ y) ^ POLY
  {
  }

  lemma StepInjective(a: bv32, b: bv32)
    requires Step(a) == Step(b)
    ensures a == b
  {
  }

  lemma ShiftInjective(s: bv32, t: bv32, b: bool)
    requires Shift(s, b) == Shift(t, b)
    ensures s == t
  {
    var w := BitWord(b);
    StepInjective(s ^ w, t ^ w);
    assert (s ^ w) ^ w == s && (t ^ w) ^ w == t;
  }

  lemma {:induction false} FeedConcat(c: bv32, a: seq<bool>, b: seq<bool>)
    ensures Feed(c, a + b) == Feed(Feed(c, a), b)
    decreases a
  {
    hide Shift;
    if a == [] {
      assert a + b == b;
    } else {
      assert (a + b)[1..] == a[1..] + b;
      FeedConcat(Shift(c, a[0]), a[1..], b);
    }
  }

  lemma {:induction false} FeedInjective(s: bv32, t: bv32, bits: seq<bool>)
    requires Feed(s, bits) == Feed(t, bits)
    ensures s == t
    decreases bits
  {
    hide Shift;
    if bits != [] {
      FeedInjective(Shift(s, bits[0]), Shift(t, bits[0]), bits[1..]);
      ShiftInjective(s, t, bits[0]);
    }
  }

  /** A word's higher bits ride along until they reach the low end. */
  lemma ShiftRides(c: bv32, w: bv32, b: bool, w': bv32)
    requires Starts(w, b, w')
    ensures Step(Xor(c, w)) == Xor(Shift(c, b), w')
  {
    var v := BitWord(b);
    assert Step(Xor(w, v)) == w' by {
      StepOfEven(w, v);
    }
    RidesThrough(c, w, v, w');
    assert Shift(c, b) == Step(Xor(c, v));
  }

  lemma RidesThrough(c: bv32, w: bv32, v: bv32, w': bv32)
    requires Step(Xor(w, v)) == w'
    ensures Step(Xor(c, w)) == Xor(Step(Xor(c, v)), w')
  {
    hide Step, Xor;
    XorThrough(c, w, v);
    StepLinear(Xor(c, v), Xor(w, v));
  }

  lemma XorThrough(c: bv32, w: bv32, v: bv32)
    ensures Xor(c, w) == Xor(Xor(c, v), Xor(w, v))
  {
    XorThroughRaw(c, w, v, Xor(c, v), Xor(w, v));
  }

  lemma XorThroughRaw(c: bv32, w: bv32, v: bv32, x: bv32, y: bv32)
    requires x == c ^ v && y == w ^ v
    ensures Xor(c, w) == Xor(x, y)
  {
    assert c ^ w == (c ^ v) ^ (w ^ v);
  }

  lemma StepOfEven(w: bv32, v: bv32)
    requires v == w & 1
    ensures Step(Xor(w, v)) == w >> 1
  {
  }

  /** Shifting a word into the register at once or bit by bit is the same. */
  lemma {:induction false} FeedIsSteps(c: bv32, w: bv32, bits: seq<bool>)
    requires Holds(w, bits)
    ensures Steps(Xor(c, w), |bits|) == Feed(c, bits)
    decreases bits
  {
    hide Step, Shift, Xor, Starts;
    if bits == [] {
      XorZero(c);
    } else {
      var w' :| Starts(w, bits[0], w') && Holds(w', bits[1..]);
      ShiftRides(c, w, bits[0], w');
      FeedIsSteps(Shift(c, bits[0]), w', bits[1..]);
    }
  }

  lemma XorZero(c: bv32)
    ensures Xor(c, 0) == c
  {
  }

  lemma UpdateIsFeed(c: bv32, b: byte)
    ensures Update(c, b) == Feed(c, Digits(b, 8))
  {
    hide Step, Shift, Word;
    assert Pow2(8) == 256;
    WordHolds(b, 8);
    FeedIsSteps(c, Word(b), Digits(b, 8));
  }

  /** The CRC of a byte string depends only on its bit string, low bit of each byte first. */
  lemma {:induction false} RunIsFeed(c: bv32, data: seq<byte>)
    ensures Run(c, data) == Feed(c, SrcBits(data))
  {
    if data == [] {
      assert SrcBits(data) == [];
    } else {
      var init, last := data[..|data| - 1], data[|data| - 1];
      RunIsFeed(c, init);
      UpdateIsFeed(Run(c, init), last);
      assert data == init + [last];
      SrcBitsConcat(init, [last]);
      assert SrcBits([last]) == Digits(last, 8) by {
        assert SrcBits([last]) == Digits(last, 8) + SrcBits([]);
      }
      FeedConcat(c, SrcBits(init), Digits(last, 8));
    }
  }

  // ---- burst detection -----------------------------------------------------------------

  /** `m` is 2^n times an odd number, or larger: it stays positive through n halvings. */
  ghost predicate Halves(m: bv32, n: nat)
    decreases n
  {
    m != 0 && (n == 0 || (m & 1 == 0 && Halves(m >> 1, n - 1)))
  }

  lemma TopBitHalves()
    ensures Halves(0x8000_0000, 31)
  {
    assert Halves(1, 0) && Halves(2, 1);
    assert Halves(4, 2); assert Halves(8, 3); assert Halves(0x10, 4); assert Halves(0x20, 5);
    assert Halves(0x40, 6); assert Halves(0x80, 7); assert Halves(0x100, 8); assert Halves(0x200, 9);
    assert Halves(0x400, 10); assert Halves(0x800, 11); assert Halves(0x1000, 12); assert Halves(0x2000, 13);
    assert Halves(0x4000, 14); assert Halves(0x8000, 15); assert Halves(0x1_0000, 16); assert Halves(0x2_0000, 17);
    assert Halves(0x4_0000, 18); assert Halves(0x8_0000, 19); assert Halves(0x10_0000, 20);
    assert Halves(0x20_0000, 21); assert Halves(0x40_0000, 22); assert Halves(0x80_0000, 23);
    assert Halves(0x100_0000, 24); assert Halves(0x200_0000, 25); assert Halves(0x400_0000, 26);
    assert Halves(0x800_0000, 27); assert Halves(0x1000_0000, 28); assert Halves(0x2000_0000, 29);
    assert Halves(0x4000_0000, 30);
  }

  /** The two registers differ at or above the bit `m`. */
  ghost predicate Apart(s: bv32, t: bv32, m: bv32) {
    Xor(s, t) >= m
  }

  lemma ShiftOfDifference(s: bv32, t: bv32, b: bool, c: bool)
    ensures Xor(Shift(s, b), Shift(t, c)) == Step(Xor(Xor(s, t), BitWord(b != c)))
  {
    hide Step, BitWord, Xor;
    BitDifference(b, c);
    StepOfDifference(s, BitWord(b), t, BitWord(c));
  }

  lemma BitDifference(b: bool, c: bool)
    ensures Xor(BitWord(b), BitWord(c)) == BitWord(b != c)
  {
  }

  lemma StepOfDifference(s: bv32, b: bv32, t: bv32, c: bv32)
    ensures Xor(Step(Xor(s, b)), Step(Xor(t, c))) == Step(Xor(Xor(s, t), Xor(b, c)))
  {
    hide Step, Xor;
    StepLinear(Xor(s, b), Xor(t, c));
    XorSwap(s, b, t, c);
  }

  lemma XorSwap(s: bv32, b: bv32, t: bv32, c: bv32)
    ensures Xor(Xor(s, b), Xor(t, c)) == Xor(Xor(s, t), Xor(b, c))
  {
    XorSwapRaw(s, b, t, c, Xor(s, b), Xor(t, c), Xor(s, t), Xor(b, c));
  }

  lemma XorSwapRaw(s: bv32, b: bv32, t: bv32, c: bv32, x: bv32, y: bv32, z: bv32, w: bv32)
    requires x == s ^ b && y == t ^ c && z == s ^ t && w == b ^ c
    ensures Xor(x, y) == Xor(z, w)
  {
    assert (s ^ b) ^ (t ^ c) == (s ^ t) ^ (b ^ c);
  }

  lemma StepKeepsHigh(d: bv32, b: bv32, m: bv32)
    requires d >= m && m & 1 == 0 && b <= 1
    ensures Step(Xor(d, b)) >= m >> 1
  {
  }

  /** A difference that reaches up to bit m reaches up to half of it after one more message bit. */
  lemma ShiftApart(s: bv32, t: bv32, b: bool, c: bool, m: bv32)
    requires Apart(s, t, m) && m & 1 == 0
    ensures Apart(Shift(s, b), Shift(t, c), m >> 1)
  {
    hide Step, Shift, Xor;
    ShiftOfDifference(s, t, b, c);
    StepKeepsHigh(Xor(s, t), BitWord(b != c), m);
  }

  /** The first differing message bit makes the registers differ in their top bit. */
  lemma FirstDifference(s: bv32, b: bool, c: bool)
    requires b != c
    ensures Apart(Shift(s, b), Shift(s, c), 0x8000_0000)
  {
    ShiftOfDifference(s, s, b, c);
    assert s ^ s == 0;
  }

  lemma ApartDiffer(s: bv32, t: bv32, m: bv32)
    requires Apart(s, t, m) && m != 0
    ensures s != t
  {
    assert s ^ s == 0;
  }

  lemma {:induction false} DifferenceStays(s: bv32, t: bv32, x: seq<bool>, y: seq<bool>, m: bv32)
    requires |x| == |y| && Halves(m, |x|) && Apart(s, t, m)
    ensures Feed(s, x) != Feed(t, y)
    decreases x
  {
    hide Shift, Apart;
    if x == [] {
      ApartDiffer(s, t, m);
    } else {
      ShiftApart(s, t, x[0], y[0], m);
      DifferenceStays(Shift(s, x[0]), Shift(t, y[0]), x[1..], y[1..], m >> 1);
    }
  }

  lemma {:induction false} HalvesLess(m: bv32, n: nat, k: nat)
    requires k <= n && Halves(m, n)
    ensures Halves(m, k)
    decreases k
  {
    if k != 0 {
      HalvesLess(m >> 1, n - 1, k - 1);
    }
  }

  lemma {:induction false} WindowDetected(s: bv32, x: seq<bool>, y: seq<bool>)
    requires |x| == |y| <= 32 && x != y
    ensures Feed(s, x) != Feed(s, y)
    decreases x
  {
    hide Shift, Apart, Halves;
    assert x == [x[0]] + x[1..] && y == [y[0]] + y[1..];
    if x[0] != y[0] {
      TopBitHalves();
      HalvesLess(0x8000_0000, 31, |x| - 1);
      FirstDifference(s, x[0], y[0]);
      DifferenceStays(Shift(s, x[0]), Shift(s, y[0]), x[1..], y[1..], 0x8000_0000);
    } else {
      WindowDetected(Shift(s, x[0]), x[1..], y[1..]);
    }
  }

  /** Two messages of one length whose bits differ only within 32 consecutive positions, and do
      differ there, have different CRCs. */
  lemma BurstDetected(a: seq<byte>, b: seq<byte>, i: nat, w: nat)
    requires |a| == |b| && w <= 32 && i + w <= 8 * |a|
    requires SrcBits(a) != SrcBits(b)
    requires SrcBits(a)[..i] == SrcBits(b)[..i] && SrcBits(a)[i + w..] == SrcBits(b)[i + w..]
    ensures Crc(a) != Crc(b)
  {
    var p, q := SrcBits(a), SrcBits(b);
    var x, y := p[i..i + w], q[i..i + w];
    assert p == p[..i] + (x + p[i + w..]) && q == q[..i] + (y + q[i + w..]);
    RunIsFeed(ALL_ONES, a);
    RunIsFeed(ALL_ONES, b);
    FeedConcat(ALL_ONES, p[..i], x + p[i + w..]);
    FeedConcat(ALL_ONES, q[..i], y + q[i + w..]);
    var s := Feed(ALL_ONES, p[..i]);
    FeedConcat(s, x, p[i + w..]);
    FeedConcat(s, y, q[i + w..]);
    WindowDetected(s, x, y);
    if Feed(Feed(s, x), p[i + w..]) == Feed(Feed(s, y), q[i + w..]) {
      FeedInjective(Feed(s, x), Feed(s, y), p[i + w..]);
    }
    XorInjective(Run(ALL_ONES, a), Run(ALL_ONES, b));
  }

  lemma XorInjective(x: bv32, y: bv32)
    ensures x ^ ALL_ONES == y ^ ALL_ONES ==> x == y
  {
  }

  lemma SameMiddle(pre: seq<byte>, x: seq<byte>, y: seq<byte>, post: seq<byte>)
    requires |x| == |y| && pre + x + post == pre + y + post
    ensures x == y
  {
    assert (pre + x + post)[|pre|..|pre| + |x|] == x;
    assert (pre + y + post)[|pre|..|pre| + |y|] == y;
  }

  /** In bytes: a change confined to four consecutive bytes is always detected. */
  lemma FourBytesDetected(pre: seq<byte>, x: seq<byte>, y: seq<byte>, post: seq<byte>)
    requires |x| == |y| <= 4 && x != y
    ensures Crc(pre + x + post) != Crc(pre + y + post)
  {
    var a, b := pre + x + post, pre + y + post;
    SrcBitsConcat(pre + x, post);
    SrcBitsConcat(pre, x);
    SrcBitsConcat(pre + y, post);
    SrcBitsConcat(pre, y);
    if SrcBits(a) == SrcBits(b) {
      SrcBitsInjective(a, b);
      SameMiddle(pre, x, y, post);
    }
    var i, w := 8 * |pre|, 8 * |x|;
    assert SrcBits(a)[..i] == SrcBits(pre) == SrcBits(b)[..i];
    assert SrcBits(a)[i + w..] == SrcBits(post) == SrcBits(b)[i + w..];
    BurstDetected(a, b, i, w);
  }

  function Four(a: bv32, b: bv32, c: bv32, d: bv32): bv32 {
    a | (b << 8) | (c << 16) | (d << 24)
  }

  function ByteOrNone(data: seq<byte>, i: nat): bv32 {
    if i < |data| then Word(data[i]) else 0
  }

  /** The word in which up to four bytes stand, the first one lowest. */
  function LittleEndian(data: seq<byte>): bv32
    requires |data| <= 4
  {
    Four(ByteOrNone(data, 0), ByteOrNone(data, 1), ByteOrNone(data, 2), ByteOrNone(data, 3))
  }

  /** A byte in front of a word that holds bits. */
  function Behind(v: bv32, w: bv32, n: bv8): bv32
    requires n <= 8
  {
    v | (w << n)
  }

  lemma BehindStarts(v: bv32, v': bv32, w: bv32, bit: bool, n: bv8)
    requires 1 <= n <= 8 && w < 0x0100_0000 && v < 0x100 && Starts(v, bit, v')
    ensures Starts(Behind(v, w, n), bit, Behind(v', w, n - 1))
  {
  }

  /** A shift amount and the number it is. */
  predicate Amount(k: nat, n: bv8) {
    k <= 8 && n == k as bv8
  }

  lemma AmountLess(k: nat, n: bv8)
    requires Amount(k, n)
    ensures k <= 8 && if k == 0 then n == 0 else 1 <= n <= 8 && Amount(k - 1, n - 1)
  {
  }

  lemma {:induction false} BehindHolds(v: byte, w: bv32, bits: seq<bool>, k: nat, n: bv8)
    requires n <= 8 && Amount(k, n) && v < Pow2(k) && w < 0x0100_0000 && Holds(w, bits)
    ensures Holds(Behind(Word(v), w, n), Digits(v, k) + bits)
    decreases k
  {
    hide Starts, Behind, Word;
    AmountLess(k, n);
    hide Amount;
    if k == 0 {
      NothingBehind(w);
      assert Digits(v, 0) + bits == bits;
    } else {
      WordStarts(v);
      ByteSmall(v);
      BehindStarts(Word(v), Word(v / 2), w, v % 2 == 1, n);
      BehindHolds(v / 2, w, bits, k - 1, n - 1);
      var all := Digits(v, k) + bits;
      assert all[1..] == Digits(v / 2, k - 1) + bits;
    }
  }

  lemma NothingBehind(w: bv32)
    ensures Behind(Word(0), w, 0) == w
  {
  }

  lemma ThreeSmall(b: bv32, c: bv32, d: bv32)
    requires b < 0x100 && c < 0x100 && d < 0x100
    ensures Four(b, c, d, 0) < 0x0100_0000
  {
  }

  function BehindByte(v: bv32, w: bv32): bv32 {
    v | (w << 8)
  }

  lemma FourShifted(a: bv32, b: bv32, c: bv32, d: bv32)
    ensures Four(a, b, c, d) == a | (Four(b, c, d, 0) << 8)
  {
  }

  lemma FourBehind(a: bv32, b: bv32, c: bv32, d: bv32)
    ensures Four(a, b, c, d) == BehindByte(a, Four(b, c, d, 0))
  {
    hide Four;
    FourShifted(a, b, c, d);
  }

  lemma BehindAByte(v: bv32, w: bv32)
    ensures Behind(v, w, 8) == BehindByte(v, w)
  {
  }

  lemma Nested(data: seq<byte>)
    requires 0 < |data| <= 4
    ensures LittleEndian(data[1..]) < 0x0100_0000
    ensures LittleEndian(data) == Behind(Word(data[0]), LittleEndian(data[1..]), 8)
  {
    hide Four, Behind, BehindByte, Word;
    forall i | 0 <= i < |data|
      ensures Word(data[i]) < 0x100
    {
      ByteSmall(data[i]);
    }
    ThreeSmall(ByteOrNone(data, 1), ByteOrNone(data, 2), ByteOrNone(data, 3));
    FourBehind(Word(data[0]), ByteOrNone(data, 1), ByteOrNone(data, 2), ByteOrNone(data, 3));
    BehindAByte(Word(data[0]), LittleEndian(data[1..]));
  }

  lemma {:induction false} LittleEndianHolds(data: seq<byte>)
    requires |data| <= 4
    ensures Holds(LittleEndian(data), SrcBits(data))
  {
    if data != [] {
      hide LittleEndian, Word, Behind;
      LittleEndianHolds(data[1..]);
      Nested(data);
      assert Pow2(8) == 256;
      BehindHolds(data[0], LittleEndian(data[1..]), SrcBits(data[1..]), 8, 8);
    }
  }

  /** A few bytes at a time: feeding up to four bytes is stepping the register xor the little-endian
      word of them. */
  lemma RunIsSteps(c: bv32, data: seq<byte>)
    requires |data| <= 4
    ensures Run(c, data) == Steps(Xor(c, LittleEndian(data)), 8 * |data|)
  {
    RunIsFeed(c, data);
    LittleEndianHolds(data);
    FeedIsSteps(c, LittleEndian(data), SrcBits(data));
  }
}
