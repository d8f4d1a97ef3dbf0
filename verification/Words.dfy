// 32-bit words and the bits they hold, low bit first.

module Words {
  import opened Bits

  function Word(b: byte): bv32 {
    (b as bv8) as bv32
  }

  function BitWord(b: bool): bv32 {
    if b then 1 else 0
  }

  /** `w` starts with the bit `b` and goes on with `w'`. */
  ghost predicate Starts(w: bv32, b: bool, w': bv32) {
    w & 1 == (if b then 1 else 0) && w' == w >> 1
  }

  /** `w` holds the bits `bits` and nothing above them. */
  ghost predicate Holds(w: bv32, bits: seq<bool>)
    decreases bits
  {
    if bits == [] then w == 0 else exists w' :: Starts(w, bits[0], w') && Holds(w', bits[1..])
  }

  lemma HalfWord(b: bv8)
    ensures (b as bv32) >> 1 == (b >> 1) as bv32
    ensures (b as bv32) & 1 == (b & 1) as bv32
  {
  }

  lemma HalfByte(v: byte)
    ensures (v as bv8) >> 1 == (v / 2) as bv8
    ensures (v as bv8) & 1 == (v % 2) as bv8
  {
  }

  lemma WordStarts(v: byte)
    ensures Starts(Word(v), v % 2 == 1, Word(v / 2))
  {
    HalfByte(v);
    HalfWord(v as bv8);
  }

  lemma {:induction false} WordHolds(v: byte, n: nat)
    requires v < Pow2(n) && n <= 8
    ensures Holds(Word(v), Digits(v, n))
  {
    hide Starts;
    if n == 0 {
      assert Word(0) == 0;
    } else {
      WordStarts(v);
      WordHolds(v / 2, n - 1);
      assert Digits(v, n)[1..] == Digits(v / 2, n - 1);
    }
  }

  lemma ByteSmall(v: byte)
    ensures Word(v) < 0x100
  {
  }

  lemma HoldsLess(w: bv32, bits: seq<bool>) returns (w': bv32)
    requires bits != [] && Holds(w, bits)
    ensures Starts(w, bits[0], w') && Holds(w', bits[1..])
  {
    w' :| Starts(w, bits[0], w') && Holds(w', bits[1..]);
  }

  lemma HoldsMore(w: bv32, b: bool, w': bv32, bits: seq<bool>)
    requires Starts(w, b, w') && Holds(w', bits)
    ensures Holds(w, [b] + bits)
  {
    hide Starts;
    assert ([b] + bits)[1..] == bits;
  }

  // ---- words as numbers ---------------------------------------------------------------------------

  function Number(w: bv32): nat {
    w as nat
  }

  function Double(h: bv32, b: bool): bv32 {
    if b then (h << 1) | 1 else h << 1
  }

  lemma ShiftedBack(w: bv32)
    ensures w >> 1 < 0x8000_0000 && w == Double(w >> 1, w & 1 == 1)
  {
  }

  lemma EvenNumber(h: bv32)
    requires h < 0x8000_0000
    ensures (h << 1) as nat == 2 * (h as nat)
  {
  }

  lemma OddNumber(h: bv32)
    requires h < 0x8000_0000
    ensures ((h << 1) | 1) as nat == 2 * (h as nat) + 1
  {
  }

  /** The number is twice that of the higher bits, and one for the low bit. */
  lemma HalfNumber(w: bv32, h: bv32, b: bool)
    requires h < 0x8000_0000 && w == Double(h, b)
    ensures Number(w) == 2 * Number(h) + if b then 1 else 0
  {
    if b {
      OddNumber(h);
    } else {
      EvenNumber(h);
    }
  }

  lemma StartsNumber(w: bv32, b: bool, w': bv32)
    requires Starts(w, b, w')
    ensures Number(w) == 2 * Number(w') + if b then 1 else 0
  {
    hide Number, Double;
    ShiftedBack(w);
    HalfNumber(w, w', b);
  }

  lemma NumberNone()
    ensures Number(0) == 0
  {
  }

  /** The number that a word is, is the value of its bits. */
  lemma {:induction false} NumberOf(w: bv32, bits: seq<bool>)
    requires Holds(w, bits)
    ensures Number(w) == Value(bits)
    decreases bits
  {
    if bits == [] {
      NumberNone();
      hide Number;
      assert w == 0;
    } else {
      hide Starts, Number, Holds;
      var w' := HoldsLess(w, bits);
      StartsNumber(w, bits[0], w');
      NumberOf(w', bits[1..]);
    }
  }
}
