// The LSB-first bit reader of the inflater (struct inflate_bits_t), proved to hand out
// consecutive slices of the bit string that the source bytes denote.

module BitReader {
  import opened Bits
  import opened Words

  /** What a read returns and the bit position it leaves. */
  datatype Field = Field(value: nat, at: nat)

  /** Reading `n` bits at bit position `p`: their value and the new position.
      When fewer than `n` bits are left the result is 0 and the position stays. */
  function ReadBits(bits: seq<bool>, p: nat, n: nat): (r: Field)
    requires p <= |bits|
    ensures p <= r.at <= |bits|
    ensures r.value < Pow2(n)
  {
    if p + n <= |bits| then
      ValueBound(bits[p..p + n]);
      Field(Value(bits[p..p + n]), p + n)
    else
      Field(0, p)
  }

  // ---- putting a byte in above the bits, and taking bits out --------------------------------------------

  /** A byte above the low `k` bits of a word. */
  function PutIn(w: bv32, x: bv32, k: bv8): bv32
    requires k <= 23
  {
    w | (x << k)
  }

  /** The low `n` bits. */
  function Low(w: bv32, n: bv8): bv32
    requires n <= 24
  {
    And(w, Mask(n))
  }

  function And(w: bv32, m: bv32): bv32 {
    w & m
  }

  function Mask(n: bv8): bv32
    requires n <= 24
  {
    (1 << n) - 1
  }

  /** The bits above them. */
  function High(w: bv32, n: bv8): bv32
    requires n <= 24
  {
    w >> n
  }

  lemma PutStarts(w: bv32, b: bool, w': bv32, x: bv32, k: bv8)
    requires 1 <= k <= 23 && x < 0x100 && Starts(w, b, w')
    ensures Starts(PutIn(w, x, k), b, PutIn(w', x, k - 1))
  {
  }

  lemma PutNothing(x: bv32)
    ensures PutIn(0, x, 0) == x
  {
  }

  lemma PutFirst(w: bv32, v: byte)
    requires Holds(w, [])
    ensures Holds(PutIn(w, Word(v), 0), Digits(v, 8))
  {
    hide Word;
    PutNothing(Word(v));
    assert Pow2(8) == 256;
    WordHolds(v, 8);
  }

  /** A byte put in above the bits of a word has its own bits behind them. */
  lemma {:induction false} PutHolds(w: bv32, bits: seq<bool>, v: byte, n: nat, k: bv8)
    requires |bits| == n <= 23 && k == n as bv8 && Holds(w, bits)
    ensures Holds(PutIn(w, Word(v), k), bits + Digits(v, 8))
    decreases n
  {
    hide Starts, Word, PutIn, Holds;
    if n == 0 {
      PutFirst(w, v);
      assert bits + Digits(v, 8) == Digits(v, 8);
    } else {
      var w' := HoldsLess(w, bits);
      ByteSmall(v);
      PutStarts(w, bits[0], w', Word(v), k);
      PutHolds(w', bits[1..], v, n - 1, k - 1);
      HoldsMore(PutIn(w, Word(v), k), bits[0], PutIn(w', Word(v), k - 1), bits[1..] + Digits(v, 8));
      AppendHead(bits, Digits(v, 8));
    }
  }

  lemma MaskStarts(n: bv8)
    requires 1 <= n <= 24
    ensures Starts(Mask(n), true, Mask(n - 1))
  {
  }

  lemma AndStarts(w: bv32, b: bool, w': bv32, m: bv32, m': bv32)
    requires Starts(w, b, w') && Starts(m, true, m')
    ensures Starts(And(w, m), b, And(w', m'))
  {
  }

  lemma LowStarts(w: bv32, b: bool, w': bv32, n: bv8)
    requires 1 <= n <= 24 && Starts(w, b, w')
    ensures Starts(Low(w, n), b, Low(w', n - 1))
  {
    hide Starts, Mask, And;
    MaskStarts(n);
    AndStarts(w, b, w', Mask(n), Mask(n - 1));
  }

  lemma ShiftsOn(w: bv32, n: bv8)
    requires 1 <= n <= 24
    ensures w >> n == (w >> 1) >> (n - 1)
  {
  }

  lemma HighOn(w: bv32, b: bool, w': bv32, n: bv8)
    requires 1 <= n <= 24 && Starts(w, b, w')
    ensures High(w, n) == High(w', n - 1)
  {
    ShiftsOn(w, n);
  }

  lemma TakeNothing(w: bv32)
    ensures Low(w, 0) == 0 && High(w, 0) == w
  {
  }

  lemma TakeNone(w: bv32, bits: seq<bool>)
    requires Holds(w, bits)
    ensures Holds(Low(w, 0), bits[..0]) && Holds(High(w, 0), bits[0..])
  {
    hide Starts, Low, High;
    TakeNothing(w);
    assert bits[..0] == [] && bits[0..] == bits;
  }

  lemma SliceHead(bits: seq<bool>, n: nat)
    requires 1 <= n <= |bits|
    ensures bits[..n] == [bits[0]] + bits[1..][..n - 1] && bits[n..] == bits[1..][n - 1..]
  {
  }

  lemma AppendHead(bits: seq<bool>, more: seq<bool>)
    requires bits != []
    ensures bits + more == [bits[0]] + (bits[1..] + more)
  {
  }

  /** The mask keeps the low bits, the shift the others. */
  lemma {:induction false} TakeHolds(w: bv32, bits: seq<bool>, n: nat, k: bv8)
    requires n <= 24 && n <= |bits| && k == n as bv8 && Holds(w, bits)
    ensures Holds(Low(w, k), bits[..n]) && Holds(High(w, k), bits[n..])
    decreases n
  {
    hide Starts, Low, High, Holds;
    if n == 0 {
      TakeNone(w, bits);
    } else {
      var w' := HoldsLess(w, bits);
      LowStarts(w, bits[0], w', k);
      HighOn(w, bits[0], w', k);
      TakeHolds(w', bits[1..], n - 1, k - 1);
      HoldsMore(Low(w, k), bits[0], Low(w', k - 1), bits[1..][..n - 1]);
      SliceHead(bits, n);
    }
  }

  // ---- with shift amounts as the program has them --------------------------------------------------

  function WithByte(w: bv32, v: byte, n: nat): bv32
    requires n <= 23
  {
    PutIn(w, Word(v), n as bv8)
  }

  function LowBits(w: bv32, n: nat): bv32
    requires n <= 24
  {
    Low(w, n as bv8)
  }

  function HighBits(w: bv32, n: nat): bv32
    requires n <= 24
  {
    High(w, n as bv8)
  }

  lemma WithByteHolds(w: bv32, bits: seq<bool>, v: byte, n: nat)
    requires |bits| == n <= 23 && Words.Holds(w, bits)
    ensures Words.Holds(WithByte(w, v, n), bits + Digits(v, 8))
  {
    hide Words.Holds, PutIn, Word;
    PutHolds(w, bits, v, n, n as bv8);
  }

  /** What is read is the value of the bits, and the rest stays. */
  lemma ReadHolds(w: bv32, bits: seq<bool>, n: nat)
    requires n <= 24 && n <= |bits| && Words.Holds(w, bits)
    ensures Number(LowBits(w, n)) == Value(bits[..n]) && Words.Holds(HighBits(w, n), bits[n..])
  {
    hide Words.Holds, Low, High, Number, Value;
    TakeHolds(w, bits, n, n as bv8);
    NumberOf(Low(w, n as bv8), bits[..n]);
  }

  // ---- the reader -------------------------------------------------------------------------------

  class InflateBits {
    const src: seq<byte>
    var pos: nat
    var buf: bv32
    var cnt: nat

    /** The bits of the source. */
    ghost function Bits(): (r: seq<bool>)
      ensures |r| == 8 * |src|
    {
      SrcBits(src)
    }

    /** The position of the next bit that a read will return. */
    ghost function P(): int
      reads this
    {
      8 * pos - cnt
    }

    /** The buffer holds exactly the bits between the read position and the byte position. */
    ghost predicate Holds()
      reads this
    {
      && pos <= |src|
      && cnt <= 31
      && 0 <= P()
      && Words.Holds(buf, Bits()[P()..8 * pos])
    }

    /** Between reads fewer than eight bits are held back unless the source is used up, so dropping
        the buffer lands on the next byte boundary. */
    ghost predicate Valid()
      reads this
    {
      Holds() && (cnt <= 7 || pos == |src|)
    }

    constructor (src: seq<byte>)
      ensures Valid() && P() == 0 && this.src == src
    {
      this.src := src;
      pos, buf, cnt := 0, 0, 0;
      new;
      assert Bits()[0..0] == [];
    }

    /** The refill loop of inf_bits_read. The 32-bit buffer has room for requests up to 24 bits. */
    method Refill(n: nat) returns (enough: bool)
      requires Valid() && n <= 24
      modifies this
      ensures Holds() && P() == old(P())
      ensures enough == (P() + n <= 8 * |src|)
      ensures if enough then n <= cnt && (cnt - n <= 7 || pos == |src|) else Valid() && pos == |src|
    {
      hide SrcBits, Words.Holds, WithByte;
      while cnt < n
        invariant Holds() && P() == old(P())
        invariant cnt <= 7 || cnt - 8 < n || pos == |src|
        decreases 8 * |src| - 8 * pos
      {
        if pos >= |src| {
          return false;
        }
        WithByteHolds(buf, Bits()[P()..8 * pos], src[pos], cnt);
        NextByte(src, pos, P());
        buf := WithByte(buf, src[pos], cnt);
        pos := pos + 1;
        cnt := cnt + 8;
      }
      return true;
    }

    /** inf_bits_read. */
    method Read(n: nat) returns (val: nat)
      requires Valid() && n <= 24
      modifies this
      ensures Valid()
      ensures Field(val, P()) == ReadBits(Bits(), old(P()), n)
      ensures old(P()) + n <= 8 * |src| || pos == |src|
    {
      hide SrcBits, Words.Holds, Value, Number, LowBits, HighBits;
      var enough := Refill(n);
      if !enough {
        return 0;
      }
      TakeBits(n);
      val := Number(LowBits(buf, n));
      buf := HighBits(buf, n);
      cnt := cnt - n;
    }

    /** An empty buffer is right at any byte position. */
    lemma EmptyIsValid()
      requires pos <= |src| && cnt == 0 && buf == 0
      ensures Valid() && P() == 8 * pos
    {
      assert Bits()[8 * pos..8 * pos] == [];
    }

    lemma TakeBits(n: nat)
      requires Holds() && n <= cnt && n <= 24
      ensures Number(LowBits(buf, n)) == Value(Bits()[P()..P() + n])
      ensures Words.Holds(HighBits(buf, n), Bits()[P() + n..8 * pos])
    {
      hide Words.Holds, Value, SrcBits, Number, LowBits, HighBits;
      var held := Bits()[P()..8 * pos];
      ReadHolds(buf, held, n);
      assert held[..n] == Bits()[P()..P() + n];
      assert held[n..] == Bits()[P() + n..8 * pos];
    }
  }

  /** The bits up to the next byte. */
  lemma NextByte(src: seq<byte>, pos: nat, p: nat)
    requires pos < |src| && p <= 8 * pos
    ensures SrcBits(src)[p..8 * (pos + 1)] == SrcBits(src)[p..8 * pos] + Digits(src[pos], 8)
  {
    hide SrcBits, Digits;
    SrcBitsAt(src, pos);
    SliceOn(SrcBits(src), p, 8 * pos, 8 * pos + 8);
  }

  lemma SliceOn(s: seq<bool>, a: nat, b: nat, c: nat)
    requires a <= b <= c <= |s|
    ensures s[a..c] == s[a..b] + s[b..c]
  {
  }
}
