// Bit strings and the numbers they denote.

module Bits {
  type byte = b: int | 0 <= b < 256

  function Pow2(n: nat): (r: nat)
    ensures r >= 1
  {
    if n == 0 then 1 else 2 * Pow2(n - 1)
  }

  /** The number whose binary digits are `bits`, least significant first. */
  function Value(bits: seq<bool>): nat {
    if bits == [] then 0 else (if bits[0] then 1 else 0) + 2 * Value(bits[1..])
  }

  /** The low `n` binary digits of `v`, least significant first. */
  function Digits(v: nat, n: nat): (r: seq<bool>)
    ensures |r| == n
  {
    if n == 0 then [] else [v % 2 == 1] + Digits(v / 2, n - 1)
  }

  /** The bit string that a byte string denotes: bytes in order, low bit first (RFC 1951 section 3.1.1). */
  function SrcBits(src: seq<byte>): (r: seq<bool>)
    ensures |r| == 8 * |src|
  {
    if src == [] then [] else Digits(src[0], 8) + SrcBits(src[1..])
  }

  /** The byte whose low digits are `bits`. */
  function PackByte(bits: seq<bool>): byte
    requires |bits| <= 8
  {
    ValueBound(bits); Pow2Mono(|bits|, 8); assert Pow2(8) == 256;
    Value(bits)
  }

  /** The bytes that hold a bit string, the last one filled up with zero bits. */
  function Pack(bits: seq<bool>): seq<byte> {
    if |bits| <= 8 then [PackByte(bits)] else [PackByte(bits[..8])] + Pack(bits[8..])
  }

  // ---- powers of two -----------------------------------------------------------

  lemma {:induction false} Pow2Add(a: nat, b: nat)
    ensures Pow2(a + b) == Pow2(a) * Pow2(b)
  {
    if b != 0 {
      Pow2Add(a, b - 1);
      assert 2 * (Pow2(a) * Pow2(b - 1)) == Pow2(a) * (2 * Pow2(b - 1));
    }
  }

  lemma {:induction false} Pow2Mono(a: nat, b: nat)
    requires a <= b
    ensures Pow2(a) <= Pow2(b)
  {
    if a < b {
      Pow2Mono(a, b - 1);
    }
  }

  // ---- values of bit strings ---------------------------------------------------

  lemma {:induction false} ValueBound(s: seq<bool>)
    ensures Value(s) < Pow2(|s|)
  {
    if s != [] {
      ValueBound(s[1..]);
    }
  }

  lemma {:induction false} ValueConcat(a: seq<bool>, b: seq<bool>)
    ensures Value(a + b) == Value(a) + Pow2(|a|) * Value(b)
  {
    if a == [] {
      assert a + b == b;
    } else {
      var t := a[1..];
      assert (a + b)[1..] == t + b;
      ValueConcat(t, b);
      var p, v := Pow2(|t|), Value(b);
      assert Pow2(|a|) * v == 2 * (p * v) by {
        assert Pow2(|a|) == 2 * p;
        DoubleProduct(p, v);
      }
    }
  }

  lemma DoubleProduct(p: nat, v: nat)
    ensures 2 * (p * v) == (2 * p) * v
  {
  }

  lemma MulLe(d: nat, x: int, y: int)
    requires x <= y
    ensures d * x <= d * y
  {
  }

  lemma {:induction false} ValueOfDigits(v: nat, n: nat)
    requires v < Pow2(n)
    ensures Value(Digits(v, n)) == v
  {
    if n != 0 {
      ValueOfDigits(v / 2, n - 1);
    }
  }

  lemma {:induction false} DigitsOfValue(s: seq<bool>)
    ensures Digits(Value(s), |s|) == s
  {
    if s != [] {
      DigitsOfValue(s[1..]);
      assert Value(s) / 2 == Value(s[1..]);
    }
  }

  lemma {:induction false} ValueOfZeros(n: nat)
    ensures Value(seq(n, _ => false)) == 0
  {
    if n != 0 {
      assert seq(n, _ => false)[1..] == seq(n - 1, _ => false);
      ValueOfZeros(n - 1);
    }
  }

  // ---- source bits ---------------------------------------------------------------

  lemma {:induction false} SrcBitsConcat(a: seq<byte>, b: seq<byte>)
    ensures SrcBits(a + b) == SrcBits(a) + SrcBits(b)
  {
    if a == [] {
      assert a + b == b;
    } else {
      assert (a + b)[1..] == a[1..] + b;
      SrcBitsConcat(a[1..], b);
    }
  }

  lemma SrcBitsCut(src: seq<byte>, i: nat)
    requires i <= |src|
    ensures SrcBits(src)[..8 * i] == SrcBits(src[..i])
    ensures SrcBits(src)[8 * i..] == SrcBits(src[i..])
  {
    assert src == src[..i] + src[i..];
    SrcBitsConcat(src[..i], src[i..]);
  }

  lemma SrcBitsSlice(src: seq<byte>, i: nat, j: nat)
    requires i <= j <= |src|
    ensures SrcBits(src)[8 * i..8 * j] == SrcBits(src[i..j])
  {
    SrcBitsCut(src, j);
    SrcBitsCut(src[..j], i);
    assert SrcBits(src)[8 * i..8 * j] == SrcBits(src)[..8 * j][8 * i..];
    assert src[..j][i..] == src[i..j];
  }

  lemma SrcBitsAt(src: seq<byte>, i: nat)
    requires i < |src|
    ensures SrcBits(src)[8 * i..8 * i + 8] == Digits(src[i], 8)
  {
    SrcBitsSlice(src, i, i + 1);
    assert src[i..i + 1] == [src[i]];
    assert SrcBits([src[i]]) == Digits(src[i], 8) + SrcBits([]);
  }

  lemma ValueOfByte(b: byte)
    ensures Value(Digits(b, 8)) == b
  {
    assert Pow2(8) == 256;
    ValueOfDigits(b, 8);
  }

  lemma ByteValue(src: seq<byte>, i: nat)
    requires i < |src|
    ensures Value(SrcBits(src)[8 * i..8 * (i + 1)]) == src[i]
  {
    SrcBitsAt(src, i);
    ValueOfByte(src[i]);
  }

  lemma SrcBitsInjective(a: seq<byte>, b: seq<byte>)
    requires SrcBits(a) == SrcBits(b)
    ensures a == b
  {
    assert |a| == |b|;
    forall i | 0 <= i < |a|
      ensures a[i] == b[i]
    {
      ByteValue(a, i);
      ByteValue(b, i);
    }
  }

  lemma PackByteBits(bits: seq<bool>)
    requires |bits| <= 8
    ensures SrcBits([PackByte(bits)])[..|bits|] == bits
  {
    var b, fill := PackByte(bits), seq(8 - |bits|, _ => false);
    ValueConcat(bits, fill);
    ValueOfZeros(|fill|);
    DigitsOfValue(bits + fill);
    assert SrcBits([b]) == Digits(b, 8) + SrcBits([]);
  }

  /** Packing loses nothing: the packed bytes denote the bits again, up to the fill. */
  lemma {:induction false} PackBits(bits: seq<bool>)
    ensures |bits| <= |SrcBits(Pack(bits))| && SrcBits(Pack(bits))[..|bits|] == bits
    decreases |bits|
  {
    if |bits| <= 8 {
      PackByteBits(bits);
    } else {
      var head, tail := [PackByte(bits[..8])], Pack(bits[8..]);
      PackByteBits(bits[..8]);
      PackBits(bits[8..]);
      SrcBitsConcat(head, tail);
      assert SrcBits(head + tail)[..|bits|] == SrcBits(head) + SrcBits(tail)[..|bits| - 8];
    }
  }

  lemma {:induction false} PackLength(bits: seq<bool>)
    requires bits != []
    ensures 8 * |Pack(bits)| - 8 < |bits| <= 8 * |Pack(bits)|
    decreases |bits|
  {
    if |bits| > 8 {
      PackLength(bits[8..]);
    }
  }
}
