// Two sources of a few bytes, decoded in full.

module InflateExample {
  import opened Bits
  import opened Huffman
  import opened Output
  import opened Deflate
  import opened DeflateRoundTrip

  const T := true
  const F := false

  // ---- a fixed block -------------------------------------------------------------------------

  /** The letter a, and eleven times the letter before. */
  ghost function Tokens(): seq<Token> {
    Pow2Values();
    [Literal(97), Match(8, 0, 0, 0)]
  }

  lemma MsbStep(v: nat, n: nat)
    ensures MsbDigits(v, n + 1) == MsbDigits(v / 2, n) + [v % 2 == 1]
  {
  }

  lemma {:induction false} MsbZero(n: nat)
    ensures MsbDigits(0, n) == seq(n, _ => false)
  {
    if n != 0 {
      MsbZero(n - 1);
    }
  }

  lemma Msb()
    ensures MsbDigits(145, 8) == [T, F, F, T, F, F, F, T]
    ensures MsbDigits(9, 7) == [F, F, F, T, F, F, T]
  {
    hide MsbDigits;
    MsbStep(145, 7);
    MsbStep(72, 6);
    MsbStep(36, 5);
    MsbStep(18, 4);
    MsbStep(9, 6);
    MsbStep(9, 3);
    MsbStep(4, 5);
    MsbStep(4, 2);
    MsbStep(2, 4);
    MsbStep(2, 1);
    MsbStep(1, 3);
    MsbStep(1, 0);
    MsbZero(0);
    MsbZero(3);
  }

  lemma LiteralCodes()
    ensures SymBits(FixedLit(), 97) == [T, F, F, T, F, F, F, T]
    ensures SymBits(FixedLit(), 265) == [F, F, F, T, F, F, T]
    ensures SymBits(FixedLit(), 256) == [F, F, F, F, F, F, F]
  {
    hide Code, FixedLit, MsbDigits;
    FixedCodeTable(97);
    FixedCodeTable(265);
    FixedCodeTable(256);
    MsbZero(7);
    Msb();
  }

  lemma {:induction false} NoShorter(n: nat, b: nat)
    requires n <= 32 && b != 5
    ensures Count(FixedDist()[..n], b) == 0
  {
    if n != 0 {
      NoShorter(n - 1, b);
      assert FixedDist()[..n][..n - 1] == FixedDist()[..n - 1];
    }
  }

  lemma FirstDistance()
    ensures SymBits(FixedDist(), 0) == [F, F, F, F, F]
  {
    hide Count, FixedDist, MsbDigits;
    var count := Counts(FixedDist());
    forall b | 0 <= b < 5
      ensures count[b] == 0
    {
      NoShorter(32, b);
      assert FixedDist()[..32] == FixedDist();
    }
    assert First(count, 2) == 0;
    assert First(count, 5) == 0;
    assert Code(FixedDist(), 0) == 0 by {
      assert FixedDist()[..0] == [];
    }
    MsbZero(5);
  }

  lemma FirstByte(b: byte, rest: seq<byte>)
    ensures SrcBits([b] + rest) == Digits(b, 8) + SrcBits(rest)
  {
    hide Digits;
    assert ([b] + rest)[1..] == rest;
  }

  lemma Four(a: bool, b: bool, c: bool, d: bool, rest: seq<bool>)
    ensures Value([a, b, c, d] + rest) ==
            (if a then 1 else 0) + (if b then 2 else 0) + (if c then 4 else 0) + (if d then 8 else 0) + 16 * Value(rest)
  {
    ValueConcat([a, b, c, d], rest);
    assert Pow2(4) == 16;
    assert [a, b, c, d][1..] == [b, c, d] && [b, c, d][1..] == [c, d] && [c, d][1..] == [d] && [d][1..] == [];
    assert Value([d]) == if d then 1 else 0;
    assert Value([c, d]) == (if c then 1 else 0) + 2 * Value([d]);
  }

  lemma OneByte(a: bool, b: bool, c: bool, d: bool, e: bool, f: bool, g: bool, h: bool, v: nat)
    requires v == (if a then 1 else 0) + (if b then 2 else 0) + (if c then 4 else 0) + (if d then 8 else 0)
                  + (if e then 16 else 0) + (if f then 32 else 0) + (if g then 64 else 0) + (if h then 128 else 0)
    ensures Digits(v, 8) == [a, b, c, d] + [e, f, g, h]
  {
    hide Digits;
    assert [e, f, g, h] + [] == [e, f, g, h];
    Four(e, f, g, h, []);
    Four(a, b, c, d, [e, f, g, h]);
    DigitsOfValue([a, b, c, d] + [e, f, g, h]);
  }

  lemma EachByte()
    ensures Digits(0x4B, 8) == [T, T, F, T] + [F, F, T, F] && Digits(0x44, 8) == [F, F, T, F] + [F, F, T, F]
    ensures Digits(0x02, 8) == [F, T, F, F] + [F, F, F, F] && Digits(0x00, 8) == [F, F, F, F] + [F, F, F, F]
  {
    hide Digits;
    OneByte(T, T, F, T, F, F, T, F, 0x4B);
    OneByte(F, F, T, F, F, F, T, F, 0x44);
    OneByte(F, T, F, F, F, F, F, F, 0x02);
    OneByte(F, F, F, F, F, F, F, F, 0x00);
  }

  lemma Bytes()
    ensures SrcBits([0x4B, 0x44, 0x02, 0x00]) ==
            ([T, T, F, T] + [F, F, T, F]) + (([F, F, T, F] + [F, F, T, F]) + (([F, T, F, F] + [F, F, F, F])
            + ([F, F, F, F] + [F, F, F, F])))
  {
    hide Digits, SrcBits;
    EachByte();
    FirstByte(0x4B, [0x44, 0x02, 0x00]);
    FirstByte(0x44, [0x02, 0x00]);
    FirstByte(0x02, [0x00]);
    FirstByte(0x00, []);
    assert SrcBits([]) == [] && [0x00] + [] == [0x00];
    assert [0x02] + [0x00] == [0x02, 0x00] && [0x44] + [0x02, 0x00] == [0x44, 0x02, 0x00];
    assert [0x4B] + [0x44, 0x02, 0x00] == [0x4B, 0x44, 0x02, 0x00];
  }

  lemma Body()
    ensures TokensBits(Tokens(), FixedLit(), FixedDist()) ==
            [T, F, F, T, F, F, F, T] + [F, F, F, T, F, F, T] + [F] + [F, F, F, F, F] + [F, F, F, F, F, F, F]
  {
    hide SymBits;
    LiteralCodes();
    FirstDistance();
    var ts := Tokens();
    assert ts[1..] == [ts[1]] && ts[1..][1..] == [];
    assert Digits(0, 1) == [F] && Digits(0, 0) == [];
    assert MatchTail(ts[1], FixedDist()) == [F] + [F, F, F, F, F];
    assert TokensBits(ts[1..], FixedLit(), FixedDist())
      == TokenBits(ts[1], FixedLit(), FixedDist()) + SymBits(FixedLit(), 256);
  }

  lemma Stream()
    ensures StreamBits([FixedBlock(Tokens())]) == SrcBits([0x4B, 0x44, 0x02, 0x00])[..31]
  {
    hide TokensBits, SrcBits, BlockBits, Tokens;
    Bytes();
    Body();
    OneBlock(FixedBlock(Tokens()));
  }

  lemma OneBlock(b: Block)
    ensures StreamBits([b]) == BlockBits(b, true)
    ensures b.FixedBlock? ==> BlockBits(b, true) == [T, T, F] + TokensBits(b.ts, FixedLit(), FixedDist())
  {
    hide TokensBits;
    assert [b][1..] == [];
    assert Digits(1, 2) == [T, F];
  }

  /** A copy from one byte back repeats the byte. */
  lemma {:induction false} CopyOfLast(out: seq<byte>, n: nat, length: nat)
    requires n > 0 && out == seq(n, _ => 97)
    ensures Copy(out, length, 1) == seq(n + length, _ => 97)
    decreases length
  {
    if length > 0 {
      assert Back(out, 1) == 97;
      assert out + [97] == seq(n + 1, _ => 97);
      CopyOfLast(out + [97], n + 1, length - 1);
    }
  }

  lemma Expansion()
    ensures Expand([], Tokens()) == seq(12, _ => 97)
  {
    hide Copy, LenBase, LenExtra, DistBase, DistExtra;
    var ts, a := Tokens(), seq(1, _ => 97);
    assert [] + [97] == a;
    CopyOfLast(a, 1, 11);
    LengthTable(8);
    DistanceTable(0);
    assert Length(ts[1]) == 11 && Distance(ts[1]) == 1;
    assert Emit(a, ts[1]) == Copy(a, 11, 1);
    assert ts[1..] == [ts[1]] && ts[1..][1..] == [];
  }

  lemma OneExpansion(ts: seq<Token>)
    ensures ExpandStream([], [FixedBlock(ts)]) == Expand([], ts)
  {
    hide Expand;
    assert [FixedBlock(ts)][1..] == [];
  }

  lemma OneFits(ts: seq<Token>, layout: Layout)
    ensures FitAll([FixedBlock(ts)], 0, layout)
  {
    hide CodableAll;
    EveryTokenCodable(ts);
    assert [FixedBlock(ts)][1..] == [];
  }

  /** Four bytes that stand for twelve times the letter a. */
  lemma FixedExample(mem: Memory, layout: Layout)
    requires mem.Valid()
    ensures Blocks([0x4B, 0x44, 0x02, 0x00], 0, mem, [], layout) == Finished(seq(12, _ => 97), 31)
  {
    hide *;
    hide Memory.Valid;
    Stream();
    Expansion();
    OneExpansion(Tokens());
    OneFits(Tokens(), layout);
    StartsWith([0x4B, 0x44, 0x02, 0x00], StreamBits([FixedBlock(Tokens())]), 31);
    RoundTrip([0x4B, 0x44, 0x02, 0x00], [FixedBlock(Tokens())], 0, mem, [], layout);
  }

  lemma StartsWith(src: seq<byte>, bits: seq<bool>, n: nat)
    requires n <= 8 * |src| && bits == SrcBits(src)[..n]
    ensures |bits| == n && At(SrcBits(src), 0, bits)
  {
    hide SrcBits;
  }

  // ---- a stored block --------------------------------------------------------------------------

  /** Eight bytes that stand for abc: three header bits and five of filling, the length and its complement, low byte
      first, and the letters. */
  lemma StoredExample(mem: Memory, layout: Layout)
    requires mem.Valid()
    ensures Blocks([0x01, 0x03, 0x00, 0xFC, 0xFF, 97, 98, 99], 0, mem, [], layout) == Finished([97, 98, 99], 64)
  {
    hide SrcBits, Blocks, StreamBits, ExpandStream, FitAll, Digits;
    var payload := [0x03, 0x00, 0xFC, 0xFF, 97, 98, 99];
    var b := StoredBlock([F, F, F, F, F], [0xFC, 0xFF], [97, 98, 99]);
    assert [0x01, 0x03, 0x00, 0xFC, 0xFF, 97, 98, 99] == [0x01] + payload;
    FirstByte(0x01, payload);
    OneByte(T, F, F, F, F, F, F, F, 0x01);
    StoredBits(b, payload);
    StartsWith([0x01] + payload, StreamBits([b]), 64);
    RoundTrip([0x01] + payload, [b], 0, mem, [], layout);
  }

  lemma StoredBits(b: Block, payload: seq<byte>)
    requires b == StoredBlock([F, F, F, F, F], [0xFC, 0xFF], [97, 98, 99])
    requires payload == [0x03, 0x00, 0xFC, 0xFF, 97, 98, 99]
    ensures StreamBits([b]) == ([T, F, F, F] + [F, F, F, F]) + SrcBits(payload) && |StreamBits([b])| == 64
    ensures forall layout :: FitAll([b], 0, layout)
    ensures ExpandStream([], [b]) == [97, 98, 99]
  {
    hide SrcBits, Digits;
    assert [b][1..] == [];
    assert Payload(b.nlen, b.data) == payload;
    assert Digits(0, 2) == [F, F] by {
      DigitsOfValue([F, F]);
      assert [F, F][1..] == [F] && [F][1..] == [];
      assert Value([F]) == 0;
    }
  }
}
