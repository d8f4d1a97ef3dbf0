// What SHA-256 and MD5 have in common: a message is padded to whole blocks of 64 bytes, and a compression
// function is folded over the blocks (section 5.1.1 of FIPS 180-4, sections 3.1 and 3.2 of RFC 1321).

module HashBlocks {
  import opened Numbers

  function Zeros(n: nat): (r: seq<bv8>)
    ensures |r| == n && forall i :: 0 <= i < n ==> r[i] == 0
  {
    seq(n, _ => 0)
  }

  type Block = b: seq<bv8> | |b| == 64 witness Zeros(64)

  const WRAP := 0x1_0000_0000_0000_0000

  /** The compression function over the whole blocks of the data. */
  function Fold<S>(compress: (S, Block) -> S, s: S, data: seq<bv8>): S
    decreases |data|
  {
    if |data| < 64 then s else Fold(compress, compress(s, data[..64]), data[64..])
  }

  lemma {:induction false} FoldAppend<S>(compress: (S, Block) -> S, s: S, a: seq<bv8>, b: seq<bv8>)
    requires |a| % 64 == 0
    ensures Fold(compress, s, a + b) == Fold(compress, Fold(compress, s, a), b)
    decreases |a|
  {
    if a == [] {
      assert a + b == b;
    } else {
      assert |a| >= 64;
      assert (a + b)[..64] == a[..64] && (a + b)[64..] == a[64..] + b;
      FoldAppend(compress, compress(s, a[..64]), a[64..], b);
    }
  }

  lemma FoldBlock<S>(compress: (S, Block) -> S, s: S, a: seq<bv8>, block: Block)
    requires |a| % 64 == 0
    ensures Fold(compress, s, a + block) == compress(Fold(compress, s, a), block)
  {
    FoldAppend(compress, s, a, block);
    assert block[..64] == block && block[64..] == [];
  }

  /** The least number of zeros that leaves eight bytes of the last block for the length. */
  function PadZeros(n: nat): (k: nat)
    ensures (n + 1 + k + 8) % 64 == 0 && k < 64
  {
    (55 - n) % 64
  }

  function Padded(msg: seq<bv8>, length: seq<bv8>): (r: seq<bv8>)
    requires |length| == 8
    ensures |r| % 64 == 0
  {
    msg + [0x80] + Zeros(PadZeros(|msg|)) + length
  }

  /** How the padding falls on the end of the message: the length goes into the same block if there is room
      for it, otherwise into one more. */
  lemma PaddedTail(done: seq<bv8>, tail: seq<bv8>, length: seq<bv8>)
    requires |done| % 64 == 0 && |tail| < 64 && |length| == 8
    ensures Padded(done + tail, length) ==
            if |tail| < 56 then done + (tail + [0x80] + Zeros(55 - |tail|) + length)
            else done + (tail + [0x80] + Zeros(63 - |tail|)) + (Zeros(56) + length)
  {
    var k := PadZeros(|done + tail|);
    if |tail| < 56 {
      ZerosNeeded(|done|, |tail|, k, 55 - |tail|);
    } else {
      ZerosNeeded(|done|, |tail|, k, 119 - |tail|);
      assert Zeros(k) == Zeros(63 - |tail|) + Zeros(56);
    }
  }

  lemma ZerosNeeded(done: nat, tail: nat, k: nat, k': nat)
    requires done % 64 == 0 && k == PadZeros(done + tail) && k' < 64 && (tail + k' + 9) % 64 == 0
    ensures k == k'
  {
  }

  lemma FoldPadded<S>(compress: (S, Block) -> S, s: S, done: seq<bv8>, tail: seq<bv8>, length: seq<bv8>)
    requires |done| % 64 == 0 && |tail| < 64 && |length| == 8
    ensures |tail| < 56 ==>
      Fold(compress, s, Padded(done + tail, length))
      == compress(Fold(compress, s, done), tail + [0x80] + Zeros(55 - |tail|) + length)
    ensures |tail| >= 56 ==>
      Fold(compress, s, Padded(done + tail, length))
      == compress(compress(Fold(compress, s, done), tail + [0x80] + Zeros(63 - |tail|)), Zeros(56) + length)
  {
    hide Fold, Padded;
    PaddedTail(done, tail, length);
    if |tail| < 56 {
      FoldBlock(compress, s, done, tail + [0x80] + Zeros(55 - |tail|) + length);
    } else {
      var block: Block := tail + [0x80] + Zeros(63 - |tail|);
      FoldBlock(compress, s, done, block);
      FoldBlock(compress, s, done + block, Zeros(56) + length);
    }
  }

  /** A message that comes in pieces. */
  function Whole(pieces: seq<seq<bv8>>): seq<bv8> {
    if pieces == [] then [] else Whole(pieces[..|pieces| - 1]) + pieces[|pieces| - 1]
  }

  // ---- counting bytes in 64 bits -------------------------------------------------------------------

  /** Byte `i` of a 64-bit number, from the least significant on. */
  function ByteOf(bits: nat, i: nat): bv8 {
    Digit(bits, i) as bv8
  }

  function Digit(bits: nat, i: nat): (d: nat)
    ensures d < 256
  {
    bits / Pow256(i) % 256
  }

  function Pow256(i: nat): (r: nat)
    ensures r > 0
  {
    if i == 0 then 1 else 256 * Pow256(i - 1)
  }

  /** The length of a message in bits, as far as 64 bits hold it. */
  function BitLength(n: nat): nat {
    8 * n % WRAP
  }

  /** The number that the first `k` bytes denote. */
  function LowValue(bits: nat, k: nat): nat {
    if k == 0 then 0 else LowValue(bits, k - 1) + Digit(bits, k - 1) * Pow256(k - 1)
  }

  lemma {:induction false} LowValueIs(bits: nat, k: nat)
    ensures LowValue(bits, k) == bits % Pow256(k)
  {
    if k > 0 {
      LowValueIs(bits, k - 1);
      DigitStep(bits, Pow256(k - 1));
    }
  }

  lemma DigitStep(v: nat, p: nat)
    requires p > 0
    ensures v % (256 * p) == v % p + (v / p % 256) * p
  {
    var u, r := v / p, v % p;
    var q, d := u / 256, u % 256;
    assert v == u * p + r;
    Spread(q, d, p);
    ModIs(v, 256 * p, q, d * p + r);
  }

  lemma Spread(q: nat, d: nat, p: nat)
    requires d < 256
    ensures (256 * q + d) * p == q * (256 * p) + d * p && d * p <= 255 * p
  {
  }

  /** The number that bytes denote, the most significant one first. */
  function HighFirst(s: seq<bv8>): nat {
    if s == [] then 0 else 256 * HighFirst(s[..|s| - 1]) + s[|s| - 1] as nat
  }

  /** The number that bytes denote, the least significant one first. */
  function LowFirst(s: seq<bv8>): nat {
    if s == [] then 0 else s[0] as nat + 256 * LowFirst(s[1..])
  }

  lemma ByteIsDigit(bits: nat, i: nat)
    ensures ByteOf(bits, i) as nat == Digit(bits, i)
  {
    hide Digit;
  }

  lemma {:induction false} HighFirstMore(x: bv8, s: seq<bv8>)
    ensures HighFirst([x] + s) == x as nat * Pow256(|s|) + HighFirst(s)
  {
    if s == [] {
      assert [x] + s == [x] && [x][..0] == [];
    } else {
      var init := s[..|s| - 1];
      HighFirstMore(x, init);
      assert ([x] + s)[..|s|] == [x] + init;
      Spread(0, 0, Pow256(|init|));
      TimesMore(x as nat, Pow256(|init|));
    }
  }

  lemma TimesMore(x: nat, p: nat)
    ensures 256 * (x * p) == x * (256 * p)
  {
  }

  lemma {:induction false} LowFirstMore(s: seq<bv8>, x: bv8)
    ensures LowFirst(s + [x]) == LowFirst(s) + x as nat * Pow256(|s|)
  {
    if s == [] {
      assert s + [x] == [x] && [x][1..] == [];
    } else {
      LowFirstMore(s[1..], x);
      assert (s + [x])[1..] == s[1..] + [x];
      TimesMore(x as nat, Pow256(|s| - 1));
    }
  }

  /** The lowest `k` bytes of a number, highest first. */
  lemma {:induction false} HighFirstOf(bits: nat, k: nat, s: seq<bv8>)
    requires |s| == k && forall i :: 0 <= i < k ==> s[i] == ByteOf(bits, k - 1 - i)
    ensures HighFirst(s) == LowValue(bits, k)
    decreases k
  {
    hide ByteOf, Digit, Pow256;
    if k > 0 {
      HighFirstOf(bits, k - 1, s[1..]);
      assert s == [s[0]] + s[1..];
      HighFirstMore(s[0], s[1..]);
      ByteIsDigit(bits, k - 1);
    }
  }

  /** The lowest `k` bytes of a number, lowest first. */
  lemma {:induction false} LowFirstOf(bits: nat, k: nat, s: seq<bv8>)
    requires |s| == k && forall i :: 0 <= i < k ==> s[i] == ByteOf(bits, i)
    ensures LowFirst(s) == LowValue(bits, k)
    decreases k
  {
    hide ByteOf, Digit, Pow256;
    if k > 0 {
      LowFirstOf(bits, k - 1, s[..k - 1]);
      assert s == s[..k - 1] + [s[k - 1]];
      LowFirstMore(s[..k - 1], s[k - 1]);
      ByteIsDigit(bits, k - 1);
    }
  }

  /** Eight bytes hold the length in bits modulo 2^64; that is the length itself below 2^61 bytes. */
  lemma EightBytes(n: nat)
    ensures LowValue(BitLength(n), 8) == BitLength(n)
    ensures n < 0x2000_0000_0000_0000 ==> BitLength(n) == 8 * n
  {
    LowValueIs(BitLength(n), 8);
    assert Pow256(2) == 0x1_0000;
    assert Pow256(4) == 0x1_0000_0000;
    assert Pow256(6) == 0x1_0000_0000_0000;
    assert Pow256(8) == WRAP;
  }

  lemma CountWraps(n: nat)
    ensures n % WRAP % 64 == n % 64 && (n % WRAP + 1) % WRAP == (n + 1) % WRAP && 8 * (n % WRAP) % WRAP == BitLength(n)
  {
  }

  /** The loops that put zeros into the buffer from one index up to another. */
  method ZeroFill(buffer: array<bv8>, from: nat, to: nat)
    requires from <= to <= buffer.Length
    modifies buffer
    ensures buffer[..from] == old(buffer[..from]) && buffer[from..to] == Zeros(to - from)
  {
    var idx := from;
    while idx < to
      invariant from <= idx <= to && buffer[..from] == old(buffer[..from])
      invariant forall k :: from <= k < idx ==> buffer[k] == 0
    {
      buffer[idx] := 0;
      idx := idx + 1;
    }
  }

  // ---- words ------------------------------------------------------------------------------------------

  /** Addition of unsigned 32-bit numbers, which wraps around. */
  function Plus(x: bv32, y: bv32): bv32 {
    x + y
  }

  // ---- a context between calls -----------------------------------------------------------------------

  /** The state is that after the whole blocks of what has been hashed, the buffer holds the rest. */
  ghost predicate Absorbed<S>(compress: (S, Block) -> S, init: S, s: S, count: nat, buffer: seq<bv8>,
                              hashed: seq<bv8>) {
    var left := |hashed| % 64;
    && |buffer| == 64 && count == |hashed| % WRAP
    && s == Fold(compress, init, hashed[..|hashed| - left])
    && buffer[..left] == hashed[|hashed| - left..]
  }

  lemma AbsorbNothing<S>(compress: (S, Block) -> S, init: S, buffer: seq<bv8>)
    requires |buffer| == 64
    ensures Absorbed(compress, init, init, 0, buffer, [])
  {
  }

  /** One byte more; the block is compressed when it is full. */
  lemma AbsorbByte<S>(compress: (S, Block) -> S, init: S, s: S, count: nat, buffer: seq<bv8>, hashed: seq<bv8>, c: bv8)
    requires Absorbed(compress, init, s, count, buffer, hashed)
    ensures var now: Block, count' := buffer[count % 64 := c], (count + 1) % WRAP;
            Absorbed(compress, init, if count' % 64 == 0 then compress(s, now) else s, count', now, hashed + [c])
  {
    Position(|hashed|);
    if |hashed| % 64 == 63 {
      FillBlock(compress, init, s, buffer, hashed, c);
    } else {
      MoreBytes(hashed, |hashed| % 64, buffer, buffer[count % 64 := c], c);
    }
  }

  lemma FillBlock<S>(compress: (S, Block) -> S, init: S, s: S, buffer: seq<bv8>, hashed: seq<bv8>, c: bv8)
    requires Absorbed(compress, init, s, |hashed| % WRAP, buffer, hashed) && |hashed| % 64 == 63
    ensures |hashed + [c]| % 64 == 0
    ensures Absorbed(compress, init, compress(s, buffer[63 := c]), |hashed + [c]| % WRAP, buffer[63 := c], hashed + [c])
  {
    hide Fold;
    var now, all := buffer[63 := c], hashed + [c];
    FullBlock(hashed, 63, buffer, now, c);
    FoldBlock(compress, init, hashed[..|hashed| - 63], now);
    assert all[..|all| - 0] == all && now[..0] == all[|all| - 0..];
  }

  lemma Position(n: nat)
    ensures n % WRAP % 64 == n % 64 && (n % WRAP + 1) % WRAP == (n + 1) % WRAP
    ensures (n + 1) % WRAP % 64 == (n + 1) % 64 == if n % 64 == 63 then 0 else n % 64 + 1
  {
    CountWraps(n);
    CountWraps(n + 1);
    NextLeft(n);
  }

  lemma NextLeft(n: nat)
    ensures (n + 1) % 64 == if n % 64 == 63 then 0 else n % 64 + 1
  {
  }

  lemma FullBlock(hashed: seq<bv8>, left: nat, buffer: seq<bv8>, now: seq<bv8>, c: bv8)
    requires |buffer| == 64 && left == |hashed| % 64 == 63 && now == buffer[left := c]
    requires buffer[..left] == hashed[|hashed| - left..]
    ensures |hashed + [c]| % 64 == 0 && hashed + [c] == hashed[..|hashed| - left] + now
  {
    assert now == buffer[..left] + [c];
  }

  lemma MoreBytes(hashed: seq<bv8>, left: nat, buffer: seq<bv8>, now: seq<bv8>, c: bv8)
    requires |buffer| == 64 && left == |hashed| % 64 < 63 && now == buffer[left := c]
    requires buffer[..left] == hashed[|hashed| - left..]
    ensures var all := hashed + [c];
            |all| % 64 == left + 1 && all[..|all| - (left + 1)] == hashed[..|hashed| - left]
            && now[..left + 1] == all[|all| - (left + 1)..]
  {
    assert now[..left + 1] == buffer[..left] + [c];
  }

  lemma AbsorbedParts<S>(compress: (S, Block) -> S, init: S, s: S, count: nat, buffer: seq<bv8>, hashed: seq<bv8>)
    returns (done: seq<bv8>, tail: seq<bv8>)
    requires Absorbed(compress, init, s, count, buffer, hashed)
    ensures |buffer| == 64 && |tail| == count % 64 && |done| % 64 == 0 && hashed == done + tail
    ensures buffer[..|tail|] == tail && s == Fold(compress, init, done)
    ensures 8 * count % WRAP == BitLength(|hashed|)
  {
    var left := |hashed| % 64;
    done, tail := hashed[..|hashed| - left], hashed[|hashed| - left..];
    CountWraps(|hashed|);
  }
}
