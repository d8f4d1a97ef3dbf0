// include/md5.h: MD5 (RFC 1321), one byte at a time.
//
// The program moves the four words through its registers; the RFC names which register each of the 64
// operations writes.

module Md5 {
  import opened HashBlocks

  // ---- the standard -------------------------------------------------------------------------------

  /** Section 3.4. */
  function F(x: bv32, y: bv32, z: bv32): bv32 { (x & y) | (!x & z) }

  function G(x: bv32, y: bv32, z: bv32): bv32 { (x & z) | (y & !z) }

  function H(x: bv32, y: bv32, z: bv32): bv32 { x ^ y ^ z }

  function I(x: bv32, y: bv32, z: bv32): bv32 { y ^ (x | !z) }

  const T: seq<bv32> :=
    [0xd76aa478, 0xe8c7b756, 0x242070db, 0xc1bdceee, 0xf57c0faf, 0x4787c62a, 0xa8304613, 0xfd469501] +
    [0x698098d8, 0x8b44f7af, 0xffff5bb1, 0x895cd7be, 0x6b901122, 0xfd987193, 0xa679438e, 0x49b40821] +
    [0xf61e2562, 0xc040b340, 0x265e5a51, 0xe9b6c7aa, 0xd62f105d, 0x02441453, 0xd8a1e681, 0xe7d3fbc8] +
    [0x21e1cde6, 0xc33707d6, 0xf4d50d87, 0x455a14ed, 0xa9e3e905, 0xfcefa3f8, 0x676f02d9, 0x8d2a4c8a] +
    [0xfffa3942, 0x8771f681, 0x6d9d6122, 0xfde5380c, 0xa4beea44, 0x4bdecfa9, 0xf6bb4b60, 0xbebfbc70] +
    [0x289b7ec6, 0xeaa127fa, 0xd4ef3085, 0x04881d05, 0xd9d4d039, 0xe6db99e5, 0x1fa27cf8, 0xc4ac5665] +
    [0xf4292244, 0x432aff97, 0xab9423a7, 0xfc93a039, 0x655b59c3, 0x8f0ccc92, 0xffeff47d, 0x85845dd1] +
    [0x6fa87e4f, 0xfe2ce6e0, 0xa3014314, 0x4e0811a1, 0xf7537e82, 0xbd3af235, 0x2ad7d2bb, 0xeb86d391]

  /** The shift amounts of the operations. */
  const S: seq<bv8> :=
    [7, 12, 17, 22, 7, 12, 17, 22, 7, 12, 17, 22, 7, 12, 17, 22] +
    [5, 9, 14, 20, 5, 9, 14, 20, 5, 9, 14, 20, 5, 9, 14, 20] +
    [4, 11, 16, 23, 4, 11, 16, 23, 4, 11, 16, 23, 4, 11, 16, 23] +
    [6, 10, 15, 21, 6, 10, 15, 21, 6, 10, 15, 21, 6, 10, 15, 21]

  /** Which word of the block each operation of a round takes; those of the first round go in order. */
  const WORDS2: seq<nat> := [1, 6, 11, 0, 5, 10, 15, 4, 9, 14, 3, 8, 13, 2, 7, 12]
  const WORDS3: seq<nat> := [5, 8, 11, 14, 1, 4, 7, 10, 13, 0, 3, 6, 9, 12, 15, 2]
  const WORDS4: seq<nat> := [0, 7, 14, 5, 12, 3, 10, 1, 8, 15, 6, 13, 4, 11, 2, 9]

  type Hash = h: seq<bv32> | |h| == 4 witness INITIAL

  /** Section 3.3. */
  const INITIAL: seq<bv32> := [0x67452301, 0xefcdab89, 0x98badcfe, 0x10325476]

  /** A word is stored with its least significant byte first. */
  function Word(b0: bv8, b1: bv8, b2: bv8, b3: bv8): bv32 {
    (b0 as bv32) | (b1 as bv32 << 8) | (b2 as bv32 << 16) | (b3 as bv32 << 24)
  }

  /** Byte `k` of a word in that order. */
  function ByteAt(w: bv32, k: nat): bv8 {
    ((if k == 0 then w else if k == 1 then w >> 8 else if k == 2 then w >> 16 else w >> 24) & 0xff) as bv8
  }

  function Bytes(w: bv32): (r: seq<bv8>)
    ensures |r| == 4
  {
    [ByteAt(w, 0), ByteAt(w, 1), ByteAt(w, 2), ByteAt(w, 3)]
  }

  lemma WordOfBytes(w: bv32)
    ensures var r := Bytes(w); Word(r[0], r[1], r[2], r[3]) == w
  {
  }

  lemma BytesOfWord(b0: bv8, b1: bv8, b2: bv8, b3: bv8)
    ensures Bytes(Word(b0, b1, b2, b3)) == [b0, b1, b2, b3]
  {
    ByteOfWord(b0, b1, b2, b3);
    hide Word, ByteAt;
  }

  lemma ByteOfWord(b0: bv8, b1: bv8, b2: bv8, b3: bv8)
    ensures ByteAt(Word(b0, b1, b2, b3), 0) == b0 && ByteAt(Word(b0, b1, b2, b3), 1) == b1
    ensures ByteAt(Word(b0, b1, b2, b3), 2) == b2 && ByteAt(Word(b0, b1, b2, b3), 3) == b3
  {
  }

  function X(m: Block, k: nat): bv32
    requires k < 16
  {
    Word(m[4 * k], m[4 * k + 1], m[4 * k + 2], m[4 * k + 3])
  }

  /** Rotating to the left, as the program shifts. */
  function Rotl(x: bv32, n: bv8): bv32 {
    if 0 < n < 32 then (x << n) | (x >> (32 - n)) else x
  }

  /** The shifts are rotations for every shift amount. */
  lemma Rotations(x: bv32)
    ensures Rotl(x, 7) == x.RotateLeft(7) && Rotl(x, 12) == x.RotateLeft(12)
    ensures Rotl(x, 17) == x.RotateLeft(17) && Rotl(x, 22) == x.RotateLeft(22)
    ensures Rotl(x, 5) == x.RotateLeft(5) && Rotl(x, 9) == x.RotateLeft(9)
    ensures Rotl(x, 14) == x.RotateLeft(14) && Rotl(x, 20) == x.RotateLeft(20)
    ensures Rotl(x, 4) == x.RotateLeft(4) && Rotl(x, 11) == x.RotateLeft(11)
    ensures Rotl(x, 16) == x.RotateLeft(16) && Rotl(x, 23) == x.RotateLeft(23)
    ensures Rotl(x, 6) == x.RotateLeft(6) && Rotl(x, 10) == x.RotateLeft(10)
    ensures Rotl(x, 15) == x.RotateLeft(15) && Rotl(x, 21) == x.RotateLeft(21)
  {
  }

  datatype Registers<W> = Registers(a: W, b: W, c: W, d: W)

  /** The function of a round. */
  function Aux(round: nat, x: bv32, y: bv32, z: bv32): bv32 {
    if round == 0 then F(x, y, z) else if round == 1 then G(x, y, z) else if round == 2 then H(x, y, z) else I(x, y, z)
  }

  function Sum4(x: bv32, y: bv32, z: bv32, w: bv32): bv32 {
    x + y + z + w
  }

  /** a = b + ((a + F(b,c,d) + X[k] + T[i]) <<< s), for operation `t`, counted from 0. */
  function Operation(m: Block, t: nat, a: bv32, b: bv32, c: bv32, d: bv32): bv32
    requires t < 64
  {
    Plus(b, Rotl(Sum4(a, Aux(t / 16, b, c, d), X(m, WordIndex(t)), Constant(t)), Shift(t)))
  }

  function WordIndex(t: nat): (k: nat)
    requires t < 64
    ensures k < 16
  {
    if t < 16 then t else if t < 32 then Second(t) else if t < 48 then Third(t) else Fourth(t)
  }

  function Second(t: nat): (k: nat)
    requires 16 <= t < 32
    ensures k == (5 * t + 1) % 16
  {
    WORDS2[t - 16]
  }

  function Third(t: nat): (k: nat)
    requires 32 <= t < 48
    ensures k == (3 * t + 5) % 16
  {
    WORDS3[t - 32]
  }

  function Fourth(t: nat): (k: nat)
    requires 48 <= t < 64
    ensures k == 7 * t % 16
  {
    WORDS4[t - 48]
  }

  /** Table entries for an operation. */
  function Constant(t: nat): bv32
    requires t < 64
  {
    T[t]
  }

  function Shift(t: nat): bv8
    requires t < 64
  {
    S[t]
  }

  /** The order in which an operation names the registers: [ABCD], [DABC], [CDAB], [BCDA], in turn. */
  function Named<W>(r: Registers<W>, k: nat): Registers<W> {
    if k == 0 then r
    else if k == 1 then Registers(r.d, r.a, r.b, r.c)
    else if k == 2 then Registers(r.c, r.d, r.a, r.b)
    else Registers(r.b, r.c, r.d, r.a)
  }

  /** The register that is named first is written. */
  function Write<W>(r: Registers<W>, k: nat, x: W): Registers<W> {
    if k == 0 then Registers(x, r.b, r.c, r.d)
    else if k == 1 then Registers(r.a, r.b, r.c, x)
    else if k == 2 then Registers(r.a, r.b, x, r.d)
    else Registers(r.a, x, r.c, r.d)
  }

  /** The registers after `t` operations. */
  function Operations(hash: Hash, m: Block, t: nat): Registers<bv32>
    requires t <= 64
  {
    if t == 0 then Registers(hash[0], hash[1], hash[2], hash[3])
    else OneMore(m, t - 1, (t - 1) % 4, Operations(hash, m, t - 1))
  }

  function OneMore(m: Block, t: nat, k: nat, r: Registers<bv32>): Registers<bv32>
    requires t < 64
  {
    var v := Named(r, k);
    Write(r, k, Operation(m, t, v.a, v.b, v.c, v.d))
  }

  function Sums(hash: Hash, r: Registers<bv32>): Hash {
    [Plus(hash[0], r.a), Plus(hash[1], r.b), Plus(hash[2], r.c), Plus(hash[3], r.d)]
  }

  function Compress(hash: Hash, m: Block): Hash {
    Sums(hash, Operations(hash, m, 64))
  }

  /** The length in bits as a 64-bit number, least significant byte first, section 3.2. */
  function LengthBytes(bits: nat): (r: seq<bv8>)
    ensures |r| == 8
  {
    [ ByteOf(bits, 0), ByteOf(bits, 1), ByteOf(bits, 2), ByteOf(bits, 3),
      ByteOf(bits, 4), ByteOf(bits, 5), ByteOf(bits, 6), ByteOf(bits, 7) ]
  }

  /** Read with the least significant byte first, they are the length in bits: modulo 2^64, and as it is below 2^61
      bytes. */
  lemma LengthHeld(n: nat)
    ensures LowFirst(LengthBytes(BitLength(n))) == 8 * n % 0x1_0000_0000_0000_0000
    ensures n < 0x2000_0000_0000_0000 ==> LowFirst(LengthBytes(BitLength(n))) == 8 * n
  {
    hide ByteOf;
    EightBytes(n);
    LowFirstOf(BitLength(n), 8, LengthBytes(BitLength(n)));
  }

  function AllBytes(ws: seq<bv32>): (r: seq<bv8>)
    ensures |r| == 4 * |ws|
  {
    if ws == [] then [] else AllBytes(ws[..|ws| - 1]) + Bytes(ws[|ws| - 1])
  }

  /** The digest of a message. */
  function Digest(msg: seq<bv8>): seq<bv8> {
    AllBytes(Fold<Hash>(Compress, INITIAL, Padded(msg, LengthBytes(BitLength(|msg|)))))
  }

  // ---- the header file ------------------------------------------------------------------------------

  /** The formulas for the word index. */
  function Index(i: nat): (g: nat)
    ensures g < 64
  {
    if i < 16 then i else if i < 32 then (5 * i + 1) % 16 else if i < 48 then (3 * i + 5) % 16 else 7 * i % 16
  }

  /** They give the order of the standard. */
  lemma IndexIsWord(i: nat)
    requires i < 64
    ensures Index(i) == WordIndex(i)
  {
    hide Second, Third, Fourth;
  }

  lemma SumSwap(x: bv32, y: bv32, z: bv32, w: bv32)
    ensures Sum4(x, y, z, w) == Sum4(x, y, w, z)
  {
  }

  /** One turn of the loop is one operation of the standard: the program moves the words so that its
      variables are always the registers in the order in which the next operation names them. */
  lemma NextOperation(hash: Hash, m: Block, i: nat, v: Registers<bv32>)
    requires i < 64 && v == Named(Operations(hash, m, i), i % 4)
    ensures Index(i) < 16
    ensures Named(Operations(hash, m, i + 1), (i + 1) % 4) ==
            var sum := Sum4(v.a, Aux(i / 16, v.b, v.c, v.d), Constant(i), X(m, Index(i)));
            Registers(v.d, Plus(v.b, Rotl(sum, Shift(i))), v.b, v.c)
  {
    hide Plus, Sum4, Rotl, Aux, X, WordIndex, Index, Shift, Constant, Named, Write;
    IndexIsWord(i);
    SumSwap(v.a, Aux(i / 16, v.b, v.c, v.d), Constant(i), X(m, Index(i)));
    Turn(i);
    Moved(i % 4, Operations(hash, m, i), v, Operation(m, i, v.a, v.b, v.c, v.d));
  }

  lemma Moved<W>(k: nat, r: Registers<W>, v: Registers<W>, x: W)
    requires k < 4 && v == Named(r, k)
    ensures Named(Write(r, k, x), if k == 3 then 0 else k + 1) == Registers(v.d, x, v.b, v.c)
  {
  }

  lemma Turn(i: nat)
    ensures (i + 1) % 4 == if i % 4 == 3 then 0 else i % 4 + 1
  {
  }

  lemma Start(hash: Hash, m: Block)
    ensures Named(Operations(hash, m, 0), 0) == Registers(hash[0], hash[1], hash[2], hash[3])
  {
  }

  class Context {
    const state: array<bv32>
    var count: nat
    const buffer: array<bv8>

    /** Everything hashed so far. */
    ghost var hashed: seq<bv8>

    ghost predicate Shape()
      reads this
    {
      state.Length == 4 && buffer.Length == 64
    }

    ghost predicate Valid()
      reads this, state, buffer
    {
      Shape() && Absorbed<Hash>(Compress, INITIAL, state[..], count, buffer[..], hashed)
    }

    /** md5_init. */
    constructor ()
      ensures Valid() && hashed == [] && fresh(state) && fresh(buffer)
    {
      hide Compress, Absorbed;
      state := new bv32[4];
      buffer := new bv8[64];
      count, hashed := 0, [];
      new;
      SetState();
      ZeroFill(buffer, 0, 64);
      AbsorbNothing<Hash>(Compress, INITIAL, buffer[..]);
    }

    method SetState()
      requires Shape()
      modifies state
      ensures state[..] == INITIAL
    {
      state[0] := 0x67452301;
      state[1] := 0xefcdab89;
      state[2] := 0x98badcfe;
      state[3] := 0x10325476;
    }

    /** The words of the block. */
    method Unpack(m: array<bv32>)
      requires Shape() && m.Length == 16 && m != state
      modifies m
      ensures forall k :: 0 <= k < 16 ==> m[k] == X(buffer[..], k)
    {
      hide Word;
      ghost var block: Block := buffer[..];
      var i := 0;
      while i < 16
        invariant i <= 16 && forall k :: 0 <= k < i ==> m[k] == X(block, k)
      {
        m[i] := Word(buffer[i * 4], buffer[i * 4 + 1], buffer[i * 4 + 2], buffer[i * 4 + 3]);
        i := i + 1;
      }
    }

    /** The loop of md5_transform. */
    method Run(m: array<bv32>, ghost hash: Hash, ghost block: Block) returns (r: Registers<bv32>)
      requires Shape() && state[..] == hash
      requires m.Length == 16 && forall k :: 0 <= k < 16 ==> m[k] == X(block, k)
      ensures r == Operations(hash, block, 64)
    {
      hide Plus, Sum4, Rotl, F, G, H, I, X, Operations, Constant, Shift;
      var a, b, c, d := state[0], state[1], state[2], state[3];
      Start(hash, block);
      var i := 0;
      while i < 64
        invariant i <= 64
        invariant Registers(a, b, c, d) == Named(Operations(hash, block, i), i % 4)
      {
        NextOperation(hash, block, i, Registers(a, b, c, d));
        var f, g;
        if i < 16 {
          f, g := F(b, c, d), i;
        } else if i < 32 {
          f, g := G(b, c, d), (5 * i + 1) % 16;
        } else if i < 48 {
          f, g := H(b, c, d), (3 * i + 5) % 16;
        } else {
          f, g := I(b, c, d), 7 * i % 16;
        }
        var temp := d;
        d := c;
        c := b;
        b := Plus(b, Rotl(Sum4(a, f, Constant(i), m[g]), Shift(i)));
        a := temp;
        i := i + 1;
      }
      r := Registers(a, b, c, d);
    }

    method AddBack(r: Registers<bv32>)
      requires Shape()
      modifies state
      ensures state[..] == Sums(old(state[..]), r)
    {
      hide Plus;
      state[0] := Plus(state[0], r.a);
      state[1] := Plus(state[1], r.b);
      state[2] := Plus(state[2], r.c);
      state[3] := Plus(state[3], r.d);
    }

    /** md5_transform. */
    method Transform()
      requires Shape()
      modifies state
      ensures state[..] == Compress(old(state[..]), buffer[..])
    {
      hide X, Operations, Sums;
      var m := new bv32[16](_ => 0);
      Unpack(m);
      var r := Run(m, state[..], buffer[..]);
      AddBack(r);
    }

    /** md5_update. */
    method Update(data: seq<bv8>)
      requires Valid()
      modifies this`count, this`hashed, state, buffer
      ensures Valid() && hashed == old(hashed) + data
    {
      hide Compress, Absorbed, Fold;
      var i := 0;
      assert data[..0] == [];
      while i < |data|
        invariant i <= |data| && Valid() && hashed == old(hashed) + data[..i]
      {
        AbsorbByte<Hash>(Compress, INITIAL, state[..], count, buffer[..], hashed, data[i]);
        ghost var now := buffer[..][count % 64 := data[i]];
        buffer[count % 64] := data[i];
        assert buffer[..] == now;
        hashed := hashed + [data[i]];
        count := (count + 1) % WRAP;
        if count % 64 == 0 {
          Transform();
        }
        assert data[..i + 1] == data[..i] + [data[i]];
        i := i + 1;
      }
      assert data[..i] == data;
    }

    /** The loop that stores the bit count. */
    method PutLength(bits: nat)
      requires Shape()
      modifies buffer
      ensures buffer[..56] == old(buffer[..56])
      ensures buffer[56..] == LengthBytes(bits)
    {
      hide ByteOf;
      var i := 0;
      while i < 8
        invariant i <= 8 && buffer[..56] == old(buffer[..56])
        invariant forall k :: 56 <= k < 56 + i ==> buffer[k] == ByteOf(bits, k - 56)
      {
        buffer[56 + i] := ByteOf(bits, i);
        i := i + 1;
      }
    }

    /** The first part of md5_final: the mark behind the message, and its block if that is full. */
    method PutMark(ghost tail: seq<bv8>) returns (idx: nat)
      requires Shape() && |tail| == count % 64 && buffer[..|tail|] == tail
      modifies state, buffer
      ensures |tail| < 56 ==> idx == |tail| + 1 && state[..] == old(state[..]) && buffer[..idx] == tail + [0x80]
      ensures |tail| >= 56 ==>
        idx == 0 && state[..] == Compress(old(state[..]), tail + [0x80] + Zeros(63 - |tail|))
    {
      hide Compress;
      idx := count % 64;
      buffer[idx] := 0x80;
      idx := idx + 1;
      assert buffer[..idx] == tail + [0x80];
      if idx > 56 {
        ZeroFill(buffer, idx, 64);
        assert buffer[..] == buffer[..idx] + buffer[idx..64];
        Transform();
        idx := 0;
      }
    }

    /** The second part: zeros and the length in the last block. */
    method PutTail(idx: nat, bits: nat)
      requires Shape() && idx <= 56
      modifies state, buffer
      ensures state[..] == Compress(old(state[..]), old(buffer[..idx]) + Zeros(56 - idx) + LengthBytes(bits))
    {
      hide Compress, LengthBytes;
      ghost var front := buffer[..idx];
      ZeroFill(buffer, idx, 56);
      assert buffer[..56] == buffer[..idx] + buffer[idx..56];
      PutLength(bits);
      assert buffer[..] == buffer[..56] + buffer[56..];
      Transform();
    }

    /** md5_final: the digest of everything hashed, in whatever pieces it came. */
    method Final() returns (digest: array<bv8>)
      requires Valid()
      modifies this, state, buffer
      ensures fresh(digest) && digest[..] == Digest(old(hashed))
    {
      hide Compress, Fold, Padded, AllBytes, BitLength, LengthBytes, Absorbed;
      ghost var done, tail := AbsorbedParts<Hash>(Compress, INITIAL, state[..], count, buffer[..], hashed);
      FoldPadded<Hash>(Compress, INITIAL, done, tail, LengthBytes(BitLength(|hashed|)));
      var bits := count * 8 % WRAP;
      var idx := PutMark(tail);
      assert buffer[..0] == [] && [] + Zeros(56) == Zeros(56);
      PutTail(idx, bits);
      digest := PutDigest();
    }

    method PutDigest() returns (digest: array<bv8>)
      requires Shape()
      ensures fresh(digest) && digest[..] == AllBytes(state[..])
    {
      hide ByteAt;
      digest := new bv8[16](_ => 0);
      var i := 0;
      while i < 4
        invariant i <= 4 && digest[..4 * i] == AllBytes(state[..i])
      {
        ghost var before := digest[..4 * i];
        digest[i * 4] := ByteAt(state[i], 0);
        digest[i * 4 + 1] := ByteAt(state[i], 1);
        digest[i * 4 + 2] := ByteAt(state[i], 2);
        digest[i * 4 + 3] := ByteAt(state[i], 3);
        assert digest[..4 * i] == before;
        assert digest[..4 * i + 4] == before + Bytes(state[i]);
        assert state[..i + 1][..i] == state[..i];
        i := i + 1;
      }
      assert state[..4] == state[..] && digest[..16] == digest[..];
    }
  }

  /** Hashing a message in pieces. */
  method HashPieces(pieces: seq<seq<bv8>>) returns (digest: array<bv8>)
    ensures fresh(digest) && digest[..] == Digest(Whole(pieces))
  {
    hide Digest;
    var ctx := new Context();
    var i := 0;
    assert pieces[..0] == [];
    while i < |pieces|
      invariant i <= |pieces| && fresh(ctx) && fresh(ctx.state) && fresh(ctx.buffer)
      invariant ctx.Valid() && ctx.hashed == Whole(pieces[..i])
    {
      ctx.Update(pieces[i]);
      assert pieces[..i + 1][..i] == pieces[..i];
      i := i + 1;
    }
    assert pieces[..i] == pieces;
    digest := ctx.Final();
  }
}
