// include/sha256.h: SHA-256 (FIPS 180-4), one byte at a time.

module Sha256 {
  import opened HashBlocks

  // ---- the standard -------------------------------------------------------------------------------

  /** Section 4.1.2. */
  function Ch(x: bv32, y: bv32, z: bv32): bv32 { (x & y) ^ (!x & z) }

  function Maj(x: bv32, y: bv32, z: bv32): bv32 { (x & y) ^ (x & z) ^ (y & z) }

  function BigSigma0(x: bv32): bv32 { x.RotateRight(2) ^ x.RotateRight(13) ^ x.RotateRight(22) }

  function BigSigma1(x: bv32): bv32 { x.RotateRight(6) ^ x.RotateRight(11) ^ x.RotateRight(25) }

  function SmallSigma0(x: bv32): bv32 { x.RotateRight(7) ^ x.RotateRight(18) ^ (x >> 3) }

  function SmallSigma1(x: bv32): bv32 { x.RotateRight(17) ^ x.RotateRight(19) ^ (x >> 10) }

  /** Section 4.2.2. */
  const K: seq<bv32> :=
    [0x428a2f98, 0x71374491, 0xb5c0fbcf, 0xe9b5dba5, 0x3956c25b, 0x59f111f1, 0x923f82a4, 0xab1c5ed5] +
    [0xd807aa98, 0x12835b01, 0x243185be, 0x550c7dc3, 0x72be5d74, 0x80deb1fe, 0x9bdc06a7, 0xc19bf174] +
    [0xe49b69c1, 0xefbe4786, 0x0fc19dc6, 0x240ca1cc, 0x2de92c6f, 0x4a7484aa, 0x5cb0a9dc, 0x76f988da] +
    [0x983e5152, 0xa831c66d, 0xb00327c8, 0xbf597fc7, 0xc6e00bf3, 0xd5a79147, 0x06ca6351, 0x14292967] +
    [0x27b70a85, 0x2e1b2138, 0x4d2c6dfc, 0x53380d13, 0x650a7354, 0x766a0abb, 0x81c2c92e, 0x92722c85] +
    [0xa2bfe8a1, 0xa81a664b, 0xc24b8b70, 0xc76c51a3, 0xd192e819, 0xd6990624, 0xf40e3585, 0x106aa070] +
    [0x19a4c116, 0x1e376c08, 0x2748774c, 0x34b0bcb5, 0x391c0cb3, 0x4ed8aa4a, 0x5b9cca4f, 0x682e6ff3] +
    [0x748f82ee, 0x78a5636f, 0x84c87814, 0x8cc70208, 0x90befffa, 0xa4506ceb, 0xbef9a3f7, 0xc67178f2]

  type Hash = h: seq<bv32> | |h| == 8 witness INITIAL

  /** Section 5.3.3. */
  const INITIAL: seq<bv32> := [
    0x6a09e667, 0xbb67ae85, 0x3c6ef372, 0xa54ff53a, 0x510e527f, 0x9b05688c, 0x1f83d9ab, 0x5be0cd19 ]

  /** A word is stored with its most significant byte first. */
  function Word(b0: bv8, b1: bv8, b2: bv8, b3: bv8): bv32 {
    (b0 as bv32 << 24) | (b1 as bv32 << 16) | (b2 as bv32 << 8) | (b3 as bv32)
  }

  /** Byte `k` of a word in that order. */
  function ByteAt(w: bv32, k: nat): bv8 {
    ((if k == 0 then w >> 24 else if k == 1 then w >> 16 else if k == 2 then w >> 8 else w) & 0xff) as bv8
  }

  function Bytes(w: bv32): (r: seq<bv8>)
    ensures |r| == 4
  {
    [ByteAt(w, 0), ByteAt(w, 1), ByteAt(w, 2), ByteAt(w, 3)]
  }

  lemma WordOfBytes(w: bv32)
    ensures var r := Bytes(w); Word(r[0], r[1], r[2], r[3]) == w
  {
  }

  lemma BytesOfWord(b0: bv8, b1: bv8, b2: bv8, b3: bv8)
    ensures Bytes(Word(b0, b1, b2, b3)) == [b0, b1, b2, b3]
  {
    ByteOfWord(b0, b1, b2, b3);
    hide Word, ByteAt;
  }

  lemma ByteOfWord(b0: bv8, b1: bv8, b2: bv8, b3: bv8)
    ensures ByteAt(Word(b0, b1, b2, b3), 0) == b0 && ByteAt(Word(b0, b1, b2, b3), 1) == b1
    ensures ByteAt(Word(b0, b1, b2, b3), 2) == b2 && ByteAt(Word(b0, b1, b2, b3), 3) == b3
  {
  }

  /** The message schedule, section 6.2.2 step 1. */
  function W(m: Block, t: nat): bv32 {
    if t < 16 then Word(m[4 * t], m[4 * t + 1], m[4 * t + 2], m[4 * t + 3])
    else Plus(Plus(Plus(SmallSigma1(W(m, t - 2)), W(m, t - 7)), SmallSigma0(W(m, t - 15))), W(m, t - 16))
  }

  datatype Vars = Vars(a: bv32, b: bv32, c: bv32, d: bv32, e: bv32, f: bv32, g: bv32, h: bv32)

  /** The working variables after `t` rounds, section 6.2.2 steps 2 and 3. */
  function Rounds(hash: Hash, m: Block, t: nat): Vars
    requires t <= 64
  {
    if t == 0 then Vars(hash[0], hash[1], hash[2], hash[3], hash[4], hash[5], hash[6], hash[7])
    else Round(Rounds(hash, m, t - 1), K[t - 1], W(m, t - 1))
  }

  function Round(v: Vars, k: bv32, w: bv32): Vars {
    var t1 := Plus(Plus(Plus(Plus(v.h, BigSigma1(v.e)), Ch(v.e, v.f, v.g)), k), w);
    var t2 := Plus(BigSigma0(v.a), Maj(v.a, v.b, v.c));
    Vars(Plus(t1, t2), v.a, v.b, v.c, Plus(v.d, t1), v.e, v.f, v.g)
  }

  /** Section 6.2.2 step 4. */
  function Sums(hash: Hash, v: Vars): Hash {
    [ Plus(hash[0], v.a), Plus(hash[1], v.b), Plus(hash[2], v.c), Plus(hash[3], v.d),
      Plus(hash[4], v.e), Plus(hash[5], v.f), Plus(hash[6], v.g), Plus(hash[7], v.h) ]
  }

  function Compress(hash: Hash, m: Block): Hash {
    Sums(hash, Rounds(hash, m, 64))
  }

  /** The length in bits as a 64-bit number, most significant byte first, section 5.1.1. */
  function LengthBytes(bits: nat): (r: seq<bv8>)
    ensures |r| == 8
  {
    [ ByteOf(bits, 7), ByteOf(bits, 6), ByteOf(bits, 5), ByteOf(bits, 4),
      ByteOf(bits, 3), ByteOf(bits, 2), ByteOf(bits, 1), ByteOf(bits, 0) ]
  }

  /** Read with the most significant byte first, they are the length in bits: modulo 2^64, and as it is below 2^61
      bytes. */
  lemma LengthHeld(n: nat)
    ensures HighFirst(LengthBytes(BitLength(n))) == 8 * n % 0x1_0000_0000_0000_0000
    ensures n < 0x2000_0000_0000_0000 ==> HighFirst(LengthBytes(BitLength(n))) == 8 * n
  {
    hide ByteOf;
    EightBytes(n);
    HighFirstOf(BitLength(n), 8, LengthBytes(BitLength(n)));
  }

  function AllBytes(ws: seq<bv32>): (r: seq<bv8>)
    ensures |r| == 4 * |ws|
  {
    if ws == [] then [] else AllBytes(ws[..|ws| - 1]) + Bytes(ws[|ws| - 1])
  }

  /** The digest of a message. */
  function Digest(msg: seq<bv8>): seq<bv8> {
    AllBytes(Fold<Hash>(Compress, INITIAL, Padded(msg, LengthBytes(BitLength(|msg|)))))
  }

  // ---- the header file ------------------------------------------------------------------------------

  /** The macros, with their shifts. */
  function SIG0(x: bv32): bv32 {
    ((x >> 2) | (x << 30)) ^ ((x >> 13) | (x << 19)) ^ ((x >> 22) | (x << 10))
  }

  function SIG1(x: bv32): bv32 {
    ((x >> 6) | (x << 26)) ^ ((x >> 11) | (x << 21)) ^ ((x >> 25) | (x << 7))
  }

  function Sig0(x: bv32): bv32 {
    ((x >> 7) | (x << 25)) ^ ((x >> 18) | (x << 14)) ^ (x >> 3)
  }

  function Sig1(x: bv32): bv32 {
    ((x >> 17) | (x << 15)) ^ ((x >> 19) | (x << 13)) ^ (x >> 10)
  }

  /** The shifts are the rotations of the standard. */
  lemma Rotations(x: bv32)
    ensures SIG0(x) == BigSigma0(x) && SIG1(x) == BigSigma1(x) && Sig0(x) == SmallSigma0(x) && Sig1(x) == SmallSigma1(x)
  {
  }

  lemma FirstWords(m: Block, t: nat)
    requires t < 16
    ensures W(m, t) == Word(m[4 * t], m[4 * t + 1], m[4 * t + 2], m[4 * t + 3])
  {
    hide Word;
  }

  lemma LaterWords(m: Block, t: nat)
    requires t >= 16
    ensures W(m, t) == Plus(Plus(Plus(Sig1(W(m, t - 2)), W(m, t - 7)), Sig0(W(m, t - 15))), W(m, t - 16))
  {
    hide Plus, Word, Sig0, Sig1, SmallSigma0, SmallSigma1;
    Rotations(W(m, t - 2));
    Rotations(W(m, t - 15));
  }

  lemma FirstVars(hash: Hash, m: Block)
    ensures Rounds(hash, m, 0) == Vars(hash[0], hash[1], hash[2], hash[3], hash[4], hash[5], hash[6], hash[7])
  {
  }

  /** One round with the names of the program. */
  lemma NextRound(hash: Hash, m: Block, t: nat, v: Vars)
    requires t < 64 && v == Rounds(hash, m, t)
    ensures Rounds(hash, m, t + 1) ==
            var t1 := Plus(Plus(Plus(Plus(v.h, SIG1(v.e)), Ch(v.e, v.f, v.g)), K[t]), W(m, t));
            var t2 := Plus(SIG0(v.a), Maj(v.a, v.b, v.c));
            Vars(Plus(t1, t2), v.a, v.b, v.c, Plus(v.d, t1), v.e, v.f, v.g)
  {
    hide Plus, SIG0, SIG1, BigSigma0, BigSigma1, Ch, Maj, W;
    Rotations(v.e);
    Rotations(v.a);
  }

  class Context {
    const state: array<bv32>
    var count: nat
    const buffer: array<bv8>

    /** Everything hashed so far. */
    ghost var hashed: seq<bv8>

    ghost predicate Shape()
      reads this
    {
      state.Length == 8 && buffer.Length == 64
    }

    ghost predicate Valid()
      reads this, state, buffer
    {
      Shape() && Absorbed<Hash>(Compress, INITIAL, state[..], count, buffer[..], hashed)
    }

    /** sha256_init. */
    constructor ()
      ensures Valid() && hashed == [] && fresh(state) && fresh(buffer)
    {
      hide Compress, Absorbed;
      state := new bv32[8];
      buffer := new bv8[64];
      count, hashed := 0, [];
      new;
      SetState();
      ZeroFill(buffer, 0, 64);
      AbsorbNothing<Hash>(Compress, INITIAL, buffer[..]);
    }

    method SetState()
      requires Shape()
      modifies state
      ensures state[..] == INITIAL
    {
      state[0] := 0x6a09e667;
      state[1] := 0xbb67ae85;
      state[2] := 0x3c6ef372;
      state[3] := 0xa54ff53a;
      state[4] := 0x510e527f;
      state[5] := 0x9b05688c;
      state[6] := 0x1f83d9ab;
      state[7] := 0x5be0cd19;
    }

    /** The schedule loops of sha256_transform. */
    method Schedule(w: array<bv32>)
      requires Shape() && w.Length == 64 && w != state
      modifies w
      ensures forall t :: 0 <= t < 64 ==> w[t] == W(buffer[..], t)
    {
      hide Plus, W, Word, Sig0, Sig1;
      ghost var m: Block := buffer[..];
      var i := 0;
      while i < 16
        invariant i <= 16 && forall t :: 0 <= t < i ==> w[t] == W(m, t)
      {
        FirstWords(m, i);
        w[i] := Word(buffer[i * 4], buffer[i * 4 + 1], buffer[i * 4 + 2], buffer[i * 4 + 3]);
        i := i + 1;
      }
      while i < 64
        invariant 16 <= i <= 64 && forall t :: 0 <= t < i ==> w[t] == W(m, t)
      {
        LaterWords(m, i);
        w[i] := Plus(Plus(Plus(Sig1(w[i - 2]), w[i - 7]), Sig0(w[i - 15])), w[i - 16]);
        i := i + 1;
      }
    }

    /** The round loop of sha256_transform. */
    method RunRounds(w: array<bv32>, ghost hash: Hash, ghost m: Block) returns (v: Vars)
      requires Shape() && state[..] == hash
      requires w.Length == 64 && forall t :: 0 <= t < 64 ==> w[t] == W(m, t)
      ensures v == Rounds(hash, m, 64)
    {
      hide Plus, W, Rounds, Ch, Maj, SIG0, SIG1;
      var a, b, c, d := state[0], state[1], state[2], state[3];
      var e, f, g, h := state[4], state[5], state[6], state[7];
      FirstVars(hash, m);
      var i := 0;
      while i < 64
        invariant i <= 64
        invariant Vars(a, b, c, d, e, f, g, h) == Rounds(hash, m, i)
      {
        NextRound(hash, m, i, Vars(a, b, c, d, e, f, g, h));
        var t1 := Plus(Plus(Plus(Plus(h, SIG1(e)), Ch(e, f, g)), K[i]), w[i]);
        var t2 := Plus(SIG0(a), Maj(a, b, c));
        h := g;
        g := f;
        f := e;
        e := Plus(d, t1);
        d := c;
        c := b;
        b := a;
        a := Plus(t1, t2);
        i := i + 1;
      }
      v := Vars(a, b, c, d, e, f, g, h);
    }

    method AddBack(v: Vars)
      requires Shape()
      modifies state
      ensures state[..] == Sums(old(state[..]), v)
    {
      hide Plus;
      ghost var was: Hash := state[..];
      state[0] := Plus(state[0], v.a);
      state[1] := Plus(state[1], v.b);
      state[2] := Plus(state[2], v.c);
      state[3] := Plus(state[3], v.d);
      assert state[..4] == Sums(was, v)[..4] && state[4..] == was[4..];
      state[4] := Plus(state[4], v.e);
      state[5] := Plus(state[5], v.f);
      state[6] := Plus(state[6], v.g);
      state[7] := Plus(state[7], v.h);
      assert state[4..] == Sums(was, v)[4..];
      assert state[..] == state[..4] + state[4..];
    }

    /** sha256_transform. */
    method Transform()
      requires Shape()
      modifies state
      ensures state[..] == Compress(old(state[..]), buffer[..])
    {
      hide W, Rounds, Sums;
      var w := new bv32[64](_ => 0);
      Schedule(w);
      var v := RunRounds(w, state[..], buffer[..]);
      AddBack(v);
    }

    /** sha256_update. */
    method Update(data: seq<bv8>)
      requires Valid()
      modifies this`count, this`hashed, state, buffer
      ensures Valid() && hashed == old(hashed) + data
    {
      hide Compress, Absorbed, Fold;
      var i := 0;
      assert data[..0] == [];
      while i < |data|
        invariant i <= |data| && Valid() && hashed == old(hashed) + data[..i]
      {
        AbsorbByte<Hash>(Compress, INITIAL, state[..], count, buffer[..], hashed, data[i]);
        ghost var now := buffer[..][count % 64 := data[i]];
        buffer[count % 64] := data[i];
        assert buffer[..] == now;
        hashed := hashed + [data[i]];
        count := (count + 1) % WRAP;
        if count % 64 == 0 {
          Transform();
        }
        assert data[..i + 1] == data[..i] + [data[i]];
        i := i + 1;
      }
      assert data[..i] == data;
    }

    /** The loop that stores the bit count. */
    method PutLength(bits: nat)
      requires Shape()
      modifies buffer
      ensures buffer[..56] == old(buffer[..56])
      ensures buffer[56..] == LengthBytes(bits)
    {
      hide ByteOf;
      var i := 0;
      while i < 8
        invariant i <= 8 && buffer[..56] == old(buffer[..56])
        invariant forall k :: 56 <= k < 56 + i ==> buffer[k] == ByteOf(bits, 63 - k)
      {
        buffer[56 + i] := ByteOf(bits, 7 - i);
        i := i + 1;
      }
    }

    /** The first part of sha256_final: the mark behind the message, and its block if that is full. */
    method PutMark(ghost tail: seq<bv8>) returns (idx: nat)
      requires Shape() && |tail| == count % 64 && buffer[..|tail|] == tail
      modifies state, buffer
      ensures |tail| < 56 ==> idx == |tail| + 1 && state[..] == old(state[..]) && buffer[..idx] == tail + [0x80]
      ensures |tail| >= 56 ==>
        idx == 0 && state[..] == Compress(old(state[..]), tail + [0x80] + Zeros(63 - |tail|))
    {
      hide Compress;
      idx := count % 64;
      buffer[idx] := 0x80;
      idx := idx + 1;
      assert buffer[..idx] == tail + [0x80];
      if idx > 56 {
        ZeroFill(buffer, idx, 64);
        assert buffer[..] == buffer[..idx] + buffer[idx..64];
        Transform();
        idx := 0;
      }
    }

    /** The second part: zeros and the length in the last block. */
    method PutTail(idx: nat, bits: nat)
      requires Shape() && idx <= 56
      modifies state, buffer
      ensures state[..] == Compress(old(state[..]), old(buffer[..idx]) + Zeros(56 - idx) + LengthBytes(bits))
    {
      hide Compress, LengthBytes;
      ghost var front := buffer[..idx];
      ZeroFill(buffer, idx, 56);
      assert buffer[..56] == buffer[..idx] + buffer[idx..56];
      PutLength(bits);
      assert buffer[..] == buffer[..56] + buffer[56..];
      Transform();
    }

    /** sha256_final: the digest of everything hashed, in whatever pieces it came. */
    method Final() returns (digest: array<bv8>)
      requires Valid()
      modifies this, state, buffer
      ensures fresh(digest) && digest[..] == Digest(old(hashed))
    {
      hide Compress, Fold, Padded, AllBytes, BitLength, LengthBytes, Absorbed;
      ghost var done, tail := AbsorbedParts<Hash>(Compress, INITIAL, state[..], count, buffer[..], hashed);
      FoldPadded<Hash>(Compress, INITIAL, done, tail, LengthBytes(BitLength(|hashed|)));
      var bits := count * 8 % WRAP;
      var idx := PutMark(tail);
      assert buffer[..0] == [] && [] + Zeros(56) == Zeros(56);
      PutTail(idx, bits);
      digest := PutDigest();
    }

    method PutDigest() returns (digest: array<bv8>)
      requires Shape()
      ensures fresh(digest) && digest[..] == AllBytes(state[..])
    {
      hide ByteAt;
      digest := new bv8[32](_ => 0);
      var i := 0;
      while i < 8
        invariant i <= 8 && digest[..4 * i] == AllBytes(state[..i])
      {
        ghost var before := digest[..4 * i];
        digest[i * 4] := ByteAt(state[i], 0);
        digest[i * 4 + 1] := ByteAt(state[i], 1);
        digest[i * 4 + 2] := ByteAt(state[i], 2);
        digest[i * 4 + 3] := ByteAt(state[i], 3);
        assert digest[..4 * i] == before;
        assert digest[..4 * i + 4] == before + Bytes(state[i]);
        assert state[..i + 1][..i] == state[..i];
        i := i + 1;
      }
      assert state[..8] == state[..] && digest[..32] == digest[..];
    }
  }

  /** Hashing a message in pieces. */
  method HashPieces(pieces: seq<seq<bv8>>) returns (digest: array<bv8>)
    ensures fresh(digest) && digest[..] == Digest(Whole(pieces))
  {
    hide Digest;
    var ctx := new Context();
    var i := 0;
    assert pieces[..0] == [];
    while i < |pieces|
      invariant i <= |pieces| && fresh(ctx) && fresh(ctx.state) && fresh(ctx.buffer)
      invariant ctx.Valid() && ctx.hashed == Whole(pieces[..i])
    {
      ctx.Update(pieces[i]);
      assert pieces[..i + 1][..i] == pieces[..i];
      i := i + 1;
    }
    assert pieces[..i] == pieces;
    digest := ctx.Final();
  }
}
