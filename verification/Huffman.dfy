// Canonical Huffman codes (RFC 1951 section 3.2.2), and the table builder and bit-serial decoder of
// the inflater (struct inflate_huff_t).

module Huffman {
  import opened Bits
  import opened BitReader

  const MAX_BITS := 15
  const MAX_SYMBOLS := 288

  /** A vector of code lengths, one per symbol; length 0 means the symbol has no code. */
  predicate IsLengths(l: seq<nat>) {
    |l| <= MAX_SYMBOLS && forall i :: 0 <= i < |l| ==> l[i] <= MAX_BITS
  }

  /** How many symbols have length `b`. */
  function Count(l: seq<nat>, b: nat): (r: nat)
    ensures r <= |l|
  {
    if l == [] then 0 else Count(l[..|l| - 1], b) + (if l[|l| - 1] == b then 1 else 0)
  }

  /** The symbols of length `b`, in increasing order. */
  function OfLength(l: seq<nat>, b: nat): (r: seq<nat>)
    ensures |r| == Count(l, b)
  {
    if l == [] then [] else OfLength(l[..|l| - 1], b) + (if l[|l| - 1] == b then [|l| - 1] else [])
  }

  /** The symbols of length 1 to `b`, ordered by length and then by symbol. */
  function Sorted(l: seq<nat>, b: nat): seq<nat> {
    if b == 0 then [] else Sorted(l, b - 1) + OfLength(l, b)
  }

  function Counts(l: seq<nat>): (r: seq<nat>)
    ensures |r| == MAX_BITS + 1
  {
    seq(MAX_BITS + 1, (b: nat) => Count(l, b))
  }

  /** The number of codes of length `b` and more. */
  function Total(count: seq<nat>, b: nat): nat
    requires |count| == MAX_BITS + 1
    decreases MAX_BITS + 1 - b
  {
    if b > MAX_BITS then 0 else count[b] + Total(count, b + 1)
  }

  // ---- canonical codes: the definition of RFC 1951 section 3.2.2 -----------------

  /** The smallest code of length `b` (next_code before any assignment). */
  function First(count: seq<nat>, b: nat): nat
    requires |count| == MAX_BITS + 1 && b <= MAX_BITS
    decreases b, 0
  {
    if b == 0 then 0 else 2 * Beyond(count, b - 1)
  }

  /** One more than the largest code of length `b`. */
  function Beyond(count: seq<nat>, b: nat): nat
    requires |count| == MAX_BITS + 1 && b <= MAX_BITS
    decreases b, 1
  {
    if b == 0 then 0 else First(count, b) + count[b]
  }

  /** The code of symbol `s`: codes of one length are consecutive in symbol order. */
  function Code(l: seq<nat>, s: nat): nat
    requires s < |l| && l[s] <= MAX_BITS
  {
    First(Counts(l), l[s]) + Count(l[..s], l[s])
  }

  /** The position of symbol `s` in (length, symbol) order. */
  function Rank(l: seq<nat>, s: nat): nat
    requires s < |l| && l[s] > 0
  {
    |Sorted(l, l[s] - 1)| + Count(l[..s], l[s])
  }

  /** The number a bit string denotes when its most significant bit comes first. */
  function MsbValue(s: seq<bool>): nat {
    if s == [] then 0 else 2 * MsbValue(s[..|s| - 1]) + (if s[|s| - 1] then 1 else 0)
  }

  function MsbDigits(v: nat, n: nat): (r: seq<bool>)
    ensures |r| == n
  {
    if n == 0 then [] else MsbDigits(v / 2, n - 1) + [v % 2 == 1]
  }

  /** Huffman codes are packed starting with their most significant bit. */
  function CodeBits(l: seq<nat>, s: nat): seq<bool>
    requires s < |l| && l[s] <= MAX_BITS
  {
    MsbDigits(Code(l, s), l[s])
  }

  /** The sum over all symbols that have a code of at most `b` bits of 2^(b - length). */
  function Weight(l: seq<nat>, b: nat): nat {
    if l == [] then 0
    else
      var last := l[|l| - 1];
      Weight(l[..|l| - 1], b) + (if 1 <= last <= b then Pow2(b - last) else 0)
  }

  /** Kraft's inequality: the code lengths leave room for every code. */
  predicate Kraft(l: seq<nat>) {
    Weight(l, MAX_BITS) <= Pow2(MAX_BITS)
  }

  // ---- what the decoder computes ---------------------------------------------------

  /** A rank in (length, symbol) order, or no match, and the bit position reached. */
  datatype Found = Miss(at: nat) | Hit(rank: nat, at: nat)

  /** The decoding loop from code length `len` on. */
  function RankFrom(bits: seq<bool>, p: nat, count: seq<nat>, len: nat, code: nat, first: nat, index: nat)
    : (r: Found)
    requires p <= |bits| && |count| == MAX_BITS + 1 && 1 <= len && first <= code
    ensures p <= r.at <= |bits|
    ensures r.Hit? ==> index <= r.rank < index + Total(count, len)
    decreases MAX_BITS + 1 - len
  {
    if len > MAX_BITS then Miss(p)
    else
      var bit := ReadBits(bits, p, 1);
      var c, next := code + bit.value, first + count[len];
      if c < next then Hit(index + (c - first), bit.at)
      else RankFrom(bits, bit.at, count, len + 1, 2 * c, 2 * next, index + count[len])
  }

  function DecodeRank(bits: seq<bool>, p: nat, count: seq<nat>): (r: Found)
    requires p <= |bits| && |count| == MAX_BITS + 1
    ensures p <= r.at <= |bits|
    ensures r.Hit? ==> r.rank < Total(count, 1)
  {
    RankFrom(bits, p, count, 1, 0, 0, 0)
  }

  datatype Table = Table(count: seq<nat>, symbol: seq<nat>) {
    predicate Valid() {
      |count| == MAX_BITS + 1 && |symbol| == MAX_SYMBOLS && Total(count, 1) <= MAX_SYMBOLS
    }
  }

  /** What the decoder returns (-1 for an error) and the bit position it leaves. */
  datatype Symbol = Symbol(sym: int, at: nat)

  /** inf_huff_decode. */
  function Decode(bits: seq<bool>, p: nat, t: Table): (r: Symbol)
    requires p <= |bits| && t.Valid()
    ensures p <= r.at <= |bits|
    ensures -1 <= r.sym
  {
    match DecodeRank(bits, p, t.count)
    case Miss(q) => Symbol(-1, q)
    case Hit(rank, q) => Symbol(t.symbol[rank], q)
  }

  // ---- counting -----------------------------------------------------------------------

  lemma {:induction false} CountPrefix(l: seq<nat>, i: nat, j: nat, b: nat)
    requires i <= j <= |l|
    ensures Count(l[..i], b) <= Count(l[..j], b)
    ensures i < j && l[i] == b ==> Count(l[..i], b) < Count(l[..j], b)
    decreases j
  {
    if i < j {
      assert l[..j][..j - 1] == l[..j - 1];
      CountPrefix(l, i, j - 1, b);
    }
  }

  lemma CountBelow(l: seq<nat>, s: nat)
    requires s < |l|
    ensures Count(l[..s], l[s]) < Count(l, l[s])
  {
    CountPrefix(l, s, |l|, l[s]);
    assert l[..|l|] == l;
  }

  /** The number of codes shorter than `len`. */
  ghost function Shorter(count: seq<nat>, len: nat): nat
    requires |count| == MAX_BITS + 1 && 1 <= len <= MAX_BITS + 1
  {
    if len == 1 then 0 else Shorter(count, len - 1) + count[len - 1]
  }

  lemma {:induction false} ShorterSorted(l: seq<nat>, len: nat)
    requires 1 <= len <= MAX_BITS + 1
    ensures Shorter(Counts(l), len) == |Sorted(l, len - 1)|
  {
    if len > 1 {
      ShorterSorted(l, len - 1);
    }
  }

  lemma {:induction false} ShorterTotal(count: seq<nat>, len: nat)
    requires |count| == MAX_BITS + 1 && 1 <= len <= MAX_BITS + 1
    ensures Shorter(count, len) + Total(count, len) == Total(count, 1)
  {
    if len > 1 {
      ShorterTotal(count, len - 1);
    }
  }

  /** Every symbol is counted once. */
  lemma {:induction false} TotalCount(l: seq<nat>)
    requires IsLengths(l)
    ensures Total(Counts(l), 0) == |l|
    ensures |Sorted(l, MAX_BITS)| == |l| - Count(l, 0)
  {
    SumCounts(l, 0);
    ShorterSorted(l, MAX_BITS + 1);
    ShorterTotal(Counts(l), MAX_BITS + 1);
    AtLeastStep(l, 0);
    SumCounts(l, 1);
  }

  /** How many symbols have length `b` or more. */
  function AtLeast(l: seq<nat>, b: nat): nat {
    if l == [] then 0 else AtLeast(l[..|l| - 1], b) + (if l[|l| - 1] >= b then 1 else 0)
  }

  lemma {:induction false} AtLeastStep(l: seq<nat>, b: nat)
    ensures AtLeast(l, b) == Count(l, b) + AtLeast(l, b + 1)
  {
    if l != [] {
      AtLeastStep(l[..|l| - 1], b);
    }
  }

  lemma {:induction false} AtLeastEnds(l: seq<nat>)
    requires forall i :: 0 <= i < |l| ==> l[i] <= MAX_BITS
    ensures AtLeast(l, 0) == |l| && AtLeast(l, MAX_BITS + 1) == 0
  {
    if l != [] {
      AtLeastEnds(l[..|l| - 1]);
    }
  }

  lemma {:induction false} SumCounts(l: seq<nat>, b: nat)
    requires IsLengths(l) && b <= MAX_BITS + 1
    ensures Total(Counts(l), b) == AtLeast(l, b)
    ensures b == 0 ==> Total(Counts(l), b) == |l|
    decreases MAX_BITS + 1 - b
  {
    AtLeastEnds(l);
    if b <= MAX_BITS {
      SumCounts(l, b + 1);
      AtLeastStep(l, b);
    }
  }

  // ---- the (length, symbol) order -------------------------------------------------------

  lemma {:induction false} OfLengthAt(l: seq<nat>, s: nat)
    requires s < |l|
    ensures Count(l[..s], l[s]) < Count(l, l[s])
    ensures OfLength(l, l[s])[Count(l[..s], l[s])] == s
  {
    CountBelow(l, s);
    var t := l[..|l| - 1];
    if s < |t| {
      OfLengthAt(t, s);
      assert t[..s] == l[..s];
    }
  }

  lemma {:induction false} OfLengthIs(l: seq<nat>, b: nat, k: nat)
    requires k < Count(l, b)
    ensures var s := OfLength(l, b)[k]; s < |l| && l[s] == b && Count(l[..s], b) == k
  {
    var t := l[..|l| - 1];
    var s := OfLength(l, b)[k];
    if k < Count(t, b) {
      OfLengthIs(t, b, k);
      assert t[..s] == l[..s];
    }
  }

  lemma {:induction false} SortedPrefix(l: seq<nat>, a: nat, b: nat)
    requires a <= b
    ensures |Sorted(l, a)| <= |Sorted(l, b)| && Sorted(l, b)[..|Sorted(l, a)|] == Sorted(l, a)
  {
    if a < b {
      SortedPrefix(l, a, b - 1);
    }
  }

  /** A symbol sits at its rank. */
  lemma SortedAtRank(l: seq<nat>, s: nat)
    requires s < |l| && 1 <= l[s] <= MAX_BITS
    ensures Rank(l, s) < |Sorted(l, MAX_BITS)| && Sorted(l, MAX_BITS)[Rank(l, s)] == s
  {
    var b := l[s];
    OfLengthAt(l, s);
    assert Sorted(l, b)[Rank(l, s)] == s;
    SortedPrefix(l, b, MAX_BITS);
    assert Sorted(l, MAX_BITS)[Rank(l, s)] == Sorted(l, MAX_BITS)[..|Sorted(l, b)|][Rank(l, s)];
  }

  // ---- Kraft's inequality makes every code fit its length ----------------------------------

  lemma {:induction false} WeightStep(l: seq<nat>, b: nat)
    ensures Weight(l, b + 1) == 2 * Weight(l, b) + Count(l, b + 1)
  {
    if l != [] {
      WeightStep(l[..|l| - 1], b);
    }
  }

  lemma {:induction false} WeightZero(l: seq<nat>)
    ensures Weight(l, 0) == 0
  {
    if l != [] {
      WeightZero(l[..|l| - 1]);
    }
  }

  /** The canonical codes use up exactly the share of the code space that Kraft's sum says. */
  lemma {:induction false} BeyondIsWeight(l: seq<nat>, b: nat)
    requires b <= MAX_BITS
    ensures Beyond(Counts(l), b) == Weight(l, b)
  {
    if b == 0 {
      WeightZero(l);
    } else {
      BeyondIsWeight(l, b - 1);
      WeightStep(l, b - 1);
    }
  }

  lemma {:induction false} BeyondGrowth(count: seq<nat>, a: nat, b: nat)
    requires |count| == MAX_BITS + 1 && a < b <= MAX_BITS
    ensures First(count, b) >= Pow2(b - a) * Beyond(count, a)
  {
    if a + 1 == b {
      assert Pow2(1) == 2;
    } else {
      BeyondGrowth(count, a, b - 1);
      var p, v := Pow2(b - 1 - a), Beyond(count, a);
      assert Pow2(b - a) * v == 2 * (p * v) by {
        assert Pow2(b - a) == 2 * p;
        DoubleProduct(p, v);
      }
    }
  }

  lemma MulCancel(k: nat, x: int, y: int)
    requires k >= 1 && k * x <= k * y
    ensures x <= y
  {
    if x > y {
      MulLe(k, y + 1, x);
    }
  }

  lemma BeyondFits(l: seq<nat>, b: nat)
    requires Kraft(l) && b <= MAX_BITS
    ensures Beyond(Counts(l), b) <= Pow2(b)
  {
    var count := Counts(l);
    BeyondIsWeight(l, MAX_BITS);
    if b < MAX_BITS {
      var k := Pow2(MAX_BITS - b);
      BeyondGrowth(count, b, MAX_BITS);
      Pow2Add(MAX_BITS - b, b);
      assert First(count, MAX_BITS) <= Beyond(count, MAX_BITS);
      MulCancel(k, Beyond(count, b), Pow2(b));
    }
  }

  /** Under Kraft's inequality every canonical code fits its length. */
  lemma CodeFits(l: seq<nat>, s: nat)
    requires Kraft(l) && s < |l| && 1 <= l[s] <= MAX_BITS
    ensures Code(l, s) < Pow2(l[s])
  {
    CountBelow(l, s);
    BeyondFits(l, l[s]);
  }

  // ---- bit strings with the most significant bit first --------------------------------------

  lemma {:induction false} MsbBound(s: seq<bool>)
    ensures MsbValue(s) < Pow2(|s|)
  {
    if s != [] {
      MsbBound(s[..|s| - 1]);
    }
  }

  lemma {:induction false} MsbConcat(a: seq<bool>, b: seq<bool>)
    ensures MsbValue(a + b) == Pow2(|b|) * MsbValue(a) + MsbValue(b)
  {
    if b == [] {
      assert a + b == a;
    } else {
      var t := b[..|b| - 1];
      assert (a + b)[..|a + b| - 1] == a + t;
      MsbConcat(a, t);
      var p, v := Pow2(|t|), MsbValue(a);
      assert Pow2(|b|) * v == 2 * (p * v) by {
        assert Pow2(|b|) == 2 * p;
        DoubleProduct(p, v);
      }
    }
  }

  lemma {:induction false} MsbOfDigits(v: nat, n: nat)
    requires v < Pow2(n)
    ensures MsbValue(MsbDigits(v, n)) == v
  {
    if n != 0 {
      MsbOfDigits(v / 2, n - 1);
      assert MsbDigits(v, n)[..n - 1] == MsbDigits(v / 2, n - 1);
    }
  }

  lemma {:induction false} DigitsOfMsb(s: seq<bool>)
    ensures MsbDigits(MsbValue(s), |s|) == s
  {
    if s != [] {
      DigitsOfMsb(s[..|s| - 1]);
    }
  }

  // ---- the decoder inverts the canonical code ------------------------------------------------

  /** The number that the `n` bits from position `p` on make as a code. */
  ghost function Read(bits: seq<bool>, p: nat, n: nat): nat
    requires p + n <= |bits|
  {
    MsbValue(bits[p..p + n])
  }

  lemma NextBit(bits: seq<bool>, p: nat, n: nat)
    requires p + n < |bits|
    ensures Read(bits, p, n + 1) == 2 * Read(bits, p, n) + ReadBits(bits, p + n, 1).value
  {
    var s := bits[p..p + n + 1];
    assert s[..|s| - 1] == bits[p..p + n];
    assert bits[p + n..p + n + 1] == [bits[p + n]];
  }

  /** `len - 1` bits have been read without a match. */
  ghost predicate Pending(bits: seq<bool>, p: nat, count: seq<nat>, len: nat) {
    && |count| == MAX_BITS + 1
    && 1 <= len <= MAX_BITS
    && p + len <= |bits|
    && First(count, len) <= 2 * Read(bits, p, len - 1)
  }

  ghost function LoopFrom(bits: seq<bool>, p: nat, count: seq<nat>, len: nat): Found
    requires Pending(bits, p, count, len)
  {
    RankFrom(bits, p + len - 1, count, len, 2 * Read(bits, p, len - 1), First(count, len), Shorter(count, len))
  }

  /** The last `n`-bit code read is a code of that length: what the loop answers then. */
  ghost function HitAt(bits: seq<bool>, p: nat, count: seq<nat>, n: nat): Found
    requires |count| == MAX_BITS + 1 && 1 <= n <= MAX_BITS && p + n <= |bits|
    requires First(count, n) <= Read(bits, p, n)
  {
    Hit(Shorter(count, n) + (Read(bits, p, n) - First(count, n)), p + n)
  }

  lemma LoopAccept(bits: seq<bool>, p: nat, count: seq<nat>, len: nat)
    requires Pending(bits, p, count, len) && Read(bits, p, len) < Beyond(count, len)
    ensures First(count, len) <= Read(bits, p, len)
    ensures LoopFrom(bits, p, count, len) == HitAt(bits, p, count, len)
  {
    NextBit(bits, p, len - 1);
  }

  lemma PassState(bits: seq<bool>, p: nat, count: seq<nat>, len: nat)
    requires Pending(bits, p, count, len) && Beyond(count, len) <= Read(bits, p, len)
    requires len < MAX_BITS && p + len < |bits|
    ensures Pending(bits, p, count, len + 1)
    ensures var code := 2 * Read(bits, p, len - 1) + ReadBits(bits, p + len - 1, 1).value;
            && First(count, len) + count[len] <= code
            && 2 * Read(bits, p, len) == 2 * code
            && First(count, len + 1) == 2 * (First(count, len) + count[len])
            && Shorter(count, len + 1) == Shorter(count, len) + count[len]
  {
    NextBit(bits, p, len - 1);
  }

  lemma LoopPass(bits: seq<bool>, p: nat, count: seq<nat>, len: nat)
    requires Pending(bits, p, count, len) && Beyond(count, len) <= Read(bits, p, len)
    requires len < MAX_BITS && p + len < |bits|
    ensures Pending(bits, p, count, len + 1)
    ensures LoopFrom(bits, p, count, len) == LoopFrom(bits, p, count, len + 1)
  {
    PassState(bits, p, count, len);
  }

  lemma LoopFail(bits: seq<bool>, p: nat, count: seq<nat>, len: nat)
    requires Pending(bits, p, count, len) && Beyond(count, len) <= Read(bits, p, len)
    requires len == MAX_BITS || p + len == |bits|
    ensures LoopFrom(bits, p, count, len).Miss? || LoopFrom(bits, p, count, len).at == |bits|
  {
    NextBit(bits, p, len - 1);
  }

  lemma LoopStart(bits: seq<bool>, p: nat, count: seq<nat>)
    requires p < |bits| && |count| == MAX_BITS + 1
    ensures Pending(bits, p, count, 1) && LoopFrom(bits, p, count, 1) == DecodeRank(bits, p, count)
  {
    assert bits[p..p] == [];
  }

  /** The decoding loop passes over every length whose codes are all below the bits read. */
  lemma {:induction false} LoopHit(bits: seq<bool>, p: nat, count: seq<nat>, len: nat, n: nat)
    requires Pending(bits, p, count, len) && len <= n <= MAX_BITS && p + n <= |bits|
    requires First(count, n) <= Read(bits, p, n) < Beyond(count, n)
    requires forall i :: len <= i < n ==> Beyond(count, i) <= Read(bits, p, i)
    ensures LoopFrom(bits, p, count, len) == HitAt(bits, p, count, n)
    decreases n - len
  {
    if len < n {
      LoopPass(bits, p, count, len);
      LoopHit(bits, p, count, len + 1, n);
    } else {
      LoopAccept(bits, p, count, len);
    }
  }

  lemma ScaledBound(k: nat, b: nat, v: nat, r: nat)
    requires r < k && k * b <= k * v + r
    ensures b <= v
  {
    if b > v {
      MulLe(k, v + 1, b);
    }
  }

  lemma PrefixBeyond(count: seq<nat>, n: nat, i: nat, c: seq<bool>)
    requires |count| == MAX_BITS + 1 && 1 <= i < n <= MAX_BITS && |c| == n && First(count, n) <= MsbValue(c)
    ensures Beyond(count, i) <= MsbValue(c[..i])
  {
    assert c == c[..i] + c[i..];
    MsbConcat(c[..i], c[i..]);
    MsbBound(c[i..]);
    BeyondGrowth(count, i, n);
    ScaledBound(Pow2(n - i), Beyond(count, i), MsbValue(c[..i]), MsbValue(c[i..]));
  }

  lemma ReadHit(bits: seq<bool>, p: nat, count: seq<nat>, n: nat)
    requires |count| == MAX_BITS + 1 && 1 <= n <= MAX_BITS && p + n <= |bits|
    requires First(count, n) <= Read(bits, p, n) < Beyond(count, n)
    ensures DecodeRank(bits, p, count) == HitAt(bits, p, count, n)
  {
    forall i | 1 <= i < n
      ensures Beyond(count, i) <= Read(bits, p, i)
    {
      assert bits[p..p + i] == bits[p..p + n][..i];
      PrefixBeyond(count, n, i, bits[p..p + n]);
    }
    LoopStart(bits, p, count);
    LoopHit(bits, p, count, 1, n);
  }

  lemma CodeRange(l: seq<nat>, s: nat)
    requires s < |l| && 1 <= l[s] <= MAX_BITS
    ensures First(Counts(l), l[s]) <= Code(l, s) < Beyond(Counts(l), l[s])
    ensures Rank(l, s) == Shorter(Counts(l), l[s]) + (Code(l, s) - First(Counts(l), l[s]))
  {
    CountBelow(l, s);
    ShorterSorted(l, l[s]);
  }

  lemma ReadOfCode(l: seq<nat>, s: nat, bits: seq<bool>, p: nat)
    requires Kraft(l) && s < |l| && 1 <= l[s] <= MAX_BITS
    requires p + l[s] <= |bits| && bits[p..p + l[s]] == CodeBits(l, s)
    ensures Read(bits, p, l[s]) == Code(l, s)
  {
    CodeFits(l, s);
    MsbOfDigits(Code(l, s), l[s]);
  }

  /** Decoding the code of a symbol, whatever bits follow it, yields the symbol's rank and consumes
      exactly the code. */
  lemma DecodeRankOfCode(l: seq<nat>, s: nat, bits: seq<bool>, p: nat)
    requires Kraft(l) && s < |l| && 1 <= l[s] <= MAX_BITS
    requires p + l[s] <= |bits| && bits[p..p + l[s]] == CodeBits(l, s)
    ensures DecodeRank(bits, p, Counts(l)) == Hit(Rank(l, s), p + l[s])
  {
    var count, n := Counts(l), l[s];
    CodeRange(l, s);
    ReadOfCode(l, s, bits, p);
    ReadHit(bits, p, count, n);
  }

  lemma {:induction false} LoopSound(bits: seq<bool>, p: nat, count: seq<nat>, len: nat) returns (n: nat)
    requires Pending(bits, p, count, len)
    requires LoopFrom(bits, p, count, len).Hit? && LoopFrom(bits, p, count, len).at < |bits|
    ensures 1 <= n <= MAX_BITS && p + n <= |bits|
    ensures First(count, n) <= Read(bits, p, n) < Beyond(count, n)
    ensures LoopFrom(bits, p, count, len) == HitAt(bits, p, count, n)
    decreases MAX_BITS - len
  {
    if Read(bits, p, len) < Beyond(count, len) {
      LoopAccept(bits, p, count, len);
      n := len;
    } else {
      if len == MAX_BITS || p + len == |bits| {
        LoopFail(bits, p, count, len);
        assert false;
      }
      LoopPass(bits, p, count, len);
      n := LoopSound(bits, p, count, len + 1);
    }
  }

  lemma RankInside(l: seq<nat>, bits: seq<bool>, p: nat) returns (s: nat)
    requires p < |bits|
    requires DecodeRank(bits, p, Counts(l)).Hit? && DecodeRank(bits, p, Counts(l)).at < |bits|
    ensures s < |l| && 1 <= l[s] <= MAX_BITS && p + l[s] <= |bits|
    ensures bits[p..p + l[s]] == CodeBits(l, s)
    ensures DecodeRank(bits, p, Counts(l)) == Hit(Rank(l, s), p + l[s])
  {
    hide RankFrom, DecodeRank, Read, First, Beyond, Shorter, Sorted, Count, CodeBits, LoopFrom;
    var count := Counts(l);
    LoopStart(bits, p, count);
    var n := LoopSound(bits, p, count, 1);
    s := SymbolOfRead(l, bits, p, n);
    CodeRange(l, s);
  }

  lemma SymbolOfRead(l: seq<nat>, bits: seq<bool>, p: nat, n: nat) returns (s: nat)
    requires 1 <= n <= MAX_BITS && p + n <= |bits|
    requires First(Counts(l), n) <= Read(bits, p, n) < Beyond(Counts(l), n)
    ensures s < |l| && l[s] == n && Code(l, s) == Read(bits, p, n)
    ensures bits[p..p + n] == CodeBits(l, s)
  {
    var k := Read(bits, p, n) - First(Counts(l), n);
    OfLengthIs(l, n, k);
    s := OfLength(l, n)[k];
    DigitsOfMsb(bits[p..p + n]);
  }

  // ---- at the end of the input a decoder sees zeros -------------------------------------------------

  /** The bits, and more zeros behind them than a code is long. */
  ghost function ThenZeros(bits: seq<bool>): (r: seq<bool>)
    ensures |r| == |bits| + MAX_BITS + 1
  {
    bits + seq(MAX_BITS + 1, (_: nat) => false)
  }

  lemma ReadsZero(bits: seq<bool>, p: nat)
    requires p < |ThenZeros(bits)|
    ensures ReadBits(ThenZeros(bits), p, 1).value == if p < |bits| then ReadBits(bits, p, 1).value else 0
    ensures ReadBits(ThenZeros(bits), p, 1).at == p + 1
  {
    var all := ThenZeros(bits);
    assert all[p..p + 1] == [all[p]];
    if p < |bits| {
      assert bits[p..p + 1] == [bits[p]];
    }
  }

  /** Where a position behind the end is really. */
  function Within(p: nat, n: nat): nat {
    if p < n then p else n
  }

  /** The same rank, and the same position as far as there is input. */
  ghost predicate Agree(r: Found, z: Found, n: nat) {
    && (r.Hit? <==> z.Hit?) && (r.Hit? ==> r.rank == z.rank)
    && r.at == Within(z.at, n) && z.at <= n + MAX_BITS
  }

  lemma RankLast(bits: seq<bool>, p: nat, count: seq<nat>, code: nat, first: nat, index: nat)
    requires p <= |bits| && |count| == MAX_BITS + 1 && first <= code
    ensures RankFrom(bits, p, count, MAX_BITS + 1, code, first, index) == Miss(p)
  {
  }

  lemma RankStep(bits: seq<bool>, p: nat, count: seq<nat>, len: nat, code: nat, first: nat, index: nat)
    requires p <= |bits| && |count| == MAX_BITS + 1 && 1 <= len <= MAX_BITS && first <= code
    ensures var bit := ReadBits(bits, p, 1);
            var c, next := code + bit.value, first + count[len];
            RankFrom(bits, p, count, len, code, first, index)
            == if c < next then Hit(index + (c - first), bit.at)
               else RankFrom(bits, bit.at, count, len + 1, 2 * c, 2 * next, index + count[len])
  {
    hide ReadBits;
  }

  /** Zeros behind the input change nothing but the position at which a code ends. */
  lemma {:induction false} ZerosBehind(bits: seq<bool>, all: seq<bool>, p: nat, q: nat, count: seq<nat>, len: nat,
                                       code: nat, first: nat, index: nat)
    requires |count| == MAX_BITS + 1 && 1 <= len <= MAX_BITS + 1 && first <= code
    requires all == ThenZeros(bits) && p + 1 <= |bits| + len && q == Within(p, |bits|)
    ensures Agree(RankFrom(bits, q, count, len, code, first, index),
                  RankFrom(all, p, count, len, code, first, index), |bits|)
    decreases MAX_BITS + 1 - len
  {
    hide ThenZeros, RankFrom;
    if len > MAX_BITS {
      RankLast(bits, q, count, code, first, index);
      RankLast(all, p, count, code, first, index);
    } else {
      ReadsZero(bits, p);
      PastEnd(bits, q);
      RankStep(bits, q, count, len, code, first, index);
      RankStep(all, p, count, len, code, first, index);
      hide ReadBits;
      var c, next := code + ReadBits(all, p, 1).value, first + count[len];
      if c >= next {
        ZerosBehind(bits, all, p + 1, Within(q + 1, |bits|), count, len + 1, 2 * c, 2 * next, index + count[len]);
      }
    }
  }

  lemma PastEnd(bits: seq<bool>, p: nat)
    requires p <= |bits|
    ensures ReadBits(bits, p, 1).at == Within(p + 1, |bits|)
    ensures p == |bits| ==> ReadBits(bits, p, 1).value == 0
  {
  }

  /** Conversely, whenever the decoder finds a rank, what it consumed is the code of the symbol with that
      rank; if the input ended before, the code goes on with zeros. */
  lemma DecodeRankSound(l: seq<nat>, bits: seq<bool>, p: nat) returns (s: nat)
    requires p <= |bits| && DecodeRank(bits, p, Counts(l)).Hit?
    ensures s < |l| && 1 <= l[s] <= MAX_BITS
    ensures p + l[s] < |ThenZeros(bits)| && ThenZeros(bits)[p..p + l[s]] == CodeBits(l, s)
    ensures DecodeRank(bits, p, Counts(l)) == Hit(Rank(l, s), Within(p + l[s], |bits|))
  {
    hide RankFrom, ThenZeros, CodeBits, Rank, Counts;
    ZerosBehind(bits, ThenZeros(bits), p, p, Counts(l), 1, 0, 0, 0);
    s := RankInside(l, ThenZeros(bits), p);
  }

  // ---- tables ---------------------------------------------------------------------------------

  /** Where the builder puts the first symbol: the code starts at count[0], RFC 1951 means 0. */
  datatype Layout = AsWritten | Intended

  /** inf_huff_build, as a function of the lengths and of what the symbol array held before. */
  function Built(l: seq<nat>, stale: seq<nat>, layout: Layout): (t: Table)
    requires IsLengths(l) && |stale| == MAX_SYMBOLS
    ensures t.Valid()
  {
    var zeros := Count(l, 0);
    var base := if layout == AsWritten then zeros else 0;
    TotalCount(l);
    SumCounts(l, 1); AtLeastStep(l, 0); SumCounts(l, 0);
    Table(Counts(l),
          if zeros == |l| then stale
          else stale[..base] + Sorted(l, MAX_BITS) + stale[base + |l| - zeros..])
  }

  /** The table answers every rank with the symbol of that rank. */
  ghost predicate Faithful(t: Table, l: seq<nat>) {
    && t.Valid()
    && t.count == Counts(l)
    && |Sorted(l, MAX_BITS)| <= MAX_SYMBOLS
    && t.symbol[..|Sorted(l, MAX_BITS)|] == Sorted(l, MAX_BITS)
  }

  /** A faithful table decodes every code of its length vector to the right symbol. */
  lemma DecodeOfCode(l: seq<nat>, s: nat, t: Table, bits: seq<bool>, p: nat)
    requires Faithful(t, l) && Kraft(l) && s < |l| && 1 <= l[s] <= MAX_BITS
    requires p + l[s] <= |bits| && bits[p..p + l[s]] == CodeBits(l, s)
    ensures Decode(bits, p, t) == Symbol(s, p + l[s])
  {
    DecodeRankOfCode(l, s, bits, p);
    SortedAtRank(l, s);
    assert t.symbol[Rank(l, s)] == t.symbol[..|Sorted(l, MAX_BITS)|][Rank(l, s)];
  }

  predicate HasNoZero(l: seq<nat>) {
    Count(l, 0) == 0
  }

  lemma BuiltFaithful(l: seq<nat>, stale: seq<nat>, layout: Layout)
    requires IsLengths(l) && |stale| == MAX_SYMBOLS && (layout == Intended || HasNoZero(l))
    ensures Faithful(Built(l, stale, layout), l)
  {
    TotalCount(l);
  }

  /** A symbol array that makes the table as written wrong. */
  lemma StaleSymbols(l: seq<nat>) returns (bad: seq<nat>)
    requires IsLengths(l) && 0 < Count(l, 0) < |l|
    ensures |bad| == MAX_SYMBOLS && !Faithful(Built(l, bad, AsWritten), l)
  {
    TotalCount(l);
    var sorted := Sorted(l, MAX_BITS);
    bad := seq(MAX_SYMBOLS, (_: nat) => sorted[0] + 1);
    var t := Built(l, bad, AsWritten);
    assert t.symbol[..|sorted|][0] == t.symbol[0] == bad[0];
  }

  /** The builder as written is right, whatever the symbol array held before, exactly when no length
      is zero (or all are, and there is nothing to decode). */
  lemma BuildFaithfulIff(l: seq<nat>)
    requires IsLengths(l)
    ensures (forall stale: seq<nat> | |stale| == MAX_SYMBOLS :: Faithful(Built(l, stale, AsWritten), l))
            <==> Count(l, 0) == 0 || Count(l, 0) == |l|
  {
    if Count(l, 0) == 0 {
      forall stale: seq<nat> | |stale| == MAX_SYMBOLS
        ensures Faithful(Built(l, stale, AsWritten), l)
      {
        BuiltFaithful(l, stale, AsWritten);
      }
    } else if Count(l, 0) == |l| {
      forall stale: seq<nat> | |stale| == MAX_SYMBOLS
        ensures Faithful(Built(l, stale, AsWritten), l)
      {
        NothingToDecode(l, stale);
      }
    } else {
      var bad := StaleSymbols(l);
    }
  }

  /** The symbol at a position of the order has that position as its rank. */
  lemma {:induction false} RankOfSorted(l: seq<nat>, b: nat, i: nat)
    requires b <= MAX_BITS && i < |Sorted(l, b)|
    ensures var s := Sorted(l, b)[i]; s < |l| && 1 <= l[s] <= b && Rank(l, s) == i
    decreases b
  {
    if b > 0 {
      var shorter := Sorted(l, b - 1);
      if i < |shorter| {
        RankOfSorted(l, b - 1, i);
      } else {
        RankOfLongest(l, b, i - |shorter|);
      }
    }
  }

  lemma RankOfLongest(l: seq<nat>, b: nat, k: nat)
    requires 1 <= b <= MAX_BITS && k < Count(l, b)
    ensures |OfLength(l, b)| == Count(l, b)
    ensures var s := OfLength(l, b)[k]; s < |l| && l[s] == b && Rank(l, s) == |Sorted(l, b - 1)| + k
  {
    hide Sorted;
    OfLengthIs(l, b, k);
  }

  /** A symbol decodes to itself, whatever the symbol array held before, exactly when no length is zero. */
  lemma SymbolRightIff(l: seq<nat>, s: nat)
    requires IsLengths(l) && Kraft(l) && s < |l| && 1 <= l[s] <= MAX_BITS
    ensures (forall stale: seq<nat> | |stale| == MAX_SYMBOLS ::
               Decode(CodeBits(l, s), 0, Built(l, stale, AsWritten)) == Symbol(s, l[s]))
            <==> Count(l, 0) == 0
  {
    hide CodeBits, Kraft, Decode, Built, Rank;
    var bits := CodeBits(l, s);
    CodeLength(l, s);
    assert bits[0..0 + l[s]] == bits;
    if Count(l, 0) == 0 {
      forall stale: seq<nat> | |stale| == MAX_SYMBOLS
        ensures Decode(bits, 0, Built(l, stale, AsWritten)) == Symbol(s, l[s])
      {
        BuiltFaithful(l, stale, AsWritten);
        DecodeOfCode(l, s, Built(l, stale, AsWritten), bits, 0);
      }
    } else {
      WrongFor(l, s, bits, 0);
      var stale := Filled(s + 1);
      assert Decode(bits, 0, Built(l, stale, AsWritten)).sym != s;
    }
  }

  lemma CodeLength(l: seq<nat>, s: nat)
    requires s < |l| && l[s] <= MAX_BITS
    ensures |CodeBits(l, s)| == l[s]
  {
  }

  /** Memory that holds the same symbol everywhere. */
  function Filled(v: nat): (r: seq<nat>)
    ensures |r| == MAX_SYMBOLS && forall i :: 0 <= i < MAX_SYMBOLS ==> r[i] == v
  {
    seq(MAX_SYMBOLS, (_: nat) => v)
  }

  /** What the table as written answers to the code of a symbol: what memory held in the slot of its rank, or
      the symbol of a smaller rank. */
  lemma AnswerAsWritten(l: seq<nat>, s: nat, v: nat, bits: seq<bool>, p: nat)
    requires IsLengths(l) && Kraft(l) && s < |l| && 1 <= l[s] <= MAX_BITS
    requires p + l[s] <= |bits| && bits[p..p + l[s]] == CodeBits(l, s)
    ensures Rank(l, s) < |Sorted(l, MAX_BITS)|
    ensures var zeros, r := Count(l, 0), Rank(l, s);
            Decode(bits, p, Built(l, Filled(v), AsWritten)).sym
            == if r < zeros then v else Sorted(l, MAX_BITS)[r - zeros]
  {
    hide CodeBits, Kraft, Rank, Sorted, DecodeRank, Count, Total;
    DecodeRankOfCode(l, s, bits, p);
    SortedAtRank(l, s);
    TotalCount(l);
  }

  /** Some memory makes the symbol come out wrong: its slot is not written, or holds another symbol. */
  lemma WrongFor(l: seq<nat>, s: nat, bits: seq<bool>, p: nat)
    requires IsLengths(l) && Kraft(l) && s < |l| && 1 <= l[s] <= MAX_BITS && Count(l, 0) > 0
    requires p + l[s] <= |bits| && bits[p..p + l[s]] == CodeBits(l, s)
    ensures Decode(bits, p, Built(l, Filled(s + 1), AsWritten)).sym != s
  {
    hide CodeBits, Kraft, Rank, Sorted, Decode, Count, Built;
    AnswerAsWritten(l, s, s + 1, bits, p);
    var zeros, r := Count(l, 0), Rank(l, s);
    if r >= zeros {
      RankOfSorted(l, MAX_BITS, r - zeros);
    }
  }

  /** The first symbol in order that is at most `limit`. */
  lemma FirstUpTo(l: seq<nat>, limit: nat, s: nat) returns (f: nat)
    requires s <= limit && s < |l| && 1 <= l[s] <= MAX_BITS
    ensures f <= limit && f < |l| && 1 <= l[f] <= MAX_BITS && Rank(l, f) < |Sorted(l, MAX_BITS)|
    ensures forall r :: 0 <= r < Rank(l, f) ==> Sorted(l, MAX_BITS)[r] > limit
  {
    hide Rank, Sorted;
    SortedAtRank(l, s);
    var sorted, r := Sorted(l, MAX_BITS), 0;
    while sorted[r] > limit
      invariant r <= Rank(l, s) && forall k :: 0 <= k < r ==> sorted[k] > limit
      decreases Rank(l, s) - r
    {
      r := r + 1;
    }
    f := sorted[r];
    RankOfSorted(l, MAX_BITS, r);
  }

  /** If some length is zero, some memory makes that one come out too large. */
  lemma TooLargeFor(l: seq<nat>, limit: nat, f: nat, bits: seq<bool>, p: nat)
    requires IsLengths(l) && Kraft(l) && f < |l| && 1 <= l[f] <= MAX_BITS && Count(l, 0) > 0
    requires Rank(l, f) < |Sorted(l, MAX_BITS)|
    requires forall r :: 0 <= r < Rank(l, f) ==> Sorted(l, MAX_BITS)[r] > limit
    requires p + l[f] <= |bits| && bits[p..p + l[f]] == CodeBits(l, f)
    ensures Decode(bits, p, Built(l, Filled(limit + 1), AsWritten)).sym > limit
  {
    hide CodeBits, Kraft, Rank, Sorted, Decode, Count, Built;
    AnswerAsWritten(l, f, limit + 1, bits, p);
  }

  /** For instance, with the lengths 0, 1, 1 the code 1 of symbol 2 is decoded to symbol 1. */
  lemma MisplacedSymbol(l: seq<nat>, stale: seq<nat>)
    requires l == [0, 1, 1] && |stale| == MAX_SYMBOLS
    ensures IsLengths(l) && Kraft(l) && CodeBits(l, 2) == [true]
    ensures Decode([true], 0, Built(l, stale, AsWritten)) == Symbol(1, 1)
    ensures Decode([true], 0, Built(l, stale, Intended)) == Symbol(2, 1)
  {
    ExampleLengths(l);
    hide IsLengths;
    ExampleTables(l, stale, Built(l, stale, AsWritten), Built(l, stale, Intended));
  }

  lemma ExampleTables(l: seq<nat>, stale: seq<nat>, written: Table, intended: Table)
    requires l == [0, 1, 1] && |stale| == MAX_SYMBOLS
    requires written == Built(l, stale, AsWritten) && intended == Built(l, stale, Intended)
    ensures Decode([true], 0, written) == Symbol(1, 1) && Decode([true], 0, intended) == Symbol(2, 1)
  {
    ExampleLengths(l);
    hide Weight, Kraft, CodeBits, Code, Rank, Sorted, Count, DecodeRank;
    SortedAtRank(l, 1);
    SortedAtRank(l, 2);
    ExampleRank(l, [true]);
  }

  lemma ExampleRank(l: seq<nat>, bits: seq<bool>)
    requires l == [0, 1, 1] && bits == [true]
    ensures DecodeRank(bits, 0, Counts(l)) == Hit(1, 1)
  {
    ExampleLengths(l);
    hide *;
    assert bits[0..1] == bits;
    DecodeRankOfCode(l, 2, bits, 0);
  }

  lemma ExampleLengths(l: seq<nat>)
    requires l == [0, 1, 1]
    ensures IsLengths(l) && CodeBits(l, 2) == [true] && Count(l, 0) == 1
    ensures Rank(l, 1) == 0 && Rank(l, 2) == 1 && Kraft(l)
  {
    assert l[..2] == [0, 1] && l[..1] == [0];
    assert [0, 1][..1] == [0] && [0][..0] == [];
    assert Weight([0], MAX_BITS) == 0;
    assert Weight([0, 1], MAX_BITS) == Pow2(14);
  }

  lemma NothingToDecode(l: seq<nat>, stale: seq<nat>)
    requires IsLengths(l) && |stale| == MAX_SYMBOLS && Count(l, 0) == |l|
    ensures Faithful(Built(l, stale, AsWritten), l)
  {
    TotalCount(l);
    assert Sorted(l, MAX_BITS) == [];
  }
}
