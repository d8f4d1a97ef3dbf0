// The code table of the inflater (struct inflate_huff_t): a counting sort over arrays and the
// bit-serial decoding loop.

module HuffTable {
  import opened BitReader
  import opened Huffman

  /** Where the symbols of length `b` start when the first one goes to slot count[0]. */
  ghost function Start(l: seq<nat>, b: nat): nat
    requires b >= 1
  {
    Count(l, 0) + |Sorted(l, b - 1)|
  }

  /** The slots of length-`b` symbols end where those of longer symbols start. */
  lemma {:induction false} StartMono(l: seq<nat>, b: nat, c: nat)
    requires 1 <= b < c
    ensures Start(l, b) + Count(l, b) <= Start(l, c)
  {
    if b + 1 < c {
      StartMono(l, b, c - 1);
    }
  }

  lemma StartBound(l: seq<nat>, b: nat)
    requires IsLengths(l) && 1 <= b <= MAX_BITS
    ensures Start(l, b) + Count(l, b) <= |l|
  {
    TotalCount(l);
    SortedPrefix(l, b, MAX_BITS);
  }

  /** Symbols below `i` of length `b` are in their slots, in order. */
  ghost predicate PlacedAt(sym: seq<nat>, l: seq<nat>, i: nat, b: nat)
    requires i <= |l| && b >= 1
  {
    && Start(l, b) + Count(l[..i], b) <= |sym|
    && sym[Start(l, b)..Start(l, b) + Count(l[..i], b)] == OfLength(l[..i], b)
  }

  /** The state of the placement loop: every symbol below `i` is placed, nothing outside the slots
      [count[0], nsyms) has changed. */
  ghost predicate Placed(sym: seq<nat>, stale: seq<nat>, l: seq<nat>, i: nat)
    requires i <= |l| <= MAX_SYMBOLS
  {
    && |sym| == |stale| == MAX_SYMBOLS
    && (forall b :: 1 <= b <= MAX_BITS ==> PlacedAt(sym, l, i, b))
    && sym[..Count(l, 0)] == stale[..Count(l, 0)]
    && sym[|l|..] == stale[|l|..]
  }

  lemma PlaceOther(sym: seq<nat>, l: seq<nat>, i: nat, b: nat)
    requires IsLengths(l) && i < |l| && |sym| == MAX_SYMBOLS && 1 <= l[i] && 1 <= b <= MAX_BITS && b != l[i]
    requires Start(l, l[i]) + Count(l[..i], l[i]) < |sym| && PlacedAt(sym, l, i, b)
    ensures PlacedAt(sym[Start(l, l[i]) + Count(l[..i], l[i]) := i], l, i + 1, b)
  {
    var a, x := l[i], Start(l, l[i]) + Count(l[..i], l[i]);
    assert l[..i + 1][..i] == l[..i];
    CountBelow(l, i);
    CountPrefix(l, i, |l|, b);
    assert l[..|l|] == l;
    if a < b { StartMono(l, a, b); } else { StartMono(l, b, a); }
    var sym' := sym[x := i];
    assert x < Start(l, b) || x >= Start(l, b) + Count(l[..i], b);
    assert sym'[Start(l, b)..Start(l, b) + Count(l[..i], b)] == sym[Start(l, b)..Start(l, b) + Count(l[..i], b)];
  }

  lemma PlaceSame(sym: seq<nat>, l: seq<nat>, i: nat)
    requires IsLengths(l) && i < |l| && |sym| == MAX_SYMBOLS && 1 <= l[i]
    requires Start(l, l[i]) + Count(l[..i], l[i]) < |sym| && PlacedAt(sym, l, i, l[i])
    ensures PlacedAt(sym[Start(l, l[i]) + Count(l[..i], l[i]) := i], l, i + 1, l[i])
  {
    var a, x := l[i], Start(l, l[i]) + Count(l[..i], l[i]);
    assert l[..i + 1][..i] == l[..i];
    var sym' := sym[x := i];
    assert sym'[Start(l, a)..x + 1] == sym[Start(l, a)..x] + [i];
  }

  lemma PlaceNone(sym: seq<nat>, l: seq<nat>)
    requires IsLengths(l) && |sym| == MAX_SYMBOLS
    ensures Placed(sym, sym, l, 0)
  {
    var none := 0;
    assert l[..none] == [];
    forall b | 1 <= b <= MAX_BITS
      ensures PlacedAt(sym, l, none, b)
    {
      StartBound(l, b);
    }
  }

  lemma PlaceSkip(sym: seq<nat>, stale: seq<nat>, l: seq<nat>, i: nat)
    requires IsLengths(l) && i < |l| && Placed(sym, stale, l, i) && l[i] == 0
    ensures Placed(sym, stale, l, i + 1)
  {
    var j := i + 1;
    assert l[..j][..i] == l[..i];
    forall b | 1 <= b <= MAX_BITS
      ensures PlacedAt(sym, l, j, b)
    {
      assert PlacedAt(sym, l, i, b);
    }
  }

  lemma SlotRange(l: seq<nat>, i: nat)
    requires IsLengths(l) && i < |l| && 1 <= l[i]
    ensures Count(l, 0) <= Start(l, l[i]) + Count(l[..i], l[i]) < |l|
  {
    StartBound(l, l[i]);
    CountBelow(l, i);
  }

  /** One turn of the placement loop: the write is in bounds and hits the next free slot. */
  lemma PlaceStep(sym: seq<nat>, stale: seq<nat>, l: seq<nat>, i: nat, sym': seq<nat>)
    requires IsLengths(l) && i < |l| && 1 <= l[i] && Placed(sym, stale, l, i)
    requires Start(l, l[i]) + Count(l[..i], l[i]) < |sym|
    requires sym' == sym[Start(l, l[i]) + Count(l[..i], l[i]) := i]
    ensures Placed(sym', stale, l, i + 1)
  {
    SlotRange(l, i);
    var j := i + 1;
    forall b | 1 <= b <= MAX_BITS
      ensures PlacedAt(sym', l, j, b)
    {
      assert PlacedAt(sym, l, i, b);
      if b == l[i] { PlaceSame(sym, l, i); } else { PlaceOther(sym, l, i, b); }
    }
    assert sym'[..Count(l, 0)] == sym[..Count(l, 0)];
    assert sym'[|l|..] == sym[|l|..];
  }

  lemma Glue(s: seq<nat>, i: nat, j: nat, k: nat, x: seq<nat>, y: seq<nat>)
    requires i <= j <= k <= |s| && s[i..j] == x && s[j..k] == y
    ensures s[i..k] == x + y
  {
  }

  lemma Assemble(s: seq<nat>, m: nat, n: nat)
    requires m <= n <= |s|
    ensures s == s[..m] + s[m..n] + s[n..]
  {
  }

  lemma PlacedLast(sym: seq<nat>, l: seq<nat>, b: nat)
    requires IsLengths(l) && |sym| == MAX_SYMBOLS && 1 <= b <= MAX_BITS && PlacedAt(sym, l, |l|, b)
    ensures Start(l, b) + Count(l, b) <= |l| && sym[Start(l, b)..Start(l, b) + Count(l, b)] == OfLength(l, b)
  {
    hide Count, OfLength, Sorted, Start;
    StartBound(l, b);
    assert l[..|l|] == l;
  }

  lemma {:induction false} PlacedSorted(sym: seq<nat>, l: seq<nat>, b: nat)
    requires IsLengths(l) && |sym| == MAX_SYMBOLS && b <= MAX_BITS
    requires forall c :: 1 <= c <= b ==> PlacedAt(sym, l, |l|, c)
    ensures Count(l, 0) + |Sorted(l, b)| <= |l|
    ensures sym[Count(l, 0)..Count(l, 0) + |Sorted(l, b)|] == Sorted(l, b)
  {
    if b == 0 {
      assert sym[Count(l, 0)..Count(l, 0)] == [];
    } else {
      hide Count, OfLength, PlacedAt;
      PlacedSorted(sym, l, b - 1);
      PlacedLast(sym, l, b);
      Glue(sym, Count(l, 0), Start(l, b), Start(l, b) + Count(l, b), Sorted(l, b - 1), OfLength(l, b));
    }
  }

  lemma PlacedAll(sym: seq<nat>, stale: seq<nat>, l: seq<nat>)
    requires IsLengths(l) && Placed(sym, stale, l, |l|) && Count(l, 0) < |l|
    ensures Table(Counts(l), sym) == Built(l, stale, AsWritten)
  {
    hide Count, Sorted, PlacedAt;
    TotalCount(l);
    PlacedSorted(sym, l, MAX_BITS);
    Assemble(sym, Count(l, 0), |l|);
  }

  lemma {:induction false} CountOf(l: seq<nat>, i: nat, b: nat)
    requires i < |l|
    ensures Count(l[..i + 1], b) == Count(l[..i], b) + (if l[i] == b then 1 else 0)
  {
    assert l[..i + 1][..i] == l[..i];
  }

  lemma RankNext(bits: seq<bool>, count: seq<nat>, p: nat, len: nat, code: nat, first: nat, index: nat,
                 bit: Field, code': nat, first': nat, len': nat, index': nat)
    requires p <= |bits| && |count| == MAX_BITS + 1 && 1 <= len <= MAX_BITS && first <= code
    requires bit == ReadBits(bits, p, 1) && code + bit.value >= first + count[len]
    requires code' == 2 * (code + bit.value) && first' == 2 * (first + count[len])
    requires len' == len + 1 && index' == index + count[len]
    ensures RankFrom(bits, p, count, len, code, first, index)
            == RankFrom(bits, bit.at, count, len', code', first', index')
  {
  }

  /** The decoding loop, about to try code length `len`, still has the answer for position `p0` ahead. */
  ghost predicate Trying(bits: seq<bool>, count: seq<nat>, p0: nat, p: nat, len: nat, code: nat, first: nat,
                         index: nat) {
    && |count| == MAX_BITS + 1 && p0 <= |bits| && p <= |bits|
    && 1 <= len <= MAX_BITS + 1 && first <= code
    && index + Total(count, len) <= MAX_SYMBOLS
    && DecodeRank(bits, p0, count) == RankFrom(bits, p, count, len, code, first, index)
  }

  lemma TryHit(bits: seq<bool>, count: seq<nat>, p0: nat, p: nat, len: nat, code: nat, first: nat, index: nat)
    requires Trying(bits, count, p0, p, len, code, first, index) && len <= MAX_BITS
    requires code + ReadBits(bits, p, 1).value < first + count[len]
    ensures var bit := ReadBits(bits, p, 1);
            var rank := index + (code + bit.value - first);
            rank < MAX_SYMBOLS && DecodeRank(bits, p0, count) == Hit(rank, bit.at)
  {
    assert Total(count, len) == count[len] + Total(count, len + 1);
  }

  lemma TryNext(bits: seq<bool>, count: seq<nat>, p0: nat, p: nat, len: nat, code: nat, first: nat, index: nat,
                code': nat, first': nat, index': nat)
    requires Trying(bits, count, p0, p, len, code, first, index) && len <= MAX_BITS
    requires code + ReadBits(bits, p, 1).value >= first + count[len]
    requires code' == 2 * (code + ReadBits(bits, p, 1).value) && first' == 2 * (first + count[len])
    requires index' == index + count[len]
    ensures Trying(bits, count, p0, ReadBits(bits, p, 1).at, len + 1, code', first', index')
  {
    assert Total(count, len) == count[len] + Total(count, len + 1);
    RankNext(bits, count, p, len, code, first, index, ReadBits(bits, p, 1), code', first', len + 1, index');
  }

  class InflateHuff {
    const count: array<nat>
    const symbol: array<nat>

    ghost predicate Valid() {
      count.Length == MAX_BITS + 1 && symbol.Length == MAX_SYMBOLS && count != symbol
    }

    ghost function Contents(): Table
      reads this, count, symbol
    {
      Table(count[..], symbol[..])
    }

    /** A table in uninitialised storage. */
    constructor ()
      ensures Valid() && fresh(count) && fresh(symbol)
    {
      count := new nat[MAX_BITS + 1];
      symbol := new nat[MAX_SYMBOLS];
    }

    /** The first two loops of inf_huff_build: how many symbols have each length. */
    method CountLengths(lengths: seq<nat>)
      requires Valid() && IsLengths(lengths)
      modifies count
      ensures count[..] == Counts(lengths)
    {
      for i := 0 to MAX_BITS + 1
        invariant forall b :: 0 <= b < i ==> count[b] == 0
      {
        count[i] := 0;
      }
      assert lengths[..0] == [];
      for i := 0 to |lengths|
        invariant forall b :: 0 <= b <= MAX_BITS ==> count[b] == Count(lengths[..i], b)
      {
        forall b | 0 <= b <= MAX_BITS {
          CountOf(lengths, i, b);
        }
        count[lengths[i]] := count[lengths[i]] + 1;
      }
      assert lengths[..|lengths|] == lengths;
    }

    /** The third loop: where each length starts. */
    method Offsets(ghost lengths: seq<nat>) returns (offsets: array<nat>)
      requires Valid() && count[..] == Counts(lengths)
      ensures fresh(offsets) && offsets.Length == MAX_BITS + 1
      ensures forall b :: 1 <= b <= MAX_BITS ==> offsets[b] == Start(lengths, b)
    {
      offsets := new nat[MAX_BITS + 1];
      offsets[0] := 0;
      for i := 1 to MAX_BITS + 1
        invariant offsets[0] == 0
        invariant forall b :: 1 <= b < i ==> offsets[b] == Start(lengths, b)
      {
        assert count[..][i - 1] == Count(lengths, i - 1);
        offsets[i] := offsets[i - 1] + count[i - 1];
      }
    }

    /** The last loop: every symbol that has a code goes to the next slot of its length. */
    method Place(lengths: seq<nat>, offsets: array<nat>)
      requires Valid() && IsLengths(lengths)
      requires offsets.Length == MAX_BITS + 1 && offsets != symbol && offsets != count
      requires forall b :: 1 <= b <= MAX_BITS ==> offsets[b] == Start(lengths, b)
      modifies symbol, offsets
      ensures Placed(symbol[..], old(symbol[..]), lengths, |lengths|)
    {
      PlaceNone(symbol[..], lengths);
      assert lengths[..0] == [];
      for i := 0 to |lengths|
        invariant forall b :: 1 <= b <= MAX_BITS ==> offsets[b] == Start(lengths, b) + Count(lengths[..i], b)
        invariant Placed(symbol[..], old(symbol[..]), lengths, i)
      {
        forall b | 1 <= b <= MAX_BITS {
          CountOf(lengths, i, b);
        }
        if lengths[i] != 0 {
          SlotRange(lengths, i);
          ghost var before := symbol[..];
          symbol[offsets[lengths[i]]] := i;
          offsets[lengths[i]] := offsets[lengths[i]] + 1;
          PlaceStep(before, old(symbol[..]), lengths, i, symbol[..]);
        } else {
          PlaceSkip(symbol[..], old(symbol[..]), lengths, i);
        }
      }
    }

    /** inf_huff_build: a stable counting sort of the symbols that have a code. */
    method Build(lengths: seq<nat>)
      requires Valid() && IsLengths(lengths)
      modifies count, symbol
      ensures Contents() == Built(lengths, old(symbol[..]), AsWritten)
    {
      CountLengths(lengths);
      assert count[..][0] == Count(lengths, 0);
      if count[0] == |lengths| {
        return;
      }
      var offsets := Offsets(lengths);
      Place(lengths, offsets);
      PlacedAll(symbol[..], old(symbol[..]), lengths);
    }

    /** inf_huff_decode: one bit at a time, most significant bit of the code first. The low bit of
        `code` is clear when the next bit is put in. */
    method DecodeSymbol(b: InflateBits) returns (sym: int)
      requires Valid() && Contents().Valid() && b.Valid()
      modifies b
      ensures b.Valid()
      ensures Symbol(sym, b.P()) == Decode(b.Bits(), old(b.P()), Contents())
    {
      var code: nat, first: nat, index: nat := 0, 0, 0;
      ghost var counts, bits, p := count[..], b.Bits(), b.P();
      for len := 1 to MAX_BITS + 1
        invariant b.Valid() && Trying(bits, counts, p, b.P(), len, code, first, index)
      {
        ghost var q, was, first0, index0 := b.P(), code, first, index;
        var bit := b.Read(1);
        code := code + bit;
        var cnt := count[len];
        if code < first + cnt {
          TryHit(bits, counts, p, q, len, was, first, index);
          return symbol[index + (code - first)];
        }
        index := index + cnt;
        first := 2 * (first + cnt);
        code := 2 * code;
        TryNext(bits, counts, p, q, len, was, first0, index0, code, first, index);
      }
      return -1;
    }
  }
}
