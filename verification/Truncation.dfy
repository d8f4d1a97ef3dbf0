// What the inflater does when its input runs out: reads past the end yield zero bits without
// consuming anything, so the symbol loop may repeat itself. When it does, and when it cannot.

module Truncation {
  import opened Bits
  import opened BitReader
  import opened Huffman
  import opened Deflate
  import opened DeflateRoundTrip
  import opened Inflate

  // ---- at the end of the input ----------------------------------------------------------------

  /** Zero bits walk down to the first code there is, so past the end of the input every table with a code
      yields its first symbol. */
  lemma {:induction false} ZerosDecode(bits: seq<bool>, count: seq<nat>, len: nat)
    requires |count| == MAX_BITS + 1 && 1 <= len <= MAX_BITS + 1
    ensures RankFrom(bits, |bits|, count, len, 0, 0, 0)
            == if Total(count, len) > 0 then Hit(0, |bits|) else Miss(|bits|)
    decreases MAX_BITS + 1 - len
  {
    if len <= MAX_BITS {
      ZerosDecode(bits, count, len + 1);
    }
  }

  lemma DecodeAtEnd(bits: seq<bool>, t: Table)
    requires t.Valid()
    ensures Decode(bits, |bits|, t) == Symbol(if Total(t.count, 1) > 0 then t.symbol[0] else -1, |bits|)
  {
    ZerosDecode(bits, t.count, 1);
  }

  /** The code tables with which the symbol loop repeats itself at the end of the input: the first
      literal/length symbol is a literal, or a match length and the first distance symbol is a distance. */
  predicate Sticks(lit: Table, dist: Table)
    requires lit.Valid() && dist.Valid()
  {
    && Total(lit.count, 1) > 0
    && (|| lit.symbol[0] < 256
        || (257 <= lit.symbol[0] <= 285 && Total(dist.count, 1) > 0 && dist.symbol[0] <= 29))
  }

  lemma TurnAtEnd(bits: seq<bool>, lit: Table, dist: Table, out: seq<byte>)
    requires lit.Valid() && dist.Valid()
    ensures var t := SymbolTurn(bits, |bits|, lit, dist, out);
            (t.More? <==> Sticks(lit, dist)) && (t.More? ==> t.at == |bits|)
  {
    hide Decode, CopyOf, Total;
    DecodeAtEnd(bits, lit);
    DecodeAtEnd(bits, dist);
  }

  /** Once the input is used up, the symbol loop never ends exactly for these tables. */
  lemma StuckIff(bits: seq<bool>, lit: Table, dist: Table, out: seq<byte>)
    requires lit.Valid() && dist.Valid()
    ensures Codes(bits, |bits|, lit, dist, out).Endless? <==> Sticks(lit, dist)
  {
    hide SymbolTurn, Sticks;
    TurnAtEnd(bits, lit, dist, out);
  }

  /** From `p` on the symbols last until the input is used up, without an end of block or an error. */
  ghost predicate UsesUp(bits: seq<bool>, p: nat, lit: Table, dist: Table)
    requires p <= |bits| && lit.Valid() && dist.Valid()
    decreases |bits| - p
  {
    p == |bits|
    || (var t := SymbolTurn(bits, p, lit, dist, []);
        TurnProgress(bits, p, lit, dist, []);
        t.More? && UsesUp(bits, t.at, lit, dist))
  }

  /** The symbol loop never ends exactly if it uses up the input and then repeats itself. */
  lemma {:induction false} EndlessIff(bits: seq<bool>, p: nat, lit: Table, dist: Table, out: seq<byte>)
    requires p <= |bits| && lit.Valid() && dist.Valid()
    ensures Codes(bits, p, lit, dist, out).Endless? <==> UsesUp(bits, p, lit, dist) && Sticks(lit, dist)
    decreases |bits| - p
  {
    hide SymbolTurn, Sticks;
    if p == |bits| {
      StuckIff(bits, lit, dist, out);
    } else {
      TurnIgnoresOutput(bits, p, lit, dist, out, []);
      var t := SymbolTurn(bits, p, lit, dist, out);
      if t.More? {
        TurnProgress(bits, p, lit, dist, out);
        EndlessIff(bits, t.at, lit, dist, t.out);
      }
    }
  }

  // ---- never means never --------------------------------------------------------------------------

  /** From the end of the input on, every turn emits something and none consumes anything. */
  lemma {:induction false} TurnsRepeat(bits: seq<bool>, lit: Table, dist: Table, out: seq<byte>, n: nat)
    requires lit.Valid() && dist.Valid() && Sticks(lit, dist)
    ensures var t := Turns(bits, |bits|, lit, dist, out, n);
            t.More? && t.at == |bits| && |t.out| >= |out| + n
    decreases n
  {
    hide SymbolTurn, Sticks;
    if n > 0 {
      TurnAtEnd(bits, lit, dist, out);
      var t := SymbolTurn(bits, |bits|, lit, dist, out);
      TurnsRepeat(bits, lit, dist, t.out, n - 1);
    }
  }

  lemma {:induction false} EndlessGoesOn(bits: seq<bool>, p: nat, lit: Table, dist: Table, out: seq<byte>, n: nat)
    requires p <= |bits| && lit.Valid() && dist.Valid() && Codes(bits, p, lit, dist, out).Endless?
    ensures Turns(bits, p, lit, dist, out, n).More?
    decreases n
  {
    hide SymbolTurn, Sticks;
    if p == |bits| {
      StuckIff(bits, lit, dist, out);
      TurnsRepeat(bits, lit, dist, out, n);
    } else if n > 0 {
      TurnProgress(bits, p, lit, dist, out);
      var t := SymbolTurn(bits, p, lit, dist, out);
      EndlessGoesOn(bits, t.at, lit, dist, t.out, n - 1);
    }
  }

  /** Otherwise the loop ends after some number of turns. */
  lemma {:induction false} EndsAfter(bits: seq<bool>, p: nat, lit: Table, dist: Table, out: seq<byte>) returns (n: nat)
    requires p <= |bits| && lit.Valid() && dist.Valid() && !Codes(bits, p, lit, dist, out).Endless?
    ensures !Turns(bits, p, lit, dist, out, n).More?
    decreases |bits| - p
  {
    hide SymbolTurn;
    var t := SymbolTurn(bits, p, lit, dist, out);
    n := 1;
    if t.More? {
      var k := EndsAfter(bits, t.at, lit, dist, t.out);
      n := k + 1;
    }
  }

  /** The loop is called endless exactly if it goes on after every number of turns. */
  lemma EndlessIsForever(bits: seq<bool>, p: nat, lit: Table, dist: Table, out: seq<byte>)
    requires p <= |bits| && lit.Valid() && dist.Valid()
    ensures Codes(bits, p, lit, dist, out).Endless? <==> forall n: nat :: Turns(bits, p, lit, dist, out, n).More?
  {
    hide Turns, Codes;
    if Codes(bits, p, lit, dist, out).Endless? {
      forall n: nat
        ensures Turns(bits, p, lit, dist, out, n).More?
      {
        EndlessGoesOn(bits, p, lit, dist, out, n);
      }
    } else {
      var n := EndsAfter(bits, p, lit, dist, out);
    }
  }

  // ---- fixed blocks always end ------------------------------------------------------------

  lemma {:induction false} FixedShort(n: nat, b: nat)
    requires n <= 288 && 1 <= b <= 7
    ensures Count(FixedLit()[..n], b) == if b == 7 && n > 256 then (if n <= 280 then n - 256 else 24) else 0
  {
    if n != 0 {
      FixedShort(n - 1, b);
      assert FixedLit()[..n][..n - 1] == FixedLit()[..n - 1];
    }
  }

  lemma FixedCounts(b: nat)
    requires 1 <= b <= 7
    ensures Counts(FixedLit())[b] == if b == 7 then 24 else 0
  {
    FixedShort(288, b);
    assert FixedLit()[..288] == FixedLit();
  }

  /** Past the end of the input, the fixed code reads as the end of the block. */
  lemma FixedEnd(bits: seq<bool>, stale: seq<nat>, layout: Layout)
    requires |stale| == MAX_SYMBOLS
    ensures Decode(bits, |bits|, Built(FixedLit(), stale, layout)) == Symbol(256, |bits|)
    ensures Built(FixedLit(), stale, layout).symbol[0] == 256
  {
    hide Built, Sorted, Weight, Total, Decode;
    var l := FixedLit();
    FixedCodes();
    BuiltFaithful(l, stale, layout);
    FirstFixed();
    var t := Built(l, stale, layout);
    assert t.symbol[0] == t.symbol[..|Sorted(l, MAX_BITS)|][0];
    FixedTotal();
    DecodeAtEnd(bits, t);
  }

  lemma FixedTotal()
    ensures Total(Counts(FixedLit()), 1) > 0
  {
    FixedCounts(7);
    TotalAt(Counts(FixedLit()), 1, 7);
  }

  lemma {:induction false} TotalAt(count: seq<nat>, a: nat, b: nat)
    requires |count| == MAX_BITS + 1 && a <= b <= MAX_BITS
    ensures Total(count, a) >= count[b]
    decreases b - a
  {
    if a < b {
      TotalAt(count, a + 1, b);
    }
  }

  lemma FirstFixed()
    ensures |Sorted(FixedLit(), MAX_BITS)| > 0 && Sorted(FixedLit(), MAX_BITS)[0] == 256
  {
    var l := FixedLit();
    FixedShort(256, 7);
    ShortSorted(6);
    SortedAtRank(l, 256);
  }

  lemma {:induction false} ShortSorted(b: nat)
    requires b <= 6
    ensures Sorted(FixedLit(), b) == []
  {
    if b != 0 {
      ShortSorted(b - 1);
      FixedShort(288, b);
      assert FixedLit()[..288] == FixedLit();
    }
  }

  /** However the input is cut off, a block that is not dynamic is read to an end: only dynamic blocks can
      keep the decompressor from returning. */
  lemma OnlyDynamicSticks(src: seq<byte>, p: nat, btype: nat, mem: Memory, out: seq<byte>, layout: Layout)
    requires p <= 8 * |src| && mem.Valid() && btype != 2
    ensures !BlockBody(src, p, btype, mem, out, layout).step.Endless?
  {
    hide SrcBits, Built, Codes, FixedLit, FixedDist;
    if btype == 1 {
      var bits, t := SrcBits(src), FixedTrees(p, mem, layout);
      EndlessIff(bits, p, t.lit, t.dist, out);
      FixedEnd(bits, mem.lit, layout);
    }
  }

  // ---- the whole stream -----------------------------------------------------------------------------

  /** A block that never ends: a dynamic one whose tables can be built, whose symbols use up the input, and
      whose tables repeat themselves then. */
  ghost predicate BodySticks(src: seq<byte>, p: nat, btype: nat, mem: Memory, layout: Layout)
    requires p <= 8 * |src| && mem.Valid()
  {
    var t := DynamicTrees(SrcBits(src), p, mem, layout);
    btype == 2 && t.Trees? && UsesUp(SrcBits(src), t.at, t.lit, t.dist) && Sticks(t.lit, t.dist)
  }

  lemma BodySticksIff(src: seq<byte>, p: nat, btype: nat, mem: Memory, out: seq<byte>, layout: Layout)
    requires p <= 8 * |src| && mem.Valid()
    ensures BlockBody(src, p, btype, mem, out, layout).step.Endless? <==> BodySticks(src, p, btype, mem, layout)
  {
    hide SrcBits, Codes, FixedTrees, DynamicTrees, UsesUp, Sticks;
    if btype == 2 {
      var t := DynamicTrees(SrcBits(src), p, mem, layout);
      if t.Trees? {
        EndlessIff(SrcBits(src), t.at, t.lit, t.dist, out);
      }
    } else {
      OnlyDynamicSticks(src, p, btype, mem, out, layout);
    }
  }

  /** The blocks from `p` on come to one that never ends. */
  ghost predicate ReachesStuckBlock(src: seq<byte>, p: nat, mem: Memory, layout: Layout)
    requires p <= 8 * |src| && mem.Valid()
    decreases 8 * |src| - p
  {
    var final := ReadBits(SrcBits(src), p, 1);
    var btype := ReadBits(SrcBits(src), final.at, 2);
    var b := BlockBody(src, btype.at, btype.value, mem, [], layout);
    || BodySticks(src, btype.at, btype.value, mem, layout)
    || (b.step.Next? && final.value == 0 && ReachesStuckBlock(src, b.step.at, b.mem, layout))
  }

  lemma {:induction false} CodesIgnoreOutput(bits: seq<bool>, p: nat, lit: Table, dist: Table, a: seq<byte>,
                                             b: seq<byte>)
    requires p <= |bits| && lit.Valid() && dist.Valid()
    ensures var s, t := Codes(bits, p, lit, dist, a), Codes(bits, p, lit, dist, b);
            (s.Next? <==> t.Next?) && (s.Next? ==> s.at == t.at)
    decreases |bits| - p
  {
    hide SymbolTurn;
    TurnIgnoresOutput(bits, p, lit, dist, a, b);
    var s, t := SymbolTurn(bits, p, lit, dist, a), SymbolTurn(bits, p, lit, dist, b);
    if s.More? && s.at > p {
      CodesIgnoreOutput(bits, s.at, lit, dist, s.out, t.out);
    }
  }

  lemma BodyIgnoresOutput(src: seq<byte>, p: nat, btype: nat, mem: Memory, a: seq<byte>, b: seq<byte>, layout: Layout)
    requires p <= 8 * |src| && mem.Valid()
    ensures var s, t := BlockBody(src, p, btype, mem, a, layout), BlockBody(src, p, btype, mem, b, layout);
            s.mem == t.mem && (s.step.Next? <==> t.step.Next?) && (s.step.Next? ==> s.step.at == t.step.at)
  {
    hide SrcBits, Codes, FixedTrees, DynamicTrees;
    var bits := SrcBits(src);
    if btype == 1 {
      var t := FixedTrees(p, mem, layout);
      CodesIgnoreOutput(bits, t.at, t.lit, t.dist, a, b);
    } else if btype == 2 {
      var t := DynamicTrees(bits, p, mem, layout);
      if t.Trees? {
        CodesIgnoreOutput(bits, t.at, t.lit, t.dist, a, b);
      }
    }
  }

  /** The decompressor does not return exactly if it comes to such a block. */
  lemma {:induction false} NeverEndsIff(src: seq<byte>, p: nat, mem: Memory, out: seq<byte>, layout: Layout)
    requires p <= 8 * |src| && mem.Valid()
    ensures Blocks(src, p, mem, out, layout).NeverEnds? <==> ReachesStuckBlock(src, p, mem, layout)
    decreases 8 * |src| - p
  {
    hide SrcBits, BlockBody, BodySticks, Value;
    var final := ReadBits(SrcBits(src), p, 1);
    var btype := ReadBits(SrcBits(src), final.at, 2);
    BodySticksIff(src, btype.at, btype.value, mem, out, layout);
    BodyIgnoresOutput(src, btype.at, btype.value, mem, out, [], layout);
    var b := BlockBody(src, btype.at, btype.value, mem, out, layout);
    if b.step.Next? && final.value == 0 {
      NeverEndsIff(src, b.step.at, b.mem, b.step.out, layout);
    }
  }

  // ---- a stream that is cut off ---------------------------------------------------------------------

  /** A dynamic block up to the end of its code lengths, without any symbol. */
  ghost function CutBits(h: DynHeader, final: bool): seq<bool> {
    [final] + (Digits(2, 2) + (HeaderBits(h) + OpsBits(h.ops, h.cl)))
  }

  /** A source that ends there keeps the decompressor from returning exactly if the two tables repeat
      themselves. `m` is what the code tables hold when they are built. */
  lemma CutOff(src: seq<byte>, p: nat, h: DynHeader, final: bool, mem: Memory, out: seq<byte>, layout: Layout)
    returns (m: Memory)
    requires mem.Valid() && OpsCodable(h.ops, h.cl) && OpsMake([], h.ops, h.lens) && Buildable(h.cl, layout)
    requires At(SrcBits(src), p, CutBits(h, final)) && p + |CutBits(h, final)| == 8 * |src|
    ensures m.Valid()
    ensures Blocks(src, p, mem, out, layout).NeverEnds?
      <==> Sticks(Built(LitLengths(h), m.lit, layout), Built(DistLengths(h), m.dist, layout))
  {
    hide At, HeaderBits, OpsBits, OpsMake, OpsCodable, Buildable, SrcBits, Sticks, Built, Blocks, BlockBody,
      LitLengths, DistLengths;
    BlockHeader(SrcBits(src), p, final, 2, HeaderBits(h) + OpsBits(h.ops, h.cl));
    m := CutBody(src, p + 3, h, mem, out, layout);
    OneBlock(src, p, p + 3, final, 2, mem, out, layout);
  }

  lemma CutBody(src: seq<byte>, q: nat, h: DynHeader, mem: Memory, out: seq<byte>, layout: Layout) returns (m: Memory)
    requires mem.Valid() && OpsCodable(h.ops, h.cl) && OpsMake([], h.ops, h.lens) && Buildable(h.cl, layout)
    requires At(SrcBits(src), q, HeaderBits(h) + OpsBits(h.ops, h.cl))
    requires q + |HeaderBits(h) + OpsBits(h.ops, h.cl)| == 8 * |src|
    ensures m.Valid() && q <= 8 * |src|
    ensures var s := BlockBody(src, q, 2, mem, out, layout).step;
            && (s.Endless? <==> Sticks(Built(LitLengths(h), m.lit, layout), Built(DistLengths(h), m.dist, layout)))
            && (s.Next? ==> s.at == 8 * |src|)
  {
    hide At, HeaderBits, OpsBits, OpsMake, OpsCodable, Buildable, SrcBits, Sticks, Built, BlockBody, Codes,
      LitLengths, DistLengths;
    var lit, dist;
    m, lit, dist := CutStep(src, q, h, mem, out, layout);
    StuckIff(SrcBits(src), lit, dist, out);
  }

  lemma CutStep(src: seq<byte>, q: nat, h: DynHeader, mem: Memory, out: seq<byte>, layout: Layout)
    returns (m: Memory, lit: Table, dist: Table)
    requires mem.Valid() && OpsCodable(h.ops, h.cl) && OpsMake([], h.ops, h.lens) && Buildable(h.cl, layout)
    requires At(SrcBits(src), q, HeaderBits(h) + OpsBits(h.ops, h.cl))
    requires q + |HeaderBits(h) + OpsBits(h.ops, h.cl)| == 8 * |src|
    ensures m.Valid() && q <= 8 * |src|
    ensures lit == Built(LitLengths(h), m.lit, layout) && dist == Built(DistLengths(h), m.dist, layout)
    ensures BlockBody(src, q, 2, mem, out, layout).step == Codes(SrcBits(src), 8 * |src|, lit, dist, out)
  {
    hide At, HeaderBits, OpsBits, OpsMake, OpsCodable, Buildable, SrcBits, DynamicTrees, Built, BlockBody, Codes,
      TreesOf, LitLengths, DistLengths, Table.Valid;
    m := DynamicTreesOf(SrcBits(src), q, h, mem, layout);
    TreesAre(h, 8 * |src|, m, layout);
    lit, dist := Built(LitLengths(h), m.lit, layout), Built(DistLengths(h), m.dist, layout);
    BlockBodyKinds(src, q, mem, out, layout);
  }

  /** After the last block that can be read, the next one is bad. */
  lemma OneBlock(src: seq<byte>, p: nat, q: nat, final: bool, btype: nat, mem: Memory, out: seq<byte>, layout: Layout)
    requires p < q <= 8 * |src| && mem.Valid()
    requires ReadBits(SrcBits(src), p, 1) == Field(if final then 1 else 0, p + 1)
    requires ReadBits(SrcBits(src), p + 1, 2) == Field(btype, q)
    requires var s := BlockBody(src, q, btype, mem, out, layout).step; s.Next? ==> s.at == 8 * |src|
    ensures Blocks(src, p, mem, out, layout).NeverEnds? <==> BlockBody(src, q, btype, mem, out, layout).step.Endless?
  {
    hide BlockBody, SrcBits;
    var b := BlockBody(src, q, btype, mem, out, layout);
    if b.step.Next? && !final {
      NoBlockLeft(src, b.mem, b.step.out, layout);
    }
  }

  lemma NoBlockLeft(src: seq<byte>, mem: Memory, out: seq<byte>, layout: Layout)
    requires mem.Valid()
    ensures Blocks(src, 8 * |src|, mem, out, layout) == Failed(out)
  {
    hide SrcBits;
  }

  /** If every literal/length symbol has a code and the first one in order is a literal, the decompressor does
      not return, whatever the code tables held before. */
  lemma CutOffInLiterals(src: seq<byte>, p: nat, h: DynHeader, final: bool, mem: Memory, out: seq<byte>, layout: Layout)
    requires mem.Valid() && OpsCodable(h.ops, h.cl) && OpsMake([], h.ops, h.lens) && Buildable(h.cl, layout)
    requires At(SrcBits(src), p, CutBits(h, final)) && p + |CutBits(h, final)| == 8 * |src|
    requires HasNoZero(LitLengths(h)) && |Sorted(LitLengths(h), MAX_BITS)| > 0
             && Sorted(LitLengths(h), MAX_BITS)[0] < 256
    ensures Blocks(src, p, mem, out, layout).NeverEnds?
  {
    hide At, CutBits, OpsMake, OpsCodable, Buildable, SrcBits, Blocks;
    var m := CutOff(src, p, h, final, mem, out, layout);
    var l := LitLengths(h);
    hide LitLengths;
    FirstSticks(l, m.lit, layout, Built(DistLengths(h), m.dist, layout));
  }

  lemma FirstSticks(l: seq<nat>, stale: seq<nat>, layout: Layout, dist: Table)
    requires IsLengths(l) && HasNoZero(l) && |stale| == MAX_SYMBOLS && dist.Valid()
    requires |Sorted(l, MAX_BITS)| > 0 && Sorted(l, MAX_BITS)[0] < 256
    ensures Sticks(Built(l, stale, layout), dist)
  {
    hide Sorted, Built;
    BuiltFaithful(l, stale, layout);
    var t := Built(l, stale, layout);
    assert t.symbol[0] == t.symbol[..|Sorted(l, MAX_BITS)|][0];
    TotalCount(l);
    SumCounts(l, 1);
    AtLeastStep(l, 0);
    SumCounts(l, 0);
  }

  // ---- an instance of 42 bytes ---------------------------------------------------------------------

  /** The code length code: six codes of five bits and thirteen of four. */
  ghost function SampleCode(): (r: seq<nat>)
    ensures |r| == CL_SYMBOLS && IsLengths(r)
  {
    seq(CL_SYMBOLS, (s: nat) => if s < 6 then 5 else 4)
  }

  ghost function Nines(n: nat): (r: seq<nat>)
    ensures |r| == n && forall i :: 0 <= i < n ==> r[i] == 9
  {
    seq(n, (_: nat) => 9)
  }

  ghost function SampleRuns(n: nat): (r: seq<LengthOp>)
    ensures |r| == n
  {
    assert Pow2(2) == 4;
    seq(n, (_: nat) => Again(3))
  }

  /** Every length is nine: the length itself, and 43 times six more of it. */
  ghost function Sample(): DynHeader {
    RawHeader(0, 0, 15, SampleCode(), [One(9)] + SampleRuns(43), Nines(258))
  }

  lemma {:induction false} SampleRunsMake(n: nat, done: nat)
    requires 1 <= done < 258 && done + 6 * n >= 258 > done + 6 * (n - 1)
    ensures OpsMake(Nines(done), SampleRuns(n), Nines(258))
    decreases n
  {
    var next := if done + 6 <= 258 then done + 6 else 258;
    FillNines(done, 6, 258);
    assert SampleRuns(n)[1..] == SampleRuns(n - 1);
    if n > 1 {
      SampleRunsMake(n - 1, next);
    }
  }

  lemma {:induction false} FillNines(done: nat, rep: nat, total: nat)
    requires done <= total
    ensures Fill(Nines(done), 9, rep, total) == Nines(if done + rep <= total then done + rep else total)
    decreases rep
  {
    if rep > 0 && done < total {
      assert Nines(done) + [9] == Nines(done + 1);
      FillNines(done + 1, rep - 1, total);
    }
  }

  lemma {:induction false} SampleRunsLength(n: nat)
    ensures |OpsBits(SampleRuns(n), SampleCode())| == 6 * n
    decreases n
  {
    if n > 0 {
      assert SampleRuns(n)[1..] == SampleRuns(n - 1);
      SampleRunsLength(n - 1);
    }
  }

  lemma {:induction false} ClBitsLength(cl: seq<nat>, i: nat, n: nat)
    requires |cl| == CL_SYMBOLS && i <= n <= CL_SYMBOLS
    ensures |ClBits(cl, i, n)| == 3 * (n - i)
    decreases n - i
  {
    if i < n {
      ClBitsLength(cl, i + 1, n);
    }
  }

  lemma SampleLength(final: bool)
    ensures |CutBits(Sample(), final)| == 336
  {
    hide ClBits, SampleCode, Nines;
    var h := Sample();
    ClBitsLength(h.cl, 0, 19);
    SampleOps();
    SampleRunsLength(43);
  }

  lemma SampleOps()
    ensures |OpsBits([One(9)] + SampleRuns(43), SampleCode())| == 4 + |OpsBits(SampleRuns(43), SampleCode())|
  {
    var ops := [One(9)] + SampleRuns(43);
    assert ops[1..] == SampleRuns(43);
  }

  lemma SampleCodable()
    ensures OpsCodable(Sample().ops, Sample().cl) && OpsMake([], Sample().ops, Sample().lens)
  {
    var ops := [One(9)] + SampleRuns(43);
    assert ops[1..] == SampleRuns(43);
    assert [] + [9] == Nines(1);
    SampleRunsMake(43, 1);
  }

  lemma SampleBuildable()
    ensures Buildable(SampleCode(), AsWritten)
  {
    SampleWeight(19);
    assert SampleCode()[..19] == SampleCode();
    assert Pow2(12) == 4096;
    assert Pow2(15) == 32768;
  }

  lemma {:induction false} SampleWeight(n: nat)
    requires n <= 19
    ensures Weight(SampleCode()[..n], MAX_BITS)
            == if n <= 6 then 1024 * n else 2048 * (n - 3)
    ensures Count(SampleCode()[..n], 0) == 0
  {
    if n > 0 {
      SampleWeight(n - 1);
      assert SampleCode()[..n][..n - 1] == SampleCode()[..n - 1];
      assert Pow2(10) == 1024;
      assert Pow2(11) == 2048;
    }
  }

  lemma SampleFirst()
    ensures HasNoZero(LitLengths(Sample())) && |Sorted(LitLengths(Sample()), MAX_BITS)| > 0
    ensures Sorted(LitLengths(Sample()), MAX_BITS)[0] == 0
  {
    var l := LitLengths(Sample());
    assert l == Nines(257);
    NinesSorted(257, 8);
    NinesCount(257, 0);
    assert l[..0] == [];
    SortedAtRank(l, 0);
  }

  lemma {:induction false} NinesCount(n: nat, b: nat)
    requires b < 9
    ensures Count(Nines(n), b) == 0
  {
    if n > 0 {
      assert Nines(n)[..n - 1] == Nines(n - 1);
      NinesCount(n - 1, b);
    }
  }

  lemma {:induction false} NinesSorted(n: nat, b: nat)
    requires b < 9
    ensures Sorted(Nines(n), b) == []
    decreases b
  {
    if b > 0 {
      NinesSorted(n, b - 1);
      NinesCount(n, b);
    }
  }

  /** There is a source of 42 bytes on which the decompressor never returns, whatever its code tables held. */
  lemma NeverReturnsOn42(final: bool) returns (src: seq<byte>)
    ensures |src| == 42
    ensures forall mem: Memory, out: seq<byte> :: mem.Valid() ==> Blocks(src, 0, mem, out, AsWritten).NeverEnds?
  {
    hide SrcBits, Blocks, Pack, CutBits, OpsCodable, OpsMake, Buildable, Sorted, LitLengths, Sample;
    var h, bits := Sample(), CutBits(Sample(), final);
    src := Pack(bits);
    SampleLength(final);
    PackBits(bits);
    PackLength(bits);
    SampleCodable();
    SampleIsBuildable();
    SampleFirst();
    assert SrcBits(src)[0..0 + |bits|] == bits;
    forall mem: Memory, out: seq<byte> | mem.Valid()
      ensures Blocks(src, 0, mem, out, AsWritten).NeverEnds?
    {
      CutOffInLiterals(src, 0, h, final, mem, out, AsWritten);
    }
  }

  lemma SampleIsBuildable()
    ensures Buildable(Sample().cl, AsWritten)
  {
    hide Buildable;
    SampleBuildable();
  }

  /** End to end: a call on a source that starts with the encoding of a list of blocks, with no failing
      write, appends exactly their expansion to the file, returns its length, and leaves the bit reader at
      the end of the final block, whatever the code tables held before. */
  lemma CallOnEncoded(src: seq<byte>, bs: seq<Block>, mem: Memory, answer: Answer, before: seq<byte>,
                      written: seq<byte>, at: int)
    requires mem.Valid() && bs != [] && FitAll(bs, 0, AsWritten) && At(SrcBits(src), 0, StreamBits(bs))
    requires Reports(SrcBits(src), StepOf(Blocks(src, 0, mem, [], AsWritten)), answer, before, written, at)
    ensures written == before + ExpandStream([], bs)
    ensures answer == Returns(ToLong(|ExpandStream([], bs)|)) && at == |StreamBits(bs)|
  {
    hide FitAll, At, StreamBits, ExpandStream, Blocks, SrcBits;
    RoundTrip(src, bs, 0, mem, [], AsWritten);
  }
}
