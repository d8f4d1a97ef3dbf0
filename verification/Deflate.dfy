// What inflate_to_fd computes, as a function of the source bytes: the DEFLATE format of RFC 1951 as
// this decoder reads it, including what it does with malformed and truncated input.

module Deflate {
  import opened Bits
  import opened BitReader
  import opened Huffman
  import opened Output

  /** The smallest length of each length symbol (257 + i), and how many extra bits follow it. */
  function LenBase(i: nat): nat
    requires i < 29
  {
    [3, 4, 5, 6, 7, 8, 9, 10, 11, 13, 15, 17, 19, 23, 27, 31,
     35, 43, 51, 59, 67, 83, 99, 115, 131, 163, 195, 227, 258][i]
  }

  function LenExtra(i: nat): nat
    requires i < 29
  {
    [0, 0, 0, 0, 0, 0, 0, 0, 1, 1, 1, 1, 2, 2, 2, 2,
     3, 3, 3, 3, 4, 4, 4, 4, 5, 5, 5, 5, 0][i]
  }

  /** The smallest distance of each distance symbol, and how many extra bits follow it. */
  function DistBase(i: nat): nat
    requires i < 30
  {
    [1, 2, 3, 4, 5, 7, 9, 13, 17, 25, 33, 49, 65, 97, 129, 193,
     257, 385, 513, 769, 1025, 1537, 2049, 3073, 4097, 6145, 8193, 12289, 16385, 24577][i]
  }

  function DistExtra(i: nat): nat
    requires i < 30
  {
    [0, 0, 0, 0, 1, 1, 2, 2, 3, 3, 4, 4, 5, 5, 6, 6,
     7, 7, 8, 8, 9, 9, 10, 10, 11, 11, 12, 12, 13, 13][i]
  }

  /** The order in which the code length code lengths are sent. */
  function ClOrder(i: nat): (r: nat)
    requires i < CL_SYMBOLS
    ensures r < CL_SYMBOLS
  {
    [16, 17, 18, 0, 8, 7, 9, 6, 10, 5, 11, 4, 12, 3, 13, 2, 14, 1, 15][i]
  }

  const CL_SYMBOLS := 19

  /** The code lengths of fixed blocks (RFC 1951 section 3.2.6). */
  function FixedLit(): (r: seq<nat>)
    ensures |r| == 288 && IsLengths(r)
  {
    seq(288, (i: nat) => if i <= 143 then 8 else if i <= 255 then 9 else if i <= 279 then 7 else 8)
  }

  function FixedDist(): (r: seq<nat>)
    ensures |r| == 32 && IsLengths(r)
  {
    seq(32, (_: nat) => 5)
  }

  /** The tables in closed form, section 3.2.5: from the fifth length symbol on four in turn, from the third
      distance symbol on two in turn have one extra bit more, and length 258 has a symbol of its own. */
  lemma LengthTable(i: nat)
    requires i < 29
    ensures LenExtra(i) == if i < 4 || i == 28 then 0 else (i - 4) / 4
    ensures LenBase(i) == if i < 4 then 3 + i else if i == 28 then 258 else 3 + (4 + i % 4) * Pow2((i - 4) / 4)
  {
    hide Pow2;
    Pow2Values();
    var q, r := i / 4, i % 4;
    assert i == 4 * q + r;
  }

  lemma DistanceTable(i: nat)
    requires i < 30
    ensures DistExtra(i) == if i < 2 then 0 else (i - 2) / 2
    ensures DistBase(i) == if i < 2 then 1 + i else 1 + (2 + i % 2) * Pow2((i - 2) / 2)
  {
    hide *;
    DistanceExtras(i);
    DistanceBases(i);
  }

  lemma DistanceExtras(i: nat)
    requires i < 30
    ensures DistExtra(i) == if i < 2 then 0 else (i - 2) / 2
  {
  }

  lemma DistanceBases(i: nat)
    requires i < 30
    ensures DistBase(i) == if i < 2 then 1 + i else 1 + (2 + i % 2) * Pow2((i - 2) / 2)
  {
    hide Pow2;
    Pow2Values();
    var q, r := i / 2, i % 2;
    assert i == 2 * q + r;
  }

  /** The order in which code lengths are sent, section 3.2.7: the three repetitions, then 0, then outwards from 8,
      above and below in turn. */
  lemma OrderTable(i: nat)
    requires i < 19
    ensures ClOrder(i) == if i < 3 then 16 + i else if i == 3 then 0 else if i % 2 == 0 then 6 + i / 2 else 9 - i / 2
  {
  }

  lemma ExtraRange(i: nat)
    ensures i < 29 ==> LenExtra(i) <= 5
    ensures i < 30 ==> DistExtra(i) <= 13
  {
  }

  lemma Pow2Values()
    ensures Pow2(0) == 1 && Pow2(1) == 2 && Pow2(2) == 4 && Pow2(3) == 8 && Pow2(4) == 16 && Pow2(5) == 32
    ensures Pow2(6) == 64 && Pow2(7) == 128 && Pow2(8) == 256 && Pow2(9) == 512 && Pow2(10) == 1024
    ensures Pow2(11) == 2048 && Pow2(12) == 4096 && Pow2(13) == 8192
  {
  }

  /** Every distance a code can express lies within the window. */
  lemma DistanceRange(i: nat)
    requires i < 30
    ensures 1 <= DistBase(i) && DistBase(i) + Pow2(DistExtra(i)) <= WINDOW + 1
  {
    Pow2Values();
  }

  // ---- compressed data --------------------------------------------------------------------

  /** One turn of the symbol loop: the end of the block, an error, or output and a new position. */
  datatype Turn = End(at: nat) | Bad | More(out: seq<byte>, at: nat)

  /** The output after the match with the given symbols and extra values. */
  function CopyOf(out: seq<byte>, li: nat, lenExtra: nat, di: nat, distExtra: nat): (r: seq<byte>)
    requires li < 29 && di < 30 && distExtra < Pow2(DistExtra(di))
    ensures |out| < |r|
  {
    DistanceRange(di);
    CopyGrows(out, LenBase(li) + lenExtra, DistBase(di) + distExtra);
    Copy(out, LenBase(li) + lenExtra, DistBase(di) + distExtra)
  }

  function MatchTurn(bits: seq<bool>, p: nat, li: nat, dist: Table, out: seq<byte>): (r: Turn)
    requires p <= |bits| && dist.Valid() && li < 29
    ensures r.More? ==> p <= r.at <= |bits| && |out| < |r.out|
    ensures !r.End?
  {
    var le := ReadBits(bits, p, LenExtra(li));
    var ds := Decode(bits, le.at, dist);
    if ds.sym < 0 || ds.sym > 29 then Bad
    else
      var de := ReadBits(bits, ds.at, DistExtra(ds.sym));
      More(CopyOf(out, li, le.value, ds.sym, de.value), de.at)
  }

  function SymbolTurn(bits: seq<bool>, p: nat, lit: Table, dist: Table, out: seq<byte>): (r: Turn)
    requires p <= |bits| && lit.Valid() && dist.Valid()
    ensures r.More? ==> p <= r.at <= |bits| && |out| < |r.out|
    ensures r.End? ==> p <= r.at <= |bits|
  {
    var s := Decode(bits, p, lit);
    if s.sym < 0 then Bad
    else if s.sym < 256 then More(out + [s.sym], s.at)
    else if s.sym == 256 then End(s.at)
    else if s.sym - 257 > 28 then Bad
    else MatchTurn(bits, s.at, s.sym - 257, dist, out)
  }

  /** Done with a block, an error return after `out` was emitted, or a loop that never ends and has emitted
      `out` after the first turn that consumes nothing; it goes on with the two code tables. */
  datatype Step =
    | Next(out: seq<byte>, at: nat)
    | Fail(out: seq<byte>)
    | Endless(out: seq<byte>, lit: Table, dist: Table)

  /** The symbol loop. A turn that consumes no bits leaves every variable that the next turn reads
      as it was, apart from the output, so the loop repeats it forever. */
  function Codes(bits: seq<bool>, p: nat, lit: Table, dist: Table, out: seq<byte>): (r: Step)
    requires p <= |bits| && lit.Valid() && dist.Valid()
    ensures r.Next? ==> p <= r.at <= |bits|
    ensures r.Endless? ==> r.lit.Valid() && r.dist.Valid()
    decreases |bits| - p
  {
    match SymbolTurn(bits, p, lit, dist, out)
    case End(at) => Next(out, at)
    case Bad => Fail(out)
    case More(out', at) => if at > p then Codes(bits, at, lit, dist, out') else Endless(out', lit, dist)
  }

  /** The state of the symbol loop after `n` turns, or how it has ended before. */
  ghost function Turns(bits: seq<bool>, p: nat, lit: Table, dist: Table, out: seq<byte>, n: nat): (r: Turn)
    requires p <= |bits| && lit.Valid() && dist.Valid()
    ensures r.More? ==> r.at <= |bits|
    decreases n
  {
    if n == 0 then More(out, p)
    else
      match SymbolTurn(bits, p, lit, dist, out)
      case More(out', at) => Turns(bits, at, lit, dist, out', n - 1)
      case end => end
  }

  lemma {:induction false} RankProgress(bits: seq<bool>, p: nat, count: seq<nat>, len: nat, code: nat, first: nat,
                                        index: nat)
    requires p < |bits| && |count| == MAX_BITS + 1 && 1 <= len <= MAX_BITS && first <= code
    ensures RankFrom(bits, p, count, len, code, first, index).at > p
  {
  }

  lemma DecodeProgress(bits: seq<bool>, p: nat, t: Table)
    requires p < |bits| && t.Valid()
    ensures Decode(bits, p, t).at > p
  {
    RankProgress(bits, p, t.count, 1, 0, 0, 0);
  }

  /** As long as there is input, every turn of the symbol loop consumes some. */
  lemma TurnProgress(bits: seq<bool>, p: nat, lit: Table, dist: Table, out: seq<byte>)
    requires p < |bits| && lit.Valid() && dist.Valid()
    ensures var t := SymbolTurn(bits, p, lit, dist, out); t.More? ==> t.at > p
  {
    hide Decode, ReadBits, CopyOf;
    DecodeProgress(bits, p, lit);
  }

  /** Whether a turn goes on does not depend on what has been emitted. */
  lemma TurnIgnoresOutput(bits: seq<bool>, p: nat, lit: Table, dist: Table, a: seq<byte>, b: seq<byte>)
    requires p <= |bits| && lit.Valid() && dist.Valid()
    ensures var s, t := SymbolTurn(bits, p, lit, dist, a), SymbolTurn(bits, p, lit, dist, b);
            && (s.More? <==> t.More?) && (s.Bad? <==> t.Bad?)
            && (!s.Bad? ==> s.at == t.at)
  {
    hide Decode, ReadBits, CopyOf;
  }

  /** One turn more. */
  lemma {:induction false} TurnMore(bits: seq<bool>, p: nat, lit: Table, dist: Table, out: seq<byte>, n: nat)
    requires p <= |bits| && lit.Valid() && dist.Valid() && Turns(bits, p, lit, dist, out, n).More?
    ensures var t := Turns(bits, p, lit, dist, out, n);
            Turns(bits, p, lit, dist, out, n + 1) == SymbolTurn(bits, t.at, lit, dist, t.out)
    decreases n
  {
    hide SymbolTurn;
    if n > 0 {
      var t := SymbolTurn(bits, p, lit, dist, out);
      TurnMore(bits, t.at, lit, dist, t.out, n - 1);
    }
  }

  /** `all` is what a step emits: in all or, if it does not end, up to some turn at the end of the input. */
  ghost predicate Emits(bits: seq<bool>, step: Step, all: seq<byte>) {
    match step
    case Endless(out, lit, dist) =>
      lit.Valid() && dist.Valid() && exists n: nat, at: nat :: Turns(bits, |bits|, lit, dist, out, n) == More(all, at)
    case _ => all == step.out
  }

  lemma EmitsOut(bits: seq<bool>, step: Step)
    requires step.Endless? ==> step.lit.Valid() && step.dist.Valid()
    ensures Emits(bits, step, step.out)
  {
    if step.Endless? {
      assert Turns(bits, |bits|, step.lit, step.dist, step.out, 0) == More(step.out, |bits|);
    }
  }

  /** A file that held `before` has got some of it. */
  ghost predicate PartOf(bits: seq<bool>, step: Step, before: seq<byte>, written: seq<byte>) {
    exists all: seq<byte> :: Emits(bits, step, all) && before <= written <= before + all
  }

  /** Part of what has been emitted at some time is part of what is emitted in all. */
  lemma PartOfMore(bits: seq<bool>, step: Step, before: seq<byte>, written: seq<byte>, some: seq<byte>)
    requires step.Endless? ==> step.lit.Valid() && step.dist.Valid()
    requires before <= written <= before + some && some <= step.out
    ensures PartOf(bits, step, before, written)
  {
    EmitsOut(bits, step);
    PrefixThrough(written, before, some, step.out);
  }

  // ---- stored blocks ------------------------------------------------------------------------

  function Stored(src: seq<byte>, p: nat, out: seq<byte>): (r: Step)
    requires p <= 8 * |src|
    ensures r.Next? ==> p + 32 <= r.at <= 8 * |src|
    ensures !r.Endless?
  {
    var pos := (p + 7) / 8;
    if pos + 4 > |src| then Fail(out)
    else
      var len: nat := (src[pos] as int) + 256 * (src[pos + 1] as int);
      if pos + 4 + len > |src| then Fail(out)
      else Next(out + src[pos + 4..pos + 4 + len], 8 * (pos + 4 + len))
  }

  // ---- dynamic block headers -------------------------------------------------------------------

  datatype Lengths = Lengths(cl: seq<nat>, at: nat)

  /** The code length code lengths, three bits each, in their transmission order. */
  function ClLengths(bits: seq<bool>, p: nat, i: nat, n: nat, cl: seq<nat>): (r: Lengths)
    requires p <= |bits| && i <= n <= 19 && |cl| == CL_SYMBOLS && IsLengths(cl)
    ensures p <= r.at <= |bits| && |r.cl| == CL_SYMBOLS && IsLengths(r.cl)
    decreases n - i
  {
    if i == n then Lengths(cl, p)
    else
      var v := ReadBits(bits, p, 3);
      assert Pow2(3) == 8;
      ClLengths(bits, v.at, i + 1, n, cl[ClOrder(i) := v.value])
  }

  /** `rep` copies of `v`, cut off where the array of lengths ends. */
  function Fill(done: seq<nat>, v: nat, rep: nat, total: nat): (r: seq<nat>)
    requires |done| <= total && v <= MAX_BITS && AllSmall(done)
    ensures |r| == (if |done| + rep <= total then |done| + rep else total)
    ensures AllSmall(r)
    decreases rep
  {
    if rep == 0 || |done| == total then done else Fill(done + [v], v, rep - 1, total)
  }

  ghost predicate AllSmall(done: seq<nat>) {
    forall i :: 0 <= i < |done| ==> done[i] <= MAX_BITS
  }

  /** One turn of the code length loop after its symbol: more lengths, or an error. */
  datatype LengthsTurn = MoreLengths(done: seq<nat>, at: nat) | NoLengths

  function ExpandTurn(bits: seq<bool>, p: nat, sym: nat, done: seq<nat>, total: nat): (r: LengthsTurn)
    requires p <= |bits| && |done| < total && AllSmall(done)
    ensures r.MoreLengths? ==> |done| < |r.done| <= total && AllSmall(r.done) && p <= r.at <= |bits|
  {
    if sym < 16 then MoreLengths(done + [sym], p)
    else if sym == 16 then
      var rep := ReadBits(bits, p, 2);
      if done == [] then NoLengths
      else MoreLengths(Fill(done, done[|done| - 1], rep.value + 3, total), rep.at)
    else if sym == 17 then
      var rep := ReadBits(bits, p, 3);
      MoreLengths(Fill(done, 0, rep.value + 3, total), rep.at)
    else if sym == 18 then
      var rep := ReadBits(bits, p, 7);
      MoreLengths(Fill(done, 0, rep.value + 11, total), rep.at)
    else NoLengths
  }

  datatype Expansion = Expanded(lengths: seq<nat>, at: nat) | BadLengths

  /** The run-length coded code lengths (RFC 1951 section 3.2.7), clamped to `total`. */
  function ExpandLengths(bits: seq<bool>, p: nat, cl: Table, total: nat, done: seq<nat>): (r: Expansion)
    requires p <= |bits| && cl.Valid() && |done| <= total && AllSmall(done)
    ensures r.Expanded? ==> |r.lengths| == total && AllSmall(r.lengths) && p <= r.at <= |bits|
    decreases total - |done|
  {
    if |done| == total then Expanded(done, p)
    else
      var s := Decode(bits, p, cl);
      if s.sym < 0 then BadLengths
      else
        match ExpandTurn(bits, s.at, s.sym, done, total)
        case NoLengths => BadLengths
        case MoreLengths(done', at) => ExpandLengths(bits, at, cl, total, done')
  }

  /** The symbol arrays of the three code tables: C leaves them uninitialised, and the table builder
      may leave old entries in them. */
  datatype Memory = Memory(lit: seq<nat>, dist: seq<nat>, cl: seq<nat>) {
    predicate Valid() {
      |lit| == MAX_SYMBOLS && |dist| == MAX_SYMBOLS && |cl| == MAX_SYMBOLS
    }
  }

  datatype Trees = Trees(lit: Table, dist: Table, mem: Memory, at: nat) | BadTrees(mem: Memory)

  function FixedTrees(p: nat, mem: Memory, layout: Layout): (r: Trees)
    requires mem.Valid()
    ensures r.mem.Valid() && r.Trees? && r.lit.Valid() && r.dist.Valid() && r.at == p
  {
    var lit, dist := Built(FixedLit(), mem.lit, layout), Built(FixedDist(), mem.dist, layout);
    Trees(lit, dist, Memory(lit.symbol, dist.symbol, mem.cl), p)
  }

  datatype Header = Header(hlit: nat, hdist: nat, cl: seq<nat>, at: nat)

  function DynamicHeader(bits: seq<bool>, p: nat): (r: Header)
    requires p <= |bits|
    ensures p <= r.at <= |bits| && 257 <= r.hlit <= 288 && 1 <= r.hdist <= 32
    ensures |r.cl| == CL_SYMBOLS && IsLengths(r.cl)
  {
    Pow2Values();
    var a := ReadBits(bits, p, 5);
    var b := ReadBits(bits, a.at, 5);
    var c := ReadBits(bits, b.at, 4);
    var cl := ClLengths(bits, c.at, 0, c.value + 4, seq(CL_SYMBOLS, (_: nat) => 0));
    Header(a.value + 257, b.value + 1, cl.cl, cl.at)
  }

  /** The two code tables of a dynamic block, from its code lengths. */
  function TreesOf(lengths: seq<nat>, hlit: nat, at: nat, mem: Memory, layout: Layout): (r: Trees)
    requires mem.Valid() && 257 <= hlit <= 288 && hlit <= |lengths| <= hlit + 32
    requires AllSmall(lengths)
    ensures r.mem.Valid() && r.Trees? && r.lit.Valid() && r.dist.Valid() && r.at == at
  {
    var lit, dist := Built(lengths[..hlit], mem.lit, layout), Built(lengths[hlit..], mem.dist, layout);
    Trees(lit, dist, Memory(lit.symbol, dist.symbol, mem.cl), at)
  }

  function DynamicTrees(bits: seq<bool>, p: nat, mem: Memory, layout: Layout): (r: Trees)
    requires p <= |bits| && mem.Valid()
    ensures r.mem.Valid()
    ensures r.Trees? ==> r.lit.Valid() && r.dist.Valid() && p <= r.at <= |bits|
  {
    var h := DynamicHeader(bits, p);
    var clTree := Built(h.cl, mem.cl, layout);
    var mem' := mem.(cl := clTree.symbol);
    match ExpandLengths(bits, h.at, clTree, h.hlit + h.hdist, [])
    case BadLengths => BadTrees(mem')
    case Expanded(l, at) => TreesOf(l, h.hlit, at, mem', layout)
  }

  lemma DynamicTreesAre(bits: seq<bool>, p: nat, mem: Memory, layout: Layout, h: Header, tree: Table,
                        lengths: Expansion)
    requires p <= |bits| && mem.Valid() && h == DynamicHeader(bits, p)
    requires tree == Built(h.cl, mem.cl, layout) && lengths == ExpandLengths(bits, h.at, tree, h.hlit + h.hdist, [])
    ensures DynamicTrees(bits, p, mem, layout) ==
            match lengths
            case BadLengths => BadTrees(mem.(cl := tree.symbol))
            case Expanded(l, at) => TreesOf(l, h.hlit, at, mem.(cl := tree.symbol), layout)
  {
    hide ExpandLengths, DynamicHeader, Built, TreesOf;
  }

  // ---- the whole stream ----------------------------------------------------------------------------

  datatype Outcome =
    | Finished(out: seq<byte>, at: nat)
    | Failed(out: seq<byte>)
    | NeverEnds(out: seq<byte>, lit: Table, dist: Table)

  /** The outcome of all blocks as one step. */
  function StepOf(o: Outcome): Step {
    match o
    case Finished(out, at) => Next(out, at)
    case Failed(out) => Fail(out)
    case NeverEnds(out, lit, dist) => Endless(out, lit, dist)
  }

  datatype BlockStep = BlockStep(step: Step, mem: Memory)

  function Compressed(bits: seq<bool>, trees: Trees, out: seq<byte>): (r: BlockStep)
    requires trees.mem.Valid()
    requires trees.Trees? ==> trees.lit.Valid() && trees.dist.Valid() && trees.at <= |bits|
    ensures r.mem == trees.mem
    ensures r.step.Next? ==> trees.Trees? && trees.at <= r.step.at <= |bits|
    ensures r.step.Endless? ==> r.step.lit.Valid() && r.step.dist.Valid()
  {
    match trees
    case BadTrees(mem) => BlockStep(Fail(out), mem)
    case Trees(lit, dist, mem, at) => BlockStep(Codes(bits, at, lit, dist, out), mem)
  }

  /** One block after its three header bits. */
  function BlockBody(src: seq<byte>, p: nat, btype: nat, mem: Memory, out: seq<byte>, layout: Layout): (r: BlockStep)
    requires p <= 8 * |src| && mem.Valid()
    ensures r.mem.Valid()
    ensures r.step.Next? ==> p <= r.step.at <= 8 * |src|
    ensures r.step.Next? && p == 8 * |src| ==> btype != 0
    ensures r.step.Endless? ==> r.step.lit.Valid() && r.step.dist.Valid()
  {
    var bits := SrcBits(src);
    if btype == 0 then BlockStep(Stored(src, p, out), mem)
    else if btype == 1 then Compressed(bits, FixedTrees(p, mem, layout), out)
    else if btype == 2 then Compressed(bits, DynamicTrees(bits, p, mem, layout), out)
    else BlockStep(Fail(out), mem)
  }

  lemma BlockBodyKinds(src: seq<byte>, p: nat, mem: Memory, out: seq<byte>, layout: Layout)
    requires p <= 8 * |src| && mem.Valid()
    ensures BlockBody(src, p, 0, mem, out, layout) == BlockStep(Stored(src, p, out), mem)
    ensures BlockBody(src, p, 1, mem, out, layout) == Compressed(SrcBits(src), FixedTrees(p, mem, layout), out)
    ensures BlockBody(src, p, 2, mem, out, layout)
            == Compressed(SrcBits(src), DynamicTrees(SrcBits(src), p, mem, layout), out)
    ensures BlockBody(src, p, 3, mem, out, layout) == BlockStep(Fail(out), mem)
  {
    hide Stored, Compressed, FixedTrees, DynamicTrees;
  }

  function Blocks(src: seq<byte>, p: nat, mem: Memory, out: seq<byte>, layout: Layout): (r: Outcome)
    requires p <= 8 * |src| && mem.Valid()
    ensures r.Finished? ==> p <= r.at <= 8 * |src|
    ensures r.NeverEnds? ==> r.lit.Valid() && r.dist.Valid()
    decreases 8 * |src| - p
  {
    var bits := SrcBits(src);
    var bfinal := ReadBits(bits, p, 1);
    var btype := ReadBits(bits, bfinal.at, 2);
    var b := BlockBody(src, btype.at, btype.value, mem, out, layout);
    match b.step
    case Fail(out') => Failed(out')
    case Endless(out', lit, dist) => NeverEnds(out', lit, dist)
    case Next(out', at) =>
      if bfinal.value != 0 then Finished(out', at) else Blocks(src, at, b.mem, out', layout)
  }

  lemma {:induction false} CopyGrows(out: seq<byte>, length: nat, distance: int)
    requires 1 <= distance <= WINDOW
    ensures |Copy(out, length, distance)| == |out| + length
    decreases length
  {
    if length != 0 {
      CopyGrows(out + [Back(out, distance)], length - 1, distance);
    }
  }

  // ---- what has been emitted stays --------------------------------------------------------------

  lemma TurnKeeps(bits: seq<bool>, p: nat, lit: Table, dist: Table, out: seq<byte>)
    requires p <= |bits| && lit.Valid() && dist.Valid() && SymbolTurn(bits, p, lit, dist, out).More?
    ensures out <= SymbolTurn(bits, p, lit, dist, out).out
  {
    hide Decode, ReadBits, Copy, LenBase, LenExtra, DistBase, DistExtra;
    var s := Decode(bits, p, lit);
    if s.sym > 256 {
      var li := s.sym - 257;
      var le := ReadBits(bits, s.at, LenExtra(li));
      var ds := Decode(bits, le.at, dist);
      var de := ReadBits(bits, ds.at, DistExtra(ds.sym));
      DistanceRange(ds.sym);
      CopyKeeps(out, LenBase(li) + le.value, DistBase(ds.sym) + de.value);
    }
  }

  lemma {:induction false} CodesKeep(bits: seq<bool>, p: nat, lit: Table, dist: Table, out: seq<byte>)
    requires p <= |bits| && lit.Valid() && dist.Valid()
    ensures out <= Codes(bits, p, lit, dist, out).out
    decreases |bits| - p
  {
    hide SymbolTurn;
    var t := SymbolTurn(bits, p, lit, dist, out);
    if t.More? {
      TurnKeeps(bits, p, lit, dist, out);
      if t.at > p {
        CodesKeep(bits, t.at, lit, dist, t.out);
      }
    }
  }

  lemma BlockBodyKeeps(src: seq<byte>, p: nat, btype: nat, mem: Memory, out: seq<byte>, layout: Layout)
    requires p <= 8 * |src| && mem.Valid()
    ensures out <= BlockBody(src, p, btype, mem, out, layout).step.out
  {
    hide SrcBits, Codes, FixedTrees, DynamicTrees;
    if btype == 1 {
      var t := FixedTrees(p, mem, layout);
      CodesKeep(SrcBits(src), p, t.lit, t.dist, out);
    } else if btype == 2 {
      var t := DynamicTrees(SrcBits(src), p, mem, layout);
      if t.Trees? {
        CodesKeep(SrcBits(src), t.at, t.lit, t.dist, out);
      }
    }
  }

  lemma {:induction false} BlocksKeep(src: seq<byte>, p: nat, mem: Memory, out: seq<byte>, layout: Layout)
    requires p <= 8 * |src| && mem.Valid()
    ensures out <= Blocks(src, p, mem, out, layout).out
    decreases 8 * |src| - p
  {
    hide SrcBits, BlockBody, Value;
    var bits := SrcBits(src);
    var bfinal := ReadBits(bits, p, 1);
    var btype := ReadBits(bits, bfinal.at, 2);
    var b := BlockBody(src, btype.at, btype.value, mem, out, layout);
    BlockBodyKeeps(src, btype.at, btype.value, mem, out, layout);
    if b.step.Next? && bfinal.value == 0 {
      BlocksKeep(src, b.step.at, b.mem, b.step.out, layout);
    }
  }
}
