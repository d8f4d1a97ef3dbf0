// inflate_to_fd: the decompressor over its bit reader, code tables and output context, proved to
// compute what module Deflate says, on every input and for every behaviour of the file it writes.

module Inflate {
  import opened Bits
  import opened BitReader
  import opened Huffman
  import opened HuffTable
  import Crc32
  import opened Output
  import opened Deflate

  /** How a part of the decompressor ends: done, an error in the data, a failed write, or a loop that
      keeps repeating the same turn. */
  datatype Status = Ok | BadData | WriteError | Stuck

  /** What inflate_to_fd does: it returns a long, or it never returns. */
  datatype Answer = Returns(value: int) | NeverReturns

  /** The conversion of an unsigned long to long. */
  function ToLong(n: nat): int {
    if n % U64 < U64 / 2 then n % U64 else n % U64 - U64
  }

  /** The number itself below 2^63, and otherwise the only signed number of 64 bits that is equal to it modulo
      2^64. */
  lemma LongValue(n: nat, x: int)
    requires -0x8000_0000_0000_0000 <= x < 0x8000_0000_0000_0000
    ensures x == ToLong(n) <==> (n - x) % 0x1_0000_0000_0000_0000 == 0
    ensures n < 0x8000_0000_0000_0000 ==> ToLong(n) == n
  {
  }

  class Inflater {
    const bits: InflateBits
    const out: InflateOut
    const lit: InflateHuff
    const dist: InflateHuff
    const cl: InflateHuff

    ghost function Tables(): set<object> {
      {lit.count, lit.symbol, dist.count, dist.symbol, cl.count, cl.symbol}
    }

    ghost function Sinks(): set<object> {
      {out, out.fd, out.outbuf, out.window}
    }

    /** The storage of the five parts is disjoint. */
    ghost predicate Apart() {
      && lit.Valid() && dist.Valid() && cl.Valid()
      && {lit.count, lit.symbol} !! {dist.count, dist.symbol} !! {cl.count, cl.symbol}
      && Tables() !! Sinks()
    }

    /** Between statements, as long as no write has failed. */
    ghost predicate Valid()
      reads bits, Sinks()
    {
      Apart() && bits.Valid() && out.Valid()
    }

    ghost function Src(): seq<bool> {
      bits.Bits()
    }

    ghost function P(): (r: nat)
      requires Valid()
      reads bits, Sinks()
      ensures r <= |Src()|
    {
      bits.P()
    }

    ghost function Mem(): Memory
      reads lit.symbol, dist.symbol, cl.symbol
    {
      Memory(lit.symbol[..], dist.symbol[..], cl.symbol[..])
    }

    /** How a block, or its symbol loop, has ended: with the step it should take. One that never ends is seen
        after some turn, and a failed write has left a prefix of what the step emits. */
    ghost predicate Ends(s: Status, step: Step)
      reads bits, Sinks()
    {
      match s
      case Ok => Valid() && step == Next(out.emitted, P())
      case BadData => out.Valid() && step == Fail(out.emitted)
      case Stuck => out.Valid() && step.Endless? && Emits(Src(), step, out.emitted)
      case WriteError => PartOf(Src(), step, out.before, out.fd.written)
    }

    /** The decompressor's variables for one call: the code tables are uninitialised. */
    constructor (src: seq<byte>, fd: Fd)
      ensures Valid() && bits.src == src && out.fd == fd && out.before == fd.written
      ensures P() == 0 && out.emitted == [] && fd.errors == old(fd.errors)
      ensures fresh(bits) && fresh(Tables()) && fresh(Sinks() - {fd})
    {
      hide SrcBits, Value, Crc32.Run, Ring;
      bits := new InflateBits(src);
      out := new InflateOut(fd);
      lit := new InflateHuff();
      dist := new InflateHuff();
      cl := new InflateHuff();
    }

    /** The loop that copies `len` stored bytes. */
    method CopyStored(len: nat) returns (ok: bool)
      requires Valid() && bits.cnt == 0 && bits.buf == 0 && bits.pos + len <= |bits.src|
      modifies bits, Sinks()
      ensures out.fd.errors == old(out.fd.errors) + (if ok then 0 else 1)
      ensures ok ==> Valid() && P() == 8 * old(bits.pos) + 8 * len
      ensures ok ==> out.emitted == old(out.emitted) + bits.src[old(bits.pos)..old(bits.pos) + len]
      ensures !ok ==> out.before <= out.fd.written
                      <= out.before + (old(out.emitted) + bits.src[old(bits.pos)..old(bits.pos) + len])
    {
      hide SrcBits, Value, Crc32.Run, Ring;
      ghost var start, emitted := bits.pos, out.emitted;
      for i := 0 to len
        invariant out.Valid() && bits.cnt == 0 && bits.buf == 0 && bits.pos == start + i
        invariant out.emitted == emitted + bits.src[start..start + i] && out.fd.errors == old(out.fd.errors)
      {
        assert bits.src[start..start + i + 1] == bits.src[start..start + i] + [bits.src[bits.pos]];
        var b := bits.src[bits.pos];
        bits.pos := bits.pos + 1;
        ok := out.Emit(b);
        if !ok {
          ghost var all := bits.src[start..start + len];
          assert bits.src[start..start + i + 1] == all[..i + 1];
          PrefixThrough(out.fd.written, out.before, out.emitted, emitted + all);
          return;
        }
      }
      bits.EmptyIsValid();
      ok := true;
    }

    /** A stored block. */
    method StoredBlock() returns (s: Status)
      requires Valid()
      modifies bits, Sinks()
      ensures Ends(s, Stored(bits.src, old(P()), old(out.emitted)))
      ensures out.fd.errors == old(out.fd.errors) + (if s.WriteError? then 1 else 0)
      ensures !s.Stuck?
    {
      hide SrcBits, Value, Crc32.Run, Ring, PartOf, Emits;
      bits.buf := 0;
      bits.cnt := 0;
      if bits.pos + 4 > |bits.src| {
        return BadData;
      }
      var len: nat := (bits.src[bits.pos] as int) + 256 * (bits.src[bits.pos + 1] as int);
      bits.pos := bits.pos + 4;
      if bits.pos + len > |bits.src| {
        return BadData;
      }
      bits.EmptyIsValid();
      ghost var step := Stored(bits.src, old(P()), out.emitted);
      var ok := CopyStored(len);
      if !ok {
        PartOfMore(Src(), step, out.before, out.fd.written, step.out);
      }
      return if ok then Ok else WriteError;
    }

    /** The length and distance of a match, once its length symbol has been read. */
    method MatchPair(li: nat) returns (s: Status)
      requires Valid() && dist.Contents().Valid() && li < 29
      modifies bits, Sinks()
      ensures s.Ok? ==> Valid() &&
                        MatchTurn(Src(), old(P()), li, dist.Contents(), old(out.emitted)) == More(out.emitted, P())
      ensures s.BadData? ==> Valid() && out.emitted == old(out.emitted) &&
                             MatchTurn(Src(), old(P()), li, dist.Contents(), old(out.emitted)) == Bad
      ensures var t := MatchTurn(Src(), old(P()), li, dist.Contents(), old(out.emitted));
              s.WriteError? ==> t.More? && out.before <= out.fd.written <= out.before + t.out
      ensures out.fd.errors == old(out.fd.errors) + (if s.WriteError? then 1 else 0)
      ensures !s.Stuck?
    {
      hide SrcBits, Value, Crc32.Run, Ring, Huffman.Decode, ReadBits, LenBase, LenExtra, DistBase, DistExtra, Copy;
      ExtraRange(li);
      var le := bits.Read(LenExtra(li));
      var length := LenBase(li) + le;
      var distSym := dist.DecodeSymbol(bits);
      if distSym < 0 || distSym > 29 {
        return BadData;
      }
      ExtraRange(distSym);
      DistanceRange(distSym);
      var de := bits.Read(DistExtra(distSym));
      var distance := DistBase(distSym) + de;
      var ok := out.CopyMatch(length, distance);
      return if ok then Ok else WriteError;
    }

    /** One turn of the symbol loop: whether the block has ended. */
    method DecodeOne() returns (s: Status, end: bool)
      requires Valid() && lit.Contents().Valid() && dist.Contents().Valid()
      modifies bits, Sinks()
      ensures s.Ok? ==> Valid() && SymbolTurn(Src(), old(P()), lit.Contents(), dist.Contents(), old(out.emitted))
                                   == if end then End(P()) else More(out.emitted, P())
      ensures s.Ok? && end ==> out.emitted == old(out.emitted)
      ensures s.BadData? ==> Valid() && out.emitted == old(out.emitted) &&
                             SymbolTurn(Src(), old(P()), lit.Contents(), dist.Contents(), old(out.emitted)) == Bad
      ensures var t := SymbolTurn(Src(), old(P()), lit.Contents(), dist.Contents(), old(out.emitted));
              s.WriteError? ==> t.More? && out.before <= out.fd.written <= out.before + t.out
      ensures out.fd.errors == old(out.fd.errors) + (if s.WriteError? then 1 else 0)
      ensures !s.Stuck?
    {
      hide SrcBits, Value, Crc32.Run, Ring, Huffman.Decode, MatchTurn;
      end := false;
      var sym := lit.DecodeSymbol(bits);
      if sym < 0 {
        s := BadData;
      } else if sym < 256 {
        var ok := out.Emit(sym);
        s := if ok then Ok else WriteError;
      } else if sym == 256 {
        s, end := Ok, true;
      } else {
        var li := sym - 257;
        if li > 28 {
          s := BadData;
        } else {
          s := MatchPair(li);
        }
      }
    }

    /** The turns of the symbol loop after the first one that consumes nothing. They are all alike, so they end
        only when a write fails; how many are made before the loop is looked at is not determined. */
    method GoOn() returns (s: Status)
      requires Valid() && lit.Contents().Valid() && dist.Contents().Valid() && P() == |Src()|
      requires SymbolTurn(Src(), P(), lit.Contents(), dist.Contents(), out.emitted).More?
      modifies bits, Sinks()
      ensures s.Stuck? || s.WriteError?
      ensures Ends(s, Endless(old(out.emitted), lit.Contents(), dist.Contents()))
      ensures out.fd.errors == old(out.fd.errors) + (if s.WriteError? then 1 else 0)
    {
      hide SrcBits, Value, Crc32.Run, Ring, SymbolTurn;
      ghost var src, l, d, first, n := Src(), lit.Contents(), dist.Contents(), out.emitted, 0;
      var turns: int := *;
      while turns > 0
        invariant Valid() && P() == |src| && out.fd.errors == old(out.fd.errors)
        invariant Turns(src, |src|, l, d, first, n) == More(out.emitted, |src|)
      {
        TurnIgnoresOutput(src, |src|, l, d, first, out.emitted);
        TurnMore(src, |src|, l, d, first, n);
        var end;
        s, end := DecodeOne();
        n := n + 1;
        if s.WriteError? {
          return;
        }
        turns := turns - 1;
      }
      s := Stuck;
    }

    /** The symbol loop of a compressed block. Once a turn consumes no input and does not leave the loop, the
        next ones do not either. */
    method InflateCodes() returns (s: Status)
      requires Valid() && lit.Contents().Valid() && dist.Contents().Valid()
      modifies bits, Sinks()
      ensures Ends(s, Codes(Src(), old(P()), lit.Contents(), dist.Contents(), old(out.emitted)))
      ensures out.fd.errors == old(out.fd.errors) + (if s.WriteError? then 1 else 0)
    {
      hide SrcBits, Value, Crc32.Run, Ring, Huffman.Decode, SymbolTurn, Emits;
      while true
        invariant Valid() && out.fd.errors == old(out.fd.errors)
        invariant Codes(Src(), old(P()), lit.Contents(), dist.Contents(), old(out.emitted))
                  == Codes(Src(), P(), lit.Contents(), dist.Contents(), out.emitted)
        decreases |Src()| - P()
      {
        var before := 8 * bits.pos - bits.cnt;
        var end;
        ghost var p, emitted := P(), out.emitted;
        s, end := DecodeOne();
        if !s.Ok? || end {
          if s.WriteError? {
            TurnInCodes(Src(), p, lit.Contents(), dist.Contents(), emitted, out.fd.written, out.before);
          }
          return;
        }
        if 8 * bits.pos - bits.cnt == before {
          StillTurns(Src(), p, lit.Contents(), dist.Contents(), emitted, out.emitted);
          s := GoOn();
          return;
        }
      }
    }

    /** The fixed code tables. */
    method BuildFixed()
      requires Valid()
      modifies lit.count, lit.symbol, dist.count, dist.symbol
      ensures FixedTrees(P(), old(Mem()), AsWritten) == Trees(lit.Contents(), dist.Contents(), Mem(), P())
      ensures lit.Contents().Valid() && dist.Contents().Valid()
    {
      hide SrcBits, Value, Crc32.Run, Ring, Built;
      var lengths := FixedLitLengths();
      lit.Build(lengths[..]);
      ghost var t := lit.Contents();
      var dlengths := FixedDistLengths();
      dist.Build(dlengths[..]);
      assert lit.Contents() == t;
    }

    /** The code length code lengths, three bits each. */
    method ReadClLengths(n: nat) returns (lengths: array<nat>)
      requires Valid() && n <= 19
      modifies bits
      ensures Valid() && fresh(lengths)
      ensures Deflate.Lengths(lengths[..], P()) == ClLengths(Src(), old(P()), 0, n, seq(CL_SYMBOLS, (_: nat) => 0))
    {
      hide SrcBits, Value, Crc32.Run, Ring, ReadBits, ClOrder;
      lengths := new nat[CL_SYMBOLS](_ => 0);
      ghost var p, none := P(), seq(CL_SYMBOLS, (_: nat) => 0);
      assert lengths[..] == none;
      for i := 0 to n
        invariant Valid() && IsLengths(lengths[..])
        invariant ClLengths(Src(), p, 0, n, none) == ClLengths(Src(), P(), i, n, lengths[..])
      {
        assert Pow2(3) == 8;
        ghost var was := lengths[..];
        var v := bits.Read(3);
        lengths[ClOrder(i)] := v;
        assert lengths[..] == was[ClOrder(i) := v];
      }
    }

    /** The three counts of a dynamic block and its code length code. */
    method ReadHeader() returns (hlit: nat, hdist: nat, lengths: array<nat>)
      requires Valid()
      modifies bits
      ensures Valid() && fresh(lengths)
      ensures Header(hlit, hdist, lengths[..], P()) == DynamicHeader(Src(), old(P()))
    {
      hide SrcBits, Value, Crc32.Run, Ring, ReadBits, ClLengths;
      hlit := bits.Read(5);
      hlit := hlit + 257;
      hdist := bits.Read(5);
      hdist := hdist + 1;
      var hclen := bits.Read(4);
      hclen := hclen + 4;
      assert Pow2(4) == 16;
      lengths := ReadClLengths(hclen);
    }

    /** One turn of the code length loop, for a symbol that has been decoded: the new index, or -1. */
    method ExpandSymbol(sym: nat, all: array<nat>, idx: nat, total: nat) returns (next: int)
      requires Valid() && all.Length == 320 && idx < total <= 320 && AllSmall(all[..idx])
      requires all !in Tables() + Sinks()
      modifies bits, all
      ensures Valid()
      ensures next >= 0 ==> idx < next <= total && AllSmall(all[..next])
      ensures ExpandTurn(Src(), old(P()), sym, old(all[..idx]), total)
              == if next < 0 then NoLengths else MoreLengths(all[..next], P())
    {
      hide SrcBits, Value, Crc32.Run, Ring, ReadBits, Fill;
      if sym < 16 {
        all[idx] := sym;
        next := idx + 1;
        assert all[..next] == old(all[..idx]) + [sym];
      } else if sym == 16 {
        var rep := bits.Read(2);
        if idx == 0 {
          return -1;
        }
        next := FillRun(all, idx, all[idx - 1], rep + 3, total);
      } else if sym == 17 {
        var rep := bits.Read(3);
        next := FillRun(all, idx, 0, rep + 3, total);
      } else if sym == 18 {
        var rep := bits.Read(7);
        next := FillRun(all, idx, 0, rep + 11, total);
      } else {
        next := -1;
      }
    }

    /** The run-length coded code lengths. */
    method ReadLengths(total: nat) returns (s: Status, all: array<nat>)
      requires Valid() && cl.Contents().Valid() && total <= 320
      modifies bits
      ensures Valid() && fresh(all) && all.Length == 320
      ensures s.Ok? ==> ExpandLengths(Src(), old(P()), cl.Contents(), total, []) == Expanded(all[..total], P())
      ensures s.BadData? ==> ExpandLengths(Src(), old(P()), cl.Contents(), total, []) == BadLengths
      ensures s.Ok? || s.BadData?
    {
      hide SrcBits, Value, Crc32.Run, Ring, ReadBits, Huffman.Decode, ExpandTurn;
      all := new nat[320](_ => 0);
      ghost var p, t := P(), cl.Contents();
      var idx := 0;
      assert all[..0] == [];
      while idx < total
        invariant Valid() && idx <= total && AllSmall(all[..idx]) && cl.Contents() == t
        invariant ExpandLengths(Src(), p, t, total, []) == ExpandLengths(Src(), P(), t, total, all[..idx])
        decreases total - idx
      {
        var sym := cl.DecodeSymbol(bits);
        if sym < 0 {
          return BadData, all;
        }
        var next := ExpandSymbol(sym, all, idx, total);
        if next < 0 {
          return BadData, all;
        }
        idx := next;
      }
      return Ok, all;
    }

    /** The counts of a dynamic block, and the table of its code length code. */
    method BuildClTree() returns (hlit: nat, hdist: nat)
      requires Valid()
      modifies bits, cl.count, cl.symbol
      ensures Valid() && cl.Contents().Valid()
      ensures var h := DynamicHeader(Src(), old(P()));
              hlit == h.hlit && hdist == h.hdist && P() == h.at
              && cl.Contents() == Built(h.cl, old(cl.symbol[..]), AsWritten)
    {
      hide SrcBits, Value, Crc32.Run, Ring, DynamicHeader, Built;
      var clLengths;
      hlit, hdist, clLengths := ReadHeader();
      cl.Build(clLengths[..]);
    }

    /** The literal/length and distance tables, from the code lengths of a dynamic block. */
    method BuildTrees(all: array<nat>, hlit: nat, hdist: nat)
      requires Apart() && all.Length == 320 && 257 <= hlit <= 288 && 1 <= hdist <= 32
      requires AllSmall(all[..hlit + hdist]) && all !in Tables()
      modifies lit.count, lit.symbol, dist.count, dist.symbol
      ensures lit.Contents().Valid() && dist.Contents().Valid()
      ensures forall at :: TreesOf(all[..hlit + hdist], hlit, at, old(Mem()), AsWritten)
                           == Trees(lit.Contents(), dist.Contents(), Mem(), at)
    {
      hide Built;
      ghost var lens := all[..hlit + hdist];
      assert all[..hlit] == lens[..hlit] && all[hlit..hlit + hdist] == lens[hlit..];
      lit.Build(all[..hlit]);
      ghost var litTree := lit.Contents();
      dist.Build(all[hlit..hlit + hdist]);
      assert lit.Contents() == litTree;
    }

    /** The tables built are the expected ones, or the data is bad and only the memory is left. */
    ghost static predicate BuiltAs(s: Status, expected: Trees, lit: Table, dist: Table, mem: Memory, at: nat) {
      match s
      case Ok => expected == Trees(lit, dist, mem, at) && lit.Valid() && dist.Valid()
      case BadData => expected == BadTrees(mem)
      case _ => false
    }

    /** The code tables of a dynamic block. */
    method BuildDynamic() returns (s: Status)
      requires Valid()
      modifies bits, Tables()
      ensures Valid()
      ensures BuiltAs(s, DynamicTrees(Src(), old(P()), old(Mem()), AsWritten), lit.Contents(), dist.Contents(),
                      Mem(), P())
    {
      hide SrcBits, Value, Crc32.Run, Ring, ReadBits, Built, DynamicHeader, ExpandLengths, TreesOf, DynamicTrees,
        InflateOut.Valid, InflateBits.Valid, Table.Valid;
      ghost var p, mem := P(), Mem();
      var hlit, hdist := BuildClTree();
      ghost var h, tree := DynamicHeader(Src(), p), cl.Contents();
      DynamicTreesAre(Src(), p, mem, AsWritten, h, tree, ExpandLengths(Src(), P(), tree, hlit + hdist, []));
      var all;
      s, all := ReadLengths(hlit + hdist);
      if s.Ok? {
        BuildTrees(all, hlit, hdist);
      }
    }

    method FixedBlock() returns (s: Status)
      requires Valid()
      modifies bits, Tables(), Sinks()
      ensures var b := Compressed(Src(), FixedTrees(old(P()), old(Mem()), AsWritten), old(out.emitted));
              Ends(s, b.step) && b.mem == Mem()
      ensures out.fd.errors == old(out.fd.errors) + (if s.WriteError? then 1 else 0)
    {
      hide SrcBits, FixedTrees, Codes, Ends, InflateOut.Valid, InflateBits.Valid, InflateHuff.Valid,
        InflateHuff.Contents;
      BuildFixed();
      s := InflateCodes();
    }

    method DynamicBlock() returns (s: Status)
      requires Valid()
      modifies bits, Tables(), Sinks()
      ensures var b := Compressed(Src(), DynamicTrees(Src(), old(P()), old(Mem()), AsWritten), old(out.emitted));
              Ends(s, b.step) && b.mem == Mem()
      ensures out.fd.errors == old(out.fd.errors) + (if s.WriteError? then 1 else 0)
    {
      hide SrcBits, DynamicTrees, Codes, InflateOut.Valid, InflateBits.Valid, InflateHuff.Valid, InflateHuff.Contents;
      s := BuildDynamic();
      if s.Ok? {
        s := InflateCodes();
      }
    }

    /** One block, after its three header bits. */
    method InflateBlock(btype: nat) returns (s: Status)
      requires Valid() && btype < 4
      modifies bits, Tables(), Sinks()
      ensures var b := BlockBody(bits.src, old(P()), btype, old(Mem()), old(out.emitted), AsWritten);
              Ends(s, b.step) && b.mem == Mem()
      ensures out.fd.errors == old(out.fd.errors) + (if s.WriteError? then 1 else 0)
    {
      hide SrcBits, FixedTrees, DynamicTrees, Compressed, Stored, InflateOut.Valid, InflateBits.Valid,
        InflateHuff.Valid;
      if btype == 0 {
        s := StoredBlock();
      } else if btype == 1 {
        s := FixedBlock();
      } else if btype == 2 {
        s := DynamicBlock();
      } else {
        s := BadData;
      }
    }

    /** The block loop. */
    method InflateBlocks() returns (s: Status)
      requires Valid()
      modifies bits, Tables(), Sinks()
      ensures Ends(s, StepOf(Blocks(bits.src, old(P()), old(Mem()), old(out.emitted), AsWritten)))
      ensures out.fd.errors == old(out.fd.errors) + (if s.WriteError? then 1 else 0)
    {
      hide SrcBits, Value, Crc32.Run, Ring, BlockBody, Emits, PartOf;
      while true
        invariant Valid() && out.fd.errors == old(out.fd.errors)
        invariant Blocks(bits.src, old(P()), old(Mem()), old(out.emitted), AsWritten)
                  == Blocks(bits.src, P(), Mem(), out.emitted, AsWritten)
        decreases |Src()| - P()
      {
        assert Pow2(2) == 4;
        ghost var start := P();
        var bfinal := bits.Read(1);
        var btype := bits.Read(2);
        ghost var p, mem, emitted := P(), Mem(), out.emitted;
        s := InflateBlock(btype);
        if !s.Ok? || bfinal != 0 {
          if s.WriteError? {
            BodyInBlocks(bits.src, start, p, btype, mem, emitted, out.fd.written, out.before);
          }
          return;
        }
      }
    }

    /** The body of inflate_to_fd, after the initialisations. */
    method Call() returns (answer: Answer, ghost at: int)
      requires Valid() && P() == 0 && out.emitted == [] && out.before == out.fd.written
      modifies bits, Tables(), Sinks()
      ensures var step := StepOf(Blocks(bits.src, 0, old(Mem()), [], AsWritten));
              if out.fd.errors == old(out.fd.errors) then
                Reports(Src(), step, answer, old(out.fd.written), out.fd.written, at)
              else
                && out.fd.errors == old(out.fd.errors) + 1 && answer == Returns(-1)
                && PartOf(Src(), step, old(out.fd.written), out.fd.written)
    {
      hide SrcBits, Value, Crc32.Run, Ring, Blocks, Emits, PartOf, InflateBits.Valid, InflateHuff.Valid;
      at := 0;
      var s := InflateBlocks();
      if s.WriteError? {
        answer := Returns(-1);
      } else if s.Ok? {
        at := P();
        var ok := out.Flush();
        if !ok {
          PartOfMore(Src(), Next(out.emitted, at), out.before, out.fd.written, out.emitted);
        }
        answer := Returns(if ok then ToLong(out.total) else -1);
      } else {
        out.WrittenSoFar();
        answer := if s.Stuck? then NeverReturns else Returns(-1);
      }
    }
  }

  /** After a turn that consumes nothing the input is used up, and the next turn does not leave the loop. */
  lemma StillTurns(bits: seq<bool>, p: nat, lit: Table, dist: Table, out: seq<byte>, out': seq<byte>)
    requires p <= |bits| && lit.Valid() && dist.Valid() && SymbolTurn(bits, p, lit, dist, out) == More(out', p)
    ensures p == |bits| && SymbolTurn(bits, p, lit, dist, out').More?
  {
    hide SymbolTurn;
    if p < |bits| {
      TurnProgress(bits, p, lit, dist, out);
    }
    TurnIgnoresOutput(bits, p, lit, dist, out, out');
  }

  /** What a failing turn has written is part of what the loop emits. */
  lemma TurnInCodes(bits: seq<bool>, p: nat, lit: Table, dist: Table, out: seq<byte>,
                    written: seq<byte>, before: seq<byte>)
    requires p <= |bits| && lit.Valid() && dist.Valid() && SymbolTurn(bits, p, lit, dist, out).More?
    requires before <= written <= before + SymbolTurn(bits, p, lit, dist, out).out
    ensures PartOf(bits, Codes(bits, p, lit, dist, out), before, written)
  {
    hide SymbolTurn, PartOf;
    var t := SymbolTurn(bits, p, lit, dist, out);
    if t.at > p {
      CodesKeep(bits, t.at, lit, dist, t.out);
    }
    PartOfMore(bits, Codes(bits, p, lit, dist, out), before, written, t.out);
  }

  lemma BodyInBlocks(src: seq<byte>, start: nat, p: nat, btype: nat, mem: Memory, out: seq<byte>,
                     written: seq<byte>, before: seq<byte>)
    requires start <= p <= 8 * |src| && mem.Valid()
    requires ReadBits(SrcBits(src), ReadBits(SrcBits(src), start, 1).at, 2) == Field(btype, p)
    requires PartOf(SrcBits(src), BlockBody(src, p, btype, mem, out, AsWritten).step, before, written)
    ensures PartOf(SrcBits(src), StepOf(Blocks(src, start, mem, out, AsWritten)), before, written)
  {
    hide SrcBits, BlockBody, Value, PartOf;
    var final := ReadBits(SrcBits(src), start, 1);
    var b := BlockBody(src, p, btype, mem, out, AsWritten);
    if b.step.Next? {
      if final.value == 0 {
        BlocksKeep(src, b.step.at, b.mem, b.step.out, AsWritten);
      }
      PartOfNext(SrcBits(src), b.step, before, written);
      PartOfMore(SrcBits(src), StepOf(Blocks(src, start, mem, out, AsWritten)), before, written, b.step.out);
    }
  }

  lemma PartOfNext(bits: seq<bool>, step: Step, before: seq<byte>, written: seq<byte>)
    requires PartOf(bits, step, before, written) && !step.Endless?
    ensures before <= written <= before + step.out
  {
  }

  /** The loops that fill in the fixed literal/length code lengths. */
  method FixedLitLengths() returns (lengths: array<nat>)
    ensures fresh(lengths) && lengths[..] == FixedLit()
  {
    lengths := new nat[288];
    for i := 0 to 144
      invariant forall j :: 0 <= j < i ==> lengths[j] == 8
    {
      lengths[i] := 8;
    }
    for i := 144 to 256
      invariant forall j :: 0 <= j < i ==> lengths[j] == if j <= 143 then 8 else 9
    {
      lengths[i] := 9;
    }
    for i := 256 to 280
      invariant forall j :: 0 <= j < i ==> lengths[j] == if j <= 143 then 8 else if j <= 255 then 9 else 7
    {
      lengths[i] := 7;
    }
    for i := 280 to 288
      invariant forall j :: 0 <= j < i ==>
        lengths[j] == if j <= 143 then 8 else if j <= 255 then 9 else if j <= 279 then 7 else 8
    {
      lengths[i] := 8;
    }
  }

  method FixedDistLengths() returns (lengths: array<nat>)
    ensures fresh(lengths) && lengths[..] == FixedDist()
  {
    lengths := new nat[32];
    for i := 0 to 32
      invariant forall j :: 0 <= j < i ==> lengths[j] == 5
    {
      lengths[i] := 5;
    }
  }

  /** The loop that stores `rep` copies of a length, stopping at the end of the array. */
  method FillRun(all: array<nat>, idx: nat, v: nat, rep: nat, total: nat) returns (next: nat)
    requires idx < total <= all.Length && v <= MAX_BITS && rep > 0 && AllSmall(all[..idx])
    modifies all
    ensures idx < next <= total && AllSmall(all[..next])
    ensures all[..next] == Fill(old(all[..idx]), v, rep, total)
  {
    var left := rep;
    next := idx;
    while left > 0 && next < total
      invariant idx <= next <= total && 0 <= left <= rep && next - idx == rep - left
      invariant AllSmall(all[..next])
      invariant Fill(old(all[..idx]), v, rep, total) == Fill(all[..next], v, left, total)
    {
      all[next] := v;
      assert all[..next + 1] == all[..next] + [v];
      next := next + 1;
      left := left - 1;
    }
  }

  /** The whole buffers of an output. */
  ghost function WholeBuffers(out: seq<byte>): seq<byte> {
    out[..|out| - |out| % OUTBUF]
  }

  /** What a caller sees of an outcome when every write succeeds: the return value, the bytes the file has
      gained, and (inside the call) where the reader stands. A call that does not return has written, whenever
      one looks, the whole buffers of what it has emitted up to some turn. */
  ghost predicate Reports(bits: seq<bool>, step: Step, answer: Answer, before: seq<byte>, written: seq<byte>, at: int) {
    match step
    case Next(out, end) => answer == Returns(ToLong(|out|)) && written == before + out && at == end
    case Fail(out) => answer == Returns(-1) && written == before + WholeBuffers(out)
    case Endless(_, _, _) =>
      answer == NeverReturns && exists all: seq<byte> :: Emits(bits, step, all) && written == before + WholeBuffers(all)
  }

  /** inflate_to_fd. If no write of the call fails, the file receives exactly the decompressed bytes and their
      number is returned; on bad data -1 is returned and the whole buffers filled so far have been written; and
      the call fails to return exactly when the symbol loop repeats itself. If a write fails, it is the last one,
      -1 is returned, and the file has received a prefix of the output; of an output without end, as far as the
      loop has come. `mem` is what the uninitialised code tables happen to hold, `at` where the bit reader is
      left. */
  method InflateToFd(src: seq<byte>, fd: Fd) returns (answer: Answer, ghost mem: Memory, ghost at: int)
    modifies fd
    ensures mem.Valid()
    ensures var bits, step := SrcBits(src), StepOf(Blocks(src, 0, mem, [], AsWritten));
            if fd.errors == old(fd.errors) then Reports(bits, step, answer, old(fd.written), fd.written, at)
            else
              && fd.errors == old(fd.errors) + 1 && answer == Returns(-1)
              && PartOf(bits, step, old(fd.written), fd.written)
  {
    hide SrcBits, Value, Crc32.Run, Ring, Blocks, Reports, PartOf;
    var f := new Inflater(src, fd);
    mem := f.Mem();
    answer, at := f.Call();
  }
}
