// Which dynamic headers (RFC 1951 section 3.2.7) the decompressor as written is right about.

module HeaderCondition {
  import opened Bits
  import opened BitReader
  import opened Huffman
  import opened Deflate
  import opened DeflateRoundTrip

  /** A header that is read back, with two usable codes and an end-of-block symbol. */
  ghost predicate Usable(h: DynHeader) {
    && OpsCodable(h.ops, h.cl) && OpsMake([], h.ops, h.lens) && Buildable(h.cl, AsWritten)
    && Kraft(LitLengths(h)) && Kraft(DistLengths(h)) && HasCode(LitLengths(h), 256)
  }

  /** Some match can be written with the two codes. */
  ghost predicate AllowsMatch(h: DynHeader) {
    exists t: Token :: t.Match? && Codable(t, LitLengths(h), DistLengths(h))
  }

  /** The block is decoded to what its tokens stand for, wherever it is, and whatever memory held. */
  ghost predicate DecodedRight(h: DynHeader, ts: seq<Token>) {
    forall src: seq<byte>, q: nat, mem: Memory, out: seq<byte>
      | mem.Valid() && q <= 8 * |src| && At(SrcBits(src), q, DynamicBits(h, ts)) ::
      BlockBody(src, q, 2, mem, out, AsWritten).step == Next(Expand(out, ts), q + |DynamicBits(h, ts)|)
  }

  /** A turn that does not decode the end of the block emits something, so the block ends with more output. */
  lemma NotTheEnd(bits: seq<bool>, p: nat, lit: Table, dist: Table, out: seq<byte>)
    requires p <= |bits| && lit.Valid() && dist.Valid() && Decode(bits, p, lit).sym != 256
    ensures var s := Codes(bits, p, lit, dist, out); s.Next? ==> |s.out| > |out|
  {
    hide Decode, MatchTurn;
    var t := SymbolTurn(bits, p, lit, dist, out);
    if t.More? && t.at > p {
      CodesKeep(bits, t.at, lit, dist, t.out);
    }
  }

  /** Where the tokens of the block stand and the tables with which they are decoded. */
  lemma BodyIs(src: seq<byte>, h: DynHeader, ts: seq<Token>, mem: Memory, out: seq<byte>)
    returns (at: nat, trees: Trees)
    requires Usable(h) && mem.Valid() && At(SrcBits(src), 0, DynamicBits(h, ts))
    ensures at <= |SrcBits(src)| && At(SrcBits(src), at, TokensBits(ts, LitLengths(h), DistLengths(h)))
    ensures trees.Trees? && trees.at == at && trees.lit == Built(LitLengths(h), mem.lit, AsWritten)
    ensures trees.dist == Built(DistLengths(h), mem.dist, AsWritten)
    ensures BlockBody(src, 0, 2, mem, out, AsWritten).step == Codes(SrcBits(src), at, trees.lit, trees.dist, out)
  {
    hide At, HeaderBits, OpsBits, TokensBits, OpsMake, OpsCodable, Buildable, DynamicTrees, Built, Kraft, HasCode,
      Codes, SrcBits, BlockBody, TreesOf, LitLengths, DistLengths, Table.Valid;
    var bits, a := SrcBits(src), HeaderBits(h) + OpsBits(h.ops, h.cl);
    AtSplit(bits, 0, a, TokensBits(ts, LitLengths(h), DistLengths(h)));
    var m := DynamicTreesOf(bits, 0, h, mem, AsWritten);
    at := |a|;
    AtInside(bits, at, TokensBits(ts, LitLengths(h), DistLengths(h)));
    TreesAre(h, at, m, AsWritten);
    trees := TreesOf(h.lens, h.hlit + 257, at, m, AsWritten);
    BlockBodyKinds(src, 0, mem, out, AsWritten);
  }

  /** A source for a block. */
  lemma SourceOf(bits: seq<bool>) returns (src: seq<byte>)
    ensures At(SrcBits(src), 0, bits)
  {
    src := Pack(bits);
    PackBits(bits);
    assert SrcBits(src)[..|bits|] == bits;
  }

  lemma LitNeeded(h: DynHeader)
    requires Usable(h) && !HasNoZero(LitLengths(h))
    ensures !DecodedRight(h, [])
  {
    hide At, DynamicBits, LitLengths, Built, Kraft, SrcBits, BlockBody, Codes, Decode, OpsMake, OpsCodable, Buildable,
      CodeBits, TokensBits;
    var l := LitLengths(h);
    var src := SourceOf(DynamicBits(h, []));
    var mem := Memory(Filled(257), Filled(0), Filled(0));
    var at, t := BodyIs(src, h, [], mem, []);
    NoTokens(l, DistLengths(h));
    AtSlice(SrcBits(src), at, CodeBits(l, 256), at + l[256]);
    WrongFor(l, 256, SrcBits(src), at);
    NotTheEnd(SrcBits(src), at, t.lit, t.dist, []);
  }

  lemma NoTokens(ll: seq<nat>, dl: seq<nat>)
    requires HasCode(ll, 256)
    ensures TokensBits([], ll, dl) == CodeBits(ll, 256) && |CodeBits(ll, 256)| == ll[256]
    ensures Expand([], []) == []
  {
    hide CodeBits;
    CodeLength(ll, 256);
  }

  /** The turn of a match whose distance symbol is decoded to one that is none fails the block. */
  lemma BadDistance(bits: seq<bool>, p: nat, q: nat, lit: Table, dist: Table, li: nat, out: seq<byte>)
    requires p <= q <= |bits| && lit.Valid() && dist.Valid() && li < 29
    requires Decode(bits, p, lit) == Symbol(257 + li, q)
    requires Decode(bits, ReadBits(bits, q, LenExtra(li)).at, dist).sym > 29
    ensures Codes(bits, p, lit, dist, out) == Fail(out)
  {
    hide Decode, ReadBits;
  }

  lemma DistNeeded(h: DynHeader)
    requires Usable(h) && HasNoZero(LitLengths(h)) && AllowsMatch(h) && !HasNoZero(DistLengths(h))
    ensures exists ts: seq<Token> :: CodableAll(ts, LitLengths(h), DistLengths(h)) && !DecodedRight(h, ts)
  {
    hide Usable, HasNoZero, DecodedRight, LitLengths, DistLengths, HasCode, Rank, Sorted;
    UsableIs(h);
    var t: Token :| t.Match? && Codable(t, LitLengths(h), DistLengths(h));
    var f := FirstDistance(DistLengths(h), t.di);
    var m: Token := Match(t.li, 0, f, 0);
    assert CodableAll([m], LitLengths(h), DistLengths(h));
    FirstWrong(h, m);
  }

  lemma UsableIs(h: DynHeader)
    requires Usable(h)
    ensures HasCode(LitLengths(h), 256) && Kraft(DistLengths(h)) && Buildable(h.cl, AsWritten)
    ensures HasNoZero(LitLengths(h)) ==> Buildable(LitLengths(h), AsWritten)
  {
  }

  lemma FirstDistance(l: seq<nat>, di: nat) returns (f: nat)
    requires di < 30 && HasCode(l, di)
    ensures f < 30 && HasCode(l, f) && FirstIn(l, f)
  {
    hide Rank, Sorted;
    f := FirstUpTo(l, 29, di);
  }

  /** The symbol is the first one in order that is a distance. */
  ghost predicate FirstIn(l: seq<nat>, f: nat) {
    && HasCode(l, f) && Rank(l, f) < |Sorted(l, MAX_BITS)|
    && forall r :: 0 <= r < Rank(l, f) ==> Sorted(l, MAX_BITS)[r] > 29
  }

  /** A match with the first distance fails, if memory held the number of a symbol that is none. */
  lemma FirstWrong(h: DynHeader, t: Token)
    requires Usable(h) && HasNoZero(LitLengths(h)) && !HasNoZero(DistLengths(h))
    requires t.Match? && t.lenExtra == 0 && Codable(t, LitLengths(h), DistLengths(h)) && FirstIn(DistLengths(h), t.di)
    ensures !DecodedRight(h, [t])
  {
    hide At, DynamicBits, LitLengths, DistLengths, Built, Kraft, SrcBits, BlockBody, Codes, Decode, Usable,
      Buildable, CodeBits, TokensBits, Rank, Sorted, ReadBits, Count, Expand, Decodes, Length, Distance, LenExtra,
      Table.Valid;
    UsableIs(h);
    var l, dl := LitLengths(h), DistLengths(h);
    var src := SourceOf(DynamicBits(h, [t]));
    var mem := Memory(Filled(0), Filled(30), Filled(0));
    var at, trees := BodyIs(src, h, [t], mem, []);
    BuiltDecodes(l, mem.lit, AsWritten);
    var q := MatchBits(SrcBits(src), at, trees.lit, l, dl, t);
    TooLargeFor(dl, 29, t.di, SrcBits(src), q);
    BadDistance(SrcBits(src), at, at + l[257 + t.li], trees.lit, trees.dist, t.li, []);
  }

  /** Where the distance symbol of a match stands. */
  lemma MatchBits(bits: seq<bool>, at: nat, lit: Table, ll: seq<nat>, dl: seq<nat>, t: Token) returns (q: nat)
    requires t.Match? && t.lenExtra == 0 && HasCode(ll, 257 + t.li) && HasCode(dl, t.di)
    requires At(bits, at, TokensBits([t], ll, dl)) && lit.Valid() && Decodes(lit, ll)
    ensures at + ll[257 + t.li] <= |bits| && Decode(bits, at, lit) == Symbol(257 + t.li, at + ll[257 + t.li])
    ensures q == ReadBits(bits, at + ll[257 + t.li], LenExtra(t.li)).at
    ensures q + dl[t.di] <= |bits| && bits[q..q + dl[t.di]] == CodeBits(dl, t.di)
  {
    hide At, Decodes, Decode, CodeBits, ReadBits, LenExtra, DistExtra, Digits, TokensBits;
    var a, b, c := SymBits(ll, 257 + t.li), Digits(0, LenExtra(t.li)), SymBits(dl, t.di);
    var rest := OneMatch(t, ll, dl);
    AtSplit(bits, at, a, b + (c + rest));
    AtSplit(bits, at + |a|, b, c + rest);
    AtSplit(bits, at + |a| + |b|, c, rest);
    CodeLength(ll, 257 + t.li);
    CodeLength(dl, t.di);
    DecodeAt(lit, ll, 257 + t.li, bits, at);
    ReadField(bits, at + |a|, 0, LenExtra(t.li));
    q := at + |a| + |b|;
    AtSlice(bits, q, c, q + |c|);
  }

  lemma OneMatch(t: Token, ll: seq<nat>, dl: seq<nat>) returns (rest: seq<bool>)
    requires t.Match?
    ensures TokensBits([t], ll, dl)
            == SymBits(ll, 257 + t.li) + (Digits(t.lenExtra, LenExtra(t.li)) + (SymBits(dl, t.di) + rest))
  {
    hide LenExtra, DistExtra, Digits, SymBits;
    var d, e := Digits(t.distExtra, DistExtra(t.di)), SymBits(ll, 256);
    rest := d + e;
    var a, b, c := SymBits(ll, 257 + t.li), Digits(t.lenExtra, LenExtra(t.li)), SymBits(dl, t.di);
    assert TokensBits([t], ll, dl) == TokenBits(t, ll, dl) + TokensBits([], ll, dl);
    assert (a + (b + (c + d))) + e == a + (b + (c + rest));
  }

  lemma Sufficient(h: DynHeader, ts: seq<Token>)
    requires Usable(h) && HasNoZero(LitLengths(h)) && (AllowsMatch(h) ==> HasNoZero(DistLengths(h)))
    requires CodableAll(ts, LitLengths(h), DistLengths(h))
    ensures DecodedRight(h, ts)
  {
    hide At, DynamicBits, LitLengths, DistLengths, Kraft, SrcBits, BlockBody, Expand, OpsMake, OpsCodable, DynamicTrees,
      Compressed, HasNoZero;
    if RefersBack(ts) {
      var i :| 0 <= i < |ts| && ts[i].Match?;
      assert Codable(ts[i], LitLengths(h), DistLengths(h));
      assert AllowsMatch(h);
    }
    forall src: seq<byte>, q: nat, mem: Memory, out: seq<byte>
      | mem.Valid() && q <= 8 * |src| && At(SrcBits(src), q, DynamicBits(h, ts))
      ensures BlockBody(src, q, 2, mem, out, AsWritten).step == Next(Expand(out, ts), q + |DynamicBits(h, ts)|)
    {
      DynamicOf(SrcBits(src), q, h, ts, mem, out, AsWritten);
      BlockBodyKinds(src, q, mem, out, AsWritten);
    }
  }

  /** A header is decoded rightly with every token list for its codes exactly if no length of its literal code
      is zero, and none of its distance code unless no match can be written with it. */
  lemma HeaderRightIff(h: DynHeader)
    requires Usable(h)
    ensures (forall ts: seq<Token> | CodableAll(ts, LitLengths(h), DistLengths(h)) :: DecodedRight(h, ts))
            <==> HasNoZero(LitLengths(h)) && (AllowsMatch(h) ==> HasNoZero(DistLengths(h)))
  {
    hide DecodedRight, Kraft, HasNoZero, AllowsMatch, OpsCodable, OpsMake, Buildable, LitLengths, DistLengths, HasCode;
    if HasNoZero(LitLengths(h)) && (AllowsMatch(h) ==> HasNoZero(DistLengths(h))) {
      forall ts: seq<Token> | CodableAll(ts, LitLengths(h), DistLengths(h))
        ensures DecodedRight(h, ts)
      {
        Sufficient(h, ts);
      }
    } else if !HasNoZero(LitLengths(h)) {
      LitNeeded(h);
      assert CodableAll([], LitLengths(h), DistLengths(h));
    } else {
      DistNeeded(h);
    }
  }
}
