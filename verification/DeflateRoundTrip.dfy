// Encoders for DEFLATE blocks (RFC 1951 sections 3.2.3 to 3.2.7), and the theorem that the inflater
// undoes every one of them.

module DeflateRoundTrip {
  import opened Bits
  import opened BitReader
  import opened Huffman
  import opened Output
  import opened Deflate

  // ---- bit strings at a position -----------------------------------------------------

  /** The bit string `s` stands at position `p`. */
  ghost predicate At(bits: seq<bool>, p: nat, s: seq<bool>) {
    p + |s| <= |bits| && forall i :: 0 <= i < |s| ==> bits[p + i] == s[i]
  }

  lemma AtSplit(bits: seq<bool>, p: nat, a: seq<bool>, b: seq<bool>)
    requires At(bits, p, a + b)
    ensures At(bits, p, a) && At(bits, p + |a|, b)
  {
    forall i | 0 <= i < |b|
      ensures bits[p + |a| + i] == b[i]
    {
      assert (a + b)[|a| + i] == b[i];
    }
    forall i | 0 <= i < |a|
      ensures bits[p + i] == a[i]
    {
      assert (a + b)[i] == a[i];
    }
  }

  lemma AtSlice(bits: seq<bool>, p: nat, s: seq<bool>, q: nat)
    requires At(bits, p, s) && q == p + |s|
    ensures q <= |bits| && bits[p..q] == s
  {
  }

  lemma AtInside(bits: seq<bool>, p: nat, s: seq<bool>)
    requires At(bits, p, s)
    ensures p + |s| <= |bits|
  {
  }

  lemma ReadField(bits: seq<bool>, p: nat, v: nat, n: nat)
    requires v < Pow2(n) && At(bits, p, Digits(v, n))
    ensures ReadBits(bits, p, n) == Field(v, p + n)
  {
    AtSlice(bits, p, Digits(v, n), p + n);
    ValueOfDigits(v, n);
  }

  // ---- symbols -------------------------------------------------------------------------

  /** The code of a symbol; a symbol without one has no bits. */
  ghost function SymBits(l: seq<nat>, s: nat): seq<bool> {
    if s < |l| && l[s] <= MAX_BITS then CodeBits(l, s) else []
  }

  ghost predicate HasCode(l: seq<nat>, s: nat) {
    s < |l| && 1 <= l[s] <= MAX_BITS
  }

  /** A table that decodes a usable code correctly. */
  ghost predicate Decodes(t: Table, l: seq<nat>) {
    t.Valid() && Kraft(l) && Faithful(t, l)
  }

  lemma DecodeAt(t: Table, l: seq<nat>, s: nat, bits: seq<bool>, p: nat)
    requires t.Valid() && Decodes(t, l) && HasCode(l, s) && At(bits, p, SymBits(l, s))
    ensures p <= |bits| && Decode(bits, p, t) == Symbol(s, p + |SymBits(l, s)|)
    ensures |SymBits(l, s)| > 0
  {
    AtSlice(bits, p, SymBits(l, s), p + l[s]);
    DecodeOfCode(l, s, t, bits, p);
  }

  // ---- tokens ---------------------------------------------------------------------------

  /** A literal byte, or a match given by its length and distance symbols and their extra bits. */
  datatype RawToken =
    | Literal(b: byte)
    | Match(li: nat, lenExtra: nat, di: nat, distExtra: nat)
  {
    ghost predicate Valid() {
      Match? ==> li < 29 && lenExtra < Pow2(LenExtra(li)) && di < 30 && distExtra < Pow2(DistExtra(di))
    }
  }

  type Token = t: RawToken | t.Valid() witness Literal(0)

  ghost function Length(t: Token): nat {
    if t.Match? then LenBase(t.li) + t.lenExtra else 1
  }

  ghost function Distance(t: Token): (r: nat)
    ensures 1 <= r <= WINDOW
  {
    if t.Match? then DistanceRange(t.di); DistBase(t.di) + t.distExtra else 1
  }

  /** Every length from 3 to 258 and every distance from 1 to 32768 has a token. */
  lemma EveryMatch(length: nat, distance: nat) returns (t: Token)
    requires 3 <= length <= 258 && 1 <= distance <= WINDOW
    ensures t.Match? && Length(t) == length && Distance(t) == distance
  {
    var li := FindLength(length);
    var di := FindDistance(distance);
    t := Match(li, length - LenBase(li), di, distance - DistBase(di));
  }

  /** The length intervals are contiguous, and so are the distance intervals. */
  lemma LengthsContiguous(i: nat)
    requires 1 <= i <= 27
    ensures LenBase(i) == LenBase(i - 1) + Pow2(LenExtra(i - 1))
  {
    hide Pow2;
    Pow2Values();
  }

  lemma DistancesContiguous(i: nat)
    requires 1 <= i <= 29
    ensures DistBase(i) == DistBase(i - 1) + Pow2(DistExtra(i - 1))
  {
    hide Pow2;
    Pow2Values();
  }

  lemma Ends()
    ensures LenBase(0) == 3 && LenBase(27) + Pow2(LenExtra(27)) == 259
    ensures LenBase(28) == 258 && Pow2(LenExtra(28)) == 1
    ensures DistBase(0) == 1 && DistBase(29) + Pow2(DistExtra(29)) == WINDOW + 1
  {
    hide Pow2;
    Pow2Values();
  }

  lemma FindLength(length: nat) returns (li: nat)
    requires 3 <= length <= 258
    ensures li < 29 && LenBase(li) <= length < LenBase(li) + Pow2(LenExtra(li))
  {
    hide Pow2, LenBase, LenExtra;
    Ends();
    if length == 258 { return 28; }
    li := 27;
    while length < LenBase(li)
      invariant li <= 27 && length < LenBase(li) + Pow2(LenExtra(li))
    {
      LengthsContiguous(li);
      li := li - 1;
    }
  }

  lemma FindDistance(distance: nat) returns (di: nat)
    requires 1 <= distance <= WINDOW
    ensures di < 30 && DistBase(di) <= distance < DistBase(di) + Pow2(DistExtra(di))
  {
    hide Pow2, DistBase, DistExtra;
    Ends();
    di := 29;
    while distance < DistBase(di)
      invariant di <= 29 && distance < DistBase(di) + Pow2(DistExtra(di))
    {
      DistancesContiguous(di);
      di := di - 1;
    }
  }

  /** What a token adds to the output. */
  ghost function Emit(out: seq<byte>, t: Token): seq<byte> {
    match t
    case Literal(b) => out + [b]
    case Match(_, _, _, _) => Copy(out, Length(t), Distance(t))
  }

  /** The LZ77 expansion of a token list. */
  ghost function Expand(out: seq<byte>, ts: seq<Token>): seq<byte>
    decreases ts
  {
    if ts == [] then out else Expand(Emit(out, ts[0]), ts[1..])
  }

  /** What follows the length symbol of a match. */
  ghost function MatchTail(t: Token, dl: seq<nat>): seq<bool>
    requires t.Match?
  {
    Digits(t.lenExtra, LenExtra(t.li)) + (SymBits(dl, t.di) + Digits(t.distExtra, DistExtra(t.di)))
  }

  ghost function TokenBits(t: Token, ll: seq<nat>, dl: seq<nat>): seq<bool> {
    match t
    case Literal(b) => SymBits(ll, b)
    case Match(li, _, _, _) => SymBits(ll, 257 + li) + MatchTail(t, dl)
  }

  /** The two code length vectors give every symbol of the token a code. */
  ghost predicate Codable(t: Token, ll: seq<nat>, dl: seq<nat>) {
    match t
    case Literal(b) => HasCode(ll, b)
    case Match(li, _, di, _) => HasCode(ll, 257 + li) && HasCode(dl, di)
  }

  /** The tokens of a block followed by the end-of-block symbol. */
  ghost function TokensBits(ts: seq<Token>, ll: seq<nat>, dl: seq<nat>): seq<bool>
    decreases ts
  {
    if ts == [] then SymBits(ll, 256) else TokenBits(ts[0], ll, dl) + TokensBits(ts[1..], ll, dl)
  }

  ghost predicate CodableAll(ts: seq<Token>, ll: seq<nat>, dl: seq<nat>) {
    HasCode(ll, 256) && forall i :: 0 <= i < |ts| ==> Codable(ts[i], ll, dl)
  }

  lemma MatchTurnOf(bits: seq<bool>, p: nat, dist: Table, dl: seq<nat>, t: Token, out: seq<byte>)
    requires t.Match? && dist.Valid() && Decodes(dist, dl) && HasCode(dl, t.di) && At(bits, p, MatchTail(t, dl))
    ensures p <= |bits| && MatchTurn(bits, p, t.li, dist, out) == More(Emit(out, t), p + |MatchTail(t, dl)|)
  {
    hide Decode, ReadBits, Decodes, SymBits, HasCode, Digits, At, Copy, LenBase, LenExtra, DistBase, DistExtra, Pow2;
    var b, c, d := Digits(t.lenExtra, LenExtra(t.li)), SymBits(dl, t.di), Digits(t.distExtra, DistExtra(t.di));
    AtInside(bits, p, MatchTail(t, dl));
    AtSplit(bits, p, b, c + d);
    AtSplit(bits, p + |b|, c, d);
    ReadField(bits, p, t.lenExtra, LenExtra(t.li));
    DecodeAt(dist, dl, t.di, bits, p + |b|);
    ReadField(bits, p + |b| + |c|, t.distExtra, DistExtra(t.di));
  }

  lemma LiteralTurn(bits: seq<bool>, p: nat, lit: Table, dist: Table, ll: seq<nat>, b: byte, out: seq<byte>)
    requires lit.Valid() && dist.Valid() && Decodes(lit, ll) && HasCode(ll, b) && At(bits, p, SymBits(ll, b))
    ensures p <= |bits| && SymbolTurn(bits, p, lit, dist, out) == More(out + [b], p + |SymBits(ll, b)|)
    ensures |SymBits(ll, b)| > 0
  {
    hide Decode, Decodes, SymBits, HasCode, At, MatchTurn;
    DecodeAt(lit, ll, b, bits, p);
  }

  lemma MatchTokenTurn(bits: seq<bool>, p: nat, lit: Table, dist: Table, ll: seq<nat>, dl: seq<nat>, t: Token,
                       out: seq<byte>)
    requires lit.Valid() && dist.Valid() && Decodes(lit, ll) && Decodes(dist, dl)
    requires t.Match? && HasCode(ll, 257 + t.li) && HasCode(dl, t.di)
    requires At(bits, p, SymBits(ll, 257 + t.li) + MatchTail(t, dl))
    ensures p <= |bits|
    ensures SymbolTurn(bits, p, lit, dist, out) == More(Emit(out, t), p + |SymBits(ll, 257 + t.li) + MatchTail(t, dl)|)
    ensures |SymBits(ll, 257 + t.li)| > 0
  {
    hide Decode, Decodes, SymBits, HasCode, At, MatchTail, MatchTurn, Emit;
    var a := SymBits(ll, 257 + t.li);
    AtSplit(bits, p, a, MatchTail(t, dl));
    DecodeAt(lit, ll, 257 + t.li, bits, p);
    MatchTurnOf(bits, p + |a|, dist, dl, t, out);
  }

  lemma TokenTurn(bits: seq<bool>, p: nat, lit: Table, dist: Table, ll: seq<nat>, dl: seq<nat>, t: Token,
                  out: seq<byte>)
    requires lit.Valid() && dist.Valid() && Decodes(lit, ll) && (t.Match? ==> Decodes(dist, dl)) && Codable(t, ll, dl)
    requires At(bits, p, TokenBits(t, ll, dl))
    ensures p <= |bits| && SymbolTurn(bits, p, lit, dist, out) == More(Emit(out, t), p + |TokenBits(t, ll, dl)|)
    ensures |TokenBits(t, ll, dl)| > 0
  {
    hide Decodes, SymBits, HasCode, At, MatchTail, SymbolTurn, Copy, Length, Distance;
    if t.Literal? {
      LiteralTurn(bits, p, lit, dist, ll, t.b, out);
    } else {
      MatchTokenTurn(bits, p, lit, dist, ll, dl, t, out);
    }
  }

  /** Some token refers back. */
  ghost predicate RefersBack(ts: seq<Token>) {
    exists i :: 0 <= i < |ts| && ts[i].Match?
  }

  /** The symbol loop undoes the encoding of a token list. */
  lemma {:induction false} CodesOfTokens(bits: seq<bool>, p: nat, lit: Table, dist: Table, ll: seq<nat>, dl: seq<nat>,
                                         ts: seq<Token>, out: seq<byte>)
    requires lit.Valid() && dist.Valid() && Decodes(lit, ll) && (RefersBack(ts) ==> Decodes(dist, dl))
    requires CodableAll(ts, ll, dl) && At(bits, p, TokensBits(ts, ll, dl))
    ensures p <= |bits| && Codes(bits, p, lit, dist, out) == Next(Expand(out, ts), p + |TokensBits(ts, ll, dl)|)
    decreases ts
  {
    hide Decode, Decodes, SymBits, HasCode, At, Emit, TokenBits, Codable;
    if ts == [] {
      DecodeAt(lit, ll, 256, bits, p);
    } else {
      var a := TokenBits(ts[0], ll, dl);
      AtSplit(bits, p, a, TokensBits(ts[1..], ll, dl));
      TokenTurn(bits, p, lit, dist, ll, dl, ts[0], out);
      CodesOfTokens(bits, p + |a|, lit, dist, ll, dl, ts[1..], Emit(out, ts[0]));
    }
  }

  // ---- code length vectors ------------------------------------------------------------------

  /** The run-length operations on code lengths: a length, the last length 3 to 6 times again, zero
      3 to 10 times, zero 11 to 138 times. */
  datatype RawOp = One(len: nat) | Again(extra: nat) | ZerosShort(extra: nat) | ZerosLong(extra: nat) {
    ghost predicate Valid() {
      match this
      case One(len) => len < 16
      case Again(extra) => extra < Pow2(2)
      case ZerosShort(extra) => extra < Pow2(3)
      case ZerosLong(extra) => extra < Pow2(7)
    }
  }

  type LengthOp = op: RawOp | op.Valid() witness One(0)

  ghost function OpSym(op: LengthOp): (r: nat)
    ensures r < CL_SYMBOLS
  {
    match op
    case One(len) => len
    case Again(_) => 16
    case ZerosShort(_) => 17
    case ZerosLong(_) => 18
  }

  ghost function OpExtra(op: LengthOp): seq<bool> {
    match op
    case One(_) => []
    case Again(extra) => Digits(extra, 2)
    case ZerosShort(extra) => Digits(extra, 3)
    case ZerosLong(extra) => Digits(extra, 7)
  }

  ghost function OpBits(op: LengthOp, cl: seq<nat>): seq<bool> {
    SymBits(cl, OpSym(op)) + OpExtra(op)
  }

  ghost function OpsBits(ops: seq<LengthOp>, cl: seq<nat>): seq<bool>
    decreases ops
  {
    if ops == [] then [] else OpBits(ops[0], cl) + OpsBits(ops[1..], cl)
  }

  ghost predicate OpsCodable(ops: seq<LengthOp>, cl: seq<nat>) {
    forall i :: 0 <= i < |ops| ==> HasCode(cl, OpSym(ops[i]))
  }

  /** The operation starts before the end of the array, and repeats a length only if there is one. */
  ghost predicate OpStarts(done: seq<nat>, op: LengthOp, total: nat) {
    AllSmall(done) && |done| < total && (op.Again? ==> done != [])
  }

  /** What one operation adds to the lengths so far; a run is cut off at `total`. */
  ghost function ApplyOp(done: seq<nat>, op: LengthOp, total: nat): (r: seq<nat>)
    requires OpStarts(done, op, total)
    ensures AllSmall(r) && |done| < |r| <= total
  {
    match op
    case One(len) => done + [len]
    case Again(extra) => Fill(done, done[|done| - 1], extra + 3, total)
    case ZerosShort(extra) => Fill(done, 0, extra + 3, total)
    case ZerosLong(extra) => Fill(done, 0, extra + 11, total)
  }

  function Copies(v: nat, n: nat): (r: seq<nat>)
    ensures |r| == n
  {
    seq(n, _ => v)
  }

  lemma {:induction false} FillIs(done: seq<nat>, v: nat, rep: nat, total: nat)
    requires |done| + rep <= total && v <= MAX_BITS && AllSmall(done)
    ensures Fill(done, v, rep, total) == done + Copies(v, rep)
    decreases rep
  {
    if rep > 0 {
      FillIs(done + [v], v, rep - 1, total);
      assert done + [v] + Copies(v, rep - 1) == done + Copies(v, rep);
    } else {
      assert done + Copies(v, 0) == done;
    }
  }

  /** The last length can be repeated three to six times, section 3.2.7. */
  lemma EveryRepeat(done: seq<nat>, n: nat, total: nat) returns (op: LengthOp)
    requires AllSmall(done) && done != [] && |done| + n <= total && 3 <= n <= 6
    ensures OpSym(op) == 16 && |OpExtra(op)| == 2 && OpStarts(done, op, total)
    ensures ApplyOp(done, op, total) == done + Copies(done[|done| - 1], n)
  {
    assert Pow2(2) == 4;
    op := Again(n - 3);
    FillIs(done, done[|done| - 1], n, total);
  }

  /** There are runs of three to ten and of eleven to 138 zeros. */
  lemma EveryZeros(done: seq<nat>, n: nat, total: nat) returns (op: LengthOp)
    requires AllSmall(done) && |done| + n <= total && 3 <= n <= 138
    ensures OpSym(op) == (if n <= 10 then 17 else 18) && |OpExtra(op)| == (if n <= 10 then 3 else 7)
    ensures OpStarts(done, op, total) && ApplyOp(done, op, total) == done + Copies(0, n)
  {
    assert Pow2(3) == 8 && Pow2(7) == 128;
    op := if n <= 10 then ZerosShort(n - 3) else ZerosLong(n - 11);
    FillIs(done, 0, n, total);
  }

  /** The operations lead from the lengths `done` to the lengths `all`. */
  ghost predicate OpsMake(done: seq<nat>, ops: seq<LengthOp>, all: seq<nat>)
    decreases ops
  {
    if ops == [] then done == all
    else OpStarts(done, ops[0], |all|) && OpsMake(ApplyOp(done, ops[0], |all|), ops[1..], all)
  }

  lemma OpStep(bits: seq<bool>, p: nat, tree: Table, cl: seq<nat>, total: nat, done: seq<nat>, op: LengthOp)
    requires tree.Valid() && Decodes(tree, cl) && HasCode(cl, OpSym(op)) && OpStarts(done, op, total)
    requires At(bits, p, OpBits(op, cl))
    ensures p + |OpBits(op, cl)| <= |bits|
    ensures ExpandLengths(bits, p, tree, total, done)
            == ExpandLengths(bits, p + |OpBits(op, cl)|, tree, total, ApplyOp(done, op, total))
  {
    hide Decode, Decodes, SymBits, HasCode, Digits, ReadBits, Fill, At, Pow2;
    var a := SymBits(cl, OpSym(op));
    AtInside(bits, p, OpBits(op, cl));
    AtSplit(bits, p, a, OpExtra(op));
    DecodeAt(tree, cl, OpSym(op), bits, p);
    match op
    case One(len) =>
    case Again(extra) => ReadField(bits, p + |a|, extra, 2);
    case ZerosShort(extra) => ReadField(bits, p + |a|, extra, 3);
    case ZerosLong(extra) => ReadField(bits, p + |a|, extra, 7);
  }

  /** From `p` on and with the lengths `done`, the decoder gets to `all` and to position `end`. */
  ghost predicate ExpandsTo(bits: seq<bool>, p: nat, tree: Table, done: seq<nat>, all: seq<nat>, end: nat)
    requires tree.Valid()
  {
    p <= |bits| && |done| <= |all| && AllSmall(done) && ExpandLengths(bits, p, tree, |all|, done) == Expanded(all, end)
  }

  /** The decoder expands the run-length coded lengths as the operations say. */
  lemma {:induction false} ExpandOps(bits: seq<bool>, p: nat, tree: Table, cl: seq<nat>, done: seq<nat>,
                                     ops: seq<LengthOp>, all: seq<nat>)
    requires tree.Valid() && Decodes(tree, cl) && OpsCodable(ops, cl)
    requires AllSmall(done) && |done| <= |all| && OpsMake(done, ops, all) && At(bits, p, OpsBits(ops, cl))
    ensures ExpandsTo(bits, p, tree, done, all, p + |OpsBits(ops, cl)|)
    decreases ops
  {
    hide Decodes, At, ApplyOp, OpBits, HasCode, OpSym, OpStarts;
    if ops == [] {
      AtInside(bits, p, OpsBits(ops, cl));
    } else {
      OpsHead(done, ops, all, cl);
      hide ExpandLengths, ExpandsTo, OpsBits, OpsMake, OpsCodable, AllSmall;
      var a, b := OpBits(ops[0], cl), OpsBits(ops[1..], cl);
      AtSplit(bits, p, a, b);
      ExpandOps(bits, p + |a|, tree, cl, ApplyOp(done, ops[0], |all|), ops[1..], all);
      ExpandsMore(bits, p, tree, cl, done, ops[0], all, p + |a|, p + |a| + |b|);
    }
  }

  lemma ExpandsMore(bits: seq<bool>, p: nat, tree: Table, cl: seq<nat>, done: seq<nat>, op: LengthOp, all: seq<nat>,
                    q: nat, end: nat)
    requires tree.Valid() && Decodes(tree, cl) && HasCode(cl, OpSym(op)) && OpStarts(done, op, |all|)
    requires At(bits, p, OpBits(op, cl)) && q == p + |OpBits(op, cl)|
    requires ExpandsTo(bits, q, tree, ApplyOp(done, op, |all|), all, end)
    ensures ExpandsTo(bits, p, tree, done, all, end)
  {
    hide Decodes, At, ApplyOp, OpBits, HasCode, OpSym, ExpandLengths;
    OpStep(bits, p, tree, cl, |all|, done, op);
  }

  lemma OpsHead(done: seq<nat>, ops: seq<LengthOp>, all: seq<nat>, cl: seq<nat>)
    requires ops != [] && OpsCodable(ops, cl) && OpsMake(done, ops, all)
    ensures OpStarts(done, ops[0], |all|) && OpsMake(ApplyOp(done, ops[0], |all|), ops[1..], all)
    ensures HasCode(cl, OpSym(ops[0])) && OpsCodable(ops[1..], cl)
    ensures OpsBits(ops, cl) == OpBits(ops[0], cl) + OpsBits(ops[1..], cl)
  {
    hide ApplyOp, OpBits, HasCode, OpSym, OpStarts;
  }

  // ---- dynamic block headers -------------------------------------------------------------------

  /** A dynamic block's header: HLIT, HDIST and HCLEN as transmitted, the code length code, and the
      operations that make up the code lengths `lens`. */
  datatype RawHeader = RawHeader(hlit: nat, hdist: nat, hclen: nat, cl: seq<nat>, ops: seq<LengthOp>, lens: seq<nat>) {
    ghost predicate Valid() {
      && hlit < 32 && hdist < 32 && hclen < 16
      && ClFits(cl, hclen + 4)
      && |lens| == hlit + 257 + hdist + 1 && AllSmall(lens)
    }
  }

  /** Lengths below 8, none but the first `n` in transmission order different from 0. */
  ghost predicate ClFits(cl: seq<nat>, n: nat) {
    && |cl| == CL_SYMBOLS
    && (forall s :: 0 <= s < CL_SYMBOLS ==> cl[s] < 8)
    && (forall s :: 0 <= s < CL_SYMBOLS && ClPlace(s) >= n ==> cl[s] == 0)
  }

  type DynHeader = h: RawHeader | h.Valid()
    ghost witness RawHeader(0, 0, 0, seq(CL_SYMBOLS, (_: nat) => 0), [], seq(258, (_: nat) => 0))

  /** Where each symbol of the code length code is sent. */
  function ClPlace(s: nat): nat
    requires s < CL_SYMBOLS
  {
    [3, 17, 15, 13, 11, 9, 7, 5, 4, 6, 8, 10, 12, 14, 16, 18, 0, 1, 2][s]
  }

  ghost function LitLengths(h: DynHeader): (r: seq<nat>)
    ensures IsLengths(r)
  {
    h.lens[..h.hlit + 257]
  }

  ghost function DistLengths(h: DynHeader): (r: seq<nat>)
    ensures IsLengths(r)
  {
    h.lens[h.hlit + 257..]
  }

  ghost function ClBits(cl: seq<nat>, i: nat, n: nat): seq<bool>
    requires |cl| == CL_SYMBOLS && i <= n <= CL_SYMBOLS
    decreases n - i
  {
    if i == n then [] else Digits(cl[ClOrder(i)], 3) + ClBits(cl, i + 1, n)
  }

  /** The first `i` code length code lengths in transmission order have arrived. */
  ghost predicate Arrived(cur: seq<nat>, cl: seq<nat>, i: nat) {
    && |cur| == |cl| == CL_SYMBOLS && IsLengths(cur)
    && forall s :: 0 <= s < CL_SYMBOLS ==> cur[s] == if ClPlace(s) < i then cl[s] else 0
  }

  lemma PlaceOfOrder(i: nat, s: nat)
    requires i < CL_SYMBOLS && s < CL_SYMBOLS
    ensures ClPlace(s) == i <==> s == ClOrder(i)
  {
    assert ClPlace(ClOrder(i)) == i;
    assert ClOrder(ClPlace(s)) == s;
  }

  lemma ArriveNext(cur: seq<nat>, cl: seq<nat>, i: nat)
    requires i < CL_SYMBOLS && Arrived(cur, cl, i) && cl[ClOrder(i)] <= MAX_BITS
    ensures Arrived(cur[ClOrder(i) := cl[ClOrder(i)]], cl, i + 1)
  {
    hide ClPlace, ClOrder;
    var next := cur[ClOrder(i) := cl[ClOrder(i)]];
    forall s | 0 <= s < CL_SYMBOLS
      ensures next[s] == if ClPlace(s) < i + 1 then cl[s] else 0
    {
      PlaceOfOrder(i, s);
    }
  }

  lemma {:induction false} ClLengthsOf(bits: seq<bool>, p: nat, i: nat, n: nat, cl: seq<nat>, cur: seq<nat>)
    requires i <= n <= CL_SYMBOLS && |cl| == |cur| == CL_SYMBOLS && IsLengths(cur) && Arrived(cur, cl, i)
    requires forall s :: 0 <= s < CL_SYMBOLS ==> cl[s] < 8
    requires At(bits, p, ClBits(cl, i, n))
    ensures p <= |bits| && Arrived(ClLengths(bits, p, i, n, cur).cl, cl, n)
    ensures ClLengths(bits, p, i, n, cur).at == p + |ClBits(cl, i, n)|
    decreases n - i
  {
    hide At, ReadBits, Digits, Arrived, ClOrder;
    AtInside(bits, p, ClBits(cl, i, n));
    if i < n {
      var v := cl[ClOrder(i)];
      assert Pow2(3) == 8;
      AtSplit(bits, p, Digits(v, 3), ClBits(cl, i + 1, n));
      ReadField(bits, p, v, 3);
      ArriveNext(cur, cl, i);
      ClLengthsOf(bits, p + 3, i + 1, n, cl, cur[ClOrder(i) := v]);
    }
  }

  lemma AllArrived(r: seq<nat>, cl: seq<nat>, n: nat)
    requires ClFits(cl, n) && Arrived(r, cl, n)
    ensures r == cl
  {
  }

  ghost function HeaderBits(h: DynHeader): seq<bool> {
    Digits(h.hlit, 5) + (Digits(h.hdist, 5) + (Digits(h.hclen, 4) + ClBits(h.cl, 0, h.hclen + 4)))
  }

  lemma HeaderOf(bits: seq<bool>, p: nat, h: DynHeader)
    requires At(bits, p, HeaderBits(h))
    ensures p <= |bits| && DynamicHeader(bits, p) == Header(h.hlit + 257, h.hdist + 1, h.cl, p + |HeaderBits(h)|)
  {
    hide At, ReadBits, Digits, Arrived, ClLengths, ClBits, ClPlace;
    var n := h.hclen + 4;
    var a, b, c, d := Digits(h.hlit, 5), Digits(h.hdist, 5), Digits(h.hclen, 4), ClBits(h.cl, 0, n);
    AtInside(bits, p, HeaderBits(h));
    Pow2Values();
    AtSplit(bits, p, a, b + (c + d));
    AtSplit(bits, p + 5, b, c + d);
    AtSplit(bits, p + 10, c, d);
    ReadField(bits, p, h.hlit, 5);
    ReadField(bits, p + 5, h.hdist, 5);
    ReadField(bits, p + 10, h.hclen, 4);
    var none := seq(CL_SYMBOLS, (_: nat) => 0);
    NoneArrived(none, h);
    ClLengthsOf(bits, p + 14, 0, n, h.cl, none);
    AllArrived(ClLengths(bits, p + 14, 0, n, none).cl, h.cl, n);
  }

  lemma NoneArrived(none: seq<nat>, h: DynHeader)
    requires none == seq(CL_SYMBOLS, (_: nat) => 0)
    ensures |h.cl| == CL_SYMBOLS && Arrived(none, h.cl, 0)
    ensures forall s :: 0 <= s < CL_SYMBOLS ==> h.cl[s] < 8
  {
  }

  // ---- the fixed codes ---------------------------------------------------------------------------

  /** The share of the code space that the first `n` fixed literal codes use, in units of 2^-15. */
  ghost function FixedShare(n: nat): nat {
    if n <= 144 then 128 * n
    else if n <= 256 then 128 * 144 + 64 * (n - 144)
    else if n <= 280 then 128 * 144 + 64 * 112 + 256 * (n - 256)
    else 128 * 144 + 64 * 112 + 256 * 24 + 128 * (n - 280)
  }

  lemma {:induction false} FixedLitWeight(n: nat)
    requires n <= 288
    ensures Weight(FixedLit()[..n], MAX_BITS) == FixedShare(n) && Count(FixedLit()[..n], 0) == 0
  {
    if n != 0 {
      FixedLitWeight(n - 1);
      var l := FixedLit()[..n];
      assert l[..n - 1] == FixedLit()[..n - 1];
      assert Pow2(6) == 64 && Pow2(7) == 128 && Pow2(8) == 256;
    }
  }

  lemma {:induction false} FixedDistWeight(n: nat)
    requires n <= 32
    ensures Weight(FixedDist()[..n], MAX_BITS) == 1024 * n && Count(FixedDist()[..n], 0) == 0
  {
    if n != 0 {
      FixedDistWeight(n - 1);
      var l := FixedDist()[..n];
      assert l[..n - 1] == FixedDist()[..n - 1];
      assert Pow2(10) == 1024;
    }
  }

  /** The fixed codes use the whole code space and leave no symbol without a code. */
  lemma FixedCodes()
    ensures Weight(FixedLit(), MAX_BITS) == Pow2(MAX_BITS) && HasNoZero(FixedLit())
    ensures Weight(FixedDist(), MAX_BITS) == Pow2(MAX_BITS) && HasNoZero(FixedDist())
  {
    hide Weight, Count;
    FixedLitWeight(288);
    FixedDistWeight(32);
    assert FixedLit()[..288] == FixedLit() && FixedDist()[..32] == FixedDist();
    assert Pow2(12) == 4096;
    assert Pow2(15) == 32768;
  }

  function Clamp(n: int, most: nat): nat {
    if n < 0 then 0 else if n > most then most else n
  }

  lemma {:induction false} FixedCount(n: nat, b: nat)
    requires n <= 288
    ensures Count(FixedLit()[..n], b) ==
            if b == 7 then Clamp(n - 256, 24) else if b == 8 then Clamp(n, 144) + Clamp(n - 280, 8)
            else if b == 9 then Clamp(n - 144, 112) else 0
  {
    if n != 0 {
      FixedCount(n - 1, b);
      assert FixedLit()[..n][..n - 1] == FixedLit()[..n - 1];
    }
  }

  lemma FixedFirsts(count: seq<nat>)
    requires count == Counts(FixedLit())
    ensures First(count, 7) == 0 && First(count, 8) == 48 && First(count, 9) == 400
  {
    hide Count, FixedLit;
    forall b | 0 <= b <= MAX_BITS
      ensures count[b] == if b == 7 then 24 else if b == 8 then 152 else if b == 9 then 112 else 0
    {
      FixedCount(288, b);
      assert FixedLit()[..288] == FixedLit();
    }
    assert First(count, 2) == 0;
    assert First(count, 4) == 0;
    assert First(count, 6) == 0;
    assert First(count, 7) == 0;
    assert First(count, 8) == 48;
  }

  /** The codes of the fixed blocks are those listed in section 3.2.6. */
  lemma FixedCodeTable(s: nat)
    requires s < 288
    ensures FixedLit()[s] == if s < 144 then 8 else if s < 256 then 9 else if s < 280 then 7 else 8
    ensures Code(FixedLit(), s) ==
            if s < 144 then 48 + s else if s < 256 then 400 + (s - 144) else if s < 280 then s - 256
              else 192 + (s - 280)
  {
    hide Count, First;
    FixedFirsts(Counts(FixedLit()));
    FixedCount(s, FixedLit()[s]);
  }

  // ---- blocks ------------------------------------------------------------------------------------

  /** A stored block with any fill bits and any value in the unchecked length complement, or a
      compressed block. */
  datatype Block =
    | StoredBlock(pad: seq<bool>, nlen: seq<byte>, data: seq<byte>)
    | FixedBlock(ts: seq<Token>)
    | DynamicBlock(h: DynHeader, ts: seq<Token>)

  /** A code the decoder is right about: with the intended symbol placement any usable one, as
      written a usable one that leaves no symbol without a code. */
  ghost predicate Buildable(l: seq<nat>, layout: Layout) {
    Kraft(l) && (layout == Intended || HasNoZero(l))
  }

  ghost predicate DynamicFits(h: DynHeader, ts: seq<Token>, layout: Layout) {
    && OpsCodable(h.ops, h.cl) && OpsMake([], h.ops, h.lens)
    && CodableAll(ts, LitLengths(h), DistLengths(h))
    && Buildable(h.cl, layout) && Buildable(LitLengths(h), layout)
    && (RefersBack(ts) ==> Buildable(DistLengths(h), layout))
  }

  /** The block is well-formed and may stand at bit position `p`. */
  ghost predicate Fits(b: Block, p: nat, layout: Layout) {
    match b
    case StoredBlock(pad, nlen, data) =>
      (p + 3 + |pad|) % 8 == 0 && |pad| < 8 && |nlen| == 2 && |data| < 65536
    case FixedBlock(ts) => CodableAll(ts, FixedLit(), FixedDist())
    case DynamicBlock(h, ts) => DynamicFits(h, ts, layout)
  }

  /** What a block adds to the output. */
  ghost function ExpandBlock(out: seq<byte>, b: Block): seq<byte> {
    match b
    case StoredBlock(_, _, data) => out + data
    case FixedBlock(ts) => Expand(out, ts)
    case DynamicBlock(_, ts) => Expand(out, ts)
  }

  ghost function TypeOf(b: Block): (r: nat)
    ensures r < 4
  {
    match b
    case StoredBlock(_, _, _) => 0
    case FixedBlock(_) => 1
    case DynamicBlock(_, _) => 2
  }

  /** The bytes of a stored block: length, length complement, data. */
  ghost function Payload(nlen: seq<byte>, data: seq<byte>): (r: seq<byte>)
    ensures |r| == 2 + |nlen| + |data|
  {
    [|data| % 256, (|data| / 256) % 256] + nlen + data
  }

  ghost function DynamicBits(h: DynHeader, ts: seq<Token>): seq<bool> {
    (HeaderBits(h) + OpsBits(h.ops, h.cl)) + TokensBits(ts, LitLengths(h), DistLengths(h))
  }

  ghost function BodyBits(b: Block): seq<bool> {
    match b
    case StoredBlock(pad, nlen, data) => pad + SrcBits(Payload(nlen, data))
    case FixedBlock(ts) => TokensBits(ts, FixedLit(), FixedDist())
    case DynamicBlock(h, ts) => DynamicBits(h, ts)
  }

  /** A whole block: the final flag, two type bits, the body. */
  ghost function BlockBits(b: Block, final: bool): seq<bool> {
    [final] + (Digits(TypeOf(b), 2) + BodyBits(b))
  }

  // ---- decoding a block ----------------------------------------------------------------------------

  lemma BuiltDecodes(l: seq<nat>, stale: seq<nat>, layout: Layout)
    requires IsLengths(l) && |stale| == MAX_SYMBOLS && Buildable(l, layout)
    ensures Decodes(Built(l, stale, layout), l)
  {
    BuiltFaithful(l, stale, layout);
  }

  lemma BytesAt(src: seq<byte>, pos: nat, end: nat, data: seq<byte>)
    requires At(SrcBits(src), 8 * pos, SrcBits(data)) && end == pos + |data|
    ensures end <= |src| && src[pos..end] == data
  {
    hide SrcBits, At;
    AtSlice(SrcBits(src), 8 * pos, SrcBits(data), 8 * end);
    SrcBitsSlice(src, pos, end);
    SrcBitsInjective(src[pos..end], data);
  }

  lemma StoredAt(src: seq<byte>, pos: nat, end: nat, nlen: seq<byte>, data: seq<byte>, out: seq<byte>, p: nat)
    requires |nlen| == 2 && |data| < 65536 && end == pos + 4 + |data| <= |src| && pos == (p + 7) / 8
    requires src[pos..end] == Payload(nlen, data)
    ensures Stored(src, p, out) == Next(out + data, 8 * end)
  {
    var stored := Payload(nlen, data);
    assert src[pos] == stored[0] && src[pos + 1] == stored[1];
    assert src[pos + 4..end] == stored[4..] == data;
  }

  lemma RoundUp(p: nat, k: nat)
    requires (p + k) % 8 == 0 && k < 8
    ensures 8 * ((p + 7) / 8) == p + k
  {
  }

  lemma StoredFrom(src: seq<byte>, p: nat, pos: nat, pad: seq<bool>, nlen: seq<byte>, data: seq<byte>, out: seq<byte>,
                   end: nat)
    requires 8 * pos == p + |pad| && pos == (p + 7) / 8 && end == pos + 4 + |data| && |nlen| == 2 && |data| < 65536
    requires At(SrcBits(src), p, pad + SrcBits(Payload(nlen, data)))
    ensures p <= 8 * |src| && Stored(src, p, out) == Next(out + data, 8 * end)
  {
    hide SrcBits, At, Payload, Stored;
    var payload := Payload(nlen, data);
    AtInside(SrcBits(src), p, pad + SrcBits(payload));
    AtSplit(SrcBits(src), p, pad, SrcBits(payload));
    BytesAt(src, pos, end, payload);
    StoredAt(src, pos, end, nlen, data, out, p);
  }

  lemma StoredOf(src: seq<byte>, p: nat, pad: seq<bool>, nlen: seq<byte>, data: seq<byte>, out: seq<byte>)
    requires (p + |pad|) % 8 == 0 && |pad| < 8 && |nlen| == 2 && |data| < 65536
    requires At(SrcBits(src), p, pad + SrcBits(Payload(nlen, data)))
    ensures p <= 8 * |src|
    ensures Stored(src, p, out) == Next(out + data, p + |pad| + 8 * (4 + |data|))
  {
    hide SrcBits, At, Payload, Stored;
    RoundUp(p, |pad|);
    var pos := (p + 7) / 8;
    StoredFrom(src, p, pos, pad, nlen, data, out, pos + 4 + |data|);
  }

  lemma FixedOf(bits: seq<bool>, p: nat, ts: seq<Token>, mem: Memory, out: seq<byte>, layout: Layout)
    requires mem.Valid() && CodableAll(ts, FixedLit(), FixedDist())
    requires At(bits, p, TokensBits(ts, FixedLit(), FixedDist()))
    ensures p <= |bits|
    ensures Compressed(bits, FixedTrees(p, mem, layout), out).step
            == Next(Expand(out, ts), p + |TokensBits(ts, FixedLit(), FixedDist())|)
  {
    hide At, Decodes, Weight, Codes, Expand, TokensBits, CodableAll, HasNoZero;
    FixedCodes();
    BuiltDecodes(FixedLit(), mem.lit, layout);
    BuiltDecodes(FixedDist(), mem.dist, layout);
    AtInside(bits, p, TokensBits(ts, FixedLit(), FixedDist()));
    var t := FixedTrees(p, mem, layout);
    CodesOfTokens(bits, p, t.lit, t.dist, FixedLit(), FixedDist(), ts, out);
  }

  lemma TreesDecode(h: DynHeader, at: nat, mem: Memory, layout: Layout)
    requires mem.Valid() && Buildable(LitLengths(h), layout)
    ensures var t := TreesOf(h.lens, h.hlit + 257, at, mem, layout);
            Decodes(t.lit, LitLengths(h)) && (Buildable(DistLengths(h), layout) ==> Decodes(t.dist, DistLengths(h)))
  {
    hide Decodes, Buildable, Built;
    BuiltDecodes(LitLengths(h), mem.lit, layout);
    if Buildable(DistLengths(h), layout) {
      BuiltDecodes(DistLengths(h), mem.dist, layout);
    }
  }

  lemma TreesAre(h: DynHeader, at: nat, mem: Memory, layout: Layout)
    requires mem.Valid()
    ensures TreesOf(h.lens, h.hlit + 257, at, mem, layout).Trees?
    ensures var t := TreesOf(h.lens, h.hlit + 257, at, mem, layout);
            && t.lit == Built(LitLengths(h), mem.lit, layout) && t.dist == Built(DistLengths(h), mem.dist, layout)
            && t.at == at
  {
    hide Built;
  }

  /** The header and the operations are read back as the code tables of the block. */
  lemma DynamicTreesOf(bits: seq<bool>, p: nat, h: DynHeader, mem: Memory, layout: Layout) returns (m: Memory)
    requires mem.Valid() && OpsCodable(h.ops, h.cl) && OpsMake([], h.ops, h.lens) && Buildable(h.cl, layout)
    requires At(bits, p, HeaderBits(h) + OpsBits(h.ops, h.cl))
    ensures p <= |bits| && m.Valid() && m.lit == mem.lit && m.dist == mem.dist
    ensures DynamicTrees(bits, p, mem, layout)
            == TreesOf(h.lens, h.hlit + 257, p + |HeaderBits(h) + OpsBits(h.ops, h.cl)|, m, layout)
  {
    hide At, Decodes, HeaderBits, OpsBits, OpsMake, ExpandLengths, DynamicHeader, Built, OpsCodable, TreesOf, Buildable;
    AtInside(bits, p, HeaderBits(h) + OpsBits(h.ops, h.cl));
    AtSplit(bits, p, HeaderBits(h), OpsBits(h.ops, h.cl));
    HeaderOf(bits, p, h);
    BuiltDecodes(h.cl, mem.cl, layout);
    var tree := Built(h.cl, mem.cl, layout);
    ExpandOps(bits, p + |HeaderBits(h)|, tree, h.cl, [], h.ops, h.lens);
    m := mem.(cl := tree.symbol);
    DynamicTreesAre(bits, p, mem, layout, DynamicHeader(bits, p), tree,
                    ExpandLengths(bits, p + |HeaderBits(h)|, tree, |h.lens|, []));
    hide DynamicTrees;
  }

  lemma DynamicOf(bits: seq<bool>, p: nat, h: DynHeader, ts: seq<Token>, mem: Memory, out: seq<byte>, layout: Layout)
    requires mem.Valid() && DynamicFits(h, ts, layout) && At(bits, p, DynamicBits(h, ts))
    ensures p <= |bits|
    ensures Compressed(bits, DynamicTrees(bits, p, mem, layout), out).step
            == Next(Expand(out, ts), p + |DynamicBits(h, ts)|)
  {
    hide At, Decodes, HeaderBits, OpsBits, Codes, Expand, TokensBits, CodableAll, Buildable, DynamicTrees, OpsMake,
      OpsCodable, LitLengths, DistLengths, TreesOf, RefersBack;
    var a, c := HeaderBits(h) + OpsBits(h.ops, h.cl), TokensBits(ts, LitLengths(h), DistLengths(h));
    AtSplit(bits, p, a, c);
    var m := DynamicTreesOf(bits, p, h, mem, layout);
    var at := p + |a|;
    AtInside(bits, at, c);
    TreesDecode(h, at, m, layout);
    var t := TreesOf(h.lens, h.hlit + 257, at, m, layout);
    CodesOfTokens(bits, at, t.lit, t.dist, LitLengths(h), DistLengths(h), ts, out);
  }

  /** The body at position `q` is decoded to what the block stands for, and the reader left right behind it. */
  ghost predicate BodyDecoded(src: seq<byte>, b: Block, q: nat, mem: Memory, out: seq<byte>, layout: Layout)
    requires mem.Valid()
  {
    && q <= 8 * |src|
    && BlockBody(src, q, TypeOf(b), mem, out, layout).step == Next(ExpandBlock(out, b), q + |BodyBits(b)|)
  }

  lemma StoredBody(src: seq<byte>, b: Block, p: nat, q: nat, mem: Memory, out: seq<byte>, layout: Layout)
    requires q == p + 3 && mem.Valid() && b.StoredBlock? && Fits(b, p, layout) && At(SrcBits(src), q, BodyBits(b))
    ensures BodyDecoded(src, b, q, mem, out, layout)
  {
    hide At, Stored, SrcBits, Payload, Fits, BodyBits, TypeOf, ExpandBlock;
    hide BlockBody, FixedTrees, DynamicTrees, Compressed;
    BlockParts(b, p, out, layout);
    StoredOf(src, q, b.pad, b.nlen, b.data, out);
    BlockBodyKinds(src, q, mem, out, layout);
  }

  lemma FixedBody(src: seq<byte>, b: Block, p: nat, q: nat, mem: Memory, out: seq<byte>, layout: Layout)
    requires q == p + 3 && mem.Valid() && b.FixedBlock? && Fits(b, p, layout) && At(SrcBits(src), q, BodyBits(b))
    ensures BodyDecoded(src, b, q, mem, out, layout)
  {
    hide At, Compressed, Expand, TokensBits, SrcBits, CodableAll, FixedTrees, FixedLit, FixedDist,
      Fits, BodyBits, TypeOf, ExpandBlock, BlockBody;
    BlockParts(b, p, out, layout);
    FixedOf(SrcBits(src), q, b.ts, mem, out, layout);
    BlockBodyKinds(src, q, mem, out, layout);
  }

  lemma DynamicBody(src: seq<byte>, b: Block, p: nat, q: nat, mem: Memory, out: seq<byte>, layout: Layout)
    requires q == p + 3 && mem.Valid() && b.DynamicBlock? && Fits(b, p, layout) && At(SrcBits(src), q, BodyBits(b))
    ensures BodyDecoded(src, b, q, mem, out, layout)
  {
    hide At, Compressed, Expand, DynamicBits, SrcBits, DynamicFits, DynamicTrees, Fits, BodyBits, TypeOf, ExpandBlock,
      BlockBody;
    BlockParts(b, p, out, layout);
    DynamicOf(SrcBits(src), q, b.h, b.ts, mem, out, layout);
    BlockBodyKinds(src, q, mem, out, layout);
  }

  lemma BlockParts(b: Block, p: nat, out: seq<byte>, layout: Layout)
    requires Fits(b, p, layout)
    ensures b.StoredBlock? ==>
      && (p + 3 + |b.pad|) % 8 == 0 && |b.pad| < 8 && |b.nlen| == 2 && |b.data| < 65536
      && BodyBits(b) == b.pad + SrcBits(Payload(b.nlen, b.data)) && |BodyBits(b)| == |b.pad| + 8 * (4 + |b.data|)
      && TypeOf(b) == 0 && ExpandBlock(out, b) == out + b.data
    ensures b.FixedBlock? ==>
      && CodableAll(b.ts, FixedLit(), FixedDist()) && BodyBits(b) == TokensBits(b.ts, FixedLit(), FixedDist())
      && TypeOf(b) == 1 && ExpandBlock(out, b) == Expand(out, b.ts)
    ensures b.DynamicBlock? ==>
      && DynamicFits(b.h, b.ts, layout) && BodyBits(b) == DynamicBits(b.h, b.ts)
      && TypeOf(b) == 2 && ExpandBlock(out, b) == Expand(out, b.ts)
  {
    hide DynamicFits, DynamicBits, Expand, CodableAll, TokensBits, SrcBits, Payload;
  }

  lemma BodyOf(src: seq<byte>, b: Block, p: nat, mem: Memory, out: seq<byte>, layout: Layout)
    requires mem.Valid() && Fits(b, p, layout) && At(SrcBits(src), p + 3, BodyBits(b))
    ensures BodyDecoded(src, b, p + 3, mem, out, layout)
  {
    hide *;
    var q := p + 3;
    if b.StoredBlock? {
      StoredBody(src, b, p, q, mem, out, layout);
    } else if b.FixedBlock? {
      FixedBody(src, b, p, q, mem, out, layout);
    } else {
      DynamicBody(src, b, p, q, mem, out, layout);
    }
  }

  // ---- streams -----------------------------------------------------------------------------------------

  /** The blocks fit one after the other from position `p` on. */
  ghost predicate FitAll(bs: seq<Block>, p: nat, layout: Layout)
    decreases bs
  {
    bs == [] || (Fits(bs[0], p, layout) && FitAll(bs[1..], p + |BlockBits(bs[0], false)|, layout))
  }

  /** The blocks one after the other, only the last one marked final. */
  ghost function StreamBits(bs: seq<Block>): seq<bool> {
    if bs == [] then [] else BlockBits(bs[0], |bs| == 1) + StreamBits(bs[1..])
  }

  ghost function ExpandStream(out: seq<byte>, bs: seq<Block>): seq<byte>
    decreases bs
  {
    if bs == [] then out else ExpandStream(ExpandBlock(out, bs[0]), bs[1..])
  }

  lemma DigitsOfFlag(b: bool)
    ensures Digits(if b then 1 else 0, 1) == [b]
  {
  }

  /** The three header bits, with the body right behind them. */
  lemma BlockHeader(bits: seq<bool>, p: nat, final: bool, btype: nat, body: seq<bool>)
    requires btype < 4 && At(bits, p, [final] + (Digits(btype, 2) + body))
    ensures p + 3 <= |bits| && At(bits, p + 3, body)
    ensures ReadBits(bits, p, 1) == Field(if final then 1 else 0, p + 1)
    ensures ReadBits(bits, p + 1, 2) == Field(btype, p + 3)
  {
    hide At, ReadBits, Digits, Pow2;
    Pow2Values();
    DigitsOfFlag(final);
    AtSplit(bits, p, [final], Digits(btype, 2) + body);
    AtSplit(bits, p + 1, Digits(btype, 2), body);
    AtInside(bits, p + 3, body);
    ReadField(bits, p, if final then 1 else 0, 1);
    ReadField(bits, p + 1, btype, 2);
  }

  /** One turn of the block loop. */
  lemma BlockOf(src: seq<byte>, b: Block, final: bool, p: nat, mem: Memory, out: seq<byte>, layout: Layout)
    returns (m: Memory)
    requires mem.Valid() && Fits(b, p, layout) && At(SrcBits(src), p, BlockBits(b, final))
    ensures p + 3 <= p + |BlockBits(b, final)| <= 8 * |src| && m.Valid()
    ensures Blocks(src, p, mem, out, layout) ==
            if final then Finished(ExpandBlock(out, b), p + |BlockBits(b, final)|)
            else Blocks(src, p + |BlockBits(b, final)|, m, ExpandBlock(out, b), layout)
  {
    hide At, BodyBits, Fits, BlockBody, ExpandBlock, ReadBits, SrcBits, TypeOf, Digits;
    BlockHeader(SrcBits(src), p, final, TypeOf(b), BodyBits(b));
    BodyOf(src, b, p, mem, out, layout);
    m := BlockBody(src, p + 3, TypeOf(b), mem, out, layout).mem;
    assert |BlockBits(b, final)| == 3 + |BodyBits(b)|;
  }

  /** Every stream of stored, fixed and dynamic blocks is decoded to exactly what it stands for, whatever
      follows it in the source, and the reader is left at the end of the final block. With the symbol
      placement as written, dynamic blocks must give every symbol a code; with the intended placement
      any usable code will do. */
  lemma {:induction false} RoundTrip(src: seq<byte>, bs: seq<Block>, p: nat, mem: Memory, out: seq<byte>,
                                     layout: Layout)
    requires mem.Valid() && bs != [] && FitAll(bs, p, layout) && At(SrcBits(src), p, StreamBits(bs))
    ensures p <= 8 * |src|
    ensures Blocks(src, p, mem, out, layout) == Finished(ExpandStream(out, bs), p + |StreamBits(bs)|)
    decreases bs
  {
    hide At, BlockBits, Fits, ExpandBlock, Blocks, SrcBits;
    var b, final := bs[0], |bs| == 1;
    var first := BlockBits(b, final);
    AtSplit(SrcBits(src), p, first, StreamBits(bs[1..]));
    var m := BlockOf(src, b, final, p, mem, out, layout);
    if !final {
      RoundTrip(src, bs[1..], p + |first|, m, ExpandBlock(out, b), layout);
    }
  }

  /** The bytes that encode a list of blocks. */
  ghost function Compress(bs: seq<Block>): seq<byte> {
    Pack(StreamBits(bs))
  }

  /** Decoding undoes encoding. */
  lemma InflateOfCompress(bs: seq<Block>, mem: Memory, layout: Layout)
    requires mem.Valid() && bs != [] && FitAll(bs, 0, layout)
    ensures Blocks(Compress(bs), 0, mem, [], layout) == Finished(ExpandStream([], bs), |StreamBits(bs)|)
  {
    hide FitAll, StreamBits, ExpandStream, Blocks, SrcBits;
    PackBits(StreamBits(bs));
    RoundTrip(Compress(bs), bs, 0, mem, [], layout);
  }

  // ---- nothing is left out -------------------------------------------------------------------------

  /** The fixed codes have a code for every token, so that every token list fits a fixed block. */
  lemma EveryTokenCodable(ts: seq<Token>)
    ensures CodableAll(ts, FixedLit(), FixedDist())
  {
    forall i | 0 <= i < |ts|
      ensures Codable(ts[i], FixedLit(), FixedDist())
    {
      var t := ts[i];
      assert t.Match? ==> t.li < 29 && t.di < 30;
    }
  }

  ghost function Literals(data: seq<byte>): (ts: seq<Token>)
    ensures |ts| == |data|
  {
    seq(|data|, i requires 0 <= i < |data| => Literal(data[i]))
  }

  lemma {:induction false} LiteralsExpand(out: seq<byte>, data: seq<byte>)
    ensures Expand(out, Literals(data)) == out + data
    decreases data
  {
    var ts := Literals(data);
    if data != [] {
      assert ts[1..] == Literals(data[1..]);
      LiteralsExpand(out + [data[0]], data[1..]);
    }
  }

  /** Every byte string is the expansion of some stream that the decompressor gets right. */
  lemma EveryOutput(data: seq<byte>, layout: Layout) returns (bs: seq<Block>)
    ensures bs != [] && FitAll(bs, 0, layout) && ExpandStream([], bs) == data
  {
    var ts := Literals(data);
    bs := [FixedBlock(ts)];
    EveryTokenCodable(ts);
    LiteralsExpand([], data);
    hide CodableAll, Expand;
    assert bs[1..] == [];
  }
}
