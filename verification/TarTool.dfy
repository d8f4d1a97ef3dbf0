// tools/tar.c: the program, for every answer of the system.
//
// How much a read gives and whether a file can be opened are arguments; a write may fail. Extracting and
// creating are specified for all of them, and compared with the archive as it should be.

module TarTool {
  import opened Bits
  import opened TarHeader
  import opened TarArchive

  // ---- reading ------------------------------------------------------------------------------------

  /** What can be read, and how many bytes the system gives to each read in turn: all it can, if `sizes` has no
      answer left, and none, for an error, if the answer is not positive. */
  datatype Input = Input(rest: seq<byte>, sizes: seq<int>)

  function Least(a: int, b: int): int {
    if a <= b then a else b
  }

  function Got(i: Input, max: nat): int {
    var most := Least(max, |i.rest|);
    if i.sizes == [] then most else Least(i.sizes[0], most)
  }

  /** The input after a read. */
  function After(i: Input, max: nat): (r: Input)
    ensures |r.rest| <= |i.rest|
    ensures Got(i, max) > 0 ==> |r.rest| < |i.rest|
  {
    var r := Got(i, max);
    Input(if r > 0 then i.rest[r..] else i.rest, Later(i.sizes))
  }

  /** No read comes short: each gives at least a block, or all there is. */
  ghost predicate Whole(sizes: seq<int>) {
    forall k :: 0 <= k < |sizes| ==> sizes[k] >= BLOCK
  }

  /** No read fails while there is something to read. */
  ghost predicate Positive(sizes: seq<int>) {
    forall k :: 0 <= k < |sizes| ==> sizes[k] >= 1
  }

  // ---- what is extracted --------------------------------------------------------------------------

  /** The input after `n` reads that pass over blocks. */
  function Passed(i: Input, n: nat): (r: Input)
    ensures |r.rest| <= |i.rest|
    decreases n
  {
    if n == 0 then i else Passed(After(i, BLOCK), n - 1)
  }

  /** The contents of a file that has been read, up to the first block that is not whole. */
  datatype Read = Read(data: seq<byte>, ok: bool, end: Input)

  function Prepend(data: seq<byte>, c: Read): Read {
    c.(data := data + c.data)
  }

  function ReadData(i: Input, size: nat): (r: Read)
    ensures |r.end.rest| <= |i.rest|
    decreases size
  {
    if size == 0 then Read([], true, i)
    else if Got(i, BLOCK) < BLOCK then Read([], false, After(i, BLOCK))
    else
      var chunk := Least(size, BLOCK);
      Prepend(i.rest[..chunk], ReadData(After(i, BLOCK), size - chunk))
  }

  function Extracted(i: Input, zeros: nat, opens: seq<bool>): Outcome
    decreases |i.rest|
  {
    var r := Got(i, BLOCK);
    if r <= 0 then Outcome(0, [])
    else if r < BLOCK then Outcome(1, [])
    else
      var block, next := i.rest[..BLOCK], After(i, BLOCK);
      if IsZero(block) then
        if zeros + 1 >= 2 then Outcome(0, []) else Extracted(next, zeros + 1, opens)
      else if StoredSum(block) != Checksum(block) then Outcome(1, [])
      else if !IsFile(block) then Then(LinkAction(block), Extracted(next, 0, opens))
      else if !CanOpen(opens) then
        Then(Refused(PathOf(block)), Extracted(Passed(next, BlockCount(SizeOf(block))), 0, Later(opens)))
      else
        var c := ReadData(next, SizeOf(block));
        if !c.ok then Outcome(1, [CutShort(PathOf(block), c.data)])
        else
          Then(WriteFile(PathOf(block), ModeOr(ModeOf(block), FILEMODE), c.data),
               Extracted(c.end, 0, Later(opens)))
  }

  function Listed(i: Input, zeros: nat): seq<Text>
    decreases |i.rest|
  {
    if Got(i, BLOCK) < BLOCK then []
    else
      var block, next := i.rest[..BLOCK], After(i, BLOCK);
      if IsZero(block) then
        if zeros + 1 >= 2 then [] else Listed(next, zeros + 1)
      else [PathOf(block)] + Listed(Passed(next, BlockCount(SizeOf(block))), 0)
  }

  // ---- when reads come short ------------------------------------------------------------------------

  lemma BlockCountLess(size: nat)
    requires size > 0
    ensures BlockCount(size) == 1 + BlockCount(size - Least(size, BLOCK))
  {
  }

  lemma {:induction false} PassedWhole(i: Input, n: nat)
    requires Whole(i.sizes)
    ensures Passed(i, n).rest == Skip(i.rest, n) && Whole(Passed(i, n).sizes)
    decreases n
  {
    if n > 0 {
      PassedWhole(After(i, BLOCK), n - 1);
    }
  }

  /** What is known about the reads still holds for those that are left. */
  lemma {:induction false} ReadDataLeaves(i: Input, size: nat)
    ensures Positive(i.sizes) ==> Positive(ReadData(i, size).end.sizes)
    ensures Whole(i.sizes) ==> Whole(ReadData(i, size).end.sizes)
    decreases size
  {
    if size > 0 && Got(i, BLOCK) == BLOCK {
      ReadDataLeaves(After(i, BLOCK), size - Least(size, BLOCK));
    }
  }

  /** Contents that have been read are those in the input. */
  ghost predicate ReadRight(i: Input, size: nat, c: Read) {
    var n := BlockCount(size);
    && BLOCK * n <= |i.rest| && size <= |i.rest| && c.data == i.rest[..size]
    && c.end.rest == i.rest[BLOCK * n..]
  }

  lemma ReadRightMore(i: Input, next: Input, size: nat, chunk: nat, c: Read)
    requires size > 0 && chunk == Least(size, BLOCK) && |i.rest| >= BLOCK && next.rest == i.rest[BLOCK..]
    requires ReadRight(next, size - chunk, c)
    ensures ReadRight(i, size, Prepend(i.rest[..chunk], c))
  {
    BlockCountLess(size);
    hide BlockCount;
    assert i.rest[..chunk] + next.rest[..size - chunk] == i.rest[..size];
  }

  /** Whatever the reads give, that is so. */
  lemma {:induction false} ReadDataRight(i: Input, size: nat)
    ensures ReadData(i, size).ok ==> ReadRight(i, size, ReadData(i, size))
    decreases size
  {
    if size > 0 && Got(i, BLOCK) == BLOCK {
      var chunk, next := Least(size, BLOCK), After(i, BLOCK);
      ReadDataRight(next, size - chunk);
      hide ReadRight;
      if ReadData(next, size - chunk).ok {
        ReadRightMore(i, next, size, chunk, ReadData(next, size - chunk));
      }
    }
  }

  /** If no read comes short, they are read exactly if they are there. */
  lemma {:induction false} ReadDataWhole(i: Input, size: nat)
    requires Whole(i.sizes)
    ensures var c, n := ReadData(i, size), BlockCount(size);
            && (c.ok <==> BLOCK * n <= |i.rest|)
            && (!c.ok ==> c.data == i.rest[..BLOCK * (|i.rest| / BLOCK)])
    decreases size
  {
    if size > 0 {
      BlockCountLess(size);
      if |i.rest| >= BLOCK {
        var chunk, next := Least(size, BLOCK), After(i, BLOCK);
        ReadDataWhole(next, size - chunk);
        assert |next.rest| / BLOCK == |i.rest| / BLOCK - 1;
        var k := |next.rest| / BLOCK;
        if !ReadData(next, size - chunk).ok {
          assert i.rest[..chunk] + next.rest[..BLOCK * k] == i.rest[..BLOCK * (k + 1)];
        }
      }
    }
  }

  /** Extracting from reads of which none comes short is extracting the bytes. */
  lemma {:induction false} ExtractedWhole(i: Input, zeros: nat, opens: seq<bool>)
    requires Whole(i.sizes)
    ensures Extracted(i, zeros, opens) == Extraction(i.rest, zeros, opens)
    decreases |i.rest|
  {
    hide PathOf, SizeOf, StoredSum, Checksum, ModeOf, IsZero, ReadData, Passed, LinkAction, Then;
    if |i.rest| >= BLOCK {
      var block, next := i.rest[..BLOCK], After(i, BLOCK);
      if IsZero(block) {
        ExtractedWhole(next, zeros + 1, opens);
      } else if !IsFile(block) {
        ExtractedWhole(next, 0, opens);
      } else if !CanOpen(opens) {
        var n := BlockCount(SizeOf(block));
        PassedWhole(next, n);
        ExtractedWhole(Passed(next, n), 0, Later(opens));
      } else {
        ReadDataRight(next, SizeOf(block));
        ReadDataLeaves(next, SizeOf(block));
        ReadDataWhole(next, SizeOf(block));
        ExtractedWhole(ReadData(next, SizeOf(block)).end, 0, Later(opens));
      }
    }
  }

  /** Listing likewise. */
  lemma {:induction false} ListedWhole(i: Input, zeros: nat)
    requires Whole(i.sizes)
    ensures Listed(i, zeros) == Listing(i.rest, zeros)
    decreases |i.rest|
  {
    hide PathOf, SizeOf, IsZero, Passed, BlockCount, Skip;
    if |i.rest| >= BLOCK {
      var block, next := i.rest[..BLOCK], After(i, BLOCK);
      if IsZero(block) {
        ListedWhole(next, zeros + 1);
      } else {
        var n := BlockCount(SizeOf(block));
        PassedWhole(next, n);
        ListedWhole(Passed(next, n), 0);
      }
    }
  }

  /** However short the reads are, as long as none fails and every file can be opened, extracting either
      does what the bytes say or reports a failure. */
  lemma {:induction false} ShortReadsFail(i: Input, zeros: nat, opens: seq<bool>)
    requires Positive(i.sizes) && forall k :: 0 <= k < |opens| ==> opens[k]
    ensures var o := Extracted(i, zeros, opens); o == Extraction(i.rest, zeros, opens) || o.status == 1
    decreases |i.rest|
  {
    hide PathOf, SizeOf, StoredSum, Checksum, ModeOf, IsZero, ReadData, LinkAction;
    if Got(i, BLOCK) == BLOCK {
      var block, next := i.rest[..BLOCK], After(i, BLOCK);
      if IsZero(block) {
        ShortReadsFail(next, zeros + 1, opens);
      } else if !IsFile(block) {
        ShortReadsFail(next, 0, opens);
      } else {
        ReadDataRight(next, SizeOf(block));
        ReadDataLeaves(next, SizeOf(block));
        ShortReadsFail(ReadData(next, SizeOf(block)).end, 0, Later(opens));
      }
    }
  }

  // ---- what is created --------------------------------------------------------------------------------

  /** What is written for a file, and the answers that are left. */
  datatype Written = Written(bytes: seq<byte>, sizes: seq<int>)

  /** The contents of a file as they are copied: every read fills a block of its own. */
  function Copied(i: Input): Written
    decreases |i.rest|
  {
    if i.rest == [] then Written([], i.sizes)
    else
      var r, next := Got(i, BLOCK), After(i, BLOCK);
      if r <= 0 then Written([], next.sizes)
      else
        var more := Copied(next);
        Written(Fill(i.rest[..r], BLOCK) + more.bytes, more.sizes)
  }

  /** Only for a file that is not empty it is tried to open it. */
  predicate Opens(kind: Kind) {
    kind.Regular? && kind.data != []
  }

  function MemberCreated(e: Entry, open: bool, sizes: seq<int>): Written {
    if Opens(e.kind) && open then
      var c := Copied(Input(e.kind.data, sizes));
      Written(Header(e) + c.bytes, c.sizes)
    else Written(Header(e), sizes)
  }

  function LeftOpens(kind: Kind, opens: seq<bool>): seq<bool> {
    if Opens(kind) then Later(opens) else opens
  }

  function MembersCreated(es: seq<Entry>, opens: seq<bool>, sizes: seq<int>): seq<byte> {
    if es == [] then []
    else
      var m := MemberCreated(es[0], CanOpen(opens), sizes);
      m.bytes + MembersCreated(es[1..], LeftOpens(es[0].kind, opens), m.sizes)
  }

  function Created(es: seq<Entry>, opens: seq<bool>, sizes: seq<int>): seq<byte> {
    MembersCreated(es, opens, sizes) + Zeros(2 * BLOCK)
  }

  /** Every file that is not empty can be opened. */
  ghost predicate AllOpen(es: seq<Entry>, opens: seq<bool>) {
    es != [] ==> (Opens(es[0].kind) ==> CanOpen(opens)) && AllOpen(es[1..], LeftOpens(es[0].kind, opens))
  }

  /** Every read of a file gives a whole block, or all that is left of the file. */
  ghost predicate FullReads(n: nat, sizes: seq<int>)
    decreases n
  {
    n > 0 ==> var m := Least(n, BLOCK); (sizes == [] || sizes[0] >= m) && FullReads(n - m, Later(sizes))
  }

  lemma {:induction false} CopiedFull(i: Input)
    requires FullReads(|i.rest|, i.sizes)
    ensures Copied(i).bytes == Blocks(i.rest)
    decreases |i.rest|
  {
    if i.rest != [] {
      CopiedFull(After(i, BLOCK));
      if |i.rest| <= BLOCK {
        assert i.rest[..|i.rest|] == i.rest;
        assert Fill(i.rest, BLOCK) + [] == Fill(i.rest, BLOCK);
      }
    }
  }

  function Ones(n: nat): (r: seq<byte>)
    ensures |r| == n && forall k :: 0 <= k < n ==> r[k] == 1
  {
    seq(n, _ => 1)
  }

  lemma {:induction false} CopiedOnes(n: nat, sizes: seq<int>)
    requires Copied(Input(Ones(n), sizes)).bytes == Blocks(Ones(n))
    ensures FullReads(n, sizes)
    decreases n
  {
    if n > 0 {
      var i, m := Input(Ones(n), sizes), Least(n, BLOCK);
      var r, all := Got(i, BLOCK), Blocks(Ones(n));
      BlocksOfOnes(n);
      assert all[m - 1] == 1 && |all| >= BLOCK;
      if r > 0 {
        var more := Copied(After(i, BLOCK)).bytes;
        assert Copied(i).bytes[..BLOCK] == Fill(Ones(n)[..r], BLOCK);
        assert Copied(i).bytes[m - 1] == Fill(Ones(n)[..r], BLOCK)[m - 1];
        assert r == m;
        assert Ones(n)[m..] == Ones(n - m);
        assert Copied(i).bytes[BLOCK..] == more;
        CopiedOnes(n - m, Later(sizes));
      }
    }
  }

  lemma BlocksOfOnes(n: nat)
    requires n > 0
    ensures var m, all := Least(n, BLOCK), Blocks(Ones(n));
            |all| >= BLOCK && all[m - 1] == 1 && all[BLOCK..] == Blocks(Ones(n - m))
  {
    if n > BLOCK {
      assert Ones(n)[BLOCK..] == Ones(n - BLOCK);
    } else {
      assert Ones(0) == [];
    }
  }

  /** A file of `n` bytes is copied as it should be, whatever is in it, exactly if no read comes short. */
  lemma CopiedIff(n: nat, sizes: seq<int>)
    ensures (forall data: seq<byte> :: |data| == n ==> Copied(Input(data, sizes)).bytes == Blocks(data))
            <==> FullReads(n, sizes)
  {
    hide Copied, Blocks;
    if FullReads(n, sizes) {
      forall data: seq<byte> | |data| == n
        ensures Copied(Input(data, sizes)).bytes == Blocks(data)
      {
        CopiedFull(Input(data, sizes));
      }
    } else if forall data: seq<byte> :: |data| == n ==> Copied(Input(data, sizes)).bytes == Blocks(data) {
      assert |Ones(n)| == n;
      CopiedOnes(n, sizes);
    }
  }

  lemma {:induction false} WholeIsFull(n: nat, sizes: seq<int>)
    requires Whole(sizes)
    ensures FullReads(n, sizes)
    decreases n
  {
    if n > 0 {
      WholeIsFull(n - Least(n, BLOCK), Later(sizes));
    }
  }

  lemma {:induction false} CopiedLeaves(i: Input)
    requires Whole(i.sizes)
    ensures Whole(Copied(i).sizes)
    decreases |i.rest|
  {
    if i.rest != [] && Got(i, BLOCK) > 0 {
      CopiedLeaves(After(i, BLOCK));
    }
  }

  lemma MemberCreatedIs(e: Entry, open: bool, sizes: seq<int>)
    requires Whole(sizes)
    ensures var m := MemberCreated(e, open, sizes);
            && Whole(m.sizes)
            && (Opens(e.kind) && !open ==> m.bytes == Header(e) && |m.bytes| < |Member(e)|)
            && (Opens(e.kind) ==> open ==> m.bytes == Member(e))
            && (!Opens(e.kind) ==> m.bytes == Member(e))
  {
    hide Header, Blocks, Copied;
    ContentsOf(e.kind);
    if Opens(e.kind) {
      var i := Input(e.kind.data, sizes);
      WholeIsFull(|e.kind.data|, sizes);
      CopiedFull(i);
      CopiedLeaves(i);
      BlocksAre(e.kind.data);
    } else {
      NoBlocks();
      assert Header(e) + [] == Header(e);
    }
  }

  lemma NoBlocks()
    ensures Blocks([]) == []
  {
  }

  lemma {:induction false} MembersCreatedIff(es: seq<Entry>, opens: seq<bool>, sizes: seq<int>)
    requires Whole(sizes)
    ensures |MembersCreated(es, opens, sizes)| <= |Members(es)|
    ensures AllOpen(es, opens) ==> MembersCreated(es, opens, sizes) == Members(es)
    ensures !AllOpen(es, opens) ==> |MembersCreated(es, opens, sizes)| < |Members(es)|
    decreases |es|
  {
    if es != [] {
      hide Member, MemberCreated;
      var m := MemberCreated(es[0], CanOpen(opens), sizes);
      MemberCreatedIs(es[0], CanOpen(opens), sizes);
      MembersCreatedIff(es[1..], LeftOpens(es[0].kind, opens), m.sizes);
    }
  }

  /** If no read comes short, what is created is the archive exactly if every file that is not empty can be
      opened. */
  lemma CreatedIff(es: seq<Entry>, opens: seq<bool>, sizes: seq<int>)
    requires Whole(sizes)
    ensures Created(es, opens, sizes) == Archive(es) <==> AllOpen(es, opens)
  {
    hide MembersCreated, Members;
    MembersCreatedIff(es, opens, sizes);
  }

  /** From files to files: what has been created is extracted again, however it is read. */
  lemma CreatedExtracted(es: seq<Entry>, opens: seq<bool>, sizes: seq<int>, sizes': seq<int>, opens': seq<bool>)
    requires Whole(sizes) && AllOpen(es, opens)
    requires forall k :: 0 <= k < |es| ==> Size(es[k].kind) < Pow8(11)
    ensures var o := Extracted(Input(Created(es, opens, sizes), sizes'), 0, opens');
            && (Whole(sizes') ==> o == Outcome(0, AllExpected(es, opens')))
            && (Positive(sizes') && (forall k :: 0 <= k < |opens'| ==> opens'[k]) ==>
                  o == Outcome(0, AllExpected(es, opens')) || o.status == 1)
  {
    hide Size, Pow8, Created, Archive, Extracted, Extraction, AllExpected;
    CreatedIff(es, opens, sizes);
    RoundTrip(es, opens');
    var i := Input(Created(es, opens, sizes), sizes');
    if Whole(sizes') {
      ExtractedWhole(i, 0, opens');
    }
    if Positive(sizes') && forall k :: 0 <= k < |opens'| ==> opens'[k] {
      ShortReadsFail(i, 0, opens');
    }
  }

  /** A file of one byte that cannot be opened: the archive says that it is there, and extracting it succeeds
      with another byte. */
  lemma UnreadableFile(path: Text, mode: nat)
    ensures var e := Entry(path, Regular([1]), mode, 0, 0, 0);
            Extraction(Created([e], [false], []), 0, []) == Outcome(0, [Expected(e.(kind := Regular([0])), true)])
  {
    hide Header, Extraction, Faithful;
    var e, end := Entry(path, Regular([1]), mode, 0, 0, 0), Zeros(2 * BLOCK);
    HeaderCreated(e);
    assert Pow8(11) > 1;
    HeaderAlone(e, end, 0, []);
    OneZeroBlock();
    assert BlockCount(1) == 1 && end[..1] == [0] && end[BLOCK..] == Zeros(BLOCK);
  }

  lemma HeaderCreated(e: Entry)
    requires Opens(e.kind)
    ensures Created([e], [false], []) == Header(e) + Zeros(2 * BLOCK)
  {
    hide Header;
    assert MemberCreated(e, false, []).bytes == Header(e);
    assert [e][0] == e && [e][1..] == [];
    assert MembersCreated([e], [false], []) == Header(e) + [] == Header(e);
  }

  lemma OneZeroBlock()
    ensures Extraction(Zeros(BLOCK), 0, []) == Outcome(0, [])
  {
    assert Zeros(BLOCK)[..BLOCK] == Zeros(BLOCK) && IsZero(Zeros(BLOCK));
  }

  /** A file of two bytes that is read in two pieces takes up two blocks. */
  lemma TwoPieces()
    ensures |Copied(Input([1, 2], [1])).bytes| == 2 * BLOCK && |Blocks([1, 2])| == BLOCK
  {
    assert Copied(Input([2], [])).bytes == Fill([2], BLOCK) + [];
  }

  // ---- the program --------------------------------------------------------------------------------------

  /** The archive that is written. Like a descriptor it may refuse a part of what it is given. */
  class Sink {
    ghost var bytes: seq<byte>

    /** What it has been given, and how many calls of write_all have failed. */
    ghost var given: seq<byte>
    ghost var errors: nat

    constructor ()
      ensures bytes == given == [] && errors == 0
    {
      bytes, given, errors := [], [], 0;
    }

    /** write_all, whose result is ignored. */
    method Write(s: seq<byte>)
      modifies this
      ensures given == old(given) + s && old(bytes) <= bytes <= old(bytes) + s
      ensures errors == old(errors) + if bytes == old(bytes) + s then 0 else 1
    {
      ghost var n: int := *;
      ghost var part := if 0 <= n < |s| then s[..n] else s;
      assert |bytes + part| < |bytes + s| || part == s;
      errors := errors + if part == s then 0 else 1;
      bytes, given := bytes + part, given + s;
    }
  }

  class Source {
    var input: Input

    constructor (all: seq<byte>, sizes: seq<int>)
      ensures input == Input(all, sizes)
    {
      input := Input(all, sizes);
    }

    /** sys_read. */
    method Read(buf: array<byte>, max: nat) returns (r: int)
      requires 0 < max <= buf.Length
      modifies this, buf
      ensures r == Got(old(input), max) && input == After(old(input), max)
      ensures r <= max && r <= |old(input.rest)|
      ensures r > 0 ==> buf[..r] == old(input.rest)[..r]
    {
      r := Got(input, max);
      var all := input.rest;
      input := After(input, max);
      var k := 0;
      while k < r
        invariant r > 0 ==> 0 <= k <= r && buf[..k] == all[..k]
        invariant input == After(old(input), max)
      {
        buf[k] := all[k];
        assert buf[..k + 1] == buf[..k] + [buf[k]];
        k := k + 1;
      }
    }

    /** Reading blocks to pass over them. */
    method SkipBlocks(n: nat)
      modifies this
      ensures input == Passed(old(input), n)
    {
      var block := new byte[BLOCK](_ => 0);
      var b := 0;
      while b < n
        invariant b <= n && Passed(input, n - b) == Passed(old(input), n)
      {
        var r := Read(block, BLOCK);
        b := b + 1;
      }
    }
  }

  /** tar_create_recursive, for one file: its header and, if it can be opened, its contents. */
  method CreateMember(out: Sink, e: Entry, open: bool, sizes: seq<int>) returns (left: seq<int>)
    modifies out
    ensures old(out.bytes) <= out.bytes && out.errors >= old(out.errors)
    ensures left == MemberCreated(e, open, sizes).sizes
    ensures out.given == old(out.given) + MemberCreated(e, open, sizes).bytes
    ensures out.errors == old(out.errors) ==> out.bytes == old(out.bytes) + MemberCreated(e, open, sizes).bytes
  {
    hide Header, Copied;
    var h := WriteHeader(e);
    out.Write(h[..]);
    left := sizes;
    if e.kind.Regular? && |e.kind.data| > 0 && open {
      left := CopyData(out, e.kind.data, sizes);
    }
    ghost var data := if Opens(e.kind) then e.kind.data else [];
    ghost var a, b, c := old(out.bytes), Header(e), Copied(Input(data, sizes)).bytes;
    assert a + b + c == a + (b + c);
    ghost var g := old(out.given);
    assert g + b + c == g + (b + c);
  }

  method CopyData(out: Sink, data: seq<byte>, sizes: seq<int>) returns (left: seq<int>)
    modifies out
    ensures old(out.bytes) <= out.bytes && out.errors >= old(out.errors)
    ensures left == Copied(Input(data, sizes)).sizes
    ensures out.given == old(out.given) + Copied(Input(data, sizes)).bytes
    ensures out.errors == old(out.errors) ==> out.bytes == old(out.bytes) + Copied(Input(data, sizes)).bytes
  {
    hide Fill, Copied, Got, After;
    var file := new Source(data, sizes);
    var buf := new byte[BLOCK](_ => 0);
    var remaining := |data|;
    ghost var goal := Copied(Input(data, sizes));
    while remaining > 0
      invariant 0 <= remaining == |file.input.rest| && old(out.bytes) <= out.bytes && out.errors >= old(out.errors)
      invariant Copied(file.input).sizes == goal.sizes
      invariant out.given + Copied(file.input).bytes == old(out.given) + goal.bytes
      invariant out.errors == old(out.errors) ==> out.bytes + Copied(file.input).bytes == old(out.bytes) + goal.bytes
    {
      ghost var i := file.input;
      CopiedStep(i);
      var r := file.Read(buf, if remaining > BLOCK then BLOCK else remaining);
      if r <= 0 {
        break;
      }
      if r < BLOCK {
        MemSet(buf, r);
      }
      IsFilled(buf[..], i.rest[..r], r);
      ghost var more := Copied(file.input).bytes;
      assert out.bytes + (buf[..] + more) == (out.bytes + buf[..]) + more;
      assert out.given + (buf[..] + more) == (out.given + buf[..]) + more;
      out.Write(buf[..]);
      remaining := remaining - r;
    }
    left := file.input.sizes;
    if remaining == 0 {
      CopiedNone(file.input);
    }
    assert out.bytes + [] == out.bytes && out.given + [] == out.given;
  }

  /** One turn of the loop, whose read asks for no more than is left. */
  lemma CopiedStep(i: Input)
    requires i.rest != []
    ensures var max := Least(|i.rest|, BLOCK); var r, next := Got(i, max), After(i, max);
            && r <= max && |next.rest| == |i.rest| - (if r > 0 then r else 0)
            && Copied(i) == if r <= 0 then Written([], next.sizes)
                            else Written(Fill(i.rest[..r], BLOCK) + Copied(next).bytes, Copied(next).sizes)
  {
    hide Fill;
  }

  lemma CopiedNone(i: Input)
    requires i.rest == []
    ensures Copied(i) == Written([], i.sizes)
  {
  }

  lemma IsFilled(block: seq<byte>, data: seq<byte>, r: nat)
    requires |block| == BLOCK && |data| == r <= BLOCK && block[..r] == data
    requires forall k :: r <= k < BLOCK ==> block[k] == 0
    ensures block == Fill(data, BLOCK)
  {
    assert block == block[..r] + block[r..];
  }

  /** mem_set of the rest of a block. */
  method MemSet(buf: array<byte>, from: nat)
    requires from <= buf.Length
    modifies buf
    ensures buf[..from] == old(buf[..from])
    ensures forall i :: from <= i < buf.Length ==> buf[i] == 0
  {
    var i := from;
    while i < buf.Length
      invariant from <= i <= buf.Length && buf[..from] == old(buf[..from])
      invariant forall k :: from <= k < i ==> buf[k] == 0
    {
      buf[i] := 0;
      i := i + 1;
    }
  }

  lemma TwoZeroBlocks(zero: seq<byte>, now: seq<byte>, was: seq<byte>, all: seq<byte>)
    requires |zero| == BLOCK && forall k :: 0 <= k < BLOCK ==> zero[k] == 0
    ensures now == was + all ==> now + zero + zero == was + (all + Zeros(2 * BLOCK))
  {
    assert zero + zero == Zeros(2 * BLOCK);
  }

  /** The creating branch of tar_main, for the files that the walk through the directories meets. It returns 0
      whatever fails. */
  method Create(out: Sink, es: seq<Entry>, opens: seq<bool>, sizes: seq<int>) returns (status: int)
    modifies out
    ensures status == 0 && old(out.bytes) <= out.bytes && out.errors >= old(out.errors)
    ensures out.given == old(out.given) + Created(es, opens, sizes)
    ensures out.errors == old(out.errors) ==> out.bytes == old(out.bytes) + Created(es, opens, sizes)
  {
    hide MemberCreated;
    var i, nextOpens, nextSizes := 0, opens, sizes;
    ghost var all := MembersCreated(es, opens, sizes);
    assert es[0..] == es;
    while i < |es|
      invariant i <= |es| && old(out.bytes) <= out.bytes && out.errors >= old(out.errors)
      invariant out.given + MembersCreated(es[i..], nextOpens, nextSizes) == old(out.given) + all
      invariant out.errors == old(out.errors) ==>
        out.bytes + MembersCreated(es[i..], nextOpens, nextSizes) == old(out.bytes) + all
    {
      ghost var m := MemberCreated(es[i], CanOpen(nextOpens), nextSizes);
      ghost var more := MembersCreated(es[i + 1..], LeftOpens(es[i].kind, nextOpens), m.sizes);
      assert es[i..][1..] == es[i + 1..];
      assert out.bytes + (m.bytes + more) == (out.bytes + m.bytes) + more;
      assert out.given + (m.bytes + more) == (out.given + m.bytes) + more;
      nextSizes := CreateMember(out, es[i], CanOpen(nextOpens), nextSizes);
      nextOpens := LeftOpens(es[i].kind, nextOpens);
      i := i + 1;
    }
    assert out.bytes + [] == out.bytes && out.given + [] == out.given;
    var zero := new byte[BLOCK](_ => 0);
    MemSet(zero, 0);
    TwoZeroBlocks(zero[..], out.bytes, old(out.bytes), all);
    TwoZeroBlocks(zero[..], out.given, old(out.given), all);
    out.Write(zero[..]);
    out.Write(zero[..]);
    status := 0;
  }

  /** tar_is_zero_block. */
  method IsZeroBlock(block: array<byte>) returns (z: bool)
    requires block.Length == BLOCK
    ensures z == IsZero(block[..])
  {
    var i := 0;
    while i < BLOCK
      invariant i <= BLOCK && forall k :: 0 <= k < i ==> block[k] == 0
    {
      if block[i] != 0 {
        assert block[..][i] != 0;
        return false;
      }
      i := i + 1;
    }
    return true;
  }

  method FilePath(h: seq<byte>) returns (path: Text)
    requires |h| == BLOCK
    ensures path == PathOf(h)
  {
    var filepath := new byte[PATH_MAX](_ => 0);
    BuildPath(filepath, h);
    path := UpTo(filepath[..]);
  }

  /** The contents of a file that has been opened, or all of them that are there. */
  method ExtractData(input: Source, size: nat) returns (ok: bool, data: seq<byte>)
    modifies input
    ensures Read(data, ok, input.input) == ReadData(old(input.input), size)
  {
    var block := new byte[BLOCK](_ => 0);
    var remaining := size;
    data := [];
    ghost var goal := ReadData(input.input, size);
    assert Prepend([], goal) == goal;
    while remaining > 0
      invariant 0 <= remaining && Prepend(data, ReadData(input.input, remaining)) == goal
    {
      ghost var i := input.input;
      var r := input.Read(block, BLOCK);
      if r < BLOCK {
        assert data + [] == data;
        return false, data;
      }
      var chunk := if remaining > BLOCK then BLOCK else remaining;
      assert block[..chunk] == i.rest[..BLOCK][..chunk] == i.rest[..chunk];
      PrependMore(data, block[..chunk], ReadData(input.input, remaining - chunk));
      data := data + block[..chunk];
      remaining := remaining - chunk;
    }
    assert data + [] == data;
    ok := true;
  }

  lemma PrependMore(data: seq<byte>, more: seq<byte>, c: Read)
    ensures Prepend(data, Prepend(more, c)) == Prepend(data + more, c)
  {
    assert data + (more + c.data) == (data + more) + c.data;
  }

  /** What is done for a member, the input behind it, and whether extracting goes on. */
  ghost predicate Done(h: seq<byte>, i: Input, open: bool, ok: bool, action: Action, end: Input)
    requires |h| == BLOCK
  {
    if !IsFile(h) then ok && action == LinkAction(h) && end == i
    else if !open then ok && action == Refused(PathOf(h)) && end == Passed(i, BlockCount(SizeOf(h)))
    else
      var c := ReadData(i, SizeOf(h));
      ok == c.ok && end == c.end
      && action == if ok then WriteFile(PathOf(h), ModeOr(ModeOf(h), FILEMODE), c.data) else CutShort(PathOf(h), c.data)
  }

  /** The switch over the type of a member. */
  method ExtractMemberAt(input: Source, h: seq<byte>, open: bool) returns (ok: bool, action: Action)
    requires |h| == BLOCK
    modifies input
    ensures Done(h, old(input.input), open, ok, action, input.input)
  {
    hide PathOf, UpTo, OctValue, BlockCount, Passed, ReadData;
    var path := FilePath(h);
    var size := OctToUlong(h, 124, 12);
    var mode := OctToUlong(h, 100, 8);
    ok := true;
    if h[156] == DIRTYPE {
      action := MakeDirectory(path, if mode != 0 then mode else DIRMODE);
    } else if h[156] == SYMTYPE {
      action := MakeSymlink(path, UpTo(h[157..257]));
    } else if h[156] == LNKTYPE {
      action := MakeLink(path, UpTo(h[157..257]));
    } else if !open {
      action := Refused(path);
      Rounded(size);
      input.SkipBlocks((size + 511) / 512);
    } else {
      var data;
      ok, data := ExtractData(input, size);
      action := if ok then WriteFile(path, if mode != 0 then mode else FILEMODE, data) else CutShort(path, data);
    }
  }

  lemma Rounded(size: nat)
    ensures (size + 511) / 512 == BlockCount(size)
  {
  }

  /** What has been done and what is still to be done. */
  function Behind(actions: seq<Action>, o: Outcome): Outcome {
    Outcome(o.status, actions + o.actions)
  }

  lemma BehindThen(actions: seq<Action>, a: Action, o: Outcome)
    ensures Behind(actions, Then(a, o)) == Behind(actions + [a], o)
  {
    assert actions + ([a] + o.actions) == (actions + [a]) + o.actions;
  }

  /** tar_extract. */
  method TarExtract(input: Source, opens: seq<bool>) returns (status: int, actions: seq<Action>)
    modifies input
    ensures Outcome(status, actions) == Extracted(old(input.input), 0, opens)
  {
    hide Checksum, StoredSum, PathOf, ModeOf, SizeOf, TargetOf, Passed, BlockCount, LinkAction, Then, IsZero, IsFile,
      ReadData;
    var block := new byte[BLOCK](_ => 0);
    var zeros, left := 0, opens;
    actions := [];
    ghost var goal := Extracted(input.input, 0, opens);
    assert Behind([], goal) == goal;
    while true
      invariant Behind(actions, Extracted(input.input, zeros, left)) == goal
      decreases |input.input.rest|
    {
      ghost var i := input.input;
      var r := input.Read(block, BLOCK);
      if r <= 0 {
        break;
      }
      if r < BLOCK {
        return 1, actions;
      }
      var h := block[..];
      assert h == block[..BLOCK] == i.rest[..BLOCK];
      var z := IsZeroBlock(block);
      if z {
        zeros := zeros + 1;
        if zeros >= 2 {
          break;
        }
        continue;
      }
      zeros := 0;
      var stored := OctToUlong(h, 148, 8);
      var computed := TarChecksum(h);
      SumIs(h, stored);
      if stored != computed {
        return 1, actions;
      }
      var ok, action := ExtractMemberAt(input, h, CanOpen(left));
      if !ok {
        return 1, actions + [action];
      }
      if h[156] != DIRTYPE && h[156] != SYMTYPE && h[156] != LNKTYPE {
        left := Later(left);
      }
      FileIs(h);
      BehindThen(actions, action, Extracted(input.input, zeros, left));
      actions := actions + [action];
    }
    status := 0;
  }

  lemma SumIs(h: seq<byte>, stored: nat)
    requires |h| == BLOCK && stored == OctValue(h[148..148 + 8], 0)
    ensures stored == StoredSum(h)
  {
  }

  lemma FileIs(h: seq<byte>)
    requires |h| == BLOCK
    ensures IsFile(h) <==> h[156] != DIRTYPE && h[156] != SYMTYPE && h[156] != LNKTYPE
  {
  }

  /** tar_list: the names that are printed. */
  method TarList(input: Source) returns (names: seq<Text>)
    modifies input
    ensures names == Listed(old(input.input), 0)
  {
    hide PathOf, SizeOf, Passed, IsZero, OctValue, UpTo, BlockCount, Got, After;
    var block := new byte[BLOCK](_ => 0);
    var zeros := 0;
    names := [];
    ghost var goal := Listed(input.input, 0);
    while true
      invariant names + Listed(input.input, zeros) == goal
      decreases |input.input.rest|
    {
      ghost var i := input.input;
      var r := input.Read(block, BLOCK);
      if r < BLOCK {
        break;
      }
      var h := block[..];
      assert h == block[..BLOCK] == i.rest[..BLOCK];
      var z := IsZeroBlock(block);
      if z {
        zeros := zeros + 1;
        if zeros >= 2 {
          break;
        }
        continue;
      }
      zeros := 0;
      var path := FilePath(h);
      var size := OctToUlong(h, 124, 12);
      SizeIs(h, size);
      Rounded(size);
      input.SkipBlocks((size + 511) / 512);
      ghost var more := Listed(input.input, 0);
      assert names + ([path] + more) == (names + [path]) + more;
      names := names + [path];
    }
  }

  lemma SizeIs(h: seq<byte>, size: nat)
    requires |h| == BLOCK && size == OctValue(h[124..124 + 12], 0)
    ensures size == SizeOf(h)
  {
  }
}
