// tools/tar.c: what an archive is, and what extracting and listing make of bytes.

module TarArchive {
  import opened Bits
  import opened TarHeader

  // ---- what an archive is -----------------------------------------------------------------------

  /** File contents in whole blocks, the last one filled up with zeros. */
  function Blocks(data: seq<byte>): seq<byte> {
    if data == [] then []
    else if |data| <= BLOCK then Fill(data, BLOCK)
    else data[..BLOCK] + Blocks(data[BLOCK..])
  }

  function Contents(kind: Kind): seq<byte> {
    if kind.Regular? then Blocks(kind.data) else []
  }

  function Member(e: Entry): seq<byte> {
    Header(e) + Contents(e.kind)
  }

  function Members(es: seq<Entry>): seq<byte> {
    if es == [] then [] else Member(es[0]) + Members(es[1..])
  }

  function Archive(es: seq<Entry>): seq<byte> {
    Members(es) + Zeros(2 * BLOCK)
  }

  // ---- what a reader makes of any bytes ---------------------------------------------------------

  /** What extracting does to the file system. A file that cannot be opened is refused, and one whose
      contents end too early is cut short. */
  datatype Action =
    | MakeDirectory(path: Text, mode: nat)
    | MakeSymlink(path: Text, target: Text)
    | MakeLink(path: Text, target: Text)
    | WriteFile(path: Text, mode: nat, data: seq<byte>)
    | Refused(path: Text)
    | CutShort(path: Text, data: seq<byte>)

  datatype Outcome = Outcome(status: int, actions: seq<Action>)

  function BlockCount(size: nat): nat {
    (size + BLOCK - 1) / BLOCK
  }

  /** The input behind `n` blocks, or its end. */
  function Skip(input: seq<byte>, n: nat): (r: seq<byte>)
    ensures |r| <= |input|
  {
    if BLOCK * n <= |input| then input[BLOCK * n..] else []
  }

  predicate IsZero(block: seq<byte>) {
    forall i :: 0 <= i < |block| ==> block[i] == 0
  }

  function ModeOr(mode: nat, default: nat): nat {
    if mode != 0 then mode else default
  }

  const DIRMODE := 493
  const FILEMODE := 420

  function Then(a: Action, o: Outcome): Outcome {
    Outcome(o.status, [a] + o.actions)
  }

  predicate IsFile(block: seq<byte>)
    requires |block| == BLOCK
  {
    block[156] != DIRTYPE && block[156] != SYMTYPE && block[156] != LNKTYPE
  }

  function LinkAction(block: seq<byte>): Action
    requires |block| == BLOCK && !IsFile(block)
  {
    if block[156] == DIRTYPE then MakeDirectory(PathOf(block), ModeOr(ModeOf(block), DIRMODE))
    else if block[156] == SYMTYPE then MakeSymlink(PathOf(block), TargetOf(block))
    else MakeLink(PathOf(block), TargetOf(block))
  }

  /** Whether the next file can be opened, as the system answers in turn. */
  function CanOpen(opens: seq<bool>): bool {
    opens == [] || opens[0]
  }

  function Later<T>(answers: seq<T>): seq<T> {
    if answers == [] then [] else answers[1..]
  }

  /** The outcome of extracting, with the number of zero blocks just seen. */
  function Extraction(input: seq<byte>, zeros: nat, opens: seq<bool>): Outcome
    decreases |input|
  {
    if |input| < BLOCK then Outcome(if input == [] then 0 else 1, [])
    else
      var block, rest := input[..BLOCK], input[BLOCK..];
      if IsZero(block) then
        if zeros + 1 >= 2 then Outcome(0, []) else Extraction(rest, zeros + 1, opens)
      else if StoredSum(block) != Checksum(block) then Outcome(1, [])
      else if !IsFile(block) then Then(LinkAction(block), Extraction(rest, 0, opens))
      else
        var n := BlockCount(SizeOf(block));
        if !CanOpen(opens) then
          Then(Refused(PathOf(block)), Extraction(Skip(rest, n), 0, Later(opens)))
        else if BLOCK * n > |rest| then
          Outcome(1, [CutShort(PathOf(block), rest[..BLOCK * (|rest| / BLOCK)])])
        else
          Then(WriteFile(PathOf(block), ModeOr(ModeOf(block), FILEMODE), rest[..SizeOf(block)]),
               Extraction(rest[BLOCK * n..], 0, Later(opens)))
  }

  /** The names that listing prints. */
  function Listing(input: seq<byte>, zeros: nat): seq<Text>
    decreases |input|
  {
    if |input| < BLOCK then []
    else
      var block, rest := input[..BLOCK], input[BLOCK..];
      if IsZero(block) then
        if zeros + 1 >= 2 then [] else Listing(rest, zeros + 1)
      else [PathOf(block)] + Listing(Skip(rest, BlockCount(SizeOf(block))), 0)
  }

  // ---- the round trip -------------------------------------------------------------------------------

  /** What is expected of a member: all of it, but for what its header has no room for. */
  function Expected(e: Entry, open: bool): Action {
    var path := if Faithful(e.path) then e.path else e.path[..100];
    match e.kind
    case Directory => MakeDirectory(path, ModeOr(e.mode % 4096, DIRMODE))
    case Symlink(_) => MakeSymlink(path, LinkText(e.kind))
    case Regular(data) => if open then WriteFile(path, ModeOr(e.mode % 4096, FILEMODE), data) else Refused(path)
  }

  function AllExpected(es: seq<Entry>, opens: seq<bool>): seq<Action> {
    if es == [] then []
    else [Expected(es[0], CanOpen(opens))]
         + AllExpected(es[1..], if es[0].kind.Regular? then Later(opens) else opens)
  }

  lemma {:induction false} BlocksAre(data: seq<byte>)
    ensures |Blocks(data)| == BLOCK * BlockCount(|data|) && |data| <= |Blocks(data)| && Blocks(data)[..|data|] == data
  {
    if |data| > BLOCK {
      BlocksAre(data[BLOCK..]);
      assert BlockCount(|data|) == 1 + BlockCount(|data| - BLOCK);
      assert data == data[..BLOCK] + data[BLOCK..];
    }
  }

  lemma BlocksOfFile(data: seq<byte>, rest: seq<byte>)
    ensures var n, all := BlockCount(|data|), Blocks(data) + rest;
            BLOCK * n <= |all| && |data| <= BLOCK * n && all[..|data|] == data && all[BLOCK * n..] == rest
            && Skip(all, n) == rest
  {
    BlocksAre(data);
  }

  lemma FirstMember(e: Entry, rest: seq<byte>)
    ensures var input := Member(e) + rest;
            |input| >= BLOCK && input[..BLOCK] == Header(e) && input[BLOCK..] == Contents(e.kind) + rest
  {
    hide Header, Contents;
  }

  /** Extracting one member and then the rest. Data is never taken for a header, not even zero blocks. */
  lemma ExtractMember(e: Entry, rest: seq<byte>, zeros: nat, opens: seq<bool>)
    requires Size(e.kind) < Pow8(11)
    ensures Extraction(Member(e) + rest, zeros, opens)
            == Then(Expected(e, CanOpen(opens)),
                    Extraction(rest, 0, if e.kind.Regular? then Later(opens) else opens))
  {
    hide Header, Checksum, PathOf, StoredSum, TargetOf, ModeOf, SizeOf, Contents, Member, Blocks, Faithful, Pow8;
    var h, input := Header(e), Member(e) + rest;
    FirstMember(e, rest);
    HeaderReadsBack(e);
    assert SizeOf(h) == Size(e.kind);
    assert !IsZero(h);
    if e.kind.Regular? {
      ContentsOf(e.kind);
      BlocksOfFile(e.kind.data, rest);
    } else {
      ContentsOf(e.kind);
      assert [] + rest == rest;
    }
  }

  lemma ContentsOf(kind: Kind)
    ensures Contents(kind) == if kind.Regular? then Blocks(kind.data) else []
  {
  }

  lemma ContentsSkipped(kind: Kind, rest: seq<byte>)
    ensures Skip(Contents(kind) + rest, BlockCount(Size(kind))) == rest
  {
    hide Contents, Blocks;
    ContentsOf(kind);
    if kind.Regular? {
      BlocksOfFile(kind.data, rest);
    } else {
      assert [] + rest == rest;
    }
  }

  lemma ListingOf(h: seq<byte>, rest: seq<byte>, zeros: nat)
    requires |h| == BLOCK && !IsZero(h)
    ensures Listing(h + rest, zeros) == [PathOf(h)] + Listing(Skip(rest, BlockCount(SizeOf(h))), 0)
  {
    hide PathOf, SizeOf, Skip, BlockCount, IsZero;
    assert (h + rest)[..BLOCK] == h && (h + rest)[BLOCK..] == rest;
  }

  lemma ListMember(e: Entry, rest: seq<byte>, zeros: nat)
    requires Size(e.kind) < Pow8(11)
    ensures Listing(Member(e) + rest, zeros) == [Expected(e, true).path] + Listing(rest, 0)
  {
    hide Header, Checksum, PathOf, StoredSum, TargetOf, ModeOf, SizeOf, Contents, Blocks, Faithful, Pow8, Skip,
         BlockCount, Size, Listing;
    HeaderReadsBack(e);
    ContentsSkipped(e.kind, rest);
    ListingOf(Header(e), Contents(e.kind) + rest, zeros);
    assert Member(e) + rest == Header(e) + (Contents(e.kind) + rest);
  }

  lemma EndOfArchive(opens: seq<bool>)
    ensures Extraction(Zeros(2 * BLOCK), 0, opens) == Outcome(0, [])
    ensures Listing(Zeros(2 * BLOCK), 0) == []
  {
    var all := Zeros(2 * BLOCK);
    assert IsZero(all[..BLOCK]) && IsZero(all[BLOCK..][..BLOCK]);
  }

  /** Extracting an archive gives back its members, whichever files can be opened. */
  lemma {:induction false} RoundTrip(es: seq<Entry>, opens: seq<bool>)
    requires forall i :: 0 <= i < |es| ==> Size(es[i].kind) < Pow8(11)
    ensures Extraction(Archive(es), 0, opens) == Outcome(0, AllExpected(es, opens))
    decreases |es|
  {
    hide Extraction, Member, Expected, Size, Pow8;
    var end := Zeros(2 * BLOCK);
    if es == [] {
      EndOfArchive(opens);
      assert [] + end == end;
    } else {
      var more := if es[0].kind.Regular? then Later(opens) else opens;
      RoundTrip(es[1..], more);
      ExtractMember(es[0], Archive(es[1..]), 0, opens);
      assert Archive(es) == Member(es[0]) + Archive(es[1..]);
    }
  }

  function Paths(es: seq<Entry>): seq<Text> {
    if es == [] then [] else [Expected(es[0], true).path] + Paths(es[1..])
  }

  lemma {:induction false} ListArchive(es: seq<Entry>)
    requires forall i :: 0 <= i < |es| ==> Size(es[i].kind) < Pow8(11)
    ensures Listing(Archive(es), 0) == Paths(es)
    decreases |es|
  {
    hide Listing, Member, Expected, Size, Pow8;
    var end := Zeros(2 * BLOCK);
    if es == [] {
      EndOfArchive([]);
      assert [] + end == end;
    } else {
      ListArchive(es[1..]);
      ListMember(es[0], Archive(es[1..]), 0);
      assert Archive(es) == Member(es[0]) + Archive(es[1..]);
    }
  }

  /** The member as it was. */
  function Unchanged(e: Entry): Action {
    match e.kind
    case Directory => MakeDirectory(e.path, e.mode % 4096)
    case Symlink(target) => MakeSymlink(e.path, target)
    case Regular(data) => WriteFile(e.path, e.mode % 4096, data)
  }

  /** Its size fits into its field, its path can be cut where it must be; a link has a target of at most 99
      bytes, anything else a mode that is not 0. */
  predicate Survives(e: Entry) {
    && Size(e.kind) < Pow8(11) && Faithful(e.path)
    && if e.kind.Symlink? then |e.kind.target| <= 99 else e.mode % 4096 != 0
  }

  /** The first action of extracting a member gives it back as it was for exactly these members. */
  lemma UnchangedIff(e: Entry, rest: seq<byte>, zeros: nat, opens: seq<bool>)
    requires CanOpen(opens)
    ensures var o := Extraction(Member(e) + rest, zeros, opens);
            o.actions != [] && o.actions[0] == Unchanged(e) <==> Survives(e)
  {
    hide Extraction, Member, Pow8, Size;
    if Size(e.kind) < Pow8(11) {
      ExtractMember(e, rest, zeros, opens);
      ExpectedIff(e);
    } else {
      TooLarge(e, rest, zeros, opens);
    }
  }

  lemma ExpectedIff(e: Entry)
    ensures Expected(e, true) == Unchanged(e)
            <==> Faithful(e.path) && if e.kind.Symlink? then |e.kind.target| <= 99 else e.mode % 4096 != 0
  {
    if !Faithful(e.path) {
      assert |e.path[..100]| < |e.path|;
    }
    if e.kind.Symlink? && |e.kind.target| > 99 {
      assert |LinkText(e.kind)| == 99;
    }
  }

  /** A file that is too large for its size field comes back with less data. */
  lemma TooLarge(e: Entry, rest: seq<byte>, zeros: nat, opens: seq<bool>)
    requires CanOpen(opens) && Size(e.kind) >= Pow8(11)
    ensures var o := Extraction(Member(e) + rest, zeros, opens); o.actions != [] ==> o.actions[0] != Unchanged(e)
  {
    hide Header, Checksum, PathOf, StoredSum, TargetOf, ModeOf, SizeOf, Member, Blocks, Faithful, Pow8, Contents;
    FirstMember(e, rest);
    HeaderReadsBack(e);
    assert Size(e.kind) % Pow8(11) < Pow8(11);
  }

  // ---- a header alone ---------------------------------------------------------------------------------

  /** What extracting makes of the header of a file and what comes behind it. */
  function FileAt(path: Text, mode: nat, size: nat, rest: seq<byte>, opens: seq<bool>): Outcome {
    var n := BlockCount(size);
    if BLOCK * n > |rest| then Outcome(1, [CutShort(path, rest[..BLOCK * (|rest| / BLOCK)])])
    else Then(WriteFile(path, ModeOr(mode, FILEMODE), rest[..size]), Extraction(rest[BLOCK * n..], 0, Later(opens)))
  }

  lemma ExtractionOfFile(h: seq<byte>, rest: seq<byte>, zeros: nat, opens: seq<bool>)
    requires |h| == BLOCK && !IsZero(h) && StoredSum(h) == Checksum(h) && IsFile(h) && CanOpen(opens)
    ensures Extraction(h + rest, zeros, opens) == FileAt(PathOf(h), ModeOf(h), SizeOf(h), rest, opens)
  {
    hide PathOf, SizeOf, StoredSum, Checksum, ModeOf, IsZero;
    assert (h + rest)[..BLOCK] == h && (h + rest)[BLOCK..] == rest;
  }

  /** A header without the contents it announces: extracting takes what comes behind it for them. */
  lemma HeaderAlone(e: Entry, rest: seq<byte>, zeros: nat, opens: seq<bool>)
    requires e.kind.Regular? && Size(e.kind) < Pow8(11) && CanOpen(opens)
    ensures Extraction(Header(e) + rest, zeros, opens)
            == FileAt(Expected(e, true).path, e.mode % 4096, Size(e.kind), rest, opens)
  {
    hide Header, Checksum, PathOf, StoredSum, TargetOf, ModeOf, SizeOf, Faithful, Pow8, Extraction, FileAt;
    HeaderReadsBack(e);
    assert SizeOf(Header(e)) == Size(e.kind);
    ExtractionOfFile(Header(e), rest, zeros, opens);
  }

  // ---- listing and extracting see the same names ---------------------------------------------------------

  /** As listing walks through the archive, directories and links have no contents. */
  ghost predicate LinksEmpty(input: seq<byte>, zeros: nat)
    decreases |input|
  {
    if |input| < BLOCK then true
    else
      var block, rest := input[..BLOCK], input[BLOCK..];
      if IsZero(block) then zeros + 1 >= 2 || LinksEmpty(rest, zeros + 1)
      else (IsFile(block) || SizeOf(block) == 0) && LinksEmpty(Skip(rest, BlockCount(SizeOf(block))), 0)
  }

  function Names(actions: seq<Action>): seq<Text> {
    if actions == [] then [] else [actions[0].path] + Names(actions[1..])
  }

  lemma NamesThen(a: Action, o: Outcome)
    ensures Names(Then(a, o).actions) == [a.path] + Names(o.actions)
  {
  }

  /** For any bytes at all that extract without an error. */
  lemma {:induction false} ListsWhatItExtracts(input: seq<byte>, zeros: nat, opens: seq<bool>)
    requires LinksEmpty(input, zeros) && Extraction(input, zeros, opens).status == 0
    ensures Listing(input, zeros) == Names(Extraction(input, zeros, opens).actions)
    decreases |input|
  {
    hide Checksum, PathOf, StoredSum, TargetOf, ModeOf, SizeOf;
    if |input| >= BLOCK {
      var block, rest := input[..BLOCK], input[BLOCK..];
      if IsZero(block) {
        if zeros + 1 < 2 {
          ListsWhatItExtracts(rest, zeros + 1, opens);
        }
      } else if !IsFile(block) {
        assert Skip(rest, 0) == rest;
        ListsWhatItExtracts(rest, 0, opens);
        NamesThen(LinkAction(block), Extraction(rest, 0, opens));
      } else {
        var after := Skip(rest, BlockCount(SizeOf(block)));
        ListsWhatItExtracts(after, 0, Later(opens));
        var a := if CanOpen(opens) then WriteFile(PathOf(block), ModeOr(ModeOf(block), FILEMODE), rest[..SizeOf(block)])
                 else Refused(PathOf(block));
        NamesThen(a, Extraction(after, 0, Later(opens)));
      }
    }
  }
}
