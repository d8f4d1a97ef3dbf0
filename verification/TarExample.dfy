// A whole archive, byte by byte: the one of a directory named a.

module TarExample {
  import opened Bits
  import opened TarHeader
  import opened TarArchive

  /** Directory a with mode 0755, of user and group 1000, modified at time 0. */
  function Sample(): Entry {
    Entry([97], Directory, 16384 + 493, 1000, 1000, 0)
  }

  /** Its header block: name, mode, uid, gid, size, mtime, checksum 006140, type, link, magic, version, names of user
      and group, device numbers, prefix, and padding. */
  function SampleFields(): (fs: Fields) {
    [ [97] + Zeros(99), [48, 48, 48, 48, 55, 53, 53, 0], [48, 48, 48, 49, 55, 53, 48, 0],
      [48, 48, 48, 49, 55, 53, 48, 0], Elevens() + [0], Elevens() + [0], [48, 48, 54, 49, 52, 48, 0, 32], [53] ]
    + [ Zeros(100), [117, 115, 116, 97, 114, 0], [48, 48], Zeros(32), Zeros(32), Zeros(8), Zeros(8), Zeros(155),
        Zeros(12) ]
  }

  function Elevens(): (r: seq<byte>)
    ensures |r| == 11
  {
    seq(11, _ => 48)
  }

  lemma Digit(v: nat, n: nat)
    ensures OctDigits(v, n + 1) == OctDigits(v / 8, n) + [48 + v % 8]
  {
  }

  lemma {:induction false} NoDigits(n: nat)
    ensures OctDigits(0, n) == seq(n, _ => 48)
  {
    if n > 0 {
      NoDigits(n - 1);
    }
  }

  lemma Digits3(v: nat, n: nat, a: nat, b: nat, c: nat)
    requires v == 64 * a + 8 * b + c && a < 8 && b < 8 && c < 8
    ensures OctDigits(v, n + 3) == OctDigits(0, n) + [48 + a, 48 + b, 48 + c]
  {
    hide OctDigits;
    Digit(v, n + 2);
    Digit(8 * a + b, n + 1);
    Digit(a, n);
  }

  lemma Digits4(v: nat, n: nat, d: nat, a: nat, b: nat, c: nat)
    requires v == 512 * d + 64 * a + 8 * b + c && a < 8 && b < 8 && c < 8 && d < 8
    ensures OctDigits(v, n + 4) == OctDigits(0, n) + [48 + d, 48 + a, 48 + b, 48 + c]
  {
    hide OctDigits;
    Digit(v, n + 3);
    Digit(64 * d + 8 * a + b, n + 2);
    Digit(8 * d + a, n + 1);
    Digit(d, n);
  }

  lemma InOctal()
    ensures OctField(493, 8) == [48, 48, 48, 48, 55, 53, 53, 0]
    ensures OctField(1000, 8) == [48, 48, 48, 49, 55, 53, 48, 0]
    ensures OctField(3168, 7) == [48, 48, 54, 49, 52, 48, 0]
    ensures OctField(0, 12) == Elevens() + [0]
  {
    hide OctDigits;
    Digits3(493, 4, 7, 5, 5);
    Digits4(1000, 3, 1, 7, 5, 0);
    Digits4(3168, 2, 6, 1, 4, 0);
    NoDigits(2);
    NoDigits(3);
    NoDigits(4);
    NoDigits(11);
  }

  /** The sum of all fields. */
  function Sums(fs: seq<seq<byte>>): nat {
    if fs == [] then 0 else Sum(fs[0]) + Sums(fs[1..])
  }

  lemma {:induction false} SumOfJoin(fs: seq<seq<byte>>)
    ensures Sum(Join(fs)) == Sums(fs)
  {
    if fs != [] {
      SumOfJoin(fs[1..]);
      SumAppend(fs[0], Join(fs[1..]));
    }
  }

  lemma SumsAppend(fs: seq<seq<byte>>, gs: seq<seq<byte>>)
    ensures Sums(fs + gs) == Sums(fs) + Sums(gs)
  {
    hide Sums;
    SumOfJoin(fs);
    SumOfJoin(gs);
    SumOfJoin(fs + gs);
    JoinAppend(fs, gs);
    SumAppend(Join(fs), Join(gs));
  }

  lemma SumOfFour(a: byte, b: byte, c: byte, d: byte)
    ensures Sum([a, b, c, d]) == a + b + c + d
  {
    assert [a, b, c, d][..3] == [a, b, c];
    assert [a, b, c][..2] == [a, b];
    assert [a, b][..1] == [a];
    assert [a][..0] == [];
    assert Sum([a]) == a;
    assert Sum([a, b]) == a + b;
    assert Sum([a, b, c]) == a + b + c;
  }

  lemma SumOfEight(s: seq<byte>)
    requires |s| == 8
    ensures Sum(s) == (s[0] as int) + s[1] + s[2] + s[3] + s[4] + s[5] + s[6] + s[7]
  {
    hide Sum;
    assert s == [s[0], s[1], s[2], s[3]] + [s[4], s[5], s[6], s[7]];
    SumAppend([s[0], s[1], s[2], s[3]], [s[4], s[5], s[6], s[7]]);
    SumOfFour(s[0], s[1], s[2], s[3]);
    SumOfFour(s[4], s[5], s[6], s[7]);
  }

  lemma SumThenZeros(a: seq<byte>, n: nat)
    ensures Sum(a + Zeros(n)) == Sum(a) && Sum(Zeros(n)) == 0
  {
    hide Sum;
    SumAppend(a, Zeros(n));
    SumOfEqual(0, n);
    assert Zeros(n) == seq(n, _ => 0);
  }

  lemma {:induction false} SumsOf(fs: seq<seq<byte>>, n: nat)
    requires n < |fs|
    ensures Sums(fs[n..]) == Sum(fs[n]) + Sums(fs[n + 1..])
  {
    assert fs[n..][1..] == fs[n + 1..];
  }

  lemma FrontSum()
    ensures Sums(FrontFields(Sample(), Spaces())) == 2513
  {
    hide Sums, Sum, OctField;
    var fs := FrontFields(Sample(), Spaces());
    InOctal();
    SumThenZeros([97], 99);
    assert NameField([97]) == [97] + Zeros(99);
    SumOfOne(97);
    SumOfEight(fs[1]);
    SumOfEight(fs[2]);
    SumOfElevens();
    SumOfEight(fs[6]);
    SumOfOne(53);
    SumsOfEight(fs);
  }

  lemma SumOfOne(a: byte)
    ensures Sum([a]) == a
  {
    assert [a][..0] == [];
  }

  lemma SumOfElevens()
    ensures Sum(Elevens() + [0]) == 528
  {
    SumOfEqual(48, 11);
    assert Elevens() == seq(11, _ => 48);
    SumAppend(Elevens(), [0]);
    SumOfOne(0);
  }

  lemma SumsOfEight(fs: seq<seq<byte>>)
    requires |fs| == 8
    ensures Sums(fs)
            == Sum(fs[0]) + Sum(fs[1]) + Sum(fs[2]) + Sum(fs[3]) + Sum(fs[4]) + Sum(fs[5]) + Sum(fs[6]) + Sum(fs[7])
  {
    hide Sum;
    assert fs[0..] == fs && fs[8..] == [];
    SumsOf(fs, 0);
    SumsOf(fs, 1);
    SumsOf(fs, 2);
    SumsOf(fs, 3);
    SumsOf(fs, 4);
    SumsOf(fs, 5);
    SumsOf(fs, 6);
    SumsOf(fs, 7);
    assert Sums(fs[8..]) == 0;
  }

  lemma BackSum()
    ensures Sums(BackFields(Sample())) == 655
  {
    hide Sum, Sums;
    var fs := BackFields(Sample());
    assert fs[1] == [117, 115, 116, 97] + [114, 0] && fs[2] == [48] + [48];
    SumAppend([117, 115, 116, 97], [114, 0]);
    SumOfFour(117, 115, 116, 97);
    assert [114, 0] == [114] + [0];
    SumAppend([114], [0]);
    SumAppend([48], [48]);
    SumOfOne(114);
    SumOfOne(0);
    SumOfOne(48);
    SumThenZeros([], 8);
    SumThenZeros([], 12);
    SumThenZeros([], 32);
    SumThenZeros([], 100);
    SumThenZeros([], 155);
    SumsOf(fs, 0);
    assert fs[0..] == fs && fs[1..] == [fs[1]] + fs[2..];
    SumsOf(fs, 1);
    assert fs[1..][1..] == fs[2..];
    SumsOfSeven(fs);
  }

  lemma SumsOfSeven(fs: seq<seq<byte>>)
    requires |fs| == 9
    ensures Sums(fs[2..]) == Sum(fs[2]) + Sum(fs[3]) + Sum(fs[4]) + Sum(fs[5]) + Sum(fs[6]) + Sum(fs[7]) + Sum(fs[8])
  {
    hide Sum;
    assert fs[9..] == [];
    SumsOf(fs, 2);
    SumsOf(fs, 3);
    SumsOf(fs, 4);
    SumsOf(fs, 5);
    SumsOf(fs, 6);
    SumsOf(fs, 7);
    SumsOf(fs, 8);
  }

  lemma SampleSum()
    ensures var h := Join(HeaderFields(Sample(), Spaces()));
            |h| == BLOCK && Checksum(h) == 3168
  {
    hide Join, Sums, Sum, Checksum, FrontFields, BackFields, Sample, Spaces;
    var fs := HeaderFields(Sample(), Spaces());
    assert fs[CHKSUM] == Spaces() by {
      SampleChecksumField();
    }
    assert fs[CHKSUM := Spaces()] == fs;
    ChecksumOfJoin(fs);
    SumOfJoin(fs);
    FrontSum();
    BackSum();
    SumsAppend(FrontFields(Sample(), Spaces()), BackFields(Sample()));
  }

  lemma SampleChecksumField()
    ensures HeaderFields(Sample(), Spaces())[CHKSUM] == Spaces()
  {
    hide Spaces;
  }

  /** The header of the directory is the block written out above. */
  lemma SampleHeader()
    ensures Header(Sample()) == Join(SampleFields())
  {
    hide Join, Checksum, OctField;
    SampleSum();
    InOctal();
    SampleParts(OctField(3168, 7) + [SPACE]);
  }

  lemma SampleParts(chksum: seq<byte>)
    requires chksum == [48, 48, 54, 49, 52, 48, 0, 32]
    ensures HeaderFields(Sample(), chksum) == SampleFields()
  {
    hide OctField;
    InOctal();
    assert NameField([97]) == [97] + Zeros(99);
    assert Fill([], 100) == Zeros(100);
    var fs, gs := HeaderFields(Sample(), chksum), SampleFields();
    forall k | 0 <= k < 17
      ensures fs[k] == gs[k]
    {
    }
  }

  /** Extracting the block and two zero blocks makes the directory with its mode. */
  lemma SampleExtracted(opens: seq<bool>)
    ensures Extraction(Join(SampleFields()) + Zeros(1024), 0, opens) == Outcome(0, [MakeDirectory([97], 493)])
  {
    hide Join, Extraction, Header;
    var es := [Sample()];
    SampleHeader();
    assert Pow8(11) > 0;
    RoundTrip(es, opens);
    assert es[1..] == [];
    assert Member(Sample()) == Header(Sample());
    assert Members(es) == Header(Sample());
    assert AllExpected(es, opens) == [MakeDirectory([97], 493)];
  }

  // ---- what a reader does with each type ----------------------------------------------------------

  /** Without a mode a directory gets 0755 and a file 0644. */
  lemma DefaultModes()
    ensures OctValue([48, 55, 53, 53], 0) == DIRMODE && OctValue([48, 54, 52, 52], 0) == FILEMODE
  {
    assert [48, 55, 53, 53][1..] == [55, 53, 53] && [48, 54, 52, 52][1..] == [54, 52, 52];
    assert [55, 53, 53][1..] == [53, 53] && [54, 52, 52][1..] == [52, 52];
    assert [53, 53][1..] == [53] && [52, 52][1..] == [52];
    assert [53][1..] == [] && [52][1..] == [];
    assert OctValue([53], 61) == 493 && OctValue([52], 52) == 420;
    assert OctValue([53, 53], 7) == 493 && OctValue([52, 52], 6) == 420;
  }

  /** A block with a good checksum makes a hard link for type 1, a symbolic one for type 2, a directory for type 5,
      and is a file for every other. */
  lemma ByType(block: seq<byte>, rest: seq<byte>, opens: seq<bool>)
    requires |block| == BLOCK && !IsZero(block) && StoredSum(block) == Checksum(block)
    ensures IsFile(block) <==> block[156] !in {49, 50, 53}
    ensures block[156] == 49 ==> Extraction(block + rest, 0, opens)
                                 == Then(MakeLink(PathOf(block), TargetOf(block)), Extraction(rest, 0, opens))
    ensures block[156] == 50 ==> Extraction(block + rest, 0, opens)
                                 == Then(MakeSymlink(PathOf(block), TargetOf(block)), Extraction(rest, 0, opens))
    ensures block[156] == 53 ==>
              Extraction(block + rest, 0, opens)
              == Then(MakeDirectory(PathOf(block), ModeOr(ModeOf(block), DIRMODE)), Extraction(rest, 0, opens))
  {
    hide IsZero, StoredSum, Checksum, PathOf, TargetOf, ModeOf;
    var input := block + rest;
    assert input[..BLOCK] == block && input[BLOCK..] == rest;
  }
}
