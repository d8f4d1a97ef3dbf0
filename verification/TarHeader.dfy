// tools/tar.c: the 512-byte header block of an archive member.
//
// The header is a flat array of bytes, so that what one field's copy writes beyond its end is seen to land
// in the next field. It is specified as the concatenation of seventeen fields.

module TarHeader {
  import opened Bits
  import opened CStrings
  import opened Numbers

  ghost predicate NoZero(s: seq<byte>) {
    forall i :: 0 <= i < |s| ==> s[i] != 0
  }

  /** A C string of bytes, without the terminating zero. */
  type Text = s: seq<byte> | NoZero(s)

  const SLASH: byte := 47
  const SPACE: byte := 32
  const ZERO: byte := 48

  function Zeros(n: nat): (r: seq<byte>)
    ensures |r| == n && forall i :: 0 <= i < n ==> r[i] == 0
  {
    seq(n, _ => 0)
  }

  /** A string in a field of `n` bytes: cut off, or filled up with zeros. */
  function Fill(s: seq<byte>, n: nat): (r: seq<byte>)
    ensures |r| == n
  {
    if |s| >= n then s[..n] else s + Zeros(n - |s|)
  }

  /** What a field of bytes reads as: the bytes before the first zero, or all of them. */
  function UpTo(s: seq<byte>): (r: Text)
    ensures |r| <= |s|
  {
    if s == [] || s[0] == 0 then [] else [s[0]] + UpTo(s[1..])
  }

  lemma {:induction false} UpToIs(s: seq<byte>, t: Text)
    requires t <= s && (|t| < |s| ==> s[|t|] == 0)
    ensures UpTo(s) == t
  {
    if t != [] {
      UpToIs(s[1..], t[1..]);
    }
  }

  lemma UpToFill(s: Text, n: nat)
    ensures UpTo(Fill(s, n)) == if |s| <= n then s else s[..n]
  {
    UpToIs(Fill(s, n), if |s| <= n then s else s[..n]);
  }

  function Overwritten(s: seq<byte>, at: nat, f: seq<byte>): (r: seq<byte>)
    requires at + |f| <= |s|
    ensures |r| == |s|
  {
    s[..at] + f + s[at + |f|..]
  }

  lemma OverwrittenIs(s: seq<byte>, at: nat, f: seq<byte>, t: seq<byte>)
    requires at + |f| <= |s| == |t|
    requires forall x :: 0 <= x < |t| ==> t[x] == if at <= x < at + |f| then f[x - at] else s[x]
    ensures t == Overwritten(s, at, f)
  {
  }

  // ---- octal numbers ---------------------------------------------------------------------------

  function Pow8(n: nat): (r: nat)
    ensures r > 0
  {
    if n == 0 then 1 else 8 * Pow8(n - 1)
  }

  /** The last `n` octal digits. */
  function OctDigits(v: nat, n: nat): (r: seq<byte>)
    ensures |r| == n
  {
    if n == 0 then [] else OctDigits(v / 8, n - 1) + [ZERO + v % 8]
  }

  function OctField(v: nat, len: nat): (r: seq<byte>)
    requires len > 0
    ensures |r| == len
  {
    OctDigits(v, len - 1) + [0]
  }

  /** The number that the octal digits at the front of the field denote. */
  function OctValue(s: seq<byte>, acc: nat): nat {
    if s == [] || !(ZERO <= s[0] <= ZERO + 7) then acc else OctValue(s[1..], 8 * acc + (s[0] - ZERO))
  }

  lemma ModStep(v: nat, m: nat)
    requires m > 0
    ensures v % (8 * m) == 8 * ((v / 8) % m) + v % 8
  {
    var q, r := (v / 8) / m, (v / 8) % m;
    assert v / 8 == q * m + r;
    assert v == 8 * (q * m + r) + v % 8;
    assert 8 * (q * m) == q * (8 * m);
    ModIs(v, 8 * m, q, 8 * r + v % 8);
  }

  lemma OctStep(acc: nat, v: nat, n: nat)
    requires n > 0
    ensures 8 * (acc * Pow8(n - 1) + (v / 8) % Pow8(n - 1)) + v % 8 == acc * Pow8(n) + v % Pow8(n)
  {
    var p := Pow8(n - 1);
    ModStep(v, p);
    assert 8 * (acc * p) == acc * (8 * p);
  }

  lemma OctLast(v: nat, n: nat, d: byte, suf: seq<byte>)
    requires n > 0 && d == ZERO + v % 8
    ensures OctDigits(v, n) + suf == OctDigits(v / 8, n - 1) + ([d] + suf)
  {
  }

  lemma OctMore(d: nat, rest: seq<byte>, acc: nat)
    requires d < 8
    ensures OctValue([ZERO + d] + rest, acc) == OctValue(rest, 8 * acc + d)
  {
    assert ([ZERO + d] + rest)[1..] == rest;
  }

  lemma {:induction false} OctDigitsValue(v: nat, n: nat, rest: seq<byte>, acc: nat)
    ensures OctValue(OctDigits(v, n) + rest, acc) == OctValue(rest, acc * Pow8(n) + v % Pow8(n))
    decreases n
  {
    if n == 0 {
      assert OctDigits(v, n) + rest == rest;
    } else {
      hide OctDigits, OctValue, Pow8;
      var d: byte := ZERO + v % 8;
      OctLast(v, n, d, rest);
      OctDigitsValue(v / 8, n - 1, [d] + rest, acc);
      OctMore(v % 8, rest, acc * Pow8(n - 1) + (v / 8) % Pow8(n - 1));
      OctStep(acc, v, n);
    }
  }

  /** A number of any size reads back modulo the power of eight that the field holds, whatever follows the
      terminating zero. */
  lemma OctRoundTrip(v: nat, len: nat, rest: seq<byte>)
    requires len > 0
    ensures OctValue(OctField(v, len) + rest, 0) == v % Pow8(len - 1)
  {
    OctDigitsValue(v, len - 1, [0] + rest, 0);
    assert OctField(v, len) + rest == OctDigits(v, len - 1) + ([0] + rest);
  }

  /** tar_ulong_to_oct, into the array from position `at` on. */
  method UlongToOct(buf: array<byte>, at: nat, len: nat, val: nat)
    requires len > 0 && at + len <= buf.Length
    modifies buf
    ensures buf[..] == Overwritten(old(buf[..]), at, OctField(val, len))
  {
    ghost var mem, suf: seq<byte> := buf[..], [];
    buf[at + len - 1] := 0;
    var v, n := val, len - 1;
    assert OctDigits(v, n) + suf == OctDigits(val, len - 1);
    while n > 0
      invariant 0 <= n <= len - 1 && |suf| == len - 1 - n
      invariant OctDigits(v, n) + suf == OctDigits(val, len - 1)
      invariant forall x :: 0 <= x < buf.Length && !(at + n <= x < at + len) ==> buf[x] == mem[x]
      invariant forall x :: at + n <= x < at + len - 1 ==> buf[x] == suf[x - (at + n)]
      invariant buf[at + len - 1] == 0
    {
      var d: byte := ZERO + v % 8;
      OctLast(v, n, d, suf);
      hide OctDigits;
      buf[at + n - 1] := d;
      suf := [d] + suf;
      v, n := v / 8, n - 1;
    }
    assert OctDigits(v, n) + suf == suf;
    hide OctDigits;
    ghost var f := OctField(val, len);
    assert f == suf + [0];
    hide OctField;
    forall x | 0 <= x < buf.Length
      ensures buf[x] == if at <= x < at + len then f[x - at] else mem[x]
    {
      if at <= x < at + len - 1 {
        assert buf[x] == suf[x - (at + n)];
      }
    }
    OverwrittenIs(mem, at, f, buf[..]);
  }

  /** tar_oct_to_ulong, on a field of a block. */
  method OctToUlong(s: seq<byte>, at: nat, len: nat) returns (val: nat)
    requires at + len <= |s|
    ensures val == OctValue(s[at..at + len], 0)
  {
    val := 0;
    var i, end := 0, at + len;
    while i < len && ZERO <= s[at + i] <= ZERO + 7
      invariant i <= len
      invariant OctValue(s[at + i..end], val) == OctValue(s[at..end], 0)
    {
      assert s[at + i..end][1..] == s[at + i + 1..end];
      val := 8 * val + (s[at + i] - ZERO);
      i := i + 1;
    }
  }

  // ---- the fields ------------------------------------------------------------------------------

  /** name, mode, uid, gid, size, mtime, chksum, typeflag, linkname, magic, version, uname, gname, devmajor,
      devminor, prefix, pad. */
  const WIDTHS: seq<nat> := [100, 8, 8, 8, 12, 12, 8, 1, 100, 6, 2, 32, 32, 8, 8, 155, 12]

  const NAME := 0
  const MODE := 1
  const UID := 2
  const GID := 3
  const SIZE := 4
  const MTIME := 5
  const CHKSUM := 6
  const TYPE := 7
  const LINK := 8
  const MAGIC := 9
  const VERSION := 10
  const PREFIX := 15

  const BLOCK := 512

  /** Where a field starts. */
  function At(k: nat): nat
    requires k <= 17
  {
    if k == 0 then 0 else At(k - 1) + WIDTHS[k - 1]
  }

  lemma Offsets()
    ensures At(NAME) == 0 && At(MODE) == 100 && At(UID) == 108 && At(GID) == 116 && At(SIZE) == 124
    ensures At(MTIME) == 136 && At(CHKSUM) == 148 && At(TYPE) == 156 && At(LINK) == 157 && At(MAGIC) == 257
    ensures At(VERSION) == 263 && At(PREFIX) == 345 && At(16) == 500 && At(17) == BLOCK
  {
    assert At(1) == 100;
    assert At(2) == 108;
    assert At(3) == 116;
    assert At(4) == 124;
    assert At(5) == 136;
    assert At(6) == 148;
    assert At(7) == 156;
    assert At(8) == 157;
    assert At(9) == 257;
    assert At(10) == 263;
    assert At(11) == 265;
    assert At(12) == 297;
    assert At(13) == 329;
    assert At(14) == 337;
    assert At(15) == 345;
  }

  predicate Shaped(fs: seq<seq<byte>>) {
    |fs| == 17 && forall k :: 0 <= k < 17 ==> |fs[k]| == WIDTHS[k]
  }

  function Blank(): (fs: seq<seq<byte>>)
    ensures Shaped(fs)
  {
    seq(17, k requires 0 <= k < 17 => Zeros(WIDTHS[k]))
  }

  type Fields = fs: seq<seq<byte>> | Shaped(fs) witness Blank()

  function Join(fs: seq<seq<byte>>): seq<byte> {
    if fs == [] then [] else fs[0] + Join(fs[1..])
  }

  lemma {:induction false} JoinAppend(fs: seq<seq<byte>>, gs: seq<seq<byte>>)
    ensures Join(fs + gs) == Join(fs) + Join(gs)
  {
    if fs == [] {
      assert fs + gs == gs;
    } else {
      JoinAppend(fs[1..], gs);
      assert (fs + gs)[1..] == fs[1..] + gs;
      assert fs[0] + (Join(fs[1..]) + Join(gs)) == (fs[0] + Join(fs[1..])) + Join(gs);
    }
  }

  lemma JoinSplit(fs: seq<seq<byte>>, k: nat)
    requires k < |fs|
    ensures Join(fs) == Join(fs[..k]) + fs[k] + Join(fs[k + 1..])
  {
    assert fs == fs[..k] + fs[k..];
    JoinAppend(fs[..k], fs[k..]);
    assert fs[k..][1..] == fs[k + 1..];
  }

  lemma {:induction false} JoinWidth(fs: Fields, k: nat)
    requires k <= 17
    ensures |Join(fs[..k])| == At(k)
  {
    if k > 0 {
      JoinWidth(fs, k - 1);
      JoinAppend(fs[..k - 1], [fs[k - 1]]);
      assert fs[..k - 1] + [fs[k - 1]] == fs[..k];
    }
  }

  /** The bytes of a field. */
  lemma JoinField(fs: Fields, k: nat)
    requires k < 17
    ensures At(k + 1) <= |Join(fs)| && Join(fs)[At(k)..At(k + 1)] == fs[k]
  {
    JoinSplit(fs, k);
    JoinWidth(fs, k);
  }

  lemma JoinLength(fs: Fields)
    ensures |Join(fs)| == BLOCK
  {
    JoinWidth(fs, 17);
    assert fs[..17] == fs;
    Offsets();
  }

  /** Writing at the start of a field changes that field alone. */
  lemma JoinOverwritten(fs: Fields, k: nat, f: seq<byte>)
    requires k < 17 && |f| <= WIDTHS[k]
    ensures At(k) + |f| <= |Join(fs)|
    ensures Overwritten(Join(fs), At(k), f) == Join(fs[k := f + fs[k][|f|..]])
  {
    hide Join;
    JoinSplit(fs, k);
    JoinWidth(fs, k);
    var gs := fs[k := f + fs[k][|f|..]];
    JoinSplit(gs, k);
    assert gs[..k] == fs[..k] && gs[k + 1..] == fs[k + 1..];
    OverwrittenMiddle(Join(fs[..k]), fs[k], Join(fs[k + 1..]), f);
  }

  lemma OverwrittenMiddle(a: seq<byte>, b: seq<byte>, c: seq<byte>, f: seq<byte>)
    requires |f| <= |b|
    ensures Overwritten(a + b + c, |a|, f) == a + (f + b[|f|..]) + c
  {
  }

  // ---- the path ----------------------------------------------------------------------------------

  /** The first slash at which a long path can be cut so that both parts fit, or -1. */
  function FindSlash(path: seq<byte>, i: nat): (r: int)
    ensures r >= 0 ==> i <= r < |path| && r < 155 && path[r] == SLASH && forall j :: i <= j < r ==> path[j] != SLASH
    ensures r < 0 ==> forall j :: i <= j < |path| && j < 155 ==> path[j] != SLASH
    decreases |path| - i
  {
    if i >= |path| || i >= 155 then -1 else if path[i] == SLASH then i else FindSlash(path, i + 1)
  }

  function NameField(path: Text): (r: seq<byte>)
    ensures |r| == 100
  {
    if |path| <= 100 then Fill(path, 100)
    else
      var i := FindSlash(path, |path| - 100);
      if i >= 0 then Fill(path[i + 1..], 100) else path[..100]
  }

  function PrefixField(path: Text): (r: seq<byte>)
    ensures |r| == 155
  {
    if |path| <= 100 then Zeros(155)
    else
      var i := FindSlash(path, |path| - 100);
      if i >= 0 then Fill(path[..i], 155) else Zeros(155)
  }

  /** The path that a header block names. */
  function PathOf(block: seq<byte>): (r: Text)
    requires |block| == BLOCK
  {
    if block[345] != 0 then UpTo(block[345..500]) + [SLASH] + UpTo(block[..100]) else UpTo(block[..100])
  }

  /** The paths that survive. */
  predicate Faithful(path: Text) {
    |path| <= 100 || exists i :: |path| - 100 <= i < |path| && i < 155 && path[i] == SLASH
  }

  /** A path is rebuilt exactly if it is short or can be cut at a slash; otherwise only its first hundred
      bytes are left. */
  lemma PathRebuilt(path: Text, block: seq<byte>)
    requires |block| == BLOCK && block[..100] == NameField(path) && block[345..500] == PrefixField(path)
    ensures PathOf(block) == if Faithful(path) then path else path[..100]
    ensures PathOf(block) == path <==> Faithful(path)
  {
    hide UpTo, Fill;
    var name, prefix := block[..100], block[345..500];
    assert block[345] == prefix[0];
    var i := if |path| <= 100 then -1 else FindSlash(path, |path| - 100);
    if i >= 0 {
      CutPath(path, i);
    } else {
      WholePath(path);
    }
  }

  lemma CutPath(path: Text, i: nat)
    requires |path| > 100 && i == FindSlash(path, |path| - 100)
    ensures UpTo(PrefixField(path)) + [SLASH] + UpTo(NameField(path)) == path && PrefixField(path)[0] != 0
  {
    hide UpTo;
    var dir: Text, file: Text := path[..i], path[i + 1..];
    CutFields(path, i, dir, file);
    CutAt(path, i, dir, file);
    hide PrefixField, NameField, Fill, FindSlash;
    UpToFill(dir, 155);
    UpToFill(file, 100);
  }

  lemma CutFields(path: Text, i: nat, dir: Text, file: Text)
    requires |path| > 100 && i == FindSlash(path, |path| - 100) && dir == path[..i] && file == path[i + 1..]
    ensures PrefixField(path) == Fill(dir, 155) && NameField(path) == Fill(file, 100)
    ensures PrefixField(path)[0] != 0 && |dir| <= 155 && |file| <= 100
  {
    hide FindSlash;
    assert path[0] != 0;
    FirstOf(dir, 155);
  }

  lemma FirstOf(s: seq<byte>, n: nat)
    requires 0 < |s| <= n
    ensures Fill(s, n)[0] == s[0]
  {
  }

  lemma CutAt(path: Text, i: nat, dir: Text, file: Text)
    requires i < |path| && path[i] == SLASH && dir == path[..i] && file == path[i + 1..]
    ensures path == dir + [SLASH] + file
  {
  }

  lemma WholePath(path: Text)
    requires |path| > 100 ==> FindSlash(path, |path| - 100) < 0
    ensures PrefixField(path)[0] == 0 && UpTo(NameField(path)) == if |path| <= 100 then path else path[..100]
  {
    hide UpTo;
    UpToFill(path, 100);
  }

  // ---- the checksum --------------------------------------------------------------------------------

  function Sum(s: seq<byte>): (r: nat)
    ensures r <= 255 * |s|
  {
    if s == [] then 0 else Sum(s[..|s| - 1]) + s[|s| - 1]
  }

  /** The sum of the bytes, with the checksum's own counted as spaces. */
  function Checksum(h: seq<byte>): (r: nat)
    requires |h| == BLOCK
    ensures r < Pow8(6)
  {
    assert Pow8(6) == 262144 by {
      assert Pow8(2) == 64;
      assert Pow8(4) == 4096;
    }
    8 * SPACE + Sum(h[..148]) + Sum(h[156..])
  }

  /** tar_checksum. */
  method TarChecksum(h: seq<byte>) returns (sum: nat)
    requires |h| == BLOCK
    ensures sum == Checksum(h)
  {
    sum := 256;
    var i := 0;
    while i < 148
      invariant i <= 148 && sum == 256 + Sum(h[..i])
    {
      assert h[..i + 1][..i] == h[..i];
      sum := sum + h[i];
      i := i + 1;
    }
    i := 156;
    while i < 512
      invariant 156 <= i <= 512 && sum == 256 + Sum(h[..148]) + Sum(h[156..i])
    {
      assert h[156..i + 1][..i - 156] == h[156..i];
      sum := sum + h[i];
      i := i + 1;
    }
    assert h[156..512] == h[156..];
  }

  function Spaces(): (r: seq<byte>)
    ensures |r| == 8 && forall i :: 0 <= i < 8 ==> r[i] == 32
  {
    seq(8, _ => SPACE)
  }

  lemma {:induction false} SumAppend(a: seq<byte>, b: seq<byte>)
    ensures Sum(a + b) == Sum(a) + Sum(b)
  {
    if b == [] {
      assert a + b == a;
    } else {
      var n := |b| - 1;
      assert (a + b)[..|a + b| - 1] == a + b[..n];
      SumAppend(a, b[..n]);
    }
  }

  /** `n` bytes `b` add up to their product. */
  lemma {:induction false} SumOfEqual(b: byte, n: nat)
    ensures Sum(seq(n, _ => b)) == n * b
  {
    if n > 0 {
      assert seq(n, _ => b)[..n - 1] == seq(n - 1, _ => b);
      SumOfEqual(b, n - 1);
    }
  }

  /** The checksum of any block is the sum of all its bytes once the eight from 148 on are spaces. */
  lemma ChecksumIsSum(h: seq<byte>)
    requires |h| == BLOCK
    ensures Checksum(h) == Sum(Overwritten(h, 148, Spaces()))
  {
    SumAppend(h[..148] + Spaces(), h[156..]);
    SumAppend(h[..148], Spaces());
    SumOfEqual(SPACE, 8);
    assert Spaces() == seq(8, _ => SPACE);
  }

  /** What a header stores is the sum of the block that has spaces in place of its checksum. */
  lemma ChecksumOfJoin(fs: Fields)
    ensures |Join(fs)| == BLOCK && Checksum(Join(fs)) == Sum(Join(fs[CHKSUM := Spaces()]))
  {
    hide Join, Checksum;
    JoinLength(fs);
    Offsets();
    ChecksumIsSum(Join(fs));
    JoinOverwritten(fs, CHKSUM, Spaces());
    assert Spaces() + fs[CHKSUM][8..] == Spaces();
  }

  /** The checksum does not depend on the field that holds it. */
  lemma ChecksumOfFields(fs: Fields, f: seq<byte>)
    requires |f| == 8
    ensures |Join(fs)| == |Join(fs[CHKSUM := f])| == BLOCK
    ensures Checksum(Join(fs[CHKSUM := f])) == Checksum(Join(fs))
  {
    hide Join;
    var gs: Fields := fs[CHKSUM := f];
    JoinLength(fs);
    JoinLength(gs);
    JoinSplit(fs, CHKSUM);
    JoinSplit(gs, CHKSUM);
    JoinWidth(fs, CHKSUM);
    Offsets();
    assert gs[..6] == fs[..6] && gs[7..] == fs[7..];
    assert Join(gs)[..148] == Join(fs)[..148] && Join(gs)[156..] == Join(fs)[156..];
  }

  // ---- archive members --------------------------------------------------------------------------------

  datatype Kind = Directory | Symlink(target: Text) | Regular(data: seq<byte>)

  /** What lstat, readlink and reading tell about a file. */
  datatype Entry = Entry(path: Text, kind: Kind, mode: nat, uid: nat, gid: nat, mtime: nat)

  const DIRTYPE: byte := 53
  const SYMTYPE: byte := 50
  const LNKTYPE: byte := 49
  const REGTYPE: byte := 48

  function Flag(kind: Kind): byte {
    match kind
    case Directory => DIRTYPE
    case Symlink(_) => SYMTYPE
    case Regular(_) => REGTYPE
  }

  function Size(kind: Kind): nat {
    if kind.Regular? then |kind.data| else 0
  }

  /** sys_readlink is given room for 99 bytes. */
  function LinkText(kind: Kind): Text {
    if !kind.Symlink? then [] else if |kind.target| <= 99 then kind.target else kind.target[..99]
  }

  function FrontFields(e: Entry, chksum: seq<byte>): (fs: seq<seq<byte>>)
    requires |chksum| == 8
    ensures |fs| == 8 && forall k :: 0 <= k < 8 ==> |fs[k]| == WIDTHS[k]
  {
    [ NameField(e.path), OctField(e.mode % 4096, 8), OctField(e.uid, 8), OctField(e.gid, 8),
      OctField(Size(e.kind), 12), OctField(e.mtime, 12), chksum, [Flag(e.kind)] ]
  }

  function BackFields(e: Entry): (fs: seq<seq<byte>>)
    ensures |fs| == 9 && forall k :: 8 <= k < 17 ==> |fs[k - 8]| == WIDTHS[k]
  {
    [ Fill(LinkText(e.kind), 100), [117, 115, 116, 97, 114, 0], [ZERO, ZERO],
      Zeros(32), Zeros(32), Zeros(8), Zeros(8), PrefixField(e.path), Zeros(12) ]
  }

  function HeaderFields(e: Entry, chksum: seq<byte>): Fields
    requires |chksum| == 8
  {
    FrontFields(e, chksum) + BackFields(e)
  }

  /** The header block: seventeen fields, with the checksum in six octal digits. */
  function Header(e: Entry): (r: seq<byte>)
    ensures |r| == BLOCK
  {
    var unsummed := HeaderFields(e, Spaces());
    JoinLength(unsummed);
    var summed := HeaderFields(e, OctField(Checksum(Join(unsummed)), 7) + [SPACE]);
    JoinLength(summed);
    Join(summed)
  }

  // ---- what a reader finds in a block ---------------------------------------------------------------

  function StoredSum(block: seq<byte>): nat
    requires |block| == BLOCK
  {
    OctValue(block[148..156], 0)
  }

  function SizeOf(block: seq<byte>): nat
    requires |block| == BLOCK
  {
    OctValue(block[124..136], 0)
  }

  function ModeOf(block: seq<byte>): nat
    requires |block| == BLOCK
  {
    OctValue(block[100..108], 0)
  }

  function TargetOf(block: seq<byte>): Text
    requires |block| == BLOCK
  {
    UpTo(block[157..257])
  }

  lemma FieldsOfHeader(e: Entry)
    ensures var h := Header(e);
            && h[..100] == NameField(e.path) && h[345..500] == PrefixField(e.path)
            && h[100..108] == OctField(e.mode % 4096, 8) && h[124..136] == OctField(Size(e.kind), 12)
            && h[156] == Flag(e.kind) && h[157..257] == Fill(LinkText(e.kind), 100) && h[257] == 117
            && h[148..156] == OctField(Checksum(h), 7) + [SPACE]
  {
    hide Join;
    var unsummed := HeaderFields(e, Spaces());
    JoinLength(unsummed);
    var chksum := OctField(Checksum(Join(unsummed)), 7) + [SPACE];
    var fs := HeaderFields(e, chksum);
    ChecksumOfFields(unsummed, chksum);
    assert unsummed[CHKSUM := chksum] == fs;
    Offsets();
    JoinField(fs, NAME);
    JoinField(fs, MODE);
    JoinField(fs, SIZE);
    JoinField(fs, CHKSUM);
    JoinField(fs, TYPE);
    JoinField(fs, LINK);
    JoinField(fs, MAGIC);
    JoinField(fs, PREFIX);
    var h := Header(e);
    assert h[156] == h[156..157][0] && h[257] == h[257..263][0];
  }

  /** Every field that is read comes back: the path if it can be cut, the numbers modulo what their fields
      hold, a link target of up to 99 bytes; the checksum fits its field and verifies. */
  lemma HeaderReadsBack(e: Entry)
    ensures var h := Header(e);
            && StoredSum(h) == Checksum(h)
            && PathOf(h) == (if Faithful(e.path) then e.path else e.path[..100])
            && ModeOf(h) == e.mode % 4096 && SizeOf(h) == Size(e.kind) % Pow8(11)
            && h[156] == Flag(e.kind) && TargetOf(h) == LinkText(e.kind) && h[257] != 0
  {
    hide Header, Checksum, OctField, OctValue, NameField, PrefixField, PathOf;
    FieldsOfHeader(e);
    var h := Header(e);
    PathRebuilt(e.path, h);
    var mode, size := OctField(e.mode % 4096, 8), OctField(Size(e.kind), 12);
    OctRoundTrip(e.mode % 4096, 8, []);
    OctRoundTrip(Size(e.kind), 12, []);
    assert mode + [] == mode && size + [] == size;
    OctRoundTrip(Checksum(h), 7, [SPACE]);
    SumFits(h);
    assert Pow8(7) > 4096 by {
      assert Pow8(4) == 4096;
    }
    UpToFill(LinkText(e.kind), 100);
  }

  function Name(n: nat): (r: Text)
    ensures |r| == n && forall i :: 0 <= i < n ==> r[i] == 97
  {
    seq(n, _ => 97)
  }

  /** A name of 101 bytes without a slash loses its last one. */
  lemma LongName(e: Entry)
    requires e.path == Name(101)
    ensures PathOf(Header(e)) == Name(100)
  {
    hide Header, PathOf;
    HeaderReadsBack(e);
    assert Name(101)[..100] == Name(100);
  }

  lemma SumFits(h: seq<byte>)
    requires |h| == BLOCK
    ensures Checksum(h) % Pow8(6) == Checksum(h)
  {
    hide Sum;
  }

  // ---- writing a header -----------------------------------------------------------------------------

  /** The fields after str_ncpy: a shorter source fills its field with zeros and puts one more zero into the
      next field. */
  function AfterCopy(fs: Fields, k: nat, src: Text, n: nat): Fields
    requires k < 16 && n <= WIDTHS[k] && (|src| < n ==> n == WIDTHS[k])
  {
    if |src| >= n then fs[k := src[..n] + fs[k][n..]]
    else fs[k := Fill(src, n)][k + 1 := [0] + fs[k + 1][1..]]
  }

  lemma CopiedFields(fs: Fields, k: nat, src: Text, n: nat)
    requires k < 16 && n <= WIDTHS[k] && (|src| < n ==> n == WIDTHS[k])
    ensures At(k) + NcpySize(src, n) <= |Join(fs)|
    ensures Ncpied(Join(fs), At(k), src, 0, n) == Join(AfterCopy(fs, k, src, n))
  {
    hide Join, Overwritten, NoZero, NcpySize, Ncpied;
    if |src| >= n {
      CopiedCut(fs, k, src, n);
    } else {
      CopiedFilled(fs, k, src, n);
    }
  }

  lemma CopiedCut(fs: Fields, k: nat, src: Text, n: nat)
    requires k < 16 && n <= WIDTHS[k] && |src| >= n
    ensures At(k) + NcpySize(src, n) <= |Join(fs)|
    ensures Ncpied(Join(fs), At(k), src, 0, n) == Join(AfterCopy(fs, k, src, n))
  {
    hide Join, Overwritten, NoZero;
    var f: seq<byte> := src[..n];
    JoinOverwritten(fs, k, f);
    NcpiedCut(Join(fs), At(k), src, n, f);
  }

  lemma WidthPositive(k: nat)
    requires k < 17
    ensures |WIDTHS| == 17 && WIDTHS[k] >= 1
  {
  }

  lemma CopiedFilled(fs: Fields, k: nat, src: Text, n: nat)
    requires k < 16 && |src| < n == WIDTHS[k]
    ensures At(k) + NcpySize(src, n) <= |Join(fs)|
    ensures Ncpied(Join(fs), At(k), src, 0, n) == Join(AfterCopy(fs, k, src, n))
  {
    hide Join, Overwritten, NoZero, WIDTHS;
    WidthPositive(k + 1);
    var f, gs := Fill(src, n), fs[k := Fill(src, n)];
    JoinOverwritten(fs, k, f);
    assert f + fs[k][n..] == f;
    JoinOverwritten(gs, k + 1, [0]);
    NcpiedFilled(Join(fs), At(k), src, n, f);
  }

  lemma NcpiedCut(mem: seq<byte>, at: nat, src: Text, n: nat, f: seq<byte>)
    requires |src| >= n && at + n <= |mem| && f == src[..n]
    ensures Ncpied(mem, at, src, 0, n) == Overwritten(mem, at, f)
  {
  }

  lemma NcpiedFilled(mem: seq<byte>, at: nat, src: Text, n: nat, f: seq<byte>)
    requires |src| < n && at + n < |mem| && f == Fill(src, n)
    ensures Ncpied(mem, at, src, 0, n) == Overwritten(Overwritten(mem, at, f), at + n, [0])
  {
    var once: seq<byte> := Overwritten(mem, at, f);
    assert once[..at + n] == mem[..at] + f;
    assert once[at + n + 1..] == mem[at + n + 1..];
    assert f + [0] == src + seq(n + 1 - |src|, _ => 0);
  }

  /** str_ncpy into a field. */
  method PutText(h: array<byte>, ghost k: nat, at: nat, src: Text, n: nat, ghost fs: Fields)
    requires k < 16 && n <= WIDTHS[k] && (|src| < n ==> n == WIDTHS[k])
    requires at == At(k) && h[..] == Join(fs)
    modifies h
    ensures h[..] == Join(AfterCopy(fs, k, src, n))
  {
    hide Join, AfterCopy, At;
    CopiedFields(fs, k, src, n);
    StrNcpy(h, at, src, 0, n);
  }

  method PutNumber(h: array<byte>, ghost k: nat, at: nat, len: nat, val: nat, ghost fs: Fields)
    requires k < 17 && 0 < len == WIDTHS[k]
    requires at == At(k) && h[..] == Join(fs)
    modifies h
    ensures h[..] == Join(fs[k := OctField(val, len)])
  {
    hide Join, At, OctField, Overwritten;
    ghost var f := OctField(val, len);
    JoinOverwritten(fs, k, f);
    assert f + fs[k][len..] == f;
    UlongToOct(h, at, len, val);
  }

  /** A few bytes at the start of a field. */
  method PutBytes(h: array<byte>, ghost k: nat, at: nat, f: seq<byte>, ghost fs: Fields)
    requires k < 17 && |f| <= WIDTHS[k]
    requires at == At(k) && h[..] == Join(fs)
    modifies h
    ensures h[..] == Join(fs[k := f + fs[k][|f|..]])
  {
    hide Join, At;
    JoinOverwritten(fs, k, f);
    var i := 0;
    ghost var mem := h[..];
    while i < |f|
      invariant i <= |f|
      invariant forall x :: 0 <= x < h.Length && !(at <= x < at + i) ==> h[x] == mem[x]
      invariant forall x :: at <= x < at + i ==> h[x] == f[x - at]
    {
      h[at + i] := f[i];
      i := i + 1;
    }
    OverwrittenIs(mem, at, f, h[..]);
  }

  /** The loop that looks for a place to cut the path. */
  method SplitPoint(path: Text) returns (i: int)
    requires |path| > 100
    ensures i == FindSlash(path, |path| - 100)
  {
    i := |path| - 100;
    while i < |path| && i < 155
      invariant |path| - 100 <= i
      invariant FindSlash(path, |path| - 100) == FindSlash(path, i)
    {
      if path[i] == SLASH {
        return i;
      }
      i := i + 1;
    }
    i := -1;
  }

  /** The name and the prefix; a stray zero may have come into the mode. */
  ghost predicate Named(path: Text, fs: Fields) {
    && fs[NAME] == NameField(path) && fs[PREFIX] == PrefixField(path)
    && forall k :: 0 <= k < 17 && k != NAME && k != MODE && k != PREFIX ==> fs[k] == Zeros(WIDTHS[k])
  }

  method PutPath(h: array<byte>, path: Text) returns (ghost fs: Fields)
    requires h[..] == Join(Blank())
    modifies h
    ensures h[..] == Join(fs) && Named(path, fs)
  {
    hide Join, At, Fill;
    Offsets();
    fs := Blank();
    if |path| > 100 {
      var i := SplitPoint(path);
      if i >= 0 {
        PutText(h, PREFIX, 345, path, i, fs);
        fs := AfterCopy(fs, PREFIX, path, i);
        PutText(h, NAME, 0, path[i + 1..], 100, fs);
        fs := AfterCopy(fs, NAME, path[i + 1..], 100);
        PrefixIs(path, i, fs[PREFIX]);
        return;
      }
    }
    PutText(h, NAME, 0, path, 100, fs);
    fs := AfterCopy(fs, NAME, path, 100);
    NameIs(path, fs[NAME]);
  }

  lemma PrefixIs(path: Text, i: nat, f: seq<byte>)
    requires |path| > 100 && i == FindSlash(path, |path| - 100) && f == path[..i] + Zeros(155)[i..]
    ensures f == PrefixField(path)
  {
    assert Zeros(155)[i..] == Zeros(155 - i);
  }

  lemma NameIs(path: Text, f: seq<byte>)
    requires |path| > 100 ==> FindSlash(path, |path| - 100) < 0
    requires f == if |path| >= 100 then path[..100] + Zeros(100)[100..] else Fill(path, 100)
    ensures f == NameField(path) && PrefixField(path) == Zeros(155)
  {
  }

  method PutStat(h: array<byte>, e: Entry, ghost fs: Fields)
    requires h[..] == Join(fs)
    modifies h
    ensures h[..] == Join(fs[MODE := OctField(e.mode % 4096, 8)][UID := OctField(e.uid, 8)]
                            [GID := OctField(e.gid, 8)][MTIME := OctField(e.mtime, 12)])
  {
    hide Join, At, OctField;
    Offsets();
    PutNumber(h, MODE, 100, 8, e.mode % 4096, fs);
    ghost var f1: Fields := fs[MODE := OctField(e.mode % 4096, 8)];
    PutNumber(h, UID, 108, 8, e.uid, f1);
    ghost var f2: Fields := f1[UID := OctField(e.uid, 8)];
    PutNumber(h, GID, 116, 8, e.gid, f2);
    ghost var f3: Fields := f2[GID := OctField(e.gid, 8)];
    PutNumber(h, MTIME, 136, 12, e.mtime, f3);
  }

  /** The fields that depend on the kind of the file; a stray zero may have come into the magic. */
  ghost predicate KindFields(e: Entry, fs: Fields, gs: Fields) {
    && gs[TYPE] == [Flag(e.kind)] && gs[SIZE] == OctField(Size(e.kind), 12) && gs[LINK] == Fill(LinkText(e.kind), 100)
    && forall k :: 0 <= k < 17 && k != TYPE && k != SIZE && k != LINK && k != MAGIC ==> gs[k] == fs[k]
  }

  method PutKind(h: array<byte>, e: Entry, ghost fs: Fields) returns (ghost gs: Fields)
    requires h[..] == Join(fs) && fs[LINK] == Zeros(100)
    modifies h
    ensures h[..] == Join(gs) && KindFields(e, fs, gs)
  {
    hide Join, At, OctField;
    Offsets();
    PutBytes(h, TYPE, 156, [Flag(e.kind)], fs);
    assert [Flag(e.kind)] + fs[TYPE][1..] == [Flag(e.kind)];
    gs := fs[TYPE := [Flag(e.kind)]];
    if e.kind.Symlink? {
      var link := LinkText(e.kind);
      if |link| > 0 {
        PutText(h, LINK, 157, link, 100, gs);
        gs := AfterCopy(gs, LINK, link, 100);
      }
    }
    ghost var f1 := gs;
    PutNumber(h, SIZE, 124, 12, Size(e.kind), f1);
    gs := f1[SIZE := OctField(Size(e.kind), 12)];
    NoLink(e.kind);
  }

  lemma NoLink(kind: Kind)
    ensures |LinkText(kind)| == 0 ==> Fill(LinkText(kind), 100) == Zeros(100)
  {
  }

  method PutMagic(h: array<byte>, ghost fs: Fields)
    requires h[..] == Join(fs)
    modifies h
    ensures h[..] == Join(fs[MAGIC := [117, 115, 116, 97, 114, 0]][VERSION := [ZERO, ZERO]][CHKSUM := Spaces()])
  {
    hide Join, At;
    Offsets();
    PutBytes(h, MAGIC, 257, [117, 115, 116, 97, 114, 0], fs);
    ghost var f1: Fields := fs[MAGIC := [117, 115, 116, 97, 114, 0]];
    assert [117, 115, 116, 97, 114, 0] + fs[MAGIC][6..] == [117, 115, 116, 97, 114, 0];
    PutBytes(h, VERSION, 263, [ZERO, ZERO], f1);
    ghost var f2: Fields := f1[VERSION := [ZERO, ZERO]];
    assert [ZERO, ZERO] + f1[VERSION][2..] == [ZERO, ZERO];
    PutBytes(h, CHKSUM, 148, Spaces(), f2);
    assert Spaces() + f2[CHKSUM][8..] == Spaces();
  }

  /** All fields but the checksum are what they should be, whatever the copies have left behind in the mode
      and in the magic. */
  lemma AllFields(e: Entry, f1: Fields, f2: Fields, f3: Fields, f4: Fields)
    requires Named(e.path, f1)
    requires f2 == f1[MODE := OctField(e.mode % 4096, 8)][UID := OctField(e.uid, 8)]
                     [GID := OctField(e.gid, 8)][MTIME := OctField(e.mtime, 12)]
    requires KindFields(e, f2, f3)
    requires f4 == f3[MAGIC := [117, 115, 116, 97, 114, 0]][VERSION := [ZERO, ZERO]][CHKSUM := Spaces()]
    ensures f4 == HeaderFields(e, Spaces())
  {
    hide OctField, NameField, PrefixField, Fill, Spaces;
    var fs := HeaderFields(e, Spaces());
    assert WIDTHS[11] == 32 && WIDTHS[12] == 32 && WIDTHS[13] == 8 && WIDTHS[14] == 8 && WIDTHS[16] == 12;
    SameFields(f4, FrontFields(e, Spaces()), BackFields(e));
  }

  lemma SameFields(fs: Fields, front: seq<seq<byte>>, back: seq<seq<byte>>)
    requires |front| == 8 && |back| == 9
    requires fs[0] == front[0] && fs[1] == front[1] && fs[2] == front[2] && fs[3] == front[3]
    requires fs[4] == front[4] && fs[5] == front[5] && fs[6] == front[6] && fs[7] == front[7]
    requires fs[8] == back[0] && fs[9] == back[1] && fs[10] == back[2] && fs[11] == back[3] && fs[12] == back[4]
    requires fs[13] == back[5] && fs[14] == back[6] && fs[15] == back[7] && fs[16] == back[8]
    ensures fs == front + back
  {
  }

  /** The checksum in six digits, a zero and a space. */
  method PutChecksum(h: array<byte>, e: Entry)
    requires h[..] == Join(HeaderFields(e, Spaces()))
    modifies h
    ensures h[..] == Header(e)
  {
    hide Join, At, OctField, Checksum, HeaderFields, Overwritten;
    ghost var fs := HeaderFields(e, Spaces());
    JoinLength(fs);
    Offsets();
    var chk := TarChecksum(h[..]);
    ghost var f := OctField(chk, 7);
    JoinOverwritten(fs, CHKSUM, f);
    SumField(e, f);
    UlongToOct(h, 148, 7, chk);
    ghost var gs := HeaderFields(e, f + [SPACE]);
    assert h[..] == Join(gs);
    JoinField(gs, CHKSUM);
    assert h[155] == h[..][148..156][7] == gs[CHKSUM][7];
    h[155] := SPACE;
    assert h[..] == Join(gs);
  }

  lemma SumField(e: Entry, f: seq<byte>)
    requires |f| == 7
    ensures HeaderFields(e, Spaces())[CHKSUM := f + HeaderFields(e, Spaces())[CHKSUM][7..]]
            == HeaderFields(e, f + [SPACE])
    ensures HeaderFields(e, f + [SPACE])[CHKSUM] == f + [SPACE]
  {
    hide OctField, NameField, PrefixField, Fill;
    assert Spaces()[7..] == [SPACE];
  }

  /** tar_write_header, up to the write: the stray zeros of the copies do not survive. */
  method WriteHeader(e: Entry) returns (h: array<byte>)
    ensures fresh(h) && h[..] == Header(e)
  {
    hide Join, At, OctField, Header, Named, KindFields, HeaderFields, Spaces;
    h := new byte[BLOCK](_ => 0);
    BlankIsZero(h[..]);
    ghost var f1 := PutPath(h, e.path);
    NamedLink(e.path, f1);
    PutStat(h, e, f1);
    ghost var f2: Fields := f1[MODE := OctField(e.mode % 4096, 8)][UID := OctField(e.uid, 8)]
                              [GID := OctField(e.gid, 8)][MTIME := OctField(e.mtime, 12)];
    ghost var f3 := PutKind(h, e, f2);
    PutMagic(h, f3);
    ghost var f4: Fields := f3[MAGIC := [117, 115, 116, 97, 114, 0]][VERSION := [ZERO, ZERO]][CHKSUM := Spaces()];
    AllFields(e, f1, f2, f3, f4);
    PutChecksum(h, e);
  }

  lemma NamedLink(path: Text, fs: Fields)
    requires Named(path, fs)
    ensures fs[LINK] == Zeros(100)
  {
  }

  lemma {:induction false} JoinZeros(fs: seq<seq<byte>>)
    requires forall k :: 0 <= k < |fs| ==> forall i :: 0 <= i < |fs[k]| ==> fs[k][i] == 0
    ensures forall i :: 0 <= i < |Join(fs)| ==> Join(fs)[i] == 0
  {
    if fs != [] {
      JoinZeros(fs[1..]);
    }
  }

  lemma BlankIsZero(h: seq<byte>)
    requires |h| == BLOCK && forall i :: 0 <= i < BLOCK ==> h[i] == 0
    ensures h == Join(Blank())
  {
    JoinLength(Blank());
    JoinZeros(Blank());
  }

  // ---- reading a path ---------------------------------------------------------------------------------

  const PATH_MAX := 4096

  /** The prefix and a slash at the front of the array: what it holds up to the end of that. */
  method CopyPrefix(out: array<byte>, block: seq<byte>) returns (off: nat, ghost dir: Text)
    requires out.Length == PATH_MAX && |block| == BLOCK
    modifies out
    ensures dir == UpTo(block[345..500]) + [SLASH] && off == |dir| <= 156 && out[..off] == dir
  {
    hide UpTo;
    CopyField(out, 0, block[345..500]);
    ghost var prefix := UpTo(block[345..500]);
    off := StrLen(out);
    SameEnd(out[..], prefix, off);
    out[off] := SLASH;
    out[off + 1] := 0;
    dir := prefix + [SLASH];
    off := off + 1;
  }

  /** A terminated string ends where its first zero is. */
  lemma SameEnd(s: seq<byte>, t: Text, n: nat)
    requires |t| < |s| && s[..|t|] == t && s[|t|] == 0
    requires n < |s| && s[n] == 0 && forall i :: 0 <= i < n ==> s[i] != 0
    ensures n == |t|
  {
    assert forall i :: 0 <= i < |t| ==> s[i] == s[..|t|][i];
  }

  /** tar_build_path. */
  method BuildPath(out: array<byte>, block: seq<byte>)
    requires out.Length == PATH_MAX && |block| == BLOCK
    modifies out
    ensures UpTo(out[..]) == PathOf(block)
  {
    hide UpTo;
    out[0] := 0;
    var off := 0;
    ghost var dir: Text := [];
    if block[345] != 0 {
      off, dir := CopyPrefix(out, block);
    }
    ghost var before, name := out[..off], UpTo(block[..100]);
    CopyField(out, off, block[..100]);
    assert out[..off] == before == dir;
    JoinedIs(out[..], dir, name);
    assert [] + name == name;
  }

  lemma JoinedIs(s: seq<byte>, dir: Text, name: Text)
    requires |dir| + |name| < |s| && s[..|dir|] == dir && s[|dir|..|dir| + |name|] == name && s[|dir| + |name|] == 0
    ensures UpTo(s) == dir + name
  {
    hide UpTo;
    assert s[..|dir| + |name|] == dir + name;
    UpToIs(s, dir + name);
  }

  /** str_ncpy of a field that need not be terminated, and the terminator behind it. */
  method CopyField(out: array<byte>, at: nat, field: seq<byte>)
    requires at + |field| < out.Length
    modifies out
    ensures forall i :: 0 <= i < at ==> out[i] == old(out[i])
    ensures var t := UpTo(field); at + |t| < out.Length && out[at..at + |t|] == t && out[at + |t|] == 0
  {
    var t := UpTo(field);
    ghost var mem := out[..];
    StrNcpy(out, at, t, 0, |field|);
    forall i | 0 <= i < out.Length
      ensures out[i] == if i < at || i >= at + NcpySize(t, |field|) then mem[i]
                        else if i - at < |t| then t[i - at] else 0
    {
      NcpiedAt(mem, at, t, 0, |field|, i);
    }
    out[at + |field|] := 0;
  }

  method StrLen(s: array<byte>) returns (n: nat)
    requires exists i :: 0 <= i < s.Length && s[i] == 0
    ensures n < s.Length && s[n] == 0 && forall i :: 0 <= i < n ==> s[i] != 0
  {
    n := 0;
    while s[n] != 0
      invariant n < s.Length && forall i :: 0 <= i < n ==> s[i] != 0
      invariant exists i :: n <= i < s.Length && s[i] == 0
      decreases s.Length - n
    {
      n := n + 1;
    }
  }
}
