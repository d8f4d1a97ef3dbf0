// tools/sed.c: the substitution of one line.
//
// A line is cut at the occurrences of the searched text, from left to right and without overlap; what is
// printed is the pieces put together again around the replacement, up to the size of the buffer.

module Sed {
  import opened CStrings
  import opened Lines

  const LINE_MAX := 4096

  predicate OccursAt(s: string, find: string, i: nat) {
    i <= |s| && find <= s[i..]
  }

  /** str_str, on the string from position `from` on: the first occurrence, if there is any. */
  method StrStr(hay: CString, from: nat, needle: CString) returns (found: bool, at: nat)
    requires from <= |hay|
    ensures found ==> from <= at && OccursAt(hay, needle, at)
    ensures found ==> forall i :: from <= i < at ==> !OccursAt(hay, needle, i)
    ensures !found ==> forall i :: from <= i ==> !OccursAt(hay, needle, i)
  {
    if needle == "" {
      return true, from;
    }
    at := from;
    while CharAt(hay, at) != '\0'
      invariant from <= at <= |hay|
      invariant forall i :: from <= i < at ==> !OccursAt(hay, needle, i)
      decreases |hay| - at
    {
      var h, n := at, 0;
      while CharAt(hay, h) != '\0' && CharAt(needle, n) != '\0' && CharAt(hay, h) == CharAt(needle, n)
        invariant h == at + n <= |hay| && n <= |needle|
        invariant needle[..n] == hay[at..][..n]
        decreases |needle| - n
      {
        h, n := h + 1, n + 1;
      }
      if CharAt(needle, n) == '\0' {
        assert needle == needle[..n];
        return true, at;
      }
      Mismatch(hay, needle, at, n);
      at := at + 1;
    }
    found := false;
  }

  lemma Mismatch(hay: CString, needle: CString, at: nat, n: nat)
    requires at + n <= |hay| && n < |needle|
    requires at + n == |hay| || hay[at + n] != needle[n]
    ensures !OccursAt(hay, needle, at)
  {
    var seen := hay[at..];
    assert |seen| == |hay| - at && (n < |seen| ==> seen[n] == hay[at + n]);
  }

  // ---- cutting a line at the occurrences ------------------------------------------------------

  /** The pieces with `sep` between them. */
  function Join(us: seq<string>, sep: string): string {
    if us == [] then "" else if |us| == 1 then us[0] else us[0] + sep + Join(us[1..], sep)
  }

  /** The searched text does not start inside the piece, not even where it runs into the next occurrence. */
  ghost predicate OnlyAfter(u: string, find: string) {
    forall i :: 0 <= i < |u| ==> !OccursAt(u + find, find, i)
  }

  ghost predicate Absent(s: string, find: string) {
    forall i :: 0 <= i ==> !OccursAt(s, find, i)
  }

  /** Every cut is at the first place, after the cut before, where the searched text occurs; nothing is
      left to cut in the last piece. */
  ghost predicate LeftmostCut(line: string, find: string, us: seq<string>) {
    && us != [] && Join(us, find) == line
    && (forall k :: 0 <= k < |us| - 1 ==> OnlyAfter(us[k], find))
    && Absent(us[|us| - 1], find)
  }

  /** Where the searched text occurs first; the length of the string if it does not. */
  function First(s: string, find: string): (k: nat)
    requires find != ""
    ensures k <= |s| && (k < |s| ==> OccursAt(s, find, k))
    ensures forall i :: 0 <= i < k ==> !OccursAt(s, find, i)
    ensures k == |s| ==> Absent(s, find)
  {
    if s == "" then 0
    else if find <= s then
      assert s[0..] == s;
      0
    else
      assert s[0..] == s;
      assert forall i :: 0 < i <= |s| ==> s[i..] == s[1..][i - 1..];
      assert forall i :: 0 < i ==> OccursAt(s, find, i) == OccursAt(s[1..], find, i - 1);
      First(s[1..], find) + 1
  }

  function Pieces(s: string, find: string): (us: seq<string>)
    requires find != ""
    ensures us != []
    decreases |s|
  {
    var k := First(s, find);
    if k == |s| then [s] else [s[..k]] + Pieces(s[k + |find|..], find)
  }

  lemma Shift(s: string, find: string, p: nat, i: nat)
    requires p <= |s|
    ensures OccursAt(s[p..], find, i) <==> OccursAt(s, find, p + i)
  {
    if p + i <= |s| {
      assert s[p..][i..] == s[p + i..];
    }
  }

  /** What starts inside a piece ends before the end of the separator behind it. */
  lemma OccursInPiece(u: string, find: string, rest: string, i: nat)
    requires i < |u|
    ensures OccursAt(u + find, find, i) <==> OccursAt(u + find + rest, find, i)
  {
    var short, long := (u + find)[i..], (u + find + rest)[i..];
    assert long == short + rest && |short| >= |find|;
  }

  /** An occurrence splits the string in three, and it is the first one if it is the first in the piece. */
  lemma FirstIs(u: string, find: string, rest: string)
    requires find != ""
    ensures First(u + find + rest, find) == |u| <==> OnlyAfter(u, find)
  {
    var s := u + find + rest;
    assert s[|u|..] == find + rest;
    assert OccursAt(s, find, |u|);
    forall i | 0 <= i < |u|
      ensures OccursAt(u + find, find, i) <==> OccursAt(s, find, i)
    {
      OccursInPiece(u, find, rest, i);
    }
  }

  lemma SplitAt(s: string, find: string, k: nat)
    requires OccursAt(s, find, k)
    ensures k + |find| <= |s| && s == s[..k] + find + s[k + |find|..]
  {
    assert |find| <= |s[k..]|;
    assert s[k..] == find + s[k..][|find|..];
  }

  lemma SplitAtFirst(s: string, find: string)
    requires find != "" && First(s, find) < |s|
    ensures var k := First(s, find);
            k + |find| <= |s| && s == s[..k] + find + s[k + |find|..] && OnlyAfter(s[..k], find)
  {
    hide OccursAt, OnlyAfter, Absent;
    var k := First(s, find);
    SplitAt(s, find, k);
    FirstIs(s[..k], find, s[k + |find|..]);
  }

  lemma {:induction false} PiecesCut(s: string, find: string)
    requires find != ""
    ensures LeftmostCut(s, find, Pieces(s, find))
    decreases |s|
  {
    hide OccursAt, OnlyAfter, Absent;
    var k := First(s, find);
    if k < |s| {
      SplitAtFirst(s, find);
      var rest := s[k + |find|..];
      PiecesCut(rest, find);
      CutMore(s[..k], find, rest, Pieces(rest, find));
    }
  }

  lemma CutMore(u: string, find: string, rest: string, us: seq<string>)
    requires OnlyAfter(u, find) && LeftmostCut(rest, find, us)
    ensures LeftmostCut(u + find + rest, find, [u] + us)
  {
    hide OccursAt, OnlyAfter, Absent;
    assert ([u] + us)[1..] == us;
  }

  lemma CutLess(line: string, find: string, us: seq<string>)
    requires LeftmostCut(line, find, us) && |us| > 1
    ensures var rest := Join(us[1..], find);
            line == us[0] + find + rest && OnlyAfter(us[0], find) && LeftmostCut(rest, find, us[1..])
  {
    hide OccursAt, OnlyAfter, Absent;
  }

  /** There is only one way to cut. */
  lemma {:induction false} CutUnique(s: string, find: string, us: seq<string>)
    requires find != "" && LeftmostCut(s, find, us)
    ensures us == Pieces(s, find)
    decreases |us|
  {
    hide OccursAt, OnlyAfter, Join;
    if |us| == 1 {
      OnePiece(s, find, us);
    } else {
      CutLess(s, find, us);
      var u, rest := us[0], Join(us[1..], find);
      FirstIs(u, find, rest);
      assert s[|u| + |find|..] == rest && s[..|u|] == u;
      CutUnique(rest, find, us[1..]);
      assert us == [u] + us[1..];
    }
  }

  lemma OnePiece(s: string, find: string, us: seq<string>)
    requires find != "" && LeftmostCut(s, find, us) && |us| == 1
    ensures us == Pieces(s, find)
  {
    assert s == us[0];
    assert !OccursAt(s, find, First(s, find));
  }

  // ---- the substitution -------------------------------------------------------------------------

  /** The line with every occurrence replaced, or only the first. */
  ghost function Substituted(line: string, find: string, replace: string, global: bool): string
    requires find != ""
  {
    var us := Pieces(line, find);
    if global then Join(us, replace)
    else if |us| == 1 then line
    else us[0] + replace + Join(us[1..], find)
  }

  /** The same, found by going through the line. */
  ghost function Rest(s: string, find: string, replace: string, global: bool, did: bool): string
    requires find != ""
  {
    if did && !global then s else Substituted(s, find, replace, global)
  }

  lemma RestAtMatch(s: string, find: string, replace: string, global: bool)
    requires find != "" && First(s, find) < |s|
    ensures var k := First(s, find);
            Rest(s, find, replace, global, false)
            == s[..k] + replace + Rest(s[k + |find|..], find, replace, global, true)
    ensures global ==> Rest(s, find, replace, global, true) == Rest(s, find, replace, global, false)
  {
    hide OccursAt;
    var k := First(s, find);
    SplitAtFirst(s, find);
    var us, rest := Pieces(s, find), s[k + |find|..];
    assert us[0] == s[..k] && us[1..] == Pieces(rest, find);
    PiecesCut(rest, find);
  }

  /** Where nothing is to be replaced any more the line is copied. */
  lemma RestPlain(s: string, find: string, replace: string, global: bool, did: bool)
    requires find != "" && s != ""
    requires First(s, find) == |s| || (did && !global)
    ensures Rest(s, find, replace, global, did) == [s[0]] + Rest(s[1..], find, replace, global, did)
  {
    hide OccursAt;
    if First(s, find) == |s| {
      Shift(s, find, 1, First(s[1..], find));
      assert Pieces(s, find) == [s] && Pieces(s[1..], find) == [s[1..]];
    }
  }

  function Cut(s: string): string {
    if |s| < LINE_MAX then s else s[..LINE_MAX - 1]
  }

  /** However a line is cut leftmost at the occurrences, the substitution puts its pieces together again: with the
      replacement between all of them, or only between the first one and the rest of the line. */
  lemma SubstitutedIs(line: string, find: string, replace: string, us: seq<string>)
    requires find != "" && LeftmostCut(line, find, us)
    ensures Substituted(line, find, replace, true) == Join(us, replace)
    ensures |us| == 1 ==> Substituted(line, find, replace, false) == line
    ensures |us| > 1 ==> |us[0]| + |find| <= |line|
    ensures |us| > 1 ==> Substituted(line, find, replace, false) == us[0] + replace + line[|us[0]| + |find|..]
  {
    hide OccursAt, OnlyAfter, Absent;
    CutUnique(line, find, us);
    if |us| > 1 {
      CutLess(line, find, us);
      assert line[|us[0]| + |find|..] == Join(us[1..], find);
    }
  }

  /** A result of up to 4095 characters is printed as it is, and the first 4095 of a longer one. */
  lemma CutOff(s: string)
    ensures Cut(s) == s <==> |s| <= 4095
    ensures |s| > 4095 ==> Cut(s) == s[..4095]
  {
  }

  /** The result buffer holds what has been produced, as far as it fits. */
  ghost predicate Holds(result: array<char>, rpos: nat, done: string)
    reads result
  {
    result.Length == LINE_MAX && rpos < LINE_MAX && result[..rpos] == Cut(done)
  }

  /** One guarded store. */
  method PutChar(result: array<char>, rpos: nat, c: char, ghost done: string) returns (r: nat)
    requires Holds(result, rpos, done)
    modifies result
    ensures Holds(result, r, done + [c])
  {
    r := rpos;
    if rpos < LINE_MAX - 1 {
      result[rpos] := c;
      r := rpos + 1;
      assert result[..r] == old(result[..rpos]) + [c];
    }
  }

  /** A copying loop of guarded stores: it stops when the text is copied or the buffer is full. */
  method PutAll(result: array<char>, rpos: nat, text: string, ghost done: string) returns (r: nat)
    requires Holds(result, rpos, done)
    modifies result
    ensures Holds(result, r, done + text)
  {
    hide Holds, Cut;
    r := rpos;
    var i := 0;
    assert done + text[..0] == done;
    FullIs(result, rpos, done);
    while i < |text| && r < LINE_MAX - 1
      invariant i <= |text| && Holds(result, r, done + text[..i])
    {
      r := PutChar(result, r, text[i], done + text[..i]);
      assert done + text[..i] + [text[i]] == done + text[..i + 1];
      i := i + 1;
    }
    if i == |text| {
      assert text[..i] == text;
    } else {
      StaysFull(result, r, done + text[..i], text[i..]);
      assert done + text[..i] + text[i..] == done + text;
    }
  }

  lemma FullIs(result: array<char>, rpos: nat, done: string)
    requires Holds(result, rpos, done)
    ensures rpos < LINE_MAX
  {
  }

  lemma StaysFull(result: array<char>, rpos: nat, done: string, more: string)
    requires Holds(result, rpos, done) && rpos >= LINE_MAX - 1
    ensures Holds(result, rpos, done + more)
  {
  }

  lemma NothingHeld(result: array<char>)
    requires result.Length == LINE_MAX
    ensures Holds(result, 0, "")
  {
  }

  // ---- the steps of the loop --------------------------------------------------------------------

  /** `done` has been produced for the line up to `p`. */
  ghost predicate Progress(line: string, find: string, replace: string, global: bool, p: nat, did: bool, done: string) {
    && find != "" && p <= |line| && NulFree(done)
    && done + Rest(line[p..], find, replace, global, did) == Substituted(line, find, replace, global)
  }

  lemma AtStart(line: string, find: string, replace: string, global: bool)
    requires find != ""
    ensures Progress(line, find, replace, global, 0, false, "")
  {
    hide Substituted;
    assert line[0..] == line;
    var all := Substituted(line, find, replace, global);
    assert "" + all == all;
  }

  lemma FirstFrom(line: string, find: string, p: nat, m: nat)
    requires find != "" && p <= m && OccursAt(line, find, m) && forall i :: p <= i < m ==> !OccursAt(line, find, i)
    ensures m + |find| <= |line| && First(line[p..], find) == m - p < |line| - p
  {
    assert |find| <= |line[m..]|;
    hide OccursAt;
    Shift(line, find, p, m - p);
    Shift(line, find, p, First(line[p..], find));
  }

  lemma Assoc(a: string, b: string, c: string, d: string)
    ensures a + (b + c + d) == (a + b + c) + d
  {
  }

  lemma AtMatch(line: CString, find: string, replace: CString, global: bool, p: nat, did: bool, done: string, m: nat)
    requires Progress(line, find, replace, global, p, did, done) && (!did || global)
    requires p <= m && OccursAt(line, find, m) && forall i :: p <= i < m ==> !OccursAt(line, find, i)
    ensures m + |find| <= |line|
    ensures Progress(line, find, replace, global, m + |find|, true, done + line[p..m] + replace)
  {
    hide Substituted, OccursAt, First, Pieces;
    FirstFrom(line, find, p, m);
    var s, u, n := line[p..], line[p..m], m + |find|;
    assert s[..m - p] == u && s[m - p + |find|..] == line[n..];
    RestAtMatch(s, find, replace, global);
    var rest := Rest(line[n..], find, replace, global, true);
    Assoc(done, u, replace, rest);
  }

  lemma AtChar(line: CString, find: string, replace: string, global: bool, p: nat, did: bool, done: string, found: bool)
    requires Progress(line, find, replace, global, p, did, done) && p < |line|
    requires !found ==> forall i :: p <= i ==> !OccursAt(line, find, i)
    requires !found || (did && !global)
    ensures Progress(line, find, replace, global, p + 1, did, done + [line[p]])
  {
    hide Substituted, OccursAt;
    if !found {
      Shift(line, find, p, First(line[p..], find));
    }
    RestPlain(line[p..], find, replace, global, did);
    assert line[p..][1..] == line[p + 1..];
    var rest := Rest(line[p + 1..], find, replace, global, did);
    assert done + ([line[p]] + rest) == (done + [line[p]]) + rest;
  }

  /** Terminated, the buffer reads as what has been produced. */
  lemma AtEnd(line: CString, find: string, replace: string, global: bool, p: nat, did: bool, done: string,
              result: array<char>, rpos: nat)
    requires Progress(line, find, replace, global, p, did, done) && CharAt(line, p) == '\0'
    requires Holds(result, rpos, done)
    ensures rpos < result.Length
    ensures UpToNul(result[..][rpos := '\0']) == Cut(Substituted(line, find, replace, global))
  {
    assert p == |line|;
    assert done + "" == done;
    assert Pieces("", find) == [""];
    var text := result[..][rpos := '\0'];
    assert text[..rpos] == result[..rpos];
    assert forall i :: 0 <= i < rpos ==> text[i] == done[i];
    UpToNulIs(text, rpos);
  }

  /** sed_substitute: prints the line with the leftmost, or every leftmost non-overlapping, occurrence
      replaced, as far as it fits in the buffer; the line itself when there is nothing to search for. */
  method SedSubstitute(line: CString, find: CString, replace: CString, global: bool, out: Stdout)
    modifies out
    ensures find == "" ==> out.text == old(out.text) + line + "\n"
    ensures find != "" ==> out.text == old(out.text) + Cut(Substituted(line, find, replace, global)) + "\n"
  {
    hide Progress, Holds, OccursAt, Substituted, Cut, UpToNul;
    if find == "" {
      out.Print(line);
      out.Print("\n");
      return;
    }
    var result := new char[LINE_MAX];
    var rpos: nat, p: nat, did := 0, 0, false;
    ghost var done := "";
    NothingHeld(result);
    AtStart(line, find, replace, global);
    while CharAt(line, p) != '\0'
      invariant p <= |line| && out.text == old(out.text)
      invariant Progress(line, find, replace, global, p, did, done) && Holds(result, rpos, done)
      decreases |line| - p
    {
      var found, m := StrStr(line, p, find);
      if found && (!did || global) {
        AtMatch(line, find, replace, global, p, did, done, m);
        rpos := PutAll(result, rpos, line[p..m], done);
        rpos := PutAll(result, rpos, replace, done + line[p..m]);
        done := done + line[p..m] + replace;
        p := m + |find|;
        did := true;
      } else {
        AtChar(line, find, replace, global, p, did, done, found);
        rpos := PutChar(result, rpos, line[p], done);
        done := done + [line[p]];
        p := p + 1;
      }
    }
    AtEnd(line, find, replace, global, p, did, done, result, rpos);
    ghost var text := result[..][rpos := '\0'];
    result[rpos] := '\0';
    assert result[..] == text;
    out.Print(UpToNul(result[..]));
    out.Print("\n");
  }
}
