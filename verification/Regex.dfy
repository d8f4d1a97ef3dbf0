// The backtracking matcher of grep, proved against the language its patterns denote.

module Regex {
  import opened CStrings

  // ---- patterns and their language ---------------------------------------------------

  /** The elements a pattern is made of. */
  datatype Elem = Chr(c: char) | AnyChr | Star(c: char) | Plus(c: char)

  /** A repetition covers characters of one class; it never crosses a newline. */
  predicate InClass(c: char, t: char) {
    t != '\n' && (c == '.' || t == c)
  }

  /** The words one element stands for. */
  ghost predicate Accepts(e: Elem, w: string) {
    match e
    case Chr(c) => w == [c]
    case AnyChr => |w| == 1 && w[0] != '\n'
    case Star(c) => forall i :: 0 <= i < |w| ==> InClass(c, w[i])
    case Plus(c) => |w| >= 1 && forall i :: 0 <= i < |w| ==> InClass(c, w[i])
  }

  /** The words cut up `s` so that each element of the pattern accepts its word. */
  ghost predicate Parses(es: seq<Elem>, ws: seq<string>, s: string) {
    |ws| == |es| && Concat(ws) == s && forall i :: 0 <= i < |es| ==> Accepts(es[i], ws[i])
  }

  /** The language of a sequence of elements: concatenations of words, one from each element. */
  ghost predicate InLanguage(es: seq<Elem>, s: string) {
    exists ws: seq<string> :: Parses(es, ws, s)
  }

  /** A pattern ends with `$` at position `i`. */
  predicate DollarAt(pat: string, i: nat) {
    i + 1 == |pat| && pat[i] == '$'
  }

  /** The element at position `i` of a pattern: a following `*` or `+` is looked at before anything else. */
  function ElemAt(pat: string, i: nat): Elem
    requires i < |pat|
  {
    if i + 1 < |pat| && pat[i + 1] == '*' then Star(pat[i])
    else if i + 1 < |pat| && pat[i + 1] == '+' then Plus(pat[i])
    else if pat[i] == '.' then AnyChr
    else if pat[i] == '\\' && i + 1 < |pat| then Chr(pat[i + 1])
    else Chr(pat[i])
  }

  /** Where the element at `i` ends. */
  function ElemEnd(pat: string, i: nat): (r: nat)
    requires i < |pat|
    ensures i < r <= |pat|
  {
    if i + 1 < |pat| && (pat[i + 1] == '*' || pat[i + 1] == '+' || pat[i] == '\\') then i + 2
    else i + 1
  }

  function Elems(pat: string, i: nat): seq<Elem>
    requires i <= |pat|
    decreases |pat| - i
  {
    if i == |pat| || DollarAt(pat, i) then [] else [ElemAt(pat, i)] + Elems(pat, ElemEnd(pat, i))
  }

  /** Whether the pattern read from `i` on ends with an anchoring `$`. */
  predicate Anchored(pat: string, i: nat)
    requires i <= |pat|
    decreases |pat| - i
  {
    if i == |pat| then false else if DollarAt(pat, i) then true else Anchored(pat, ElemEnd(pat, i))
  }

  /** The end of the text, or of its line. */
  predicate AtEnd(text: string, k: nat)
    requires k <= |text|
  {
    k == |text| || text[k] == '\n'
  }

  /** The part of the text from `j` to `k` is in the language of the pattern from `i` on. */
  ghost predicate MatchesTo(pat: string, i: nat, text: string, j: nat, k: nat)
    requires i <= |pat|
  {
    && j <= k <= |text|
    && InLanguage(Elems(pat, i), text[j..k])
    && (Anchored(pat, i) ==> AtEnd(text, k))
  }

  /** Some part of the text starting at `j` matches. */
  ghost predicate Here(pat: string, i: nat, text: string, j: nat)
    requires i <= |pat|
  {
    exists k :: MatchesTo(pat, i, text, j, k)
  }

  /** What grep looks for: some substring of the line matches the pattern, at the start if the pattern begins
      with `^`, up to the end if it ends with `$`. */
  ghost predicate Matched(pat: string, text: string) {
    if |pat| > 0 && pat[0] == '^' then Here(pat, 1, text, 0)
    else exists j :: 0 <= j <= |text| && '\n' !in text[..j] && Here(pat, 0, text, j)
  }

  // ---- the language of a first element followed by the rest --------------------------------

  lemma ConsLanguage(e: Elem, es: seq<Elem>, s: string, m: nat)
    requires m <= |s| && Accepts(e, s[..m]) && InLanguage(es, s[m..])
    ensures InLanguage([e] + es, s)
  {
    var ws: seq<string> :| Parses(es, ws, s[m..]);
    var vs := [s[..m]] + ws;
    assert vs[1..] == ws;
    assert s == s[..m] + s[m..];
    assert Parses([e] + es, vs, s);
  }

  lemma UnconsLanguage(e: Elem, es: seq<Elem>, s: string) returns (m: nat)
    requires InLanguage([e] + es, s)
    ensures m <= |s| && Accepts(e, s[..m]) && InLanguage(es, s[m..])
  {
    var ws: seq<string> :| Parses([e] + es, ws, s);
    m := |ws[0]|;
    assert s == ws[0] + Concat(ws[1..]);
    assert s[..m] == ws[0] && s[m..] == Concat(ws[1..]);
    assert forall i :: 0 <= i < |es| ==> es[i] == ([e] + es)[i + 1];
    assert Parses(es, ws[1..], s[m..]);
  }

  lemma EmptyLanguage(s: string)
    ensures InLanguage([], s) <==> s == ""
  {
    if s == "" {
      assert Parses([], [], s);
    }
  }

  /** The text from `j` to `m` is a word of the element. */
  ghost predicate Takes(e: Elem, text: string, j: nat, m: nat) {
    j <= m <= |text| && Accepts(e, text[j..m])
  }

  lemma HereUncons(pat: string, i: nat, text: string, j: nat)
    requires i < |pat| && !DollarAt(pat, i) && j <= |text| && Here(pat, i, text, j)
    ensures exists m :: Takes(ElemAt(pat, i), text, j, m) && Here(pat, ElemEnd(pat, i), text, m)
  {
    hide InLanguage, Accepts;
    var next := ElemEnd(pat, i);
    var k: nat :| MatchesTo(pat, i, text, j, k);
    var n := UnconsLanguage(ElemAt(pat, i), Elems(pat, next), text[j..k]);
    var m := j + n;
    assert text[j..k][..n] == text[j..m] && text[j..k][n..] == text[m..k];
    assert Takes(ElemAt(pat, i), text, j, m) && MatchesTo(pat, next, text, m, k);
  }

  lemma HereRecons(pat: string, i: nat, text: string, j: nat, m: nat)
    requires i < |pat| && !DollarAt(pat, i)
    requires Takes(ElemAt(pat, i), text, j, m) && Here(pat, ElemEnd(pat, i), text, m)
    ensures Here(pat, i, text, j)
  {
    hide InLanguage, Accepts;
    var next := ElemEnd(pat, i);
    var k: nat :| MatchesTo(pat, next, text, m, k);
    var n := m - j;
    assert text[j..k][..n] == text[j..m] && text[j..k][n..] == text[m..k];
    ConsLanguage(ElemAt(pat, i), Elems(pat, next), text[j..k], n);
    assert MatchesTo(pat, i, text, j, k);
  }

  /** A pattern matches at `j` exactly when its first element takes a word there and the rest matches
      behind it. */
  lemma HereCons(pat: string, i: nat, text: string, j: nat)
    requires i < |pat| && !DollarAt(pat, i) && j <= |text|
    ensures Here(pat, i, text, j) <==>
            exists m :: Takes(ElemAt(pat, i), text, j, m) && Here(pat, ElemEnd(pat, i), text, m)
  {
    hide Here, Takes;
    if Here(pat, i, text, j) {
      HereUncons(pat, i, text, j);
    }
    if exists m :: Takes(ElemAt(pat, i), text, j, m) && Here(pat, ElemEnd(pat, i), text, m) {
      var m: nat :| Takes(ElemAt(pat, i), text, j, m) && Here(pat, ElemEnd(pat, i), text, m);
      HereRecons(pat, i, text, j, m);
    }
  }

  lemma HereEmpty(pat: string, text: string, j: nat)
    requires j <= |text|
    ensures Here(pat, |pat|, text, j)
  {
    EmptyLanguage(text[j..j]);
    assert MatchesTo(pat, |pat|, text, j, j);
  }

  lemma HereDollar(pat: string, i: nat, text: string, j: nat)
    requires DollarAt(pat, i) && j <= |text|
    ensures Here(pat, i, text, j) <==> AtEnd(text, j)
  {
    EmptyLanguage(text[j..j]);
    forall k: nat | MatchesTo(pat, i, text, j, k)
      ensures k == j
    {
      EmptyLanguage(text[j..k]);
    }
    if AtEnd(text, j) {
      assert MatchesTo(pat, i, text, j, j);
    }
  }

  /** A single-character element takes exactly the next character. */
  lemma HereOne(pat: string, i: nat, text: string, j: nat)
    requires i < |pat| && !DollarAt(pat, i) && j <= |text|
    requires ElemAt(pat, i).Chr? || ElemAt(pat, i).AnyChr?
    ensures Here(pat, i, text, j) <==>
            j < |text| && Accepts(ElemAt(pat, i), [text[j]]) && Here(pat, ElemEnd(pat, i), text, j + 1)
  {
    HereCons(pat, i, text, j);
    var e := ElemAt(pat, i);
    if j < |text| {
      assert text[j..j + 1] == [text[j]];
      assert Takes(e, text, j, j + 1) <==> Accepts(e, [text[j]]);
    }
    forall m | Takes(e, text, j, m)
      ensures m == j + 1
    {
    }
  }

  /** The characters from `j` to `m` are all of the class. */
  ghost predicate Run(c: char, text: string, j: nat, m: nat) {
    j <= m <= |text| && forall x :: j <= x < m ==> InClass(c, text[x])
  }

  lemma TakesRun(c: char, text: string, j: nat, m: nat)
    ensures Takes(Star(c), text, j, m) <==> Run(c, text, j, m)
    ensures Takes(Plus(c), text, j, m) <==> Run(c, text, j, m) && j < m
  {
    if j <= m <= |text| {
      var w := text[j..m];
      if Run(c, text, j, m) {
        assert forall x :: 0 <= x < |w| ==> w[x] == text[j + x];
      }
      if forall x :: 0 <= x < |w| ==> InClass(c, w[x]) {
        forall x | j <= x < m
          ensures InClass(c, text[x])
        {
          assert text[x] == w[x - j];
        }
      }
    }
  }

  lemma HereStar(pat: string, i: nat, text: string, j: nat)
    requires i < |pat| && !DollarAt(pat, i) && j <= |text| && ElemAt(pat, i).Star?
    ensures Here(pat, i, text, j) <==>
            exists m :: Run(ElemAt(pat, i).c, text, j, m) && Here(pat, ElemEnd(pat, i), text, m)
  {
    HereCons(pat, i, text, j);
    forall m {
      TakesRun(ElemAt(pat, i).c, text, j, m);
    }
  }

  lemma HerePlus(pat: string, i: nat, text: string, j: nat)
    requires i < |pat| && !DollarAt(pat, i) && j <= |text| && ElemAt(pat, i).Plus?
    ensures Here(pat, i, text, j) <==>
            exists m :: Run(ElemAt(pat, i).c, text, j, m) && j < m && Here(pat, ElemEnd(pat, i), text, m)
  {
    HereCons(pat, i, text, j);
    forall m {
      TakesRun(ElemAt(pat, i).c, text, j, m);
    }
  }

  // ---- the matcher ---------------------------------------------------------------------------

  /** match_here: `i` and `j` are where the two pointers stand. */
  method MatchHere(pat: CString, i: nat, text: CString, j: nat) returns (r: bool)
    requires i <= |pat| && j <= |text|
    ensures r <==> Here(pat, i, text, j)
    decreases |pat| - i, 0
  {
    if CharAt(pat, i) == '\0' {
      HereEmpty(pat, text, j);
      return true;
    }
    if pat[i] == '$' && CharAt(pat, i + 1) == '\0' {
      HereDollar(pat, i, text, j);
      return CharAt(text, j) == '\0' || CharAt(text, j) == '\n';
    }
    if CharAt(pat, i + 1) == '*' {
      HereStar(pat, i, text, j);
      r := MatchStar(pat[i], pat, i + 2, text, j);
      return;
    }
    if CharAt(pat, i + 1) == '+' {
      HerePlus(pat, i, text, j);
      r := MatchPlus(pat[i], pat, i + 2, text, j);
      return;
    }
    HereOne(pat, i, text, j);
    if pat[i] == '.' {
      if CharAt(text, j) != '\0' && CharAt(text, j) != '\n' {
        r := MatchHere(pat, i + 1, text, j + 1);
        return;
      }
      return false;
    }
    if pat[i] == '\\' && CharAt(pat, i + 1) != '\0' {
      if pat[i + 1] == CharAt(text, j) {
        r := MatchHere(pat, i + 2, text, j + 1);
        return;
      }
      return false;
    }
    if CharAt(text, j) != '\0' && pat[i] == CharAt(text, j) {
      r := MatchHere(pat, i + 1, text, j + 1);
      return;
    }
    return false;
  }

  /** match_star. */
  method MatchStar(c: char, pat: CString, i: nat, text: CString, j: nat) returns (r: bool)
    requires i <= |pat| && j <= |text|
    ensures r <==> exists m :: Run(c, text, j, m) && Here(pat, i, text, m)
    decreases |pat| - i, 1
  {
    var t := j;
    while true
      invariant Run(c, text, j, t)
      invariant forall m :: j <= m < t ==> !Here(pat, i, text, m)
      decreases |text| - t
    {
      r := MatchHere(pat, i, text, t);
      if r {
        return;
      }
      if !(CharAt(text, t) != '\0' && CharAt(text, t) != '\n' && (c == '.' || CharAt(text, t) == c)) {
        return;
      }
      t := t + 1;
    }
  }

  /** match_plus. */
  method MatchPlus(c: char, pat: CString, i: nat, text: CString, j: nat) returns (r: bool)
    requires i <= |pat| && j <= |text|
    ensures r <==> exists m :: Run(c, text, j, m) && j < m && Here(pat, i, text, m)
    decreases |pat| - i, 1
  {
    var t := j;
    while CharAt(text, t) != '\0' && CharAt(text, t) != '\n' && (c == '.' || CharAt(text, t) == c)
      invariant Run(c, text, j, t)
      invariant forall m :: j < m <= t ==> !Here(pat, i, text, m)
      decreases |text| - t
    {
      t := t + 1;
      r := MatchHere(pat, i, text, t);
      if r {
        return;
      }
    }
    return false;
  }

  /** match_pattern. */
  method MatchPattern(pat: CString, text: CString) returns (r: bool)
    ensures r <==> Matched(pat, text)
  {
    if CharAt(pat, 0) == '^' {
      r := MatchHere(pat, 1, text, 0);
      return;
    }
    var t := 0;
    while true
      invariant t <= |text| && '\n' !in text[..t]
      invariant forall j :: 0 <= j < t ==> !Here(pat, 0, text, j)
      decreases |text| - t
    {
      r := MatchHere(pat, 0, text, t);
      if r {
        return;
      }
      if !(CharAt(text, t) != '\0' && CharAt(text, t) != '\n') {
        return;
      }
      t := t + 1;
    }
  }

  /** The substring from `j` to `k` is in the language of the whole pattern. */
  ghost predicate SubstringMatches(pat: string, text: string, j: nat, k: nat) {
    j <= k <= |text| && InLanguage(Elems(pat, 0), text[j..k]) && (Anchored(pat, 0) ==> k == |text|)
  }

  /** On a line without newlines a pattern that does not start with `^` is found exactly when some substring
      is in its language. */
  lemma MatchedSubstring(pat: CString, text: CString)
    requires '\n' !in text && !(|pat| > 0 && pat[0] == '^')
    ensures Matched(pat, text) <==> exists j, k :: SubstringMatches(pat, text, j, k)
  {
    if Matched(pat, text) {
      var j: nat :| j <= |text| && '\n' !in text[..j] && Here(pat, 0, text, j);
      var k: nat :| MatchesTo(pat, 0, text, j, k);
      assert SubstringMatches(pat, text, j, k);
    }
    if exists j, k :: SubstringMatches(pat, text, j, k) {
      var j: nat, k: nat :| SubstringMatches(pat, text, j, k);
      assert MatchesTo(pat, 0, text, j, k);
      assert '\n' !in text[..j];
    }
  }

  // ---- ignoring case ----------------------------------------------------------------------------

  /** What match_pattern_icase compares: the first 4095 characters, in lower case. */
  function Folded(s: string): string {
    Lower(if |s| <= 4095 then s else s[..4095])
  }

  ghost predicate MatchedNoCase(pat: string, text: string) {
    Matched(Folded(pat), Folded(text))
  }

  /** The answer is the same for texts and patterns that differ only in case. */
  lemma CaseIgnored(pat: string, pat': string, text: string, text': string)
    requires Lower(pat) == Lower(pat') && Lower(text) == Lower(text')
    ensures MatchedNoCase(pat, text) <==> MatchedNoCase(pat', text')
  {
    hide Matched;
    SameFolded(pat, pat');
    SameFolded(text, text');
  }

  lemma SameFolded(s: string, s': string)
    requires Lower(s) == Lower(s')
    ensures Folded(s) == Folded(s')
  {
    hide Lower;
    assert |s| == |Lower(s)| == |Lower(s')| == |s'|;
    FoldedIs(s);
    FoldedIs(s');
  }

  lemma FoldedIs(s: string)
    ensures Folded(s) == if |s| <= 4095 then Lower(s) else Lower(s)[..4095]
  {
  }

  /** Nothing is cut off exactly up to 4095 characters; then matching is matching in lower case. */
  lemma NothingCutOffIff(pat: string, text: string)
    ensures Folded(text) == Lower(text) <==> |text| <= 4095
    ensures |pat| <= 4095 && |text| <= 4095 ==> (MatchedNoCase(pat, text) <==> Matched(Lower(pat), Lower(text)))
  {
    hide Matched;
    FoldedIs(pat);
    FoldedIs(text);
  }

  /** One of the two copying loops of match_pattern_icase. */
  method FoldInto(s: CString, buf: array<char>) returns (n: nat)
    requires buf.Length == 4096
    modifies buf
    ensures n <= 4095 && buf[..n] == Folded(s)
  {
    n := 0;
    while n < |s| && n < 4095
      invariant n <= |s| && n <= 4095
      invariant forall i :: 0 <= i < n ==> buf[i] == ToLower(s[i])
    {
      buf[n] := ToLower(s[n]);
      n := n + 1;
    }
    buf[n] := '\0';
  }

  /** match_pattern_icase. */
  method MatchPatternNoCase(pat: CString, text: CString) returns (r: bool)
    ensures r <==> MatchedNoCase(pat, text)
  {
    var lpat, ltxt := new char[4096], new char[4096];
    var m := FoldInto(pat, lpat);
    var n := FoldInto(text, ltxt);
    r := MatchPattern(lpat[..m], ltxt[..n]);
  }
}
