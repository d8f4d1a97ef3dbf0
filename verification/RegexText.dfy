// How patterns are written: every list of elements that can be written reads back, so that grep finds what
// the written elements stand for.

module RegexText {
  import opened CStrings
  import opened Regex

  // ---- writing elements ----------------------------------------------------------------------

  predicate Repeater(c: char) {
    c == '*' || c == '+'
  }

  /** Characters that stand for something else, at least at one end of a pattern. */
  predicate Special(c: char) {
    c == '.' || c == '\\' || c == '^' || c == '$'
  }

  /** A character stands for itself, after a backslash if it is special or a repetition would follow it. A
      backslash in front of `*` or `+` would be repeated itself, so these two are written bare. */
  function ShowElem(e: Elem, repeats: bool): (r: string)
    ensures r != ""
  {
    match e
    case Chr(c) => if Repeater(c) || !(Special(c) || repeats) then [c] else ['\\', c]
    case AnyChr => "."
    case Star(c) => [c] + "*"
    case Plus(c) => [c] + "+"
  }

  /** The text starts with a character that repeats what is written before it. */
  predicate Repeats(s: string) {
    s != "" && Repeater(s[0])
  }

  function Show(es: seq<Elem>): string {
    if es == [] then "" else ShowElem(es[0], Repeats(Show(es[1..]))) + Show(es[1..])
  }

  /** Elements that can only be written with one character. */
  predicate Bare(e: Elem) {
    e.AnyChr? || (e.Chr? && Repeater(e.c))
  }

  /** Elements whose written form starts with `*` or `+`. */
  predicate Leads(e: Elem) {
    !e.AnyChr? && Repeater(e.c)
  }

  /** Nothing that starts with `*` or `+` comes behind a bare character. */
  predicate Writable(es: seq<Elem>) {
    forall i :: 0 < i < |es| && Bare(es[i - 1]) ==> !Leads(es[i])
  }

  function End(dollar: bool): string {
    if dollar then "$" else ""
  }

  lemma ShowLeads(es: seq<Elem>)
    ensures Repeats(Show(es)) <==> es != [] && Leads(es[0])
  {
  }

  // ---- reading them back -----------------------------------------------------------------------

  /** One element reads back, whatever is written in front of it. */
  lemma ReadElem(pat: string, i: nat, e: Elem, rest: string, repeats: bool)
    requires i <= |pat| && pat[i..] == ShowElem(e, repeats) + rest
    requires Repeats(rest) ==> repeats && !Bare(e)
    ensures i < |pat| && !DollarAt(pat, i) && ElemAt(pat, i) == e
    ensures ElemEnd(pat, i) == i + |ShowElem(e, repeats)| && pat[ElemEnd(pat, i)..] == rest
  {
    var w := ShowElem(e, repeats);
    assert |pat| - i == |w| + |rest|;
    assert forall k :: 0 <= k < |w| ==> pat[i + k] == pat[i..][k] == w[k];
    assert pat[i..][|w|..] == pat[i + |w|..] == rest;
    assert rest != "" ==> pat[i + |w|] == pat[i..][|w|] == rest[0];
  }

  /** Elements that can be written read back, in front of the end of the pattern or of an anchoring `$`. */
  lemma {:induction false} ReadsBack(pat: string, i: nat, es: seq<Elem>, dollar: bool)
    requires Writable(es) && i <= |pat| && pat[i..] == Show(es) + End(dollar)
    ensures Elems(pat, i) == es && Anchored(pat, i) == dollar
    decreases |es|
  {
    if es == [] {
      assert |pat| - i == |End(dollar)|;
      assert dollar ==> pat[i] == pat[i..][0];
    } else {
      hide ElemAt, ElemEnd, ShowElem, DollarAt, End, Repeats;
      var tail := es[1..];
      ReadFirst(pat, i, es, dollar);
      ReadsBack(pat, ElemEnd(pat, i), tail, dollar);
      assert es == [es[0]] + tail;
    }
  }

  lemma ReadFirst(pat: string, i: nat, es: seq<Elem>, dollar: bool)
    requires es != [] && Writable(es) && i <= |pat| && pat[i..] == Show(es) + End(dollar)
    ensures i < |pat| && !DollarAt(pat, i) && ElemAt(pat, i) == es[0]
    ensures pat[ElemEnd(pat, i)..] == Show(es[1..]) + End(dollar)
  {
    hide ElemAt, ElemEnd, ShowElem, DollarAt;
    var tail := es[1..];
    var rest, repeats := Show(tail) + End(dollar), Repeats(Show(tail));
    ShowLeads(tail);
    assert Repeats(rest) == repeats;
    assert Show(es) == ShowElem(es[0], repeats) + Show(tail);
    assert pat[i..] == ShowElem(es[0], repeats) + rest;
    ReadElem(pat, i, es[0], rest, repeats);
  }

  /** What is read from a pattern can be written. */
  lemma {:induction false} ReadIsWritable(pat: string, i: nat)
    requires i <= |pat|
    ensures Writable(Elems(pat, i))
    ensures Elems(pat, i) != [] && Leads(Elems(pat, i)[0]) ==> Repeats(pat[i..])
    decreases |pat| - i
  {
    if i < |pat| && !DollarAt(pat, i) {
      var next := ElemEnd(pat, i);
      ReadIsWritable(pat, next);
      assert pat[i..][0] == pat[i];
      assert next < |pat| ==> pat[next..][0] == pat[next];
    }
  }

  /** A list of elements reads back exactly if it can be written, and no pattern at all reads as another. */
  lemma ReadsBackIff(es: seq<Elem>)
    ensures Elems(Show(es), 0) == es <==> Writable(es)
    ensures (exists pat: string :: Elems(pat, 0) == es) <==> Writable(es)
  {
    if Writable(es) {
      assert Show(es)[0..] == Show(es) + "";
      ReadsBack(Show(es), 0, es, false);
    }
    if pat: string :| Elems(pat, 0) == es {
      ReadIsWritable(pat, 0);
    }
  }

  // ---- what grep finds ---------------------------------------------------------------------------

  /** Elements that can be written at the front of a pattern without starting it with `^`. */
  predicate Startable(es: seq<Elem>) {
    Writable(es) && (es != [] && (es[0].Star? || es[0].Plus?) ==> es[0].c != '^')
  }

  lemma NoCaret(es: seq<Elem>)
    requires Startable(es) && Show(es) != ""
    ensures Show(es)[0] != '^'
  {
  }

  /** A pattern of written elements is found exactly if a part of the line is in their language: any part,
      or one at the start, at the end, or the whole line. */
  lemma FindsWritten(es: seq<Elem>, text: string)
    requires Startable(es) && '\n' !in text
    ensures Matched(Show(es), text) <==> exists j, k :: 0 <= j <= k <= |text| && InLanguage(es, text[j..k])
    ensures Matched("^" + Show(es), text) <==> exists k :: 0 <= k <= |text| && InLanguage(es, text[..k])
    ensures Matched(Show(es) + "$", text) <==> exists j :: 0 <= j <= |text| && InLanguage(es, text[j..])
    ensures Matched("^" + Show(es) + "$", text) <==> InLanguage(es, text)
  {
    hide InLanguage, Matched, Show, Writable;
    FindsAnywhere(es, text);
    FindsAtEnd(es, text);
    FindsAtStart(es, text);
    FindsWhole(es, text);
  }

  lemma FindsAnywhere(es: seq<Elem>, text: string)
    requires Startable(es) && '\n' !in text
    ensures Matched(Show(es), text) <==> exists j, k :: 0 <= j <= k <= |text| && InLanguage(es, text[j..k])
  {
    hide InLanguage, Writable, Elems, Anchored, Show;
    var pat := Show(es);
    assert pat[0..] == pat + "";
    ReadsBack(pat, 0, es, false);
    if pat != "" {
      NoCaret(es);
    }
    if Matched(pat, text) {
      var j: nat :| j <= |text| && Here(pat, 0, text, j);
      var k: nat :| MatchesTo(pat, 0, text, j, k);
      assert InLanguage(es, text[j..k]);
    }
    if j: nat, k: nat :| j <= k <= |text| && InLanguage(es, text[j..k]) {
      assert MatchesTo(pat, 0, text, j, k);
      assert Here(pat, 0, text, j);
    }
  }

  lemma FindsAtEnd(es: seq<Elem>, text: string)
    requires Startable(es) && '\n' !in text
    ensures Matched(Show(es) + "$", text) <==> exists j :: 0 <= j <= |text| && InLanguage(es, text[j..])
  {
    hide InLanguage, Writable, Elems, Anchored, Show;
    var pat := Show(es) + "$";
    assert pat[0..] == pat;
    ReadsBack(pat, 0, es, true);
    if Show(es) != "" {
      NoCaret(es);
    }
    assert pat[0] != '^';
    if Matched(pat, text) {
      var j: nat :| j <= |text| && Here(pat, 0, text, j);
      var k: nat :| MatchesTo(pat, 0, text, j, k);
      assert text[j..k] == text[j..];
    }
    if j: nat :| j <= |text| && InLanguage(es, text[j..]) {
      assert text[j..|text|] == text[j..];
      assert MatchesTo(pat, 0, text, j, |text|);
      assert Here(pat, 0, text, j);
    }
  }

  lemma FindsAtStart(es: seq<Elem>, text: string)
    requires Writable(es)
    ensures Matched("^" + Show(es), text) <==> exists k :: 0 <= k <= |text| && InLanguage(es, text[..k])
  {
    hide InLanguage, Writable, Elems, Anchored, Show;
    var pat := "^" + Show(es);
    assert pat[1..] == Show(es) + "";
    ReadsBack(pat, 1, es, false);
    if Matched(pat, text) {
      var k: nat :| MatchesTo(pat, 1, text, 0, k);
      assert text[0..k] == text[..k];
    }
    if k: nat :| k <= |text| && InLanguage(es, text[..k]) {
      assert text[0..k] == text[..k];
      assert MatchesTo(pat, 1, text, 0, k);
    }
  }

  lemma FindsWhole(es: seq<Elem>, text: string)
    requires Writable(es) && '\n' !in text
    ensures Matched("^" + Show(es) + "$", text) <==> InLanguage(es, text)
  {
    hide InLanguage, Writable, Elems, Anchored, Show;
    var pat := "^" + Show(es) + "$";
    assert pat[1..] == Show(es) + "$";
    ReadsBack(pat, 1, es, true);
    if Matched(pat, text) {
      var k: nat :| MatchesTo(pat, 1, text, 0, k);
      assert text[0..k] == text;
    }
    if InLanguage(es, text) {
      assert text[0..|text|] == text;
      assert MatchesTo(pat, 1, text, 0, |text|);
    }
  }

  // ---- an instance -------------------------------------------------------------------------------

  lemma Between(e: Elem, mid: string)
    ensures InLanguage([Chr('a'), e, Chr('c')], "a" + mid + "c") <==> Accepts(e, mid)
  {
    var es, s := [Chr('a'), e, Chr('c')], "a" + mid + "c";
    if Accepts(e, mid) {
      var ws := ["a", mid, "c"];
      assert Concat(ws[1..]) == mid + "c" by {
        assert Concat(ws[2..]) == "c";
      }
      assert Parses(es, ws, s);
    }
    if ws: seq<string> :| Parses(es, ws, s) {
      assert Accepts(es[0], ws[0]) && Accepts(es[1], ws[1]) && Accepts(es[2], ws[2]);
      assert Concat(ws) == ws[0] + (ws[1] + ws[2]) by {
        assert Concat(ws[2..]) == ws[2];
        assert Concat(ws[1..]) == ws[1] + ws[2];
      }
      assert ws[0] + (ws[1] + ws[2]) == s;
      assert ws[1] == s[1..|s| - 1] == mid;
    }
  }

  /** A star stands for any number of its character, a plus for one or more, a dot for any one character. */
  lemma Repetition(n: nat)
    ensures Matched("^ab*c$", "a" + seq(n, _ => 'b') + "c")
    ensures Matched("^ab+c$", "a" + seq(n, _ => 'b') + "c") <==> n >= 1
    ensures Matched("^a.c$", "a" + seq(n, _ => 'b') + "c") <==> n == 1
  {
    var mid := seq(n, _ => 'b');
    Shown(Star('b'), mid, "^ab*c$");
    Shown(Plus('b'), mid, "^ab+c$");
    Shown(AnyChr, mid, "^a.c$");
  }

  lemma Shown(e: Elem, mid: string, pat: string)
    requires !Leads(e) && '\n' !in mid && pat == "^a" + ShowElem(e, false) + "c$"
    ensures Matched(pat, "a" + mid + "c") <==> Accepts(e, mid)
  {
    hide InLanguage, Matched, Accepts, ShowElem;
    var es := [Chr('a'), e, Chr('c')];
    Between(e, mid);
    FindsWhole(es, "a" + mid + "c");
    ShowThree(e);
    assert "^" + ("a" + ShowElem(e, false) + "c") + "$" == pat;
  }

  lemma ShowThree(e: Elem)
    requires !Leads(e)
    ensures Show([Chr('a'), e, Chr('c')]) == "a" + ShowElem(e, false) + "c"
  {
    var es := [Chr('a'), e, Chr('c')];
    assert es[1..][1..] == [Chr('c')];
    assert Show([Chr('c')]) == "c";
    assert Show(es[1..]) == ShowElem(e, false) + "c";
    ShowLeads(es[1..]);
  }
}
