// tools/diff.c: the printed text determines the script, so that what is printed can be applied.

module DiffText {
  import opened CStrings
  import opened Lines
  import opened Options
  import opened Diff

  // ---- cutting a text ---------------------------------------------------------------------------

  predicate IsDigit(c: char) {
    '0' <= c <= '9'
  }

  predicate InLine(c: char) {
    c != '\n'
  }

  predicate AllOf(s: string, p: char -> bool) {
    forall i :: 0 <= i < |s| ==> p(s[i])
  }

  /** The text does not go on with such a character. */
  predicate Stops(s: string, p: char -> bool) {
    s == "" || !p(s[0])
  }

  /** There is only one way to cut a text behind its first characters of a kind. */
  lemma CutOnce(u: string, x: string, v: string, y: string, p: char -> bool)
    requires u + x == v + y && AllOf(u, p) && AllOf(v, p) && Stops(x, p) && Stops(y, p)
    ensures u == v && x == y
  {
    var all := u + x;
    assert x != "" ==> all[|u|] == x[0];
    assert y != "" ==> all[|v|] == y[0];
    assert forall i :: 0 <= i < |v| ==> all[i] == v[i];
    assert |u| == |v|;
    assert all[..|u|] == u && all[..|v|] == v && all[|u|..] == x && all[|v|..] == y;
  }

  lemma {:induction false} DecimalDigits(n: nat)
    ensures Decimal(n) != "" && AllOf(Decimal(n), IsDigit)
  {
    if n >= 10 {
      DecimalDigits(n / 10);
    }
  }

  /** A number is read back, and so is what comes behind it. */
  lemma NumberThen(m: nat, x: string, n: nat, y: string)
    requires Decimal(m) + x == Decimal(n) + y && Stops(x, IsDigit) && Stops(y, IsDigit)
    ensures m == n && x == y
  {
    hide Decimal;
    DecimalDigits(m);
    DecimalDigits(n);
    CutOnce(Decimal(m), x, Decimal(n), y, IsDigit);
    NumberOfDecimal(m);
    NumberOfDecimal(n);
  }

  /** So is a line. */
  lemma LineThen(u: string, x: string, v: string, y: string)
    requires u + "\n" + x == v + "\n" + y && AllOf(u, InLine) && AllOf(v, InLine)
    ensures u == v && x == y
  {
    assert u + ("\n" + x) == u + "\n" + x && v + ("\n" + y) == v + "\n" + y;
    CutOnce(u, "\n" + x, v, "\n" + y, InLine);
    assert ("\n" + x)[1..] == x && ("\n" + y)[1..] == y;
  }

  lemma Behind(s: string, x: string, y: string)
    requires s + x == s + y
    ensures x == y
  {
    assert (s + x)[|s|..] == x && (s + y)[|s|..] == y;
  }

  // ---- the lines of a hunk ----------------------------------------------------------------------------

  ghost predicate PlainLines(lines: seq<CString>) {
    forall i :: 0 <= i < |lines| ==> AllOf(lines[i], InLine)
  }

  /** A hunk without newlines in its lines. */
  ghost predicate Plain(h: Hunk) {
    match h
    case Delete(first, last, after, gone) => PlainLines(gone)
    case Add(after, first, last, come) => PlainLines(come)
    case Change(line, newLine, was, now) => AllOf(was, InLine) && AllOf(now, InLine)
  }

  /** What comes behind a hunk: nothing, or another one. */
  predicate NextOne(s: string) {
    s == "" || IsDigit(s[0])
  }

  lemma MarkedStarts(mark: string, ls: seq<CString>, x: string)
    requires |mark| == 2
    ensures ls == [] ==> Marked(mark, ls) + x == x
    ensures ls != [] ==> Marked(mark, ls) + x == mark + (ls[0] + "\n" + (Marked(mark, ls[1..]) + x))
    ensures ls != [] ==> Marked(mark, ls) + x != "" && (Marked(mark, ls) + x)[0] == mark[0]
  {
    assert "" + x == x;
    if ls != [] {
      var u := Marked(mark, ls[1..]);
      assert mark + ls[0] + "\n" + u + x == mark + (ls[0] + "\n" + (u + x));
    }
  }

  lemma {:induction false} MarkedThen(mark: string, ls: seq<CString>, x: string, ms: seq<CString>, y: string)
    requires |mark| == 2 && !IsDigit(mark[0]) && NextOne(x) && NextOne(y) && PlainLines(ls) && PlainLines(ms)
    requires Marked(mark, ls) + x == Marked(mark, ms) + y
    ensures ls == ms && x == y
  {
    MarkedStarts(mark, ls, x);
    MarkedStarts(mark, ms, y);
    hide Marked, IsDigit;
    assert ls == [] <==> ms == [];
    if ls != [] {
      var u, v := Marked(mark, ls[1..]) + x, Marked(mark, ms[1..]) + y;
      Behind(mark, ls[0] + "\n" + u, ms[0] + "\n" + v);
      LineThen(ls[0], u, ms[0], v);
      MarkedThen(mark, ls[1..], x, ms[1..], y);
      assert ls == [ls[0]] + ls[1..] && ms == [ms[0]] + ms[1..];
    }
  }

  /** A range of line numbers: what comes behind its first number decides whether there is a second. */
  lemma RangeThen(first: nat, last: nat, x: string, first': nat, last': nat, y: string)
    requires Range(first, last) + x == Range(first', last') + y
    requires x != "" && !IsDigit(x[0]) && x[0] != ',' && y != "" && !IsDigit(y[0]) && y[0] != ','
    ensures first == first' && last == last' && x == y
  {
    hide Decimal;
    var u := (if first == last then "" else "," + Decimal(last)) + x;
    var v := (if first' == last' then "" else "," + Decimal(last')) + y;
    assert Range(first, last) + x == Decimal(first) + u && Range(first', last') + y == Decimal(first') + v;
    NumberThen(first, u, first', v);
    assert u[0] == (if first == last then x[0] else ',') && v[0] == if first' == last' then y[0] else ',';
    if first != last {
      assert u == "," + (Decimal(last) + x) && v == "," + (Decimal(last') + y);
      Behind(",", Decimal(last) + x, Decimal(last') + y);
      NumberThen(last, x, last', y);
    } else {
      assert u == x && v == y;
    }
  }

  // ---- one hunk ----------------------------------------------------------------------------------------

  lemma DeleteThen(h: Hunk, x: string, h': Hunk, y: string)
    requires h.Delete? && h'.Delete? && Plain(h) && Plain(h') && NextOne(x) && NextOne(y)
    requires Text(h) + x == Text(h') + y
    ensures h == h' && x == y
  {
    hide Decimal, Range, Marked;
    var a, a' := Marked("< ", h.gone) + x, Marked("< ", h'.gone) + y;
    var b, b' := Decimal(h.after) + ("\n" + a), Decimal(h'.after) + ("\n" + a');
    assert Text(h) + x == Range(h.first, h.last) + ("d" + b);
    assert Text(h') + y == Range(h'.first, h'.last) + ("d" + b');
    RangeThen(h.first, h.last, "d" + b, h'.first, h'.last, "d" + b');
    Behind("d", b, b');
    NumberThen(h.after, "\n" + a, h'.after, "\n" + a');
    Behind("\n", a, a');
    MarkedThen("< ", h.gone, x, h'.gone, y);
  }

  lemma AddThen(h: Hunk, x: string, h': Hunk, y: string)
    requires h.Add? && h'.Add? && Plain(h) && Plain(h') && NextOne(x) && NextOne(y)
    requires Text(h) + x == Text(h') + y
    ensures h == h' && x == y
  {
    hide Decimal, Range, Marked;
    var a, a' := Marked("> ", h.come) + x, Marked("> ", h'.come) + y;
    var b, b' := Range(h.first, h.last) + ("\n" + a), Range(h'.first, h'.last) + ("\n" + a');
    assert Text(h) + x == Decimal(h.after) + ("a" + b);
    assert Text(h') + y == Decimal(h'.after) + ("a" + b');
    NumberThen(h.after, "a" + b, h'.after, "a" + b');
    Behind("a", b, b');
    RangeThen(h.first, h.last, "\n" + a, h'.first, h'.last, "\n" + a');
    Behind("\n", a, a');
    MarkedThen("> ", h.come, x, h'.come, y);
  }

  lemma ChangeText(h: Hunk, x: string)
    requires h.Change?
    ensures Text(h) + x == Decimal(h.line) + ("c" + (Decimal(h.newLine) + ("\n< " +
                           (h.was + "\n" + ("---\n> " + (h.now + "\n" + x))))))
  {
    hide Decimal;
    var line, newLine, was, now := Decimal(h.line), Decimal(h.newLine), h.was, h.now;
    var end := "\n---\n> " + now + "\n" + x;
    assert end == "\n" + ("---\n> " + (now + "\n" + x));
    assert Text(h) + x == (line + "c" + newLine + "\n< " + was) + end;
    assert was + end == was + "\n" + ("---\n> " + (now + "\n" + x));
    assert (line + "c" + newLine + "\n< " + was) + end == line + ("c" + (newLine + ("\n< " + (was + end))));
  }

  lemma ChangeThen(h: Hunk, x: string, h': Hunk, y: string)
    requires h.Change? && h'.Change? && Plain(h) && Plain(h')
    requires Text(h) + x == Text(h') + y
    ensures h == h' && x == y
  {
    hide Decimal;
    var b, b' := h.was + "\n" + ("---\n> " + (h.now + "\n" + x)), h'.was + "\n" + ("---\n> " + (h'.now + "\n" + y));
    var c, c' := Decimal(h.newLine) + ("\n< " + b), Decimal(h'.newLine) + ("\n< " + b');
    ChangeText(h, x);
    ChangeText(h', y);
    hide Text;
    NumberThen(h.line, "c" + c, h'.line, "c" + c');
    Behind("c", c, c');
    NumberThen(h.newLine, "\n< " + b, h'.newLine, "\n< " + b');
    Behind("\n< ", b, b');
    ChangedLines(h.was, h.now, x, h'.was, h'.now, y);
  }

  lemma ChangedLines(was: CString, now: CString, x: string, was': CString, now': CString, y: string)
    requires AllOf(was, InLine) && AllOf(now, InLine) && AllOf(was', InLine) && AllOf(now', InLine)
    requires was + "\n" + ("---\n> " + (now + "\n" + x)) == was' + "\n" + ("---\n> " + (now' + "\n" + y))
    ensures was == was' && now == now' && x == y
  {
    var a, a' := now + "\n" + x, now' + "\n" + y;
    LineThen(was, "---\n> " + a, was', "---\n> " + a');
    Behind("---\n> ", a, a');
    LineThen(now, x, now', y);
  }

  /** The first number of a hunk and the character behind it. */
  function Lead(h: Hunk): (nat, char) {
    match h
    case Delete(first, last, _, _) => (first, if first == last then 'd' else ',')
    case Add(after, _, _, _) => (after, 'a')
    case Change(line, _, _, _) => (line, 'c')
  }

  lemma LeadOf(h: Hunk) returns (rest: string)
    ensures Text(h) == Decimal(Lead(h).0) + ([Lead(h).1] + rest)
  {
    hide Decimal, Marked;
    match h
    case Delete(first, last, after, gone) =>
      var tail := Decimal(after) + "\n" + Marked("< ", gone);
      rest := if first == last then tail else Decimal(last) + "d" + tail;
      assert Text(h) == Decimal(first) + ([Lead(h).1] + rest);
    case Add(after, first, last, come) =>
      rest := Range(first, last) + "\n" + Marked("> ", come);
    case Change(line, newLine, was, now) =>
      rest := Decimal(newLine) + "\n< " + was + "\n---\n> " + now + "\n";
  }

  lemma SameKind(h: Hunk, x: string, h': Hunk, y: string)
    requires Text(h) + x == Text(h') + y
    ensures Lead(h) == Lead(h')
  {
    hide Decimal, Text, Lead;
    LeadKinds(h);
    LeadKinds(h');
    var r := LeadOf(h);
    var r' := LeadOf(h');
    var u, v := [Lead(h).1] + (r + x), [Lead(h').1] + (r' + y);
    assert Text(h) + x == Decimal(Lead(h).0) + u;
    assert Text(h') + y == Decimal(Lead(h').0) + v;
    NumberThen(Lead(h).0, u, Lead(h').0, v);
    assert u[0] == v[0];
  }

  lemma LeadKinds(h: Hunk)
    ensures !IsDigit(Lead(h).1)
  {
  }

  /** A hunk is read back, and so is what comes behind it. */
  lemma HunkThen(h: Hunk, x: string, h': Hunk, y: string)
    requires Plain(h) && Plain(h') && NextOne(x) && NextOne(y) && Text(h) + x == Text(h') + y
    ensures h == h' && x == y
  {
    hide Text, Plain;
    SameKind(h, x, h', y);
    if h.Delete? {
      DeleteThen(h, x, h', y);
    } else if h.Add? {
      AddThen(h, x, h', y);
    } else {
      ChangeThen(h, x, h', y);
    }
  }

  lemma MarkedLines(mark: string, u: CString, v: CString)
    ensures Marked(mark, [u]) == mark + u + "\n" && Marked(mark, [u, v]) == mark + u + "\n" + (mark + v + "\n")
  {
    assert [u, v][1..] == [v] && [v][1..] == [] && [u][1..] == [];
    assert Marked(mark, [v]) == mark + v + "\n";
  }

  lemma Numerals()
    ensures Decimal(12) == "12" && Decimal(0) == "0" && Decimal(1) == "1" && Decimal(2) == "2"
    ensures Decimal(3) == "3" && Decimal(4) == "4" && Decimal(5) == "5"
  {
    assert Decimal(1) == "1";
  }

  /** The three kinds of hunks as they are printed. */
  lemma PrintedForms(u: CString, v: CString)
    ensures Text(Delete(2, 3, 1, [u, v])) == "2,3d1\n" + ("< " + u + "\n" + ("< " + v + "\n"))
    ensures Text(Delete(12, 12, 0, [u])) == "12d0\n" + ("< " + u + "\n")
    ensures Text(Add(1, 2, 3, [u, v])) == "1a2,3\n" + ("> " + u + "\n" + ("> " + v + "\n"))
    ensures Text(Change(4, 5, u, v)) == "4c5" + "\n< " + u + "\n---\n> " + v + "\n"
  {
    hide Decimal, Marked;
    Numerals();
    MarkedLines("< ", u, v);
    MarkedLines("> ", u, v);
    assert "2" + "," + "3" + "d" + "1" + "\n" == "2,3d1\n";
    assert "12" + "d" + "0" + "\n" == "12d0\n";
    assert "1" + "a" + "2" + "," + "3" + "\n" == "1a2,3\n";
    assert "4" + "c" + "5" == "4c5";
  }

  // ---- the whole script ----------------------------------------------------------------------------------

  ghost predicate PlainScript(script: seq<Hunk>) {
    forall i :: 0 <= i < |script| ==> Plain(script[i])
  }

  lemma HunkStarts(h: Hunk, x: string)
    ensures Text(h) + x != "" && IsDigit((Text(h) + x)[0])
  {
    hide Decimal;
    var rest := LeadOf(h);
    DecimalDigits(Lead(h).0);
  }

  lemma AllTextStarts(script: seq<Hunk>)
    ensures NextOne(AllText(script)) && (AllText(script) == "" <==> script == [])
  {
    if script != [] {
      HunkStarts(script[0], AllText(script[1..]));
    }
  }

  /** Two scripts for lines without newlines that are printed alike are the same. */
  lemma {:induction false} TextDeterminesScript(s: seq<Hunk>, s': seq<Hunk>)
    requires PlainScript(s) && PlainScript(s') && AllText(s) == AllText(s')
    ensures s == s'
  {
    hide Text, Plain;
    AllTextStarts(s);
    AllTextStarts(s');
    if s != [] {
      AllTextStarts(s[1..]);
      AllTextStarts(s'[1..]);
      HunkThen(s[0], AllText(s[1..]), s'[0], AllText(s'[1..]));
      TextDeterminesScript(s[1..], s'[1..]);
      assert s == [s[0]] + s[1..] && s' == [s'[0]] + s'[1..];
    }
  }

  lemma SlicePlain(lines: seq<CString>, i: nat, j: nat)
    requires PlainLines(lines) && i <= j <= |lines|
    ensures PlainLines(lines[i..j])
  {
    hide AllOf;
    forall k | 0 <= k < j - i
      ensures AllOf(lines[i..j][k], InLine)
    {
      assert lines[i..j][k] == lines[i + k];
    }
  }

  lemma FitsPlain(h: Hunk, a: seq<CString>, b: seq<CString>, ia: nat, ib: nat)
    requires PlainLines(a) && PlainLines(b) && FitsHunk(h, a, b, ia, ib)
    ensures Plain(h)
  {
    hide AllOf;
    if h.Delete? {
      SlicePlain(a, h.first - 1, h.last);
    } else if h.Add? {
      SlicePlain(b, h.first - 1, h.last);
    }
  }

  lemma {:induction false} AllFitPlain(script: seq<Hunk>, a: seq<CString>, b: seq<CString>, ia: nat, ib: nat)
    requires PlainLines(a) && PlainLines(b) && ia <= |a| && ib <= |b| && Fits(script, a, b, ia, ib)
    ensures PlainScript(script)
  {
    if script != [] {
      FitsPlain(script[0], a, b, ia, ib);
      FitsInverse(script[0], a, b, ia, ib);
      hide Plain, FitsHunk, EndA, EndB;
      AllFitPlain(script[1..], a, b, EndA(script[0]), EndB(script[0]));
      assert script == [script[0]] + script[1..];
    }
  }

  /** Whatever script is read from the printed text, it turns the first file into the second. */
  lemma PrintedApplies(a: seq<CString>, b: seq<CString>, read: seq<Hunk>)
    requires PlainLines(a) && PlainLines(b) && PlainScript(read) && AllText(read) == AllText(Script(a, b, 0, 0))
    ensures Apply(read, a, 0, []) == Some(b) && Apply(Reversed(read), b, 0, []) == Some(a)
  {
    hide Script, PlainScript, AllText, Apply, Reversed;
    ScriptFits(a, b, 0, 0);
    AllFitPlain(Script(a, b, 0, 0), a, b, 0, 0);
    TextDeterminesScript(read, Script(a, b, 0, 0));
    ScriptCorrect(a, b);
  }
}
