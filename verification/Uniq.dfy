// uniq: collapsing adjacent equal lines of a stream that arrives in chunks of any size.

module Uniq {
  import opened CStrings
  import opened Lines

  const PREV := 4096

  datatype Options = Options(count: bool, dupOnly: bool)

  /** A run of equal lines. */
  datatype Group = Group(text: string, count: nat)

  // ---- run-length encoding ------------------------------------------------------------------

  function Repeat(s: string, n: nat): (r: seq<string>)
    ensures |r| == n && forall i :: 0 <= i < n ==> r[i] == s
  {
    seq(n, _ => s)
  }

  function Expand(gs: seq<Group>): seq<string> {
    if gs == [] then [] else Expand(gs[..|gs| - 1]) + Repeat(gs[|gs| - 1].text, gs[|gs| - 1].count)
  }

  /** The groups are the run-length encoding of the lines: they expand to them, none is empty, and
      adjacent ones differ. */
  ghost predicate IsRunLength(gs: seq<Group>, lines: seq<string>) {
    && Expand(gs) == lines
    && (forall i :: 0 <= i < |gs| ==> gs[i].count >= 1)
    && (forall i :: 0 < i < |gs| ==> gs[i - 1].text != gs[i].text)
  }

  function Sum(gs: seq<Group>): nat {
    if gs == [] then 0 else Sum(gs[..|gs| - 1]) + gs[|gs| - 1].count
  }

  // ---- what the code collapses ----------------------------------------------------------------

  /** What is kept of a line for the comparison with the next one. */
  function Kept(line: string): string {
    if |line| <= PREV - 1 then line else line[..PREV - 1]
  }

  /** One more line: it joins the last group if it equals the text kept there. */
  function Collapse(gs: seq<Group>, line: string): (r: seq<Group>)
    ensures r != []
  {
    if gs == [] || line != gs[|gs| - 1].text then gs + [Group(Kept(line), 1)]
    else gs[..|gs| - 1] + [gs[|gs| - 1].(count := gs[|gs| - 1].count + 1)]
  }

  function CollapseAll(lines: seq<string>): seq<Group> {
    if lines == [] then [] else Collapse(CollapseAll(lines[..|lines| - 1]), lines[|lines| - 1])
  }

  /** The lines of a text as C strings. */
  function TextLines(lines: seq<string>): (r: seq<string>)
    ensures |r| == |lines|
  {
    seq(|lines|, i requires 0 <= i < |lines| => UpToNul(lines[i]))
  }

  function Pad(n: nat): (r: string)
    ensures |r| == n
  {
    if n == 0 then "" else " " + Pad(n - 1)
  }

  /** What is printed for one group. */
  function GroupText(o: Options, g: Group): string {
    if o.dupOnly && g.count <= 1 then ""
    else
      (if o.count then CountText(g.count) else "") + g.text + "\n"
  }

  function CountText(n: nat): string {
    var d := Decimal(n);
    Pad(if |d| < 7 then 7 - |d| else 0) + d + " "
  }

  function Report(o: Options, gs: seq<Group>): string {
    if gs == [] then "" else Report(o, gs[..|gs| - 1]) + GroupText(o, gs[|gs| - 1])
  }

  /** The groups of two lines or more. */
  function Repeated(gs: seq<Group>): seq<Group> {
    if gs == [] then []
    else Repeated(gs[..|gs| - 1]) + (if gs[|gs| - 1].count >= 2 then [gs[|gs| - 1]] else [])
  }

  /** With `dupOnly` exactly the groups of two lines or more are printed, as they are without it. */
  lemma {:induction false} PrintsRepeated(o: Options, gs: seq<Group>)
    requires o.dupOnly
    ensures Report(o, gs) == Report(o.(dupOnly := false), Repeated(gs))
  {
    hide CountText;
    if gs != [] {
      var init, g := gs[..|gs| - 1], gs[|gs| - 1];
      PrintsRepeated(o, init);
      if g.count >= 2 {
        assert (Repeated(init) + [g])[..|Repeated(init)|] == Repeated(init);
      } else {
        assert Repeated(gs) == Repeated(init);
      }
    }
  }

  function Texts(gs: seq<Group>): seq<string> {
    if gs == [] then [] else Texts(gs[..|gs| - 1]) + [gs[|gs| - 1].text]
  }

  lemma {:induction false} JoinOneMore(lines: seq<string>, line: string)
    ensures Join(lines + [line]) == Join(lines) + line + "\n"
  {
    if lines == [] {
      assert [] + [line] == [line] && [line][1..] == [];
    } else {
      JoinOneMore(lines[1..], line);
      assert (lines + [line])[1..] == lines[1..] + [line];
    }
  }

  /** Without switches the texts of the groups are printed, one a line. */
  lemma {:induction false} PrintsTexts(gs: seq<Group>)
    ensures Report(Options(false, false), gs) == Join(Texts(gs))
  {
    if gs != [] {
      var init, text := gs[..|gs| - 1], gs[|gs| - 1].text;
      PrintsTexts(init);
      JoinOneMore(Texts(init), text);
    }
  }

  /** A count stands in seven columns, or in as many as it has digits, with a space behind it. */
  lemma CountColumns(n: nat)
    ensures var d, s := Decimal(n), CountText(n);
            && |s| == (if |d| < 7 then 8 else |d| + 1)
            && s[|s| - 1 - |d|..] == d + " "
            && forall i :: 0 <= i < |s| - 1 - |d| ==> s[i] == ' '
  {
    hide Decimal;
    PadSpaces(7 - |Decimal(n)|);
  }

  lemma {:induction false} PadSpaces(n: int)
    ensures n >= 0 ==> forall i :: 0 <= i < n ==> Pad(n)[i] == ' '
  {
    if n > 0 {
      PadSpaces(n - 1);
    }
  }

  // ---- when that is the run-length encoding -----------------------------------------------------

  lemma ExpandOne(gs: seq<Group>, g: Group)
    ensures Expand(gs + [g]) == Expand(gs) + Repeat(g.text, g.count)
    ensures Sum(gs + [g]) == Sum(gs) + g.count
  {
    assert (gs + [g])[..|gs + [g]| - 1] == gs;
  }

  lemma CollapseOne(lines: seq<string>, line: string)
    ensures CollapseAll(lines + [line]) == Collapse(CollapseAll(lines), line)
  {
    assert (lines + [line])[..|lines + [line]| - 1] == lines;
  }

  /** The counts add up to the number of lines, whatever the lines are. */
  lemma {:induction false} CountsAddUp(lines: seq<string>)
    ensures Sum(CollapseAll(lines)) == |lines|
  {
    if lines != [] {
      var init, line := lines[..|lines| - 1], lines[|lines| - 1];
      CountsAddUp(init);
      var gs := CollapseAll(init);
      if gs == [] || line != gs[|gs| - 1].text {
        ExpandOne(gs, Group(Kept(line), 1));
      } else {
        var g := gs[|gs| - 1];
        ExpandOne(gs[..|gs| - 1], g.(count := g.count + 1));
      }
    }
  }

  lemma CollapseKeeps(gs: seq<Group>, lines: seq<string>, line: string)
    requires IsRunLength(gs, lines) && |line| <= PREV - 1
    ensures IsRunLength(Collapse(gs, line), lines + [line])
  {
    hide Expand;
    ExpandOne([], Group(line, 1));
    if gs == [] || line != gs[|gs| - 1].text {
      ExpandOne(gs, Group(line, 1));
      assert Repeat(line, 1) == [line];
    } else {
      var init, g := gs[..|gs| - 1], gs[|gs| - 1];
      assert gs == init + [g];
      ExpandOne(init, g);
      ExpandOne(init, Group(line, g.count + 1));
      assert Repeat(line, g.count + 1) == Repeat(line, g.count) + [line];
    }
  }

  /** Lines that fit into the comparison buffer are collapsed to their run-length encoding. */
  lemma {:induction false} ShortLinesCollapse(lines: seq<string>)
    requires forall i :: 0 <= i < |lines| ==> |lines[i]| <= 4095
    ensures IsRunLength(CollapseAll(lines), lines)
  {
    if lines == [] {
      assert Expand([]) == [];
    } else {
      var init, line := lines[..|lines| - 1], lines[|lines| - 1];
      ShortLinesCollapse(init);
      CollapseKeeps(CollapseAll(init), init, line);
      assert lines == init + [line];
    }
  }

  lemma {:induction false} KeptTexts(lines: seq<string>)
    ensures forall i :: 0 <= i < |CollapseAll(lines)| ==> |CollapseAll(lines)[i].text| <= PREV - 1
  {
    if lines != [] {
      KeptTexts(lines[..|lines| - 1]);
    }
  }

  lemma {:induction false} ExpandTexts(gs: seq<Group>, n: nat)
    requires forall i :: 0 <= i < |gs| ==> |gs[i].text| <= n
    ensures forall i :: 0 <= i < |Expand(gs)| ==> |Expand(gs)[i]| <= n
  {
    if gs != [] {
      ExpandTexts(gs[..|gs| - 1], n);
    }
  }

  lemma {:induction false} KeptNulFree(lines: seq<string>)
    requires forall i :: 0 <= i < |lines| ==> NulFree(lines[i])
    ensures forall i :: 0 <= i < |CollapseAll(lines)| ==> NulFree(CollapseAll(lines)[i].text)
  {
    if lines != [] {
      KeptNulFree(lines[..|lines| - 1]);
    }
  }

  lemma {:induction false} ExpandNulFree(gs: seq<Group>)
    requires forall i :: 0 <= i < |gs| ==> NulFree(gs[i].text)
    ensures forall i :: 0 <= i < |Expand(gs)| ==> NulFree(Expand(gs)[i])
  {
    hide NulFree;
    if gs != [] {
      ExpandNulFree(gs[..|gs| - 1]);
    }
  }

  /** Lines that are compared as a whole: without a NUL, and with at most 4095 characters. */
  ghost predicate Comparable(lines: seq<string>) {
    forall i :: 0 <= i < |lines| ==> |lines[i]| <= 4095 && NulFree(lines[i])
  }

  /** The groups of the lines of a stream are their run-length encoding exactly when all are such. */
  lemma CollapseIsRunLengthIff(lines: seq<string>)
    ensures IsRunLength(CollapseAll(TextLines(lines)), lines) <==> Comparable(lines)
  {
    hide CollapseAll, Expand, UpToNul;
    var texts := TextLines(lines);
    if Comparable(lines) {
      forall i | 0 <= i < |lines|
        ensures texts[i] == lines[i]
      {
        UpToNulSame(lines[i]);
      }
      assert texts == lines;
      ShortLinesCollapse(lines);
    }
    KeptTexts(texts);
    ExpandTexts(CollapseAll(texts), PREV - 1);
    KeptNulFree(texts);
    ExpandNulFree(CollapseAll(texts));
  }

  /** A NUL hides what comes behind it: two different lines are counted as two equal ones. */
  lemma HiddenByNul()
    ensures CollapseAll(TextLines(["a\0b", "a\0c"])) == [Group("a", 2)]
  {
    UpToNulIs("a\0b", 1);
    UpToNulIs("a\0c", 1);
    assert "a\0b"[..1] == "a" && "a\0c"[..1] == "a";
    assert TextLines(["a\0b", "a\0c"]) == ["a"] + ["a"];
    assert [] + ["a"] == ["a"];
    CollapseOne([], "a");
    CollapseOne(["a"], "a");
  }

  /** A line of 4096 characters is not equal to itself: what is kept of it is one shorter. */
  lemma LongLines(line: CString)
    requires |line| == 4096
    ensures CollapseAll([line, line]) == [Group(line[..4095], 1), Group(line[..4095], 1)]
  {
    CollapseOne([], line);
    CollapseOne([line], line);
    assert [line, line] == [line] + [line];
    assert line[..4095] != line;
  }

  // ---- the tool -----------------------------------------------------------------------------------

  class Collapser {
    const o: Options
    const out: Stdout
    const prev: array<char>
    var havePrev: bool
    var count: nat

    ghost predicate Shape()
      reads this
    {
      prev.Length == PREV
    }

    /** All groups but the last have been printed; the last one is kept. */
    ghost predicate Reflects(gs: seq<Group>, before: string)
      reads this, prev, out
    {
      && Shape() && prev[PREV - 1] == '\0'
      && havePrev == (gs != [])
      && if gs == [] then out.text == before
         else out.text == before + Report(o, gs[..|gs| - 1]) && gs[|gs| - 1] == Group(UpToNul(prev[..]), count)
    }

    constructor (o: Options, out: Stdout)
      ensures Reflects([], out.text) && fresh(prev) && this.o == o && this.out == out
    {
      this.o, this.out := o, out;
      prev := new char[PREV](_ => '\0');
      havePrev, count := false, 0;
    }

    /** Printing the count, right-aligned in seven columns. */
    method PrintCount()
      modifies out
      ensures out.text == old(out.text) + CountText(count)
    {
      hide Decimal;
      ghost var start := out.text;
      var cbuf := UlongToStr(count);
      var k := 0;
      assert start + Pad(0) == start;
      while k < 7 - |cbuf|
        invariant 0 <= k && (k <= 7 - |cbuf| || k == 0) && out.text == start + Pad(k)
      {
        PadMore(k);
        out.Print(" ");
        k := k + 1;
      }
      out.Print(cbuf);
      out.Print(" ");
    }

    /** Printing the kept group. */
    method Flush()
      requires Shape() && prev[PREV - 1] == '\0'
      modifies out
      ensures out.text == old(out.text) + GroupText(o, Group(UpToNul(prev[..]), count))
    {
      hide UpToNul, CountText;
      if !o.dupOnly || count > 1 {
        if o.count {
          PrintCount();
        }
        var line := UpToNul(prev[..]);
        out.Print(line);
        out.Print("\n");
      }
    }

    /** Keeping a line for the comparison with the next ones. */
    method Remember(line: CString)
      requires Shape() && prev[PREV - 1] == '\0'
      modifies this`havePrev, this`count, prev
      ensures prev[PREV - 1] == '\0' && UpToNul(prev[..]) == Kept(line)
      ensures havePrev && count == 1
    {
      hide UpToNul, Ncpied;
      ghost var was := prev[..];
      StrNcpy(prev, 0, line, '\0', PREV - 1);
      Remembered(was, line);
      havePrev := true;
      count := 1;
    }

    /** The last group has been printed too. */
    method Finish(ghost gs: seq<Group>, ghost before: string)
      requires Reflects(gs, before)
      modifies out
      ensures out.text == before + Report(o, gs)
    {
      hide UpToNul, Report, GroupText;
      if havePrev {
        Flush();
        ReportOne(o, gs);
        assert (before + Report(o, gs[..|gs| - 1])) + GroupText(o, gs[|gs| - 1])
            == before + (Report(o, gs[..|gs| - 1]) + GroupText(o, gs[|gs| - 1]));
      } else {
        NothingReported(o);
        assert before + "" == before;
      }
    }

    /** What the loop does with one line. */
    method Line(raw: string, ghost gs: seq<Group>, ghost before: string)
      requires Reflects(gs, before)
      modifies this`havePrev, this`count, prev, out
      ensures Reflects(Collapse(gs, UpToNul(raw)), before)
    {
      hide UpToNul, Report, GroupText, Kept;
      var line := UpToNul(raw);
      var cmp := StrCmp(line, UpToNul(prev[..]));
      if !havePrev || cmp != 0 {
        Finish(gs, before);
        Remember(line);
        assert (gs + [Group(Kept(line), 1)])[..|gs|] == gs;
        if gs == [] {
          NothingReported(o);
        }
      } else {
        count := count + 1;
      }
    }

    lemma ReportOne(o: Options, gs: seq<Group>)
      requires gs != []
      ensures Report(o, gs) == Report(o, gs[..|gs| - 1]) + GroupText(o, gs[|gs| - 1])
    {
    }

    lemma PadMore(k: nat)
      ensures Pad(k) + " " == Pad(k + 1)
    {
      if k != 0 {
        PadMore(k - 1);
      }
    }

    /** After the copy the buffer reads as the kept part of the line. */
    lemma Remembered(was: seq<char>, line: CString)
      requires |was| == PREV && was[PREV - 1] == '\0'
      ensures var now := Ncpied(was, 0, line, '\0', PREV - 1);
              now[PREV - 1] == '\0' && UpToNul(now) == Kept(line)
    {
      var now := Ncpied(was, 0, line, '\0', PREV - 1);
      var kept := Kept(line);
      forall i | 0 <= i < |kept|
        ensures now[i] == kept[i]
      {
        NcpiedAt(was, 0, line, '\0', PREV - 1, i);
      }
      NcpiedAt(was, 0, line, '\0', PREV - 1, PREV - 1);
      NcpiedAt(was, 0, line, '\0', PREV - 1, |kept|);
      UpToNulIs(now, |kept|);
      assert now[..|kept|] == kept;
    }
  }

  lemma TextLinesOne(lines: seq<string>, line: string)
    ensures TextLines(lines + [line]) == TextLines(lines) + [UpToNul(line)]
  {
  }

  /** The inner loop: every line that is complete, or all of them when no more is to be read. */
  method TakeLines(input: Input, b: LineBuffer, c: Collapser, more: bool, ghost before: string)
    requires b.Open(input) && c.Reflects(CollapseAll(TextLines(b.lines)), before) && b.buf != c.prev
    modifies b, b.buf, c`havePrev, c`count, c.prev, c.out
    ensures b.bufLen == old(b.bufLen)
    ensures b.Open(input) || (!more && b.Finished(input))
    ensures b.lineStart < b.bufLen ==> more && '\n' !in b.buf[b.lineStart..b.bufLen]
    ensures c.Reflects(CollapseAll(TextLines(b.lines)), before)
  {
    hide *;
    while b.lineStart < b.bufLen
      invariant b.bufLen == old(b.bufLen)
      invariant b.Open(input) || (!more && b.Finished(input) && b.lineStart > b.bufLen)
      invariant c.Reflects(CollapseAll(TextLines(b.lines)), before)
      decreases b.bufLen - b.lineStart
    {
      ghost var lines := b.lines;
      var got, line := b.TakeLine(input, more);
      if !got {
        break;
      }
      TextLinesOne(lines, line);
      CollapseOne(TextLines(lines), UpToNul(line));
      c.Line(line, CollapseAll(TextLines(lines)), before);
    }
  }

  /** The body of uniq_main. However the reads cut up the stream, the output is the report on the collapsed
      lines of what has been read. If no read fails, everything is read exactly if nothing comes behind 65535
      characters without a newline; then the output is the report on the whole stream. */
  method UniqStream(input: Input, o: Options, out: Stdout)
    requires input.delivered == "" && !input.failed
    modifies input, out
    ensures out.text == old(out.text) + Report(o, CollapseAll(TextLines(Split(input.delivered))))
    ensures input.delivered + input.rest == old(input.rest)
    ensures !input.failed ==> (input.rest == "" <==> !StopsEarly(old(input.rest)))
    ensures !input.failed && !StopsEarly(old(input.rest)) ==>
      out.text == old(out.text) + Report(o, CollapseAll(TextLines(Split(old(input.rest)))))
  {
    hide Split, CollapseAll, Report, StopsEarly, UpToNul, Closed, GroupText, TextLines;
    NothingYet();
    var c := new Collapser(o, out);
    var b := new LineBuffer(input);
    while true
      invariant fresh(b) && fresh(b.buf) && fresh(c) && fresh(c.prev) && c.out == out && c.o == o && b.buf != c.prev
      invariant b.Ready(input) && c.Reflects(CollapseAll(TextLines(b.lines)), old(out.text))
      invariant input.delivered + input.rest == old(input.rest)
      decreases |input.rest|
    {
      var n := b.Fill(input);
      if n <= 0 && b.bufLen == b.lineStart {
        break;
      }
      TakeLines(input, b, c, n > 0, old(out.text));
      b.Shift(input);
      if n <= 0 {
        break;
      }
    }
    c.Finish(CollapseAll(TextLines(b.lines)), old(out.text));
    AllDelivered(input.delivered, input.rest);
  }

  lemma NothingYet()
    ensures CollapseAll(TextLines([])) == []
  {
  }

  lemma NothingReported(o: Options)
    ensures Report(o, []) == ""
  {
  }
}
