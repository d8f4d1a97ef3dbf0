// grep_stream: the pattern search over a stream that arrives in chunks of any size.

module Grep {
  import opened CStrings
  import opened Regex
  import opened RegexText
  import opened Lines

  /** The switches of grep, and the prefix it prints with each line. */
  datatype Options = Options(showFilename: bool, showNum: bool, invert: bool, icase: bool, countOnly: bool)

  /** Whether a line is selected. */
  ghost predicate Selected(o: Options, pat: string, line: string) {
    var s := UpToNul(line);
    (if o.icase then MatchedNoCase(pat, s) else Matched(pat, s)) != o.invert
  }

  function Prefix(o: Options, filename: string, num: nat): string {
    (if o.showFilename then filename + ":" else "") + (if o.showNum then Decimal(num) + ":" else "")
  }

  /** What is printed for the lines of a text, the last one having number |lines|. */
  ghost function Printed(o: Options, pat: string, filename: string, lines: seq<string>): string {
    if lines == [] then ""
    else
      var n := |lines| - 1;
      Printed(o, pat, filename, lines[..n])
      + (if !o.countOnly && Selected(o, pat, lines[n])
         then Prefix(o, filename, n + 1) + UpToNul(lines[n]) + "\n" else "")
  }

  ghost function Matches(o: Options, pat: string, lines: seq<string>): nat {
    if lines == [] then 0
    else
      var n := |lines| - 1;
      Matches(o, pat, lines[..n]) + (if Selected(o, pat, lines[n]) then 1 else 0)
  }

  /** The whole output for a text. */
  ghost function Report(o: Options, pat: string, filename: string, lines: seq<string>): string {
    Printed(o, pat, filename, lines) + CountLine(o, pat, filename, lines)
  }

  /** The line with the number of selected lines, if that is all that is asked for. */
  ghost function CountLine(o: Options, pat: string, filename: string, lines: seq<string>): string {
    if !o.countOnly then ""
    else (if o.showFilename then filename + ":" else "") + Decimal(Matches(o, pat, lines)) + "\n"
  }

  class Searcher {
    const o: Options
    const pat: CString
    const filename: string
    const out: Stdout
    var lineNum: nat
    var matchCount: nat
    var ret: int

    /** The lines seen so far are accounted for. */
    ghost predicate Reflects(lines: seq<string>, before: string)
      reads this, out
    {
      && lineNum == |lines|
      && out.text == before + Printed(o, pat, filename, lines)
      && matchCount == Matches(o, pat, lines)
      && ret == (if matchCount > 0 then 0 else 1)
    }

    constructor (o: Options, pat: CString, filename: string, out: Stdout)
      ensures Reflects([], out.text)
      ensures this.o == o && this.pat == pat && this.filename == filename && this.out == out
    {
      this.o, this.pat, this.filename, this.out := o, pat, filename, out;
      lineNum, matchCount, ret := 0, 0, 1;
    }

    /** What the loop does with one line. */
    method Line(line: string, ghost lines: seq<string>, ghost before: string)
      requires Reflects(lines, before)
      modifies this, out
      ensures Reflects(lines + [line], before)
    {
      hide Matched, MatchedNoCase, Printed, Matches;
      PrintedStep(o, pat, filename, lines, line);
      lineNum := lineNum + 1;
      var text := UpToNul(line);
      var matched;
      if o.icase {
        matched := MatchPatternNoCase(pat, text);
      } else {
        matched := MatchPattern(pat, text);
      }
      if o.invert {
        matched := !matched;
      }
      if matched {
        ret := 0;
        matchCount := matchCount + 1;
        if !o.countOnly {
          PrintLine(text);
        }
      }
    }

    method PrintCount(ghost lines: seq<string>)
      requires matchCount == Matches(o, pat, lines)
      modifies out
      ensures out.text == old(out.text) + CountLine(o, pat, filename, lines)
    {
      hide Matches, Decimal;
      if o.countOnly {
        if o.showFilename {
          out.Print(filename);
          out.Print(":");
        }
        var num := UlongToStr(matchCount);
        out.Print(num);
        out.Print("\n");
      }
    }

    method PrintLine(text: string)
      modifies out
      ensures out.text == old(out.text) + (Prefix(o, filename, lineNum) + text + "\n")
    {
      if o.showFilename {
        out.Print(filename);
        out.Print(":");
      }
      if o.showNum {
        var num := UlongToStr(lineNum);
        out.Print(num);
        out.Print(":");
      }
      assert out.text == old(out.text) + Prefix(o, filename, lineNum);
      out.Print(text);
      out.Print("\n");
    }
  }

  lemma PrintedNone(o: Options, pat: string, filename: string)
    ensures Printed(o, pat, filename, []) == "" && Matches(o, pat, []) == 0
  {
  }

  lemma PrintedStep(o: Options, pat: string, filename: string, lines: seq<string>, line: string)
    ensures Printed(o, pat, filename, lines + [line]) == Printed(o, pat, filename, lines)
            + (if !o.countOnly && Selected(o, pat, line)
               then Prefix(o, filename, |lines| + 1) + UpToNul(line) + "\n" else "")
    ensures Matches(o, pat, lines + [line]) == Matches(o, pat, lines) + (if Selected(o, pat, line) then 1 else 0)
  {
    hide Selected;
    var all := lines + [line];
    assert all[..|all| - 1] == lines && all[|all| - 1] == line;
  }

  // ---- which lines are reported -------------------------------------------------------------------

  ghost predicate InText(lines: seq<string>, nums: seq<nat>) {
    forall i :: 0 <= i < |nums| ==> 1 <= nums[i] <= |lines|
  }

  /** The numbers are those of the selected lines, in order. */
  ghost predicate AreSelected(o: Options, pat: string, lines: seq<string>, nums: seq<nat>) {
    && InText(lines, nums)
    && (forall i, j :: 0 <= i < j < |nums| ==> nums[i] < nums[j])
    && (forall n :: 1 <= n <= |lines| ==> (n in nums <==> Selected(o, pat, lines[n - 1])))
  }

  /** The lines with these numbers, each behind its prefix. */
  ghost function Numbered(o: Options, filename: string, lines: seq<string>, nums: seq<nat>): string
    requires InText(lines, nums)
  {
    if nums == [] then ""
    else
      var k := |nums| - 1;
      Numbered(o, filename, lines, nums[..k])
      + (Prefix(o, filename, nums[k]) + UpToNul(lines[nums[k] - 1]) + "\n")
  }

  lemma {:induction false} NumberedMore(o: Options, filename: string, lines: seq<string>, line: string, nums: seq<nat>)
    requires InText(lines, nums)
    ensures Numbered(o, filename, lines + [line], nums) == Numbered(o, filename, lines, nums)
  {
    hide Prefix;
    if nums != [] {
      NumberedMore(o, filename, lines, line, nums[..|nums| - 1]);
    }
  }

  lemma SelectedMore(o: Options, pat: string, lines: seq<string>, line: string, nums: seq<nat>)
    requires AreSelected(o, pat, lines, nums)
    ensures AreSelected(o, pat, lines + [line], if Selected(o, pat, line) then nums + [|lines| + 1] else nums)
  {
    hide Selected;
    var all, more := lines + [line], if Selected(o, pat, line) then nums + [|lines| + 1] else nums;
    forall n | 1 <= n <= |all|
      ensures n in more <==> Selected(o, pat, all[n - 1])
    {
      assert n in more <==> n in nums || (Selected(o, pat, line) && n == |lines| + 1);
    }
  }

  /** What is printed are the selected lines, each once, in order and with the number of its place in the text;
      their number is what is counted. */
  lemma {:induction false} PrintsSelected(o: Options, pat: string, filename: string, lines: seq<string>)
    returns (nums: seq<nat>)
    ensures AreSelected(o, pat, lines, nums) && |nums| == Matches(o, pat, lines)
    ensures Printed(o, pat, filename, lines) == if o.countOnly then "" else Numbered(o, filename, lines, nums)
  {
    hide Selected, Prefix, UpToNul;
    if lines == [] {
      nums := [];
    } else {
      hide AreSelected, Printed, Matches, Numbered;
      var init, line := lines[..|lines| - 1], lines[|lines| - 1];
      assert lines == init + [line];
      var before := PrintsSelected(o, pat, filename, init);
      PrintedStep(o, pat, filename, init, line);
      SelectedMore(o, pat, init, line, before);
      NumberedLast(o, pat, filename, init, line, before);
      nums := if Selected(o, pat, line) then before + [|lines|] else before;
    }
  }

  lemma NumberedLast(o: Options, pat: string, filename: string, lines: seq<string>, line: string, nums: seq<nat>)
    requires AreSelected(o, pat, lines, nums)
    ensures InText(lines, nums) && InText(lines + [line], nums + [|lines| + 1])
    ensures Numbered(o, filename, lines + [line], nums) == Numbered(o, filename, lines, nums)
    ensures Numbered(o, filename, lines + [line], nums + [|lines| + 1])
            == Numbered(o, filename, lines, nums) + (Prefix(o, filename, |lines| + 1) + UpToNul(line) + "\n")
  {
    hide Prefix, UpToNul;
    NumberedMore(o, filename, lines, line, nums);
    assert (nums + [|lines| + 1])[..|nums|] == nums;
  }

  /** With `invert` exactly the other lines are selected. */
  lemma {:induction false} InvertedLines(o: Options, pat: string, lines: seq<string>)
    ensures Matches(o, pat, lines) + Matches(o.(invert := !o.invert), pat, lines) == |lines|
    ensures forall i :: 0 <= i < |lines| ==>
              (Selected(o, pat, lines[i]) <==> !Selected(o.(invert := !o.invert), pat, lines[i]))
  {
    if lines != [] {
      InvertedLines(o, pat, lines[..|lines| - 1]);
      OtherLine(o, pat, lines[|lines| - 1]);
      forall i | 0 <= i < |lines|
        ensures Selected(o, pat, lines[i]) <==> !Selected(o.(invert := !o.invert), pat, lines[i])
      {
        OtherLine(o, pat, lines[i]);
      }
    }
  }

  lemma OtherLine(o: Options, pat: string, line: string)
    ensures Selected(o, pat, line) <==> !Selected(o.(invert := !o.invert), pat, line)
  {
    hide Matched, MatchedNoCase;
  }

  /** Without switches a line is selected exactly if some part of it is in the language of the pattern; with
      `invert` alone exactly if none is. */
  lemma SelectsWritten(o: Options, es: seq<Elem>, line: CString)
    requires Startable(es) && '\n' !in line && !o.icase
    ensures Selected(o, Show(es), line) <==>
            o.invert != exists j, k :: 0 <= j <= k <= |line| && InLanguage(es, line[j..k])
  {
    hide Matched, Show, Writable, InLanguage;
    UpToNulSame(line);
    FindsWritten(es, line);
  }

  /** A line is printed behind the name of its file and its number, each with a colon behind it. */
  lemma PrefixForms(o: Options, filename: string)
    ensures Prefix(o.(showFilename := true, showNum := true), filename, 12) == filename + ":12:"
    ensures Prefix(o.(showFilename := true, showNum := false), filename, 12) == filename + ":"
    ensures Prefix(o.(showFilename := false, showNum := true), filename, 12) == "12:"
    ensures Prefix(o.(showFilename := false, showNum := false), filename, 12) == ""
  {
    assert Decimal(12) == "12" by {
      assert Decimal(1) == "1";
    }
  }

  lemma Regroup(a: string, b: string, c: string)
    ensures (a + b) + c == a + (b + c)
  {
  }

  /** The inner loop: every line that is complete, or all of them when no more is to be read. */
  method TakeLines(input: Input, b: LineBuffer, g: Searcher, more: bool, ghost before: string)
    requires b.Open(input) && g.Reflects(b.lines, before)
    modifies b, b.buf, g, g.out
    ensures b.bufLen == old(b.bufLen)
    ensures b.Open(input) || (!more && b.Finished(input))
    ensures b.lineStart < b.bufLen ==> more && '\n' !in b.buf[b.lineStart..b.bufLen]
    ensures g.Reflects(b.lines, before)
  {
    while b.lineStart < b.bufLen
      invariant b.bufLen == old(b.bufLen)
      invariant b.Open(input) || (!more && b.Finished(input))
      invariant g.Reflects(b.lines, before)
      decreases b.bufLen - b.lineStart
    {
      hide Split, Selected, Printed, Matches;
      ghost var lines := b.lines;
      var got, line := b.TakeLine(input, more);
      if !got {
        break;
      }
      g.Line(line, lines, before);
    }
  }

  /** grep_stream. However the reads cut up the stream, the output is that for the newline-separated lines of
      what has been read. If no read fails, everything is read exactly if nothing comes behind 65535 characters
      without a newline; then the output is that for the lines of the whole stream. */
  method GrepStream(input: Input, pat: CString, filename: string, o: Options, out: Stdout) returns (ret: int)
    requires input.delivered == "" && !input.failed
    modifies input, out
    ensures out.text == old(out.text) + Report(o, pat, filename, Split(input.delivered))
    ensures ret == if Matches(o, pat, Split(input.delivered)) > 0 then 0 else 1
    ensures input.delivered + input.rest == old(input.rest)
    ensures !input.failed ==> (input.rest == "" <==> !StopsEarly(old(input.rest)))
    ensures !input.failed && !StopsEarly(old(input.rest)) ==>
      && out.text == old(out.text) + Report(o, pat, filename, Split(old(input.rest)))
      && ret == if Matches(o, pat, Split(old(input.rest))) > 0 then 0 else 1
  {
    hide Split, Printed, Matches, CountLine, Selected, Matched, MatchedNoCase, StopsEarly, Closed;
    PrintedNone(o, pat, filename);
    var b := new LineBuffer(input);
    var g := new Searcher(o, pat, filename, out);
    while true
      invariant fresh(b) && fresh(b.buf) && fresh(g) && g.out == out && g.o == o && g.pat == pat
                && g.filename == filename
      invariant b.Ready(input) && g.Reflects(b.lines, old(out.text))
      invariant input.delivered + input.rest == old(input.rest)
      decreases |input.rest|
    {
      var n := b.Fill(input);
      if n <= 0 && b.bufLen == b.lineStart {
        break;
      }
      TakeLines(input, b, g, n > 0, old(out.text));
      b.Shift(input);
      if n <= 0 {
        break;
      }
    }
    g.PrintCount(b.lines);
    Regroup(old(out.text), Printed(o, pat, filename, b.lines), CountLine(o, pat, filename, b.lines));
    ret := g.ret;
    AllDelivered(input.delivered, input.rest);
  }
}
