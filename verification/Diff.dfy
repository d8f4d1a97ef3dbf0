// tools/diff.c: the edit script between two line arrays.
//
// The comparison is greedy: where the lines differ it looks less than a hundred lines ahead for a line of
// one file that matches the current line of the other. The script need not be the shortest one, but it
// turns the first file into the second, and back.

module Diff {
  import opened CStrings
  import opened Lines
  import opened Options

  /** A hunk of the printed script, with line numbers from 1 on. */
  datatype Hunk =
    | Delete(first: nat, last: nat, after: nat, gone: seq<CString>)
    | Add(after: nat, first: nat, last: nat, come: seq<CString>)
    | Change(line: nat, newLine: nat, was: CString, now: CString)

  // ---- what a script means ----------------------------------------------------------------------

  /** How many lines of either file lie before the end of a hunk. */
  function EndA(h: Hunk): nat {
    match h
    case Delete(first, last, after, gone) => last
    case Add(after, first, last, come) => after
    case Change(line, newLine, was, now) => line
  }

  function EndB(h: Hunk): nat {
    match h
    case Delete(first, last, after, gone) => after
    case Add(after, first, last, come) => last
    case Change(line, newLine, was, now) => newLine
  }

  /** Patching `a` with one hunk: `pos` lines of it have been used, `out` is the new file so far. The hunk
      must find the old lines it names, and have the line numbers of the place in either file. */
  function ApplyHunk(h: Hunk, a: seq<CString>, pos: nat, out: seq<CString>): (r: Option<seq<CString>>)
    requires pos <= |a|
    ensures r.Some? ==> EndA(h) <= |a|
  {
    match h
    case Delete(first, last, after, gone) =>
      if pos < first <= last <= |a| && a[first - 1..last] == gone && |out| + (first - 1 - pos) == after
      then Some(out + a[pos..first - 1])
      else None
    case Add(after, first, last, come) =>
      if pos <= after <= |a| && first <= last && |come| == last - first + 1 && |out| + (after - pos) + 1 == first
      then Some(out + a[pos..after] + come)
      else None
    case Change(line, newLine, was, now) =>
      if pos < line <= |a| && a[line - 1] == was && |out| + (line - 1 - pos) + 1 == newLine
      then Some(out + a[pos..line - 1] + [now])
      else None
  }

  function Apply(script: seq<Hunk>, a: seq<CString>, pos: nat, out: seq<CString>): Option<seq<CString>>
    requires pos <= |a|
  {
    if script == [] then Some(out + a[pos..]) else
    match ApplyHunk(script[0], a, pos, out)
    case None => None
    case Some(more) => Apply(script[1..], a, EndA(script[0]), more)
  }

  /** The hunk that undoes a hunk. */
  function Inverse(h: Hunk): Hunk {
    match h
    case Delete(first, last, after, gone) => Add(after, first, last, gone)
    case Add(after, first, last, come) => Delete(first, last, after, come)
    case Change(line, newLine, was, now) => Change(newLine, line, now, was)
  }

  function Reversed(script: seq<Hunk>): (r: seq<Hunk>)
    ensures |r| == |script|
  {
    if script == [] then [] else [Inverse(script[0])] + Reversed(script[1..])
  }

  // ---- the script of the program ---------------------------------------------------------------

  datatype Sync = NoSync | Gone(look: nat) | Come(look: nat)

  const LOOK := 100

  ghost predicate InA(a: seq<CString>, b: seq<CString>, ia: nat, ib: nat, look: nat) {
    ib < |b| && ia + look < |a| && a[ia + look] == b[ib]
  }

  ghost predicate InB(a: seq<CString>, b: seq<CString>, ia: nat, ib: nat, look: nat) {
    ia < |a| && ib + look < |b| && a[ia] == b[ib + look]
  }

  /** The smallest distance at which a line matches the current line of the other file; the first file goes
      before the second at equal distance. */
  ghost predicate IsSync(a: seq<CString>, b: seq<CString>, ia: nat, ib: nat, s: Sync) {
    match s
    case NoSync => forall k :: 1 <= k < LOOK ==> !InA(a, b, ia, ib, k) && !InB(a, b, ia, ib, k)
    case Gone(look) =>
      1 <= look < LOOK && InA(a, b, ia, ib, look)
      && forall k :: 1 <= k < look ==> !InA(a, b, ia, ib, k) && !InB(a, b, ia, ib, k)
    case Come(look) =>
      1 <= look < LOOK && InB(a, b, ia, ib, look) && !InA(a, b, ia, ib, look)
      && forall k :: 1 <= k < look ==> !InA(a, b, ia, ib, k) && !InB(a, b, ia, ib, k)
  }

  ghost function FindSync(a: seq<CString>, b: seq<CString>, ia: nat, ib: nat, look: nat): (s: Sync)
    requires 1 <= look <= LOOK
    requires forall k :: 1 <= k < look ==> !InA(a, b, ia, ib, k) && !InB(a, b, ia, ib, k)
    ensures IsSync(a, b, ia, ib, s)
    decreases LOOK - look
  {
    if look == LOOK then NoSync
    else if InA(a, b, ia, ib, look) then Gone(look)
    else if InB(a, b, ia, ib, look) then Come(look)
    else FindSync(a, b, ia, ib, look + 1)
  }

  lemma SyncUnique(a: seq<CString>, b: seq<CString>, ia: nat, ib: nat, s: Sync, t: Sync)
    requires IsSync(a, b, ia, ib, s) && IsSync(a, b, ia, ib, t)
    ensures s == t
  {
    hide InA, InB;
  }

  /** A match at a distance of up to 99 lines is looked for, and none beyond. */
  lemma LooksAhead(a: seq<CString>, b: seq<CString>, ia: nat, ib: nat, look: nat)
    requires look >= 1 && InA(a, b, ia, ib, look)
    requires forall k :: 1 <= k ==> !InB(a, b, ia, ib, k) && (k != look ==> !InA(a, b, ia, ib, k))
    ensures IsSync(a, b, ia, ib, if look <= 99 then Gone(look) else NoSync)
  {
    hide InA, InB;
  }

  /** A hunk that describes exactly how the files differ at its place: the lines before it are equal, and
      it accounts for the lines of either file up to its end. */
  ghost predicate FitsHunk(h: Hunk, a: seq<CString>, b: seq<CString>, ia: nat, ib: nat) {
    match h
    case Delete(first, last, after, gone) =>
      && ia < first <= last <= |a| && ib <= after <= |b|
      && a[ia..first - 1] == b[ib..after] && gone == a[first - 1..last]
    case Add(after, first, last, come) =>
      && ib < first <= last <= |b| && ia <= after <= |a|
      && a[ia..after] == b[ib..first - 1] && come == b[first - 1..last]
    case Change(line, newLine, was, now) =>
      && ia < line <= |a| && ib < newLine <= |b|
      && a[ia..line - 1] == b[ib..newLine - 1] && a[line - 1] == was && b[newLine - 1] == now
  }

  /** The hunk printed where the files differ, or where one of them has ended. */
  ghost function NextHunk(a: seq<CString>, b: seq<CString>, ia: nat, ib: nat): (h: Hunk)
    requires ia <= |a| && ib <= |b| && (ia < |a| || ib < |b|)
    ensures FitsHunk(h, a, b, ia, ib)
  {
    if ib == |b| then Delete(ia + 1, |a|, |b|, a[ia..])
    else if ia == |a| then Add(|a|, ib + 1, |b|, b[ib..])
    else match FindSync(a, b, ia, ib, 1)
         case Gone(look) => Delete(ia + 1, ia + look, ib, a[ia..ia + look])
         case Come(look) => Add(ia, ib + 1, ib + look, b[ib..ib + look])
         case NoSync => Change(ia + 1, ib + 1, a[ia], b[ib])
  }

  /** The hunks for the lines from `ia` and `ib` on. */
  ghost function Script(a: seq<CString>, b: seq<CString>, ia: nat, ib: nat): seq<Hunk>
    requires ia <= |a| && ib <= |b|
    decreases |a| - ia + |b| - ib
  {
    if ia == |a| && ib == |b| then []
    else if ia < |a| && ib < |b| && a[ia] == b[ib] then Script(a, b, ia + 1, ib + 1)
    else
      var h := NextHunk(a, b, ia, ib);
      [h] + Script(a, b, EndA(h), EndB(h))
  }

  // ---- it is correct, in both directions ----------------------------------------------------------

  ghost predicate Fits(script: seq<Hunk>, a: seq<CString>, b: seq<CString>, ia: nat, ib: nat)
    requires ia <= |a| && ib <= |b|
  {
    if script == [] then a[ia..] == b[ib..]
    else FitsHunk(script[0], a, b, ia, ib) && Fits(script[1..], a, b, EndA(script[0]), EndB(script[0]))
  }

  lemma FitsSkip(script: seq<Hunk>, a: seq<CString>, b: seq<CString>, ia: nat, ib: nat)
    requires ia < |a| && ib < |b| && a[ia] == b[ib] && Fits(script, a, b, ia + 1, ib + 1)
    ensures Fits(script, a, b, ia, ib)
  {
    if script == [] {
      assert a[ia..] == [a[ia]] + a[ia + 1..] && b[ib..] == [b[ib]] + b[ib + 1..];
    } else {
      FitsHunkSkip(script[0], a, b, ia, ib);
    }
  }

  lemma FitsHunkSkip(h: Hunk, a: seq<CString>, b: seq<CString>, ia: nat, ib: nat)
    requires ia < |a| && ib < |b| && a[ia] == b[ib] && FitsHunk(h, a, b, ia + 1, ib + 1)
    ensures FitsHunk(h, a, b, ia, ib)
  {
    match h
    case Delete(first, last, after, gone) => Longer(a, b, ia, ib, first - 1, after);
    case Add(after, first, last, come) => Longer(a, b, ia, ib, after, first - 1);
    case Change(line, newLine, was, now) => Longer(a, b, ia, ib, line - 1, newLine - 1);
  }

  lemma Longer(a: seq<CString>, b: seq<CString>, ia: nat, ib: nat, i: nat, j: nat)
    requires ia < i <= |a| && ib < j <= |b| && a[ia] == b[ib] && a[ia + 1..i] == b[ib + 1..j]
    ensures a[ia..i] == b[ib..j]
  {
    assert a[ia..i] == [a[ia]] + a[ia + 1..i];
    assert b[ib..j] == [b[ib]] + b[ib + 1..j];
  }

  lemma {:induction false} ScriptFits(a: seq<CString>, b: seq<CString>, ia: nat, ib: nat)
    requires ia <= |a| && ib <= |b|
    ensures Fits(Script(a, b, ia, ib), a, b, ia, ib)
    decreases |a| - ia + |b| - ib
  {
    hide FindSync;
    if ia < |a| || ib < |b| {
      if ia < |a| && ib < |b| && a[ia] == b[ib] {
        ScriptFits(a, b, ia + 1, ib + 1);
        FitsSkip(Script(a, b, ia + 1, ib + 1), a, b, ia, ib);
      } else {
        var h := NextHunk(a, b, ia, ib);
        hide NextHunk;
        ScriptFits(a, b, EndA(h), EndB(h));
      }
    }
  }

  lemma {:induction false} FitsReversed(script: seq<Hunk>, a: seq<CString>, b: seq<CString>, ia: nat, ib: nat)
    requires ia <= |a| && ib <= |b| && Fits(script, a, b, ia, ib)
    ensures Fits(Reversed(script), b, a, ib, ia)
  {
    if script != [] {
      FitsInverse(script[0], a, b, ia, ib);
      hide FitsHunk, Inverse, EndA, EndB;
      FitsReversed(script[1..], a, b, EndA(script[0]), EndB(script[0]));
    }
  }

  lemma FitsInverse(h: Hunk, a: seq<CString>, b: seq<CString>, ia: nat, ib: nat)
    requires FitsHunk(h, a, b, ia, ib)
    ensures FitsHunk(Inverse(h), b, a, ib, ia) && EndA(Inverse(h)) == EndB(h) && EndB(Inverse(h)) == EndA(h)
    ensures EndA(h) <= |a| && EndB(h) <= |b|
  {
  }

  lemma {:induction false} FitsApplies(script: seq<Hunk>, a: seq<CString>, b: seq<CString>, ia: nat, ib: nat)
    requires ia <= |a| && ib <= |b| && Fits(script, a, b, ia, ib)
    ensures Apply(script, a, ia, b[..ib]) == Some(b)
  {
    if script == [] {
      assert b[..ib] + b[ib..] == b;
    } else {
      FitsHunkApplies(script[0], a, b, ia, ib);
      hide FitsHunk, ApplyHunk;
      FitsApplies(script[1..], a, b, EndA(script[0]), EndB(script[0]));
    }
  }

  lemma FitsHunkApplies(h: Hunk, a: seq<CString>, b: seq<CString>, ia: nat, ib: nat)
    requires ia <= |a| && ib <= |b| && FitsHunk(h, a, b, ia, ib)
    ensures EndA(h) <= |a| && EndB(h) <= |b| && ApplyHunk(h, a, ia, b[..ib]) == Some(b[..EndB(h)])
  {
    match h
    case Delete(first, last, after, gone) =>
      assert |a[ia..first - 1]| == |b[ib..after]|;
      assert b[..ib] + b[ib..after] == b[..after];
    case Add(after, first, last, come) =>
      assert |a[ia..after]| == |b[ib..first - 1]|;
      assert b[..ib] + b[ib..first - 1] + b[first - 1..last] == b[..last];
    case Change(line, newLine, was, now) =>
      assert |a[ia..line - 1]| == |b[ib..newLine - 1]|;
      assert b[..ib] + b[ib..newLine - 1] + [b[newLine - 1]] == b[..newLine];
  }

  /** The script turns the first file into the second; reversed, the second into the first. */
  lemma ScriptCorrect(a: seq<CString>, b: seq<CString>)
    ensures Apply(Script(a, b, 0, 0), a, 0, []) == Some(b)
    ensures Apply(Reversed(Script(a, b, 0, 0)), b, 0, []) == Some(a)
  {
    var script := Script(a, b, 0, 0);
    ScriptFits(a, b, 0, 0);
    FitsApplies(script, a, b, 0, 0);
    FitsReversed(script, a, b, 0, 0);
    FitsApplies(Reversed(script), b, a, 0, 0);
    assert a[..0] == [] && b[..0] == [];
  }

  lemma {:induction false} SameFrom(a: seq<CString>, b: seq<CString>, ia: nat, ib: nat)
    requires ia <= |a| && ib <= |b| && a[ia..] == b[ib..]
    ensures Script(a, b, ia, ib) == []
    decreases |a| - ia
  {
    assert |a[ia..]| == |b[ib..]|;
    if ia < |a| {
      assert a[ia] == a[ia..][0] && b[ib] == b[ib..][0];
      assert a[ia + 1..] == a[ia..][1..] && b[ib + 1..] == b[ib..][1..];
      SameFrom(a, b, ia + 1, ib + 1);
    }
  }

  /** Nothing is printed exactly for equal files. */
  lemma EmptyIffEqual(a: seq<CString>, b: seq<CString>)
    ensures Script(a, b, 0, 0) == [] <==> a == b
  {
    ScriptFits(a, b, 0, 0);
    assert a[0..] == a && b[0..] == b;
    if a == b {
      SameFrom(a, b, 0, 0);
    }
  }

  // ---- printing -------------------------------------------------------------------------------------

  function Range(first: nat, last: nat): string {
    Decimal(first) + if first == last then "" else "," + Decimal(last)
  }

  function Marked(mark: string, lines: seq<CString>): string {
    if lines == [] then "" else mark + lines[0] + "\n" + Marked(mark, lines[1..])
  }

  function Text(h: Hunk): string {
    match h
    case Delete(first, last, after, gone) => Range(first, last) + "d" + Decimal(after) + "\n" + Marked("< ", gone)
    case Add(after, first, last, come) => Decimal(after) + "a" + Range(first, last) + "\n" + Marked("> ", come)
    case Change(line, newLine, was, now) =>
      Decimal(line) + "c" + Decimal(newLine) + "\n< " + was + "\n---\n> " + now + "\n"
  }

  function AllText(script: seq<Hunk>): string {
    if script == [] then "" else Text(script[0]) + AllText(script[1..])
  }

  method PrintNumber(n: nat, out: Stdout)
    modifies out
    ensures out.text == old(out.text) + Decimal(n)
  {
    var num := UlongToStr(n);
    out.Print(num);
  }

  method PrintRange(first: nat, last: nat, out: Stdout)
    modifies out
    ensures out.text == old(out.text) + Range(first, last)
  {
    hide Decimal;
    PrintNumber(first, out);
    if first != last {
      out.Print(",");
      PrintNumber(last, out);
    }
  }

  method PrintMarked(mark: string, lines: seq<CString>, from: nat, to: nat, out: Stdout)
    requires from <= to <= |lines|
    modifies out
    ensures out.text == old(out.text) + Marked(mark, lines[from..to])
  {
    var k := from;
    while k < to
      invariant from <= k <= to
      invariant out.text + Marked(mark, lines[k..to]) == old(out.text) + Marked(mark, lines[from..to])
    {
      ghost var rest := lines[k + 1..to];
      assert lines[k..to] == [lines[k]] + rest;
      assert Marked(mark, lines[k..to]) == mark + lines[k] + "\n" + Marked(mark, rest);
      out.Print(mark);
      out.Print(lines[k]);
      out.Print("\n");
      k := k + 1;
    }
    assert lines[k..to] == [];
    assert out.text + "" == out.text;
  }

  method PrintDelete(a: seq<CString>, ia: nat, last: nat, ib: nat, out: Stdout)
    requires ia < last <= |a|
    modifies out
    ensures out.text == old(out.text) + Text(Delete(ia + 1, last, ib, a[ia..last]))
  {
    hide Range, Marked, Decimal;
    PrintRange(ia + 1, last, out);
    out.Print("d");
    PrintNumber(ib, out);
    out.Print("\n");
    PrintMarked("< ", a, ia, last, out);
  }

  method PrintAdd(b: seq<CString>, ia: nat, ib: nat, last: nat, out: Stdout)
    requires ib < last <= |b|
    modifies out
    ensures out.text == old(out.text) + Text(Add(ia, ib + 1, last, b[ib..last]))
  {
    hide Range, Marked, Decimal;
    PrintNumber(ia, out);
    out.Print("a");
    PrintRange(ib + 1, last, out);
    out.Print("\n");
    PrintMarked("> ", b, ib, last, out);
  }

  method PrintChange(a: CString, b: CString, ia: nat, ib: nat, out: Stdout)
    modifies out
    ensures out.text == old(out.text) + Text(Change(ia + 1, ib + 1, a, b))
  {
    hide Decimal;
    ghost var before, na, nb := out.text, Decimal(ia + 1), Decimal(ib + 1);
    PrintNumber(ia + 1, out);
    out.Print("c");
    PrintNumber(ib + 1, out);
    out.Print("\n< ");
    assert out.text == before + (na + "c" + nb + "\n< ");
    out.Print(a);
    out.Print("\n---\n> ");
    assert out.text == before + (na + "c" + nb + "\n< " + a + "\n---\n> ");
    out.Print(b);
    out.Print("\n");
  }

  /** What is printed and what is still to be printed. */
  ghost predicate Progress(a: seq<CString>, b: seq<CString>, ia: nat, ib: nat, text: string, before: string)
  {
    ia <= |a| && ib <= |b| && text + AllText(Script(a, b, ia, ib)) == before + AllText(Script(a, b, 0, 0))
  }

  lemma Printed(a: seq<CString>, b: seq<CString>, ia: nat, ib: nat, text: string, before: string)
    requires Progress(a, b, ia, ib, text, before)
    requires (ia < |a| || ib < |b|) && !(ia < |a| && ib < |b| && a[ia] == b[ib])
    ensures var h := NextHunk(a, b, ia, ib);
            EndA(h) <= |a| && EndB(h) <= |b| && ia + ib < EndA(h) + EndB(h) && ia <= EndA(h) && ib <= EndB(h)
            && Progress(a, b, EndA(h), EndB(h), text + Text(h), before)
  {
    hide NextHunk, Text;
    var h := NextHunk(a, b, ia, ib);
    var rest := Script(a, b, EndA(h), EndB(h));
    assert ([h] + rest)[1..] == rest;
    assert text + (Text(h) + AllText(rest)) == (text + Text(h)) + AllText(rest);
  }

  lemma SyncHunk(a: seq<CString>, b: seq<CString>, ia: nat, ib: nat, s: Sync)
    requires ia < |a| && ib < |b| && IsSync(a, b, ia, ib, s)
    ensures NextHunk(a, b, ia, ib) ==
            match s
            case Gone(look) => Delete(ia + 1, ia + look, ib, a[ia..ia + look])
            case Come(look) => Add(ia, ib + 1, ib + look, b[ib..ib + look])
            case NoSync => Change(ia + 1, ib + 1, a[ia], b[ib])
  {
    hide FindSync;
    SyncUnique(a, b, ia, ib, FindSync(a, b, ia, ib, 1), s);
  }

  /** The look-ahead: the hunk is printed and the position behind it returned, unless there is no match. */
  method LookAhead(a: seq<CString>, b: seq<CString>, ia0: nat, ib0: nat, out: Stdout)
    returns (found: bool, ia: nat, ib: nat)
    requires ia0 < |a| && ib0 < |b| && a[ia0] != b[ib0]
    modifies out
    ensures var h := NextHunk(a, b, ia0, ib0);
            if found then ia == EndA(h) && ib == EndB(h) && out.text == old(out.text) + Text(h)
            else ia == ia0 && ib == ib0 && out.text == old(out.text) && h == Change(ia + 1, ib + 1, a[ia], b[ib])
  {
    hide Text, NextHunk;
    ia, ib, found := ia0, ib0, false;
    var look := 1;
    while look < LOOK && !found
      invariant 1 <= look <= LOOK
      invariant !found ==> ia == ia0 && ib == ib0 && out.text == old(out.text)
      invariant !found ==> forall k :: 1 <= k < look ==> !InA(a, b, ia, ib, k) && !InB(a, b, ia, ib, k)
      invariant found ==>
        var h := NextHunk(a, b, ia0, ib0);
        ia == EndA(h) && ib == EndB(h) && out.text == old(out.text) + Text(h)
    {
      if ia + look < |a| {
        var cmp := StrCmp(a[ia + look], b[ib]);
        if cmp == 0 {
          SyncHunk(a, b, ia, ib, Gone(look));
          PrintDelete(a, ia, ia + look, ib, out);
          ia := ia + look;
          found := true;
        }
      }
      if !found && ib + look < |b| {
        var cmp := StrCmp(a[ia], b[ib + look]);
        if cmp == 0 {
          SyncHunk(a, b, ia, ib, Come(look));
          PrintAdd(b, ia, ib, ib + look, out);
          ib := ib + look;
          found := true;
        }
      }
      look := look + 1;
    }
    if !found {
      SyncHunk(a, b, ia, ib, NoSync);
    }
  }

  /** simple_diff: prints the hunks. Every turn uses up lines of one file or the other. */
  method SimpleDiff(a: seq<CString>, b: seq<CString>, out: Stdout)
    modifies out
    ensures out.text == old(out.text) + AllText(Script(a, b, 0, 0))
  {
    hide AllText, Text, FindSync;
    var ia: nat, ib: nat := 0, 0;
    while ia < |a| && ib < |b|
      invariant Progress(a, b, ia, ib, out.text, old(out.text))
      decreases |a| - ia + |b| - ib
    {
      var cmp := StrCmp(a[ia], b[ib]);
      if cmp == 0 {
        ia, ib := ia + 1, ib + 1;
      } else {
        Printed(a, b, ia, ib, out.text, old(out.text));
        var found;
        found, ia, ib := LookAhead(a, b, ia, ib, out);
        if !found {
          PrintChange(a[ia], b[ib], ia, ib, out);
          ia, ib := ia + 1, ib + 1;
        }
      }
    }
    if ia < |a| {
      Printed(a, b, ia, ib, out.text, old(out.text));
      PrintDelete(a, ia, |a|, |b|, out);
      assert a[ia..|a|] == a[ia..];
      ia := |a|;
    }
    if ib < |b| {
      Printed(a, b, ia, ib, out.text, old(out.text));
      PrintAdd(b, |a|, ib, |b|, out);
      assert b[ib..|b|] == b[ib..];
      ib := |b|;
    }
    NothingLeft();
    assert out.text + "" == out.text;
  }

  lemma NothingLeft()
    ensures AllText([]) == ""
  {
  }

  /** The comparison of diff_main: status 0 and no output exactly for equal files, otherwise 1 and the
      script. */
  method DiffLines(a: seq<CString>, b: seq<CString>, out: Stdout) returns (status: int)
    modifies out
    ensures status == if a == b then 0 else 1
    ensures out.text == old(out.text) + AllText(Script(a, b, 0, 0))
  {
    hide Script, AllText;
    if |a| == |b| {
      var same, i := true, 0;
      while i < |a| && same
        invariant i <= |a| && (same <==> a[..i] == b[..i]) && out.text == old(out.text)
      {
        var cmp := StrCmp(a[i], b[i]);
        if cmp != 0 {
          same := false;
        }
        i := i + 1;
      }
      if same {
        EmptyIffEqual(a, b);
        NothingLeft();
        assert out.text + "" == out.text;
        return 0;
      }
    }
    SimpleDiff(a, b, out);
    return 1;
  }
}
