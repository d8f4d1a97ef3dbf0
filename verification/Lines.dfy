// The chunked line splitter that grep and uniq share: a 64 KiB buffer filled by reads of any size,
// from which complete lines are taken and the rest is moved down.

module Lines {
  import opened CStrings

  const BUFSIZE := 65536

  // ---- lines -----------------------------------------------------------------------------

  function LineLength(s: string): (n: nat)
    ensures n <= |s| && '\n' !in s[..n]
    ensures n < |s| ==> s[n] == '\n'
  {
    if s == "" || s[0] == '\n' then 0 else
      assert s[..1 + LineLength(s[1..])] == [s[0]] + s[1..][..LineLength(s[1..])];
      1 + LineLength(s[1..])
  }

  /** The lines of a text: what stands between newlines. A last line may lack its newline, but not be empty. */
  function Split(s: string): seq<string> {
    if s == "" then []
    else
      var n := LineLength(s);
      if n == |s| then [s] else [s[..n]] + Split(s[n + 1..])
  }

  function Join(lines: seq<string>): string {
    if lines == [] then "" else lines[0] + "\n" + Join(lines[1..])
  }

  /** The text is empty or ends with a newline. */
  predicate Closed(s: string) {
    s == "" || s[|s| - 1] == '\n'
  }

  /** The first newline is at `n`. */
  ghost predicate NewlineAt(s: string, n: nat) {
    n < |s| && s[n] == '\n' && '\n' !in s[..n]
  }

  lemma {:induction false} LineLengthAt(s: string, n: nat)
    requires NewlineAt(s, n)
    ensures LineLength(s) == n
    decreases n
  {
    if n != 0 {
      assert s[0] in s[..n];
      assert s[1..][..n - 1] == s[..n][1..];
      LineLengthAt(s[1..], n - 1);
    }
  }

  lemma {:induction false} LineLengthAll(s: string)
    requires '\n' !in s
    ensures LineLength(s) == |s|
  {
    if s != "" {
      LineLengthAll(s[1..]);
    }
  }

  lemma SplitLine(s: string, n: nat)
    requires NewlineAt(s, n)
    ensures Split(s) == [s[..n]] + Split(s[n + 1..])
  {
    LineLengthAt(s, n);
  }

  lemma NewlineAppend(s: string, n: nat, t: string)
    requires NewlineAt(s, n)
    ensures NewlineAt(s + t, n) && (s + t)[..n] == s[..n] && (s + t)[n + 1..] == s[n + 1..] + t
  {
  }

  lemma ClosedLine(s: string)
    requires s != "" && Closed(s)
    ensures NewlineAt(s, LineLength(s)) && Closed(s[LineLength(s) + 1..])
  {
    assert s[..|s|] == s;
  }

  lemma JoinLine(l: string, lines: seq<string>)
    ensures Join([l] + lines) == l + "\n" + Join(lines)
  {
    assert ([l] + lines)[1..] == lines;
  }

  lemma Reassemble(s: string, n: nat)
    requires NewlineAt(s, n)
    ensures s == s[..n] + "\n" + s[n + 1..]
    ensures s[..n] + "\n" + (s[n + 1..] + "\n") == s + "\n"
  {
  }

  /** Splitting loses nothing but the information whether the last newline was there, and no line
      contains a newline: the lines are determined by that. */
  lemma {:induction false} SplitJoin(s: string)
    ensures Join(Split(s)) == if Closed(s) then s else s + "\n"
    ensures forall i :: 0 <= i < |Split(s)| ==> '\n' !in Split(s)[i]
    decreases |s|
  {
    hide LineLength, Join;
    if s == "" {
      JoinNone();
    } else {
      var n := LineLength(s);
      if n == |s| {
        assert s[..n] == s;
        JoinNone();
        JoinLine(s, []);
        assert [s] + [] == [s];
      } else {
        var t := s[n + 1..];
        SplitJoin(t);
        JoinLine(s[..n], Split(t));
        Reassemble(s, n);
      }
    }
  }

  lemma JoinNone()
    ensures Join([]) == ""
  {
  }

  /** Splitting goes on after a complete line. */
  lemma {:induction false} SplitAppend(s: string, t: string)
    requires Closed(s)
    ensures Split(s + t) == Split(s) + Split(t)
    decreases |s|
  {
    hide LineLength, Split, Closed;
    if s == "" {
      assert s + t == t;
      SplitNone();
    } else {
      var n := LineLength(s);
      ClosedLine(s);
      NewlineAppend(s, n, t);
      SplitLine(s, n);
      SplitLine(s + t, n);
      SplitAppend(s[n + 1..], t);
    }
  }

  lemma SplitNone()
    ensures Split("") == []
  {
  }

  lemma SplitOne(l: string)
    requires '\n' !in l
    ensures Split(l + "\n") == [l] && (l != "" ==> Split(l) == [l])
  {
    LineLengthAll(l);
    var s := l + "\n";
    assert s[..|l|] == l && s[|l| + 1..] == "";
    LineLengthAt(s, |l|);
  }

  /** Moving a complete line from what is left to what is consumed. */
  lemma Consume(consumed: string, line: string, rest: string, all: string)
    requires Closed(consumed) && '\n' !in line && all == consumed + (line + "\n" + rest)
    ensures Closed(consumed + (line + "\n")) && all == (consumed + (line + "\n")) + rest
    ensures Split(consumed + (line + "\n")) == Split(consumed) + [line]
  {
    SplitOne(line);
    SplitAppend(consumed, line + "\n");
  }

  /** A stretch without newlines lies within one line. */
  lemma {:induction false} LongLine(s: string, i: nat, j: nat) returns (k: nat)
    requires i < j <= |s| && '\n' !in s[i..j]
    ensures k < |Split(s)| && |Split(s)[k]| >= j - i
    decreases |s|
  {
    hide LineLength;
    var n := LineLength(s);
    if n == |s| {
      k := 0;
    } else {
      Outside(s, i, j, n);
      if j <= n {
        k := 0;
      } else {
        var t := s[n + 1..];
        assert t[i - n - 1..j - n - 1] == s[i..j];
        k := LongLine(t, i - n - 1, j - n - 1);
        k := k + 1;
      }
    }
  }

  lemma Outside(s: string, i: nat, j: nat, n: nat)
    requires i < j <= |s| && '\n' !in s[i..j] && n < |s| && s[n] == '\n'
    ensures n < i || j <= n
  {
    if i <= n < j {
      InSlice(s, i, j, n);
    }
  }

  lemma InSlice(s: string, i: nat, j: nat, n: nat)
    requires i <= n < j <= |s|
    ensures s[n] in s[i..j]
  {
    assert s[i..j][n - i] == s[n];
  }

  // ---- a file to read ----------------------------------------------------------------------

  /** A file descriptor open for reading. */
  class Input {
    var rest: string
    ghost var delivered: string
    ghost var failed: bool

    constructor (all: string)
      ensures rest == all && delivered == "" && !failed
    {
      rest, delivered, failed := all, "", false;
    }

    /** sys_read: any positive number of the bytes asked for that are there, nothing at the end of the
        file or when nothing is asked for, or an error. */
    method Read(buf: array<char>, at: nat, max: nat) returns (n: int)
      requires at + max <= buf.Length
      modifies this, buf
      ensures n <= max
      ensures n <= 0 ==> delivered == old(delivered) && rest == old(rest) && buf[..] == old(buf[..])
      ensures n <= 0 ==> failed || rest == "" || max == 0
      ensures n > 0 ==> failed == old(failed) && n <= |old(rest)| && rest == old(rest)[n..]
      ensures n > 0 ==> delivered == old(delivered) + old(rest)[..n]
      ensures n > 0 ==> buf[..at] == old(buf[..at]) && buf[at..at + n] == old(rest)[..n]
      ensures old(failed) ==> failed
    {
      n := *;
      if n > max { n := max; }
      if n > |rest| { n := |rest|; }
      if n <= 0 {
        failed := failed || !(rest == "" || max == 0);
        return;
      }
      var i := 0;
      while i < n
        invariant 0 <= i <= n && rest == old(rest) && delivered == old(delivered) && failed == old(failed)
        invariant buf[..at] == old(buf[..at]) && buf[at..at + i] == rest[..i]
      {
        buf[at + i] := rest[i];
        assert buf[at..at + i + 1] == buf[at..at + i] + [rest[i]];
        i := i + 1;
      }
      delivered, rest := delivered + rest[..n], rest[n..];
    }
  }

  /** A run of characters without a newline that fills the whole buffer. */
  ghost predicate RunAt(s: string, i: nat) {
    i + BUFSIZE - 1 <= |s| && '\n' !in s[i..i + BUFSIZE - 1]
  }

  /** Something comes behind such a run: reading stops when the buffer is full of it. */
  ghost predicate StopsEarly(s: string) {
    exists i: nat :: RunAt(s, i) && i + BUFSIZE - 1 < |s|
  }

  ghost predicate AllShort(lines: seq<string>) {
    forall k :: 0 <= k < |lines| ==> |lines[k]| < BUFSIZE - 1
  }

  /** If every line is shorter than the buffer, no run fills it. */
  lemma ShortLines(all: string)
    requires AllShort(Split(all))
    ensures !StopsEarly(all)
  {
    hide Split;
    if StopsEarly(all) {
      var i: nat :| RunAt(all, i) && i + BUFSIZE - 1 < |all|;
      var k := LongLine(all, i, i + BUFSIZE - 1);
    }
  }

  /** 65536 characters without a newline are too many, 65535 are not. */
  lemma TooLongLine(s: string)
    requires '\n' !in s && 65535 <= |s| <= 65536
    ensures StopsEarly(s) <==> |s| == 65536
  {
    if |s| == BUFSIZE {
      assert RunAt(s, 0);
    }
  }

  /** What has been read in short lines and less than a buffer contains a run only if that is the whole
      buffer. */
  lemma OnlyFullBuffer(consumed: string, held: string, i: nat)
    requires Closed(consumed) && AllShort(Split(consumed)) && |held| <= BUFSIZE - 1 && RunAt(consumed + held, i)
    ensures i == |consumed| && |held| == BUFSIZE - 1
  {
    hide Split;
    var s, j := consumed + held, i + BUFSIZE - 1;
    if i < |consumed| {
      if j > |consumed| {
        InSlice(s, i, j, |consumed| - 1);
      } else {
        assert consumed[i..j] == s[i..j];
        var k := LongLine(consumed, i, j);
      }
    }
  }

  /** Where reading stops without an error: at the end, or with the buffer full of a run. */
  lemma StopsIff(consumed: string, held: string, rest: string, all: string)
    requires Closed(consumed) && AllShort(Split(consumed)) && |held| <= BUFSIZE - 1 && all == consumed + held + rest
    requires rest == "" || (|held| == BUFSIZE - 1 && '\n' !in held)
    ensures rest == "" <==> !StopsEarly(all)
  {
    hide Split, AllShort, Closed;
    if rest == "" {
      assert all == consumed + held;
      if StopsEarly(all) {
        var i: nat :| RunAt(all, i) && i + BUFSIZE - 1 < |all|;
        OnlyFullBuffer(consumed, held, i);
      }
    } else {
      assert all[|consumed|..|consumed| + (BUFSIZE - 1)] == held;
      assert RunAt(all, |consumed|);
    }
  }

  lemma AllDelivered(delivered: string, rest: string)
    ensures rest == "" ==> delivered + rest == delivered
  {
  }

  // ---- the buffer ------------------------------------------------------------------------------

  class LineBuffer {
    const buf: array<char>
    var bufLen: nat
    var lineStart: nat

    /** The complete lines taken so far, with their newlines, and all lines taken. */
    ghost var consumed: string
    ghost var lines: seq<string>

    ghost predicate Shape()
      reads this
    {
      buf.Length == BUFSIZE && bufLen < BUFSIZE
    }

    /** Everything read is either consumed or still in the buffer. */
    ghost predicate Open(input: Input)
      reads this, buf, input
    {
      && Shape() && lineStart <= bufLen
      && Closed(consumed) && lines == Split(consumed) && AllShort(lines)
      && input.delivered == consumed + buf[lineStart..bufLen]
    }

    /** The last line, without a newline, has been taken too. */
    ghost predicate Finished(input: Input)
      reads this, input
    {
      Shape() && lineStart == bufLen + 1 && lines == Split(input.delivered)
    }

    /** At the top of the outer loop. */
    ghost predicate Ready(input: Input)
      reads this, buf, input
    {
      Open(input) && lineStart == 0 && '\n' !in buf[..bufLen]
    }

    constructor (input: Input)
      requires input.delivered == ""
      ensures Ready(input) && bufLen == 0 && lines == [] && fresh(buf)
    {
      buf := new char[BUFSIZE](_ => '\0');
      bufLen, lineStart, consumed, lines := 0, 0, "", [];
    }

    /** Reading more behind what is left in the buffer. */
    method Fill(input: Input) returns (n: int)
      requires Ready(input)
      modifies this`bufLen, buf, input
      ensures Open(input) && lineStart == 0
      ensures n <= 0 ==> bufLen == old(bufLen) && Ready(input)
      ensures n > 0 ==> bufLen == old(bufLen) + n && input.failed == old(input.failed)
      ensures n <= 0 ==> input.delivered == old(input.delivered) && input.rest == old(input.rest)
      ensures n <= 0 && !input.failed ==> (input.rest == "" <==> !StopsEarly(input.delivered + input.rest))
      ensures n > 0 ==> |input.rest| < |old(input.rest)|
      ensures n <= 0 && bufLen == 0 ==> lines == Split(input.delivered)
      ensures input.delivered + input.rest == old(input.delivered + input.rest)
    {
      ghost var held := buf[..bufLen];
      n := input.Read(buf, bufLen, BUFSIZE - bufLen - 1);
      if n > 0 {
        assert buf[..bufLen + n] == held + buf[bufLen..bufLen + n];
        bufLen := bufLen + n;
      } else {
        assert buf[..bufLen] == held;
      }
      ghost var now := buf[..bufLen];
      buf[bufLen] := '\0';
      assert buf[..bufLen] == now;
      assert buf[0..bufLen] == buf[..bufLen];
      assert consumed + "" == consumed;
      if n <= 0 && !input.failed {
        StopsIff(consumed, now, input.rest, input.delivered + input.rest);
      }
    }

    /** Taking the next line, unless it is incomplete and more may be read: its bytes, or nothing. */
    method TakeLine(input: Input, more: bool) returns (got: bool, line: string)
      requires Open(input) && lineStart < bufLen
      modifies this`lineStart, this`consumed, this`lines, buf
      ensures got ==> lines == old(lines) + [line] && '\n' !in line && lineStart > old(lineStart)
      ensures got ==> Open(input) || (!more && Finished(input) && lineStart > bufLen)
      ensures !got ==> more && Open(input) && lineStart == old(lineStart) && lines == old(lines)
      ensures !got ==> '\n' !in buf[lineStart..bufLen]
    {
      hide Split, Closed;
      var eol := lineStart;
      while eol < bufLen && buf[eol] != '\n'
        invariant lineStart <= eol <= bufLen
        invariant '\n' !in buf[lineStart..eol]
      {
        assert buf[lineStart..eol + 1] == buf[lineStart..eol] + [buf[eol]];
        eol := eol + 1;
      }
      if eol >= bufLen && more {
        return false, "";
      }
      got, line := true, buf[lineStart..eol];
      ghost var left := if eol < bufLen then buf[eol + 1..bufLen] else "";
      if eol < bufLen {
        assert buf[lineStart..bufLen] == line + "\n" + left;
        Consume(consumed, line, left, input.delivered);
        consumed := consumed + (line + "\n");
      } else {
        SplitOne(line);
        SplitAppend(consumed, line);
      }
      buf[eol] := '\0';
      assert eol < bufLen ==> buf[eol + 1..bufLen] == left;
      lines := lines + [line];
      lineStart := eol + 1;
    }

    /** Moving what is left to the front of the buffer. */
    method Shift(input: Input)
      requires Open(input) || Finished(input)
      requires lineStart < bufLen ==> '\n' !in buf[lineStart..bufLen]
      modifies this`bufLen, this`lineStart, buf
      ensures lines == old(lines) && lineStart == 0
      ensures old(Open(input)) ==> Ready(input)
      ensures old(lineStart >= bufLen) ==> bufLen == 0 && lines == Split(input.delivered)
    {
      ghost var held := if lineStart <= bufLen then buf[lineStart..bufLen] else "";
      if lineStart > 0 && lineStart < bufLen {
        MemMove(buf, 0, lineStart, bufLen - lineStart);
        bufLen := bufLen - lineStart;
      } else if lineStart >= bufLen {
        bufLen := 0;
      }
      lineStart := 0;
      assert old(lineStart <= bufLen) ==> buf[0..bufLen] == held;
      assert buf[..bufLen] == buf[0..bufLen];
      assert consumed + "" == consumed;
    }
  }

  // ---- numbers and output ------------------------------------------------------------------------

  /** The decimal digits of a number. */
  function Decimal(n: nat): string {
    if n < 10 then [DigitChar(n)] else Decimal(n / 10) + [DigitChar(n % 10)]
  }

  function DigitChar(d: nat): char
    requires d < 10
  {
    '0' + d as char
  }

  /** The number a string of digits denotes. */
  function Number(s: string): int {
    if s == "" then 0 else 10 * Number(s[..|s| - 1]) + (s[|s| - 1] as int - '0' as int)
  }

  lemma {:induction false} NumberOfDecimal(n: nat)
    ensures Number(Decimal(n)) == n
  {
    if n >= 10 {
      NumberOfDecimal(n / 10);
      assert Decimal(n)[..|Decimal(n)| - 1] == Decimal(n / 10);
    } else {
      assert Decimal(n)[..0] == "";
    }
  }

  /** ulong_to_str: the digits are produced from the last one on and then turned around. */
  method UlongToStr(val: nat) returns (s: string)
    ensures s == Decimal(val)
  {
    if val == 0 {
      return "0";
    }
    var v, tmp := val, "";
    assert Decimal(val) == Decimal(v) + Reverse(tmp);
    while v > 0
      invariant Decimal(val) == (if v > 0 then Decimal(v) else "") + Reverse(tmp)
    {
      var c := DigitChar(v % 10);
      assert Reverse(tmp + [c]) == [c] + Reverse(tmp);
      assert Decimal(v) == (if v / 10 > 0 then Decimal(v / 10) else "") + [c];
      tmp := tmp + [c];
      v := v / 10;
    }
    s := "";
    var j := 0;
    while j < |tmp|
      invariant j <= |tmp| && s == Reverse(tmp)[..j]
    {
      s := s + [tmp[|tmp| - 1 - j]];
      j := j + 1;
    }
  }

  ghost function Reverse(s: string): string {
    seq(|s|, i requires 0 <= i < |s| => s[|s| - 1 - i])
  }

  /** Standard output. */
  class Stdout {
    ghost var text: string

    constructor ()
      ensures text == ""
    {
      text := "";
    }

    /** print. */
    method Print(s: string)
      modifies this
      ensures text == old(text) + s
    {
      text := text + s;
    }
  }
}
