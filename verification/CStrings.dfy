// C strings as the string utilities see them: characters up to a terminating NUL.

module CStrings {
  /** A C string: its characters without the terminating NUL. */
  predicate NulFree(s: string) {
    forall i :: 0 <= i < |s| ==> s[i] != '\0'
  }

  type CString = s: string | NulFree(s)

  /** The character a pointer into the string sees: the terminator at the end. */
  function CharAt(s: string, i: nat): char
    requires i <= |s|
  {
    if i < |s| then s[i] else '\0'
  }

  function ToLower(c: char): char {
    if 'A' <= c <= 'Z' then c + 32 as char else c
  }

  function Lower(s: string): (r: string)
    ensures |r| == |s| && forall i :: 0 <= i < |s| ==> r[i] == ToLower(s[i])
  {
    seq(|s|, i requires 0 <= i < |s| => ToLower(s[i]))
  }

  /** Lower case is the letter at the same place of the other alphabet, and every other character stays. */
  lemma LowerLetters()
    ensures Lower("ABCDEFGHIJKLMNOPQRSTUVWXYZ") == "abcdefghijklmnopqrstuvwxyz"
    ensures forall c: char :: c !in "ABCDEFGHIJKLMNOPQRSTUVWXYZ" ==> ToLower(c) == c
  {
  }

  ghost function Concat(ws: seq<string>): string {
    if ws == [] then [] else ws[0] + Concat(ws[1..])
  }

  /** What a C string function sees of a buffer: the characters before the first NUL. */
  function UpToNul(s: string): (r: CString) {
    if s == "" || s[0] == '\0' then "" else [s[0]] + UpToNul(s[1..])
  }

  lemma {:induction false} UpToNulSame(s: CString)
    ensures UpToNul(s) == s
  {
    if s != "" {
      UpToNulSame(s[1..]);
    }
  }

  lemma {:induction false} UpToNulIs(s: string, n: nat)
    requires n < |s| && s[n] == '\0' && forall i :: 0 <= i < n ==> s[i] != '\0'
    ensures UpToNul(s) == s[..n]
    decreases n
  {
    if n != 0 {
      UpToNulIs(s[1..], n - 1);
      assert s[..n] == [s[0]] + s[1..][..n - 1];
    }
  }

  /** Memory after str_ncpy: a source shorter than `n` is followed by NULs up to and including position
      `n`, one more than the count says; a longer one is cut off. */
  function Ncpied<T>(mem: seq<T>, at: nat, src: seq<T>, nul: T, n: nat): (r: seq<T>)
    requires at + NcpySize(src, n) <= |mem|
    ensures |r| == |mem|
  {
    mem[..at]
    + (if |src| >= n then src[..n] else src + seq(n + 1 - |src|, _ => nul))
    + mem[at + NcpySize(src, n)..]
  }

  /** How many elements str_ncpy writes. */
  function NcpySize<T>(src: seq<T>, n: nat): nat {
    if |src| >= n then n else n + 1
  }

  lemma NcpiedAt<T>(mem: seq<T>, at: nat, src: seq<T>, nul: T, n: nat, i: nat)
    requires at + NcpySize(src, n) <= |mem| && i < |mem|
    ensures Ncpied(mem, at, src, nul, n)[i] ==
            if i < at || i >= at + NcpySize(src, n) then mem[i]
            else if i - at < |src| then src[i - at] else nul
  {
  }

  /** str_ncpy, into the memory `dest` from position `at` on. */
  method StrNcpy<T>(dest: array<T>, at: nat, src: seq<T>, nul: T, n: nat)
    requires at + NcpySize(src, n) <= dest.Length
    modifies dest
    ensures dest[..] == Ncpied(old(dest[..]), at, src, nul, n)
  {
    hide Ncpied;
    ghost var mem := dest[..];
    var left, d, i := n, at, 0;
    while left > 0 && i < |src|
      invariant i <= |src| && i <= n && left == n - i && d == at + i
      invariant forall x :: 0 <= x < dest.Length ==> dest[x] == if at <= x < d then src[x - at] else mem[x]
    {
      dest[d] := src[i];
      d, i, left := d + 1, i + 1, left - 1;
    }
    if left > 0 {
      dest[d] := nul;
      d := d + 1;
      while left > 0
        invariant |src| < n && i == |src| && d == at + n + 1 - left
        invariant forall x :: 0 <= x < dest.Length ==>
          dest[x] == if at <= x < at + |src| then src[x - at] else if at <= x < d then nul else mem[x]
      {
        dest[d] := nul;
        d, left := d + 1, left - 1;
      }
    }
    forall x | 0 <= x < dest.Length
      ensures dest[..][x] == Ncpied(mem, at, src, nul, n)[x]
    {
      NcpiedAt(mem, at, src, nul, n, x);
    }
  }

  /** mem_move, within one array: forwards if the destination comes first, otherwise backwards. */
  method MemMove<T>(mem: array<T>, dest: nat, src: nat, n: nat)
    requires dest + n <= mem.Length && src + n <= mem.Length
    modifies mem
    ensures mem[..dest] == old(mem[..dest]) && mem[dest + n..] == old(mem[dest + n..])
    ensures mem[dest..dest + n] == old(mem[src..src + n])
  {
    if dest < src {
      MoveDown(mem, dest, src, n);
    } else {
      MoveUp(mem, dest, src, n);
    }
  }

  method MoveDown<T>(mem: array<T>, dest: nat, src: nat, n: nat)
    requires dest < src && src + n <= mem.Length
    modifies mem
    ensures mem[..dest] == old(mem[..dest]) && mem[dest + n..] == old(mem[dest + n..])
    ensures mem[dest..dest + n] == old(mem[src..src + n])
  {
    ghost var was := mem[..];
    var k := 0;
    while k < n
      invariant k <= n
      invariant mem[..dest] == was[..dest] && mem[dest + k..] == was[dest + k..]
      invariant mem[dest..dest + k] == was[src..src + k]
    {
      assert mem[src + k] == mem[dest + k..][src - dest] == was[src + k];
      mem[dest + k] := mem[src + k];
      assert mem[dest..dest + k + 1] == was[src..src + k] + [was[src + k]];
      k := k + 1;
    }
  }

  method MoveUp<T>(mem: array<T>, dest: nat, src: nat, n: nat)
    requires src <= dest && dest + n <= mem.Length
    modifies mem
    ensures mem[..dest] == old(mem[..dest]) && mem[dest + n..] == old(mem[dest + n..])
    ensures mem[dest..dest + n] == old(mem[src..src + n])
  {
    ghost var was := mem[..];
    var left := n;
    while left > 0
      invariant 0 <= left <= n
      invariant mem[..dest + left] == was[..dest + left] && mem[dest + n..] == was[dest + n..]
      invariant mem[dest + left..dest + n] == was[src + left..src + n]
    {
      left := left - 1;
      assert mem[src + left] == mem[..dest + left + 1][src + left] == was[src + left];
      mem[dest + left] := mem[src + left];
      assert mem[..dest + left] == was[..dest + left + 1][..dest + left];
      assert mem[dest + left..dest + n] == [was[src + left]] + was[src + left + 1..src + n];
    }
    assert was[..dest + n][..dest] == was[..dest];
  }

  /** str_cmp: 0 for equal strings, otherwise the difference of the first characters that differ. */
  method StrCmp(a: CString, b: CString) returns (r: int)
    ensures r == 0 <==> a == b
    ensures exists k :: 0 <= k <= |a| && k <= |b| && a[..k] == b[..k] && r == CharAt(a, k) as int - CharAt(b, k) as int
  {
    var k := 0;
    while CharAt(a, k) != '\0' && CharAt(b, k) != '\0' && CharAt(a, k) == CharAt(b, k)
      invariant k <= |a| && k <= |b| && a[..k] == b[..k]
      decreases |a| - k
    {
      k := k + 1;
    }
    assert a == b ==> k == |a|;
    return CharAt(a, k) as int - CharAt(b, k) as int;
  }
}
