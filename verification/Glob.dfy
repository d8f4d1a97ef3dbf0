// The glob matcher of find, proved against the language of glob patterns.

module Glob {
  import opened CStrings

  // ---- the language of a pattern ---------------------------------------------------------

  /** The words one pattern character stands for. */
  predicate Accepts(c: char, w: string) {
    if c == '*' then true else if c == '?' then |w| == 1 else w == [c]
  }

  ghost predicate Splits(pat: string, ws: seq<string>, name: string) {
    |ws| == |pat| && Concat(ws) == name && forall i :: 0 <= i < |pat| ==> Accepts(pat[i], ws[i])
  }

  /** The name is a concatenation of words, one for each character of the pattern. */
  ghost predicate InGlob(pat: string, name: string) {
    exists ws: seq<string> :: Splits(pat, ws, name)
  }

  lemma GlobEmpty(name: string)
    ensures InGlob("", name) <==> name == ""
  {
    if name == "" {
      assert Splits("", [], name);
    }
  }

  lemma GlobCons(c: char, pat: string, name: string, m: nat)
    requires m <= |name| && Accepts(c, name[..m]) && InGlob(pat, name[m..])
    ensures InGlob([c] + pat, name)
  {
    var ws: seq<string> :| Splits(pat, ws, name[m..]);
    var vs := [name[..m]] + ws;
    assert vs[1..] == ws;
    assert name == name[..m] + name[m..];
    assert Splits([c] + pat, vs, name);
  }

  lemma GlobUncons(c: char, pat: string, name: string) returns (m: nat)
    requires InGlob([c] + pat, name)
    ensures m <= |name| && Accepts(c, name[..m]) && InGlob(pat, name[m..])
  {
    var p := [c] + pat;
    var ws: seq<string> :| Splits(p, ws, name);
    m := |ws[0]|;
    assert name == ws[0] + Concat(ws[1..]);
    assert name[..m] == ws[0] && name[m..] == Concat(ws[1..]);
    assert Accepts(p[0], ws[0]);
    assert forall i :: 0 <= i < |pat| ==> pat[i] == p[i + 1];
    assert Splits(pat, ws[1..], name[m..]);
  }

  /** A character that is not a star takes exactly one character of the name. */
  lemma GlobOne(c: char, pat: string, name: string)
    requires c != '*'
    ensures InGlob([c] + pat, name) <==> name != "" && Accepts(c, [name[0]]) && InGlob(pat, name[1..])
  {
    if InGlob([c] + pat, name) {
      var m := GlobUncons(c, pat, name);
      assert m == 1 && name[..1] == [name[0]];
    }
    if name != "" && Accepts(c, [name[0]]) && InGlob(pat, name[1..]) {
      assert name[..1] == [name[0]];
      GlobCons(c, pat, name, 1);
    }
  }

  lemma GlobStar(pat: string, name: string)
    ensures InGlob(['*'] + pat, name) <==> exists m :: 0 <= m <= |name| && InGlob(pat, name[m..])
  {
    if InGlob(['*'] + pat, name) {
      var m := GlobUncons('*', pat, name);
    }
    if exists m :: 0 <= m <= |name| && InGlob(pat, name[m..]) {
      var m: nat :| m <= |name| && InGlob(pat, name[m..]);
      GlobCons('*', pat, name, m);
    }
  }

  /** How many characters a name must have at least. */
  function MinLength(pat: string): nat {
    if pat == "" then 0 else (if pat[0] == '*' then 0 else 1) + MinLength(pat[1..])
  }

  lemma {:induction false} GlobLength(pat: string, name: string)
    requires InGlob(pat, name)
    ensures |name| >= MinLength(pat)
    decreases pat
  {
    if pat != "" {
      assert pat == [pat[0]] + pat[1..];
      var m := GlobUncons(pat[0], pat[1..], name);
      GlobLength(pat[1..], name[m..]);
    }
  }

  // ---- the pattern the code really matches --------------------------------------------------

  predicate AllStars(pat: string) {
    forall i :: 0 <= i < |pat| ==> pat[i] == '*'
  }

  predicate EndsTwoStars(pat: string) {
    |pat| >= 2 && pat[|pat| - 1] == '*' && pat[|pat| - 2] == '*'
  }

  /** Two or more stars at the end stand for at least one character. */
  function Effective(pat: string): string {
    if AllStars(pat) then (if |pat| >= 2 then "?*" else pat) else [pat[0]] + Effective(pat[1..])
  }

  lemma {:induction false} EffectiveSame(pat: string)
    ensures !EndsTwoStars(pat) ==> Effective(pat) == pat
    ensures EndsTwoStars(pat) ==> MinLength(Effective(pat)) == MinLength(pat) + 1
  {
    if AllStars(pat) {
      AllStarsLength(pat);
      assert MinLength("?*") == 1 by {
        assert "?*"[1..] == "*";
      }
    } else {
      EffectiveSame(pat[1..]);
      assert pat == [pat[0]] + pat[1..];
      if |pat| == 2 {
        assert !EndsTwoStars(pat[1..]);
      }
      var e := Effective(pat[1..]);
      assert ([pat[0]] + e)[1..] == e;
    }
  }

  lemma {:induction false} AllStarsLength(pat: string)
    requires AllStars(pat)
    ensures MinLength(pat) == 0
  {
    if pat != "" {
      AllStarsLength(pat[1..]);
    }
  }

  lemma {:induction false} NotAllStars(pat: string)
    requires !AllStars(pat)
    ensures MinLength(pat) >= 1
  {
    if pat[0] == '*' {
      NotAllStars(pat[1..]);
    }
  }

  lemma EffectiveNeedsMore(pat: string)
    requires !AllStars(pat)
    ensures MinLength(Effective(pat)) >= 1
  {
    EffectiveSame(pat);
    NotAllStars(pat);
  }

  lemma GlobAnything(name: string)
    ensures InGlob("*", name)
  {
    GlobStar("", name);
    assert ['*'] + "" == "*";
    GlobEmpty(name[|name|..]);
  }

  lemma GlobSomething(name: string)
    ensures InGlob("?*", name) <==> name != ""
  {
    GlobOne('?', "*", name);
    assert ['?'] + "*" == "?*";
    if name != "" {
      GlobAnything(name[1..]);
    }
  }

  /** A pattern without stars and question marks stands for itself alone. */
  lemma {:induction false} GlobPlain(pat: string, name: string)
    requires forall i :: 0 <= i < |pat| ==> pat[i] != '*' && pat[i] != '?'
    ensures InGlob(pat, name) <==> name == pat
  {
    if pat == "" {
      GlobEmpty(name);
    } else {
      GlobOne(pat[0], pat[1..], name);
      assert pat == [pat[0]] + pat[1..];
      if name != "" {
        GlobPlain(pat[1..], name[1..]);
        assert name == [name[0]] + name[1..];
      }
    }
  }

  /** A question mark stands for one character, a star for any number of them. */
  lemma {:induction false} GlobMarks(n: nat, name: string)
    ensures InGlob(seq(n, _ => '?'), name) <==> |name| == n
    ensures InGlob(seq(n, _ => '?') + "*", name) <==> |name| >= n
  {
    var marks := seq(n, _ => '?');
    if n == 0 {
      GlobEmpty(name);
      GlobAnything(name);
      assert marks == "" && "" + "*" == "*";
    } else {
      var fewer := seq(n - 1, _ => '?');
      assert marks == ['?'] + fewer && marks + "*" == ['?'] + (fewer + "*");
      GlobOne('?', fewer, name);
      GlobOne('?', fewer + "*", name);
      if name != "" {
        GlobMarks(n - 1, name[1..]);
      }
    }
  }

  /** What a star does in the code: the rest is tried at every position but the end of the name. */
  lemma EffectiveStar(rest: string, name: string)
    requires rest != ""
    ensures InGlob(Effective(['*'] + rest), name) <==>
            exists m :: 0 <= m < |name| && InGlob(Effective(rest), name[m..])
  {
    var pat := ['*'] + rest;
    assert pat[1..] == rest;
    if AllStars(rest) {
      assert AllStars(pat);
      GlobSomething(name);
      if name != "" {
        assert name[0..] == name;
        GlobAnything(name);
        assert Effective(rest) == "*" || Effective(rest) == "?*";
      }
    } else {
      assert !AllStars(pat) by {
        var i :| 0 <= i < |rest| && rest[i] != '*';
        assert pat[i + 1] != '*';
      }
      GlobStar(Effective(rest), name);
      EffectiveNeedsMore(rest);
      if InGlob(Effective(rest), name[|name|..]) {
        GlobLength(Effective(rest), name[|name|..]);
      }
    }
  }

  lemma EffectiveOne(c: char, rest: string, name: string)
    requires c != '*'
    ensures InGlob(Effective([c] + rest), name)
            <==> name != "" && Accepts(c, [name[0]]) && InGlob(Effective(rest), name[1..])
  {
    var pat := [c] + rest;
    assert pat[0] == c && pat[1..] == rest;
    assert !AllStars(pat);
    GlobOne(c, Effective(rest), name);
  }

  lemma EffectiveEnds()
    ensures Effective("") == "" && Effective("*") == "*"
  {
  }

  // ---- the matcher -------------------------------------------------------------------------------

  /** match_name, from position `j` of the name and position `i` of the pattern on. */
  method MatchName(name: CString, j0: nat, pat: CString, i0: nat) returns (r: bool)
    requires j0 <= |name| && i0 <= |pat|
    ensures r <==> InGlob(Effective(pat[i0..]), name[j0..])
    decreases |pat| - i0
  {
    hide InGlob, Effective;
    var i, j := i0, j0;
    while CharAt(pat, i) != '\0'
      invariant i0 <= i <= |pat| && j0 <= j <= |name|
      invariant InGlob(Effective(pat[i0..]), name[j0..]) <==> InGlob(Effective(pat[i..]), name[j..])
      decreases |pat| - i
    {
      ghost var rest := pat[i + 1..];
      assert pat[i..] == [pat[i]] + rest;
      if pat[i] == '*' {
        i := i + 1;
        if CharAt(pat, i) == '\0' {
          GlobAnything(name[j..]);
          assert pat[i - 1..] == "*";
          EffectiveEnds();
          return true;
        }
        EffectiveStar(rest, name[j..]);
        ghost var start := j;
        while CharAt(name, j) != '\0'
          invariant start <= j <= |name|
          invariant forall m :: start <= m < j ==> !InGlob(Effective(rest), name[m..])
          decreases |name| - j
        {
          var found := MatchName(name, j, pat, i);
          if found {
            assert name[start..][j - start..] == name[j..];
            return true;
          }
          j := j + 1;
        }
        forall m | 0 <= m < |name[start..]|
          ensures !InGlob(Effective(rest), name[start..][m..])
        {
          assert name[start..][m..] == name[start + m..];
        }
        return false;
      } else if pat[i] == '?' {
        EffectiveOne('?', rest, name[j..]);
        if CharAt(name, j) == '\0' {
          return false;
        }
        assert name[j..][1..] == name[j + 1..];
        i, j := i + 1, j + 1;
      } else {
        EffectiveOne(pat[i], rest, name[j..]);
        if CharAt(name, j) != pat[i] {
          return false;
        }
        assert name[j..][1..] == name[j + 1..];
        i, j := i + 1, j + 1;
      }
    }
    assert pat[i..] == "";
    EffectiveEnds();
    GlobEmpty(name[j..]);
    return CharAt(name, j) == '\0';
  }

  // ---- when the code means what the pattern says -----------------------------------------------------

  /** A shortest name of the language: no characters for stars. */
  function Shortest(pat: string): (r: string)
    ensures |r| == MinLength(pat)
    ensures NulFree(pat) ==> NulFree(r)
  {
    if pat == "" then ""
    else (if pat[0] == '*' then "" else if pat[0] == '?' then "x" else [pat[0]]) + Shortest(pat[1..])
  }

  lemma {:induction false} ShortestMatches(pat: string)
    ensures InGlob(pat, Shortest(pat))
  {
    if pat == "" {
      GlobEmpty("");
    } else {
      ShortestMatches(pat[1..]);
      var w := if pat[0] == '*' then "" else if pat[0] == '?' then "x" else [pat[0]];
      var s := Shortest(pat);
      assert s[..|w|] == w && s[|w|..] == Shortest(pat[1..]);
      GlobCons(pat[0], pat[1..], s, |w|);
      assert pat == [pat[0]] + pat[1..];
    }
  }

  /** Whatever the code accepts is in the language of the pattern. */
  lemma {:induction false} EffectiveSound(pat: string, name: string)
    requires InGlob(Effective(pat), name)
    ensures InGlob(pat, name)
    decreases pat
  {
    if AllStars(pat) {
      StarsMatchAll(pat, name);
    } else {
      var m := GlobUncons(pat[0], Effective(pat[1..]), name);
      EffectiveSound(pat[1..], name[m..]);
      GlobCons(pat[0], pat[1..], name, m);
      assert pat == [pat[0]] + pat[1..];
    }
  }

  lemma {:induction false} StarsMatchAll(pat: string, name: string)
    requires AllStars(pat) && InGlob(Effective(pat), name)
    ensures InGlob(pat, name)
    decreases pat
  {
    if |pat| >= 2 {
      StarsMatch(pat, name);
    }
  }

  lemma {:induction false} StarsMatch(pat: string, name: string)
    requires AllStars(pat) && pat != ""
    ensures InGlob(pat, name)
    decreases pat
  {
    assert pat == ['*'] + pat[1..];
    if |pat| == 1 {
      assert pat == "*";
      GlobAnything(name);
    } else {
      StarsMatch(pat[1..], name);
      assert name[0..] == name;
      GlobCons('*', pat[1..], name, 0);
    }
  }

  /** The code answers for the language of the pattern on every name exactly when the pattern does not end
      in two stars. */
  lemma MatchesLanguageIff(pat: CString)
    ensures (forall name: CString :: InGlob(Effective(pat), name) <==> InGlob(pat, name)) <==> !EndsTwoStars(pat)
  {
    EffectiveSame(pat);
    if EndsTwoStars(pat) {
      var name: CString := Shortest(pat);
      ShortestMatches(pat);
      if InGlob(Effective(pat), name) {
        GlobLength(Effective(pat), name);
      }
    }
  }

  /** For instance, two stars do not match the empty name. */
  lemma TwoStars()
    ensures InGlob("**", "") && !InGlob(Effective("**"), "")
  {
    StarsMatch("**", "");
    assert Effective("**") == "?*";
    GlobSomething("");
  }
}
