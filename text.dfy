/**
  The .NET string routines the firmware leans on (String.Split, Trim, IndexOf,
  EndsWith, ToLower) and the UTF-8 encoding a StreamWriter applies, stated as
  functions over Dafny strings. Comparisons are ordinal, as on nanoFramework.
 */
module Text {

  /** String.Split(char[]): every separator ends a piece, empty pieces are kept. */
  function Split(s: string, seps: set<char>): (parts: seq<string>)
    ensures |parts| >= 1
    ensures forall i, j | 0 <= i < |parts| && 0 <= j < |parts[i]| :: parts[i][j] !in seps
    decreases |s|
  {
    if s == [] then [""]
    else
      var rest := Split(s[1..], seps);
      if s[0] in seps then [""] + rest
      else [[s[0]] + rest[0]] + rest[1..]
  }

  /** Number of positions of `s` holding a character of `cs`. */
  function CountIn(s: string, cs: set<char>): nat
    decreases |s|
  {
    if s == [] then 0 else (if s[0] in cs then 1 else 0) + CountIn(s[1..], cs)
  }

  /** Pieces glued back together with `c` between neighbours. */
  function JoinWith(parts: seq<string>, c: char): string
    requires |parts| >= 1
    decreases |parts|
  {
    if |parts| == 1 then parts[0] else parts[0] + [c] + JoinWith(parts[1..], c)
  }

  /** Split yields one piece more than there are separators. */
  lemma {:induction false} SplitCount(s: string, seps: set<char>)
    ensures |Split(s, seps)| == CountIn(s, seps) + 1
    decreases |s|
  {
    if s != [] {
      SplitCount(s[1..], seps);
    }
  }

  /** Prefixing the first piece with `x` prefixes the joined string with `x`. */
  lemma JoinPrefix(x: char, parts: seq<string>, c: char)
    requires |parts| >= 1
    ensures JoinWith([[x] + parts[0]] + parts[1..], c) == [x] + JoinWith(parts, c)
  {
    var q := [[x] + parts[0]] + parts[1..];
    if |parts| > 1 {
      assert q[1..] == parts[1..];
    }
  }

  /** Splitting on a single character and joining with it gives the input back. */
  lemma {:induction false} SplitJoin(s: string, c: char)
    ensures JoinWith(Split(s, {c}), c) == s
    decreases |s|
  {
    if s != [] {
      var rest := Split(s[1..], {c});
      SplitJoin(s[1..], c);
      if s[0] == c {
        assert ([""] + rest)[1..] == rest;
      } else {
        JoinPrefix(s[0], rest, c);
      }
    }
  }

  /** Index of the first `c` in `s`, or -1 (String.IndexOf(char)). */
  function IndexOfChar(s: string, c: char): (r: int)
    ensures -1 <= r < |s|
    ensures r == -1 <==> c !in s
    ensures r >= 0 ==> s[r] == c && c !in s[..r]
    decreases |s|
  {
    if s == [] then -1
    else if s[0] == c then 0
    else
      var k := IndexOfChar(s[1..], c);
      assert k >= 0 ==> s[..k + 1] == [s[0]] + s[1..][..k];
      if k < 0 then -1 else k + 1
  }

  /** The characters Char.IsWhiteSpace accepts, which String.Trim() removes. */
  const WhiteSpace: set<char> := {
    ' ', '\t', '\n', '\U{000B}', '\U{000C}', '\r', '\U{0085}', '\U{00A0}', '\U{1680}',
    '\U{2000}', '\U{2001}', '\U{2002}', '\U{2003}', '\U{2004}', '\U{2005}', '\U{2006}',
    '\U{2007}', '\U{2008}', '\U{2009}', '\U{200A}', '\U{2028}', '\U{2029}', '\U{202F}',
    '\U{205F}', '\U{3000}'
  }

  /** Drops the leading characters that belong to `cs`. */
  function TrimStart(s: string, cs: set<char>): (r: string)
    ensures |r| <= |s| && r == s[|s| - |r|..]
    ensures forall i | 0 <= i < |s| - |r| :: s[i] in cs
    ensures r == [] || r[0] !in cs
    decreases |s|
  {
    if s != [] && s[0] in cs then TrimStart(s[1..], cs) else s
  }

  /** Drops the trailing characters that belong to `cs`. */
  function TrimEnd(s: string, cs: set<char>): (r: string)
    ensures |r| <= |s| && r == s[..|r|]
    ensures forall i | |r| <= i < |s| :: s[i] in cs
    ensures r == [] || r[|r| - 1] !in cs
    decreases |s|
  {
    if s != [] && s[|s| - 1] in cs then TrimEnd(s[..|s| - 1], cs) else s
  }

  /** String.Trim(params char[]): both ends. */
  function Trim(s: string, cs: set<char>): string
  {
    TrimEnd(TrimStart(s, cs), cs)
  }

  /** Trimming a trimmed string changes nothing. */
  lemma TrimIdempotent(s: string, cs: set<char>)
    ensures Trim(Trim(s, cs), cs) == Trim(s, cs)
  {
    var r := Trim(s, cs);
    assert r == [] || r[0] !in cs;
    assert TrimStart(r, cs) == r;
  }

  /** A trimmed string has no character of `cs` at either end. */
  lemma TrimEnds(s: string, cs: set<char>)
    ensures var r := Trim(s, cs); r == [] || (r[0] !in cs && r[|r| - 1] !in cs)
  {
  }

  /** An occurrence of `pat` in `s` starting at `j`. */
  predicate MatchAt(s: string, pat: string, j: int)
  {
    0 <= j && j + |pat| <= |s| && s[j..j + |pat|] == pat
  }

  /** String.IndexOf(string, int), ordinal: the first occurrence at or after `start`, or -1. */
  function IndexOf(s: string, pat: string, start: nat): (r: int)
    requires start <= |s|
    ensures r == -1 || start <= r <= |s| - |pat|
    decreases |s| - start
  {
    if start + |pat| > |s| then -1
    else if s[start..start + |pat|] == pat then start
    else IndexOf(s, pat, start + 1)
  }

  /** What IndexOf finds is an occurrence. */
  lemma {:induction false} IndexOfMatch(s: string, pat: string, start: nat)
    requires start <= |s|
    ensures IndexOf(s, pat, start) != -1 ==> MatchAt(s, pat, IndexOf(s, pat, start))
    decreases |s| - start
  {
    if start + |pat| <= |s| && s[start..start + |pat|] != pat {
      IndexOfMatch(s, pat, start + 1);
    }
  }

  /** IndexOf finds the first occurrence: none is skipped on the way to it, and none is missed. */
  lemma {:induction false} IndexOfFirst(s: string, pat: string, start: nat, j: int)
    requires start <= |s|
    requires start <= j && MatchAt(s, pat, j)
    ensures IndexOf(s, pat, start) != -1 && IndexOf(s, pat, start) <= j
    decreases |s| - start
  {
    if start + |pat| <= |s| && s[start..start + |pat|] != pat {
      assert start != j;
      IndexOfFirst(s, pat, start + 1, j);
    }
  }

  /** String.EndsWith(string), ordinal. */
  predicate EndsWith(s: string, suffix: string)
  {
    |suffix| <= |s| && s[|s| - |suffix|..] == suffix
  }

  /** String.ToLower() on the ASCII letters; other characters are kept. */
  function ToLower(s: string): (r: string)
    ensures |r| == |s|
  {
    seq(|s|, i requires 0 <= i < |s| => if 'A' <= s[i] <= 'Z' then (s[i] as int + 32) as char else s[i])
  }

  /** UTF-8 bytes of one character. */
  function Utf8Char(c: char): seq<bv8>
  {
    var n := c as int;
    if n < 0x80 then [n as bv8]
    else if n < 0x800 then [(0xC0 + n / 0x40) as bv8, (0x80 + n % 0x40) as bv8]
    else if n < 0x10000 then
      [(0xE0 + n / 0x1000) as bv8, (0x80 + n / 0x40 % 0x40) as bv8, (0x80 + n % 0x40) as bv8]
    else
      [(0xF0 + n / 0x40000) as bv8, (0x80 + n / 0x1000 % 0x40) as bv8,
       (0x80 + n / 0x40 % 0x40) as bv8, (0x80 + n % 0x40) as bv8]
  }

  /** UTF-8 bytes of a string, as a StreamWriter writes them. */
  function Utf8(s: string): seq<bv8>
    decreases |s|
  {
    if s == [] then [] else Utf8Char(s[0]) + Utf8(s[1..])
  }
}
