/**
  The two Replace extension methods the firmware writes for itself because
  nanoFramework's string lacks them: one on characters, rewriting a copy of
  the string's character array, and one on substrings, scanning with IndexOf
  and appending to a StringBuilder.
 */
module StringExtension {
  import opened Text

  /** The string with every `oldChar` replaced by `newChar`. */
  function CharsReplaced(s: string, oldChar: char, newChar: char): string
  {
    seq(|s|, i requires 0 <= i < |s| => if s[i] == oldChar then newChar else s[i])
  }

  /** Replace(char, char): rewrites a copy of the character array in place. */
  method ReplaceChar(current: string, oldChar: char, newChar: char) returns (r: string)
    ensures |r| == |current|
    ensures forall i | 0 <= i < |r| :: r[i] == if current[i] == oldChar then newChar else current[i]
    ensures r == CharsReplaced(current, oldChar, newChar)
  {
    var result := new char[|current|](i requires 0 <= i < |current| => current[i]);
    var length := result.Length;
    for i := 0 to length
      invariant forall j | 0 <= j < length ::
        result[j] == if j < i && current[j] == oldChar then newChar else current[j]
    {
      if result[i] == oldChar {
        result[i] := newChar;
      }
    }
    r := result[..];
  }

  /** Replacing a character by itself gives the string back. */
  lemma CharsReplacedSame(s: string, c: char)
    ensures CharsReplaced(s, c, c) == s
  {
  }

  /** After replacing `oldChar` by a different character, no `oldChar` is left and no other character changed. */
  lemma CharsReplacedRemoves(s: string, oldChar: char, newChar: char)
    requires oldChar != newChar
    ensures oldChar !in CharsReplaced(s, oldChar, newChar)
    ensures forall i | 0 <= i < |s| && s[i] != oldChar :: CharsReplaced(s, oldChar, newChar)[i] == s[i]
  {
  }

  /** Replacing `a` by `b` and then `b` by `a` restores a string that had no `b`. */
  lemma CharsReplacedBack(s: string, a: char, b: char)
    requires b !in s
    ensures CharsReplaced(CharsReplaced(s, a, b), b, a) == s
  {
  }

  /**
    The text Replace(string, string) builds from `start` on: the text up to the
    leftmost match of `oldValue`, then `newValue`, then the same again after the
    match, and the rest verbatim once no match is left.
   */
  function ReplacedFrom(s: string, oldValue: string, newValue: string, start: nat): string
    requires |oldValue| > 0 && start <= |s|
    decreases |s| - start
  {
    var k := IndexOf(s, oldValue, start);
    if k == -1 then s[start..]
    else s[start..k] + newValue + ReplacedFrom(s, oldValue, newValue, k + |oldValue|)
  }

  /**
    Replace(string, string). With an empty `oldValue` the scan never advances
    (IndexOf finds the empty string at `startIndex` every time), so the
    firmware's loop does not terminate; the model requires a non-empty one.
   */
  method ReplaceString(current: string, oldValue: string, newValue: string) returns (r: string)
    requires |oldValue| > 0
    ensures r == ReplacedFrom(current, oldValue, newValue, 0)
  {
    ghost var whole := ReplacedFrom(current, oldValue, newValue, 0);
    var result := "";
    var startIndex := 0;
    var nextIndex := IndexOf(current, oldValue, startIndex);
    while nextIndex != -1
      invariant 0 <= startIndex <= |current|
      invariant nextIndex == IndexOf(current, oldValue, startIndex)
      invariant result + ReplacedFrom(current, oldValue, newValue, startIndex) == whole
      decreases |current| - startIndex
    {
      result, startIndex := ReplaceNext(result, current, oldValue, newValue, startIndex, nextIndex);
      nextIndex := IndexOf(current, oldValue, startIndex);
    }
    ReplacedDone(current, oldValue, newValue, startIndex);
    r := result + current[startIndex..|current|];
  }

  /** One turn of Replace's loop: copy up to the match, append the replacement, skip the match. */
  method ReplaceNext(result: string, current: string, oldValue: string, newValue: string, startIndex: nat, nextIndex: int)
    returns (result': string, startIndex': nat)
    requires |oldValue| > 0 && startIndex <= |current|
    requires nextIndex == IndexOf(current, oldValue, startIndex) && nextIndex != -1
    ensures startIndex < startIndex' <= |current|
    ensures result' + ReplacedFrom(current, oldValue, newValue, startIndex')
         == result + ReplacedFrom(current, oldValue, newValue, startIndex)
  {
    ReplacedStep(result, current, oldValue, newValue, startIndex);
    result' := result + current[startIndex..nextIndex];
    result' := result' + newValue;
    startIndex' := nextIndex + |oldValue|;
  }

  /** One step of the scan: the text up to a match and the replacement join the output, the scan resumes past the match. */
  lemma ReplacedStep(result: string, s: string, oldValue: string, newValue: string, start: nat)
    requires |oldValue| > 0 && start <= |s|
    requires IndexOf(s, oldValue, start) != -1
    ensures var k := IndexOf(s, oldValue, start);
      start <= k && k + |oldValue| <= |s|
      && result + ReplacedFrom(s, oldValue, newValue, start)
         == (result + s[start..k] + newValue) + ReplacedFrom(s, oldValue, newValue, k + |oldValue|)
  {
    var k := IndexOf(s, oldValue, start);
    ReplacedUnfold(s, oldValue, newValue, start);
    Regroup(result, s[start..k], newValue, ReplacedFrom(s, oldValue, newValue, k + |oldValue|));
  }

  /** ReplacedFrom at a match, unfolded once. */
  lemma ReplacedUnfold(s: string, oldValue: string, newValue: string, start: nat)
    requires |oldValue| > 0 && start <= |s|
    requires IndexOf(s, oldValue, start) != -1
    ensures var k := IndexOf(s, oldValue, start);
      start <= k && k + |oldValue| <= |s|
      && ReplacedFrom(s, oldValue, newValue, start)
         == s[start..k] + newValue + ReplacedFrom(s, oldValue, newValue, k + |oldValue|)
  {
  }

  /** Once no match is left, the rest is copied verbatim. */
  lemma ReplacedDone(s: string, oldValue: string, newValue: string, start: nat)
    requires |oldValue| > 0 && start <= |s|
    requires IndexOf(s, oldValue, start) == -1
    ensures ReplacedFrom(s, oldValue, newValue, start) == s[start..|s|]
  {
  }

  lemma Regroup(r: string, a: string, b: string, t: string)
    ensures r + (a + b + t) == (r + a + b) + t
  {
  }

  /** The positions at which Replace(string, string) finds its matches, from `start` on. */
  function Matches(s: string, pat: string, start: nat): (ps: seq<nat>)
    requires |pat| > 0 && start <= |s|
    ensures forall k | 0 <= k < |ps| :: start <= ps[k] <= |s| - |pat|
    decreases |s| - start
  {
    var k := IndexOf(s, pat, start);
    if k == -1 then [] else [k] + Matches(s, pat, k + |pat|)
  }

  /** Every position Matches reports is an occurrence of the pattern. */
  lemma {:induction false} MatchesAreOccurrences(s: string, pat: string, start: nat, i: int)
    requires |pat| > 0 && start <= |s|
    requires 0 <= i < |Matches(s, pat, start)|
    ensures MatchAt(s, pat, Matches(s, pat, start)[i])
    decreases |s| - start
  {
    var k := IndexOf(s, pat, start);
    if i == 0 {
      IndexOfMatch(s, pat, start);
    } else {
      MatchesAreOccurrences(s, pat, k + |pat|, i - 1);
    }
  }

  /** Each position is at least `n` past the one before it. */
  predicate Spaced(ps: seq<nat>, n: nat)
  {
    forall k | 0 <= k < |ps| - 1 :: ps[k] + n <= ps[k + 1]
  }

  /** Matches never overlap: each starts at or after the end of the one before. */
  lemma {:induction false} MatchesDisjoint(s: string, pat: string, start: nat)
    requires |pat| > 0 && start <= |s|
    ensures Spaced(Matches(s, pat, start), |pat|)
    decreases |s| - start
  {
    var k := IndexOf(s, pat, start);
    if k != -1 {
      var rest := Matches(s, pat, k + |pat|);
      MatchesDisjoint(s, pat, k + |pat|);
      var ps := Matches(s, pat, start);
      assert ps == [k] + rest;
      forall i | 0 <= i < |ps| - 1
        ensures ps[i] + |pat| <= ps[i + 1]
      {
        if i == 0 {
          assert ps[1] == rest[0] && k + |pat| <= rest[0];
        } else {
          assert ps[i] == rest[i - 1] && ps[i + 1] == rest[i];
        }
      }
    }
  }

  /** Matches are leftmost: no occurrence starts between `start` and the first match found. */
  lemma Leftmost(s: string, pat: string, start: nat, j: nat)
    requires |pat| > 0 && start <= |s|
    requires start <= j && MatchAt(s, pat, j)
    ensures Matches(s, pat, start) != [] && Matches(s, pat, start)[0] <= j
  {
    IndexOfFirst(s, pat, start, j);
    var k := IndexOf(s, pat, start);
    assert Matches(s, pat, start)[0] == k;
  }

  /** The first match found from `start`, followed by the matches after it. */
  lemma MatchesCons(s: string, pat: string, start: nat, j: nat)
    requires |pat| > 0 && start <= |s|
    requires start <= j && MatchAt(s, pat, j)
    ensures var k := IndexOf(s, pat, start);
      start <= k <= j && k + |pat| <= |s| && Matches(s, pat, start) == [k] + Matches(s, pat, k + |pat|)
  {
    IndexOfFirst(s, pat, start, j);
  }

  /** Position `j` lies inside one of the matches at `ps`. */
  predicate Covered(ps: seq<nat>, n: nat, j: nat)
  {
    exists k | 0 <= k < |ps| :: ps[k] <= j < ps[k] + n
  }

  /** Covering carries over to a list with one more match in front. */
  lemma CoveredCons(p: nat, ps: seq<nat>, n: nat, j: nat)
    requires Covered(ps, n, j) || p <= j < p + n
    ensures Covered([p] + ps, n, j)
  {
    var qs := [p] + ps;
    if p <= j < p + n {
      assert qs[0] == p;
    } else {
      var m :| 0 <= m < |ps| && ps[m] <= j < ps[m] + n;
      assert qs[m + 1] == ps[m];
    }
  }

  /** Every occurrence lies in a found match or overlaps one found before it. */
  lemma {:induction false} EveryOccurrenceCovered(s: string, pat: string, start: nat, j: nat)
    requires |pat| > 0 && start <= |s|
    requires start <= j && MatchAt(s, pat, j)
    ensures Covered(Matches(s, pat, start), |pat|, j)
    decreases |s| - start
  {
    var k := IndexOf(s, pat, start);
    MatchesCons(s, pat, start, j);
    if j >= k + |pat| {
      EveryOccurrenceCovered(s, pat, k + |pat|, j);
    }
    CoveredCons(k, Matches(s, pat, k + |pat|), |pat|, j);
  }

  lemma MulSucc(m: int, d: int)
    ensures (m + 1) * d == m * d + d
  {
  }

  /** Each match grows or shrinks the text by |newValue| - |oldValue|. */
  lemma {:induction false} ReplacedLength(s: string, oldValue: string, newValue: string, start: nat)
    requires |oldValue| > 0 && start <= |s|
    ensures |ReplacedFrom(s, oldValue, newValue, start)|
         == |s| - start + |Matches(s, oldValue, start)| * (|newValue| - |oldValue|)
    decreases |s| - start
  {
    var k := IndexOf(s, oldValue, start);
    if k != -1 {
      var next := k + |oldValue|;
      ReplacedLength(s, oldValue, newValue, next);
      var m, d := |Matches(s, oldValue, next)|, |newValue| - |oldValue|;
      assert |Matches(s, oldValue, start)| == m + 1;
      MulSucc(m, d);
      ReplacedUnfold(s, oldValue, newValue, start);
    }
  }

  /** Without an occurrence of `oldValue`, Replace(string, string) returns its input. */
  lemma NoMatchUnchanged(s: string, oldValue: string, newValue: string)
    requires |oldValue| > 0
    requires forall j | 0 <= j :: !MatchAt(s, oldValue, j)
    ensures ReplacedFrom(s, oldValue, newValue, 0) == s
  {
    IndexOfMatch(s, oldValue, 0);
  }

  /** Replacing a string by itself gives the text back. */
  lemma {:induction false} ReplaceSameUnchanged(s: string, oldValue: string, start: nat)
    requires |oldValue| > 0 && start <= |s|
    ensures ReplacedFrom(s, oldValue, oldValue, start) == s[start..]
    decreases |s| - start
  {
    var k := IndexOf(s, oldValue, start);
    if k != -1 {
      ReplaceSameUnchanged(s, oldValue, k + |oldValue|);
      IndexOfMatch(s, oldValue, start);
      assert s[start..k] + oldValue + s[k + |oldValue|..] == s[start..];
    }
  }
}
