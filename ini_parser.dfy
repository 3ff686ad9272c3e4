/**
  The INI reader: line-oriented `key = value` text into a string table.
  Lines end at '\r' or '\n', a line counts only if it is non-empty and holds
  an '=', it splits at the first '=', both sides are trimmed of white space,
  and a later line with the same key overwrites the earlier value.
 */
module IniParser {
  import opened Wrappers
  import opened Text

  /** The characters Parse splits the input on. */
  const LineBreaks: set<char> := {'\r', '\n'}

  /** String.Split(new[] { c }, 2): the text before the first `c` and everything after it. */
  function SplitTwo(line: string, c: char): (parts: seq<string>)
    ensures 1 <= |parts| <= 2
    ensures |parts| == 2 <==> c in line
    ensures |parts| == 1 ==> parts[0] == line
    ensures |parts| == 2 ==> c !in parts[0] && line == parts[0] + [c] + parts[1]
  {
    var e := IndexOfChar(line, c);
    if e < 0 then [line]
    else
      assert line == line[..e] + [c] + line[e + 1..];
      [line[..e], line[e + 1..]]
  }

  /** The entry one line contributes, if any: trimmed key and trimmed value. */
  function Entry(line: string): Option<(string, string)>
  {
    if line != [] && '=' in line then
      var parts := SplitTwo(line, '=');
      if |parts| == 2 then Some((Trim(parts[0], WhiteSpace), Trim(parts[1], WhiteSpace)))
      else None
    else None
  }

  /** The entries of the lines, one per line, in order. */
  function EntriesOf(lines: seq<string>): (es: seq<Option<(string, string)>>)
    ensures |es| == |lines|
  {
    seq(|lines|, i requires 0 <= i < |lines| => Entry(lines[i]))
  }

  /** The table after storing the entries in order with the indexer (a later key overwrites). */
  function Store(es: seq<Option<(string, string)>>): map<string, string>
    decreases |es|
  {
    if es == [] then map[]
    else
      var t := Store(es[..|es| - 1]);
      match es[|es| - 1]
      case None => t
      case Some(kv) => t[kv.0 := kv.1]
  }

  /** The table Parse builds from a sequence of lines. */
  function Table(lines: seq<string>): map<string, string>
  {
    Store(EntriesOf(lines))
  }

  /** Parse: split into lines and store the entry of each line in turn. */
  method Parse(input: string) returns (result: map<string, string>)
    ensures result == Table(Split(input, LineBreaks))
  {
    result := map[];
    var lines := Split(input, LineBreaks);
    ghost var es := EntriesOf(lines);
    for i := 0 to |lines|
      invariant result == Store(es[..i])
    {
      var line := lines[i];
      assert es[..i + 1][..i] == es[..i];
      assert es[i] == Entry(line);
      if line != [] && '=' in line {
        var parts := SplitTwo(line, '=');
        if |parts| == 2 {
          result := result[Trim(parts[0], WhiteSpace) := Trim(parts[1], WhiteSpace)];
        }
      }
    }
    assert es[..|lines|] == es;
  }

  /** A non-empty line with an '=' always contributes an entry: the two-way split cannot fail. */
  lemma EqualsLineHasEntry(line: string)
    ensures Entry(line).Some? <==> '=' in line
  {
  }

  /** The split is at the first '=': the key has none, the value keeps every later one. */
  lemma EntrySplitsAtFirstEquals(line: string)
    requires '=' in line
    ensures exists pre: string, post: string | '=' !in pre && line == pre + "=" + post ::
      Entry(line) == Some((Trim(pre, WhiteSpace), Trim(post, WhiteSpace)))
  {
    var parts := SplitTwo(line, '=');
    var pre, post := parts[0], parts[1];
    assert '=' !in pre && line == pre + "=" + post;
    assert Entry(line) == Some((Trim(pre, WhiteSpace), Trim(post, WhiteSpace)));
  }

  /** An entry's key and value carry no white space at either end. */
  lemma EntryTrimmed(line: string)
    ensures Entry(line).Some? ==>
      var kv := Entry(line).value;
      Trim(kv.0, WhiteSpace) == kv.0 && Trim(kv.1, WhiteSpace) == kv.1
  {
    if Entry(line).Some? {
      var parts := SplitTwo(line, '=');
      TrimIdempotent(parts[0], WhiteSpace);
      TrimIdempotent(parts[1], WhiteSpace);
    }
  }

  /** `es` without its last entry. */
  lemma StoreSnoc(es: seq<Option<(string, string)>>, e: Option<(string, string)>)
    ensures Store(es + [e]) == if e.Some? then Store(es)[e.value.0 := e.value.1] else Store(es)
  {
    assert (es + [e])[..|es|] == es;
  }

  /** Every stored pair comes from some entry. */
  lemma {:induction false} StoreOrigin(es: seq<Option<(string, string)>>, k: string)
    requires k in Store(es)
    ensures exists i | 0 <= i < |es| :: es[i] == Some((k, Store(es)[k]))
    decreases |es|
  {
    var init := es[..|es| - 1];
    var last := es[|es| - 1];
    assert es == init + [last];
    StoreSnoc(init, last);
    if last.Some? && last.value.0 == k {
      assert es[|es| - 1] == Some((k, Store(es)[k]));
    } else {
      StoreOrigin(init, k);
      var i :| 0 <= i < |init| && init[i] == Some((k, Store(init)[k]));
      assert es[i] == init[i];
    }
  }

  /** A key is stored exactly when some entry has that key. */
  lemma {:induction false} StoreKeys(es: seq<Option<(string, string)>>, k: string)
    ensures k in Store(es) <==> exists i | 0 <= i < |es| :: es[i].Some? && es[i].value.0 == k
    decreases |es|
  {
    if es != [] {
      var init := es[..|es| - 1];
      var last := es[|es| - 1];
      assert es == init + [last];
      StoreSnoc(init, last);
      StoreKeys(init, k);
      if exists i | 0 <= i < |init| :: init[i].Some? && init[i].value.0 == k {
        var i :| 0 <= i < |init| && init[i].Some? && init[i].value.0 == k;
        assert es[i] == init[i];
      }
      if exists i | 0 <= i < |es| :: es[i].Some? && es[i].value.0 == k {
        var i :| 0 <= i < |es| && es[i].Some? && es[i].value.0 == k;
        if i < |init| {
          assert init[i] == es[i];
        }
      }
    }
  }

  /** The stored value of a key is that of the last entry with the key. */
  lemma {:induction false} StoreLastWins(es: seq<Option<(string, string)>>, i: int, k: string, v: string)
    requires 0 <= i < |es| && es[i] == Some((k, v))
    requires forall j | i < j < |es| :: !(es[j].Some? && es[j].value.0 == k)
    ensures k in Store(es) && Store(es)[k] == v
    decreases |es|
  {
    var init := es[..|es| - 1];
    var last := es[|es| - 1];
    assert es == init + [last];
    StoreSnoc(init, last);
    if i < |es| - 1 {
      assert init[i] == es[i];
      forall j | i < j < |init|
        ensures !(init[j].Some? && init[j].value.0 == k)
      {
        assert init[j] == es[j];
      }
      StoreLastWins(init, i, k, v);
    }
  }

  /** Stored keys and values carry no white space at either end. */
  lemma TableTrimmed(lines: seq<string>, k: string)
    requires k in Table(lines)
    ensures Trim(k, WhiteSpace) == k && Trim(Table(lines)[k], WhiteSpace) == Table(lines)[k]
  {
    var es := EntriesOf(lines);
    StoreOrigin(es, k);
    var i :| 0 <= i < |es| && es[i] == Some((k, Store(es)[k]));
    EntryTrimmed(lines[i]);
  }

  /** A key is in the table exactly when some line has an entry with that key. */
  lemma TableKeys(lines: seq<string>, k: string)
    ensures k in Table(lines) <==>
      exists i | 0 <= i < |lines| :: Entry(lines[i]).Some? && Entry(lines[i]).value.0 == k
  {
    var es := EntriesOf(lines);
    StoreKeys(es, k);
    assert forall i | 0 <= i < |lines| :: es[i] == Entry(lines[i]);
  }

  /** The value of a key is the value of the last line with that key: later lines overwrite. */
  lemma LastLineWins(lines: seq<string>, i: int, k: string, v: string)
    requires 0 <= i < |lines| && Entry(lines[i]) == Some((k, v))
    requires forall j | i < j < |lines| :: !(Entry(lines[j]).Some? && Entry(lines[j]).value.0 == k)
    ensures k in Table(lines) && Table(lines)[k] == v
  {
    var es := EntriesOf(lines);
    assert forall j | 0 <= j < |lines| :: es[j] == Entry(lines[j]);
    StoreLastWins(es, i, k, v);
  }

  /** A line that contributes nothing (empty, as between '\r' and '\n', or without '=') leaves the table alone. */
  lemma SkippedLine(lines: seq<string>, line: string)
    requires line == [] || '=' !in line
    ensures Table(lines + [line]) == Table(lines)
  {
    assert EntriesOf(lines + [line]) == EntriesOf(lines) + [None];
    StoreSnoc(EntriesOf(lines), None);
  }

  /** Empty input gives an empty table. */
  lemma EmptyInput()
    ensures Table(Split("", LineBreaks)) == map[]
  {
    assert Split("", LineBreaks) == [""];
    assert EntriesOf([""]) == [] + [None];
    StoreSnoc([], None);
  }
}
