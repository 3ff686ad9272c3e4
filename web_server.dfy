/**
  Form and query decoding of the web server: `a=1&b=2` into a table. A
  segment counts only if it splits on '=' into exactly two parts; the key is
  kept raw and the value URL-decoded. Hashtable.Add throws on a key seen
  before, so a repeated key ends the parse with an error.
 */
module WebServer {
  import opened Text

  /** The outcome of ParseUrlParams: a table, or the exception Add throws on a repeated key. */
  datatype FormResult = Form(table: map<string, string>) | DuplicateKey(key: string)

  /** The table after the segments, read in order; the first repeated key is the error. */
  function FormOf(pairs: seq<string>, urlDecode: string -> string): FormResult
    decreases |pairs|
  {
    if pairs == [] then Form(map[])
    else
      match FormOf(pairs[..|pairs| - 1], urlDecode)
      case DuplicateKey(k) => DuplicateKey(k)
      case Form(t) =>
        var keyValue := Split(pairs[|pairs| - 1], {'='});
        if |keyValue| != 2 then Form(t)
        else if keyValue[0] in t then DuplicateKey(keyValue[0])
        else Form(t[keyValue[0] := urlDecode(keyValue[1])])
  }

  /** ParseUrlParams, with HttpUtility.UrlDecode as the parameter `urlDecode`. */
  method ParseUrlParams(postData: string, urlDecode: string -> string) returns (r: FormResult)
    ensures r == FormOf(Split(postData, {'&'}), urlDecode)
  {
    var formData: map<string, string> := map[];
    var pairs := Split(postData, {'&'});
    for i := 0 to |pairs|
      invariant FormOf(pairs[..i], urlDecode) == Form(formData)
    {
      var pair := pairs[i];
      assert pairs[..i + 1][..i] == pairs[..i];
      var keyValue := Split(pair, {'='});
      if |keyValue| == 2 {
        if keyValue[0] in formData {
          r := DuplicateKey(keyValue[0]);
          PrefixError(pairs, i + 1, urlDecode);
          assert pairs[..|pairs|] == pairs;
          return;
        }
        formData := formData[keyValue[0] := urlDecode(keyValue[1])];
      }
    }
    assert pairs[..|pairs|] == pairs;
    r := Form(formData);
  }

  /** Once a prefix of the segments fails, the whole parse fails with the same key. */
  lemma {:induction false} PrefixError(pairs: seq<string>, n: nat, urlDecode: string -> string)
    requires n <= |pairs| && FormOf(pairs[..n], urlDecode).DuplicateKey?
    ensures FormOf(pairs, urlDecode) == FormOf(pairs[..n], urlDecode)
    decreases |pairs| - n
  {
    if n < |pairs| {
      var longer := pairs[..n + 1];
      assert longer[..n] == pairs[..n];
      PrefixError(pairs, n + 1, urlDecode);
    } else {
      assert pairs[..n] == pairs;
    }
  }

  /** A segment becomes an entry exactly when it holds a single '=' (so "a" and "a=b=c" do not). */
  lemma EntrySegment(pair: string)
    ensures |Split(pair, {'='})| == 2 <==> CountIn(pair, {'='}) == 1
  {
    SplitCount(pair, {'='});
  }

  /** Each stored value is the decoded value part of a segment whose raw key part is the key. */
  lemma {:induction false} FormOrigin(pairs: seq<string>, urlDecode: string -> string, k: string)
    requires FormOf(pairs, urlDecode).Form? && k in FormOf(pairs, urlDecode).table
    ensures exists i | 0 <= i < |pairs| ::
      var kv := Split(pairs[i], {'='});
      |kv| == 2 && kv[0] == k && FormOf(pairs, urlDecode).table[k] == urlDecode(kv[1])
    decreases |pairs|
  {
    var init := pairs[..|pairs| - 1];
    var last := pairs[|pairs| - 1];
    var t := FormOf(init, urlDecode).table;
    var kv := Split(last, {'='});
    if |kv| == 2 && kv[0] == k && k !in t {
      assert pairs[|pairs| - 1] == last;
    } else {
      FormOrigin(init, urlDecode, k);
      var i :| 0 <= i < |init| && var kv := Split(init[i], {'='});
        |kv| == 2 && kv[0] == k && t[k] == urlDecode(kv[1]);
      assert pairs[i] == init[i];
    }
  }

  /** There are never more entries than segments. */
  lemma {:induction false} FormSize(pairs: seq<string>, urlDecode: string -> string)
    requires FormOf(pairs, urlDecode).Form?
    ensures |FormOf(pairs, urlDecode).table| <= |pairs|
    decreases |pairs|
  {
    if pairs != [] {
      FormSize(pairs[..|pairs| - 1], urlDecode);
    }
  }

  /** Two segments with the same key part make the parse fail. */
  lemma {:induction false} RepeatedKeyFails(pairs: seq<string>, urlDecode: string -> string, i: int, j: int)
    requires 0 <= i < j < |pairs|
    requires |Split(pairs[i], {'='})| == 2 && |Split(pairs[j], {'='})| == 2
    requires Split(pairs[i], {'='})[0] == Split(pairs[j], {'='})[0]
    ensures FormOf(pairs, urlDecode).DuplicateKey?
    decreases |pairs|
  {
    var init := pairs[..|pairs| - 1];
    if j < |pairs| - 1 {
      assert init[i] == pairs[i] && init[j] == pairs[j];
      RepeatedKeyFails(init, urlDecode, i, j);
    } else {
      var k := Split(pairs[i], {'='})[0];
      assert init[i] == pairs[i];
      if FormOf(init, urlDecode).Form? {
        StoredOnce(init, urlDecode, i);
      }
    }
  }

  /** Segments `i` and `j` both split into a key and a value, and the key is `k`. */
  predicate BothHaveKey(pairs: seq<string>, i: int, j: int, k: string)
    requires 0 <= i < j < |pairs|
  {
    var kvi := Split(pairs[i], {'='});
    var kvj := Split(pairs[j], {'='});
    |kvi| == 2 && |kvj| == 2 && kvi[0] == k && kvj[0] == k
  }

  /** Conversely, a failed parse names a key that two earlier segments share. */
  lemma {:induction false} DuplicateIsRepeated(pairs: seq<string>, urlDecode: string -> string)
    requires FormOf(pairs, urlDecode).DuplicateKey?
    ensures exists i, j | 0 <= i < j < |pairs| :: BothHaveKey(pairs, i, j, FormOf(pairs, urlDecode).key)
    decreases |pairs|
  {
    var init := pairs[..|pairs| - 1];
    var k := FormOf(pairs, urlDecode).key;
    if FormOf(init, urlDecode).DuplicateKey? {
      DuplicateIsRepeated(init, urlDecode);
      var i, j :| 0 <= i < j < |init| && BothHaveKey(init, i, j, k);
      assert pairs[i] == init[i] && pairs[j] == init[j];
      assert BothHaveKey(pairs, i, j, k);
    } else {
      FormOrigin(init, urlDecode, k);
      var i :| 0 <= i < |init| && var kv := Split(init[i], {'='});
        |kv| == 2 && kv[0] == k && FormOf(init, urlDecode).table[k] == urlDecode(kv[1]);
      assert pairs[i] == init[i];
      assert BothHaveKey(pairs, i, |pairs| - 1, k);
    }
  }

  /** A segment's key is in the table of every successful parse that includes it. */
  lemma {:induction false} StoredOnce(pairs: seq<string>, urlDecode: string -> string, i: int)
    requires 0 <= i < |pairs| && |Split(pairs[i], {'='})| == 2
    requires FormOf(pairs, urlDecode).Form?
    ensures Split(pairs[i], {'='})[0] in FormOf(pairs, urlDecode).table
    decreases |pairs|
  {
    var init := pairs[..|pairs| - 1];
    if i < |pairs| - 1 {
      assert init[i] == pairs[i];
      StoredOnce(init, urlDecode, i);
    }
  }

  /** Empty input gives an empty table. */
  lemma EmptyInput(urlDecode: string -> string)
    ensures FormOf(Split("", {'&'}), urlDecode) == Form(map[])
  {
    assert Split("", {'&'}) == [""];
    assert Split("", {'='}) == [""];
    assert [""][..0] == [];
  }

  /** "a=" stores key "a" with the decoded empty string. */
  lemma EmptyValue(urlDecode: string -> string)
    ensures FormOf(Split("a=", {'&'}), urlDecode) == Form(map["a" := urlDecode("")])
  {
    assert "a="[1..] == "=" && "="[1..] == "";
    assert Split("", {'&'}) == [""] && Split("", {'='}) == [""];
    assert [""][1..] == [] && ["="][1..] == [] && ["", ""][1..] == [""];
    assert ['='] + "" == "=" && ['a'] + "=" == "a=" && ['a'] + "" == "a";
    assert Split("=", {'&'}) == [['='] + ""] + [""][1..];
    assert Split("a=", {'&'}) == [['a'] + "="] + ["="][1..];
    assert Split("=", {'='}) == ["", ""];
    assert Split("a=", {'='}) == [['a'] + ""] + ["", ""][1..];
    assert ["a="][..0] == [];
  }
}
