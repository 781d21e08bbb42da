/**
 * The key conversion of `FrequencyAnalyzer.save_frequencies` and
 * `load_frequencies`.  JSON object keys are strings, so a tuple key is
 * written as its tokens joined by `||` and a key holding `||` is read back
 * as the tuple of its `||`-separated parts.  The JSON file itself is not
 * modelled: a saved table is the string-keyed association list that would
 * be dumped, and a loaded table is rebuilt from such a list.
 */
module KeyCodec {
  import opened Text
  import opened Counting
  import opened Ngrams

  const Separator: string := "||"

  /**
   * The JSON key a table key is saved under.  Loading it gives the key back
   * when the key is well formed.
   */
  function EncodeKey(key: NgramKey): (s: string)
    ensures WellFormedKey(key) ==> DecodeKey(s) == key
  {
    match key
    case Uni(token) => token
    case Multi(tokens) =>
      if WellFormedKey(key) then
        JoinContainsSeparator(tokens, Separator);
        SplitJoin(tokens, Separator);
        JoinWith(tokens, Separator)
      else
        JoinWith(tokens, Separator)
  }

  /**
   * The table key a JSON key is loaded as: a tuple of at least two parts
   * that join back into the JSON key, or the JSON key itself when it holds
   * no `||`.
   */
  function DecodeKey(s: string): (key: NgramKey)
    ensures key.Multi? ==> |key.tokens| >= 2 && JoinWith(key.tokens, Separator) == s
    ensures key.Uni? ==> key.token == s && !Contains(s, Separator)
    ensures key.Multi? ==> key.tokens == SplitOn(s, Separator)
  {
    if Contains(s, Separator) then
      JoinSplit(s, Separator);
      Multi(SplitOn(s, Separator))
    else
      Uni(s)
  }

  /**
   * Keys that survive a save and a load: a plain key without `||`, or a
   * tuple of at least two tokens none of which holds a `|`.
   */
  predicate WellFormedKey(key: NgramKey) {
    match key
    case Uni(token) => !Contains(token, Separator)
    case Multi(tokens) =>
      |tokens| >= 2 && forall i, j :: 0 <= i < |tokens| && 0 <= j < |tokens[i]| ==> tokens[i][j] != '|'
  }

  /** A one-token tuple is saved as its token and so comes back as a plain string key. */
  lemma SingletonTupleLoadsAsString(token: string)
    requires !Contains(token, Separator)
    ensures EncodeKey(Multi([token])) == token
    ensures DecodeKey(EncodeKey(Multi([token]))) == Uni(token)
  {
  }

  /** Two different well-formed keys are saved under different JSON keys. */
  lemma EncodeKeyInjective(a: NgramKey, b: NgramKey)
    requires WellFormedKey(a) && WellFormedKey(b) && EncodeKey(a) == EncodeKey(b)
    ensures a == b
  {
  }

  /** Two different JSON keys are loaded as different table keys. */
  lemma DecodeKeyInjective(s: string, u: string)
    requires DecodeKey(s) == DecodeKey(u)
    ensures s == u
  {
  }

  /**
   * The table built by visiting `t` in order and assigning each value under
   * the converted key (`d[f(key)] = value`): a later entry whose key
   * converts to the same key overwrites an earlier one.
   */
  function Rekey<K, K2(==), V>(t: seq<(K, V)>, f: K -> K2): (r: seq<(K2, V)>)
    ensures DistinctKeys(r) && |r| <= |t|
  {
    if t == [] then [] else Put(Rekey(t[..|t| - 1], f), f(t[|t| - 1].0), t[|t| - 1].1)
  }

  /** The entries of `t` with each key converted by `f`, one for one. */
  function MapKeys<K, K2, V>(t: seq<(K, V)>, f: K -> K2): (r: seq<(K2, V)>)
    ensures |r| == |t| && forall i :: 0 <= i < |t| ==> r[i] == (f(t[i].0), t[i].1)
  {
    if t == [] then [] else MapKeys(t[..|t| - 1], f) + [(f(t[|t| - 1].0), t[|t| - 1].1)]
  }

  /** `f` sends the keys of `t` to pairwise different keys. */
  predicate KeysStayDistinct<K, K2(==), V>(t: seq<(K, V)>, f: K -> K2) {
    forall i, j :: 0 <= i < j < |t| ==> f(t[i].0) != f(t[j].0)
  }

  /** When no two keys collide after conversion, nothing is overwritten: every entry is kept in order. */
  lemma {:induction false} RekeyKeepsEveryEntry<K, K2, V>(t: seq<(K, V)>, f: K -> K2)
    requires KeysStayDistinct(t, f)
    ensures Rekey(t, f) == MapKeys(t, f)
  {
    if t != [] {
      var n := |t| - 1;
      var prefix := t[..n];
      assert KeysStayDistinct(prefix, f) by {
        forall i, j | 0 <= i < j < |prefix| ensures f(prefix[i].0) != f(prefix[j].0) {
          assert prefix[i] == t[i] && prefix[j] == t[j];
        }
      }
      RekeyKeepsEveryEntry(prefix, f);
      var m := MapKeys(prefix, f);
      assert f(t[n].0) !in Keys(m) by {
        forall i | 0 <= i < |m| ensures Keys(m)[i] != f(t[n].0) {
          assert m[i].0 == f(t[i].0);
        }
      }
    }
  }

  /** The JSON object `save_frequencies` dumps, as a function of the table. */
  function Saved<V>(frequencies: seq<(NgramKey, V)>): seq<(string, V)> {
    Rekey(frequencies, EncodeKey)
  }

  /** The table `load_frequencies` returns, as a function of the JSON object read. */
  function Loaded<V>(json: seq<(string, V)>): seq<(NgramKey, V)> {
    Rekey(json, DecodeKey)
  }

  /**
   * `save_frequencies(frequencies, filename)`, up to the `json.dump`: each
   * entry is stored under its tuple joined by `||`, or under the string
   * key itself, in the table's order.
   */
  method SaveFrequencies<V>(frequencies: seq<(NgramKey, V)>) returns (jsonFriendly: seq<(string, V)>)
    ensures jsonFriendly == Saved(frequencies)
    ensures DistinctKeys(jsonFriendly)
  {
    jsonFriendly := [];
    var i := 0;
    while i < |frequencies|
      invariant 0 <= i <= |frequencies|
      invariant jsonFriendly == Rekey(frequencies[..i], EncodeKey)
    {
      var (key, value) := frequencies[i];
      assert frequencies[..i + 1][..i] == frequencies[..i];
      if key.Multi? {
        jsonFriendly := Put(jsonFriendly, JoinWith(key.tokens, Separator), value);
      } else {
        jsonFriendly := Put(jsonFriendly, key.token, value);
      }
      i := i + 1;
    }
    assert frequencies[..i] == frequencies;
  }

  /**
   * `load_frequencies(filename)`, after the `json.load`: a key holding `||`
   * becomes the tuple of its parts, any other key stays a string.
   */
  method LoadFrequencies<V>(json: seq<(string, V)>) returns (frequencies: seq<(NgramKey, V)>)
    ensures frequencies == Loaded(json)
    ensures DistinctKeys(frequencies)
  {
    frequencies := [];
    var i := 0;
    while i < |json|
      invariant 0 <= i <= |json|
      invariant frequencies == Rekey(json[..i], DecodeKey)
    {
      var (key, value) := json[i];
      assert json[..i + 1][..i] == json[..i];
      if Contains(key, Separator) {
        frequencies := Put(frequencies, Multi(SplitOn(key, Separator)), value);
      } else {
        frequencies := Put(frequencies, Uni(key), value);
      }
      i := i + 1;
    }
    assert json[..i] == json;
  }

  /** Saving keeps every entry of a table whose keys are distinct and well formed. */
  lemma SavedKeepsEveryEntry<V>(frequencies: seq<(NgramKey, V)>)
    requires DistinctKeys(frequencies)
    requires forall i :: 0 <= i < |frequencies| ==> WellFormedKey(frequencies[i].0)
    ensures Saved(frequencies) == MapKeys(frequencies, EncodeKey)
  {
    forall i, j | 0 <= i < j < |frequencies| ensures EncodeKey(frequencies[i].0) != EncodeKey(frequencies[j].0) {
      if EncodeKey(frequencies[i].0) == EncodeKey(frequencies[j].0) {
        EncodeKeyInjective(frequencies[i].0, frequencies[j].0);
      }
    }
    RekeyKeepsEveryEntry(frequencies, EncodeKey);
  }

  /** Loading keeps every entry of a JSON object (its keys are distinct). */
  lemma LoadedKeepsEveryEntry<V>(json: seq<(string, V)>)
    requires DistinctKeys(json)
    ensures Loaded(json) == MapKeys(json, DecodeKey)
  {
    forall i, j | 0 <= i < j < |json| ensures DecodeKey(json[i].0) != DecodeKey(json[j].0) {
      if DecodeKey(json[i].0) == DecodeKey(json[j].0) {
        DecodeKeyInjective(json[i].0, json[j].0);
      }
    }
    RekeyKeepsEveryEntry(json, DecodeKey);
  }

  /** Saving then loading gives back a table whose keys are distinct and well formed, entry for entry and in order. */
  lemma LoadSaved<V>(frequencies: seq<(NgramKey, V)>)
    requires DistinctKeys(frequencies)
    requires forall i :: 0 <= i < |frequencies| ==> WellFormedKey(frequencies[i].0)
    ensures Loaded(Saved(frequencies)) == frequencies
  {
    SavedKeepsEveryEntry(frequencies);
    var saved := Saved(frequencies);
    LoadedKeepsEveryEntry(saved);
    var loaded := MapKeys(saved, DecodeKey);
    assert forall i :: 0 <= i < |frequencies| ==> loaded[i] == frequencies[i];
  }

  /** Loading then saving gives back any JSON object, entry for entry and in order. */
  lemma SaveLoaded<V>(json: seq<(string, V)>)
    requires DistinctKeys(json)
    ensures Saved(Loaded(json)) == json
  {
    LoadedKeepsEveryEntry(json);
    var loaded := Loaded(json);
    forall i, j | 0 <= i < j < |loaded| ensures EncodeKey(loaded[i].0) != EncodeKey(loaded[j].0) {
      assert EncodeKey(loaded[i].0) == json[i].0 && EncodeKey(loaded[j].0) == json[j].0;
    }
    RekeyKeepsEveryEntry(loaded, EncodeKey);
    var saved := MapKeys(loaded, EncodeKey);
    forall i | 0 <= i < |json| ensures saved[i] == json[i] {
      assert EncodeKey(loaded[i].0) == json[i].0;
    }
  }

  /** No token holds a `|`, as for tokens taken from normalized text. */
  predicate PipeFree(tokens: seq<string>) {
    forall i, j :: 0 <= i < |tokens| && 0 <= j < |tokens[i]| ==> tokens[i][j] != '|'
  }

  /** An n-gram table (n at least two) over tokens without `|` comes back unchanged from a save and a load. */
  lemma NgramTableRoundTrip(tokens: seq<string>, n: nat, counts: seq<(NgramKey, nat)>)
    requires n >= 2 && PipeFree(tokens) && IsTallyOf(counts, Grams(tokens, n))
    ensures Loaded(Saved(counts)) == counts
  {
    NgramKeysAreWindows(tokens, n, counts);
    forall k | 0 <= k < |counts| ensures WellFormedKey(counts[k].0) {
      var w := counts[k].0.tokens;
      var i :| WindowAt(tokens, w, i);
      forall a, b | 0 <= a < |w| && 0 <= b < |w[a]| ensures w[a][b] != '|' {
        assert w[a] == tokens[i + a];
      }
    }
    LoadSaved(counts);
  }

  /** A character bigram of two `|` tokens is saved as `||||` and loaded as three empty tokens. */
  lemma PipeBigramDoesNotRoundTrip()
    ensures EncodeKey(Multi(["|", "|"])) == "||||"
    ensures DecodeKey("||||") == Multi(["", "", ""])
  {
    var s := "||||";
    assert OccursAt(s, Separator, 0);
    assert s[..2] == Separator && s[2..] == "||";
    assert s[2..][..2] == Separator && s[2..][2..] == "";
    assert SplitOn("", Separator) == [""];
    assert SplitOn("||", Separator) == [""] + SplitOn("", Separator);
  }
}
