/**
 * String helpers with Python's semantics: `str.strip`, the `in` substring
 * test, `str.split(sep)` and `sep.join(parts)`.
 */
module Text {
  import opened Chars

  /** Number of whitespace characters at the front of `s`. */
  function LeadingSpaces(s: string): (k: nat)
    ensures k <= |s|
    ensures forall i :: 0 <= i < k ==> IsSpace(s[i])
    ensures k < |s| ==> !IsSpace(s[k])
  {
    if s != [] && IsSpace(s[0]) then 1 + LeadingSpaces(s[1..]) else 0
  }

  /** Number of whitespace characters at the back of `s`. */
  function TrailingSpaces(s: string): (k: nat)
    ensures k <= |s|
    ensures forall i :: |s| - k <= i < |s| ==> IsSpace(s[i])
    ensures k < |s| ==> !IsSpace(s[|s| - 1 - k])
  {
    if s != [] && IsSpace(s[|s| - 1]) then 1 + TrailingSpaces(s[..|s| - 1]) else 0
  }

  /** Python's `str.strip()`: drops the leading and the trailing whitespace. */
  function Strip(s: string): (r: string)
    ensures r == [] || (!IsSpace(r[0]) && !IsSpace(r[|r| - 1]))
    ensures LeadingSpaces(s) + |r| <= |s| && r == s[LeadingSpaces(s)..LeadingSpaces(s) + |r|]
    ensures forall i :: 0 <= i < LeadingSpaces(s) || LeadingSpaces(s) + |r| <= i < |s| ==> IsSpace(s[i])
  {
    var t := s[LeadingSpaces(s)..];
    t[..|t| - TrailingSpaces(t)]
  }

  /** `Strip` yields the empty string exactly when every character is whitespace. */
  lemma StripEmptyIff(s: string)
    ensures Strip(s) == [] <==> forall i :: 0 <= i < |s| ==> IsSpace(s[i])
  {
    if Strip(s) != [] {
      assert !IsSpace(s[LeadingSpaces(s)]);
    }
  }

  /** A string that neither starts nor ends with whitespace is its own `Strip`. */
  lemma StripTrimmed(s: string)
    requires s == [] || (!IsSpace(s[0]) && !IsSpace(s[|s| - 1]))
    ensures Strip(s) == s
  {
    var r := Strip(s);
    if s != [] {
      assert LeadingSpaces(s) == 0;
    }
  }

  /** A space in front of the text does not change its `Strip`. */
  lemma StripLeadingSpace(s: string)
    ensures Strip(" " + s) == Strip(s)
  {
    assert (" " + s)[1..] == s;
    assert LeadingSpaces(" " + s) == 1 + LeadingSpaces(s);
    assert (" " + s)[1 + LeadingSpaces(s)..] == s[LeadingSpaces(s)..];
  }

  /** Concatenation is associative. */
  lemma AppendAssoc<T>(x: seq<T>, y: seq<T>, z: seq<T>)
    ensures x + (y + z) == (x + y) + z
  {
  }

  /** `sub` occurs in `s` starting at index `i`. */
  predicate OccursAt(s: string, sub: string, i: int) {
    0 <= i && i + |sub| <= |s| && s[i..i + |sub|] == sub
  }

  /** Python's `sub in s`. */
  predicate Contains(s: string, sub: string) {
    exists i | 0 <= i <= |s| - |sub| :: OccursAt(s, sub, i)
  }

  /** A substring of a substring is a substring. */
  lemma ContainsTransitive(s: string, m: string, e: string)
    requires Contains(s, m) && Contains(m, e)
    ensures Contains(s, e)
  {
    var i :| 0 <= i <= |s| - |m| && OccursAt(s, m, i);
    var j :| 0 <= j <= |m| - |e| && OccursAt(m, e, j);
    assert s[i..i + |m|] == m;
    forall k | 0 <= k < |e|
      ensures s[i + j..i + j + |e|][k] == e[k]
    {
      assert e[k] == m[j + k] == s[i + j + k];
    }
    assert OccursAt(s, e, i + j);
  }

  /** A witness position proves `Contains`. */
  lemma ContainsAt(s: string, sub: string, i: nat)
    requires i + |sub| <= |s| && s[i..i + |sub|] == sub
    ensures Contains(s, sub)
  {
    assert OccursAt(s, sub, i);
  }

  /** Python's `sep.join(parts)`. */
  function JoinWith(parts: seq<string>, sep: string): string {
    if |parts| == 0 then []
    else if |parts| == 1 then parts[0]
    else parts[0] + sep + JoinWith(parts[1..], sep)
  }

  /** Python's `s.split(sep)` for a non-empty separator: cuts at each leftmost, non-overlapping occurrence. */
  function SplitOn(s: string, sep: string): (parts: seq<string>)
    requires |sep| > 0
    ensures |parts| >= 1
    ensures |parts[0]| <= |s| && parts[0] == s[..|parts[0]|]
    ensures forall k :: 0 <= k < |parts| ==> !Contains(parts[k], sep)
    decreases |s|
  {
    if |s| < |sep| then
      [s]
    else if s[..|sep|] == sep then
      [""] + SplitOn(s[|sep|..], sep)
    else
      var rest := SplitOn(s[1..], sep);
      var head := [s[0]] + rest[0];
      assert !Contains(head, sep) by {
        HeadHasNoSeparator(s, rest[0], sep);
      }
      [head] + rest[1..]
  }

  /**
   * Where `SplitOn` cuts: the first part runs up to the leftmost occurrence
   * of the separator (the whole string when there is none), and the other
   * parts are the split of what follows that occurrence.
   */
  lemma {:induction false} SplitOnCut(s: string, sep: string)
    requires |sep| > 0
    ensures var p := SplitOn(s, sep);
      && (forall i :: 0 <= i < |p[0]| ==> !OccursAt(s, sep, i))
      && (|p| == 1 ==> p[0] == s)
      && (|p| > 1 ==> OccursAt(s, sep, |p[0]|) && p[1..] == SplitOn(s[|p[0]| + |sep|..], sep))
    decreases |s|
  {
    if |s| < |sep| {
      assert SplitOn(s, sep) == [s];
    } else if s[..|sep|] == sep {
      SplitOnUnfoldSeparator(s, sep);
      assert OccursAt(s, sep, 0);
    } else {
      SplitOnCut(s[1..], sep);
      SplitOnCutStep(s, sep);
    }
  }

  /** The step of `SplitOnCut` when `s` does not start with the separator. */
  lemma SplitOnCutStep(s: string, sep: string)
    requires |sep| > 0 && |s| >= |sep| && s[..|sep|] != sep
    requires var r := SplitOn(s[1..], sep);
      && (forall i :: 0 <= i < |r[0]| ==> !OccursAt(s[1..], sep, i))
      && (|r| == 1 ==> r[0] == s[1..])
      && (|r| > 1 ==> OccursAt(s[1..], sep, |r[0]|) && r[1..] == SplitOn(s[1..][|r[0]| + |sep|..], sep))
    ensures var p := SplitOn(s, sep);
      && (forall i :: 0 <= i < |p[0]| ==> !OccursAt(s, sep, i))
      && (|p| == 1 ==> p[0] == s)
      && (|p| > 1 ==> OccursAt(s, sep, |p[0]|) && p[1..] == SplitOn(s[|p[0]| + |sep|..], sep))
  {
    var t := s[1..];
    var r := SplitOn(t, sep);
    SplitOnUnfold(s, sep);
    NoOccurrenceShift(s, sep, |r[0]|);
    if |r| == 1 {
      assert s == [s[0]] + t;
    } else {
      OccursAtShift(s, sep, |r[0]| + 1);
      assert t[|r[0]| + |sep|..] == s[|r[0]| + 1 + |sep|..];
    }
  }

  /** One step of `SplitOn` on a string that starts with the separator. */
  lemma SplitOnUnfoldSeparator(s: string, sep: string)
    requires |sep| > 0 && |s| >= |sep| && s[..|sep|] == sep
    ensures SplitOn(s, sep) == [""] + SplitOn(s[|sep|..], sep)
  {
  }

  /** One step of `SplitOn` on a string that does not start with the separator. */
  lemma SplitOnUnfold(s: string, sep: string)
    requires |sep| > 0 && |s| >= |sep| && s[..|sep|] != sep
    ensures SplitOn(s, sep) == [[s[0]] + SplitOn(s[1..], sep)[0]] + SplitOn(s[1..], sep)[1..]
  {
  }

  /** No occurrence in the first `n` positions of the tail, nor at 0, means none in the first `n + 1`. */
  lemma NoOccurrenceShift(s: string, sep: string, n: nat)
    requires |sep| > 0 && |s| >= |sep| && s[..|sep|] != sep
    requires forall i :: 0 <= i < n ==> !OccursAt(s[1..], sep, i)
    ensures forall i :: 0 <= i < n + 1 ==> !OccursAt(s, sep, i)
  {
    forall i | 0 < i < n + 1 ensures !OccursAt(s, sep, i) {
      OccursAtShift(s, sep, i);
    }
  }

  /** An occurrence at `i > 0` is an occurrence at `i - 1` in the tail. */
  lemma OccursAtShift(s: string, sep: string, i: nat)
    requires 0 < i && |s| > 0
    ensures OccursAt(s, sep, i) <==> OccursAt(s[1..], sep, i - 1)
  {
    if i + |sep| <= |s| {
      assert s[i..i + |sep|] == s[1..][i - 1..i - 1 + |sep|];
    }
  }

  lemma HeadHasNoSeparator(s: string, tail: string, sep: string)
    requires |sep| > 0 && |s| >= |sep| && s[..|sep|] != sep
    requires |tail| < |s| && tail == s[1..][..|tail|] && !Contains(tail, sep)
    ensures !Contains([s[0]] + tail, sep)
  {
    var head := [s[0]] + tail;
    forall i | 0 <= i <= |head| - |sep| ensures !OccursAt(head, sep, i) {
      if i == 0 {
        assert head[..|sep|] == s[..|sep|];
      } else {
        assert head[i..i + |sep|] == tail[i - 1..i - 1 + |sep|];
        assert !OccursAt(tail, sep, i - 1);
      }
    }
  }

  lemma JoinConsHead(c: char, parts: seq<string>, sep: string)
    requires |parts| >= 1
    ensures JoinWith([[c] + parts[0]] + parts[1..], sep) == [c] + JoinWith(parts, sep)
  {
    var q := [[c] + parts[0]] + parts[1..];
    if |parts| > 1 {
      assert q[1..] == parts[1..];
    }
  }

  /** Joining the pieces of a split gives the original string back. */
  lemma {:induction false} JoinSplit(s: string, sep: string)
    requires |sep| > 0
    ensures JoinWith(SplitOn(s, sep), sep) == s
    decreases |s|
  {
    if |s| < |sep| {
    } else if s[..|sep|] == sep {
      var rest := SplitOn(s[|sep|..], sep);
      JoinSplit(s[|sep|..], sep);
      assert ([""] + rest)[1..] == rest;
      assert s == sep + s[|sep|..];
    } else {
      var rest := SplitOn(s[1..], sep);
      JoinSplit(s[1..], sep);
      JoinConsHead(s[0], rest, sep);
      assert s == [s[0]] + s[1..];
    }
  }

  /** Splitting `p + t` where `p` never holds the separator's first character. */
  lemma {:induction false} SplitAfterFreePrefix(p: string, t: string, sep: string)
    requires |sep| > 0
    requires forall i :: 0 <= i < |p| ==> p[i] != sep[0]
    ensures SplitOn(p + t, sep) == [p + SplitOn(t, sep)[0]] + SplitOn(t, sep)[1..]
    decreases |p|
  {
    if p == [] {
      assert p + t == t;
      assert p + SplitOn(t, sep)[0] == SplitOn(t, sep)[0];
      assert SplitOn(t, sep) == [SplitOn(t, sep)[0]] + SplitOn(t, sep)[1..];
    } else {
      var s := p + t;
      if |s| >= |sep| {
        assert s[..|sep|] != sep by {
          assert s[..|sep|][0] == p[0];
        }
        assert s[1..] == p[1..] + t;
        SplitAfterFreePrefix(p[1..], t, sep);
        var rest := SplitOn(s[1..], sep);
        assert SplitOn(s, sep) == [[s[0]] + rest[0]] + rest[1..];
        assert [p[0]] + (p[1..] + SplitOn(t, sep)[0]) == p + SplitOn(t, sep)[0];
      }
    }
  }

  /**
   * Splitting a join gives the parts back, provided no part holds the
   * separator's first character.
   */
  lemma {:induction false} SplitJoin(parts: seq<string>, sep: string)
    requires |sep| > 0 && |parts| >= 1
    requires forall i, j :: 0 <= i < |parts| && 0 <= j < |parts[i]| ==> parts[i][j] != sep[0]
    ensures SplitOn(JoinWith(parts, sep), sep) == parts
    decreases |parts|
  {
    if |parts| == 1 {
      SplitAfterFreePrefix(parts[0], "", sep);
      assert parts[0] + "" == parts[0];
    } else {
      var rest := JoinWith(parts[1..], sep);
      SplitJoin(parts[1..], sep);
      assert JoinWith(parts, sep) == parts[0] + (sep + rest);
      SplitAfterFreePrefix(parts[0], sep + rest, sep);
      assert (sep + rest)[..|sep|] == sep;
      assert (sep + rest)[|sep|..] == rest;
      assert SplitOn(sep + rest, sep) == [""] + parts[1..];
    }
  }

  /** The join of two or more parts contains the separator. */
  lemma JoinContainsSeparator(parts: seq<string>, sep: string)
    requires |parts| >= 2
    ensures Contains(JoinWith(parts, sep), sep)
  {
    var s := JoinWith(parts, sep);
    assert s[|parts[0]|..|parts[0]| + |sep|] == sep;
    assert OccursAt(s, sep, |parts[0]|);
  }

  /** Concatenation of a sequence of strings. */
  function Flatten(ss: seq<string>): string {
    if ss == [] then [] else ss[0] + Flatten(ss[1..])
  }

  /** Total length of a sequence of strings. */
  function SumLengths(ss: seq<string>): nat {
    if ss == [] then 0 else |ss[0]| + SumLengths(ss[1..])
  }

  lemma {:induction false} FlattenLength(ss: seq<string>)
    ensures |Flatten(ss)| == SumLengths(ss)
  {
    if ss != [] {
      FlattenLength(ss[1..]);
    }
  }

  lemma {:induction false} FlattenConcat(a: seq<string>, b: seq<string>)
    ensures Flatten(a + b) == Flatten(a) + Flatten(b)
  {
    if a == [] {
      assert a + b == b;
    } else {
      assert (a + b)[1..] == a[1..] + b;
      FlattenConcat(a[1..], b);
    }
  }

  /** The non-whitespace characters of `s`, in order. */
  function RemoveWhitespace(s: string): string {
    if s == [] then [] else (if IsSpace(s[0]) then [] else [s[0]]) + RemoveWhitespace(s[1..])
  }

  lemma {:induction false} RemoveWhitespaceConcat(a: string, b: string)
    ensures RemoveWhitespace(a + b) == RemoveWhitespace(a) + RemoveWhitespace(b)
  {
    if a == [] {
      assert a + b == b;
    } else {
      assert (a + b)[1..] == a[1..] + b;
      RemoveWhitespaceConcat(a[1..], b);
    }
  }

  lemma {:induction false} RemoveWhitespaceAllSpace(s: string)
    requires forall i :: 0 <= i < |s| ==> IsSpace(s[i])
    ensures RemoveWhitespace(s) == []
  {
    if s != [] {
      RemoveWhitespaceAllSpace(s[1..]);
    }
  }

  /** Stripping only removes whitespace. */
  lemma StripKeepsText(s: string)
    ensures RemoveWhitespace(Strip(s)) == RemoveWhitespace(s)
  {
    var k := LeadingSpaces(s);
    var r := Strip(s);
    assert s == s[..k] + r + s[k + |r|..];
    RemoveWhitespaceConcat(s[..k] + r, s[k + |r|..]);
    RemoveWhitespaceConcat(s[..k], r);
    RemoveWhitespaceAllSpace(s[..k]);
    RemoveWhitespaceAllSpace(s[k + |r|..]);
  }

  lemma {:induction false} RemoveWhitespaceMembership(s: string, c: char)
    requires !IsSpace(c)
    ensures c in RemoveWhitespace(s) <==> c in s
  {
    if s != [] {
      RemoveWhitespaceMembership(s[1..], c);
      assert s == [s[0]] + s[1..];
    }
  }
}
