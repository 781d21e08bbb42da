/**
 * The rule-based tokenizers of `TextPreprocessor`: sentences (split on runs of
 * `.!?`), words (terminators deleted, split on whitespace), characters, and
 * the per-sentence word counts.
 */
module Tokenizer {
  import opened Chars
  import opened Text
  import Normalizer

  /** `re.sub(r'[.!?]', '', text)`. */
  function DeleteTerminators(s: string): (r: string)
    ensures |r| <= |s|
    ensures forall i :: 0 <= i < |r| ==> !IsTerminator(r[i]) && r[i] in s
  {
    if s == [] then []
    else (if IsTerminator(s[0]) then [] else [s[0]]) + DeleteTerminators(s[1..])
  }

  lemma {:induction false} DeleteTerminatorsNone(s: string)
    requires forall i :: 0 <= i < |s| ==> !IsTerminator(s[i])
    ensures DeleteTerminators(s) == s
  {
    if s != [] {
      DeleteTerminatorsNone(s[1..]);
    }
  }

  /**
   * `re.split(r'[.!?]+', text)` as a scan: `cur` is the fragment being read,
   * `inRun` says the previous character was a terminator (so a run of
   * terminators closes only one fragment).
   */
  function SplitFrom(s: string, cur: string, inRun: bool): (r: seq<string>)
    ensures |r| >= 1
  {
    if s == [] then [cur]
    else if IsTerminator(s[0]) then
      if inRun then SplitFrom(s[1..], cur, true) else [cur] + SplitFrom(s[1..], [], true)
    else SplitFrom(s[1..], cur + [s[0]], false)
  }

  function SplitOnTerminatorRuns(s: string): seq<string> {
    SplitFrom(s, [], false)
  }

  /** Together the fragments are `cur` followed by the text with its terminators deleted. */
  lemma {:induction false} SplitFromFlatten(s: string, cur: string, inRun: bool)
    ensures Flatten(SplitFrom(s, cur, inRun)) == cur + DeleteTerminators(s)
  {
    if s == [] {
      assert Flatten([cur]) == cur + [];
    } else if IsTerminator(s[0]) {
      if inRun {
        SplitFromFlatten(s[1..], cur, true);
      } else {
        var rest := SplitFrom(s[1..], [], true);
        SplitFromFlatten(s[1..], [], true);
        assert ([cur] + rest)[1..] == rest;
        assert Flatten([cur] + rest) == cur + Flatten(rest);
        assert [] + DeleteTerminators(s[1..]) == DeleteTerminators(s[1..]);
      }
    } else {
      SplitFromFlatten(s[1..], cur + [s[0]], false);
      assert cur + [s[0]] + DeleteTerminators(s[1..]) == cur + DeleteTerminators(s);
    }
  }

  /** No fragment holds a terminator. */
  lemma {:induction false} SplitFromNoTerminator(s: string, cur: string, inRun: bool)
    requires forall i :: 0 <= i < |cur| ==> !IsTerminator(cur[i])
    ensures forall k, i :: 0 <= k < |SplitFrom(s, cur, inRun)| && 0 <= i < |SplitFrom(s, cur, inRun)[k]| ==>
      !IsTerminator(SplitFrom(s, cur, inRun)[k][i])
  {
    if s != [] {
      if IsTerminator(s[0]) {
        SplitFromNoTerminator(s[1..], if inRun then cur else [], true);
      } else {
        SplitFromNoTerminator(s[1..], cur + [s[0]], false);
      }
    }
  }

  /** The fragments hold no terminator, and together they are the text with its terminators deleted. */
  lemma SplitFromSpec(s: string, cur: string, inRun: bool)
    requires forall i :: 0 <= i < |cur| ==> !IsTerminator(cur[i])
    ensures var r := SplitFrom(s, cur, inRun);
      && Flatten(r) == cur + DeleteTerminators(s)
      && forall k, i :: 0 <= k < |r| && 0 <= i < |r[k]| ==> !IsTerminator(r[k][i])
  {
    SplitFromFlatten(s, cur, inRun);
    SplitFromNoTerminator(s, cur, inRun);
  }

  /** `[s.strip() for s in fragments if s.strip()]`. */
  function StripNonEmpty(fragments: seq<string>): (r: seq<string>)
    ensures |r| <= |fragments|
  {
    if fragments == [] then []
    else
      var f := Strip(fragments[0]);
      (if f != [] then [f] else []) + StripNonEmpty(fragments[1..])
  }

  /** `tokenize_sentences(text)`: every sentence is non-empty, trimmed, and holds no `.`, `!` or `?`. */
  function TokenizeSentences(text: string): (r: seq<string>)
    ensures forall k :: 0 <= k < |r| ==> IsSentence(r[k])
  {
    SplitFromSpec(text, [], false);
    StripNonEmptyShape(SplitOnTerminatorRuns(text));
    StripNonEmpty(SplitOnTerminatorRuns(text))
  }

  /** Every kept fragment is non-empty, trimmed and free of terminators when the fragments are. */
  lemma {:induction false} StripNonEmptyShape(fragments: seq<string>)
    requires forall k, i :: 0 <= k < |fragments| && 0 <= i < |fragments[k]| ==> !IsTerminator(fragments[k][i])
    ensures forall k :: 0 <= k < |StripNonEmpty(fragments)| ==> IsSentence(StripNonEmpty(fragments)[k])
  {
    if fragments != [] {
      StripNonEmptyShape(fragments[1..]);
      var f := Strip(fragments[0]);
      var rest := StripNonEmpty(fragments[1..]);
      forall i | 0 <= i < |f| ensures !IsTerminator(f[i]) {
        assert f[i] == fragments[0][LeadingSpaces(fragments[0]) + i];
      }
      var r := StripNonEmpty(fragments);
      if f != [] {
        assert r == [f] + rest;
        assert IsSentence(f);
        forall k | 0 <= k < |r| ensures IsSentence(r[k]) {
          if k > 0 {
            assert r[k] == rest[k - 1];
          }
        }
      } else {
        assert r == rest;
      }
    }
  }

  /** A sentence as `tokenize_sentences` yields it: non-empty, trimmed, no terminator. */
  predicate IsSentence(s: string) {
    && s != []
    && !IsSpace(s[0]) && !IsSpace(s[|s| - 1])
    && forall i :: 0 <= i < |s| ==> !IsTerminator(s[i])
  }

  lemma {:induction false} StripNonEmptyKeepsText(fragments: seq<string>)
    ensures RemoveWhitespace(Flatten(StripNonEmpty(fragments))) == RemoveWhitespace(Flatten(fragments))
  {
    if fragments != [] {
      var f := Strip(fragments[0]);
      var rest := StripNonEmpty(fragments[1..]);
      StripNonEmptyKeepsText(fragments[1..]);
      StripKeepsText(fragments[0]);
      RemoveWhitespaceConcat(fragments[0], Flatten(fragments[1..]));
      if f != [] {
        assert ([f] + rest)[1..] == rest;
        RemoveWhitespaceConcat(f, Flatten(rest));
      } else {
        assert [] + rest == rest;
      }
    }
  }

  /**
   * The sentences keep every character of the text that is neither
   * whitespace nor a terminator, in source order, and nothing else.
   */
  lemma TokenizeSentencesKeepsText(text: string)
    ensures RemoveWhitespace(Flatten(TokenizeSentences(text))) == RemoveWhitespace(DeleteTerminators(text))
  {
    SplitFromSpec(text, [], false);
    assert [] + DeleteTerminators(text) == DeleteTerminators(text);
    StripNonEmptyKeepsText(SplitOnTerminatorRuns(text));
  }

  /** A text yields no sentence exactly when it is made of whitespace and terminators only. */
  lemma TokenizeSentencesEmptyIff(text: string)
    ensures TokenizeSentences(text) == [] <==> forall i :: 0 <= i < |text| ==> IsSpace(text[i]) || IsTerminator(text[i])
  {
    TokenizeSentencesKeepsText(text);
    ContentEmptyIff(text);
    var ss := TokenizeSentences(text);
    if ss != [] {
      assert Flatten(ss) == ss[0] + Flatten(ss[1..]);
      assert RemoveWhitespace(Flatten(ss)) != [] by {
        RemoveWhitespaceConcat(ss[0], Flatten(ss[1..]));
        RemoveWhitespaceEmptyIff(ss[0]);
      }
    }
  }

  /** Inside a run, further terminators are skipped. */
  lemma {:induction false} SplitFromSkipRun(t: string, b: string, cur: string)
    requires forall i :: 0 <= i < |t| ==> IsTerminator(t[i])
    ensures SplitFrom(t + b, cur, true) == SplitFrom(b, cur, true)
  {
    if t == [] {
      assert t + b == b;
    } else {
      assert (t + b)[1..] == t[1..] + b;
      SplitFromSkipRun(t[1..], b, cur);
    }
  }

  /**
   * A maximal run of terminators is one cut: the fragments of `a + t + b` are
   * those of `a` (the last one closed by the run) followed by those of `b`.
   */
  lemma {:induction false} SplitFromConcat(a: string, t: string, b: string, cur: string, inRun: bool)
    requires t != [] && forall i :: 0 <= i < |t| ==> IsTerminator(t[i])
    requires a == [] ==> !inRun
    requires a != [] ==> !IsTerminator(a[|a| - 1])
    requires b != [] ==> !IsTerminator(b[0])
    ensures SplitFrom(a + t + b, cur, inRun) == SplitFrom(a, cur, inRun) + SplitFrom(b, [], false)
  {
    if a == [] {
      assert a + t + b == t + b;
      assert (t + b)[1..] == t[1..] + b;
      SplitFromSkipRun(t[1..], b, []);
      assert SplitFrom(b, [], true) == SplitFrom(b, [], false);
    } else {
      assert (a + t + b)[1..] == a[1..] + t + b;
      if IsTerminator(a[0]) {
        SplitFromConcat(a[1..], t, b, if inRun then cur else [], true);
        if !inRun {
          var x := SplitFrom(a[1..], [], true);
          assert [cur] + (x + SplitFrom(b, [], false)) == ([cur] + x) + SplitFrom(b, [], false);
        }
      } else {
        SplitFromConcat(a[1..], t, b, cur + [a[0]], false);
      }
    }
  }

  /** A stretch without terminators is read whole into the current fragment. */
  lemma {:induction false} SplitFromSolid(x: string, cur: string, inRun: bool)
    requires forall i :: 0 <= i < |x| ==> !IsTerminator(x[i])
    ensures SplitFrom(x, cur, inRun) == [cur + x]
  {
    if x == [] {
      assert cur + x == cur;
    } else {
      assert cur + [x[0]] + x[1..] == cur + x;
      SplitFromSolid(x[1..], cur + [x[0]], false);
    }
  }

  /** Text read before the scan reaches `s` lands at the front of the first fragment only. */
  lemma {:induction false} SplitFromPrefix(s: string, p: string, cur: string, inRun: bool)
    ensures SplitFrom(s, p + cur, inRun) == [p + SplitFrom(s, cur, inRun)[0]] + SplitFrom(s, cur, inRun)[1..]
  {
    if s != [] {
      if IsTerminator(s[0]) {
        if inRun {
          SplitFromPrefix(s[1..], p, cur, true);
        } else {
          var rest := SplitFrom(s[1..], [], true);
          assert ([cur] + rest)[0] == cur && ([cur] + rest)[1..] == rest;
          assert [p + cur] + rest == [p + cur] + rest;
        }
      } else {
        assert p + cur + [s[0]] == p + (cur + [s[0]]);
        SplitFromPrefix(s[1..], p, cur + [s[0]], false);
      }
    }
  }

  lemma {:induction false} StripNonEmptyConcat(f: seq<string>, g: seq<string>)
    ensures StripNonEmpty(f + g) == StripNonEmpty(f) + StripNonEmpty(g)
  {
    if f == [] {
      assert f + g == g;
    } else {
      assert (f + g)[0] == f[0] && (f + g)[1..] == f[1..] + g;
      StripNonEmptyConcat(f[1..], g);
      var h := Strip(f[0]);
      AppendAssoc(if h != [] then [h] else [], StripNonEmpty(f[1..]), StripNonEmpty(g));
    }
  }

  /**
   * A maximal run of `.`, `!` or `?` is one sentence boundary: the sentences
   * of `a + t + b` are those of `a` followed by those of `b`.
   */
  lemma TokenizeSentencesConcat(a: string, t: string, b: string)
    requires t != [] && forall i :: 0 <= i < |t| ==> IsTerminator(t[i])
    requires a != [] ==> !IsTerminator(a[|a| - 1])
    requires b != [] ==> !IsTerminator(b[0])
    ensures TokenizeSentences(a + t + b) == TokenizeSentences(a) + TokenizeSentences(b)
  {
    SplitFromConcat(a, t, b, [], false);
    StripNonEmptyConcat(SplitFrom(a, [], false), SplitFrom(b, [], false));
  }

  /** Text without terminators is one sentence, stripped, or none when it is all whitespace. */
  lemma TokenizeSentencesSolid(x: string)
    requires forall i :: 0 <= i < |x| ==> !IsTerminator(x[i])
    ensures TokenizeSentences(x) == if Strip(x) == [] then [] else [Strip(x)]
  {
    SplitFromSolid(x, [], false);
    assert [] + x == x;
  }

  /** Two fragments that strip alike can be swapped at the head of a fragment list. */
  lemma StripNonEmptySwapHead(g: string, h: string, rest: seq<string>)
    requires Strip(g) == Strip(h)
    ensures StripNonEmpty([g] + rest) == StripNonEmpty([h] + rest)
  {
    assert ([g] + rest)[0] == g && ([g] + rest)[1..] == rest;
    assert ([h] + rest)[0] == h && ([h] + rest)[1..] == rest;
  }

  /** A space in front of the text changes no sentence. */
  lemma TokenizeSentencesLeadingSpace(x: string)
    ensures TokenizeSentences(" " + x) == TokenizeSentences(x)
  {
    var f := SplitFrom(x, [], false);
    assert (" " + x)[0] == ' ' && (" " + x)[1..] == x && [] + [' '] == " " + [] == " ";
    assert SplitFrom(" " + x, [], false) == SplitFrom(x, " ", false);
    SplitFromPrefix(x, " ", [], false);
    StripLeadingSpace(f[0]);
    StripNonEmptySwapHead(" " + f[0], f[0], f[1..]);
    assert f == [f[0]] + f[1..];
  }


  /** A sentence is tokenized as itself. */
  lemma TokenizeSentencesOne(s: string)
    requires IsSentence(s)
    ensures TokenizeSentences(s) == [s]
  {
    TokenizeSentencesSolid(s);
    StripTrimmed(s);
  }

  /** A sentence followed by ". " is the first sentence of what it starts. */
  lemma TokenizeSentencesCons(s: string, rest: string)
    requires IsSentence(s)
    ensures TokenizeSentences(s + ". " + rest) == [s] + TokenizeSentences(rest)
  {
    TokenizeSentencesOne(s);
    assert s + ". " + rest == s + "." + (" " + rest);
    TokenizeSentencesConcat(s, ".", " " + rest);
    TokenizeSentencesLeadingSpace(rest);
  }

  /** Joining sentences with ". " and tokenizing gives the same sentences back. */
  lemma {:induction false} TokenizeSentencesJoin(ss: seq<string>)
    requires forall k :: 0 <= k < |ss| ==> IsSentence(ss[k])
    ensures TokenizeSentences(JoinWith(ss, ". ")) == ss
  {
    if |ss| == 0 {
      assert Strip([]) == [];
    } else if |ss| == 1 {
      TokenizeSentencesOne(ss[0]);
    } else {
      TokenizeSentencesJoin(ss[1..]);
      TokenizeSentencesCons(ss[0], JoinWith(ss[1..], ". "));
      assert ss == [ss[0]] + ss[1..];
    }
  }

  lemma {:induction false} RemoveWhitespaceEmptyIff(s: string)
    ensures RemoveWhitespace(s) == [] <==> forall i :: 0 <= i < |s| ==> IsSpace(s[i])
  {
    if s != [] {
      RemoveWhitespaceEmptyIff(s[1..]);
      if !IsSpace(s[0]) {
        assert RemoveWhitespace(s)[0] == s[0];
      } else {
        assert forall i :: 1 <= i < |s| ==> s[i] == s[1..][i - 1];
      }
    }
  }

  /** Every character is whitespace or a terminator. */
  predicate NoContent(s: string) {
    forall i :: 0 <= i < |s| ==> IsSpace(s[i]) || IsTerminator(s[i])
  }

  lemma NoContentCons(s: string)
    requires s != []
    ensures NoContent(s) <==> (IsSpace(s[0]) || IsTerminator(s[0])) && NoContent(s[1..])
  {
    assert forall i :: 1 <= i < |s| ==> s[i] == s[1..][i - 1];
  }

  /** Deleting terminators and whitespace leaves nothing exactly when the text has no other character. */
  lemma {:induction false} ContentEmptyIff(s: string)
    ensures RemoveWhitespace(DeleteTerminators(s)) == [] <==> NoContent(s)
  {
    if s != [] {
      ContentEmptyIff(s[1..]);
      NoContentCons(s);
      var head := if IsTerminator(s[0]) then [] else [s[0]];
      RemoveWhitespaceConcat(head, DeleteTerminators(s[1..]));
      if head != [] {
        assert RemoveWhitespace(head) == (if IsSpace(s[0]) then [] else [s[0]]);
      }
    }
  }

  /** Python's `str.split()`, as a scan with the word being read in `cur`. */
  function SplitWhitespaceFrom(s: string, cur: string): (r: seq<string>)
  {
    if s == [] then (if cur == [] then [] else [cur])
    else if IsSpace(s[0]) then (if cur == [] then [] else [cur]) + SplitWhitespaceFrom(s[1..], [])
    else SplitWhitespaceFrom(s[1..], cur + [s[0]])
  }

  /**
   * `tokenize_words(text)`.  The words are non-empty, hold no whitespace and
   * no terminator, and together are exactly the text's characters that are
   * neither whitespace nor terminators, in order (so "a.b" gives the single
   * word "ab").  The source's filter `[w for w in words if w]` therefore
   * keeps every word.
   */
  function TokenizeWords(text: string): (r: seq<string>)
    ensures forall k :: 0 <= k < |r| ==> IsWord(r[k])
    ensures Flatten(r) == RemoveWhitespace(DeleteTerminators(text))
  {
    SplitWhitespaceFromSpec(DeleteTerminators(text), []);
    assert [] + RemoveWhitespace(DeleteTerminators(text)) == RemoveWhitespace(DeleteTerminators(text));
    SplitWhitespaceFrom(DeleteTerminators(text), [])
  }

  /** A word: non-empty, no whitespace, no terminator. */
  predicate IsWord(w: string) {
    w != [] && forall i :: 0 <= i < |w| ==> !IsSpace(w[i]) && !IsTerminator(w[i])
  }

  /** Together the words are `cur` followed by the non-whitespace characters of `s`. */
  lemma {:induction false} SplitWhitespaceFromFlatten(s: string, cur: string)
    ensures Flatten(SplitWhitespaceFrom(s, cur)) == cur + RemoveWhitespace(s)
  {
    if s == [] {
      assert Flatten([cur]) == cur + [];
    } else if IsSpace(s[0]) {
      var rest := SplitWhitespaceFrom(s[1..], []);
      SplitWhitespaceFromFlatten(s[1..], []);
      assert Flatten(rest) == RemoveWhitespace(s[1..]);
      FlattenCons(cur, rest);
    } else {
      SplitWhitespaceFromFlatten(s[1..], cur + [s[0]]);
      assert RemoveWhitespace(s) == [s[0]] + RemoveWhitespace(s[1..]);
      assert cur + [s[0]] + RemoveWhitespace(s[1..]) == cur + RemoveWhitespace(s);
    }
  }

  /** Putting a word in front of the list when it is not empty puts it in front of the concatenation. */
  lemma FlattenCons(cur: string, rest: seq<string>)
    ensures Flatten((if cur == [] then [] else [cur]) + rest) == cur + Flatten(rest)
  {
    if cur != [] {
      assert ([cur] + rest)[1..] == rest;
    } else {
      assert [] + rest == rest;
    }
  }

  /** Every word is non-empty and holds no whitespace and no terminator. */
  lemma {:induction false} SplitWhitespaceFromWords(s: string, cur: string)
    requires forall i :: 0 <= i < |s| ==> !IsTerminator(s[i])
    requires forall i :: 0 <= i < |cur| ==> !IsSpace(cur[i]) && !IsTerminator(cur[i])
    ensures forall k :: 0 <= k < |SplitWhitespaceFrom(s, cur)| ==> IsWord(SplitWhitespaceFrom(s, cur)[k])
  {
    if s != [] {
      assert forall i :: 0 <= i < |s[1..]| ==> s[1..][i] == s[i + 1];
      if IsSpace(s[0]) {
        SplitWhitespaceFromWords(s[1..], []);
      } else {
        SplitWhitespaceFromWords(s[1..], cur + [s[0]]);
      }
    }
  }

  lemma SplitWhitespaceFromSpec(s: string, cur: string)
    requires forall i :: 0 <= i < |s| ==> !IsTerminator(s[i])
    requires forall i :: 0 <= i < |cur| ==> !IsSpace(cur[i]) && !IsTerminator(cur[i])
    ensures var r := SplitWhitespaceFrom(s, cur);
      && Flatten(r) == cur + RemoveWhitespace(s)
      && forall k :: 0 <= k < |r| ==> IsWord(r[k])
  {
    SplitWhitespaceFromFlatten(s, cur);
    SplitWhitespaceFromWords(s, cur);
  }

  /** A whitespace run at the front is skipped when no word is being read. */
  lemma {:induction false} SplitWhitespaceSkip(w: string, b: string)
    requires forall i :: 0 <= i < |w| ==> IsSpace(w[i])
    ensures SplitWhitespaceFrom(w + b, []) == SplitWhitespaceFrom(b, [])
  {
    if w == [] {
      assert w + b == b;
    } else {
      assert (w + b)[1..] == w[1..] + b;
      SplitWhitespaceSkip(w[1..], b);
    }
  }

  /**
   * A whitespace run is one cut: the words of `a + w + b` are those of `a`
   * (after `cur`) followed by those of `b`.
   */
  lemma {:induction false} SplitWhitespaceConcat(a: string, w: string, b: string, cur: string)
    requires w != [] && forall i :: 0 <= i < |w| ==> IsSpace(w[i])
    ensures SplitWhitespaceFrom(a + w + b, cur) == SplitWhitespaceFrom(a, cur) + SplitWhitespaceFrom(b, [])
  {
    var emitted := if cur == [] then [] else [cur];
    if a == [] {
      assert a + w + b == w + b;
      assert (w + b)[1..] == w[1..] + b;
      SplitWhitespaceSkip(w[1..], b);
    } else {
      assert (a + w + b)[1..] == a[1..] + w + b;
      if IsSpace(a[0]) {
        SplitWhitespaceConcat(a[1..], w, b, []);
        var x := SplitWhitespaceFrom(a[1..], []);
        assert emitted + (x + SplitWhitespaceFrom(b, [])) == (emitted + x) + SplitWhitespaceFrom(b, []);
      } else {
        SplitWhitespaceConcat(a[1..], w, b, cur + [a[0]]);
      }
    }
  }

  /** A stretch without whitespace is read as one word (none when nothing was read). */
  lemma {:induction false} SplitWhitespaceSolid(x: string, cur: string)
    requires forall i :: 0 <= i < |x| ==> !IsSpace(x[i])
    ensures SplitWhitespaceFrom(x, cur) == if cur + x == [] then [] else [cur + x]
  {
    if x == [] {
      assert cur + x == cur;
    } else {
      assert cur + [x[0]] + x[1..] == cur + x;
      SplitWhitespaceSolid(x[1..], cur + [x[0]]);
    }
  }

  /** Deleting terminators distributes over concatenation. */
  lemma {:induction false} DeleteTerminatorsConcat(a: string, b: string)
    ensures DeleteTerminators(a + b) == DeleteTerminators(a) + DeleteTerminators(b)
  {
    if a == [] {
      assert a + b == b;
    } else {
      assert (a + b)[1..] == a[1..] + b;
      DeleteTerminatorsConcat(a[1..], b);
    }
  }

  /** On one character, `DeleteTerminators` drops it exactly when it is `.`, `!` or `?`. */
  lemma DeleteTerminatorsChar(c: char)
    ensures DeleteTerminators([c]) == if IsTerminator(c) then [] else [c]
  {
  }

  /**
   * A whitespace run is one word boundary: the words of `a + w + b` are those
   * of `a` followed by those of `b`.
   */
  lemma TokenizeWordsConcat(a: string, w: string, b: string)
    requires w != [] && forall i :: 0 <= i < |w| ==> IsSpace(w[i])
    ensures TokenizeWords(a + w + b) == TokenizeWords(a) + TokenizeWords(b)
  {
    DeleteTerminatorsNone(w);
    DeleteTerminatorsConcat(a + w, b);
    DeleteTerminatorsConcat(a, w);
    SplitWhitespaceConcat(DeleteTerminators(a), w, DeleteTerminators(b), []);
  }

  /** Text without whitespace is one word, its terminators deleted (none when nothing is left). */
  lemma TokenizeWordsSolid(x: string)
    requires forall i :: 0 <= i < |x| ==> !IsSpace(x[i])
    ensures TokenizeWords(x) == if DeleteTerminators(x) == [] then [] else [DeleteTerminators(x)]
  {
    var d := DeleteTerminators(x);
    assert forall i :: 0 <= i < |d| ==> !IsSpace(d[i]);
    SplitWhitespaceSolid(d, []);
    assert [] + d == d;
  }

  /** Joining words with single spaces and tokenizing gives the same words back. */
  lemma {:induction false} TokenizeWordsJoin(ws: seq<string>)
    requires forall k :: 0 <= k < |ws| ==> IsWord(ws[k])
    ensures TokenizeWords(JoinWith(ws, " ")) == ws
  {
    if |ws| > 0 {
      TokenizeWordsSolid(ws[0]);
      DeleteTerminatorsNone(ws[0]);
      if |ws| > 1 {
        TokenizeWordsConcat(ws[0], " ", JoinWith(ws[1..], " "));
        TokenizeWordsJoin(ws[1..]);
        assert ws == [ws[0]] + ws[1..];
      }
    }
  }

  /** `[c for c in text if c != ' ']`. */
  function DropSpaceChars(s: string): (r: string)
    ensures |r| <= |s|
    ensures forall i :: 0 <= i < |r| ==> r[i] != ' '
  {
    if s == [] then []
    else (if s[0] == ' ' then [] else [s[0]]) + DropSpaceChars(s[1..])
  }

  /** Dropping spaces distributes over concatenation. */
  lemma {:induction false} DropSpaceCharsConcat(a: string, b: string)
    ensures DropSpaceChars(a + b) == DropSpaceChars(a) + DropSpaceChars(b)
  {
    if a == [] {
      assert a + b == b;
    } else {
      assert (a + b)[1..] == a[1..] + b;
      DropSpaceCharsConcat(a[1..], b);
    }
  }

  /** On one character, `DropSpaceChars` drops it exactly when it is `' '`. */
  lemma DropSpaceCharsChar(c: char)
    ensures DropSpaceChars([c]) == if c == ' ' then [] else [c]
  {
  }

  /** Text without `' '` is left unchanged; other whitespace such as tabs and newlines stays. */
  lemma {:induction false} DropSpaceCharsFixpoint(s: string)
    requires forall i :: 0 <= i < |s| ==> s[i] != ' '
    ensures DropSpaceChars(s) == s
  {
    if s != [] {
      DropSpaceCharsFixpoint(s[1..]);
    }
  }

  /** Dropping spaces keeps every non-whitespace character, in order. */
  lemma {:induction false} DropSpaceCharsKeepsText(s: string)
    ensures RemoveWhitespace(DropSpaceChars(s)) == RemoveWhitespace(s)
  {
    if s != [] {
      DropSpaceCharsKeepsText(s[1..]);
      if s[0] != ' ' {
        assert ([s[0]] + DropSpaceChars(s[1..]))[1..] == DropSpaceChars(s[1..]);
      } else {
        assert [] + DropSpaceChars(s[1..]) == DropSpaceChars(s[1..]);
      }
    }
  }

  /**
   * `tokenize_chars(text, include_space)`; a Python list of one-character
   * strings is a sequence of characters here.  Both modes keep every
   * non-whitespace character in order; with spaces no two whitespace
   * characters are adjacent, and without them no `' '` is left.
   */
  function TokenizeChars(text: string, includeSpace: bool): (r: seq<char>)
    ensures RemoveWhitespace(r) == RemoveWhitespace(text)
    ensures includeSpace ==> forall i :: 0 <= i < |r| - 1 ==> !(IsSpace(r[i]) && IsSpace(r[i + 1]))
    ensures !includeSpace ==> forall i :: 0 <= i < |r| ==> r[i] != ' '
  {
    if includeSpace then
      Normalizer.CollapseWhitespaceKeepsText(text);
      Normalizer.CollapseWhitespaceSingleSpaces(text, Normalizer.CollapseWhitespace(text));
      Normalizer.CollapseWhitespace(text)
    else
      DropSpaceCharsKeepsText(text);
      DropSpaceChars(text)
  }

  /**
   * Text already in the shape a mode produces is returned unchanged: with
   * spaces, text whose only whitespace is single `' '`s; without them, text
   * holding no `' '` (tabs and newlines are kept).
   */
  lemma TokenizeCharsFixpoint(text: string, includeSpace: bool)
    requires includeSpace ==> forall i :: 0 <= i < |text| && IsSpace(text[i]) ==> text[i] == ' '
    requires includeSpace ==> forall i :: 0 <= i < |text| - 1 ==> !(IsSpace(text[i]) && IsSpace(text[i + 1]))
    requires !includeSpace ==> forall i :: 0 <= i < |text| ==> text[i] != ' '
    ensures TokenizeChars(text, includeSpace) == text
  {
    if includeSpace {
      Normalizer.CollapseWhitespaceFixpoint(text);
    } else {
      DropSpaceCharsFixpoint(text);
    }
  }

  /** Deleting terminators adds no character: whatever is left was in the text. */
  lemma {:induction false} DeleteTerminatorsKeepsMembers(s: string, c: char)
    requires c in DeleteTerminators(s)
    ensures c in s
  {
    var i :| 0 <= i < |DeleteTerminators(s)| && DeleteTerminators(s)[i] == c;
  }

  /** `get_sentence_lengths(sentences)`. */
  function GetSentenceLengths(sentences: seq<string>): (r: seq<nat>)
    ensures |r| == |sentences|
    ensures forall k :: 0 <= k < |r| ==> r[k] == |TokenizeWords(sentences[k])|
  {
    seq(|sentences|, k requires 0 <= k < |sentences| => |TokenizeWords(sentences[k])|)
  }

  /** Every sentence of `tokenize_sentences` has at least one word. */
  lemma SentenceHasWords(s: string)
    requires IsSentence(s)
    ensures |TokenizeWords(s)| >= 1
  {
    DeleteTerminatorsNone(s);
    assert RemoveWhitespace(s)[0] == s[0];
  }

  /** Each entry of `get_sentence_lengths` over the sentences of a text is at least one. */
  lemma SentenceLengthsPositive(text: string)
    ensures var lengths := GetSentenceLengths(TokenizeSentences(text));
      forall k :: 0 <= k < |lengths| ==> lengths[k] >= 1
  {
    var ss := TokenizeSentences(text);
    forall k | 0 <= k < |ss| ensures |TokenizeWords(ss[k])| >= 1 {
      SentenceHasWords(ss[k]);
    }
  }

  lemma {:induction false} DropSpaceCharsIsRemoveWhitespace(s: string)
    requires forall i :: 0 <= i < |s| && IsSpace(s[i]) ==> s[i] == ' '
    ensures DropSpaceChars(s) == RemoveWhitespace(s)
  {
    if s != [] {
      DropSpaceCharsIsRemoveWhitespace(s[1..]);
    }
  }

  /**
   * On a text of word characters and spaces, the number of non-space
   * characters equals the total length of the words.
   */
  lemma CharCountIsWordLength(t: string)
    requires forall i :: 0 <= i < |t| ==> IsWordChar(t[i]) || t[i] == ' '
    ensures |TokenizeChars(t, false)| == SumLengths(TokenizeWords(t))
  {
    DeleteTerminatorsNone(t);
    DropSpaceCharsIsRemoveWhitespace(t);
    FlattenLength(TokenizeWords(t));
  }
}
