/**
 * `TextPreprocessor.create_summary`: the first sentences of a text, the
 * first one capitalised, joined with ". " and closed with a period.
 */
module Summary {
  import opened Chars
  import opened Text
  import opened Normalizer
  import opened Tokenizer
  import opened Counting

  /** The end index of Python's slice `xs[:n]` on a list of length `len` (a negative `n` counts from the end). */
  function SliceEnd(len: nat, n: int): (k: nat)
    ensures k <= len
  {
    if n >= 0 then (if n <= len then n else len)
    else if len + n >= 0 then len + n
    else 0
  }

  /** `s[0].upper() + s[1:]` (only ever applied to a sentence, which is never empty). */
  function Capitalize(s: string): (r: string)
    ensures |r| == |s|
    ensures s != [] ==> r[0] == Upper(s[0]) && r[1..] == s[1..]
  {
    if s == [] then [] else [Upper(s[0])] + s[1..]
  }

  /**
   * The sentences `create_summary(text, num_sentences)` takes from the text:
   * the first `num_sentences` of them (all when there are fewer), or all but
   * the last `-num_sentences` when that is negative.  Each is a sentence as
   * `tokenize_sentences` yields it, so `first_sentence[0]` exists.
   */
  function SummarySentences(text: string, numSentences: int): (chosen: seq<string>)
    ensures var ss := TokenizeSentences(NormalizeText(text, true));
      && |chosen| <= |ss| && chosen == ss[..|chosen|]
      && (numSentences >= 0 ==> |chosen| == if numSentences < |ss| then numSentences else |ss|)
      && (numSentences < 0 ==> |chosen| == if |ss| + numSentences >= 0 then |ss| + numSentences else 0)
    ensures forall k :: 0 <= k < |chosen| ==> IsSentence(chosen[k])
  {
    var ss := TokenizeSentences(NormalizeText(text, true));
    ss[..SliceEnd(|ss|, numSentences)]
  }

  /**
   * `create_summary(text, num_sentences)`.  The summary is empty exactly
   * when no sentence is taken; otherwise it ends with a period, holds one
   * period per sentence taken, and splitting what precedes the final period
   * at ". " gives back the sentences taken, the first one capitalised.
   */
  method CreateSummary(text: string, numSentences: int) returns (summary: string)
    ensures var chosen := SummarySentences(text, numSentences);
      && (summary == [] <==> chosen == [])
      && Occurrences(summary, '.') == |chosen|
      && (chosen != [] ==>
            && chosen[0] != []
            && summary[|summary| - 1] == '.'
            && SplitOn(summary[..|summary| - 1], ". ") == [Capitalize(chosen[0])] + chosen[1..])
  {
    var chosen := SummarySentences(text, numSentences);
    ghost var taken := chosen;
    if chosen != [] {
      var first := chosen[0];
      chosen := chosen[0 := [Upper(first[0])] + first[1..]];
      CapitalizedSentences(taken);
    }
    summary := JoinWith(chosen, ". ");
    JoinOfSentences(chosen);
    if summary != [] && !IsTerminator(summary[|summary| - 1]) {
      ghost var joined := summary;
      summary := summary + ".";
      ClosedSummary(joined, summary);
    }
  }

  /** Closing a non-empty join with a period adds one period and leaves the join in front of it. */
  lemma ClosedSummary(joined: string, summary: string)
    requires summary == joined + "."
    ensures Occurrences(summary, '.') == Occurrences(joined, '.') + 1
    ensures summary[|summary| - 1] == '.' && summary[..|summary| - 1] == joined
  {
    OccurrencesConcat(joined, ".", '.');
  }

  /** Capitalising the first sentence keeps it a sentence. */
  lemma CapitalizedSentences(chosen: seq<string>)
    requires chosen != [] && forall k :: 0 <= k < |chosen| ==> IsSentence(chosen[k])
    ensures var c := chosen[0 := Capitalize(chosen[0])];
      && c == [Capitalize(chosen[0])] + chosen[1..]
      && forall k :: 0 <= k < |c| ==> IsSentence(c[k])
  {
    var first := chosen[0];

    var r := Capitalize(first);
    forall i | 0 <= i < |r| ensures !IsTerminator(r[i]) {
      if i > 0 {
        assert r[i] == first[i];
      }
    }
    assert r[|r| - 1] == first[|first| - 1] || |r| == 1;
  }

  /**
   * Joining sentences with ". ": empty exactly when there are none, one
   * period between each two, never ending in a terminator, and split back
   * into the same sentences.
   */
  lemma {:induction false} JoinOfSentences(parts: seq<string>)
    requires forall k :: 0 <= k < |parts| ==> IsSentence(parts[k])
    ensures JoinWith(parts, ". ") == [] <==> parts == []
    ensures parts != [] ==> Occurrences(JoinWith(parts, ". "), '.') == |parts| - 1
    ensures parts != [] ==> !IsTerminator(JoinWith(parts, ". ")[|JoinWith(parts, ". ")| - 1])
    ensures parts != [] ==> SplitOn(JoinWith(parts, ". "), ". ") == parts
  {
    if |parts| == 1 {
    } else if |parts| > 1 {
      var rest := JoinWith(parts[1..], ". ");
      JoinOfSentences(parts[1..]);
      OccurrencesConcat(parts[0], ". ", '.');
      OccurrencesConcat(parts[0] + ". ", rest, '.');
      assert JoinWith(parts, ". ") == parts[0] + ". " + rest;
    }
    if parts != [] {
      SplitJoin(parts, ". ");
    }
  }
}
