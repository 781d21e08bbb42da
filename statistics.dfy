/**
 * `TextPreprocessor.get_text_statistics`: counts, averages and the ten most
 * common words of a text.  Averages are exact rationals here; Python rounds
 * the float quotient to two decimals.
 */
module Statistics {
  import opened Chars
  import opened Text
  import opened Normalizer
  import opened Tokenizer
  import opened Counting

  /** The statistics dictionary, one field per key. */
  datatype TextStatistics = TextStatistics(
    totalCharacters: nat,
    totalWords: nat,
    totalSentences: nat,
    avgWordLength: real,
    avgSentenceLength: real,
    mostCommonWords: seq<(string, nat)>)

  /** How many entries `most_common` is asked for. */
  const TopWords: nat := 10

  /** `sum(xs)`. */
  function Sum(xs: seq<nat>): nat {
    if xs == [] then 0 else xs[0] + Sum(xs[1..])
  }

  /** `total / count if count > 0 else 0`. */
  function Average(total: nat, count: nat): (r: real)
    ensures count > 0 ==> r * count as real == total as real
    ensures count == 0 ==> r == 0.0
    ensures r >= 0.0
  {
    if count > 0 then
      DivideBack(total as real, count as real);
      total as real / count as real
    else 0.0
  }

  lemma DivideBack(x: real, y: real)
    requires 0.0 <= x && 0.0 < y
    ensures (x / y) * y == x && x / y >= 0.0
  {
  }

  lemma DivideAtLeastOne(x: real, y: real)
    requires 0.0 < y <= x
    ensures x / y >= 1.0
  {
  }

  /**
   * `get_text_statistics(text)`.  `total_characters` is the total length of
   * the words, so there are characters exactly when there are words; a text
   * with a word has a sentence; each average is its total over its count
   * and at least one when the count is positive (0 otherwise); and
   * `most_common_words` holds min(10, distinct words) entries.
   */
  function GetTextStatistics(text: string): (st: TextStatistics)
    ensures st.totalWords == |StatisticsWords(text)|
    ensures st.totalCharacters == SumLengths(StatisticsWords(text))
    ensures st.totalWords == 0 <==> st.totalCharacters == 0
    ensures st.totalSentences == |TokenizeSentences(NormalizeText(text, true))|
    ensures st.totalWords > 0 ==> st.totalSentences > 0
    ensures st.avgWordLength == Average(st.totalCharacters, st.totalWords)
    ensures st.totalWords > 0 ==> st.avgWordLength >= 1.0
    ensures st.totalSentences > 0 ==> st.avgSentenceLength >= 1.0
    ensures st.avgSentenceLength == Average(Sum(GetSentenceLengths(TokenizeSentences(NormalizeText(text, true)))), st.totalSentences)
    ensures st.totalSentences == 0 ==> st.avgSentenceLength == 0.0
    ensures |st.mostCommonWords| == Min(TopWords, |Tally(StatisticsWords(text))|)
    ensures st.mostCommonWords == MostCommon(Tally(StatisticsWords(text)), TopWords)
  {
    var wordsText := NormalizeText(text, false);
    var words := TokenizeWords(wordsText);
    var chars := TokenizeChars(wordsText, false);
    var sentences := TokenizeSentences(NormalizeText(text, true));
    var lengths := GetSentenceLengths(sentences);
    CharCountIsWordLength(wordsText);
    WordsLengthAtLeastCount(words);
    AverageAtLeastOne(SumLengths(words), |words|);
    SentenceLengthsPositive(NormalizeText(text, true));
    SumAtLeastCount(lengths);
    AverageAtLeastOne(Sum(lengths), |sentences|);
    WordsImplySentences(text);
    TextStatistics(
      |chars|, |words|, |sentences|,
      Average(SumLengths(words), |words|),
      Average(Sum(lengths), |sentences|),
      MostCommon(Tally(words), TopWords))
  }

  /** The words the statistics are about. */
  function StatisticsWords(text: string): seq<string> {
    TokenizeWords(NormalizeText(text, false))
  }

  lemma {:induction false} WordsLengthAtLeastCount(ws: seq<string>)
    requires forall k :: 0 <= k < |ws| ==> IsWord(ws[k])
    ensures SumLengths(ws) >= |ws|
  {
    if ws != [] {
      WordsLengthAtLeastCount(ws[1..]);
    }
  }

  /** An average of a total at least as large as the count is at least one. */
  lemma AverageAtLeastOne(total: nat, count: nat)
    ensures 0 < count <= total ==> Average(total, count) >= 1.0
  {
    if 0 < count <= total {
      DivideAtLeastOne(total as real, count as real);
    }
  }

  lemma {:induction false} SumAtLeastCount(xs: seq<nat>)
    requires forall k :: 0 <= k < |xs| ==> xs[k] >= 1
    ensures Sum(xs) >= |xs|
  {
    if xs != [] {
      SumAtLeastCount(xs[1..]);
    }
  }

  /**
   * `most_common_words` holds min(10, distinct words) entries with their
   * exact counts, in non-increasing count order with ties in first-occurrence
   * order, no word twice.
   */
  lemma MostCommonWords(text: string)
    ensures var ws := StatisticsWords(text);
      var m := GetTextStatistics(text).mostCommonWords;
      && |m| == Min(TopWords, |Tally(ws)|)
      && (forall i :: 0 <= i < |m| ==> m[i].0 in ws && m[i].1 == Occurrences(ws, m[i].0))
      && CountOrdered(m, ws)
      && DistinctKeys(m)
  {
    MostCommonSpec(StatisticsWords(text), TopWords);
  }

  /** No word left out of `most_common_words` occurs more often than a word listed. */
  lemma MostCommonWordsMaximal(text: string, w: string, i: nat)
    requires w in StatisticsWords(text) && w !in Keys(GetTextStatistics(text).mostCommonWords)
    requires i < |GetTextStatistics(text).mostCommonWords|
    ensures Occurrences(StatisticsWords(text), w) <= GetTextStatistics(text).mostCommonWords[i].1
    ensures Precedes(GetTextStatistics(text).mostCommonWords[i], (w, Occurrences(StatisticsWords(text), w)), StatisticsWords(text))
  {
    MostCommonMaximal(StatisticsWords(text), TopWords, w, i);
  }

  /** A word character survives word-mode normalization only if it survives sentence-mode normalization. */
  lemma WordCharInBothModes(text: string, c: char)
    requires IsWordChar(c) && c in NormalizeText(text, false)
    ensures c in NormalizeText(text, true)
  {
    var b := CanonicalizePunctuation(LowerText(text));
    var x, y := ScrubPunctuation(b, false), ScrubPunctuation(b, true);
    NormalizeTextKeepsText(text, false);
    NormalizeTextKeepsText(text, true);
    RemoveWhitespaceMembership(NormalizeText(text, false), c);
    RemoveWhitespaceMembership(x, c);
    var k :| 0 <= k < |x| && x[k] == c;
    assert b[k] == c;
    assert y[k] == c;
    RemoveWhitespaceMembership(y, c);
    RemoveWhitespaceMembership(NormalizeText(text, true), c);
  }

  /** The first letter of the first word is a character of the text that is neither whitespace nor a terminator. */
  lemma FirstLetter(t: string) returns (c: char)
    requires TokenizeWords(t) != []
    ensures c in t && !IsSpace(c) && !IsTerminator(c)
  {
    var ws := TokenizeWords(t);
    assert Flatten(ws) == ws[0] + Flatten(ws[1..]);
    c := Flatten(ws)[0];
    assert c == ws[0][0];
    RemoveWhitespaceMembership(DeleteTerminators(t), c);
    DeleteTerminatorsKeepsMembers(t, c);
  }

  /** A text with at least one word has at least one sentence. */
  lemma WordsImplySentences(text: string)
    ensures TokenizeWords(NormalizeText(text, false)) != [] ==> TokenizeSentences(NormalizeText(text, true)) != []
  {
    if TokenizeWords(NormalizeText(text, false)) != [] {
      var c := FirstLetter(NormalizeText(text, false));
      WordCharInBothModes(text, c);
      var u := NormalizeText(text, true);
      TokenizeSentencesEmptyIff(u);
      var i :| 0 <= i < |u| && u[i] == c;
    }
  }

  /** The empty text has all counts and averages zero and no common words. */
  lemma EmptyTextStatistics()
    ensures GetTextStatistics("") == TextStatistics(0, 0, 0, 0.0, 0.0, [])
  {
    assert NormalizeText("", false) == "";
    assert NormalizeText("", true) == "";
  }
}
