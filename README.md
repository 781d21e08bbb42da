# Text preprocessing and n-gram frequencies, modelled in Dafny

`starter_preprocess.py` turns Project Gutenberg books into material for
Shannon-style language statistics. Its `TextPreprocessor` strips the
Gutenberg header and footer, normalizes case, quotes, dashes, punctuation
and whitespace, splits text into sentences, words and characters, and
computes summary statistics and a first-N-sentences summary. Its
`FrequencyAnalyzer` counts n-grams, turns counts into (optionally
Laplace-smoothed) probabilities, and converts tuple keys to `||`-joined
strings and back so a table can be stored as JSON.

This project models that core as Dafny functions and methods and proves
what the code promises about them:

- `Chars`: the character classes the regular expressions use (`\s`, `\w`, `[.!?]`), plus per-character lower and upper case.
- `Text`: the string primitives Python supplies:
  - `str.strip`, `in` on strings, `str.split(sep)` and `sep.join`;
  - the facts relating them, including that split and join are inverse;
  - the "non-whitespace content" projection `RemoveWhitespace`, which most "nothing is lost" lemmas use.
- `Counting`: `collections.Counter` and `most_common`, with dicts as association lists in insertion order.
  - A Counter lists each element once, with its number of occurrences, in first-occurrence order.
  - `most_common(k)` is the first `k` entries of a stable sort by descending count.
- `Cleaner`: `_remove_leading_junk` and `clean_gutenberg_text`. The marker scan is an imperative loop, as in the source.
- `Normalizer`: `normalize_text`, in both modes.
- `Tokenizer`: `tokenize_sentences`, `tokenize_words`, `tokenize_chars` and `get_sentence_lengths`.
- `Statistics`: `get_text_statistics`.
- `Summary`: `create_summary`, as a method that updates the first chosen sentence in place, as the source does.
- `Ngrams`: `calculate_ngrams` and `calculate_probabilities`, as methods with loops. Their specifications are functions and predicates, and the lemmas prove the properties of those.
- `KeyCodec`: the key conversion loops of `save_frequencies` and `load_frequencies`, and the round trips between them.

Python dicts are sequences of `(key, value)` pairs with distinct keys, in
insertion order. `d[k] = v` is `Ngrams.Put`. Iteration order matters for
`most_common` ties and for the order of the saved and loaded tables. Python
floats are Dafny `real`s. Python `str` is `seq<char>`. A tuple key is
`NgramKey.Multi(tokens)` and a plain-string key is `NgramKey.Uni(token)`.

One comment in the source and its code disagree, and the model follows the code. The comment at `starter_preprocess.py:194` says word mode keeps the apostrophes of contractions. But the second alternative of the pattern at `starter_preprocess.py:195` matches every apostrophe, so word mode removes all of them (`Normalizer.WordModeRejectsEveryApostrophe`).

## Model

| member | source | states |
|---|---|---|
| Chars.IsSpace | starter_preprocess.py:198 | `\s` and `str.split()` whitespace; no whitespace character is a terminator, `'`, `-` or a pipe |
| Chars.IsWordChar | starter_preprocess.py:192-195 | `\w`; a word character is never whitespace, a terminator, `'`, `-` or a pipe |
| Chars.Lower | starter_preprocess.py:183 | lower-casing a character keeps it a word character, whitespace or a terminator exactly when it was one |
| Chars.Upper | starter_preprocess.py:128 | upper-casing keeps each character class both ways, and a character it changes is the lower case of its result |
| Chars.Canonical | starter_preprocess.py:186-188 | word characters, whitespace, terminators, `'` and `-` are left alone; a replaced character becomes `"`, `'` or `-` |
| Chars.LowerIdempotent | starter_preprocess.py:183 | lower-casing a lower-cased character changes nothing |
| Text.Strip | starter_preprocess.py:172 | `strip()` returns the contiguous middle of the input that neither starts nor ends with whitespace; everything cut off is whitespace |
| Text.StripEmptyIff | starter_preprocess.py:207 | a string strips to empty exactly when it is all whitespace |
| Text.StripTrimmed | starter_preprocess.py:200 | stripping a string with no whitespace at either end returns it unchanged |
| Text.StripLeadingSpace | starter_preprocess.py:207 | a space in front of a string does not change what it strips to |
| Text.SplitOn | starter_preprocess.py:152 | `split(sep)` returns at least one piece; no piece contains the separator; the first piece is a prefix of the input |
| Text.SplitOnCut | starter_preprocess.py:303 | `split(sep)` cuts at the leftmost occurrence: the first piece holds no occurrence starting inside it, is the whole string when it is the only piece, and otherwise is followed by an occurrence, with the other pieces the split of what comes after it |
| Text.JoinSplit | starter_preprocess.py:152-166 | joining the pieces of `split(sep)` with `sep` gives the original string back |
| Text.SplitJoin | starter_preprocess.py:287-303 | splitting the join of pieces that do not hold the separator's first character gives the pieces back |
| Text.JoinContainsSeparator | starter_preprocess.py:287-302 | the join of two or more pieces contains the separator |
| Text.StripKeepsText | starter_preprocess.py:172 | stripping keeps every non-whitespace character, in order |
| Text.RemoveWhitespaceMembership | starter_preprocess.py:217 | a non-whitespace character survives dropping whitespace exactly when it was there |
| Cleaner.JunkPrefix | starter_preprocess.py:145 | the leading junk run: all BOM, zero-width space or whitespace, and followed by a non-junk character or the end |
| Cleaner.RemoveLeadingJunk | starter_preprocess.py:140-145 | the result is a suffix of the input; everything removed is junk; the result does not start with junk |
| Cleaner.RemoveLeadingJunkIdempotent | starter_preprocess.py:145 | removing leading junk twice equals removing it once |
| Cleaner.LinesOf | starter_preprocess.py:150-152 | the lines of the junk-free text: at least one, none holding a newline, and joined with newlines they give that text back |
| Cleaner.MarkerLineIsStartOrEnd | starter_preprocess.py:158-161 | every line holding one of the first four markers contains `START` or `END`, so the scan's inner `if/elif` always fires |
| Cleaner.StartMarkers | starter_preprocess.py:22-24 | markers 1 and 3 contain `START` |
| Cleaner.EndMarkers | starter_preprocess.py:23-25 | markers 2 and 4 contain `END` |
| Cleaner.MarkerBoundsUnique | starter_preprocess.py:154-163 | the line range the scan keeps is determined by the lines alone |
| Cleaner.KeptLinesHaveNoMarker | starter_preprocess.py:157-166 | no kept line is a START or END marker line |
| Cleaner.ScanStep | starter_preprocess.py:157-163 | one loop step: a START line moves the start past it, an END line fixes the end, any other line keeps the scan state |
| Cleaner.ScanDone | starter_preprocess.py:155-163 | a scan that meets no END line keeps everything from the start to the last line |
| Cleaner.CollapseNewlineRuns | starter_preprocess.py:169 | collapsing newline runs never lengthens the text and keeps its first character |
| Cleaner.CollapseNewlineRunsRun | starter_preprocess.py:169 | a newline run in front of text not starting with a newline stays when one or two long and becomes `\n\n` otherwise |
| Cleaner.CollapseNewlineRunsAppend | starter_preprocess.py:169 | text not ending in a newline is collapsed independently of what follows |
| Cleaner.CollapseNewlineRunsConcat | starter_preprocess.py:169 | run by run: a maximal newline run of length 3 or more becomes `\n\n`, a shorter one stays, and the text on either side is collapsed on its own |
| Cleaner.CollapseNewlineRunsFixpoint | starter_preprocess.py:169 | text with no three newlines in a row is unchanged |
| Cleaner.CollapseSpaceRuns | starter_preprocess.py:170 | collapsing space runs never lengthens the text and keeps its first character |
| Cleaner.CollapseSpaceRunsRun | starter_preprocess.py:170 | a space run in front of text not starting with a space becomes one space |
| Cleaner.CollapseSpaceRunsAppend | starter_preprocess.py:170 | text not ending in a space is collapsed independently of what follows |
| Cleaner.CollapseSpaceRunsConcat | starter_preprocess.py:170 | run by run: a maximal space run becomes one space, and the text on either side is collapsed on its own |
| Cleaner.CollapseSpaceRunsFixpoint | starter_preprocess.py:170 | text with no two spaces in a row is unchanged |
| Cleaner.CollapseNewlineRunsShape | starter_preprocess.py:169 | after `\n{3,}` → `\n\n` there are no three newlines in a row |
| Cleaner.CollapseSpaceRunsShape | starter_preprocess.py:170 | after ` {2,}` → ` ` there are no two spaces in a row |
| Cleaner.CollapseSpaceRunsKeepsNewlineShape | starter_preprocess.py:169-170 | collapsing spaces does not create a newline triple |
| Cleaner.StripKeepsShape | starter_preprocess.py:172 | stripping creates no newline triple and no double space |
| Cleaner.CollapseNewlineRunsKeepsText | starter_preprocess.py:169 | collapsing newlines keeps every non-whitespace character |
| Cleaner.CollapseSpaceRunsKeepsText | starter_preprocess.py:170 | collapsing spaces keeps every non-whitespace character |
| Cleaner.Tidy | starter_preprocess.py:169-172 | the tidied text is trimmed, has no newline triple and no double space, and keeps every non-whitespace character in order |
| Cleaner.TidyFixpoint | starter_preprocess.py:169-172 | text that is already trimmed, with no newline triple and no double space, comes back unchanged |
| Cleaner.CleanGutenbergText | starter_preprocess.py:147-172 | the result is the tidied join of exactly the lines after the last START marker before the first END marker, up to that END marker (or the end); it is trimmed, with no newline triple and no double space |
| Cleaner.CleanedShape | starter_preprocess.py:166-172 | the lines kept by the scan, joined and tidied, have the shape the method promises |
| Cleaner.FirstLineOfCleanText | starter_preprocess.py:150-152 | after junk removal the first line is empty only when the whole text is |
| Cleaner.NoLeadingJunkWithoutStart | starter_preprocess.py:150-172 | when no START marker was found, the cleaned text does not begin with a BOM, zero-width space or whitespace |
| Normalizer.LowerText | starter_preprocess.py:183 | `lower()` maps each character to its lower case and keeps the length |
| Normalizer.CanonicalizePunctuation | starter_preprocess.py:186-188 | curly quotes become straight and em or en dashes become `-`, character by character |
| Normalizer.ScrubPunctuation | starter_preprocess.py:190-195 | same length; character i of the result is character i of the input when the mode allows it (`\w`, `\s`, and in sentence mode `.!?'-`) and a space otherwise |
| Normalizer.WordModeRejectsEveryApostrophe | starter_preprocess.py:195 | in word mode a character is replaced exactly when it is neither a word character nor whitespace, so every apostrophe becomes a space |
| Normalizer.CollapseWhitespace | starter_preprocess.py:198 | `\s+` → ` ` never lengthens the text, keeps it non-empty when it was, and keeps whether it starts with whitespace |
| Normalizer.CollapseWhitespaceRun | starter_preprocess.py:198 | a whitespace run in front of text not starting with whitespace becomes one space |
| Normalizer.CollapseWhitespaceAppend | starter_preprocess.py:198 | text not ending in whitespace is collapsed independently of what follows |
| Normalizer.CollapseWhitespaceConcat | starter_preprocess.py:198 | run by run: a maximal whitespace run becomes one space, and the text on either side is collapsed on its own |
| Normalizer.CollapseWhitespaceSingleSpaces | starter_preprocess.py:198 | after collapsing, no two whitespace characters are adjacent |
| Normalizer.CollapseWhitespaceLast | starter_preprocess.py:198 | collapsing keeps whether the text ends with whitespace |
| Normalizer.CollapseWhitespaceKeepsText | starter_preprocess.py:198 | collapsing keeps every non-whitespace character, in order |
| Normalizer.CollapseWhitespaceFixpoint | starter_preprocess.py:198 | text whose only whitespace is single spaces is unchanged by collapsing |
| Normalizer.CollapseStripKeepsText | starter_preprocess.py:198-200 | collapsing and stripping keep every non-whitespace character |
| Normalizer.NormalizeText | starter_preprocess.py:174-200 | the output is lower case, holds only word characters, single spaces and, in sentence mode, `.!?'-`, with no space at either end |
| Normalizer.LowerTextIsLowerFixed | starter_preprocess.py:183 | lower-cased text is its own lower case |
| Normalizer.LowerTextFixpoint | starter_preprocess.py:183 | lower-casing text that is already lower case changes nothing |
| Normalizer.NormalizedIsFixpoint | starter_preprocess.py:174-200 | normalizing already-normalized text returns it unchanged |
| Normalizer.NormalizeTextKeepsText | starter_preprocess.py:174-200 | the normalized text holds, in order, exactly the non-whitespace characters of the lower-cased, canonicalized and scrubbed text: the last two steps only collapse and strip whitespace |
| Normalizer.NormalizeTextIdempotent | starter_preprocess.py:174-200 | normalizing twice equals normalizing once, in both modes |
| Normalizer.NormalizedSpacing | starter_preprocess.py:198-200 | normalized text has only single spaces as whitespace and none at either end |
| Normalizer.CanonicalFixpoint | starter_preprocess.py:186-188 | text of allowed characters is unchanged by the quote and dash replacement |
| Normalizer.ScrubFixpoint | starter_preprocess.py:190-195 | text of allowed characters is unchanged by the punctuation scrub |
| Normalizer.WordModeKeepsOnlyWordCharsAndSpaces | starter_preprocess.py:193-195 | word-mode output holds only word characters and spaces |
| Tokenizer.DeleteTerminators | starter_preprocess.py:214 | `re.sub(r'[.!?]', '', …)` keeps only characters of the input and leaves no terminator |
| Tokenizer.DeleteTerminatorsChar | starter_preprocess.py:214 | on one character, the result is empty for `.`, `!` or `?` and the character itself otherwise |
| Tokenizer.DeleteTerminatorsConcat | starter_preprocess.py:214 | deleting terminators distributes over concatenation, so with the one-character law it fixes the result for every text |
| Tokenizer.DeleteTerminatorsNone | starter_preprocess.py:214 | text without terminators is unchanged |
| Tokenizer.SplitFromSpec | starter_preprocess.py:204 | `re.split(r'[.!?]+')`: the fragments concatenate to the text without its terminators, and no fragment holds a terminator |
| Tokenizer.SplitFromConcat | starter_preprocess.py:204 | a maximal terminator run is exactly one cut: the fragments of `a + run + b` are those of `a` followed by those of `b` |
| Tokenizer.SplitFromSolid | starter_preprocess.py:204 | text without terminators is one fragment |
| Tokenizer.SplitFromSkipRun | starter_preprocess.py:204 | inside a run, further terminators open no new fragment |
| Tokenizer.SplitFromPrefix | starter_preprocess.py:204 | characters read before a position land only at the front of the first fragment |
| Tokenizer.StripNonEmptyShape | starter_preprocess.py:207 | the kept fragments are non-empty, trimmed and terminator-free |
| Tokenizer.StripNonEmptyConcat | starter_preprocess.py:207 | the strip-and-filter comprehension distributes over concatenation of fragment lists |
| Tokenizer.StripNonEmptyKeepsText | starter_preprocess.py:207 | stripping and filtering fragments loses no non-whitespace character |
| Tokenizer.TokenizeSentences | starter_preprocess.py:202-209 | every sentence is non-empty, trimmed and free of `.`, `!` and `?` |
| Tokenizer.TokenizeSentencesConcat | starter_preprocess.py:202-209 | a maximal run of terminators is one sentence boundary: the sentences of `a + run + b` are those of `a` then those of `b` |
| Tokenizer.TokenizeSentencesSolid | starter_preprocess.py:202-209 | text without terminators is one sentence, its stripped self, or none when it is all whitespace |
| Tokenizer.TokenizeSentencesLeadingSpace | starter_preprocess.py:202-209 | a space in front of the text changes no sentence |
| Tokenizer.TokenizeSentencesOne | starter_preprocess.py:202-209 | a sentence is tokenized as itself |
| Tokenizer.TokenizeSentencesCons | starter_preprocess.py:202-209 | a sentence followed by `". "` is the first sentence of the text it starts |
| Tokenizer.TokenizeSentencesJoin | starter_preprocess.py:202-209 | joining sentences with `". "` and tokenizing gives the same sentences back |
| Tokenizer.TokenizeSentencesKeepsText | starter_preprocess.py:202-209 | the sentences hold, in order, exactly the non-whitespace, non-terminator characters of the text |
| Tokenizer.TokenizeSentencesEmptyIff | starter_preprocess.py:202-209 | there are no sentences exactly when the text is only whitespace and terminators |
| Tokenizer.ContentEmptyIff | starter_preprocess.py:204-207 | a text has no non-whitespace, non-terminator character exactly when it is only whitespace and terminators |
| Tokenizer.RemoveWhitespaceEmptyIff | starter_preprocess.py:207 | dropping whitespace leaves nothing exactly when the text is all whitespace |
| Tokenizer.SplitWhitespaceFromSpec | starter_preprocess.py:217-218 | `str.split()` yields non-empty words without whitespace that concatenate to the text's non-whitespace characters |
| Tokenizer.SplitWhitespaceConcat | starter_preprocess.py:217 | a whitespace run is exactly one word boundary: the words of `a + run + b` are those of `a` then those of `b` |
| Tokenizer.SplitWhitespaceSolid | starter_preprocess.py:217 | text without whitespace is one word, or none when empty |
| Tokenizer.SplitWhitespaceSkip | starter_preprocess.py:217 | leading whitespace opens no word |
| Tokenizer.TokenizeWords | starter_preprocess.py:211-220 | every word is non-empty with no whitespace and no terminator, and the words concatenate to the text's non-whitespace, non-terminator characters |
| Tokenizer.TokenizeWordsConcat | starter_preprocess.py:211-220 | a whitespace run is one word boundary: the words of `a + run + b` are those of `a` then those of `b` |
| Tokenizer.TokenizeWordsSolid | starter_preprocess.py:211-220 | text without whitespace is one word with its terminators deleted, or none when nothing is left |
| Tokenizer.TokenizeWordsJoin | starter_preprocess.py:211-220 | joining words with single spaces and tokenizing gives the same words back |
| Tokenizer.DropSpaceChars | starter_preprocess.py:229 | `[c for c in text if c != ' ']` keeps only characters of the input and no space |
| Tokenizer.DropSpaceCharsChar | starter_preprocess.py:229 | on one character, the result is empty for `' '` and the character itself otherwise |
| Tokenizer.DropSpaceCharsConcat | starter_preprocess.py:229 | dropping spaces distributes over concatenation, so with the one-character law it fixes the result for every text |
| Tokenizer.DropSpaceCharsFixpoint | starter_preprocess.py:229 | text holding no `' '` is unchanged, so other whitespace is kept |
| Tokenizer.DropSpaceCharsKeepsText | starter_preprocess.py:229 | dropping spaces keeps every non-whitespace character, in order |
| Tokenizer.DropSpaceCharsIsRemoveWhitespace | starter_preprocess.py:229 | when spaces are the only whitespace, dropping `' '` drops all whitespace |
| Tokenizer.TokenizeCharsFixpoint | starter_preprocess.py:222-229 | with spaces, text whose only whitespace is single `' '`s comes back unchanged; without them, text holding no `' '` comes back unchanged, tabs and newlines included |
| Tokenizer.TokenizeChars | starter_preprocess.py:222-229 | both modes keep every non-whitespace character in order; with spaces no two whitespace characters are adjacent; without them no `' '` is left |
| Tokenizer.CharCountIsWordLength | starter_preprocess.py:222-229 | on normalized word-mode text, the characters without spaces number the total length of the words |
| Tokenizer.GetSentenceLengths | starter_preprocess.py:231-233 | one entry per sentence, and entry k is the number of words `tokenize_words` finds in sentence k |
| Tokenizer.SentenceHasWords | starter_preprocess.py:231-233 | a sentence has at least one word |
| Tokenizer.SentenceLengthsPositive | starter_preprocess.py:231-233 | every sentence length of a tokenized text is at least one |
| Counting.Occurrences | starter_preprocess.py:94 | the count of an element is at most the length and positive exactly when the element occurs |
| Counting.OccurrencesConcat | starter_preprocess.py:94 | counts add up over a concatenation |
| Counting.Rank | starter_preprocess.py:94 | the first-occurrence index is the index of an occurrence, and is below the length exactly when the element occurs |
| Counting.Bump | starter_preprocess.py:94 | adding one element keeps keys distinct and raises the total count by one |
| Counting.Tally | starter_preprocess.py:94 | `Counter(xs)` has distinct keys and counts summing to the length |
| Counting.BumpEntries | starter_preprocess.py:94 | adding a known element keeps the size; a new element is appended with count 1; the other entries keep their keys and counts |
| Counting.TallyCounts | starter_preprocess.py:94 | every Counter entry is an element of the input with its number of occurrences |
| Counting.TallyCovers | starter_preprocess.py:94 | every input element is a Counter key |
| Counting.TallyOrder | starter_preprocess.py:94 | Counter keys are in first-occurrence order |
| Counting.TallySpec | starter_preprocess.py:94 | the Counter is exactly the tally of its input: distinct, exact counts, complete, ordered, total equals length |
| Counting.InsertByCountPermutes | starter_preprocess.py:95 | inserting into the sorted list adds exactly that entry |
| Counting.SortByCountPermutes | starter_preprocess.py:95 | sorting by count is a permutation |
| Counting.InsertByCountDescending | starter_preprocess.py:95 | inserting into a list with non-increasing counts keeps the counts non-increasing |
| Counting.SortByCountDescending | starter_preprocess.py:95 | the sort leaves the counts in non-increasing order |
| Counting.SortByCountOrdered | starter_preprocess.py:95 | the sort is descending by count, with ties in first-occurrence order |
| Counting.OrderedDistinct | starter_preprocess.py:95 | a count-ordered list of exact counts has no key twice |
| Counting.MostCommon | starter_preprocess.py:95 | `most_common(k)` holds min(k, len) entries, each an entry of the table, with counts in non-increasing order |
| Counting.MostCommonSpec | starter_preprocess.py:95 | `most_common(k)` of a Counter holds min(k, distinct) entries, each with its exact count, in descending count order with stable ties, no key twice |
| Counting.MostCommonMaximal | starter_preprocess.py:95 | every entry of `most_common(k)` comes before each element left out: it occurs more often, or as often and first earlier in the input, so ties at the cut keep the earliest elements |
| Counting.MostCommonExample | starter_preprocess.py:94-95 | for three distinct elements, `Counter([a,b,a,c,b,a]).most_common(2) == [(a,3),(b,2)]` |
| Statistics.Average | starter_preprocess.py:89-92 | the average times the count is the total when the count is positive, 0 when it is zero, never negative |
| Statistics.AverageAtLeastOne | starter_preprocess.py:89-92 | a total at least the positive count averages at least one |
| Statistics.GetTextStatistics | starter_preprocess.py:55-106 | `total_words` is the number of word-mode words and `total_characters` their total length; there are characters exactly when there are words; `total_sentences` is the number of sentence-mode sentences, and a text with a word has one; `avg_word_length` is characters over words and at least one when there is a word; `avg_sentence_length` is the sum of the per-sentence word counts over the number of sentences, at least one when there is a sentence and 0 otherwise; `most_common_words` holds min(10, distinct words) entries and is `most_common(10)` of the word counter |
| Statistics.MostCommonWords | starter_preprocess.py:94-95 | `most_common_words` holds min(10, distinct words) words with exact counts, in descending count order with stable ties |
| Statistics.MostCommonWordsMaximal | starter_preprocess.py:94-95 | every word in the top ten comes before each word left out: it occurs more often, or as often and first earlier in the text |
| Statistics.WordCharInBothModes | starter_preprocess.py:68-76 | a word character surviving word-mode normalization survives sentence-mode normalization |
| Statistics.FirstLetter | starter_preprocess.py:211-220 | a text with a word holds a character that is neither whitespace nor a terminator |
| Statistics.WordsImplySentences | starter_preprocess.py:68-81 | when the word-mode text has a word, the sentence-mode text has a sentence |
| Tokenizer.DeleteTerminatorsKeepsMembers | starter_preprocess.py:214 | every character left after deleting terminators was in the text |
| Statistics.EmptyTextStatistics | starter_preprocess.py:55-106 | the empty text has zero counts, zero averages and no common words |
| Summary.SliceEnd | starter_preprocess.py:123 | the end of `sentences[:n]` is within the list |
| Summary.Capitalize | starter_preprocess.py:128-129 | the first character is upper-cased and the rest is unchanged |
| Summary.SummarySentences | starter_preprocess.py:119-123 | the chosen sentences are a prefix of the text's sentences: min(n, len) of them for n ≥ 0, len + n for negative n (none when -n exceeds len); each is a sentence, so `first_sentence[0]` exists |
| Summary.CapitalizedSentences | starter_preprocess.py:126-129 | capitalizing the first chosen sentence keeps every chosen item a sentence |
| Summary.JoinOfSentences | starter_preprocess.py:132 | the `". "` join of sentences is empty only for no sentences, has one fewer period than sentences, does not end in a terminator, and splits back into the sentences |
| Summary.ClosedSummary | starter_preprocess.py:134-135 | appending `.` adds one period and ends the summary with it |
| Summary.CreateSummary | starter_preprocess.py:108-137 | the summary is empty exactly when no sentence is chosen; otherwise it ends with `.`, holds one period per chosen sentence, and the part before the final period splits on `". "` into the chosen sentences with the first capitalized |
| Ngrams.Grams | starter_preprocess.py:254-261 | for n = 1 the tokens themselves; otherwise the len−n+1 windows of n consecutive tokens, in order |
| Ngrams.Unigrams | starter_preprocess.py:254-256 | one plain-string key per token, in order |
| Ngrams.Windows | starter_preprocess.py:258-261 | window i is the tuple of tokens i to i+n−1 |
| Ngrams.CalculateNgrams | starter_preprocess.py:243-263 | the counts are exactly the Counter of the n-grams: each n-gram once, with its number of occurrences, in first-occurrence order, totalling the number of n-grams |
| Ngrams.NgramKeysAreWindows | starter_preprocess.py:258-263 | for n ≠ 1 every key is a tuple of n consecutive tokens |
| Ngrams.UnigramKeysAreTokens | starter_preprocess.py:254-256 | for n = 1 every key is a plain token of the input |
| Ngrams.Put | starter_preprocess.py:277 | `d[k] = v` keeps keys distinct, appends a new key, keeps the key order for an old key, and changes only that key's value |
| Ngrams.SmoothedSumIsTotal | starter_preprocess.py:273 | the smoothed counts sum to `total` |
| Ngrams.CountAtMostSum | starter_preprocess.py:273 | each count is at most the sum of the counts |
| Ngrams.CalculateProbabilities | starter_preprocess.py:265-279 | it fails with a division by zero exactly when the table is non-empty and `total` is 0; otherwise each key keeps its place and gets (count + smoothing) / total |
| Ngrams.PrefixSum | starter_preprocess.py:276-277 | the probabilities of the first i keys sum to their smoothed counts over the total |
| Ngrams.ProbabilitiesSumToOne | starter_preprocess.py:273-277 | the probabilities of a non-empty table sum to 1 |
| Ngrams.ProbabilitiesInUnitRange | starter_preprocess.py:273-277 | with non-negative smoothing, every probability lies in [0, 1] |
| KeyCodec.EncodeKey | starter_preprocess.py:286-287 | loading the JSON key a well-formed key is saved under gives the key back |
| KeyCodec.DecodeKey | starter_preprocess.py:302-305 | a key holding `||` loads as a tuple of at least two parts that join back into it, cut where `split('||')` cuts (leftmost first, by `Text.SplitOnCut`); any other key loads as itself |
| KeyCodec.SingletonTupleLoadsAsString | starter_preprocess.py:286-287 | a one-token tuple is saved as the bare token and comes back as a plain string |
| KeyCodec.EncodeKeyInjective | starter_preprocess.py:285-289 | distinct well-formed keys are saved under distinct JSON keys |
| KeyCodec.DecodeKeyInjective | starter_preprocess.py:301-305 | distinct JSON keys load as distinct keys |
| KeyCodec.Rekey | starter_preprocess.py:284-289 | building a dict by assigning converted keys gives distinct keys and no more entries than the input |
| KeyCodec.RekeyKeepsEveryEntry | starter_preprocess.py:284-289 | when conversion keeps keys distinct, the new dict is the old one with converted keys, same order and values |
| KeyCodec.SaveFrequencies | starter_preprocess.py:281-289 | the JSON-ready dict is the frequencies with each tuple key joined by the double-pipe separator and each string key kept, assigned in order |
| KeyCodec.LoadFrequencies | starter_preprocess.py:294-307 | the loaded dict is the JSON object with each key holding a double pipe split into a tuple and the others kept, assigned in order |
| KeyCodec.SavedKeepsEveryEntry | starter_preprocess.py:281-289 | saving a table of well-formed keys loses no entry and keeps order and values |
| KeyCodec.LoadedKeepsEveryEntry | starter_preprocess.py:294-307 | loading loses no entry and keeps order and values |
| KeyCodec.LoadSaved | starter_preprocess.py:281-307 | loading a saved table of well-formed keys gives the table back |
| KeyCodec.SaveLoaded | starter_preprocess.py:281-307 | saving a loaded JSON object gives the object back |
| KeyCodec.NgramTableRoundTrip | starter_preprocess.py:243-307 | an n-gram table (n ≥ 2) over pipe-free tokens survives a save and a load unchanged |
| KeyCodec.PipeBigramDoesNotRoundTrip | starter_preprocess.py:287-303 | the bigram made of two single-pipe tokens is saved as four pipe characters and loads as the trigram `("","","")` |

## Left out

- `fetch_from_url` (`starter_preprocess.py:30-53`): network access through `requests`; it is not modelled.
- The file I/O of `save_frequencies` and `load_frequencies` (`open`, `json.dump`, `json.load`) is not modelled. Only the key-conversion loops are: a JSON object is a sequence of string-keyed pairs, and the values pass through untouched.
- The example-usage block at the end of `starter_preprocess.py`, and `app.py`, which calls the core, are not part of this model.
- Statistics.GetTextStatistics: `avg_word_length` and `avg_sentence_length` are exact reals. `round(…, 2)` (`starter_preprocess.py:101-102`) and binary floating point are not modelled.
- Ngrams.CalculateProbabilities: counts are natural numbers, the `Counter` values that `calculate_ngrams` produces. A dict with fractional or negative values, which Python divides without complaint (`starter_preprocess.py:273-277`), is not modelled. Smoothing and probabilities are exact reals rather than floats, and Python's `ZeroDivisionError` is the `ZeroDivision` result. A negative smoothing that makes `total` 0 on a non-empty table is such an error. Apart from the type of the counts, the only precondition is distinct keys, which every Python dict has.
- Chars.IsWordChar: `\w` is exact on Latin-1 and also covers Latin Extended-A/B (U+0100–U+024F), Cyrillic U+0400–U+0481 and the CJK unified ideographs. Other Unicode letters and digits are treated as non-word characters.
- Chars.Lower: `str.lower` and `str.upper` are case-mapped only for ASCII, Latin-1, `Ÿ`/`ÿ` (U+0178/U+00FF) and Cyrillic U+0400–U+045F. Several characters that `IsWordChar` counts as letters are left unchanged although Python maps them: the rest of Latin Extended-A/B (`'Ā'.lower()` is `'ā'` in Python, so the model counts `Ā` and `ā` as different words), Cyrillic U+0460–U+0481, and `µ` (U+00B5), which Python upper-cases to U+039C. Characters whose case mapping changes the length, such as `ß` and `İ`, are also left unchanged, and so is every other script.
- Ngrams.CalculateNgrams: `n` is a natural number. A negative `n` makes `range(len(tokens) - n + 1)` produce windows past the end in Python, and that is not modelled.
- Cleaner.CleanGutenbergText: markers 5 and 6 (`starter_preprocess.py:26-27`) are kept in `Cleaner.Markers`, but the scan uses only the first four, as the code does.
- Cleaner.NoLeadingJunkWithoutStart: the cleaned text starts without junk only when no START marker was kept. The line after a START marker may itself begin with a BOM, which `strip()` does not remove.
- KeyCodec.LoadSaved: keys survive a save and a load only when well formed (`KeyCodec.WellFormedKey`). A key whose tokens contain `|`, or a one-token tuple, changes shape. `KeyCodec.PipeBigramDoesNotRoundTrip` and `KeyCodec.SingletonTupleLoadsAsString` show this.
- Counting.MostCommon: `Counter.most_common` is modelled by its documented result, a stable sort by descending count. The heap-based selection CPython uses for a given `k` is not modelled, and it returns the same list. Its own contract does not say which entries are kept when counts tie at the cut. `Counting.MostCommonSpec` (exact counts, ties in first-occurrence order) and `Counting.MostCommonMaximal` (each kept entry precedes every left-out element) together determine the result.
- Tokenizer.DeleteTerminators: its own contract does not fix which characters are kept or their order. `Tokenizer.DeleteTerminatorsChar` and `Tokenizer.DeleteTerminatorsConcat` together determine the result for every text.
- Tokenizer.DropSpaceChars: its own contract does not fix which characters are kept or their order. `Tokenizer.DropSpaceCharsChar` and `Tokenizer.DropSpaceCharsConcat` together determine the result for every text.
- Tokenizer.SplitFromSpec: it fixes the fragments' content but not where the cuts fall. `Tokenizer.SplitFromConcat` (one cut per maximal terminator run) and `Tokenizer.SplitFromSolid` fix the cuts.
- Tokenizer.SplitWhitespaceFromSpec: it fixes the words' content but not where the cuts fall. `Tokenizer.SplitWhitespaceConcat` and `Tokenizer.SplitWhitespaceSolid` fix the cuts.
- Tokenizer.TokenizeSentencesKeepsText: it fixes the sentences' content but not where one sentence ends. `Tokenizer.TokenizeSentencesConcat` and `Tokenizer.TokenizeSentencesSolid` fix the sentence boundaries.
- Tokenizer.TokenizeWords: its contract fixes the words' content but not where one word ends. `Tokenizer.TokenizeWordsConcat` and `Tokenizer.TokenizeWordsSolid` fix the word boundaries.
- Normalizer.CollapseWhitespace: its own contract gives only length and first-character facts. `Normalizer.CollapseWhitespaceConcat` and `Normalizer.CollapseWhitespaceFixpoint` determine the result run by run.
- Cleaner.CollapseNewlineRuns and Cleaner.CollapseSpaceRuns: their own contracts give only length and first-character facts. The `…Concat` and `…Fixpoint` lemmas beside them determine the result run by run.
- Cleaner.Tidy: its own contract is also met by text with all whitespace removed. What it does to each run is fixed by the lemmas on its steps: `Cleaner.CollapseNewlineRunsConcat` and `Cleaner.CollapseNewlineRunsFixpoint` (a run of three or more `\n` becomes `\n\n`, `starter_preprocess.py:169`), `Cleaner.CollapseSpaceRunsConcat` and `Cleaner.CollapseSpaceRunsFixpoint` (a run of two or more `' '` becomes one, `:170`), and `Text.Strip`'s contract (`:172`). `Cleaner.TidyFixpoint` shows that tidy text is left alone.
- Tokenizer.TokenizeChars: its own contract is also met by text with all whitespace removed. With `include_space=True` each `\s+` run becomes one `' '` (`starter_preprocess.py:226`), which `Normalizer.CollapseWhitespaceConcat` and `Normalizer.CollapseWhitespaceFixpoint` fix. With `include_space=False` only `' '` is dropped and tabs and newlines stay (`:229`), which `Tokenizer.DropSpaceCharsChar` and `Tokenizer.DropSpaceCharsConcat` fix. `Tokenizer.TokenizeCharsFixpoint` shows both modes leave text already in their shape alone.
- Normalizer.NormalizeText: its own contract (`IsNormalized`) is also met by the empty string. `Normalizer.NormalizeTextKeepsText`, the exact per-character rule in `Normalizer.ScrubPunctuation`'s contract and `Normalizer.CollapseWhitespaceConcat` fix the result; `Normalizer.NormalizedIsFixpoint` shows normalized text is left alone.
- KeyCodec.Saved and KeyCodec.Loaded are the specification functions of `SaveFrequencies` and `LoadFrequencies` and carry no contract of their own. What they mean is stated by `KeyCodec.SavedKeepsEveryEntry`, `KeyCodec.LoadedKeepsEveryEntry`, `KeyCodec.LoadSaved` and `KeyCodec.SaveLoaded`.
