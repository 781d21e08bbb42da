/**
 * `TextPreprocessor.normalize_text`: lower-case, canonical quotes and dashes,
 * punctuation replaced by spaces, whitespace runs collapsed, ends trimmed.
 * Each `re.sub` of the source is one explicit character scan here.
 */
module Normalizer {
  import opened Chars
  import opened Text

  /** `text.lower()`, character by character. */
  function LowerText(s: string): (r: string)
    ensures |r| == |s|
    ensures forall i :: 0 <= i < |s| ==> r[i] == Lower(s[i])
  {
    if s == [] then [] else [Lower(s[0])] + LowerText(s[1..])
  }

  /** The three substitutions for curly double quotes, curly single quotes and em/en dashes. */
  function CanonicalizePunctuation(s: string): (r: string)
    ensures |r| == |s|
    ensures forall i :: 0 <= i < |s| ==> r[i] == Canonical(s[i])
  {
    if s == [] then [] else [Canonical(s[0])] + CanonicalizePunctuation(s[1..])
  }

  /** What survives the punctuation substitution: `\w`, `\s`, and in sentence mode also `.!?'-`. */
  predicate Allowed(c: char, preserveSentences: bool) {
    IsWordChar(c) || IsSpace(c) || (preserveSentences && (IsTerminator(c) || c == '\'' || c == '-'))
  }

  /** The lookaround alternative `(?<!\w)'(?!\w)`: an apostrophe with no word character on either side. */
  predicate StrayApostrophe(s: string, i: nat)
    requires i < |s|
  {
    s[i] == '\'' && (i == 0 || !IsWordChar(s[i - 1])) && (i + 1 == |s| || !IsWordChar(s[i + 1]))
  }

  /**
   * Whether the punctuation substitution matches `s[i]`: `[^\w\s.!?'-]` in
   * sentence mode, `(?<!\w)'(?!\w)|[^\w\s]` otherwise.
   */
  predicate Rejected(s: string, i: nat, preserveSentences: bool)
    requires i < |s|
  {
    if preserveSentences then
      !(IsWordChar(s[i]) || IsSpace(s[i]) || IsTerminator(s[i]) || s[i] == '\'' || s[i] == '-')
    else
      StrayApostrophe(s, i) || (!IsWordChar(s[i]) && !IsSpace(s[i]))
  }

  /** The punctuation substitution: every matched character becomes one space. */
  function ScrubPunctuation(s: string, preserveSentences: bool): (r: string)
    ensures |r| == |s|
    ensures forall i :: 0 <= i < |s| ==> r[i] == s[i] || r[i] == ' '
    ensures forall i :: 0 <= i < |s| ==> Allowed(r[i], preserveSentences)
    ensures forall i :: 0 <= i < |s| && (IsWordChar(s[i]) || IsSpace(s[i])) ==> r[i] == s[i]
    ensures forall i :: 0 <= i < |s| ==> r[i] == if Allowed(s[i], preserveSentences) then s[i] else ' '
  {
    seq(|s|, i requires 0 <= i < |s| => if Rejected(s, i, preserveSentences) then ' ' else s[i])
  }

  /**
   * In word mode the `[^\w\s]` alternative already matches every apostrophe,
   * so the lookaround alternative never decides anything: all apostrophes
   * are replaced, including those inside contractions.
   */
  lemma WordModeRejectsEveryApostrophe(s: string, i: nat)
    requires i < |s|
    ensures Rejected(s, i, false) <==> !IsWordChar(s[i]) && !IsSpace(s[i])
    ensures s[i] == '\'' ==> ScrubPunctuation(s, false)[i] == ' '
  {
  }

  /** `re.sub(r'\s+', ' ', text)`: one space per maximal run of whitespace. */
  function CollapseWhitespace(s: string): (r: string)
    ensures |r| <= |s|
    ensures r == [] <==> s == []
    ensures r != [] ==> (IsSpace(r[0]) <==> IsSpace(s[0]))
  {
    if s == [] then []
    else if IsSpace(s[0]) && |s| > 1 && IsSpace(s[1]) then CollapseWhitespace(s[1..])
    else [if IsSpace(s[0]) then ' ' else s[0]] + CollapseWhitespace(s[1..])
  }

  /** No two whitespace characters are adjacent in the collapsed text. */
  lemma {:induction false} CollapseWhitespaceSingleSpaces(s: string, r: string)
    requires r == CollapseWhitespace(s)
    ensures forall i :: 0 <= i < |r| - 1 ==> !(IsSpace(r[i]) && IsSpace(r[i + 1]))
  {
    if s != [] {
      var r' := CollapseWhitespace(s[1..]);
      CollapseWhitespaceSingleSpaces(s[1..], r');
      if !(IsSpace(s[0]) && |s| > 1 && IsSpace(s[1])) {
        assert r == [r[0]] + r';
        forall i | 0 <= i < |r| - 1 ensures !(IsSpace(r[i]) && IsSpace(r[i + 1])) {
          if i > 0 {
            assert r[i] == r'[i - 1] && r[i + 1] == r'[i];
          }
        }
      }
    }
  }

  /** The collapsed text ends in whitespace exactly when the input does. */
  lemma {:induction false} CollapseWhitespaceLast(s: string)
    requires s != []
    ensures var r := CollapseWhitespace(s); IsSpace(r[|r| - 1]) <==> IsSpace(s[|s| - 1])
  {
    if |s| > 1 {
      CollapseWhitespaceLast(s[1..]);
    }
  }

  /** Collapsing keeps every non-whitespace character, in order. */
  lemma {:induction false} CollapseWhitespaceKeepsText(s: string)
    ensures RemoveWhitespace(CollapseWhitespace(s)) == RemoveWhitespace(s)
  {
    if s != [] {
      CollapseWhitespaceKeepsText(s[1..]);
      if !(IsSpace(s[0]) && |s| > 1 && IsSpace(s[1])) {
        var x := if IsSpace(s[0]) then ' ' else s[0];
        assert ([x] + CollapseWhitespace(s[1..]))[1..] == CollapseWhitespace(s[1..]);
      }
    }
  }

  /** Collapsing and stripping keep every non-whitespace character. */
  lemma CollapseStripKeepsText(x: string)
    ensures RemoveWhitespace(Strip(CollapseWhitespace(x))) == RemoveWhitespace(x)
  {
    CollapseWhitespaceKeepsText(x);
    StripKeepsText(CollapseWhitespace(x));
  }

  /** A string whose only whitespace is single spaces is left unchanged by `CollapseWhitespace`. */
  lemma {:induction false} CollapseWhitespaceFixpoint(s: string)
    requires forall i :: 0 <= i < |s| && IsSpace(s[i]) ==> s[i] == ' '
    requires forall i :: 0 <= i < |s| - 1 ==> !(IsSpace(s[i]) && IsSpace(s[i + 1]))
    ensures CollapseWhitespace(s) == s
  {
    if s != [] {
      CollapseWhitespaceFixpoint(s[1..]);
    }
  }

  /** A whitespace run in front of text that starts with no whitespace becomes one space. */
  lemma {:induction false} CollapseWhitespaceRun(w: string, b: string)
    requires w != [] && forall i :: 0 <= i < |w| ==> IsSpace(w[i])
    requires b != [] ==> !IsSpace(b[0])
    ensures CollapseWhitespace(w + b) == " " + CollapseWhitespace(b)
  {
    assert (w + b)[1..] == w[1..] + b;
    if |w| > 1 {
      CollapseWhitespaceRun(w[1..], b);
    } else {
      assert w[1..] + b == b;
    }
  }

  /** One step of `CollapseWhitespace`: a whitespace character followed by whitespace is dropped. */
  lemma CollapseWhitespaceCons(c: char, u: string)
    ensures CollapseWhitespace([c] + u)
      == if IsSpace(c) && u != [] && IsSpace(u[0]) then CollapseWhitespace(u)
         else [if IsSpace(c) then ' ' else c] + CollapseWhitespace(u)
  {
    assert ([c] + u)[1..] == u;
  }

  /** Text that does not end in whitespace is collapsed independently of what follows it. */
  lemma {:induction false} CollapseWhitespaceAppend(a: string, u: string)
    requires a != [] ==> !IsSpace(a[|a| - 1])
    ensures CollapseWhitespace(a + u) == CollapseWhitespace(a) + CollapseWhitespace(u)
  {
    if a == [] {
      assert a + u == u;
    } else {
      var c, a' := a[0], a[1..];
      assert a + u == [c] + (a' + u) && a == [c] + a';
      assert a' != [] ==> a'[|a'| - 1] == a[|a| - 1] && (a' + u)[0] == a'[0];
      CollapseWhitespaceAppend(a', u);
      CollapseWhitespaceCons(c, a' + u);
      CollapseWhitespaceCons(c, a');
      AppendAssoc([if IsSpace(c) then ' ' else c], CollapseWhitespace(a'), CollapseWhitespace(u));
    }
  }

  /**
   * `CollapseWhitespace` works run by run: a maximal whitespace run becomes a
   * single space, and the text on either side is collapsed on its own.
   */
  lemma {:induction false} CollapseWhitespaceConcat(a: string, w: string, b: string)
    requires w != [] && forall i :: 0 <= i < |w| ==> IsSpace(w[i])
    requires a != [] ==> !IsSpace(a[|a| - 1])
    requires b != [] ==> !IsSpace(b[0])
    ensures CollapseWhitespace(a + w + b) == CollapseWhitespace(a) + " " + CollapseWhitespace(b)
  {
    assert a + w + b == a + (w + b);
    CollapseWhitespaceAppend(a, w + b);
    CollapseWhitespaceRun(w, b);
    AppendAssoc(CollapseWhitespace(a), " ", CollapseWhitespace(b));
  }

  /**
   * `normalize_text(text, preserve_sentences)`: the result is lower case,
   * holds only the characters the mode allows, and has single spaces only,
   * none at either end.
   */
  function NormalizeText(text: string, preserveSentences: bool): (r: string)
    ensures IsNormalized(r, preserveSentences)
  {
    var a := LowerText(text);
    var b := CanonicalizePunctuation(a);
    var c := ScrubPunctuation(b, preserveSentences);
    var d := CollapseWhitespace(c);
    LowerTextIsLowerFixed(text);
    CanonicalKeepsLowerFixed(a);
    ScrubKeepsLowerFixed(b, preserveSentences);
    CollapseStep(c, preserveSentences, d);
    CollapseWhitespaceSingleSpaces(c, d);
    StripStep(d, preserveSentences);
    Strip(d)
  }

  /**
   * `normalize_text` keeps, in order, every non-whitespace character that
   * lower-casing, canonicalizing and scrubbing leave: only whitespace is
   * collapsed or stripped.
   */
  lemma NormalizeTextKeepsText(text: string, preserveSentences: bool)
    ensures RemoveWhitespace(NormalizeText(text, preserveSentences))
         == RemoveWhitespace(ScrubPunctuation(CanonicalizePunctuation(LowerText(text)), preserveSentences))
  {
    CollapseStripKeepsText(ScrubPunctuation(CanonicalizePunctuation(LowerText(text)), preserveSentences));
  }

  /** The characters a normalized text may hold. */
  predicate NormalizedChar(c: char, preserveSentences: bool) {
    IsWordChar(c) || c == ' ' || (preserveSentences && (IsTerminator(c) || c == '\'' || c == '-'))
  }

  /**
   * The shape of `normalize_text` output: lower case, only word characters,
   * single spaces and (in sentence mode) `.!?'-`, no space at either end and
   * no two spaces in a row.
   */
  predicate IsNormalized(t: string, preserveSentences: bool) {
    && (t == [] || (t[0] != ' ' && t[|t| - 1] != ' '))
    && (forall i :: 0 <= i < |t| ==> NormalizedChar(t[i], preserveSentences) && Lower(t[i]) == t[i])
    && (forall i :: 0 <= i < |t| - 1 ==> !(t[i] == ' ' && t[i + 1] == ' '))
  }

  /** Every character is its own lower case. */
  predicate LowerFixed(s: string) {
    forall i :: 0 <= i < |s| ==> Lower(s[i]) == s[i]
  }

  lemma LowerTextIsLowerFixed(text: string)
    ensures LowerFixed(LowerText(text))
  {
    forall i | 0 <= i < |text| ensures Lower(Lower(text[i])) == Lower(text[i]) {
      LowerIdempotent(text[i]);
    }
  }

  lemma CanonicalKeepsLowerFixed(a: string)
    requires LowerFixed(a)
    ensures LowerFixed(CanonicalizePunctuation(a))
  {
  }

  lemma ScrubKeepsLowerFixed(b: string, preserveSentences: bool)
    requires LowerFixed(b)
    ensures LowerFixed(ScrubPunctuation(b, preserveSentences))
  {
  }

  /** Collapsing whitespace turns a text of allowed, lower-case characters into one of normalized characters. */
  lemma {:induction false} CollapseStep(c: string, preserveSentences: bool, d: string)
    requires d == CollapseWhitespace(c)
    requires forall i :: 0 <= i < |c| ==> Allowed(c[i], preserveSentences) && Lower(c[i]) == c[i]
    ensures forall i :: 0 <= i < |d| ==> NormalizedChar(d[i], preserveSentences) && Lower(d[i]) == d[i]
  {
    if c != [] {
      var d' := CollapseWhitespace(c[1..]);
      CollapseStep(c[1..], preserveSentences, d');
      if !(IsSpace(c[0]) && |c| > 1 && IsSpace(c[1])) {
        assert d == [d[0]] + d';
        forall i | 0 <= i < |d| ensures NormalizedChar(d[i], preserveSentences) && Lower(d[i]) == d[i] {
          if i > 0 {
            assert d[i] == d'[i - 1];
          }
        }
      }
    }
  }

  lemma StripStep(d: string, preserveSentences: bool)
    requires forall i :: 0 <= i < |d| ==> NormalizedChar(d[i], preserveSentences) && Lower(d[i]) == d[i]
    requires forall i :: 0 <= i < |d| - 1 ==> !(d[i] == ' ' && d[i + 1] == ' ')
    ensures IsNormalized(Strip(d), preserveSentences)
  {
    StripKeepsChars(d, preserveSentences);
    StripKeepsSingleSpaces(d);
  }

  /** Stripping keeps the characters of a middle slice, so every per-character property survives. */
  lemma StripKeepsChars(d: string, preserveSentences: bool)
    requires forall i :: 0 <= i < |d| ==> NormalizedChar(d[i], preserveSentences) && Lower(d[i]) == d[i]
    ensures forall i :: 0 <= i < |Strip(d)| ==> NormalizedChar(Strip(d)[i], preserveSentences) && Lower(Strip(d)[i]) == Strip(d)[i]
  {
    var ok := c => NormalizedChar(c, preserveSentences) && Lower(c) == c;
    SliceKeepsCharProperty(d, LeadingSpaces(d), Strip(d), ok);
  }

  lemma SliceKeepsCharProperty(d: string, k: nat, t: string, ok: char -> bool)
    requires k + |t| <= |d| && t == d[k..k + |t|]
    requires forall i :: 0 <= i < |d| ==> ok(d[i])
    ensures forall i :: 0 <= i < |t| ==> ok(t[i])
  {
    forall i | 0 <= i < |t| ensures ok(t[i]) {
      assert t[i] == d[k + i];
    }
  }

  /** Stripping creates no double space and leaves no space at either end. */
  lemma StripKeepsSingleSpaces(d: string)
    requires forall i :: 0 <= i < |d| - 1 ==> !(d[i] == ' ' && d[i + 1] == ' ')
    ensures var t := Strip(d);
      && (t == [] || (t[0] != ' ' && t[|t| - 1] != ' '))
      && (forall i :: 0 <= i < |t| - 1 ==> !(t[i] == ' ' && t[i + 1] == ' '))
  {
    var t := Strip(d);
    var k := LeadingSpaces(d);
    forall i | 0 <= i < |t| - 1 ensures !(t[i] == ' ' && t[i + 1] == ' ') {
      assert t[i] == d[k + i] && t[i + 1] == d[k + i + 1];
    }
  }

  lemma LowerTextFixpoint(t: string)
    requires forall i :: 0 <= i < |t| ==> Lower(t[i]) == t[i]
    ensures LowerText(t) == t
  {
  }

  /** Normalizing a normalized text changes nothing. */
  lemma NormalizeTextIdempotent(text: string, preserveSentences: bool)
    ensures NormalizeText(NormalizeText(text, preserveSentences), preserveSentences)
         == NormalizeText(text, preserveSentences)
  {
    var t := NormalizeText(text, preserveSentences);
    NormalizedIsFixpoint(t, preserveSentences);
  }

  /** Every step of the normalization leaves a normalized text as it is. */
  lemma NormalizedIsFixpoint(t: string, preserveSentences: bool)
    requires IsNormalized(t, preserveSentences)
    ensures NormalizeText(t, preserveSentences) == t
  {
    LowerTextFixpoint(t);
    CanonicalFixpoint(t, preserveSentences);
    ScrubFixpoint(t, preserveSentences);
    NormalizedSpacing(t, preserveSentences);
    CollapseWhitespaceFixpoint(t);
    StripTrimmed(t);
    calc {
      NormalizeText(t, preserveSentences);
      Strip(CollapseWhitespace(ScrubPunctuation(CanonicalizePunctuation(LowerText(t)), preserveSentences)));
      Strip(CollapseWhitespace(ScrubPunctuation(t, preserveSentences)));
      t;
    }
  }

  /** In a normalized text the only whitespace is single spaces, and it neither starts nor ends with one. */
  lemma NormalizedSpacing(t: string, preserveSentences: bool)
    requires IsNormalized(t, preserveSentences)
    ensures forall i :: 0 <= i < |t| && IsSpace(t[i]) ==> t[i] == ' '
    ensures forall i :: 0 <= i < |t| - 1 ==> !(IsSpace(t[i]) && IsSpace(t[i + 1]))
    ensures t == [] || (!IsSpace(t[0]) && !IsSpace(t[|t| - 1]))
  {
  }

  lemma CanonicalFixpoint(t: string, preserveSentences: bool)
    requires forall i :: 0 <= i < |t| ==> NormalizedChar(t[i], preserveSentences)
    ensures CanonicalizePunctuation(t) == t
  {
  }

  lemma ScrubFixpoint(t: string, preserveSentences: bool)
    requires forall i :: 0 <= i < |t| ==> NormalizedChar(t[i], preserveSentences)
    ensures ScrubPunctuation(t, preserveSentences) == t
  {
  }

  /** In word mode no apostrophe, terminator or hyphen survives normalization. */
  lemma WordModeKeepsOnlyWordCharsAndSpaces(text: string)
    ensures var t := NormalizeText(text, false);
      forall i :: 0 <= i < |t| ==> IsWordChar(t[i]) || t[i] == ' '
  {
  }
}
