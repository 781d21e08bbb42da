/**
 * `TextPreprocessor.clean_gutenberg_text` and `_remove_leading_junk`: drop
 * leading byte-order marks and whitespace, keep the lines between the last
 * START marker and the first END marker, then tidy the whitespace.
 */
module Cleaner {
  import opened Chars
  import opened Text

  /** The Gutenberg marker list; only the first four take part in the scan. */
  const Markers: seq<string> := [
    "*** START OF THIS PROJECT GUTENBERG",
    "*** END OF THIS PROJECT GUTENBERG",
    "*** START OF THE PROJECT GUTENBERG",
    "*** END OF THE PROJECT GUTENBERG",
    "*END*THE SMALL PRINT",
    "<<THIS ELECTRONIC VERSION"
  ]

  /** The class `[\ufeff\u200b\s]`: byte-order mark, zero-width space, or whitespace. */
  predicate IsJunk(c: char) {
    c == '\U{FEFF}' || c == '\U{200B}' || IsSpace(c)
  }

  /** Length of the leading run of junk characters. */
  function JunkPrefix(s: string): (k: nat)
    ensures k <= |s|
    ensures forall i :: 0 <= i < k ==> IsJunk(s[i])
    ensures k < |s| ==> !IsJunk(s[k])
  {
    if s != [] && IsJunk(s[0]) then 1 + JunkPrefix(s[1..]) else 0
  }

  /** `_remove_leading_junk(text)`: the anchored `re.sub` that drops the leading junk run. */
  function RemoveLeadingJunk(s: string): (r: string)
    ensures |r| <= |s| && r == s[|s| - |r|..]
    ensures forall i :: 0 <= i < |s| - |r| ==> IsJunk(s[i])
    ensures r == [] || !IsJunk(r[0])
  {
    s[JunkPrefix(s)..]
  }

  /** Removing the leading junk twice is the same as once. */
  lemma RemoveLeadingJunkIdempotent(s: string)
    ensures RemoveLeadingJunk(RemoveLeadingJunk(s)) == RemoveLeadingJunk(s)
  {
    var r := RemoveLeadingJunk(s);
    assert JunkPrefix(r) == 0;
  }

  /** `any(marker in line for marker in markers[:4])`. */
  predicate IsMarkerLine(line: string) {
    exists k | 0 <= k < 4 :: Contains(line, Markers[k])
  }

  /** A line that moves the start: a marker line holding "START". */
  predicate IsStartLine(line: string) {
    IsMarkerLine(line) && Contains(line, "START")
  }

  /** A line that ends the scan: a marker line holding "END" but not "START". */
  predicate IsEndLine(line: string) {
    IsMarkerLine(line) && !Contains(line, "START") && Contains(line, "END")
  }

  /**
   * Every marker line is a START line or an END line: each of the four
   * markers holds one of the two words, so the `elif "END" in line` test
   * never fails on a marker line.
   */
  lemma MarkerLineIsStartOrEnd(line: string)
    requires IsMarkerLine(line)
    ensures IsStartLine(line) || IsEndLine(line)
  {
    var k :| 0 <= k < 4 && Contains(line, Markers[k]);
    StartMarkers();
    EndMarkers();
    if k == 0 || k == 2 {
      ContainsTransitive(line, Markers[k], "START");
    } else {
      ContainsTransitive(line, Markers[k], "END");
    }
  }

  /** The first and third markers hold "START" (at index 4). */
  lemma StartMarkers()
    ensures Contains(Markers[0], "START") && Contains(Markers[2], "START")
  {
    StartAt4(Markers[0]);
    StartAt4(Markers[2]);
  }

  /** The second and fourth markers hold "END" (at index 4). */
  lemma EndMarkers()
    ensures Contains(Markers[1], "END") && Contains(Markers[3], "END")
  {
    EndAt4(Markers[1]);
    EndAt4(Markers[3]);
  }

  lemma StartAt4(m: string)
    requires |m| >= 9 && m[4] == 'S' && m[5] == 'T' && m[6] == 'A' && m[7] == 'R' && m[8] == 'T'
    ensures Contains(m, "START")
  {
    assert m[4..9] == "START";
    ContainsAt(m, "START", 4);
  }

  lemma EndAt4(m: string)
    requires |m| >= 7 && m[4] == 'E' && m[5] == 'N' && m[6] == 'D'
    ensures Contains(m, "END")
  {
    assert m[4..7] == "END";
    ContainsAt(m, "END", 4);
  }

  /**
   * The slice `lines[s:e]` the scan keeps: `e` is the first END line (or
   * the end), and `s` is just after the last START line before it (or 0).
   */
  predicate MarkerBounds(lines: seq<string>, s: nat, e: nat) {
    && s <= e <= |lines|
    && (e == |lines| || IsEndLine(lines[e]))
    && (forall j :: 0 <= j < e ==> !IsEndLine(lines[j]))
    && (s == 0 || IsStartLine(lines[s - 1]))
    && (forall j :: s <= j < e ==> !IsStartLine(lines[j]))
  }

  /** The kept slice is determined by the lines. */
  lemma MarkerBoundsUnique(lines: seq<string>, s1: nat, e1: nat, s2: nat, e2: nat)
    requires MarkerBounds(lines, s1, e1) && MarkerBounds(lines, s2, e2)
    ensures s1 == s2 && e1 == e2
  {
  }

  /** No kept line holds any of the four markers. */
  lemma KeptLinesHaveNoMarker(lines: seq<string>, s: nat, e: nat)
    requires MarkerBounds(lines, s, e)
    ensures forall j :: s <= j < e ==> !IsMarkerLine(lines[j])
  {
    forall j | s <= j < e ensures !IsMarkerLine(lines[j]) {
      if IsMarkerLine(lines[j]) {
        MarkerLineIsStartOrEnd(lines[j]);
      }
    }
  }

  /** No three newlines in a row. */
  predicate NoTripleNewline(s: string) {
    forall i :: 0 <= i < |s| - 2 ==> !(s[i] == '\n' && s[i + 1] == '\n' && s[i + 2] == '\n')
  }

  /** No two spaces in a row. */
  predicate NoDoubleSpace(s: string) {
    forall i :: 0 <= i < |s| - 1 ==> !(s[i] == ' ' && s[i + 1] == ' ')
  }

  /** `re.sub(r'\n{3,}', '\n\n', s)`: every run of three or more newlines becomes two. */
  function CollapseNewlineRuns(s: string): (r: string)
    ensures |r| <= |s|
    ensures s != [] ==> r != [] && r[0] == s[0]
  {
    if |s| >= 3 && s[0] == '\n' && s[1] == '\n' && s[2] == '\n' then CollapseNewlineRuns(s[1..])
    else if s == [] then []
    else [s[0]] + CollapseNewlineRuns(s[1..])
  }

  /**
   * A run of newlines in front of text that does not start with a newline
   * is kept when it is one or two long and becomes two newlines otherwise.
   */
  lemma {:induction false} CollapseNewlineRunsRun(w: string, b: string)
    requires w != [] && forall i :: 0 <= i < |w| ==> w[i] == '\n'
    requires b != [] ==> b[0] != '\n'
    ensures CollapseNewlineRuns(w + b) == (if |w| >= 3 then "\n\n" else w) + CollapseNewlineRuns(b)
  {
    var c, w' := w[0], w[1..];
    assert w + b == [c] + (w' + b) && w == [c] + w' && [c] == "\n";
    if |w| >= 3 {
      assert (w' + b)[0] == w'[0] && (w' + b)[1] == w'[1];
      CollapseNewlineRunsConsDrop(w' + b);
      CollapseNewlineRunsRun(w', b);
      if |w| == 3 {
        assert w' == "\n\n";
      }
    } else if |w| == 2 {
      assert (w' + b)[0] == w'[0] && (|b| >= 1 ==> (w' + b)[1] == b[0]);
      CollapseNewlineRunsConsKeep(c, w' + b);
      CollapseNewlineRunsRun(w', b);
      AppendAssoc([c], w', CollapseNewlineRuns(b));
    } else {
      assert w' + b == b;
      CollapseNewlineRunsConsKeep(c, b);
    }
  }


  /** A newline followed by two newlines is dropped. */
  lemma CollapseNewlineRunsConsDrop(u: string)
    requires |u| >= 2 && u[0] == '\n' && u[1] == '\n'
    ensures CollapseNewlineRuns("\n" + u) == CollapseNewlineRuns(u)
  {
    assert ("\n" + u)[1..] == u;
  }

  /** Any other first character is kept. */
  lemma CollapseNewlineRunsConsKeep(c: char, u: string)
    requires !(c == '\n' && |u| >= 2 && u[0] == '\n' && u[1] == '\n')
    ensures CollapseNewlineRuns([c] + u) == [c] + CollapseNewlineRuns(u)
  {
    assert ([c] + u)[1..] == u;
  }

  /** The inductive step of `CollapseNewlineRunsAppend` when the front newline is dropped. */
  lemma CollapseNewlineRunsAppendDrop(a: string, u: string)
    requires |a| >= 2 && a[0] == '\n' && a[1] == '\n'
    requires CollapseNewlineRuns(a + u) == CollapseNewlineRuns(a) + CollapseNewlineRuns(u)
    ensures CollapseNewlineRuns("\n" + (a + u)) == CollapseNewlineRuns("\n" + a) + CollapseNewlineRuns(u)
  {
    assert (a + u)[0] == a[0] && (a + u)[1] == a[1];
    CollapseNewlineRunsConsDrop(a + u);
    CollapseNewlineRunsConsDrop(a);
  }

  /** The inductive step of `CollapseNewlineRunsAppend` when the front character is kept. */
  lemma CollapseNewlineRunsAppendKeep(c: char, a: string, u: string)
    requires !(c == '\n' && |a| >= 2 && a[0] == '\n' && a[1] == '\n')
    requires a == [] ==> c != '\n'
    requires a != [] ==> a[|a| - 1] != '\n'
    requires CollapseNewlineRuns(a + u) == CollapseNewlineRuns(a) + CollapseNewlineRuns(u)
    ensures CollapseNewlineRuns([c] + (a + u)) == CollapseNewlineRuns([c] + a) + CollapseNewlineRuns(u)
  {
    assert !(c == '\n' && |a + u| >= 2 && (a + u)[0] == '\n' && (a + u)[1] == '\n') by {
      if |a| >= 1 {
        assert (a + u)[0] == a[0] && a[|a| - 1] != '\n';
      }
      if |a| >= 2 {
        assert (a + u)[1] == a[1];
      }
    }
    CollapseNewlineRunsConsKeep(c, a + u);
    CollapseNewlineRunsConsKeep(c, a);
    AppendAssoc([c], CollapseNewlineRuns(a), CollapseNewlineRuns(u));
  }

  /** Text that does not end in a newline is collapsed independently of what follows it. */
  lemma {:induction false} CollapseNewlineRunsAppend(a: string, u: string)
    requires a != [] ==> a[|a| - 1] != '\n'
    ensures CollapseNewlineRuns(a + u) == CollapseNewlineRuns(a) + CollapseNewlineRuns(u)
  {
    if a == [] {
      assert a + u == u;
    } else {
      var c, a' := a[0], a[1..];
      assert a + u == [c] + (a' + u) && a == [c] + a';
      assert a' != [] ==> a'[|a'| - 1] == a[|a| - 1];
      CollapseNewlineRunsAppend(a', u);
      if c == '\n' && |a'| >= 2 && a'[0] == '\n' && a'[1] == '\n' {
        CollapseNewlineRunsAppendDrop(a', u);
        assert [c] == "\n";
      } else {
        CollapseNewlineRunsAppendKeep(c, a', u);
      }
    }
  }

  /**
   * `CollapseNewlineRuns` works run by run: a maximal run of newlines is kept
   * when it is one or two long and becomes two newlines otherwise, and the
   * text on either side is collapsed on its own.
   */
  lemma {:induction false} CollapseNewlineRunsConcat(a: string, w: string, b: string)
    requires w != [] && forall i :: 0 <= i < |w| ==> w[i] == '\n'
    requires a != [] ==> a[|a| - 1] != '\n'
    requires b != [] ==> b[0] != '\n'
    ensures CollapseNewlineRuns(a + w + b)
      == CollapseNewlineRuns(a) + (if |w| >= 3 then "\n\n" else w) + CollapseNewlineRuns(b)
  {
    assert a + w + b == a + (w + b);
    CollapseNewlineRunsAppend(a, w + b);
    CollapseNewlineRunsRun(w, b);
    AppendAssoc(CollapseNewlineRuns(a), if |w| >= 3 then "\n\n" else w, CollapseNewlineRuns(b));
  }

  /** Text with no three newlines in a row is left unchanged. */
  lemma {:induction false} CollapseNewlineRunsFixpoint(s: string)
    requires NoTripleNewline(s)
    ensures CollapseNewlineRuns(s) == s
  {
    if s != [] {
      assert NoTripleNewline(s[1..]) by {
        forall i | 0 <= i < |s[1..]| - 2
          ensures !(s[1..][i] == '\n' && s[1..][i + 1] == '\n' && s[1..][i + 2] == '\n')
        {
          assert s[1..][i] == s[i + 1] && s[1..][i + 1] == s[i + 2] && s[1..][i + 2] == s[i + 3];
        }
      }
      CollapseNewlineRunsFixpoint(s[1..]);
    }
  }

  /** `re.sub(r' {2,}', ' ', s)`: every run of two or more spaces becomes one. */
  function CollapseSpaceRuns(s: string): (r: string)
    ensures |r| <= |s|
    ensures s != [] ==> r != [] && r[0] == s[0]
  {
    if |s| >= 2 && s[0] == ' ' && s[1] == ' ' then CollapseSpaceRuns(s[1..])
    else if s == [] then []
    else [s[0]] + CollapseSpaceRuns(s[1..])
  }

  /** A run of spaces in front of text that does not start with a space becomes one space. */
  lemma {:induction false} CollapseSpaceRunsRun(w: string, b: string)
    requires w != [] && forall i :: 0 <= i < |w| ==> w[i] == ' '
    requires b != [] ==> b[0] != ' '
    ensures CollapseSpaceRuns(w + b) == " " + CollapseSpaceRuns(b)
  {
    assert (w + b)[1..] == w[1..] + b;
    if |w| > 1 {
      CollapseSpaceRunsRun(w[1..], b);
    } else {
      assert w[1..] + b == b;
    }
  }

  /** One step of `CollapseSpaceRuns`: a space followed by a space is dropped. */
  lemma CollapseSpaceRunsCons(c: char, u: string)
    ensures CollapseSpaceRuns([c] + u)
      == if c == ' ' && u != [] && u[0] == ' ' then CollapseSpaceRuns(u) else [c] + CollapseSpaceRuns(u)
  {
    assert ([c] + u)[1..] == u;
  }

  /** Text that does not end in a space is collapsed independently of what follows it. */
  lemma {:induction false} CollapseSpaceRunsAppend(a: string, u: string)
    requires a != [] ==> a[|a| - 1] != ' '
    ensures CollapseSpaceRuns(a + u) == CollapseSpaceRuns(a) + CollapseSpaceRuns(u)
  {
    if a == [] {
      assert a + u == u;
    } else {
      var c, a' := a[0], a[1..];
      assert a + u == [c] + (a' + u) && a == [c] + a';
      assert a' != [] ==> a'[|a'| - 1] == a[|a| - 1] && (a' + u)[0] == a'[0];
      CollapseSpaceRunsAppend(a', u);
      CollapseSpaceRunsCons(c, a' + u);
      CollapseSpaceRunsCons(c, a');
      AppendAssoc([c], CollapseSpaceRuns(a'), CollapseSpaceRuns(u));
    }
  }

  /**
   * `CollapseSpaceRuns` works run by run: a maximal run of spaces becomes one
   * space, and the text on either side is collapsed on its own.
   */
  lemma {:induction false} CollapseSpaceRunsConcat(a: string, w: string, b: string)
    requires w != [] && forall i :: 0 <= i < |w| ==> w[i] == ' '
    requires a != [] ==> a[|a| - 1] != ' '
    requires b != [] ==> b[0] != ' '
    ensures CollapseSpaceRuns(a + w + b) == CollapseSpaceRuns(a) + " " + CollapseSpaceRuns(b)
  {
    assert a + w + b == a + (w + b);
    CollapseSpaceRunsAppend(a, w + b);
    CollapseSpaceRunsRun(w, b);
    AppendAssoc(CollapseSpaceRuns(a), " ", CollapseSpaceRuns(b));
  }

  /** Text with no two spaces in a row is left unchanged. */
  lemma {:induction false} CollapseSpaceRunsFixpoint(s: string)
    requires NoDoubleSpace(s)
    ensures CollapseSpaceRuns(s) == s
  {
    if s != [] {
      assert NoDoubleSpace(s[1..]) by {
        forall i | 0 <= i < |s[1..]| - 1 ensures !(s[1..][i] == ' ' && s[1..][i + 1] == ' ') {
          assert s[1..][i] == s[i + 1] && s[1..][i + 1] == s[i + 2];
        }
      }
      CollapseSpaceRunsFixpoint(s[1..]);
    }
  }

  /**
   * The whitespace tidy-up at the end of `clean_gutenberg_text`.  The
   * result is trimmed, has no run of three newlines and no run of two
   * spaces, and keeps every other character of the text, in order.
   */
  function Tidy(s: string): (t: string)
    ensures t == [] || (!IsSpace(t[0]) && !IsSpace(t[|t| - 1]))
    ensures NoTripleNewline(t)
    ensures NoDoubleSpace(t)
    ensures RemoveWhitespace(t) == RemoveWhitespace(s)
  {
    var a := CollapseNewlineRuns(s);
    var b := CollapseSpaceRuns(a);
    CollapseNewlineRunsShape(s);
    CollapseSpaceRunsKeepsNewlineShape(a);
    CollapseSpaceRunsShape(a);
    StripKeepsShape(b);
    CollapseNewlineRunsKeepsText(s);
    CollapseSpaceRunsKeepsText(a);
    StripKeepsText(b);
    Strip(b)
  }

  /** Text that is already tidy (trimmed, no newline triple, no double space) is left unchanged. */
  lemma TidyFixpoint(s: string)
    requires s == [] || (!IsSpace(s[0]) && !IsSpace(s[|s| - 1]))
    requires NoTripleNewline(s) && NoDoubleSpace(s)
    ensures Tidy(s) == s
  {
    CollapseNewlineRunsFixpoint(s);
    CollapseSpaceRunsFixpoint(s);
    StripTrimmed(s);
  }

  /** Putting a character in front keeps a string free of newline triples unless it starts one. */
  lemma ConsNoTripleNewline(c: char, r: string)
    requires NoTripleNewline(r)
    requires c == '\n' && |r| >= 2 && r[0] == '\n' ==> r[1] != '\n'
    ensures NoTripleNewline([c] + r)
  {
    var t := [c] + r;
    forall i | 0 <= i < |t| - 2 ensures !(t[i] == '\n' && t[i + 1] == '\n' && t[i + 2] == '\n') {
      if i > 0 {
        assert t[i] == r[i - 1] && t[i + 1] == r[i] && t[i + 2] == r[i + 1];
      }
    }
  }

  lemma {:induction false} CollapseNewlineRunsShape(s: string)
    ensures NoTripleNewline(CollapseNewlineRuns(s))
  {
    if s != [] {
      CollapseNewlineRunsShape(s[1..]);
      if !(|s| >= 3 && s[0] == '\n' && s[1] == '\n' && s[2] == '\n') {
        var r' := CollapseNewlineRuns(s[1..]);
        if |s| >= 3 && s[0] == '\n' && s[1] == '\n' {
          assert s[1..][1..] == s[2..];
          assert r' == [s[1]] + CollapseNewlineRuns(s[2..]);
        }
        ConsNoTripleNewline(s[0], r');
      }
    }
  }

  lemma {:induction false} CollapseSpaceRunsShape(s: string)
    ensures NoDoubleSpace(CollapseSpaceRuns(s))
  {
    if s != [] {
      CollapseSpaceRunsShape(s[1..]);
      var r := CollapseSpaceRuns(s);
      if !(|s| >= 2 && s[0] == ' ' && s[1] == ' ') {
        var r' := CollapseSpaceRuns(s[1..]);
        assert r == [s[0]] + r';
        forall i | 0 <= i < |r| - 1 ensures !(r[i] == ' ' && r[i + 1] == ' ') {
          if i > 0 {
            assert r[i] == r'[i - 1] && r[i + 1] == r'[i];
          }
        }
      }
    }
  }

  /** Collapsing space runs never joins newlines, since a run of spaces is never removed entirely. */
  lemma {:induction false} CollapseSpaceRunsKeepsNewlineShape(s: string)
    requires NoTripleNewline(s)
    ensures NoTripleNewline(CollapseSpaceRuns(s))
  {
    if s != [] {
      SliceKeepsShape(s, 1, |s|);
      assert s[1..|s|] == s[1..];
      CollapseSpaceRunsKeepsNewlineShape(s[1..]);
      if !(|s| >= 2 && s[0] == ' ' && s[1] == ' ') {
        var r' := CollapseSpaceRuns(s[1..]);
        if |s| >= 3 && s[0] == '\n' && s[1] == '\n' {
          assert s[1..][1..] == s[2..];
          assert r' == [s[1]] + CollapseSpaceRuns(s[2..]);
        }
        ConsNoTripleNewline(s[0], r');
      }
    }
  }

  /** A slice of a string keeps both shapes. */
  lemma SliceKeepsShape(s: string, a: nat, b: nat)
    requires a <= b <= |s|
    ensures NoTripleNewline(s) ==> NoTripleNewline(s[a..b])
    ensures NoDoubleSpace(s) ==> NoDoubleSpace(s[a..b])
  {
    var t := s[a..b];
    assert forall i :: 0 <= i < |t| ==> t[i] == s[a + i];
  }

  /** Stripping keeps both shapes. */
  lemma StripKeepsShape(b: string)
    ensures NoTripleNewline(b) ==> NoTripleNewline(Strip(b))
    ensures NoDoubleSpace(b) ==> NoDoubleSpace(Strip(b))
  {
    var k := LeadingSpaces(b);
    SliceKeepsShape(b, k, k + |Strip(b)|);
  }

  lemma {:induction false} CollapseNewlineRunsKeepsText(s: string)
    ensures RemoveWhitespace(CollapseNewlineRuns(s)) == RemoveWhitespace(s)
  {
    if s != [] {
      CollapseNewlineRunsKeepsText(s[1..]);
      if !(|s| >= 3 && s[0] == '\n' && s[1] == '\n' && s[2] == '\n') {
        assert ([s[0]] + CollapseNewlineRuns(s[1..]))[1..] == CollapseNewlineRuns(s[1..]);
      }
    }
  }

  lemma {:induction false} CollapseSpaceRunsKeepsText(s: string)
    ensures RemoveWhitespace(CollapseSpaceRuns(s)) == RemoveWhitespace(s)
  {
    if s != [] {
      CollapseSpaceRunsKeepsText(s[1..]);
      if !(|s| >= 2 && s[0] == ' ' && s[1] == ' ') {
        assert ([s[0]] + CollapseSpaceRuns(s[1..]))[1..] == CollapseSpaceRuns(s[1..]);
      }
    }
  }

  /**
   * The lines of the text after the leading junk is removed:
   * `raw_text.split('\n')`.  There is at least one line, no line holds a
   * newline, and joining the lines with newlines gives the text back.
   */
  function LinesOf(raw: string): (lines: seq<string>)
    ensures |lines| >= 1
    ensures forall k :: 0 <= k < |lines| ==> !Contains(lines[k], "\n")
    ensures JoinWith(lines, "\n") == RemoveLeadingJunk(raw)
  {
    JoinSplit(RemoveLeadingJunk(raw), "\n");
    SplitOn(RemoveLeadingJunk(raw), "\n")
  }

  /**
   * `clean_gutenberg_text(raw_text)`: the lines between the last START
   * marker line before the first END marker line and that END line, joined
   * with newlines and tidied.
   */
  method CleanGutenbergText(raw: string) returns (cleaned: string)
    ensures exists s: nat, e: nat | MarkerBounds(LinesOf(raw), s, e) ::
      cleaned == Tidy(JoinWith(LinesOf(raw)[s..e], "\n"))
    ensures cleaned == [] || (!IsSpace(cleaned[0]) && !IsSpace(cleaned[|cleaned| - 1]))
    ensures NoTripleNewline(cleaned) && NoDoubleSpace(cleaned)
  {
    var lines := LinesOf(raw);
    var startIdx: nat := 0;
    var endIdx: nat := |lines|;
    var i := 0;
    while i < |lines|
      invariant endIdx == |lines| && Scanned(lines, i, startIdx)
    {
      var line := lines[i];
      ScanStep(lines, i, startIdx);
      if IsMarkerLine(line) {
        if Contains(line, "START") {
          startIdx := i + 1;
        } else if Contains(line, "END") {
          endIdx := i;
          break;
        }
      }
      i := i + 1;
    }
    if endIdx == |lines| {
      ScanDone(lines, startIdx);
    }
    cleaned := Tidy(JoinWith(lines[startIdx..endIdx], "\n"));
    CleanedShape(raw, startIdx, endIdx, cleaned);
  }

  /**
   * The scan has read lines `0..i` without meeting an END line, and
   * `start` is just past the last START line read (or 0).
   */
  predicate Scanned(lines: seq<string>, i: nat, start: nat) {
    && start <= i <= |lines|
    && (forall j :: 0 <= j < i ==> !IsEndLine(lines[j]))
    && (start == 0 || IsStartLine(lines[start - 1]))
    && (forall j :: start <= j < i ==> !IsStartLine(lines[j]))
  }

  /** One step of the scan: what reading line `i` does to the bounds. */
  lemma ScanStep(lines: seq<string>, i: nat, start: nat)
    requires Scanned(lines, i, start) && i < |lines|
    ensures IsStartLine(lines[i]) ==> Scanned(lines, i + 1, i + 1)
    ensures IsEndLine(lines[i]) ==> MarkerBounds(lines, start, i)
    ensures !IsStartLine(lines[i]) && !IsEndLine(lines[i]) ==> Scanned(lines, i + 1, start)
  {
  }

  /** A scan that reads every line without meeting an END line keeps everything after the last START line. */
  lemma ScanDone(lines: seq<string>, start: nat)
    requires Scanned(lines, |lines|, start)
    ensures MarkerBounds(lines, start, |lines|)
  {
  }

  /** The text kept between marker bounds, tidied, has the promised shape. */
  lemma CleanedShape(raw: string, s: nat, e: nat, cleaned: string)
    requires MarkerBounds(LinesOf(raw), s, e)
    requires cleaned == Tidy(JoinWith(LinesOf(raw)[s..e], "\n"))
    ensures exists s: nat, e: nat | MarkerBounds(LinesOf(raw), s, e) ::
      cleaned == Tidy(JoinWith(LinesOf(raw)[s..e], "\n"))
    ensures cleaned == [] || (!IsSpace(cleaned[0]) && !IsSpace(cleaned[|cleaned| - 1]))
    ensures NoTripleNewline(cleaned) && NoDoubleSpace(cleaned)
  {
  }

  /** A join of two or more parts starts with the first part followed by the separator. */
  lemma JoinHead(parts: seq<string>, sep: string)
    requires |parts| >= 1
    ensures |parts| == 1 ==> JoinWith(parts, sep) == parts[0]
    ensures |parts| >= 2 ==> JoinWith(parts, sep) == parts[0] + sep + JoinWith(parts[1..], sep)
  {
  }

  /** When the text does not start with junk, its first line is empty only if the whole text is. */
  lemma FirstLineOfCleanText(text: string)
    requires text == [] || !IsJunk(text[0])
    ensures var lines := SplitOn(text, "\n");
      lines[0] == [] ==> |lines| == 1 && text == []
  {
    var lines := SplitOn(text, "\n");
    JoinSplit(text, "\n");
    JoinHead(lines, "\n");
    assert |lines| >= 2 ==> text[|lines[0]|] == '\n';
  }

  /**
   * Without a START marker line before the first END marker line, the
   * cleaned text does not start with a byte-order mark, a zero-width space
   * or whitespace.  (After a START line the kept text starts wherever the
   * next line starts, which may be such a character.)
   */
  lemma NoLeadingJunkWithoutStart(raw: string, e: nat)
    requires MarkerBounds(LinesOf(raw), 0, e)
    ensures var c := Tidy(JoinWith(LinesOf(raw)[0..e], "\n"));
      c == [] || !IsJunk(c[0])
  {
    var text := RemoveLeadingJunk(raw);
    var lines := LinesOf(raw);
    var j := JoinWith(lines[0..e], "\n");
    if j != [] {
      FirstLineOfCleanText(text);
      JoinHead(lines[0..e], "\n");
      assert lines[0..e][0] == lines[0];
      assert lines[0] != [];
      assert j[0] == lines[0][0] == text[0];
      var a := CollapseNewlineRuns(j);
      var b := CollapseSpaceRuns(a);
      assert b[0] == j[0];
      assert LeadingSpaces(b) == 0;
      StripEmptyIff(b);
    }
  }
}
