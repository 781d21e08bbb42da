/**
 * Character classes and per-character case mappings used by the text
 * preprocessor.  Python's `re` classes `\s` and `\w`, and `str.lower` /
 * `str.upper`, are defined over all of Unicode; here they are explicit
 * per-character definitions (see README for the ranges covered).
 */
module Chars {

  /**
   * Python's `str.isspace`, which is also what `\s` matches in a str pattern.
   * No whitespace character is a sentence terminator, an apostrophe, a dash
   * or a pipe.
   */
  predicate IsSpace(c: char)
    ensures IsSpace(c) ==> !IsTerminator(c) && c != '\'' && c != '-' && c != '|'
  {
    c == ' ' || ('\t' <= c <= '\r') || ('\U{1C}' <= c <= '\U{1F}')
    || c == '\U{85}' || c == '\U{A0}' || c == '\U{1680}'
    || ('\U{2000}' <= c <= '\U{200A}') || c == '\U{2028}' || c == '\U{2029}'
    || c == '\U{202F}' || c == '\U{205F}' || c == '\U{3000}'
  }

  /**
   * Python's `\w` (alphanumeric or underscore): exact on Latin-1, plus the
   * Latin Extended-A/B block, the basic Cyrillic letters and the CJK unified
   * ideographs; every other character counts as a non-word character.  A
   * word character is never whitespace, a sentence terminator, an
   * apostrophe, a dash or a pipe.
   */
  predicate IsWordChar(c: char)
    ensures IsWordChar(c) ==> !IsSpace(c) && !IsTerminator(c) && c != '\'' && c != '-' && c != '|'
  {
    ('a' <= c <= 'z') || ('A' <= c <= 'Z') || ('0' <= c <= '9') || c == '_'
    || c == '\U{AA}' || c == '\U{B2}' || c == '\U{B3}' || c == '\U{B5}'
    || c == '\U{B9}' || c == '\U{BA}' || ('\U{BC}' <= c <= '\U{BE}')
    || ('\U{C0}' <= c <= '\U{24F}' && c != '\U{D7}' && c != '\U{F7}')
    || ('\U{400}' <= c <= '\U{481}')
    || ('\U{4E00}' <= c <= '\U{9FFF}')
  }

  /** The sentence terminators `.`, `!` and `?`. */
  predicate IsTerminator(c: char) {
    c == '.' || c == '!' || c == '?'
  }

  /** Per-character `str.lower`; it keeps a character's class. */
  function Lower(c: char): (r: char)
    ensures IsWordChar(r) <==> IsWordChar(c)
    ensures IsSpace(r) <==> IsSpace(c)
    ensures IsTerminator(r) <==> IsTerminator(c)
  {
    if ('A' <= c <= 'Z') || ('\U{C0}' <= c <= '\U{DE}' && c != '\U{D7}') || ('\U{410}' <= c <= '\U{42F}') then
      (c as int + 32) as char
    else if '\U{400}' <= c <= '\U{40F}' then
      (c as int + 80) as char
    else if c == '\U{178}' then
      '\U{FF}'
    else
      c
  }

  /**
   * Per-character `str.upper` (a character whose upper case is longer, such
   * as U+00DF, is left as it is).  It keeps a character's class, and a
   * character it changes is the lower case of its result.
   */
  function Upper(c: char): (r: char)
    ensures IsWordChar(r) <==> IsWordChar(c)
    ensures IsSpace(r) <==> IsSpace(c)
    ensures IsTerminator(r) <==> IsTerminator(c)
    ensures r != c ==> Lower(r) == c
  {
    if ('a' <= c <= 'z') || ('\U{E0}' <= c <= '\U{FE}' && c != '\U{F7}') || ('\U{430}' <= c <= '\U{44F}') then
      (c as int - 32) as char
    else if '\U{450}' <= c <= '\U{45F}' then
      (c as int - 80) as char
    else if c == '\U{FF}' then
      '\U{178}'
    else
      c
  }

  /**
   * The quote and dash canonicalisation: curly double quotes, curly single
   * quotes, em and en dashes.  Word characters, whitespace, terminators,
   * `'` and `-` are left alone, and a replaced character becomes `"`, `'`
   * or `-`.
   */
  function Canonical(c: char): (r: char)
    ensures IsWordChar(c) || IsSpace(c) || IsTerminator(c) || c == '\'' || c == '-' ==> r == c
    ensures r != c ==> r == '"' || r == '\'' || r == '-'
  {
    if c == '\U{201C}' || c == '\U{201D}' then '"'
    else if c == '\U{2018}' || c == '\U{2019}' then '\''
    else if c == '\U{2014}' || c == '\U{2013}' then '-'
    else c
  }


  /** Lower-casing a lower-cased character changes nothing. */
  lemma LowerIdempotent(c: char)
    ensures Lower(Lower(c)) == Lower(c)
  {
  }
}
