/**
 * The character normalisation the edit tool uses to match text loosely:
 * Unicode spaces become `' '`, curly quotes become straight ones, Unicode
 * dashes and the minus sign become `'-'`; a line is also stripped of its
 * trailing white space first.
 */
module Normalize {
  import opened Seqs
  import opened Chars

  /** `is_special_unicode_space`. */
  predicate IsSpecialUnicodeSpace(c: char)
  {
    c == '\U{00A0}' || c == '\U{202F}' || c == '\U{205F}' || c == '\U{3000}'
    || ('\U{2000}' <= c <= '\U{200A}')
  }

  predicate IsSingleCurlyQuote(c: char)
  {
    c == '\U{2018}' || c == '\U{2019}'
  }

  predicate IsDoubleCurlyQuote(c: char)
  {
    c == '\U{201C}' || c == '\U{201D}' || c == '\U{201E}' || c == '\U{201F}'
  }

  predicate IsUnicodeDash(c: char)
  {
    ('\U{2010}' <= c <= '\U{2015}') || c == '\U{2212}'
  }

  function SpaceChar(c: char): char
  {
    if IsSpecialUnicodeSpace(c) then ' ' else c
  }

  function QuoteChar(c: char): char
  {
    if IsSingleCurlyQuote(c) then '\'' else if IsDoubleCurlyQuote(c) then '"' else c
  }

  function DashChar(c: char): char
  {
    if IsUnicodeDash(c) then '-' else c
  }

  /** `normalize_unicode_spaces`. */
  function NormalizeUnicodeSpaces(s: string): string
  {
    Map(s, SpaceChar)
  }

  /** `normalize_quotes`: the two single-character `replace` passes. */
  function NormalizeQuotes(s: string): string
  {
    Map(s, QuoteChar)
  }

  /** `normalize_dashes`. */
  function NormalizeDashes(s: string): string
  {
    Map(s, DashChar)
  }

  /** `normalize_for_match`: spaces, then quotes, then dashes. */
  function NormalizeForMatch(s: string): string
  {
    NormalizeDashes(NormalizeQuotes(NormalizeUnicodeSpaces(s)))
  }

  /** `normalize_line_for_match`. */
  function NormalizeLineForMatch(line: string): string
  {
    NormalizeForMatch(TrimEnd(line))
  }

  /** A character the normalisation leaves alone. */
  predicate IsPlain(c: char)
  {
    !IsSpecialUnicodeSpace(c) && !IsSingleCurlyQuote(c) && !IsDoubleCurlyQuote(c) && !IsUnicodeDash(c)
  }

  /** What one character becomes. */
  function NormalChar(c: char): (r: char)
    ensures IsPlain(r)
    ensures IsPlain(c) ==> r == c
  {
    DashChar(QuoteChar(SpaceChar(c)))
  }

  /**
   * Normalisation is character by character: same length, each character
   * mapped on its own, and nothing left to normalise afterwards.
   */
  lemma NormalizeForMatchPointwise(s: string)
    ensures var r := NormalizeForMatch(s);
            |r| == |s| && (forall i :: 0 <= i < |s| ==> r[i] == NormalChar(s[i]))
            && (forall i :: 0 <= i < |r| ==> IsPlain(r[i]))
  {
    var r := NormalizeForMatch(s);
    forall i | 0 <= i < |s| ensures r[i] == NormalChar(s[i]) {
      assert NormalizeUnicodeSpaces(s)[i] == SpaceChar(s[i]);
      assert NormalizeQuotes(NormalizeUnicodeSpaces(s))[i] == QuoteChar(SpaceChar(s[i]));
    }
  }

  /** Normalising twice is normalising once. */
  lemma NormalizeForMatchIdempotent(s: string)
    ensures NormalizeForMatch(NormalizeForMatch(s)) == NormalizeForMatch(s)
  {
    var r := NormalizeForMatch(s);
    NormalizeForMatchPointwise(s);
    NormalizeForMatchPointwise(r);
  }

  /** A normalised line ends in a character that is not white space. */
  lemma NormalizeLineEnd(line: string)
    ensures var r := NormalizeLineForMatch(line);
            r == [] || !IsWhitespace(r[|r| - 1])
  {
    var t := TrimEnd(line);
    NormalizeForMatchPointwise(t);
  }

  /**
   * Normalising a line twice is normalising it once: the trailing white
   * space is gone, and no special space is left to turn into a new one.
   */
  lemma NormalizeLineIdempotent(line: string)
    ensures NormalizeLineForMatch(NormalizeLineForMatch(line)) == NormalizeLineForMatch(line)
  {
    var r := NormalizeLineForMatch(line);
    NormalizeLineEnd(line);
    assert TrimEnd(r) == r;
    NormalizeForMatchIdempotent(TrimEnd(line));
  }

  /** Two lines match loosely exactly when they agree character by character after mapping, up to trailing white space. */
  lemma NormalizeLineMatch(a: string, b: string)
    ensures NormalizeLineForMatch(a) == NormalizeLineForMatch(b) <==>
            var ta := TrimEnd(a);
            var tb := TrimEnd(b);
            |ta| == |tb| && forall i :: 0 <= i < |ta| ==> NormalChar(ta[i]) == NormalChar(tb[i])
  {
    var ta := TrimEnd(a);
    var tb := TrimEnd(b);
    NormalizeForMatchPointwise(ta);
    NormalizeForMatchPointwise(tb);
    if |ta| == |tb| && forall i :: 0 <= i < |ta| ==> NormalChar(ta[i]) == NormalChar(tb[i]) {
      assert NormalizeForMatch(ta) == NormalizeForMatch(tb);
    }
  }
}
