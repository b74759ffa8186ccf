/**
 * Character-level helpers on `string` (= `seq<char>`, Rust `&str` viewed as
 * its chars): Unicode white space as Rust's `char::is_whitespace`, the
 * `trim` family, ASCII case mapping and decimal rendering of numbers.
 */
module Chars {
  import opened Seqs

  /** Rust `char::is_whitespace`: the Unicode `White_Space` property. */
  predicate IsWhitespace(c: char)
  {
    ('\t' <= c <= '\r') || c == ' ' || c == '\U{0085}' || c == '\U{00A0}'
    || c == '\U{1680}' || ('\U{2000}' <= c <= '\U{200A}') || c == '\U{2028}'
    || c == '\U{2029}' || c == '\U{202F}' || c == '\U{205F}' || c == '\U{3000}'
  }

  /** `s.trim_end()`: drops trailing white space, and nothing else. */
  function TrimEnd(s: string): (r: string)
    ensures IsPrefix(r, s)
    ensures r == [] || !IsWhitespace(r[|r| - 1])
    ensures forall i :: |r| <= i < |s| ==> IsWhitespace(s[i])
  {
    if s != [] && IsWhitespace(s[|s| - 1]) then TrimEnd(s[..|s| - 1]) else s
  }

  /** `s.trim_start()`: drops leading white space, and nothing else. */
  function TrimStart(s: string): (r: string)
    ensures IsSuffix(r, s)
    ensures r == [] || !IsWhitespace(r[0])
    ensures forall i :: 0 <= i < |s| - |r| ==> IsWhitespace(s[i])
  {
    if s != [] && IsWhitespace(s[0]) then TrimStart(s[1..]) else s
  }

  /** `s.trim()`. */
  function Trim(s: string): string
  {
    TrimEnd(TrimStart(s))
  }

  /** A text with non-blank ends is its own trim. */
  lemma TrimOfSolid(s: string)
    requires s != [] && !IsWhitespace(s[0]) && !IsWhitespace(s[|s| - 1])
    ensures Trim(s) == s
  {
  }

  /** `trim().is_empty()`: the text is blank exactly when it is all white space. */
  lemma {:induction false} TrimEmptyIffBlank(s: string)
    ensures Trim(s) == [] <==> forall i :: 0 <= i < |s| ==> IsWhitespace(s[i])
  {
    var t := TrimStart(s);
    if Trim(s) == [] {
      assert t == [];
    } else {
      var r := Trim(s);
      assert !IsWhitespace(r[0]) by {
        if t != [] && r[0] != t[0] { assert false; }
      }
      assert r[0] == s[|s| - |t|];
    }
  }

  function AsciiUpper(c: char): char
  {
    if 'a' <= c <= 'z' then (c as int - 32) as char else c
  }

  function AsciiLower(c: char): char
  {
    if 'A' <= c <= 'Z' then (c as int + 32) as char else c
  }

  /** `s.to_ascii_uppercase()`. */
  function ToAsciiUpper(s: string): string
  {
    Map(s, AsciiUpper)
  }

  /** `s.to_ascii_lowercase()`. */
  function ToAsciiLower(s: string): string
  {
    Map(s, AsciiLower)
  }

  /** `a.eq_ignore_ascii_case(b)`. */
  predicate EqIgnoreAsciiCase(a: string, b: string)
  {
    ToAsciiLower(a) == ToAsciiLower(b)
  }

  function DigitChar(d: nat): char
    requires d < 10
  {
    ('0' as int + d) as char
  }

  /** Decimal rendering of a natural number, as `format!("{n}")`. */
  function NatToString(n: nat): (r: string)
    ensures |r| >= 1
    ensures forall i :: 0 <= i < |r| ==> '0' <= r[i] <= '9'
    ensures n > 0 ==> r[0] != '0'
  {
    if n < 10 then [DigitChar(n)] else NatToString(n / 10) + [DigitChar(n % 10)]
  }

  /** Decimal rendering of an integer with a leading `-` when negative. */
  function IntToString(n: int): string
  {
    if n < 0 then "-" + NatToString(-n) else NatToString(n)
  }

  /** Value of a string of decimal digits. */
  function DecimalValue(s: string): nat
    requires forall i :: 0 <= i < |s| ==> '0' <= s[i] <= '9'
  {
    if s == [] then 0 else DecimalValue(s[..|s| - 1]) * 10 + (s[|s| - 1] as int - '0' as int)
  }

  /** Rendering a number in decimal and reading it back gives the number. */
  lemma {:induction false} NatToStringRoundTrip(n: nat)
    ensures DecimalValue(NatToString(n)) == n
  {
    if n >= 10 {
      NatToStringRoundTrip(n / 10);
      var s := NatToString(n);
      assert s[..|s| - 1] == NatToString(n / 10);
    }
  }

  /** Drops one trailing `'\r'`. */
  function StripCr(line: string): string
  {
    if line != [] && line[|line| - 1] == '\r' then line[..|line| - 1] else line
  }

  /**
   * `s.lines()`: pieces between `'\n'`s, without a final empty piece, each
   * `'\n'`-terminated piece losing one `'\r'` before its `'\n'`.
   */
  function RustLines(s: string): seq<string>
  {
    var parts := Split(s, '\n');
    var last := parts[|parts| - 1];
    Map(parts[..|parts| - 1], StripCr) + (if last == [] then [] else [last])
  }

  /** `s.lines().count()`: the newlines, plus one for an unterminated last line. */
  lemma RustLinesCount(s: string)
    ensures |RustLines(s)| == Count(s, '\n') + (if s != [] && s[|s| - 1] != '\n' then 1 else 0)
  {
    SplitLength(s, '\n');
    RustLinesLength(s);
    LastSplitPieceDecides(s);
  }

  /** `lines()` has one line per piece of the split but the last, plus the last piece when it is not empty. */
  lemma RustLinesLength(s: string)
    ensures var parts := Split(s, '\n');
            |RustLines(s)| == |parts| - 1 + (if parts[|parts| - 1] == [] then 0 else 1)
  {
  }

  /** The last piece of the split on `'\n'` is non-empty exactly when the text ends in another character. */
  lemma LastSplitPieceDecides(s: string)
    ensures var parts := Split(s, '\n');
            parts[|parts| - 1] != [] <==> s != [] && s[|s| - 1] != '\n'
  {
    SplitLastIsSuffix(s, '\n');
    SplitPiecesFree(s, '\n');
    var parts := Split(s, '\n');
    LastPieceDecides(s, parts[|parts| - 1], |parts|);
  }

  /** The last piece of a split is non-empty exactly when the text ends in something other than the separator. */
  lemma LastPieceDecides(s: string, last: string, n: nat)
    requires IsSuffix(last, s) && Free(last, '\n') && n >= 1 && (n == 1 ==> last == s)
    requires n > 1 ==> |last| < |s| && s[|s| - |last| - 1] == '\n'
    ensures last != [] <==> s != [] && s[|s| - 1] != '\n'
  {
    if last != [] {
      assert s[|s| - 1] == last[|last| - 1];
    }
  }

  // ---------------------------------------------------------------------
  // String order
  // ---------------------------------------------------------------------

  /** `String::cmp`: lexicographic order on characters (code points, as UTF-8 bytes compare). */
  predicate LexLe(a: string, b: string)
    decreases |a|
  {
    a == [] || (b != [] && (a[0] < b[0] || (a[0] == b[0] && LexLe(a[1..], b[1..]))))
  }

  /** Any two strings compare one way or the other. */
  lemma {:induction false} LexTotal(a: string, b: string)
    ensures LexLe(a, b) || LexLe(b, a)
    decreases |a|
  {
    if a != [] && b != [] && a[0] == b[0] {
      LexTotal(a[1..], b[1..]);
    }
  }

  /** Strings that compare both ways are equal. */
  lemma {:induction false} LexAntisymmetric(a: string, b: string)
    requires LexLe(a, b) && LexLe(b, a)
    ensures a == b
    decreases |a|
  {
    if a != [] {
      LexAntisymmetric(a[1..], b[1..]);
      assert a == [a[0]] + a[1..] && b == [b[0]] + b[1..];
    }
  }

  /** The order is transitive. */
  lemma {:induction false} LexTransitive(a: string, b: string, c: string)
    requires LexLe(a, b) && LexLe(b, c)
    ensures LexLe(a, c)
    decreases |a|
  {
    if a != [] && a[0] == b[0] && b[0] == c[0] {
      LexTransitive(a[1..], b[1..], c[1..]);
    }
  }

  /** Every string compares at most itself. */
  lemma {:induction false} LexReflexive(a: string)
    ensures LexLe(a, a)
    decreases |a|
  {
    if a != [] {
      LexReflexive(a[1..]);
    }
  }
}
