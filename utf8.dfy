/**
 * Well-formed UTF-8 byte sequences, following the syntax of section 4 of
 * RFC 3629. Rust `str` values are always well formed; the byte-level
 * truncation in the tools relies on that to cut on character boundaries.
 */
module Utf8 {

  type Byte = bv8

  /** A continuation byte `0b10xxxxxx` (section 3 of RFC 3629). */
  predicate IsContinuation(b: Byte)
  {
    0x80 <= b <= 0xBF
  }

  predicate InRange(b: Byte, lo: Byte, hi: Byte)
  {
    lo <= b <= hi
  }

  /**
   * The width of the well-formed character that starts `s`, or 0 when `s`
   * does not start with one (UTF8-1 .. UTF8-4 of RFC 3629 section 4).
   */
  function CharWidth(s: seq<Byte>): (w: nat)
    ensures w <= 4 && w <= |s|
  {
    if s == [] then 0
    else
      var b := s[0];
      if b < 0x80 then 1
      else if InRange(b, 0xC2, 0xDF) then
        if |s| >= 2 && IsContinuation(s[1]) then 2 else 0
      else if b == 0xE0 then
        if |s| >= 3 && InRange(s[1], 0xA0, 0xBF) && IsContinuation(s[2]) then 3 else 0
      else if InRange(b, 0xE1, 0xEC) || InRange(b, 0xEE, 0xEF) then
        if |s| >= 3 && IsContinuation(s[1]) && IsContinuation(s[2]) then 3 else 0
      else if b == 0xED then
        if |s| >= 3 && InRange(s[1], 0x80, 0x9F) && IsContinuation(s[2]) then 3 else 0
      else if b == 0xF0 then
        if |s| >= 4 && InRange(s[1], 0x90, 0xBF) && IsContinuation(s[2]) && IsContinuation(s[3]) then 4 else 0
      else if InRange(b, 0xF1, 0xF3) then
        if |s| >= 4 && IsContinuation(s[1]) && IsContinuation(s[2]) && IsContinuation(s[3]) then 4 else 0
      else if b == 0xF4 then
        if |s| >= 4 && InRange(s[1], 0x80, 0x8F) && IsContinuation(s[2]) && IsContinuation(s[3]) then 4 else 0
      else 0
  }

  /** A character starts with a non-continuation byte and goes on with continuation bytes. */
  lemma CharShape(s: seq<Byte>)
    requires CharWidth(s) > 0
    ensures !IsContinuation(s[0])
    ensures forall i :: 1 <= i < CharWidth(s) ==> IsContinuation(s[i])
  {
  }

  /** `std::str::from_utf8(s).is_ok()`. */
  predicate Valid(s: seq<Byte>)
    decreases |s|
  {
    s == [] || (CharWidth(s) > 0 && Valid(s[CharWidth(s)..]))
  }

  /** Index `k` is a character boundary of `s`. */
  predicate AtBoundary(s: seq<Byte>, k: int)
    requires 0 <= k <= |s|
  {
    k == |s| || !IsContinuation(s[k])
  }

  /** A suffix of well-formed text that starts on a character boundary is well formed. */
  lemma {:induction false} SuffixAtBoundaryValid(s: seq<Byte>, k: nat)
    requires Valid(s)
    requires k <= |s| && AtBoundary(s, k)
    ensures Valid(s[k..])
    decreases |s|
  {
    if k > 0 {
      var w := CharWidth(s);
      FirstCharBeforeBoundary(s, k);
      assert s[w..][k - w..] == s[k..];
      SuffixAtBoundaryValid(s[w..], k - w);
    } else {
      assert s[k..] == s;
    }
  }

  /** A later character boundary lies at or after the end of the first character. */
  lemma FirstCharBeforeBoundary(s: seq<Byte>, k: nat)
    requires CharWidth(s) > 0
    requires 0 < k <= |s| && AtBoundary(s, k)
    ensures CharWidth(s) <= k
  {
    CharShape(s);
  }

  /** In well-formed text at most three continuation bytes follow one another. */
  lemma {:induction false} ContinuationRunBound(s: seq<Byte>, p: nat)
    requires Valid(s)
    requires p + 3 < |s|
    ensures !IsContinuation(s[p]) || !IsContinuation(s[p + 1]) || !IsContinuation(s[p + 2])
            || !IsContinuation(s[p + 3])
    decreases |s|
  {
    var w := CharWidth(s);
    CharShape(s);
    if p >= w {
      assert s[w..][p - w] == s[p];
      assert s[w..][p - w + 1] == s[p + 1];
      assert s[w..][p - w + 2] == s[p + 2];
      assert s[w..][p - w + 3] == s[p + 3];
      if p - w + 3 < |s[w..]| {
        ContinuationRunBound(s[w..], p - w);
      }
    } else {
      // a run starting inside this character ends at the next lead byte
      if 0 < p && w < |s| {
        CharShape(s[w..]);
        assert s[w..][0] == s[w];
      }
    }
  }

  /** In well-formed text the byte after an ASCII byte starts a character. */
  lemma {:induction false} BoundaryAfterAscii(s: seq<Byte>, p: nat)
    requires Valid(s)
    requires 0 < p <= |s| && s[p - 1] < 0x80
    ensures AtBoundary(s, p)
    decreases |s|
  {
    var w := CharWidth(s);
    CharShape(s);
    if p - 1 < w {
      assert p == 1 && w == 1;
      if w < |s| {
        CharShape(s[w..]);
      }
    } else {
      assert s[w..][p - w - 1] == s[p - 1];
      BoundaryAfterAscii(s[w..], p - w);
    }
  }
}
