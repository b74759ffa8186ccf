/**
 * The truncation engine of the tool layer: bounding a text to a maximum
 * number of lines and bytes, keeping either its first lines
 * (`truncate_head`) or its last lines (`truncate_tail`), and cutting one
 * over-long line from its end on a UTF-8 character boundary
 * (`truncate_string_to_bytes_from_end`).
 *
 * Text is the byte string of a Rust `&str`; lines are the pieces of
 * `split('\n')`, and each line after the first costs one separator byte.
 * The `usize` limits are natural numbers; `UsizeMax` stands for the
 * `usize::MAX` that the search tools pass as their line limit.
 */
module Truncation {
  import opened Wrappers
  import opened Seqs
  import Utf8

  type Byte = Utf8.Byte

  /** The byte of `'\n'`. */
  const NL: Byte := 10

  const DEFAULT_MAX_LINES: nat := 2000
  const DEFAULT_MAX_BYTES: nat := 50 * 1024
  const UsizeMax: nat := 0xFFFF_FFFF_FFFF_FFFF

  datatype TruncatedBy = Lines | Bytes

  datatype TruncationResult = TruncationResult(
    content: seq<Byte>,
    truncated: bool,
    truncatedBy: Option<TruncatedBy>,
    totalLines: nat,
    totalBytes: nat,
    outputLines: nat,
    outputBytes: nat,
    lastLinePartial: bool,
    firstLineExceedsLimit: bool,
    maxLines: nat,
    maxBytes: nat)

  /** `content.split('\n').collect::<Vec<_>>()`. */
  function LinesOf(content: seq<Byte>): seq<seq<Byte>>
  {
    Split(content, NL)
  }

  /** `lines.join("\n")`. */
  function JoinLines(lines: seq<seq<Byte>>): seq<Byte>
  {
    Join(lines, NL)
  }

  function Min(a: nat, b: nat): nat
  {
    if a <= b then a else b
  }

  // ---------------------------------------------------------------------------
  // Costs of whole-line prefixes and suffixes
  // ---------------------------------------------------------------------------

  /** Taking one more line costs its length plus a separator unless it is the first. */
  lemma PrefixStep(lines: seq<seq<Byte>>, j: nat)
    requires j < |lines|
    ensures JoinLines(lines[..j + 1]) ==
            JoinLines(lines[..j]) + (if j > 0 then [NL] else []) + lines[j]
  {
    assert lines[..j + 1] == lines[..j] + [lines[j]];
    if j > 0 {
      JoinSnoc(lines[..j], lines[j], NL);
    }
  }

  /** Longer prefixes never cost fewer bytes. */
  lemma {:induction false} PrefixMonotone(lines: seq<seq<Byte>>, i: nat, j: nat)
    requires i <= j <= |lines|
    ensures |JoinLines(lines[..i])| <= |JoinLines(lines[..j])|
    decreases j - i
  {
    if i < j {
      PrefixStep(lines, j - 1);
      PrefixMonotone(lines, i, j - 1);
    }
  }

  /** Taking one more line at the front of a suffix. */
  lemma SuffixStep(lines: seq<seq<Byte>>, j: nat)
    requires 0 < j <= |lines|
    ensures JoinLines(lines[j - 1..]) ==
            lines[j - 1] + (if j < |lines| then [NL] else []) + JoinLines(lines[j..])
  {
    assert lines[j - 1..] == [lines[j - 1]] + lines[j..];
    if j < |lines| {
      JoinCons(lines[j - 1], lines[j..], NL);
    }
  }

  /** Longer suffixes never cost fewer bytes. */
  lemma {:induction false} SuffixMonotone(lines: seq<seq<Byte>>, i: nat, j: nat)
    requires i <= j <= |lines|
    ensures |JoinLines(lines[j..])| <= |JoinLines(lines[i..])|
    decreases j - i
  {
    if i < j {
      SuffixStep(lines, i + 1);
      SuffixMonotone(lines, i + 1, j);
    }
  }

  /**
   * The largest number `r <= k` of leading lines whose join fits in
   * `maxBytes` bytes: a search from the top, independent of the greedy loop.
   */
  function HeadFit(lines: seq<seq<Byte>>, k: nat, maxBytes: nat): (r: nat)
    requires k <= |lines|
    ensures r <= k
    ensures |JoinLines(lines[..r])| <= maxBytes
    ensures r < k ==> |JoinLines(lines[..r + 1])| > maxBytes
  {
    if k == 0 || |JoinLines(lines[..k])| <= maxBytes then k
    else HeadFit(lines, k - 1, maxBytes)
  }

  /** Taking line `i` after the first `i` lines goes over the byte budget. */
  predicate HeadOverflows(lines: seq<seq<Byte>>, i: nat, maxBytes: nat)
  {
    i < |lines| && |JoinLines(lines[..i + 1])| > maxBytes
  }

  /** The greedy stopping point of the head loop is the largest fitting prefix. */
  lemma {:induction false} HeadFitIsGreedy(lines: seq<seq<Byte>>, i: nat, k: nat, maxBytes: nat)
    requires i <= k <= |lines|
    requires |JoinLines(lines[..i])| <= maxBytes
    requires i == k || |JoinLines(lines[..i + 1])| > maxBytes
    ensures HeadFit(lines, k, maxBytes) == i
    decreases k
  {
    if k > i {
      assert |JoinLines(lines[..k])| > maxBytes by {
        PrefixMonotone(lines, i + 1, k);
      }
      HeadFitIsGreedy(lines, i, k - 1, maxBytes);
    }
  }

  /** The largest number `r <= k` of trailing lines whose join fits in `maxBytes` bytes. */
  function TailFit(lines: seq<seq<Byte>>, k: nat, maxBytes: nat): (r: nat)
    requires k <= |lines|
    ensures r <= k
  {
    if k == 0 || |JoinLines(lines[|lines| - k..])| <= maxBytes then k
    else TailFit(lines, k - 1, maxBytes)
  }

  /** The trailing lines `TailFit` keeps fit, and one more line would not. */
  lemma {:induction false} TailFitFits(lines: seq<seq<Byte>>, k: nat, maxBytes: nat)
    requires k <= |lines|
    ensures var r := TailFit(lines, k, maxBytes);
            |JoinLines(lines[|lines| - r..])| <= maxBytes
            && (r < k ==> |JoinLines(lines[|lines| - r - 1..])| > maxBytes)
    decreases k
  {
    if k > 0 && |JoinLines(lines[|lines| - k..])| > maxBytes {
      TailFitFits(lines, k - 1, maxBytes);
    }
  }

  /** Taking one more line in front of the last `c` lines goes over the byte budget. */
  predicate TailOverflows(lines: seq<seq<Byte>>, c: nat, maxBytes: nat)
  {
    c < |lines| && |JoinLines(lines[|lines| - c - 1..])| > maxBytes
  }

  lemma {:induction false} TailFitIsGreedy(lines: seq<seq<Byte>>, i: nat, k: nat, maxBytes: nat)
    requires i <= k <= |lines|
    requires |JoinLines(lines[|lines| - i..])| <= maxBytes
    requires i == k || |JoinLines(lines[|lines| - i - 1..])| > maxBytes
    ensures TailFit(lines, k, maxBytes) == i
    decreases k
  {
    if k > i {
      assert |JoinLines(lines[|lines| - k..])| > maxBytes by {
        SuffixMonotone(lines, |lines| - k, |lines| - i - 1);
      }
      TailFitIsGreedy(lines, i, k - 1, maxBytes);
    }
  }

  // ---------------------------------------------------------------------------
  // Cutting one line from its end on a character boundary
  // ---------------------------------------------------------------------------

  /** The first character boundary at or after `p`. */
  function BoundaryFrom(s: seq<Byte>, p: nat): (k: nat)
    requires p <= |s|
    ensures p <= k <= |s| && Utf8.AtBoundary(s, k)
    ensures forall i :: p <= i < k ==> Utf8.IsContinuation(s[i])
    decreases |s| - p
  {
    if p == |s| || !Utf8.IsContinuation(s[p]) then p else BoundaryFrom(s, p + 1)
  }

  /**
   * `truncate_string_to_bytes_from_end`: at most `maxBytes` trailing bytes,
   * starting on a character boundary; the text itself when it already fits;
   * the empty string when the suffix is not well-formed UTF-8 (the
   * `unwrap_or_default` of `from_utf8`).
   */
  function CutFromEnd(s: seq<Byte>, maxBytes: nat): (r: seq<Byte>)
    ensures |s| <= maxBytes ==> r == s
    ensures IsSuffix(r, s)
    ensures |s| > maxBytes ==> |r| <= maxBytes && (r == [] || !Utf8.IsContinuation(r[0]))
  {
    if |s| <= maxBytes then s
    else
      var k := BoundaryFrom(s, |s| - maxBytes);
      if Utf8.Valid(s[k..]) then s[k..] else []
  }

  /**
   * On well-formed text the cut never fails: it keeps the suffix that starts
   * at the first boundary, which is well formed and loses at most three bytes
   * of the budget to the skipped continuation bytes.
   */
  lemma CutFromEndValid(s: seq<Byte>, maxBytes: nat)
    requires Utf8.Valid(s)
    requires |s| > maxBytes
    ensures var r := CutFromEnd(s, maxBytes);
            Utf8.Valid(r) && r == s[|s| - |r|..] && |r| + 3 >= maxBytes
            && forall i :: |s| - maxBytes <= i < |s| - |r| ==> Utf8.IsContinuation(s[i])
  {
    var p := |s| - maxBytes;
    var k := BoundaryFrom(s, p);
    Utf8.SuffixAtBoundaryValid(s, k);
    if k > p + 3 {
      Utf8.ContinuationRunBound(s, p);
    }
  }

  /** `truncate_string_to_bytes_from_end`, with its skipping loop. */
  method TruncateStringToBytesFromEnd(s: seq<Byte>, maxBytes: nat) returns (r: seq<Byte>)
    ensures r == CutFromEnd(s, maxBytes)
  {
    if |s| <= maxBytes {
      return s;
    }
    var start := |s| - maxBytes;
    while start < |s| && Utf8.IsContinuation(s[start])
      invariant |s| - maxBytes <= start <= |s|
      invariant BoundaryFrom(s, |s| - maxBytes) == BoundaryFrom(s, start)
      decreases |s| - start
    {
      start := start + 1;
    }
    if Utf8.Valid(s[start..]) {
      r := s[start..];
    } else {
      r := [];
    }
  }

  // ---------------------------------------------------------------------------
  // truncate_head
  // ---------------------------------------------------------------------------

  /** What `truncate_head` returns, stated without its loop. */
  function HeadSpec(content: seq<Byte>, maxLines: nat, maxBytes: nat): TruncationResult
  {
    var lines := LinesOf(content);
    var n := |lines|;
    if n <= maxLines && |content| <= maxBytes then
      TruncationResult(content, false, None, n, |content|, n, |content|, false, false, maxLines, maxBytes)
    else if |lines[0]| > maxBytes then
      TruncationResult([], true, Some(Bytes), n, |content|, 0, 0, false, true, maxLines, maxBytes)
    else
      var k := HeadFit(lines, Min(n, maxLines), maxBytes);
      var out := JoinLines(lines[..k]);
      TruncationResult(out, true, Some(if k == maxLines then Lines else Bytes),
                       n, |content|, k, |out|, false, false, maxLines, maxBytes)
  }

  /** `truncate_head`: keep the first whole lines within both limits. */
  method TruncateHead(content: seq<Byte>, maxLines: nat, maxBytes: nat) returns (r: TruncationResult)
    ensures r == HeadSpec(content, maxLines, maxBytes)
  {
    var totalBytes := |content|;
    var lines := LinesOf(content);
    var totalLines := |lines|;

    if totalLines <= maxLines && totalBytes <= maxBytes {
      return TruncationResult(content, false, None, totalLines, totalBytes, totalLines, totalBytes,
                              false, false, maxLines, maxBytes);
    }

    var firstLineBytes := |lines[0]|;
    if firstLineBytes > maxBytes {
      return TruncationResult([], true, Some(Bytes), totalLines, totalBytes, 0, 0,
                              false, true, maxLines, maxBytes);
    }

    var output: seq<Byte> := [];
    var lineCount := 0;
    var byteCount := 0;
    var truncatedBy: Option<TruncatedBy> := None;

    // taking every line would give back the whole content, which does not fit
    JoinSplit(content, NL);
    assert lines[..totalLines] == lines;
    var i: nat := 0;
    while i < totalLines
      invariant i < totalLines && lineCount == i && i <= maxLines
      invariant output == JoinLines(lines[..i])
      invariant byteCount == |output| <= maxBytes
      invariant truncatedBy.None?
    {
      if i >= maxLines {
        truncatedBy := Some(Lines);
        break;
      }
      var lineBytes := |lines[i]| + (if i > 0 then 1 else 0);
      if lineCount >= maxLines {
        truncatedBy := Some(Lines);
        break;
      }
      PrefixStep(lines, i);
      if byteCount + lineBytes > maxBytes {
        truncatedBy := Some(Bytes);
        break;
      }
      if i > 0 {
        output := output + [NL];
      }
      output := output + lines[i];
      lineCount := lineCount + 1;
      byteCount := byteCount + lineBytes;
      i := i + 1;
    }

    HeadFitIsGreedy(lines, i, Min(totalLines, maxLines), maxBytes);
    r := TruncationResult(output, truncatedBy.Some?, truncatedBy, totalLines, totalBytes,
                          lineCount, |output|, false, false, maxLines, maxBytes);
  }

  // ---------------------------------------------------------------------------
  // truncate_tail
  // ---------------------------------------------------------------------------

  /** What `truncate_tail` returns, stated without its loop. */
  function TailSpec(content: seq<Byte>, maxLines: nat, maxBytes: nat): TruncationResult
  {
    var lines := LinesOf(content);
    var n := |lines|;
    if n <= maxLines && |content| <= maxBytes then
      TruncationResult(content, false, None, n, |content|, n, |content|, false, false, maxLines, maxBytes)
    else
      var k := TailFit(lines, Min(n, maxLines), maxBytes);
      if k == 0 && 0 < maxLines && 0 < maxBytes then
        // the last line alone is over the byte budget: keep its tail
        var part := CutFromEnd(lines[n - 1], maxBytes);
        TruncationResult(part, true, Some(Bytes), n, |content|, 1, |part|, true, false, maxLines, maxBytes)
      else
        var out := JoinLines(lines[n - k..]);
        TruncationResult(out, true, Some(if k == maxLines then Lines else Bytes),
                         n, |content|, k, |out|, false, false, maxLines, maxBytes)
  }

  /** `TailSpec` once the number `c` of whole lines the backwards walk keeps is known. */
  lemma TailSpecAtStop(content: seq<Byte>, maxLines: nat, maxBytes: nat, c: nat)
    requires var n := |LinesOf(content)|; !(n <= maxLines && |content| <= maxBytes)
    requires c < |LinesOf(content)| && c <= maxLines
    requires |JoinLines(LinesOf(content)[|LinesOf(content)| - c..])| <= maxBytes
    requires c == maxLines || TailOverflows(LinesOf(content), c, maxBytes)
    ensures var lines := LinesOf(content);
            var n := |lines|;
            TailSpec(content, maxLines, maxBytes) ==
              if c == 0 && 0 < maxLines && 0 < maxBytes then
                var part := CutFromEnd(lines[n - 1], maxBytes);
                TruncationResult(part, true, Some(Bytes), n, |content|, 1, |part|, true, false, maxLines, maxBytes)
              else
                var out := JoinLines(lines[n - c..]);
                TruncationResult(out, true, Some(if c == maxLines then Lines else Bytes),
                                 n, |content|, c, |out|, false, false, maxLines, maxBytes)
  {
    var lines := LinesOf(content);
    TailFitIsGreedy(lines, c, Min(|lines|, maxLines), maxBytes);
    assert TailFit(lines, Min(|lines|, maxLines), maxBytes) == c;
  }

  /**
   * `truncate_tail`: walk the lines from the last one backwards. Each kept
   * line is put in front of those already kept, which is what the source's
   * push-then-`reverse` produces.
   */
  method TruncateTail(content: seq<Byte>, maxLines: nat, maxBytes: nat) returns (r: TruncationResult)
    ensures r == TailSpec(content, maxLines, maxBytes)
  {
    var totalBytes := |content|;
    var lines := LinesOf(content);
    var totalLines := |lines|;

    if totalLines <= maxLines && totalBytes <= maxBytes {
      return TruncationResult(content, false, None, totalLines, totalBytes, totalLines, totalBytes,
                              false, false, maxLines, maxBytes);
    }

    var kept: seq<seq<Byte>> := [];
    var byteCount := 0;
    var truncatedBy: Option<TruncatedBy> := None;
    var lastLinePartial := false;

    var c: nat := 0;
    while c < totalLines
      invariant c < totalLines && c <= maxLines
      invariant kept == lines[totalLines - c..]
      invariant byteCount == |JoinLines(kept)| <= maxBytes
      invariant truncatedBy.None? && !lastLinePartial
    {
      var line := lines[totalLines - 1 - c];
      var lineBytes := |line| + (if kept != [] then 1 else 0);
      if |kept| >= maxLines {
        truncatedBy := Some(Lines);
        break;
      }
      SuffixStep(lines, totalLines - c);
      if byteCount + lineBytes > maxBytes {
        var remaining := if byteCount <= maxBytes then maxBytes - byteCount else 0;
        if remaining > 0 && kept == [] {
          var part := TruncateStringToBytesFromEnd(line, maxBytes);
          kept := kept + [part];
          lastLinePartial := true;
        }
        truncatedBy := Some(Bytes);
        break;
      }
      assert lines[totalLines - 1 - c..] == [line] + lines[totalLines - c..];
      // keeping every line would give back the whole content, which does not fit
      WholeLinesSuffix(content, c + 1);
      kept := [line] + kept;
      byteCount := byteCount + lineBytes;
      c := c + 1;
    }

    TailSpecAtStop(content, maxLines, maxBytes, c);
    var output := JoinLines(kept);
    r := TruncationResult(output, truncatedBy.Some?, truncatedBy, totalLines, totalBytes,
                          |kept|, |output|, lastLinePartial, false, maxLines, maxBytes);
  }

  // ---------------------------------------------------------------------------
  // What the two directions promise
  // ---------------------------------------------------------------------------

  /**
   * `truncate_head` keeps a prefix of the text made of whole lines, within
   * both limits; it reports truncation exactly when a limit is exceeded;
   * a line-limit cut leaves exactly `maxLines` lines out of more, and a
   * byte-limit cut stops at the first line that would overflow.
   */
  lemma HeadProperties(content: seq<Byte>, maxLines: nat, maxBytes: nat)
    ensures var r := HeadSpec(content, maxLines, maxBytes);
            var lines := LinesOf(content);
            && r.totalLines == |lines| && r.totalBytes == |content|
            && r.maxLines == maxLines && r.maxBytes == maxBytes
            && r.outputBytes == |r.content| <= maxBytes
            && r.outputLines <= maxLines && r.outputLines <= |lines|
            && IsPrefix(r.content, content)
            && (r.truncated <==> r.truncatedBy.Some?)
            && (r.truncated <==> !(|lines| <= maxLines && |content| <= maxBytes))
            && (!r.truncated ==> r.content == content && r.outputLines == |lines|)
            && !r.lastLinePartial
            && (r.firstLineExceedsLimit <==> (r.truncated && |lines[0]| > maxBytes))
            && (r.firstLineExceedsLimit ==> r.content == [] && r.outputLines == 0)
            && (!r.firstLineExceedsLimit ==> r.content == JoinLines(lines[..r.outputLines]))
            && (r.truncatedBy == Some(Lines) ==> r.outputLines == maxLines < |lines|)
            && (r.truncatedBy == Some(Bytes) && !r.firstLineExceedsLimit ==>
                  r.outputLines < maxLines && HeadOverflows(lines, r.outputLines, maxBytes))
  {
    var lines := LinesOf(content);
    JoinSplit(content, NL);
    JoinTakeIsPrefix(lines, HeadFit(lines, Min(|lines|, maxLines), maxBytes), NL);
    assert lines[..|lines|] == lines;
  }

  /**
   * `truncate_tail` keeps a suffix of the text: all of it when nothing is
   * cut, otherwise whole trailing lines, or, when even the last line is over
   * the byte budget, the tail of that line alone.
   */
  lemma TailKeepsSuffix(content: seq<Byte>, maxLines: nat, maxBytes: nat)
    ensures var r := TailSpec(content, maxLines, maxBytes);
            var lines := LinesOf(content);
            var n := |lines|;
            && IsSuffix(r.content, content)
            && (!r.truncated ==> r.content == content && r.outputLines == n)
            && (!r.lastLinePartial ==> r.content == JoinLines(lines[n - r.outputLines..]))
            && (r.lastLinePartial ==>
                  r.truncatedBy == Some(Bytes) && r.outputLines == 1 && |lines[n - 1]| > maxBytes
                  && r.content == CutFromEnd(lines[n - 1], maxBytes))
  {
    var lines := LinesOf(content);
    var n := |lines|;
    var r := TailSpec(content, maxLines, maxBytes);
    if n <= maxLines && |content| <= maxBytes {
      assert r.content == content && !r.lastLinePartial && r.outputLines == n;
      WholeLinesSuffix(content, n);
    } else {
      var k := TailFit(lines, Min(n, maxLines), maxBytes);
      if k == 0 && 0 < maxLines && 0 < maxBytes {
        var last := lines[n - 1];
        assert r.content == CutFromEnd(last, maxBytes) && r.lastLinePartial;
        assert r.truncatedBy == Some(Bytes) && r.outputLines == 1;
        LastLineOverflows(lines, Min(n, maxLines), maxBytes);
        PartialLastLineSuffix(content, maxBytes);
      } else {
        assert r.content == JoinLines(lines[n - k..]) && !r.lastLinePartial && r.outputLines == k;
        WholeLinesSuffix(content, k);
      }
    }
  }

  /** When the text does not fit, the backwards walk keeps fewer than all of its lines. */
  lemma TailFitBelowAll(content: seq<Byte>, maxLines: nat, maxBytes: nat)
    requires var n := |LinesOf(content)|; !(n <= maxLines && |content| <= maxBytes)
    ensures var lines := LinesOf(content);
            TailFit(lines, Min(|lines|, maxLines), maxBytes) < |lines|
  {
    var lines := LinesOf(content);
    var k := TailFit(lines, Min(|lines|, maxLines), maxBytes);
    TailFitFits(lines, Min(|lines|, maxLines), maxBytes);
    WholeLinesSuffix(content, k);
  }

  /** When not even one trailing line fits, the last line alone is over the budget. */
  lemma LastLineOverflows(lines: seq<seq<Byte>>, m: nat, maxBytes: nat)
    requires 0 < m <= |lines| && TailFit(lines, m, maxBytes) == 0
    ensures |lines[|lines| - 1]| > maxBytes
  {
    TailFitFits(lines, m, maxBytes);
    assert lines[|lines| - 1..] == [lines[|lines| - 1]];
  }

  /** The last `k` lines, joined back, end the text. */
  lemma WholeLinesSuffix(content: seq<Byte>, k: nat)
    requires k <= |LinesOf(content)|
    ensures var lines := LinesOf(content);
            IsSuffix(JoinLines(lines[|lines| - k..]), content)
            && (k == |lines| ==> JoinLines(lines[|lines| - k..]) == content)
  {
    var lines := LinesOf(content);
    JoinSplit(content, NL);
    JoinDropIsSuffix(lines, |lines| - k, NL);
    assert lines[|lines| - |lines|..] == lines;
  }

  /** The tail cut of the last line ends the text. */
  lemma PartialLastLineSuffix(content: seq<Byte>, maxBytes: nat)
    ensures var lines := LinesOf(content);
            IsSuffix(CutFromEnd(lines[|lines| - 1], maxBytes), content)
  {
    var lines := LinesOf(content);
    SplitLastIsSuffix(content, NL);
    CutStaysSuffix(lines[|lines| - 1], content, maxBytes);
  }

  lemma CutStaysSuffix(line: seq<Byte>, content: seq<Byte>, maxBytes: nat)
    requires IsSuffix(line, content)
    ensures IsSuffix(CutFromEnd(line, maxBytes), content)
  {
    SuffixTransitive(CutFromEnd(line, maxBytes), line, content);
  }

  /**
   * `truncate_tail` stays within both limits and truncates exactly when a
   * limit is exceeded. A line-limit cut keeps exactly `maxLines` lines out
   * of more; a byte-limit cut of whole lines stops at the first line that
   * would overflow.
   */
  lemma TailCutReason(content: seq<Byte>, maxLines: nat, maxBytes: nat)
    ensures var r := TailSpec(content, maxLines, maxBytes);
            var lines := LinesOf(content);
            && r.totalLines == |lines| && r.totalBytes == |content|
            && r.maxLines == maxLines && r.maxBytes == maxBytes
            && r.outputBytes == |r.content| <= maxBytes
            && r.outputLines <= maxLines && r.outputLines <= |lines|
            && (r.truncated <==> r.truncatedBy.Some?)
            && (r.truncated <==> !(|lines| <= maxLines && |content| <= maxBytes))
            && !r.firstLineExceedsLimit
            && (r.truncatedBy == Some(Lines) ==> r.outputLines == maxLines < |lines|)
            && (r.truncatedBy == Some(Bytes) && !r.lastLinePartial ==>
                  r.outputLines < maxLines && TailOverflows(lines, r.outputLines, maxBytes))
  {
    TailLimits(content, maxLines, maxBytes);
    TailReasons(content, maxLines, maxBytes);
  }

  /** The totals and limits are reported as given, and the output keeps within both limits. */
  lemma TailLimits(content: seq<Byte>, maxLines: nat, maxBytes: nat)
    ensures var r := TailSpec(content, maxLines, maxBytes);
            var lines := LinesOf(content);
            && r.totalLines == |lines| && r.totalBytes == |content|
            && r.maxLines == maxLines && r.maxBytes == maxBytes
            && r.outputBytes == |r.content| <= maxBytes
            && r.outputLines <= maxLines && r.outputLines <= |lines|
            && (r.truncated <==> r.truncatedBy.Some?)
            && (r.truncated <==> !(|lines| <= maxLines && |content| <= maxBytes))
            && !r.firstLineExceedsLimit
  {
    var lines := LinesOf(content);
    var n := |lines|;
    if !(n <= maxLines && |content| <= maxBytes) {
      var m := Min(n, maxLines);
      var k := TailFit(lines, m, maxBytes);
      TailFitFits(lines, m, maxBytes);
      TailFitBelowAll(content, maxLines, maxBytes);
      var r := TailSpec(content, maxLines, maxBytes);
      if k == 0 && 0 < maxLines && 0 < maxBytes {
        var part := CutFromEnd(lines[n - 1], maxBytes);
        assert |part| <= maxBytes;
        assert r.content == part && r.outputLines == 1 && r.truncated;
      } else {
        var out := JoinLines(lines[n - k..]);
        assert |out| <= maxBytes;
        assert r.content == out && r.outputLines == k && r.truncated;
      }
    }
  }

  /** A line-limit cut keeps exactly `maxLines` lines; a whole-line byte cut stops at the first line that overflows. */
  lemma TailReasons(content: seq<Byte>, maxLines: nat, maxBytes: nat)
    ensures var r := TailSpec(content, maxLines, maxBytes);
            var lines := LinesOf(content);
            && (r.truncatedBy == Some(Lines) ==> r.outputLines == maxLines < |lines|)
            && (r.truncatedBy == Some(Bytes) && !r.lastLinePartial ==>
                  r.outputLines < maxLines && TailOverflows(lines, r.outputLines, maxBytes))
  {
    var lines := LinesOf(content);
    var n := |lines|;
    if !(n <= maxLines && |content| <= maxBytes) {
      var m := Min(n, maxLines);
      var k := TailFit(lines, m, maxBytes);
      TailFitFits(lines, m, maxBytes);
      TailFitBelowAll(content, maxLines, maxBytes);
      var r := TailSpec(content, maxLines, maxBytes);
      if !(k == 0 && 0 < maxLines && 0 < maxBytes) {
        assert r.outputLines == k && r.truncatedBy == Some(if k == maxLines then Lines else Bytes);
        if k < maxLines {
          assert k < m;
          assert TailOverflows(lines, k, maxBytes);
        }
      }
    }
  }

  /**
   * On well-formed text, a partial last line is cut on a character boundary,
   * is well formed, and gives up at most three bytes of the budget.
   */
  lemma TailPartialLineValid(content: seq<Byte>, maxLines: nat, maxBytes: nat)
    requires Utf8.Valid(content)
    ensures var r := TailSpec(content, maxLines, maxBytes);
            r.lastLinePartial ==> Utf8.Valid(r.content) && |r.content| + 3 >= maxBytes
  {
    var r := TailSpec(content, maxLines, maxBytes);
    if r.lastLinePartial {
      TailKeepsSuffix(content, maxLines, maxBytes);
      var lines := LinesOf(content);
      var last := lines[|lines| - 1];
      LastLineValid(content);
      ValidCutIsShort(last, maxBytes);
    }
  }

  /** The byte cut of an over-long well-formed line is well formed and at most three bytes short. */
  lemma ValidCutIsShort(s: seq<Byte>, maxBytes: nat)
    requires Utf8.Valid(s) && |s| > maxBytes
    ensures Utf8.Valid(CutFromEnd(s, maxBytes)) && |CutFromEnd(s, maxBytes)| + 3 >= maxBytes
  {
    CutFromEndValid(s, maxBytes);
  }

  /** The last line of well-formed text is well formed: it follows a `'\n'` or starts the text. */
  lemma LastLineValid(content: seq<Byte>)
    requires Utf8.Valid(content)
    ensures Utf8.Valid(LinesOf(content)[|LinesOf(content)| - 1])
  {
    var lines := LinesOf(content);
    var last := lines[|lines| - 1];
    SplitLastIsSuffix(content, NL);
    var p := |content| - |last|;
    if |lines| > 1 {
      Utf8.BoundaryAfterAscii(content, p);
      Utf8.SuffixAtBoundaryValid(content, p);
    } else {
      assert last == content[p..];
    }
  }

  /** The search tools pass `usize::MAX` lines, so their output is only ever cut by bytes. */
  lemma UnboundedLinesCutByBytes(content: seq<Byte>, maxLines: nat, maxBytes: nat)
    requires maxLines >= |LinesOf(content)|
    ensures HeadSpec(content, maxLines, maxBytes).truncatedBy != Some(Lines)
    ensures TailSpec(content, maxLines, maxBytes).truncatedBy != Some(Lines)
  {
    HeadProperties(content, maxLines, maxBytes);
    TailCutReason(content, maxLines, maxBytes);
  }

  // ---------------------------------------------------------------------------
  // The unit examples of the tool layer
  // ---------------------------------------------------------------------------

  /** `"line1"` .. `"line5"` as bytes. */
  function NumberedLine(d: Byte): seq<Byte>
    requires 0x31 <= d <= 0x39
  {
    [0x6C, 0x69, 0x6E, 0x65, d]
  }

  function FiveLines(): seq<seq<Byte>>
  {
    [NumberedLine(0x31), NumberedLine(0x32), NumberedLine(0x33), NumberedLine(0x34), NumberedLine(0x35)]
  }

  lemma FiveLinesSplit()
    ensures LinesOf(JoinLines(FiveLines())) == FiveLines()
  {
    SplitJoin(FiveLines(), NL);
  }

  /** Lines of at most five bytes cost at most six bytes each once joined. */
  lemma {:induction false} ShortLinesJoinBound(lines: seq<seq<Byte>>)
    requires forall i :: 0 <= i < |lines| ==> |lines[i]| <= 5
    ensures |JoinLines(lines)| <= 6 * |lines|
    decreases |lines|
  {
    if |lines| > 1 {
      ShortLinesJoinBound(lines[1..]);
    }
  }

  /** Three of five short lines: cut by lines, the first three kept. */
  lemma HeadExample()
    ensures var r := HeadSpec(JoinLines(FiveLines()), 3, 1000);
            r.content == JoinLines(FiveLines()[..3]) && r.truncated
            && r.truncatedBy == Some(Lines) && r.totalLines == 5 && r.outputLines == 3
  {
    FiveLinesSplit();
    var lines := FiveLines();
    ShortLinesJoinBound(lines[..3]);
  }

  /** Three of five short lines from the end: the last three kept. */
  lemma TailExample()
    ensures var r := TailSpec(JoinLines(FiveLines()), 3, 1000);
            r.content == JoinLines(FiveLines()[2..]) && r.truncated
            && r.truncatedBy == Some(Lines) && r.totalLines == 5 && r.outputLines == 3
  {
    FiveLinesSplit();
    var lines := FiveLines();
    ShortLinesJoinBound(lines[2..]);
  }
}
