/**
 * The grep tool's output for one match: the file's lines as cached, the
 * context window around the matching line, and the per-line format with
 * long lines cut to `GREP_MAX_LINE_LENGTH` characters.
 */
module GrepTool {
  import opened Seqs
  import opened Chars

  const GREP_MAX_LINE_LENGTH: nat := 500
  const TruncationMarker: string := "... [truncated]"

  datatype TruncatedLine = TruncatedLine(text: string, wasTruncated: bool)

  /**
   * `truncate_line`: a line longer than `maxChars` characters keeps its
   * first `maxChars` and gets the marker; a shorter one is kept whole.
   */
  function TruncateLine(line: string, maxChars: nat): (r: TruncatedLine)
    ensures r.wasTruncated <==> |line| > maxChars
    ensures !r.wasTruncated ==> r.text == line
    ensures r.wasTruncated ==>
              IsPrefix(line[..maxChars], r.text) && IsSuffix(TruncationMarker, r.text)
              && |r.text| == maxChars + |TruncationMarker|
  {
    if |line| <= maxChars then TruncatedLine(line, false)
    else TruncatedLine(line[..maxChars] + TruncationMarker, true)
  }

  /** A truncated line is never longer than the cap plus the marker. */
  lemma TruncateLineBound(line: string, maxChars: nat)
    ensures |TruncateLine(line, maxChars).text| <= if |line| <= maxChars then |line| else maxChars + |TruncationMarker|
    ensures IsPrefix(line[..Min(|line|, maxChars)], TruncateLine(line, maxChars).text)
  {
  }

  function Min(a: nat, b: nat): nat
  {
    if a <= b then a else b
  }

  function Max(a: nat, b: nat): nat
  {
    if a >= b then a else b
  }

  // ---------------------------------------------------------------------
  // The cached lines of a file
  // ---------------------------------------------------------------------

  /** `get_file_lines`: CRLF and lone CR become LF, then split on `'\n'`. */
  function FileLines(content: string): seq<string>
  {
    Split(ReplaceAll(ReplaceAll(content, "\r\n", "\n"), "\r", "\n"), '\n')
  }

  /** Replacing every `c` by another character leaves no `c`. */
  lemma {:induction false} ReplaceCharRemoves(s: string, c: char, d: char)
    requires c != d
    ensures Free(ReplaceAll(s, [c], [d]), c)
    decreases |s|
  {
    if s != [] {
      ReplaceCharRemoves(s[1..], c, d);
      if IsPrefix([c], s) {
        assert s[|[c]|..] == s[1..];
      } else {
        assert s[0] != c;
      }
    }
  }

  /**
   * A file always has at least one cached line, and no cached line holds a
   * `'\r'`: the "unable to read file" branch never runs, and removing
   * `'\r'` from a shown line changes nothing.
   */
  lemma FileLinesClean(content: string)
    ensures |FileLines(content)| >= 1
    ensures forall i :: 0 <= i < |FileLines(content)| ==> Free(FileLines(content)[i], '\r')
  {
    var lf := ReplaceAll(ReplaceAll(content, "\r\n", "\n"), "\r", "\n");
    ReplaceCharRemoves(ReplaceAll(content, "\r\n", "\n"), '\r', '\n');
    SplitKeepsFree(lf, '\n', '\r');
  }

  /** `line_text.replace('\r', "")`. */
  function RemoveCr(s: string): (r: string)
    ensures Free(r, '\r')
    ensures Free(s, '\r') ==> r == s
  {
    if s == [] then []
    else (if s[0] == '\r' then [] else [s[0]]) + RemoveCr(s[1..])
  }

  // ---------------------------------------------------------------------
  // The context window
  // ---------------------------------------------------------------------

  datatype Window = Window(start: nat, end: nat)

  /**
   * The grep tool's window around 1-based `lineNumber`: with context `c`
   * it runs from `max(lineNumber - c, 1)` (subtraction saturating at 0) to
   * `min(lineNumber + c, lineCount)`; without context it is the line alone.
   */
  function ContextWindow(lineNumber: nat, context: nat, lineCount: nat): Window
  {
    if context > 0 then
      Window(Max(if lineNumber >= context then lineNumber - context else 0, 1),
             Min(lineNumber + context, lineCount))
    else Window(lineNumber, lineNumber)
  }

  predicate InWindow(w: Window, k: nat)
  {
    w.start <= k <= w.end
  }

  /** Line `k` exists and is at most `context` lines away from `lineNumber`. */
  predicate Near(k: nat, lineNumber: nat, context: nat, lineCount: nat)
  {
    1 <= k <= lineCount && lineNumber - context <= k <= lineNumber + context
  }

  /**
   * With context, the window is exactly the existing lines within `context`
   * of the match (so it holds the match whenever the match exists);
   * without, it is the matching line alone.
   */
  lemma ContextWindowExact(lineNumber: nat, context: nat, lineCount: nat)
    ensures var w := ContextWindow(lineNumber, context, lineCount);
            (context > 0 ==> forall k: nat :: InWindow(w, k) <==> Near(k, lineNumber, context, lineCount))
            && (context == 0 ==> w.start == w.end == lineNumber)
            && (1 <= lineNumber <= lineCount ==> InWindow(w, lineNumber))
  {
  }

  // ---------------------------------------------------------------------
  // Output lines of one match
  // ---------------------------------------------------------------------

  /** `lines.get(current - 1)`, or empty past the end. */
  function LineText(lines: seq<string>, current: nat): string
  {
    if 1 <= current <= |lines| then lines[current - 1] else ""
  }

  function ShownLine(lines: seq<string>, current: nat): TruncatedLine
  {
    TruncateLine(RemoveCr(LineText(lines, current)), GREP_MAX_LINE_LENGTH)
  }

  /** `path:N: text` for the matching line, `path-N- text` for context. */
  function FormatLine(relPath: string, current: nat, lineNumber: nat, text: string): string
  {
    if current == lineNumber then relPath + ":" + NatToString(current) + ": " + text
    else relPath + "-" + NatToString(current) + "- " + text
  }

  function Width(w: Window): nat
  {
    if w.start <= w.end then w.end - w.start + 1 else 0
  }

  /** The lines printed for one match. */
  function MatchBlock(relPath: string, lines: seq<string>, lineNumber: nat, context: nat): seq<string>
  {
    var w := ContextWindow(lineNumber, context, |lines|);
    seq(Width(w), k requires 0 <= k < Width(w) => PrintedLine(relPath, lines, lineNumber, w.start + k))
  }

  /** The printed form of line `current`. */
  function PrintedLine(relPath: string, lines: seq<string>, lineNumber: nat, current: nat): string
  {
    FormatLine(relPath, current, lineNumber, ShownLine(lines, current).text)
  }

  /** Line `k` is shown cut: without its `'\r'`s it is longer than the display width. */
  predicate Cut(lines: seq<string>, k: nat)
  {
    |RemoveCr(LineText(lines, k))| > GREP_MAX_LINE_LENGTH
  }

  /** Some line numbered from `from` up to (not including) `upTo` was cut. */
  predicate AnyCut(lines: seq<string>, from: nat, upTo: nat)
    decreases upTo
  {
    upTo > from && (AnyCut(lines, from, upTo - 1) || Cut(lines, upTo - 1))
  }

  /** `AnyCut` holds exactly when one of those lines was cut. */
  lemma {:induction false} AnyCutExists(lines: seq<string>, from: nat, upTo: nat)
    ensures AnyCut(lines, from, upTo) <==> exists k :: from <= k < upTo && Cut(lines, k)
    decreases upTo
  {
    if upTo > from {
      AnyCutExists(lines, from, upTo - 1);
      if AnyCut(lines, from, upTo) {
        if !AnyCut(lines, from, upTo - 1) {
          assert from <= upTo - 1 < upTo && Cut(lines, upTo - 1);
        }
      }
      if exists k :: from <= k < upTo && Cut(lines, k) {
        var k :| from <= k < upTo && Cut(lines, k);
        if k < upTo - 1 {
          assert from <= k < upTo - 1 && Cut(lines, k);
        }
      }
    }
  }

  /**
   * The loop over `start..=end` for one match: each line of the window is
   * printed in order, and the flag records whether any was cut.
   */
  method EmitMatch(relPath: string, lines: seq<string>, lineNumber: nat, context: nat)
    returns (out: seq<string>, linesTruncated: bool)
    ensures out == MatchBlock(relPath, lines, lineNumber, context)
    ensures linesTruncated <==> AnyCut(lines, ContextWindow(lineNumber, context, |lines|).start,
                                       ContextWindow(lineNumber, context, |lines|).end + 1)
  {
    var w := ContextWindow(lineNumber, context, |lines|);
    out, linesTruncated := EmitRange(relPath, lines, lineNumber, w);
    MatchBlockIsRange(relPath, lines, lineNumber, context);
  }

  /** The loop `for current in w.start..=w.end`: lines printed in order, and whether any was cut. */
  method EmitRange(relPath: string, lines: seq<string>, lineNumber: nat, w: Window)
    returns (out: seq<string>, linesTruncated: bool)
    ensures out == PrintedRange(relPath, lines, lineNumber, w.start, w.start + Width(w))
    ensures linesTruncated <==> AnyCut(lines, w.start, w.end + 1)
  {
    out := [];
    linesTruncated := false;
    var current := w.start;
    while current <= w.end
      invariant w.start <= current <= w.start + Width(w)
      invariant out == PrintedRange(relPath, lines, lineNumber, w.start, current)
      invariant linesTruncated <==> AnyCut(lines, w.start, current)
      decreases w.end + 1 - current
    {
      var printed, cut := EmitLine(relPath, lines, lineNumber, current);
      if cut {
        linesTruncated := true;
      }
      out := out + [printed];
      current := current + 1;
    }
    if w.start <= w.end {
      assert current == w.end + 1 == w.start + Width(w);
    } else {
      assert current == w.start + Width(w);
      AnyCutEmpty(lines, w.start, w.end + 1);
    }
  }

  /** The block of a match is the printed range over its window. */
  lemma MatchBlockIsRange(relPath: string, lines: seq<string>, lineNumber: nat, context: nat)
    ensures var w := ContextWindow(lineNumber, context, |lines|);
            MatchBlock(relPath, lines, lineNumber, context) == PrintedRange(relPath, lines, lineNumber, w.start, w.start + Width(w))
  {
    var start := ContextWindow(lineNumber, context, |lines|).start;
    var block := MatchBlock(relPath, lines, lineNumber, context);
    assert forall k :: 0 <= k < |block| ==> block[k] == PrintedLine(relPath, lines, lineNumber, start + k);
    RangeIsBlock(relPath, lines, lineNumber, start, block);
  }

  /** A block listing the printed lines from `start` on is the printed range of its length. */
  lemma RangeIsBlock(relPath: string, lines: seq<string>, lineNumber: nat, start: nat, block: seq<string>)
    requires forall k :: 0 <= k < |block| ==> block[k] == PrintedLine(relPath, lines, lineNumber, start + k)
    ensures PrintedRange(relPath, lines, lineNumber, start, start + |block|) == block
  {
    PrintedRangePrefix(relPath, lines, lineNumber, start, block, start + |block|);
    assert block[..|block|] == block;
  }

  /** No line lies in an empty range. */
  lemma AnyCutEmpty(lines: seq<string>, from: nat, upTo: nat)
    requires upTo <= from
    ensures !AnyCut(lines, from, upTo)
  {
  }

  /** One turn of the loop: the line without `'\r'`, cut to the display width, formatted. */
  method EmitLine(relPath: string, lines: seq<string>, lineNumber: nat, current: nat)
    returns (printed: string, cut: bool)
    ensures printed == PrintedLine(relPath, lines, lineNumber, current)
    ensures cut <==> Cut(lines, current)
  {
    var shown := TruncateLine(RemoveCr(LineText(lines, current)), GREP_MAX_LINE_LENGTH);
    printed := FormatLine(relPath, current, lineNumber, shown.text);
    cut := shown.wasTruncated;
  }

  /** The printed forms of lines `from` up to (not including) `upTo`, in order. */
  function PrintedRange(relPath: string, lines: seq<string>, lineNumber: nat, from: nat, upTo: nat): seq<string>
    decreases upTo
  {
    if upTo <= from then [] else PrintedRange(relPath, lines, lineNumber, from, upTo - 1) + [PrintedLine(relPath, lines, lineNumber, upTo - 1)]
  }

  /** The lines printed from `start` on are the first lines of any block listing the printed lines from `start`. */
  lemma {:induction false} PrintedRangePrefix(relPath: string, lines: seq<string>, lineNumber: nat,
                                             start: nat, block: seq<string>, upTo: nat)
    requires forall k :: 0 <= k < |block| ==> block[k] == PrintedLine(relPath, lines, lineNumber, start + k)
    requires start <= upTo <= start + |block|
    ensures PrintedRange(relPath, lines, lineNumber, start, upTo) == block[..upTo - start]
    decreases upTo
  {
    if upTo > start {
      PrintedRangePrefix(relPath, lines, lineNumber, start, block, upTo - 1);
      var k := upTo - 1 - start;
      assert block[k] == PrintedLine(relPath, lines, lineNumber, upTo - 1);
      assert block[..k + 1] == block[..k] + [block[k]];
    }
  }

  /** The separator right after the path: `':'` marks the matching line. */
  predicate IsMatchLine(line: string, relPath: string)
  {
    |line| > |relPath| && line[|relPath|] == ':'
  }

  /**
   * One printed line per window line; a line is marked as the match exactly
   * when it is the matching line, and every printed line starts with the
   * path and carries the (possibly cut) text of its line.
   */
  lemma MatchBlockMarks(relPath: string, lines: seq<string>, lineNumber: nat, context: nat)
    ensures var w := ContextWindow(lineNumber, context, |lines|);
            var block := MatchBlock(relPath, lines, lineNumber, context);
            |block| == Width(w)
            && forall k :: 0 <= k < |block| ==>
                 IsPrefix(relPath, block[k])
                 && IsSuffix(ShownLine(lines, w.start + k).text, block[k])
                 && (IsMatchLine(block[k], relPath) <==> w.start + k == lineNumber)
  {
    var w := ContextWindow(lineNumber, context, |lines|);
    var block := MatchBlock(relPath, lines, lineNumber, context);
    forall k | 0 <= k < |block|
      ensures IsPrefix(relPath, block[k])
      ensures IsSuffix(ShownLine(lines, w.start + k).text, block[k])
      ensures IsMatchLine(block[k], relPath) <==> w.start + k == lineNumber
    {
      assert block[k] == PrintedLine(relPath, lines, lineNumber, w.start + k);
      FormatLineMarks(relPath, w.start + k, lineNumber, ShownLine(lines, w.start + k).text);
    }
  }

  /** A printed line starts with the path, ends with the text, and is marked exactly when it is the match. */
  lemma FormatLineMarks(relPath: string, current: nat, lineNumber: nat, text: string)
    ensures var line := FormatLine(relPath, current, lineNumber, text);
            IsPrefix(relPath, line) && IsSuffix(text, line)
            && (IsMatchLine(line, relPath) <==> current == lineNumber)
  {
    var line := FormatLine(relPath, current, lineNumber, text);
    if current == lineNumber {
      assert line[|relPath|] == ':';
    } else {
      assert line[|relPath|] == '-';
    }
  }
}
