/**
 * The read tool's text path: the window of lines picked by `offset` and
 * `limit`, and the `cat -n` style numbering of what is shown.
 */
module ReadTool {
  import opened Wrappers
  import opened Seqs
  import opened Chars
  import Truncation

  /** `add_line_numbers`' format for one line: the number, a tab, the line. */
  function NumberedLine(n: nat, line: string): string
  {
    NatToString(n) + "\t" + line
  }

  function NumberLines(lines: seq<string>, start: nat): (r: seq<string>)
    ensures |r| == |lines|
    ensures forall i :: 0 <= i < |lines| ==> r[i] == NumberedLine(start + i, lines[i])
  {
    seq(|lines|, i requires 0 <= i < |lines| => NumberedLine(start + i, lines[i]))
  }

  /** `add_line_numbers`: each of `content.lines()` numbered from `startLine`, joined by `'\n'`. */
  function AddLineNumbers(content: string, startLine: nat): string
  {
    Join(NumberLines(RustLines(content), startLine), '\n')
  }

  /** A numbered line reads back as its number, a tab and the line itself. */
  lemma NumberedLineReadsBack(n: nat, line: string)
    ensures var t := NumberedLine(n, line);
            var k := |NatToString(n)|;
            k < |t| && t[k] == '\t'
            && (forall j :: 0 <= j < k ==> '0' <= t[j] <= '9')
            && DecimalValue(t[..k]) == n
            && t[k + 1..] == line
  {
    var t := NumberedLine(n, line);
    var k := |NatToString(n)|;
    assert t[..k] == NatToString(n);
    NatToStringRoundTrip(n);
  }

  /** No line of `s.lines()` holds a `'\n'`. */
  lemma RustLinesFree(s: string)
    ensures forall i :: 0 <= i < |RustLines(s)| ==> Free(RustLines(s)[i], '\n')
  {
    var parts := Split(s, '\n');
    SplitPiecesFree(s, '\n');
    var n := |parts|;
    var mapped := Map(parts[..n - 1], StripCr);
    forall i | 0 <= i < |RustLines(s)| ensures Free(RustLines(s)[i], '\n') {
      if i < n - 1 {
        assert RustLines(s)[i] == StripCr(parts[i]);
        assert forall j :: 0 <= j < |StripCr(parts[i])| ==> StripCr(parts[i])[j] == parts[i][j];
      } else {
        assert RustLines(s)[i] == parts[n - 1];
      }
    }
  }

  /**
   * The numbered text splits on `'\n'` into exactly one numbered line per
   * line of the content, in order; content with no lines gives no text.
   */
  lemma AddLineNumbersSplits(content: string, startLine: nat)
    ensures RustLines(content) == [] ==> AddLineNumbers(content, startLine) == []
    ensures RustLines(content) != [] ==>
              Split(AddLineNumbers(content, startLine), '\n') == NumberLines(RustLines(content), startLine)
  {
    var lines := RustLines(content);
    var numbered := NumberLines(lines, startLine);
    if lines != [] {
      RustLinesFree(content);
      forall i | 0 <= i < |numbered| ensures Free(numbered[i], '\n') {
        var digits := NatToString(startLine + i);
        assert numbered[i] == digits + "\t" + lines[i];
        forall j | 0 <= j < |numbered[i]| ensures numbered[i][j] != '\n' {
          if j < |digits| {
            assert numbered[i][j] == digits[j];
          } else if j > |digits| {
            assert numbered[i][j] == lines[i][j - |digits| - 1];
          }
        }
      }
      SplitJoin(numbered, '\n');
    }
  }

  // ---------------------------------------------------------------------
  // The offset/limit window
  // ---------------------------------------------------------------------

  datatype ReadWindow = ReadWindow(offset: nat, limit: nat, startIdx: nat, endIdx: nat)

  function Min(a: nat, b: nat): nat
  {
    if a <= b then a else b
  }

  /**
   * The read tool's window over `totalLines` lines: `offset` defaults to 1
   * and is at least 1, `limit` defaults to `DEFAULT_MAX_LINES`, and both
   * ends are clamped to the line count.
   */
  function SelectWindow(totalLines: nat, offsetArg: Option<nat>, limitArg: Option<nat>): (w: ReadWindow)
    ensures w.offset >= 1 && w.startIdx <= w.endIdx <= totalLines
  {
    var given := if offsetArg.Some? then offsetArg.value else 1;
    var offset := if given < 1 then 1 else given;
    var limit := if limitArg.Some? then limitArg.value else Truncation.DEFAULT_MAX_LINES;
    var startIdx := Min(offset - 1, totalLines);
    var endIdx := Min(startIdx + limit, totalLines);
    ReadWindow(offset, limit, startIdx, endIdx)
  }

  /** The lines handed on to truncation and numbering. */
  function SelectedLines(content: string, offsetArg: Option<nat>, limitArg: Option<nat>): seq<string>
  {
    var lines := RustLines(content);
    var w := SelectWindow(|lines|, offsetArg, limitArg);
    lines[w.startIdx..w.endIdx]
  }

  /**
   * The window holds exactly the lines whose 0-based index lies in
   * `[offset - 1, offset - 1 + limit)` and exists; missing arguments mean
   * offset 1 and `DEFAULT_MAX_LINES`, and an offset of 0 reads as 1.
   */
  lemma SelectWindowExact(totalLines: nat, offsetArg: Option<nat>, limitArg: Option<nat>)
    ensures var w := SelectWindow(totalLines, offsetArg, limitArg);
            (offsetArg == None || offsetArg == Some(0) ==> w.offset == 1)
            && (offsetArg.Some? && offsetArg.value >= 1 ==> w.offset == offsetArg.value)
            && (limitArg == None ==> w.limit == Truncation.DEFAULT_MAX_LINES)
            && (forall k: nat :: InWindow(w, k) <==> Requested(w.offset, w.limit, totalLines, k))
  {
  }

  predicate InWindow(w: ReadWindow, k: nat)
  {
    w.startIdx <= k < w.endIdx
  }

  /** Line index `k` (0-based) exists and lies within `limit` lines from line `offset`. */
  predicate Requested(offset: nat, limit: nat, totalLines: nat, k: nat)
  {
    offset - 1 <= k < offset - 1 + limit && k < totalLines
  }

  /**
   * The `i`-th selected line is line `offset + i` of the file (1-based), the
   * number `add_line_numbers` gives it; there are at most `limit` of them.
   */
  lemma SelectedLinesNumbering(content: string, offsetArg: Option<nat>, limitArg: Option<nat>)
    ensures var lines := RustLines(content);
            var w := SelectWindow(|lines|, offsetArg, limitArg);
            var sel := SelectedLines(content, offsetArg, limitArg);
            |sel| <= w.limit
            && (w.offset > |lines| ==> sel == [])
            && forall i :: 0 <= i < |sel| ==> w.offset - 1 + i < |lines| && sel[i] == lines[w.offset - 1 + i]
  {
  }
}
