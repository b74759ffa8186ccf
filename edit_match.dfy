/**
 * How the edit tool locates the text to replace: first an exact,
 * unique occurrence (`find_exact_match`), otherwise a unique window of
 * whole lines that agree after loose normalisation (`find_fuzzy_match`),
 * with `line_offsets` turning line numbers into positions.
 *
 * Text is the file's content as characters; positions count characters.
 */
module EditMatch {
  import opened Wrappers
  import opened Seqs
  import opened Chars
  import opened Normalize

  datatype MatchError =
    | NotFound            // "Text not found in file. ..."
    | Occurrences(count: nat) // "Found {count} occurrences of the text. ..."
    | MultipleFuzzy       // "Multiple fuzzy matches found. ..."
    | OldTextEmpty        // "Old text is empty"

  /** A located match: the replaced range `start..end` and the 1-based line it starts on. */
  datatype Match = Match(start: nat, end: nat, firstLine: nat)

  function LinesOf(content: string): seq<string>
  {
    Split(content, '\n')
  }

  // ---------------------------------------------------------------------------
  // line_offsets
  // ---------------------------------------------------------------------------

  /** Start of each line, and one past the end: each step is the line length plus its newline. */
  function Offsets(lines: seq<string>): (r: seq<nat>)
    ensures |r| == |lines| + 1 && r[0] == 0
    ensures forall i :: 0 < i < |r| ==> r[i] > 0
  {
    if lines == [] then [0]
    else
      var front := Offsets(lines[..|lines| - 1]);
      front + [front[|lines| - 1] + |lines[|lines| - 1]| + 1]
  }

  /** Consecutive offsets are one line and its newline apart. */
  lemma {:induction false} OffsetsStep(lines: seq<string>, i: nat)
    requires i < |lines|
    ensures Offsets(lines)[i + 1] == Offsets(lines)[i] + |lines[i]| + 1
  {
    var front := lines[..|lines| - 1];
    if i < |lines| - 1 {
      OffsetsStep(front, i);
      assert front[i] == lines[i];
    }
  }

  /** `line_offsets`. */
  method LineOffsets(lines: seq<string>) returns (offsets: seq<nat>)
    ensures offsets == Offsets(lines)
  {
    offsets := [];
    var pos := 0;
    var i := 0;
    while i < |lines|
      invariant 0 <= i <= |lines|
      invariant offsets + [pos] == Offsets(lines[..i])
    {
      assert lines[..i + 1][..i] == lines[..i];
      offsets := offsets + [pos];
      pos := pos + |lines[i]| + 1;
      i := i + 1;
    }
    offsets := offsets + [pos];
    assert lines[..|lines|] == lines;
  }

  /** After the first line, an offset is the length of the lines before it plus their newline. */
  lemma {:induction false} OffsetIsJoinLength(lines: seq<string>, i: nat)
    requires 0 < i <= |lines|
    ensures Offsets(lines)[i] == |Join(lines[..i], '\n')| + 1
  {
    if i > 1 {
      OffsetIsJoinLength(lines, i - 1);
    }
    OffsetsStep(lines, i - 1);
    JoinTakeStep(lines, i - 1, '\n');
  }

  /** The text from the start of line `i` on is the join of the lines from `i` on. */
  lemma TextFromOffset(content: string, i: nat)
    requires i < |LinesOf(content)|
    ensures Offsets(LinesOf(content))[i] <= |content|
    ensures content[Offsets(LinesOf(content))[i]..] == Join(LinesOf(content)[i..], '\n')
  {
    var lines := LinesOf(content);
    JoinSplit(content, '\n');
    if i == 0 {
      assert lines[0..] == lines;
    } else {
      OffsetIsJoinLength(lines, i);
      JoinAppend(lines[..i], lines[i..], '\n');
      assert lines[..i] + lines[i..] == lines;
    }
  }

  /** The last offset is one past the end of the text. */
  lemma OffsetsEnd(content: string)
    ensures Offsets(LinesOf(content))[|LinesOf(content)|] == |content| + 1
  {
    var lines := LinesOf(content);
    JoinSplit(content, '\n');
    OffsetIsJoinLength(lines, |lines|);
    assert lines[..|lines|] == lines;
  }

  /**
   * The `k` lines from line `i` occupy `offsets[i] .. offsets[i + k] - 1`:
   * the range ends before the newline that follows them.
   */
  lemma BlockRange(content: string, i: nat, k: nat)
    requires 1 <= k && i + k <= |LinesOf(content)|
    ensures var offs := Offsets(LinesOf(content));
            offs[i] <= offs[i + k] - 1 <= |content|
            && content[offs[i]..offs[i + k] - 1] == Join(LinesOf(content)[i..i + k], '\n')
  {
    var lines := LinesOf(content);
    var offs := Offsets(lines);
    TextFromOffset(content, i);
    var rest := lines[i..];
    JoinTakeIsPrefix(rest, k, '\n');
    assert rest[..k] == lines[i..i + k];
    var block := Join(lines[i..i + k], '\n');
    OffsetIsJoinLength(lines, i + k);
    if i == 0 {
      assert lines[..i + k] == lines[i..i + k];
    } else {
      OffsetIsJoinLength(lines, i);
      JoinAppend(lines[..i], lines[i..i + k], '\n');
      assert lines[..i] + lines[i..i + k] == lines[..i + k];
    }
    assert offs[i + k] - 1 == offs[i] + |block|;
    assert content[offs[i]..offs[i + k] - 1] == content[offs[i]..][..|block|];
  }

  // ---------------------------------------------------------------------------
  // Line numbers
  // ---------------------------------------------------------------------------

  /** The 1-based number of the line that position `pos` lies on: newlines before it, plus one. */
  function LineNumberAt(content: string, pos: nat): nat
    requires pos <= |content|
  {
    Count(content[..pos], '\n') + 1
  }

  /** Numbering positions and numbering lines agree: line `i` starts on line number `i + 1`. */
  lemma LineNumberAtOffset(content: string, i: nat)
    requires i < |LinesOf(content)|
    ensures Offsets(LinesOf(content))[i] <= |content|
    ensures LineNumberAt(content, Offsets(LinesOf(content))[i]) == i + 1
  {
    var lines := LinesOf(content);
    TextFromOffset(content, i);
    if i > 0 {
      var offs := Offsets(lines);
      OffsetIsJoinLength(lines, i);
      JoinSplit(content, '\n');
      JoinAppend(lines[..i], lines[i..], '\n');
      assert lines[..i] + lines[i..] == lines;
      assert content[..offs[i]] == Join(lines[..i], '\n') + ['\n'];
      CountAppend(Join(lines[..i], '\n'), ['\n'], '\n');
      assert Count(['\n'], '\n') == 1 by {
        assert ['\n'][1..] == [];
      }
      SplitPiecesFree(content, '\n');
      CountJoinFree(lines[..i], '\n');
    }
  }

  /** Every position on line `i`, up to its newline, is numbered `i + 1`. */
  lemma LineNumberWithinLine(content: string, i: nat, pos: nat)
    requires i < |LinesOf(content)|
    requires Offsets(LinesOf(content))[i] <= pos < Offsets(LinesOf(content))[i + 1]
    ensures pos <= |content| && LineNumberAt(content, pos) == i + 1
  {
    var lines := LinesOf(content);
    var offs := Offsets(lines);
    BlockRange(content, i, 1);
    assert lines[i..i + 1] == [lines[i]];
    LineNumberAtOffset(content, i);
    SplitPiecesFree(content, '\n');
    NoNewlineBefore(content, offs[i], pos, lines[i]);
  }

  /** Positions inside a stretch of text without newlines share one line number. */
  lemma NoNewlineBefore(s: string, o: nat, pos: nat, piece: string)
    requires o <= pos && o + |piece| <= |s| && pos <= o + |piece|
    requires s[o..o + |piece|] == piece && Free(piece, '\n')
    ensures Count(s[..pos], '\n') == Count(s[..o], '\n')
  {
    var mid := s[o..pos];
    assert mid == piece[..pos - o];
    assert Free(mid, '\n');
    CountFree(mid, '\n');
    assert s[..pos] == s[..o] + mid;
    CountAppend(s[..o], mid, '\n');
  }

  /** `content[..start].lines().count() + 1`, the line number `find_exact_match` reports. */
  function FirstLineAsWritten(content: string, start: nat): nat
    requires start <= |content|
  {
    |RustLines(content[..start])| + 1
  }

  /**
   * The reported number is one too high exactly when the match starts in
   * the middle of a line: `lines()` counts the unterminated piece before
   * the match as a line of its own.
   */
  lemma FirstLineAsWrittenOffByOne(content: string, start: nat)
    requires start <= |content|
    ensures FirstLineAsWritten(content, start) ==
            LineNumberAt(content, start) + (if start > 0 && content[start - 1] != '\n' then 1 else 0)
  {
    RustLinesCount(content[..start]);
  }

  // ---------------------------------------------------------------------------
  // find_exact_match
  // ---------------------------------------------------------------------------

  /**
   * `content.match_indices(pat)` from position `from`: left to right,
   * without overlap; an empty pattern matches at every position up to and
   * including the end.
   */
  function MatchesFrom(content: string, pat: string, from: nat): (r: seq<nat>)
    ensures forall k :: 0 <= k < |r| ==> from <= r[k] <= |content|
    decreases |content| + 1 - from
  {
    if from > |content| then []
    else if OccursAt(content, pat, from) then
      [from] + MatchesFrom(content, pat, from + (if pat == [] then 1 else |pat|))
    else MatchesFrom(content, pat, from + 1)
  }

  function MatchIndices(content: string, pat: string): seq<nat>
  {
    MatchesFrom(content, pat, 0)
  }

  /** Every listed position is an occurrence. */
  lemma {:induction false} MatchesFromSound(content: string, pat: string, from: nat, k: nat)
    requires k < |MatchesFrom(content, pat, from)|
    ensures OccursAt(content, pat, MatchesFrom(content, pat, from)[k])
    decreases |content| + 1 - from
  {
    if OccursAt(content, pat, from) {
      if k > 0 {
        MatchesFromSound(content, pat, from + (if pat == [] then 1 else |pat|), k - 1);
      }
    } else {
      MatchesFromSound(content, pat, from + 1, k);
    }
  }

  /** There is no match from `from` on exactly when the pattern does not occur there. */
  lemma {:induction false} MatchesFromEmpty(content: string, pat: string, from: nat)
    ensures MatchesFrom(content, pat, from) == [] <==>
            forall k :: from <= k ==> !OccursAt(content, pat, k)
    decreases |content| + 1 - from
  {
    if from <= |content| && !OccursAt(content, pat, from) {
      MatchesFromEmpty(content, pat, from + 1);
    }
  }

  /** Each position is past the previous one, by at least `gap`. */
  predicate Ascending(r: seq<nat>, gap: nat)
  {
    forall k :: 0 <= k < |r| - 1 ==> r[k] + gap <= r[k + 1] && r[k] < r[k + 1]
  }

  /** A position at least `gap` and at least one before an ascending list extends it. */
  lemma AscendingCons(x: nat, rest: seq<nat>, gap: nat)
    requires Ascending(rest, gap)
    requires rest == [] || (x + gap <= rest[0] && x < rest[0])
    ensures Ascending([x] + rest, gap)
  {
    var r := [x] + rest;
    forall k | 0 <= k < |r| - 1
      ensures r[k] + gap <= r[k + 1] && r[k] < r[k + 1]
    {
      assert r[k + 1] == rest[k];
      if k > 0 {
        assert r[k] == rest[k - 1];
      }
    }
  }

  /** Matches are found in increasing order and never overlap. */
  lemma {:induction false} MatchesFromDisjoint(content: string, pat: string, from: nat)
    ensures Ascending(MatchesFrom(content, pat, from), |pat|)
    decreases |content| + 1 - from
  {
    if from <= |content| {
      if OccursAt(content, pat, from) {
        var next := from + (if pat == [] then 1 else |pat|);
        var rest := MatchesFrom(content, pat, next);
        MatchesFromDisjoint(content, pat, next);
        assert rest == [] || next <= rest[0];
        AscendingCons(from, rest, |pat|);
      } else {
        MatchesFromDisjoint(content, pat, from + 1);
      }
    }
  }

  /** What `find_exact_match` returns, with the line number counted as newlines before the match. */
  function ExactMatchSpec(content: string, oldText: string): Result<Match, MatchError>
  {
    var ms := MatchIndices(content, oldText);
    if |ms| == 0 then Err(NotFound)
    else if |ms| > 1 then Err(Occurrences(|ms|))
    else
      Ok(Match(ms[0], ms[0] + |oldText|, LineNumberAt(content, ms[0])))
  }

  /** `find_exact_match`: count the matches, remember the first. */
  method FindExactMatch(content: string, oldText: string) returns (r: Result<Match, MatchError>)
    ensures r == ExactMatchSpec(content, oldText)
  {
    var matches := MatchIndices(content, oldText);
    var occurrences := 0;
    var firstStart := 0;
    for k := 0 to |matches|
      invariant occurrences == k
      invariant k > 0 ==> firstStart == matches[0]
    {
      occurrences := occurrences + 1;
      if occurrences == 1 {
        firstStart := matches[k];
      }
    }

    if occurrences == 0 {
      return Err(NotFound);
    }
    if occurrences > 1 {
      return Err(Occurrences(occurrences));
    }

    var start := firstStart;
    var end := start + |oldText|;
    var firstLine := LineNumberAt(content, start);
    r := Ok(Match(start, end, firstLine));
  }

  /**
   * The exact match succeeds only on the one occurrence there is, and then
   * `content[start..end]` is the old text; it reports "not found" exactly
   * when the old text does not occur, and otherwise counts at least two.
   */
  lemma ExactMatchProperties(content: string, oldText: string)
    ensures var r := ExactMatchSpec(content, oldText);
            && (r.Ok? ==> r.value.start + |oldText| == r.value.end <= |content|
                          && content[r.value.start..r.value.end] == oldText
                          && r.value.firstLine >= 1
                          && MatchIndices(content, oldText) == [r.value.start])
            && (r == Err(NotFound) <==> !Contains(content, oldText))
            && (r.Err? && r.error.Occurrences? ==> r.error.count >= 2)
            && (r.Err? ==> r.error.NotFound? || r.error.Occurrences?)
  {
    MatchesFromEmpty(content, oldText, 0);
    if MatchIndices(content, oldText) != [] {
      MatchesFromSound(content, oldText, 0, 0);
    }
    if Contains(content, oldText) {
      var i :| 0 <= i <= |content| - |oldText| && OccursAt(content, oldText, i);
    }
  }

  /** The source's line number for an exact match differs from the line it starts on. */
  lemma ExactFirstLineCounterexample()
    ensures ExactMatchSpec("ab", "b") == Ok(Match(1, 2, 1))
    ensures FirstLineAsWritten("ab", 1) == 2
  {
    assert OccursAt("ab", "b", 1);
    assert !OccursAt("ab", "b", 0) by {
      assert "ab"[0..1][0] == 'a';
    }
    assert MatchesFrom("ab", "b", 2) == [];
    assert MatchIndices("ab", "b") == [1];
    assert "ab"[..1] == "a";
    assert Split("a", '\n') == ["a"] by {
      SplitFree("a", '\n');
    }
  }

  // ---------------------------------------------------------------------------
  // find_fuzzy_match
  // ---------------------------------------------------------------------------

  /** The `|norm_old|` normalised lines from `i` are the normalised old lines. */
  predicate WindowAt(normContent: seq<string>, normOld: seq<string>, i: nat)
  {
    i + |normOld| <= |normContent| && normContent[i..i + |normOld|] == normOld
  }

  /** The matching windows from `from` on, in order. */
  function WindowsFrom(normContent: seq<string>, normOld: seq<string>, from: nat): (r: seq<nat>)
    ensures forall k :: 0 <= k < |r| ==> from <= r[k]
    decreases |normContent| + 1 - from
  {
    if from + |normOld| > |normContent| then []
    else (if WindowAt(normContent, normOld, from) then [from] else [])
         + WindowsFrom(normContent, normOld, from + 1)
  }

  /** Every listed window matches. */
  lemma {:induction false} WindowsFromSound(normContent: seq<string>, normOld: seq<string>, from: nat, k: nat)
    requires k < |WindowsFrom(normContent, normOld, from)|
    ensures WindowAt(normContent, normOld, WindowsFrom(normContent, normOld, from)[k])
    decreases |normContent| + 1 - from
  {
    var hit := if WindowAt(normContent, normOld, from) then [from] else [];
    if k >= |hit| {
      WindowsFromSound(normContent, normOld, from + 1, k - |hit|);
    }
  }

  /** No window is listed from `from` on exactly when no window from there on matches. */
  lemma {:induction false} WindowsFromEmpty(normContent: seq<string>, normOld: seq<string>, from: nat)
    ensures WindowsFrom(normContent, normOld, from) == [] <==>
            forall i :: from <= i ==> !WindowAt(normContent, normOld, i)
    decreases |normContent| + 1 - from
  {
    if from + |normOld| <= |normContent| && !WindowAt(normContent, normOld, from) {
      WindowsFromEmpty(normContent, normOld, from + 1);
    }
  }

  function NormalizedLines(lines: seq<string>): seq<string>
  {
    Map(lines, NormalizeLineForMatch)
  }

  /** The line numbers (from 0) where the normalised old lines match the normalised content lines. */
  function FuzzyWindows(content: string, oldText: string): (r: seq<nat>)
    ensures forall k :: 0 <= k < |r| ==> r[k] + |LinesOf(oldText)| <= |LinesOf(content)|
  {
    var nc := NormalizedLines(LinesOf(content));
    var no := NormalizedLines(LinesOf(oldText));
    var ws := WindowsFrom(nc, no, 0);
    forall k | 0 <= k < |ws| ensures ws[k] + |no| <= |nc| {
      WindowsFromSound(nc, no, 0, k);
    }
    ws
  }

  /**
   * What `find_fuzzy_match` returns once its end position is corrected to
   * stop before the newline that follows the matched block.
   */
  function FuzzyMatchSpec(content: string, oldText: string): Result<Match, MatchError>
  {
    var lines := LinesOf(content);
    var oldLines := LinesOf(oldText);
    if |oldLines| == 0 then Err(OldTextEmpty) // never taken: a split has at least one piece
    else
      var ws := FuzzyWindows(content, oldText);
      if |ws| == 0 then Err(NotFound)
      else if |ws| > 1 then Err(MultipleFuzzy)
      else Ok(BlockMatch(lines, ws[0], |oldLines|))
  }

  /** The match covering the `k` lines from line `i`, up to but not including the newline after them. */
  function BlockMatch(lines: seq<string>, i: nat, k: nat): Match
    requires 1 <= k && i + k <= |lines|
  {
    var offs := Offsets(lines);
    Match(offs[i], offs[i + k] - 1, i + 1)
  }

  /** One step of the scan, after the windows `found` so far: the window at `i`, then the rest. */
  lemma WindowsFromStep(normContent: seq<string>, normOld: seq<string>, i: nat, found: seq<nat>)
    requires i + |normOld| <= |normContent|
    ensures var rest := WindowsFrom(normContent, normOld, i + 1);
            found + WindowsFrom(normContent, normOld, i) ==
              if normContent[i..i + |normOld|] == normOld then (found + [i]) + rest else found + rest
  {
    var rest := WindowsFrom(normContent, normOld, i + 1);
    if normContent[i..i + |normOld|] == normOld {
      assert found + ([i] + rest) == (found + [i]) + rest;
    } else {
      assert [] + rest == rest;
    }
  }

  /**
   * The scan inside `find_fuzzy_match`: try every window of `|normOld|`
   * lines, stop with an error at the second match, and otherwise return the
   * only match, if any.
   */
  method ScanWindows(normContent: seq<string>, normOld: seq<string>) returns (r: Result<Option<nat>, MatchError>)
    ensures var ws := WindowsFrom(normContent, normOld, 0);
            && (|ws| == 0 ==> r == Ok(None))
            && (|ws| == 1 ==> r == Ok(Some(ws[0])))
            && (|ws| > 1 ==> r == Err(MultipleFuzzy))
  {
    ghost var ws := WindowsFrom(normContent, normOld, 0);
    ghost var found: seq<nat> := [];
    var matchStart: Option<nat> := None;
    if |normContent| >= |normOld| {
      var i: nat := 0;
      while i <= |normContent| - |normOld|
        invariant i <= |normContent| - |normOld| + 1
        invariant found == (if matchStart.Some? then [matchStart.value] else [])
        invariant ws == found + WindowsFrom(normContent, normOld, i)
      {
        WindowsFromStep(normContent, normOld, i, found);
        if normContent[i..i + |normOld|] == normOld {
          if matchStart.Some? {
            return Err(MultipleFuzzy);
          }
          matchStart := Some(i);
          found := [i];
        }
        i := i + 1;
      }
    }
    r := Ok(matchStart);
  }

  /** The tail of `find_fuzzy_match`: positions of the matched block from `line_offsets`. */
  method MatchBlock(lines: seq<string>, startLine: nat, k: nat) returns (m: Match)
    requires 1 <= k && startLine + k <= |lines|
    ensures m == BlockMatch(lines, startLine, k)
  {
    var offsets := LineOffsets(lines);
    var start := offsets[startLine];
    var end := offsets[startLine + k] - 1;
    m := Match(start, end, startLine + 1);
  }

  /** `find_fuzzy_match` with the corrected end. */
  method FindFuzzyMatch(content: string, oldText: string) returns (r: Result<Match, MatchError>)
    ensures r == FuzzyMatchSpec(content, oldText)
  {
    var contentLines := LinesOf(content);
    var oldLines := LinesOf(oldText);
    if |oldLines| == 0 {
      return Err(OldTextEmpty);
    }
    var normalizedContent := NormalizedLines(contentLines);
    var normalizedOld := NormalizedLines(oldLines);
    var scan := ScanWindows(normalizedContent, normalizedOld);
    ghost var ws := FuzzyWindows(content, oldText);
    assert ws == WindowsFrom(normalizedContent, normalizedOld, 0);
    if scan.Err? {
      assert |ws| > 1;
      return Err(scan.error);
    }
    if scan.value.None? {
      assert |ws| == 0;
      return Err(NotFound);
    }
    var startLine := scan.value.value;
    assert ws == [startLine];
    assert startLine + |oldLines| <= |contentLines|;
    var m := MatchBlock(contentLines, startLine, |oldLines|);
    r := Ok(m);
  }

  /** Normalising a block of lines is taking that block of the normalised lines. */
  lemma NormalizedSlice(lines: seq<string>, i: nat, j: nat)
    requires i <= j <= |lines|
    ensures NormalizedLines(lines[i..j]) == NormalizedLines(lines)[i..j]
  {
  }

  /**
   * The fuzzy match succeeds exactly when one window of whole lines agrees
   * with the old lines after normalisation; the range it returns is that
   * block of lines, and its line number is the block's first line.
   */
  lemma FuzzyMatchProperties(content: string, oldText: string)
    ensures var r := FuzzyMatchSpec(content, oldText);
            var lines := LinesOf(content);
            var k := |LinesOf(oldText)|;
            var ws := FuzzyWindows(content, oldText);
            && (r.Ok? ==> |ws| == 1 && ws[0] + k <= |lines|
                          && SpansBlock(content, r.value, ws[0], k)
                          && NormalizedLines(lines[ws[0]..ws[0] + k]) == NormalizedLines(LinesOf(oldText)))
            && (r == Err(NotFound) <==> forall i :: !WindowAt(NormalizedLines(lines), NormalizedLines(LinesOf(oldText)), i))
            && (r == Err(MultipleFuzzy) <==> |ws| >= 2)
            && r != Err(OldTextEmpty)
  {
    FuzzyErrors(content, oldText);
    if FuzzyMatchSpec(content, oldText).Ok? {
      FuzzyOkWindow(content, oldText);
    }
  }

  /** A successful fuzzy match spans its one window, whose lines agree with the old lines after normalisation. */
  lemma FuzzyOkWindow(content: string, oldText: string)
    requires FuzzyMatchSpec(content, oldText).Ok?
    ensures var lines := LinesOf(content);
            var k := |LinesOf(oldText)|;
            var ws := FuzzyWindows(content, oldText);
            |ws| == 1 && ws[0] + k <= |lines|
            && SpansBlock(content, FuzzyMatchSpec(content, oldText).value, ws[0], k)
            && NormalizedLines(lines[ws[0]..ws[0] + k]) == NormalizedLines(LinesOf(oldText))
  {
    var lines := LinesOf(content);
    var oldLines := LinesOf(oldText);
    var ws := FuzzyWindows(content, oldText);
    FuzzyOkRange(content, oldText);
    WindowsFromSound(NormalizedLines(lines), NormalizedLines(oldLines), 0, 0);
    NormalizedSlice(lines, ws[0], ws[0] + |oldLines|);
  }

  /** The fuzzy match fails with "not found" exactly when no window matches, and with "multiple" exactly when two do. */
  lemma FuzzyErrors(content: string, oldText: string)
    ensures var r := FuzzyMatchSpec(content, oldText);
            var ws := FuzzyWindows(content, oldText);
            && (r == Err(NotFound) <==> forall i :: !WindowAt(NormalizedLines(LinesOf(content)), NormalizedLines(LinesOf(oldText)), i))
            && (r == Err(MultipleFuzzy) <==> |ws| >= 2)
            && r != Err(OldTextEmpty)
  {
    WindowsFromEmpty(NormalizedLines(LinesOf(content)), NormalizedLines(LinesOf(oldText)), 0);
  }

  /** `m` covers exactly the `k` lines from line `i` and starts on line `i + 1`. */
  predicate SpansBlock(content: string, m: Match, i: nat, k: nat)
    requires i + k <= |LinesOf(content)|
  {
    m.firstLine == i + 1 && m.start <= m.end <= |content|
    && content[m.start..m.end] == Join(LinesOf(content)[i..i + k], '\n')
    && LineNumberAt(content, m.start) == m.firstLine
  }

  /** The match for the `k` lines from line `i` spans exactly those lines. */
  lemma BlockMatchRange(content: string, i: nat, k: nat)
    requires 1 <= k && i + k <= |LinesOf(content)|
    ensures SpansBlock(content, BlockMatch(LinesOf(content), i, k), i, k)
  {
    BlockRange(content, i, k);
    LineNumberAtOffset(content, i);
  }

  /** A successful fuzzy match spans the one matching block of lines. */
  lemma FuzzyOkRange(content: string, oldText: string)
    requires FuzzyMatchSpec(content, oldText).Ok?
    ensures var ws := FuzzyWindows(content, oldText);
            |ws| == 1 && ws[0] + |LinesOf(oldText)| <= |LinesOf(content)|
            && SpansBlock(content, FuzzyMatchSpec(content, oldText).value, ws[0], |LinesOf(oldText)|)
  {
    FuzzyOkIsBlock(content, oldText);
    BlockMatchRange(content, FuzzyWindows(content, oldText)[0], |LinesOf(oldText)|);
  }

  /** `offsets[start_line + old_lines.len()]`, the end `find_fuzzy_match` returns. */
  function FuzzyEndAsWritten(content: string, oldText: string, startLine: nat): nat
    requires startLine + |LinesOf(oldText)| <= |LinesOf(content)|
  {
    Offsets(LinesOf(content))[startLine + |LinesOf(oldText)|]
  }

  /**
   * `offsets[i + k]` is one past the end of the block: it is the newline
   * after the block, or one past the end of the text when the block ends on
   * the last line.
   */
  lemma BlockEndOffset(content: string, i: nat, k: nat)
    requires 1 <= k && i + k <= |LinesOf(content)|
    ensures var e := Offsets(LinesOf(content))[i + k];
            e == BlockMatch(LinesOf(content), i, k).end + 1
            && (i + k == |LinesOf(content)| ==> e == |content| + 1)
            && (i + k < |LinesOf(content)| ==> e <= |content| && content[e - 1] == '\n')
  {
    var lines := LinesOf(content);
    if i + k == |lines| {
      OffsetsEnd(content);
    } else {
      var offs := Offsets(lines);
      TextFromOffset(content, i + k);
      JoinSplit(content, '\n');
      OffsetIsJoinLength(lines, i + k);
      JoinAppend(lines[..i + k], lines[i + k..], '\n');
      assert lines[..i + k] + lines[i + k..] == lines;
      assert content[..offs[i + k]] == Join(lines[..i + k], '\n') + ['\n'];
    }
  }

  /**
   * The source's end is one past the corrected one: it takes in the newline
   * after the block, and when the block ends on the last line it is one past
   * the end of the text, so the slice `content[end..]` is out of range.
   */
  lemma FuzzyEndAsWrittenOverruns(content: string, oldText: string)
    requires FuzzyMatchSpec(content, oldText).Ok?
    ensures var m := FuzzyMatchSpec(content, oldText).value;
            var e := FuzzyEndAsWritten(content, oldText, m.firstLine - 1);
            e == m.end + 1
            && (m.firstLine - 1 + |LinesOf(oldText)| == |LinesOf(content)| ==> e == |content| + 1)
            && (e <= |content| ==> content[m.end] == '\n')
  {
    var ws := FuzzyWindows(content, oldText);
    var k := |LinesOf(oldText)|;
    FuzzyOkIsBlock(content, oldText);
    BlockEndOffset(content, ws[0], k);
  }

  /** A successful fuzzy match is the block of the one matching window. */
  lemma FuzzyOkIsBlock(content: string, oldText: string)
    requires FuzzyMatchSpec(content, oldText).Ok?
    ensures var ws := FuzzyWindows(content, oldText);
            var k := |LinesOf(oldText)|;
            |ws| == 1 && 1 <= k && ws[0] + k <= |LinesOf(content)|
            && FuzzyMatchSpec(content, oldText).value == BlockMatch(LinesOf(content), ws[0], k)
  {
  }

  /** The two texts of the example below differ only in the apostrophe, and neither occurs in the other. */
  lemma CurlyApostropheLines()
    ensures LinesOf("x\U{2019}y") == ["x\U{2019}y"] && LinesOf("x'y") == ["x'y"]
    ensures NormalizeLineForMatch("x\U{2019}y") == "x'y" == NormalizeLineForMatch("x'y")
    ensures !Contains("x\U{2019}y", "x'y")
  {
    var content := "x\U{2019}y";
    var pat := "x'y";
    assert content[0..3][1] != pat[1];
    SplitFree(content, '\n');
    SplitFree(pat, '\n');
    assert TrimEnd(content) == content;
    NormalizeForMatchPointwise(content);
    assert TrimEnd(pat) == pat;
    NormalizeForMatchPointwise(pat);
  }

  /** A curly apostrophe: the exact search fails and the fuzzy block is the whole one-line text. */
  lemma FuzzyEndCounterexample()
    ensures ExactMatchSpec("x\U{2019}y", "x'y") == Err(NotFound)
    ensures FuzzyMatchSpec("x\U{2019}y", "x'y") == Ok(Match(0, 3, 1))
    ensures FuzzyEndAsWritten("x\U{2019}y", "x'y", 0) == 4
  {
    CurlyApostropheLines();
    ExactMatchProperties("x\U{2019}y", "x'y");
    CurlyWindows();
  }

  /** After normalisation the one line of each text agrees. */
  lemma CurlyWindows()
    ensures FuzzyWindows("x\U{2019}y", "x'y") == [0]
  {
    var content := "x\U{2019}y";
    var pat := "x'y";
    CurlyApostropheLines();
    var nc := NormalizedLines([content]);
    var no := NormalizedLines([pat]);
    assert nc == no == [pat];
    assert WindowsFrom(nc, no, 1) == [];
    assert WindowsFrom(nc, no, 0) == [0];
  }
}
