/**
 * The text transformation at the heart of `EditTool::execute`: strip a
 * byte-order mark, remember whether the file used CRLF endings, work on the
 * LF-normalised text, find the old text (exactly, else loosely), splice in
 * the new text, diff, and restore the endings and the mark before writing.
 *
 * Reading the file, the temporary file and the rename are left out: the
 * model maps the file's text and the tool's inputs to the text written.
 */
module Edit {
  import opened Wrappers
  import opened Seqs
  import opened EditMatch
  import opened Diff
  import opened Chars
  import opened Normalize

  const BOM: char := '\U{FEFF}'

  /** `strip_bom`: the text without one leading U+FEFF, and whether there was one. */
  function StripBom(s: string): (r: (string, bool))
    ensures r.1 <==> (s != [] && s[0] == BOM)
    ensures (if r.1 then [BOM] else []) + r.0 == s
  {
    if s != [] && s[0] == BOM then (s[1..], true) else (s, false)
  }

  /** `detect_line_ending`: CRLF as soon as the text holds one `"\r\n"`. */
  function DetectLineEnding(s: string): string
  {
    if Contains(s, "\r\n") then "\r\n" else "\n"
  }

  /** `s.replace("\r\n", "\n")`. */
  function CrlfToLf(s: string): string
  {
    ReplaceAll(s, "\r\n", "\n")
  }

  /** `s.replace("\n", "\r\n")`. */
  function LfToCrlf(s: string): string
  {
    ReplaceAll(s, "\n", "\r\n")
  }

  /** Every `'\n'` is the second half of a `"\r\n"`. */
  predicate CrlfOnly(s: string)
  {
    forall k :: 0 <= k < |s| && s[k] == '\n' ==> 0 < k && s[k - 1] == '\r'
  }

  lemma LfToCrlfCons(c: char, t: string)
    ensures LfToCrlf([c] + t) == (if c == '\n' then "\r\n" else [c]) + LfToCrlf(t)
  {
    assert ([c] + t)[1..] == t;
    assert IsPrefix("\n", [c] + t) <==> c == '\n' by {
      assert ([c] + t)[..1] == [c];
    }
  }

  /** Converting LF to CRLF never yields a text that starts with `'\n'`. */
  lemma {:induction false} LfToCrlfHead(s: string)
    ensures LfToCrlf(s) == [] || LfToCrlf(s)[0] != '\n'
  {
    if s != [] {
      LfToCrlfCons(s[0], s[1..]);
      assert [s[0]] + s[1..] == s;
    }
  }

  /** After converting LF to CRLF, every `'\n'` follows a `'\r'`. */
  lemma {:induction false} LfToCrlfIsCrlfOnly(s: string)
    ensures CrlfOnly(LfToCrlf(s))
  {
    if s != [] {
      var t := s[1..];
      LfToCrlfCons(s[0], t);
      assert [s[0]] + t == s;
      LfToCrlfIsCrlfOnly(t);
      LfToCrlfHead(t);
      var pre: string := if s[0] == '\n' then "\r\n" else [s[0]];
      var w := LfToCrlf(s);
      assert w == pre + LfToCrlf(t);
      forall k | 0 <= k < |w| && w[k] == '\n' ensures 0 < k && w[k - 1] == '\r' {
        if k >= |pre| {
          assert w[k] == LfToCrlf(t)[k - |pre|];
          if k > |pre| {
            assert w[k - 1] == LfToCrlf(t)[k - 1 - |pre|];
          }
        }
      }
    }
  }

  /** CRLF-to-LF undoes LF-to-CRLF: the conversion when writing loses nothing. */
  lemma {:induction false} LfToCrlfRoundTrip(s: string)
    ensures CrlfToLf(LfToCrlf(s)) == s
  {
    if s != [] {
      var t := s[1..];
      LfToCrlfCons(s[0], t);
      assert [s[0]] + t == s;
      LfToCrlfRoundTrip(t);
      LfToCrlfHead(t);
      var w := LfToCrlf(t);
      if s[0] == '\n' {
        assert IsPrefix("\r\n", "\r\n" + w);
        assert ("\r\n" + w)[2..] == w;
      } else {
        assert !IsPrefix("\r\n", [s[0]] + w) by {
          if s[0] == '\r' {
            assert w == [] || w[0] != '\n';
            assert |[s[0]] + w| < 2 || ([s[0]] + w)[1] == w[0];
          }
        }
        assert ([s[0]] + w)[1..] == w;
      }
    }
  }

  /**
   * A text whose every newline is a CRLF comes back unchanged from
   * normalising to LF and restoring CRLF.
   */
  lemma {:induction false} CrlfRestore(s: string)
    requires CrlfOnly(s)
    ensures LfToCrlf(CrlfToLf(s)) == s
    decreases |s|
  {
    if s != [] {
      if IsPrefix("\r\n", s) {
        var t := s[2..];
        assert CrlfOnly(t) by {
          assert s[1] == s[..2][1] == '\n';
          forall k | 0 <= k < |t| && t[k] == '\n' ensures 0 < k && t[k - 1] == '\r' {
            assert s[k + 2] == '\n';
          }
        }
        CrlfRestore(t);
        assert CrlfToLf(s) == "\n" + CrlfToLf(t);
        LfToCrlfCons('\n', CrlfToLf(t));
        assert s == "\r\n" + t;
      } else {
        var t := s[1..];
        assert s[0] != '\n';
        assert t == [] || t[0] != '\n';
        assert CrlfOnly(t) by {
          forall k | 0 <= k < |t| && t[k] == '\n' ensures 0 < k && t[k - 1] == '\r' {
            assert s[k + 1] == '\n';
          }
        }
        CrlfRestore(t);
        assert CrlfToLf(s) == [s[0]] + CrlfToLf(t);
        LfToCrlfCons(s[0], CrlfToLf(t));
        assert s == [s[0]] + t;
      }
    }
  }

  // ---------------------------------------------------------------------------
  // The edit
  // ---------------------------------------------------------------------------

  datatype EditError =
    | Identical                // "oldText and newText are identical. No changes to apply."
    | NoMatch(cause: MatchError)

  /** The text written, the diff reported, and the first changed line. */
  datatype EditOutcome = EditOutcome(written: string, diff: string, firstLine: nat)

  /**
   * `find_exact_match(..).or_else(|_| find_fuzzy_match(..))`: the loose
   * search runs after any failure of the exact one, ambiguity included.
   */
  function FindMatch(content: string, oldText: string): (r: Result<Match, MatchError>)
    ensures r.Ok? ==> r.value.start <= r.value.end <= |content|
    ensures ExactMatchSpec(content, oldText).Ok? ==> r == ExactMatchSpec(content, oldText)
    ensures ExactMatchSpec(content, oldText).Err? ==> r == FuzzyMatchSpec(content, oldText)
  {
    ExactMatchProperties(content, oldText);
    FuzzyMatchProperties(content, oldText);
    match ExactMatchSpec(content, oldText)
    case Ok(m) => Ok(m)
    case Err(_) => FuzzyMatchSpec(content, oldText)
  }

  /** `content[..start] + new + content[end..]`. */
  function Splice(content: string, m: Match, newText: string): string
    requires m.start <= m.end <= |content|
  {
    content[..m.start] + newText + content[m.end..]
  }

  /** What the LF text becomes on disk: CRLF restored if detected, the mark put back. */
  function Restore(lf: string, lineEnding: string, hadBom: bool): string
  {
    var out := if lineEnding == "\r\n" then LfToCrlf(lf) else lf;
    if hadBom then [BOM] + out else out
  }

  /** The transformation `EditTool::execute` applies to the file's text. */
  function EditText(text: string, oldText: string, newText: string, path: string): Result<EditOutcome, EditError>
  {
    var (content, hadBom) := StripBom(text);
    var lineEnding := DetectLineEnding(content);
    var contentLf := CrlfToLf(content);
    var oldLf := CrlfToLf(oldText);
    var newLf := CrlfToLf(newText);
    if oldLf == newLf then Err(Identical)
    else
      match FindMatch(contentLf, oldLf)
      case Err(e) => Err(NoMatch(e))
      case Ok(m) =>
        var spliced := Splice(contentLf, m, newLf);
        Ok(EditOutcome(Restore(spliced, lineEnding, hadBom), DiffText(contentLf, spliced, path), m.firstLine))
  }

  /**
   * Identical texts (after CRLF normalisation) are refused before any search;
   * otherwise the edit fails only when neither search finds a unique match,
   * with the loose search's error.
   */
  lemma EditRefusals(text: string, oldText: string, newText: string, path: string)
    ensures var r := EditText(text, oldText, newText, path);
            var contentLf := CrlfToLf(StripBom(text).0);
            var oldLf := CrlfToLf(oldText);
            && (r == Err(Identical) <==> oldLf == CrlfToLf(newText))
            && (r.Err? && r.error.NoMatch? <==>
                  oldLf != CrlfToLf(newText)
                  && ExactMatchSpec(contentLf, oldLf).Err? && FuzzyMatchSpec(contentLf, oldLf).Err?)
            && (r.Err? && r.error.NoMatch? ==> r.error.cause == FuzzyMatchSpec(contentLf, oldLf).error)
  {
  }

  /**
   * A successful edit writes the LF text with the match replaced by the new
   * text, CRLF endings restored when the file had any, and the mark put back
   * when it had one; on the exact path the replaced range was the old text.
   */
  lemma EditWrites(text: string, oldText: string, newText: string, path: string)
    requires EditText(text, oldText, newText, path).Ok?
    ensures var out := EditText(text, oldText, newText, path).value;
            var content := StripBom(text).0;
            var hadBom := StripBom(text).1;
            var contentLf := CrlfToLf(content);
            var oldLf := CrlfToLf(oldText);
            var m := FindMatch(contentLf, oldLf).value;
            var spliced := contentLf[..m.start] + CrlfToLf(newText) + contentLf[m.end..];
            && out.written == Restore(spliced, DetectLineEnding(content), hadBom)
            && out.firstLine == m.firstLine
            && (hadBom ==> out.written != [] && out.written[0] == BOM)
            && (!hadBom ==> text == [] || text[0] != BOM)
            && (Contains(content, "\r\n") ==> CrlfOnly(if hadBom then out.written[1..] else out.written))
            && (ExactMatchSpec(contentLf, oldLf).Ok? ==> contentLf == contentLf[..m.start] + oldLf + contentLf[m.end..])
  {
    var content := StripBom(text).0;
    var hadBom := StripBom(text).1;
    var contentLf := CrlfToLf(content);
    var oldLf := CrlfToLf(oldText);
    var m := FindMatch(contentLf, oldLf).value;
    var spliced := Splice(contentLf, m, CrlfToLf(newText));
    if Contains(content, "\r\n") {
      LfToCrlfIsCrlfOnly(spliced);
    }
    if ExactMatchSpec(contentLf, oldLf).Ok? {
      ExactMatchProperties(contentLf, oldLf);
      assert contentLf == contentLf[..m.start] + contentLf[m.start..m.end] + contentLf[m.end..];
    }
  }

  /**
   * When the file's newlines are all CRLF, replacing a text by itself in
   * LF form would give the file back: restoring undoes the normalisation.
   */
  lemma RestoreUndoesNormalisation(text: string)
    requires CrlfOnly(StripBom(text).0) && Contains(StripBom(text).0, "\r\n")
    ensures Restore(CrlfToLf(StripBom(text).0), DetectLineEnding(StripBom(text).0), StripBom(text).1) == text
  {
    CrlfRestore(StripBom(text).0);
  }

  /** The exact search finds "ab" twice in "ab\nab x". */
  lemma AmbiguousExactExample()
    ensures ExactMatchSpec("ab\nab x", "ab") == Err(Occurrences(2))
  {
    var content := "ab\nab x";
    var pat := "ab";
    assert OccursAt(content, pat, 0);
    assert OccursAt(content, pat, 3);
    assert !OccursAt(content, pat, 4) by { assert content[4..6][0] == 'b'; }
    assert !OccursAt(content, pat, 5) by { assert content[5..7][0] == ' '; }
    assert MatchesFrom(content, pat, 6) == [];
    assert MatchesFrom(content, pat, 5) == [];
    assert MatchesFrom(content, pat, 3) == [3];
    assert !OccursAt(content, pat, 2) by { assert content[2..4][0] == '\n'; }
    assert MatchesFrom(content, pat, 2) == [3];
    assert MatchIndices(content, pat) == [0, 3];
  }

  /** The lines of "ab\nab x" and of "ab". */
  lemma AmbiguousLinesSplit()
    ensures LinesOf("ab\nab x") == ["ab", "ab x"] && LinesOf("ab") == ["ab"]
  {
    var content := "ab\nab x";
    SplitFree("ab x", '\n');
    SplitFree("ab", '\n');
    assert content[1..] == "b\nab x";
    assert content[2..] == "\nab x";
    assert content[3..] == "ab x";
    assert Split(content[2..], '\n') == [[]] + Split("ab x", '\n');
  }

  /** How the two lines of "ab\nab x" normalise. */
  lemma AmbiguousLinesNormal()
    ensures NormalizeLineForMatch("ab") == "ab" && NormalizeLineForMatch("ab x") != "ab"
  {
    assert TrimEnd("ab") == "ab";
    assert TrimEnd("ab x") == "ab x";
    NormalizeForMatchPointwise("ab");
    NormalizeForMatchPointwise("ab x");
  }

  /** The lines of "ab\nab x", and how they normalise. */
  lemma AmbiguousLines()
    ensures LinesOf("ab\nab x") == ["ab", "ab x"] && LinesOf("ab") == ["ab"]
    ensures NormalizeLineForMatch("ab") == "ab" && NormalizeLineForMatch("ab x") != "ab"
  {
    AmbiguousLinesSplit();
    AmbiguousLinesNormal();
  }

  /** The loose search finds the one line that is exactly "ab". */
  lemma FuzzyAmbiguousExample()
    ensures FuzzyMatchSpec("ab\nab x", "ab") == Ok(Match(0, 2, 1))
  {
    AmbiguousLinesSplit();
    AmbiguousWindows();
    assert Offsets(["ab", "ab x"])[1] == 3 by {
      OffsetsStep(["ab", "ab x"], 0);
    }
  }

  /** Only the first line of "ab\nab x" normalises to "ab". */
  lemma AmbiguousWindows()
    ensures FuzzyWindows("ab\nab x", "ab") == [0]
  {
    AmbiguousLines();
    var nc := NormalizedLines(["ab", "ab x"]);
    var no := NormalizedLines(["ab"]);
    assert nc == ["ab", NormalizeLineForMatch("ab x")];
    assert no == ["ab"];
    assert nc[1..2][0] != no[0];
    assert WindowsFrom(nc, no, 2) == [];
    assert WindowsFrom(nc, no, 1) == [];
    assert WindowsFrom(nc, no, 0) == [0];
  }

  /**
   * An old text that occurs twice is not refused: the exact search reports
   * two occurrences, and the loose search then picks the one line that
   * equals it as a whole.
   */
  lemma AmbiguousExactFallsBackToFuzzy()
    ensures ExactMatchSpec("ab\nab x", "ab") == Err(Occurrences(2))
    ensures FindMatch("ab\nab x", "ab") == Ok(Match(0, 2, 1))
  {
    AmbiguousExactExample();
    FuzzyAmbiguousExample();
  }

  // ---------------------------------------------------------------------------
  // The splice as written
  // ---------------------------------------------------------------------------

  /** How `EditTool::execute` as written ends: with its result, or a panic on the slice `content_lf[end..]`. */
  datatype RunAsWritten = Returned(result: Result<EditOutcome, EditError>) | SlicePanic

  /**
   * The match the source hands to the splice: `first_line` counted with
   * `lines()` on the exact path, and `end = offsets[start_line + old_lines.len()]`
   * on the loose path.
   */
  function FindMatchAsWritten(content: string, oldText: string): (r: Result<Match, MatchError>)
    ensures r.Err? <==> FindMatch(content, oldText).Err?
    ensures r.Ok? ==> r.value.start == FindMatch(content, oldText).value.start <= r.value.end
    ensures r.Ok? && ExactMatchSpec(content, oldText).Ok? ==> r.value.end == FindMatch(content, oldText).value.end <= |content|
    ensures r.Ok? && ExactMatchSpec(content, oldText).Err? ==> r.value.end == FindMatch(content, oldText).value.end + 1
  {
    ExactMatchProperties(content, oldText);
    match ExactMatchSpec(content, oldText)
    case Ok(m) => Ok(Match(m.start, m.end, FirstLineAsWritten(content, m.start)))
    case Err(_) =>
      match FuzzyMatchSpec(content, oldText)
      case Err(e) => Err(e)
      case Ok(m) =>
        FuzzyOkIsBlock(content, oldText);
        FuzzyEndAsWrittenOverruns(content, oldText);
        Ok(Match(m.start, FuzzyEndAsWritten(content, oldText, m.firstLine - 1), m.firstLine))
  }

  /** `EditText` with the source's match: the splice panics when `end` lies past the text. */
  function EditTextAsWritten(text: string, oldText: string, newText: string, path: string): RunAsWritten
  {
    var (content, hadBom) := StripBom(text);
    var lineEnding := DetectLineEnding(content);
    var contentLf := CrlfToLf(content);
    var oldLf := CrlfToLf(oldText);
    var newLf := CrlfToLf(newText);
    if oldLf == newLf then Returned(Err(Identical))
    else
      match FindMatchAsWritten(contentLf, oldLf)
      case Err(e) => Returned(Err(NoMatch(e)))
      case Ok(m) =>
        if m.end > |contentLf| then SlicePanic
        else
          var spliced := Splice(contentLf, m, newLf);
          Returned(Ok(EditOutcome(Restore(spliced, lineEnding, hadBom), DiffText(contentLf, spliced, path), m.firstLine)))
  }

  /**
   * When only the loose search matches, the source's splice goes wrong: a
   * block ending on the last line makes it panic, and any other block loses
   * the newline after it, gluing the next line onto the new text. The
   * corrected edit keeps that newline.
   */
  lemma FuzzySpliceAsWritten(text: string, oldText: string, newText: string, path: string)
    requires CrlfToLf(oldText) != CrlfToLf(newText)
    requires ExactMatchSpec(CrlfToLf(StripBom(text).0), CrlfToLf(oldText)).Err?
    requires FuzzyMatchSpec(CrlfToLf(StripBom(text).0), CrlfToLf(oldText)).Ok?
    ensures var content := StripBom(text).0;
            var contentLf := CrlfToLf(content);
            var oldLf := CrlfToLf(oldText);
            var newLf := CrlfToLf(newText);
            var m := FuzzyMatchSpec(contentLf, oldLf).value;
            var onLastLine := m.firstLine - 1 + |LinesOf(oldLf)| == |LinesOf(contentLf)|;
            var asWritten := EditTextAsWritten(text, oldText, newText, path);
            var corrected := EditText(text, oldText, newText, path);
            && corrected.Ok?
            && corrected.value.written == Restore(contentLf[..m.start] + newLf + contentLf[m.end..], DetectLineEnding(content), StripBom(text).1)
            && (onLastLine <==> asWritten == SlicePanic)
            && (!onLastLine ==>
                  m.end < |contentLf| && contentLf[m.end] == '\n'
                  && asWritten.Returned? && asWritten.result.Ok?
                  && asWritten.result.value.written
                       == Restore(contentLf[..m.start] + newLf + contentLf[m.end + 1..], DetectLineEnding(content), StripBom(text).1))
  {
    var contentLf := CrlfToLf(StripBom(text).0);
    var oldLf := CrlfToLf(oldText);
    FuzzyOkIsBlock(contentLf, oldLf);
    FuzzyEndAsWrittenOverruns(contentLf, oldLf);
    BlockEndOffset(contentLf, FuzzyWindows(contentLf, oldLf)[0], |LinesOf(oldLf)|);
  }

  /** A text without `'\r'` holds no CRLF, so normalising leaves it alone. */
  lemma NoCrIsLf(s: string)
    requires forall k :: 0 <= k < |s| ==> s[k] != '\r'
    ensures !Contains(s, "\r\n") && CrlfToLf(s) == s && DetectLineEnding(s) == "\n"
  {
    forall i | 0 <= i <= |s| - 2
      ensures !OccursAt(s, "\r\n", i)
    {
      assert s[i..i + 2][0] == s[i] != '\r';
    }
    ReplaceAbsent(s, "\r\n", "\n");
  }

  /**
   * Replacing `"x'y"` in the one-line file `"x\u{2019}y"`: the loose match
   * ends on the last line, so the source panics where the corrected edit
   * writes `"z"`.
   */
  lemma CurlyEditPanics()
    ensures EditTextAsWritten("x\U{2019}y", "x'y", "z", "p") == SlicePanic
    ensures EditText("x\U{2019}y", "x'y", "z", "p").Ok?
    ensures EditText("x\U{2019}y", "x'y", "z", "p").value.written == "z"
  {
    NoCrIsLf("x\U{2019}y");
    NoCrIsLf("x'y");
    NoCrIsLf("z");
    FuzzyEndCounterexample();
    CurlyApostropheLines();
    FuzzySpliceAsWritten("x\U{2019}y", "x'y", "z", "p");
  }

  /**
   * Replacing `"ab"` in `"ab\nab x"` by `"z"` (the exact search sees two
   * occurrences, the loose one the first line): the source writes `"zab x"`,
   * the corrected edit `"z\nab x"`.
   */
  lemma MidBlockEditJoinsNextLine(text: string, oldText: string, newText: string, path: string)
    requires text == "ab\nab x" && oldText == "ab" && newText == "z"
    ensures var r := EditTextAsWritten(text, oldText, newText, path);
            r.Returned? && r.result.Ok? && r.result.value.written == "zab x"
    ensures var c := EditText(text, oldText, newText, path);
            c.Ok? && c.value.written == "z\nab x"
  {
    NoCrIsLf(text);
    NoCrIsLf(oldText);
    NoCrIsLf(newText);
    assert StripBom(text) == (text, false);
    AmbiguousExactFallsBackToFuzzy();
    AmbiguousLinesSplit();
    FuzzySpliceAsWritten(text, oldText, newText, path);
    AmbiguousSplices();
  }

  /** The two splices of `"z"` over the first line of `"ab\nab x"`: without and with the newline after it. */
  lemma AmbiguousSplices()
    ensures "ab\nab x"[..0] + "z" + "ab\nab x"[3..] == "zab x"
    ensures "ab\nab x"[..0] + "z" + "ab\nab x"[2..] == "z\nab x"
  {
    assert "ab\nab x"[3..] == "ab x";
    assert "ab\nab x"[2..] == "\nab x";
  }

}
