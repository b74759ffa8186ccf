# pi_agent_rust: tool layer, conformance scan and provenance manifest, in Dafny

This project models the deterministic core of three files of `pi_agent_rust`
and proves properties of the model.

- `src/tools.rs` is the agent's tool layer. The model covers:
  - the truncation engine (`truncate_head`, `truncate_tail` and the UTF-8-aware
    byte cut);
  - the bash tool's rolling output buffers, its chunk window and the way a
    finished run is reported;
  - the edit tool: loose character normalisation, exact and fuzzy matching,
    line offsets, the splice, CRLF and byte-order-mark restoration, and the
    line diff;
  - the path helpers: `~` expansion, resolution against the working
    directory, the screenshot-name fallbacks, image extensions and grep's
    printed path;
  - the windows and limits of the read, grep, ls and find tools;
  - the process-tree walk behind `kill_process_tree`;
  - the tool registry.
- `tests/ext_conformance_artifacts.rs` classifies extension TypeScript files.
  The model covers:
  - the one-pass flag-setting scan and its fixed-priority decision;
  - the lowercase hex rendering of digests;
  - the cleaning of entry points declared in `package.json`;
  - the confidence boost such a declaration gives.
- `src/bin/ext_artifact_manifest.rs` generates the artifact provenance manifest.
  The model covers repository-URL normalisation, the community author, SPDX
  detection, the license-file search, license and source inference, item
  names, the first-error build of all items, and the sort by id.

The source's own form is kept:
- Loops that update variables are methods with loop invariants. Each is proved
  equal to a specification function: `TruncateHead`, `TruncateTail`,
  `TruncateStringToBytesFromEnd`, `LineOffsets`, `FindExactMatch`,
  `FindFuzzyMatch`, `ComputeDiff`, `ClassifyTsFile`, `HexLower`, `Boost`,
  `CollectEntries`, `RelativiseAll`, `CollectProcessTree`, `EmitMatch` and
  `DetectLicenseFile`.
- The properties are proved about those functions.
- State that the source updates in place lives in classes:
  `BashOutput.OutputBuffers`, `BashOutput.ChunkWindow` and
  `Registry.ToolRegistry`.
- Expression-level code is written as functions.

Modules, one per file:

| module | file | what |
|---|---|---|
| `Wrappers`, `Seqs`, `Chars` | `seqs.dfy`, `chars.dfy` | Option/Result, split/join, prefixes, `trim`, ASCII case, `str::lines` |
| `Utf8` | `utf8.dfy` | well-formed UTF-8 per section 4 of RFC 3629 |
| `Truncation` | `truncation.dfy` | `truncate_head`, `truncate_tail`, `truncate_string_to_bytes_from_end` |
| `BashOutput` | `bash.dfy` | `append_output`, the chunk window of `process_bash_chunk`, `build_bash_output` |
| `Normalize` | `normalize.dfy` | `normalize_for_match`, `normalize_line_for_match` |
| `EditMatch` | `edit_match.dfy` | `line_offsets`, `find_exact_match`, `find_fuzzy_match` |
| `Edit` | `edit.dfy` | `strip_bom`, `detect_line_ending` and the text path of `EditTool::execute` |
| `Diff` | `diff.dfy` | `compute_diff` |
| `Paths` | `paths.dfy` | `expand_path`, `resolve_to_cwd`, `resolve_read_path`, image types, `format_grep_path` |
| `ReadTool` | `read_tool.dfy` | offset/limit window, `add_line_numbers` |
| `GrepTool` | `grep_tool.dfy` | `truncate_line`, cached file lines, context window, per-match output |
| `Listing` | `listing.dfy` | ls entry limit, find relativisation and limit flag |
| `ProcessTree` | `process_tree.dfy` | `collect_process_tree` |
| `Registry` | `registry.dfy` | `ToolRegistry::new` and `get` |
| `Conformance` | `conformance.dfy` | `classify_ts_file`, `hex_lower`, entry cleaning, the boost |
| `Manifest` | `manifest.dfy` | provenance inference and manifest building |

Quirks of the source that the model keeps as written:
- The edit tool falls back to fuzzy matching on any exact-match error,
  ambiguity included.
- `normalize_repo_url` cuts the last four characters after a `.git` name even
  when a trailing `/` follows (`"a.git/"` becomes `"a."`).
- `detect_spdx_from_text` tests the GPL's title before the LGPL's. The LGPL's
  title contains the words of the GPL's title only with "LESSER" in between,
  so LGPL is still reachable. But a text naming both licenses is reported as
  GPL.
- find flags its limit with `>=`. ls flags it only when an entry is met with
  no room left, and that entry may be one it could not stat.
- grep's "unable to read file" branch can never run, because a split always
  yields at least one line.
- `resolve_read_path` is not called by the read tool, which uses
  `resolve_path`. It is modelled all the same.

Where the model and the source differ on purpose, the differences are under
"Findings" (two off-by-one results of the edit matcher) and "Left out".

## Model

A row for a function or predicate without an `ensures` says what it computes; the rows of the lemmas and methods beside it say what is proved about it.

| member | source | states |
|---|---|---|
| Utf8.CharWidth | src/tools.rs:274-279 | the width of a well-formed UTF-8 character (RFC 3629 section 4) starting the text is at most 4 and within the text, 0 when none starts there |
| Utf8.CharShape | src/tools.rs:275 | a character starts with a non-continuation byte and continues with continuation bytes `0b10xxxxxx` |
| Utf8.SuffixAtBoundaryValid | src/tools.rs:279-281 | a suffix of valid UTF-8 starting on a character boundary is valid, so `from_utf8` of it succeeds |
| Utf8.ContinuationRunBound | src/tools.rs:275-277 | valid UTF-8 has no run of more than three continuation bytes, so the skip loop moves at most three bytes |
| Utf8.BoundaryAfterAscii | src/tools.rs:199 | in valid text the byte after an ASCII byte (such as `'\n'`) starts a character |
| Truncation.HeadFit | src/tools.rs:131-193 | the largest number of leading lines whose join fits the byte budget, with one more line overflowing: the reference for the greedy head loop |
| Truncation.HeadFitIsGreedy | src/tools.rs:131-193 | a stopping point that fits and whose next line overflows is exactly `HeadFit` |
| Truncation.TailFit | src/tools.rs:219-264 | at most `k` trailing lines taken |
| Truncation.TailFitFits | src/tools.rs:219-264 | the trailing lines `TailFit` keeps fit the budget, and one more line would not |
| Truncation.TailFitIsGreedy | src/tools.rs:224-255 | the backwards walk's stopping point is exactly `TailFit` |
| Truncation.PrefixMonotone | src/tools.rs:141-160 | taking more leading lines never costs fewer bytes |
| Truncation.SuffixMonotone | src/tools.rs:224-255 | taking more trailing lines never costs fewer bytes |
| Truncation.BoundaryFrom | src/tools.rs:274-277 | the first character boundary at or after the start, with every skipped byte a continuation byte |
| Truncation.CutFromEnd | src/tools.rs:268-282 | a text that fits is returned whole; the result is always a suffix; an over-long text gives at most `max_bytes` bytes not starting on a continuation byte |
| Truncation.CutFromEndValid | src/tools.rs:268-282 | on valid UTF-8 the cut keeps the suffix from the first boundary: valid, and at most three bytes under the budget |
| Truncation.TruncateStringToBytesFromEnd | src/tools.rs:268-282 | the skipping loop computes `CutFromEnd` |
| Truncation.TruncateHead | src/tools.rs:109-194 | the loop computes `HeadSpec` |
| Truncation.TruncateTail | src/tools.rs:197-265 | the backwards loop with push-then-reverse computes `TailSpec` |
| Truncation.TailSpecAtStop | src/tools.rs:219-264 | the tail result once the number of kept whole lines is known: whole lines, or the partial last line when none fits and `max_lines >= 1` |
| Truncation.HeadProperties | src/tools.rs:109-194 | totals and limits are reported as given; the output is a byte prefix of whole lines within both limits; it is truncated exactly when a limit is exceeded, and otherwise the content is unchanged; a first line over the budget gives empty content with `first_line_exceeds_limit`; a line cut keeps exactly `max_lines` lines of more; a byte cut stops at the first line that overflows |
| Truncation.TailKeepsSuffix | src/tools.rs:197-265 | the output is a suffix of the text: all of it, or whole trailing lines, or (`last_line_partial`, by bytes, one line) the byte cut of an over-long last line |
| Truncation.TailCutReason | src/tools.rs:197-265 | the tail stays within both limits; it is truncated exactly when a limit is exceeded; a line cut keeps exactly `max_lines` lines; a whole-line byte cut stops at the first line that overflows; `first_line_exceeds_limit` is never set |
| Truncation.TailLimits | src/tools.rs:197-265 | totals and limits are reported as given; the output is within both limits; it is truncated exactly when the text exceeds a limit, and then a reason is given; `first_line_exceeds_limit` is never set |
| Truncation.TailReasons | src/tools.rs:219-264 | a line cut keeps exactly `max_lines` of more lines; a whole-line byte cut keeps fewer than `max_lines` and stops where one more line would overflow |
| Truncation.TailFitBelowAll | src/tools.rs:203-255 | when the text does not fit, the walk keeps fewer than all lines |
| Truncation.LastLineOverflows | src/tools.rs:233-246 | when no trailing line fits, the last line alone is over the budget |
| Truncation.WholeLinesSuffix | src/tools.rs:256-258 | the last `k` lines joined back are a suffix of the text, and all of them are the text |
| Truncation.PartialLastLineSuffix | src/tools.rs:235-242 | the byte cut of the last line is a suffix of the text |
| Truncation.TailPartialLineValid | src/tools.rs:235-242 | on valid UTF-8 a partial last line starts on a boundary, is valid and gives up at most three bytes |
| Truncation.ValidCutIsShort | src/tools.rs:235-242 | cutting valid UTF-8 from the end to a boundary leaves valid UTF-8 and gives up at most three bytes |
| Truncation.LastLineValid | src/tools.rs:199 | the last line of valid text is valid |
| Truncation.UnboundedLinesCutByBytes | src/tools.rs:1619 | with `usize::MAX` as line limit (grep, find) neither direction ever reports a line cut |
| Truncation.HeadExample | src/tools.rs:2245-2254 | five short lines, limit 3: the first three are kept, truncated by lines, 5 total, 3 output |
| Truncation.TailExample | src/tools.rs:2257-2266 | the same from the end: the last three are kept |
| Truncation.FiveLinesSplit | src/tools.rs:2246 | the example text splits back into its five lines |
| Truncation.ShortLinesJoinBound | src/tools.rs:2246-2247 | lines of at most five bytes cost at most six bytes each, so the example is within 1000 bytes |
| Truncation.HeadSpec | src/tools.rs:109-194 | what `truncate_head` returns: the content unchanged when both limits hold; nothing, flagged as a first line over the byte limit, when line 1 alone is too long; otherwise the first `HeadFit` whole lines, cut by `Lines` when the line limit was the one reached and by `Bytes` otherwise |
| Truncation.TailSpec | src/tools.rs:197-265 | what `truncate_tail` returns: the content unchanged when both limits hold; the byte tail of the last line, flagged as a partial line, when not even that line fits; otherwise the last `TailFit` whole lines, cut by `Lines` or `Bytes` |
| BashOutput.DropLeadingEmpty | src/tools.rs:783-787 | the appended lines minus the empty ones before the first non-empty line: a suffix starting non-empty, all of whose dropped lines are empty |
| BashOutput.DropLeadingEmptySnoc | src/tools.rs:783-787 | appending a line extends the kept lines by it, unless nothing non-empty has been seen |
| BashOutput.DropLeadingEmptyKeepsAll | src/tools.rs:784 | once the first line is non-empty no line is dropped |
| BashOutput.PushLineKeepsSuffix | src/tools.rs:789-792 | pushing one line onto a text and onto a suffix of it keeps the suffix relation |
| BashOutput.PushLineJoins | src/tools.rs:784-787 | pushing onto the join of the kept lines is the join after appending |
| BashOutput.OutputBuffers.constructor | src/tools.rs:730-731 | both buffers start empty, so the rolling buffer is a suffix of the full output from the start |
| BashOutput.AppendKeepsBuffers | src/tools.rs:783-797 | appending a line keeps the invariant: the full output stays the join of the kept lines, and the rolling buffer, cut back to the cap, stays a suffix of it within the cap |
| BashOutput.OutputBuffers.AppendOutput | src/tools.rs:783-797 | `full` is the pushed line appended (the `'\n'`-join of the appended lines, leading empty lines leaving no trace); `rolling` is the pushed line, cut from the end to the cap when over it; `rolling` stays a byte suffix of `full` within `BASH_ROLLING_BUFFER_BYTES` |
| BashOutput.EvictProperties | src/tools.rs:2115-2119 | eviction keeps a non-empty suffix ending in the newest chunk; it fits unless one chunk is left; it stops as soon as the rest fits |
| BashOutput.ChunkWindow.constructor | src/tools.rs:2078-2084 | no chunks and no bytes counted yet, under the given cap |
| BashOutput.ChunkWindow.ProcessChunk | src/tools.rs:2086-2119 | the total byte count grows by the chunk; the chunks are the evicted window after pushing; `chunks_bytes` is the sum of the kept chunks' lengths |
| BashOutput.BuildBashOutput | src/tools.rs:799-902 | the tail truncation with the default limits; `"(no output)"` for empty content; `is_error` exactly on a time-out or a non-zero exit code; a notice exactly when truncated and the full output was saved; the status message exactly on error, with the time-out taking precedence |
| BashOutput.SplitCount | src/tools.rs:850-854 | no more lines than bytes plus one, so the `usize` arithmetic of the start line never saturates |
| BashOutput.NoticeRangeIsShown | src/tools.rs:850-883 | the `start_line..=end_line` range a notice announces is exactly the lines of the output that are shown |
| BashOutput.PushLine | src/tools.rs:784-791 | one line appended to an output text, after a `'\n'` unless the text is still empty |
| BashOutput.Evict | src/tools.rs:2114-2119 | the chunk window after eviction: the oldest chunk is dropped while the total is over `maxBytes` and more than one chunk is left |
| BashOutput.IsError | src/tools.rs:840 | a run is an error when it timed out or exited with a code other than 0; no exit code and no timeout is not an error |
| BashOutput.StartLine | src/tools.rs:851-853 | the number of the first line shown: total lines minus shown lines, saturating at 0, plus 1, saturating at `usize::MAX` |
| Normalize.NormalChar | src/tools.rs:303-330 | what one character becomes is plain (nothing left to normalise), and plain characters are unchanged |
| Normalize.NormalizeForMatchPointwise | src/tools.rs:326-330 | the normalisation keeps the length and maps each character on its own |
| Normalize.NormalizeForMatchIdempotent | src/tools.rs:326-330 | normalising twice is normalising once |
| Normalize.NormalizeLineEnd | src/tools.rs:332-334 | a normalised line does not end in white space |
| Normalize.NormalizeLineIdempotent | src/tools.rs:332-334 | normalising a line twice is normalising it once |
| Normalize.NormalizeLineMatch | src/tools.rs:332-334 | two lines match loosely exactly when, without trailing white space, they agree character by character after mapping |
| Normalize.NormalizeUnicodeSpaces | src/tools.rs:308-312 | every special Unicode space (no-break, the U+2000 to U+200A spaces, narrow no-break, medium mathematical, ideographic) replaced by `' '`, one character for one |
| Normalize.NormalizeQuotes | src/tools.rs:314-317 | U+2018 and U+2019 replaced by `'`, U+201C to U+201F by `"`, one character for one |
| Normalize.NormalizeDashes | src/tools.rs:319-324 | U+2010 to U+2015 and U+2212 replaced by `-`, one character for one |
| Normalize.NormalizeForMatch | src/tools.rs:326-330 | spaces, then quotes, then dashes normalised, in that order |
| Normalize.NormalizeLineForMatch | src/tools.rs:332-334 | the line with trailing whitespace trimmed, then normalised for matching |
| EditMatch.Offsets | src/tools.rs:1011-1020 | one offset per line plus one, starting at 0 |
| EditMatch.OffsetsStep | src/tools.rs:1015-1016 | consecutive offsets are one line plus its `'\n'` apart |
| EditMatch.LineOffsets | src/tools.rs:1011-1020 | the push loop computes `Offsets` |
| EditMatch.OffsetIsJoinLength | src/tools.rs:1011-1020 | offset `i` is the length of the first `i` lines joined, plus one |
| EditMatch.TextFromOffset | src/tools.rs:1098-1099 | the text from offset `i` on is lines `i..` joined |
| EditMatch.OffsetsEnd | src/tools.rs:1018 | the last offset is one past the end of the text |
| EditMatch.BlockRange | src/tools.rs:1098-1100 | the `k` lines from line `i` occupy `offsets[i] .. offsets[i+k] - 1` |
| EditMatch.LineNumberAtOffset | src/tools.rs:1101 | line `i` starts at line number `i + 1` |
| EditMatch.LineNumberWithinLine | src/tools.rs:1050 | every position on line `i`, up to its newline, has line number `i + 1`: the intended `first_line` |
| EditMatch.FirstLineAsWrittenOffByOne | src/tools.rs:1050 | `content[..start].lines().count() + 1` is the true line number, plus one exactly when the match starts mid-line |
| EditMatch.MatchesFrom | src/tools.rs:1025 | the `match_indices` positions from `from` on lie within the text |
| EditMatch.MatchesFromSound | src/tools.rs:1025 | every listed position is an occurrence |
| EditMatch.MatchesFromEmpty | src/tools.rs:1025-1032 | there are no matches exactly when the text does not occur |
| EditMatch.MatchesFromDisjoint | src/tools.rs:1025 | matches come in increasing order without overlap |
| EditMatch.FindExactMatch | src/tools.rs:1022-1052 | the counting loop computes `ExactMatchSpec` (with the corrected line number) |
| EditMatch.ExactMatchProperties | src/tools.rs:1022-1052 | success only on a unique occurrence, with `content[start..end] == old`; "not found" exactly when the old text does not occur; otherwise "N occurrences" with N at least 2 |
| EditMatch.ExactFirstLineCounterexample | src/tools.rs:1050 | for `"b"` in `"ab"` the match starts on line 1 but the source reports 2 |
| EditMatch.WindowsFrom | src/tools.rs:1076-1087 | the matching windows from `from` on |
| EditMatch.WindowsFromSound | src/tools.rs:1077 | every listed window matches |
| EditMatch.WindowsFromEmpty | src/tools.rs:1076-1087 | no window is listed exactly when none matches |
| EditMatch.FuzzyWindows | src/tools.rs:1065-1088 | every matching window of old lines fits in the content lines |
| EditMatch.WindowsFromStep | src/tools.rs:1076-1087 | one scan step: the window at `i`, then the rest |
| EditMatch.ScanWindows | src/tools.rs:1074-1096 | the scan errs with "multiple" exactly when two windows match, and otherwise returns the only one, if any |
| EditMatch.MatchBlock | src/tools.rs:1098-1102 | the positions of the matched block, corrected to end before the following newline |
| EditMatch.FindFuzzyMatch | src/tools.rs:1054-1103 | the method computes `FuzzyMatchSpec` |
| EditMatch.NormalizedSlice | src/tools.rs:1065-1077 | normalising a block of lines is taking that block of the normalised lines |
| EditMatch.FuzzyMatchProperties | src/tools.rs:1054-1103 | success exactly when one window of whole lines equals the old lines after normalisation; the range covers exactly that block and starts on its line; two windows give "multiple", none "not found" |
| EditMatch.FuzzyErrors | src/tools.rs:1074-1096 | "not found" exactly when no window matches, "multiple" exactly when two or more do; the empty-old-text error never arises |
| EditMatch.FuzzyOkWindow | src/tools.rs:1090-1102 | a success spans its one window, starting on its line, and that window's lines normalise to the old lines |
| EditMatch.BlockMatchRange | src/tools.rs:1098-1101 | the corrected match spans exactly its lines |
| EditMatch.FuzzyOkRange | src/tools.rs:1090-1102 | a successful fuzzy match spans its one matching block |
| EditMatch.FuzzyOkIsBlock | src/tools.rs:1090-1102 | a successful fuzzy match is the block of its one window |
| EditMatch.BlockEndOffset | src/tools.rs:1100 | `offsets[i+k]` is the newline after the block, or one past the end of the text when the block ends on the last line |
| EditMatch.FuzzyEndAsWrittenOverruns | src/tools.rs:1100 | the source's end is one past the corrected one, and past the end of the text when the block ends on the last line |
| EditMatch.CurlyApostropheLines | src/tools.rs:314-317 | a curly and a straight apostrophe normalise alike, but neither text contains the other |
| EditMatch.CurlyWindows | src/tools.rs:1065-1088 | after normalisation the one line of each text agrees |
| EditMatch.FuzzyEndCounterexample | src/tools.rs:1100 | `"x’y"` edited with `"x'y"`: the exact search fails, the corrected match is `0..3`, and the source's end is 4, past the 3-character text (6 past 5 bytes in the source's byte positions) |
| EditMatch.LineNumberAt | src/tools.rs:1050 | the 1-based line a position lies on: the newlines before it, plus one (the corrected `first_line`) |
| EditMatch.FirstLineAsWritten | src/tools.rs:1050 | `content[..start].lines().count() + 1`, the line number `find_exact_match` reports as written |
| EditMatch.MatchIndices | src/tools.rs:1025-1032 | the start of every non-overlapping occurrence of the pattern, scanning left to right as `match_indices` does |
| EditMatch.ExactMatchSpec | src/tools.rs:1022-1052 | no occurrence is `NotFound`, more than one is `Occurrences(count)`, exactly one is the match from its start to start plus the pattern's length, on the line it starts on |
| EditMatch.FuzzyMatchSpec | src/tools.rs:1054-1103 | the line windows whose normalised lines equal the normalised old lines: none is `NotFound`, several is `MultipleFuzzy`, one is the block of those lines, ending before the newline after it (the corrected end) |
| EditMatch.BlockMatch | src/tools.rs:1098-1101 | the match of `k` lines from line `i`: from the offset of line `i` to one before the offset of line `i + k`, reported on line `i + 1` |
| EditMatch.FuzzyEndAsWritten | src/tools.rs:1100 | `offsets[start_line + old_lines.len()]`, the end `find_fuzzy_match` returns as written |
| EditMatch.LinesOf | src/tools.rs:1055-1056 | `content.split('\n')`: the pieces between newlines, a final empty piece included |
| EditMatch.NormalizedLines | src/tools.rs:1065-1072 | each line normalised for matching, in order |
| Edit.StripBom | src/tools.rs:995-1001 | the flag is set exactly when the text starts with U+FEFF, and the mark plus the rest is the text |
| Edit.LfToCrlfCons | src/tools.rs:1194-1195 | the conversion works character by character |
| Edit.LfToCrlfHead | src/tools.rs:1194-1195 | a converted text never starts with `'\n'` |
| Edit.LfToCrlfIsCrlfOnly | src/tools.rs:1194-1195 | after conversion every `'\n'` follows a `'\r'` |
| Edit.LfToCrlfRoundTrip | src/tools.rs:1195 | CRLF-to-LF undoes LF-to-CRLF |
| Edit.CrlfRestore | src/tools.rs:1194-1195 | a text whose newlines are all CRLF comes back unchanged from normalising and restoring |
| Edit.FindMatch | src/tools.rs:1176-1177 | the exact result when it succeeds, otherwise the fuzzy result, ambiguity included |
| Edit.EditRefusals | src/tools.rs:1168-1177 | texts identical after CRLF normalisation are refused before any search; otherwise the edit fails only when both searches fail, with the fuzzy error |
| Edit.EditWrites | src/tools.rs:1161-1201 | with the fuzzy end corrected as under Findings, the written text is prefix + new + suffix of the LF content, CRLF-restored when the file had a CRLF, with the mark exactly when the file had one; on the exact path the replaced range was the old text |
| Edit.FindMatchAsWritten | src/tools.rs:1176-1180 | the match the source splices: it fails exactly when the corrected search fails and starts at the same place; an exact match ends where the corrected one does, a loose match one position later |
| Edit.FuzzySpliceAsWritten | src/tools.rs:1182-1184 | when only the loose search matches, the source panics exactly when the block ends on the last line; otherwise it splices past the newline after the block, which the corrected edit keeps |
| Edit.CurlyEditPanics | src/tools.rs:1182-1184 | replacing `"x'y"` by `"z"` in the file `"x’y"`: the source panics, the corrected edit writes `"z"` |
| Edit.MidBlockEditJoinsNextLine | src/tools.rs:1182-1184 | replacing `"ab"` by `"z"` in `"ab\nab x"`: the source writes `"zab x"`, the corrected edit `"z\nab x"` |
| Edit.NoCrIsLf | src/tools.rs:1163-1164 | a text without `'\r'` has LF endings and is left alone by the CRLF normalisation |
| Edit.RestoreUndoesNormalisation | src/tools.rs:1194-1201 | restoring the normalised text of a CRLF-only file gives the file back |
| Edit.AmbiguousExactExample | src/tools.rs:1039-1045 | `"ab"` in `"ab\nab x"` gives "2 occurrences" |
| Edit.AmbiguousLinesSplit | src/tools.rs:1055-1056 | the lines of the two example texts |
| Edit.AmbiguousLinesNormal | src/tools.rs:1065-1072 | how the example lines normalise |
| Edit.AmbiguousLines | src/tools.rs:1055-1072 | the example's lines and their normal forms |
| Edit.AmbiguousWindows | src/tools.rs:1076-1087 | only the first example line matches |
| Edit.FuzzyAmbiguousExample | src/tools.rs:1054-1103 | the fuzzy search finds the one whole line `"ab"` |
| Edit.AmbiguousExactFallsBackToFuzzy | src/tools.rs:1176-1177 | an ambiguous exact search is not refused: the fuzzy search picks the whole matching line |
| Edit.DetectLineEnding | src/tools.rs:1003-1009 | `"\r\n"` when the text holds a CRLF anywhere, `"\n"` otherwise |
| Edit.CrlfToLf | src/tools.rs:1164-1166 | every `"\r\n"` replaced by `"\n"`, scanning left to right |
| Edit.LfToCrlf | src/tools.rs:1194-1195 | every `"\n"` replaced by `"\r\n"` |
| Edit.Splice | src/tools.rs:1182-1184 | the text before the match, the new text, then the text after the match |
| Edit.Restore | src/tools.rs:1194-1201 | the LF text as written to disk: CRLF put back when CRLF was detected, then the byte-order mark put back when there was one |
| Edit.EditText | src/tools.rs:1161-1201 | the corrected edit: strip the mark, detect the line ending, normalise CRLF; identical texts are refused, no unique match is `NoMatch`, otherwise the spliced text restored, its diff and the first changed line |
| Edit.EditTextAsWritten | src/tools.rs:1161-1201 | the edit with the source's match: the same steps, but a match ending past the text is the slice panic of 1184 |
| Diff.SkipOld | src/tools.rs:959-963 | the first old position from `i` that is past the end or equals the current new line |
| Diff.SkipNew | src/tools.rs:964-968 | the first new position from `j` that is past the end or equals the current old line |
| Diff.WriteLines | src/tools.rs:983-988 | each line appended as `mark + line + "\n"` |
| Diff.SkipDiffering | src/tools.rs:958-968 | the two inner loops compute `SkipOld` and then `SkipNew` |
| Diff.WriteHunk | src/tools.rs:970-988 | the `@@` header, the `-` lines, then the `+` lines |
| Diff.DiffStep | src/tools.rs:949-989 | one outer turn keeps "written + still to write" fixed and strictly advances `i + j` |
| Diff.ComputeDiff | src/tools.rs:939-993 | the method computes the header plus the rendered walk |
| Diff.DiffFromCovers | src/tools.rs:949-990 | from any cursors, every remaining old line and new line is accounted for once, in order, and each hunk is non-empty and placed at the cursors |
| Diff.KeepCovers | src/tools.rs:950-952 | an equal pair extends what the rest covers |
| Diff.HunkAdvances | src/tools.rs:953-968 | at a difference the walk moves past at least one line |
| Diff.PlacedHunk | src/tools.rs:970-988 | a hunk accounts for its lines before the rest |
| Diff.HunkCovers | src/tools.rs:953-988 | a hunk extends what the rest covers and holds at least one line |
| Diff.ComputeDiffCovers | src/tools.rs:939-993 | the whole old and new texts are accounted for |
| Diff.RenderEmptyIffNoHunk | src/tools.rs:970-988 | a walk renders as nothing exactly when it has no hunk |
| Diff.KeepsOnlySameSides | src/tools.rs:950-952 | a walk without hunks has the same lines on both sides |
| Diff.DiffFromSameLines | src/tools.rs:949-952 | equal lines walk in step |
| Diff.DiffHeaderOnlyIffSameLines | src/tools.rs:939-993 | the diff is only the `---`/`+++` header exactly when both texts have the same `lines()` |
| Diff.DiffFrom | src/tools.rs:949-989 | the walk from cursors `i` and `j`: equal lines are kept; otherwise one hunk: old lines are skipped up to the first one equal to the current new line, then new lines up to the first one equal to the old line reached |
| Diff.DiffText | src/tools.rs:939-993 | the `--- a/` and `+++ b/` header followed by each hunk's `@@` line and its `-` and `+` lines, over the `lines()` of both texts |
| Diff.Header | src/tools.rs:943 | `--- a/{path}` and `+++ b/{path}`, each ending in a newline |
| Diff.HunkHeader | src/tools.rs:974-981 | `@@ -{old start + 1},{old count} +{new start + 1},{new count} @@` and a newline |
| Diff.MarkedLines | src/tools.rs:983-988 | each line written as the mark, the line and a newline, in order |
| Diff.Render | src/tools.rs:970-988 | the hunks' texts in walk order: its header, its removed lines marked `-`, then its added lines marked `+`; kept lines print nothing |
| Paths.JoinPath | src/tools.rs:358 | `PathBuf::join`: an absolute path replaces the base; otherwise the base is a prefix and the path a suffix, and the result is absolute exactly when the base is |
| Paths.NormalParts | src/tools.rs:355-358 | the real names among the pieces: none empty, none `.` |
| Paths.NormalPartsAppend | src/tools.rs:355-358 | the names of a concatenation are the names of each part |
| Paths.JoinPathComponents | src/tools.rs:358 | a relative path joined to a base adds its names to the base's components |
| Paths.NormalizeSpacesFixes | src/tools.rs:308-312 | no special space is left, and a path without one is unchanged |
| Paths.ExpandPathHasNoSpecialSpaces | src/tools.rs:336-349 | an expanded path holds no special space beyond the home directory's |
| Paths.ExpandPathIdempotent | src/tools.rs:336-349 | expanding twice is expanding once (home absolute or absent) |
| Paths.ResolveToCwd | src/tools.rs:352-360 | against an absolute working directory the result is absolute |
| Paths.ResolveToCwdComponents | src/tools.rs:352-360 | a path that does not expand to an absolute one resolves to the working directory's components followed by its names |
| Paths.VariantsOfPlainPath | src/tools.rs:362-372 | without a space or an apostrophe the screenshot and curly variants are the path itself |
| Paths.FirstExistingSearch | src/tools.rs:396-416 | the ordered first-match search returns the first candidate that differs and exists, else the resolved path |
| Paths.ResolveReadPathChoice | src/tools.rs:386-417 | the result is the resolved path or an existing variant; an existing resolved path wins; a path with nothing to vary is never swapped |
| Paths.FileName | src/tools.rs:2198-2201 | `file_name()` is a `'/'`-free name other than `.` and `..` |
| Paths.LastIndexOf | src/tools.rs:426-427 | the last occurrence of a character, or none |
| Paths.NameExtensionIffStemDot | src/tools.rs:427 | a name has extension `e` exactly when it is a non-empty stem, `.`, and a dot-free `e` |
| Paths.ImageTablesAgree | src/tools.rs:426-447 | `is_image_file` exactly when `image_mime_type` is not `application/octet-stream`, and then it is an `image/` type |
| Paths.ExtensionTablesAgree | src/tools.rs:428-446 | the same on the lowercased extension |
| Paths.AsciiLoweringSuffices | src/tools.rs:428-430 | every image extension is lowercase ASCII without `k`, and an extension holding a non-ASCII character matches neither table after lowering, so ASCII lowering decides the tables as Unicode `to_lowercase` does |
| Paths.ImageNameExamples | src/tools.rs:426-447 | upper-case extensions are recognised; only the last `.` counts |
| Paths.FormatGrepPathFallback | src/tools.rs:2189-2203 | outside the directory case the printed path is the file name, free of `'/'` |
| Paths.FormatGrepPathRelative | src/tools.rs:2189-2197 | a file strictly inside the searched directory prints as its remaining names joined by `'/'`, which appended to the directory give the file back |
| Paths.ExpandPath | src/tools.rs:336-349 | special spaces made plain; `~` alone is the home directory, `~/rest` is `rest` joined onto it, anything else is left as is |
| Paths.ScreenshotVariant | src/tools.rs:362-367 | `" AM."` and `" PM."` with the space replaced by a narrow no-break space |
| Paths.CurlyQuoteVariant | src/tools.rs:369-372 | every `'` replaced by U+2019 |
| Paths.FirstExisting | src/tools.rs:396-416 | the first candidate that differs from the resolved path and exists, else the resolved path |
| Paths.ReadCandidates | src/tools.rs:396-416 | the fallbacks in the order they are tried: the screenshot variant, the NFD form, the curly-quote variant and the curly-quote variant of the NFD form |
| Paths.ResolveReadPath | src/tools.rs:386-417 | the path resolved against the working directory if it exists, else the first existing fallback that differs from it, else the resolved path |
| Paths.IsImageFile | src/tools.rs:426-432 | the lowercased extension is jpg, jpeg, png, gif, webp, bmp, ico, tiff or tif |
| Paths.ImageMimeType | src/tools.rs:435-448 | the `image/` type of the lowercased extension, or `application/octet-stream` |
| Paths.FormatGrepPath | src/tools.rs:2189-2203 | inside a searched directory, the path relative to it with backslashes turned into `/`, unless that is empty or starts with `..`; otherwise the file name, or empty text |
| Paths.HomeOr | src/tools.rs:339-341 | the home directory, or `~` when there is none |
| Paths.NameExtension | src/tools.rs:427 | `Path::extension` of a file name: the text after its last `.`, unless there is none, the only `.` leads the name, or the name is `..` |
| Paths.Extension | src/tools.rs:427 | the extension of the path's file name, none when it has no file name |
| Paths.MimeForExtension | src/tools.rs:437-446 | the `image/` type of a lowercased image extension (`ico` is `image/x-icon`), otherwise `application/octet-stream` |
| ReadTool.NumberLines | src/tools.rs:450-457 | one numbered line per line, numbered from the start line |
| ReadTool.NumberedLineReadsBack | src/tools.rs:454 | a numbered line reads back as its number, a tab and the line |
| ReadTool.RustLinesFree | src/tools.rs:452 | no line of `lines()` holds a `'\n'` |
| ReadTool.AddLineNumbersSplits | src/tools.rs:450-457 | the numbered text splits into exactly one numbered line per content line; no lines gives no text |
| ReadTool.SelectWindow | src/tools.rs:620-624 | offset at least 1 and both ends within the line count |
| ReadTool.SelectWindowExact | src/tools.rs:573-624 | the window is exactly the existing lines from `offset - 1` for `limit` lines, with the defaults 1 and `DEFAULT_MAX_LINES` and an offset of 0 read as 1 |
| ReadTool.SelectedLinesNumbering | src/tools.rs:620-625 | the `i`-th selected line is line `offset + i` of the file; there are at most `limit` |
| ReadTool.AddLineNumbers | src/tools.rs:450-457 | each of the text's `lines()` written as its number from `startLine`, a tab and the line, joined by `'\n'` |
| ReadTool.SelectedLines | src/tools.rs:620-625 | the `lines()` of the content from the window's start up to its end |
| GrepTool.TruncateLine | src/tools.rs:1373-1387 | cut exactly when longer than `max_chars`; then the first `max_chars` characters plus the marker; otherwise the line itself |
| GrepTool.TruncateLineBound | src/tools.rs:1373-1387 | the text is at most `max_chars` plus the marker long, and starts with the kept characters |
| GrepTool.ReplaceCharRemoves | src/tools.rs:2208 | replacing every `'\r'` leaves none |
| GrepTool.FileLinesClean | src/tools.rs:2205-2212 | a file has at least one cached line and none holds `'\r'` |
| GrepTool.RemoveCr | src/tools.rs:1603 | no `'\r'` is left, and a line without one is unchanged |
| GrepTool.ContextWindowExact | src/tools.rs:1590-1599 | with context, the window is exactly the existing lines within `context` of the match; without, the matching line alone |
| GrepTool.AnyCutExists | src/tools.rs:1605-1607 | the running flag holds exactly when some line of the window was cut |
| GrepTool.EmitMatch | src/tools.rs:1601-1614 | the loop prints the window's lines in order and sets the flag exactly when one was cut |
| GrepTool.EmitRange | src/tools.rs:1601-1614 | the `for current in start..=end` loop: every line of the window printed in order, nothing for an empty window, and the flag set exactly when some line was cut |
| GrepTool.EmitLine | src/tools.rs:1602-1613 | one turn of the loop: the line's printed form, and whether it was cut |
| GrepTool.MatchBlockIsRange | src/tools.rs:1601-1614 | the lines printed one by one over the window are the match's block |
| GrepTool.PrintedRangePrefix | src/tools.rs:1601-1614 | the lines printed so far are the first lines of the block |
| GrepTool.MatchBlockMarks | src/tools.rs:1601-1614 | one printed line per window line, each starting with the path and ending with its text, marked as the match exactly on the matching line |
| GrepTool.FormatLineMarks | src/tools.rs:1609-1613 | `path:N: text` for the match, `path-N- text` otherwise |
| GrepTool.FileLines | src/tools.rs:2205-2212 | the file's text with CRLF and then lone CR made LF, split on `'\n'` |
| GrepTool.ContextWindow | src/tools.rs:1590-1599 | with context `c`, the lines from `max(line - c, 1)` (saturating at 0) to `min(line + c, line count)`; without context, the matching line alone |
| GrepTool.FormatLine | src/tools.rs:1609-1613 | `path:N: text` for the matching line, `path-N- text` for a context line |
| GrepTool.MatchBlock | src/tools.rs:1601-1614 | the printed lines of one match: every line of its context window, in order, without its CRs and cut to the display width |
| GrepTool.PrintedLine | src/tools.rs:1602-1613 | line `current` without its CRs, cut to the display width, and formatted as a match or a context line |
| Listing.CollectEntries | src/tools.rs:1978-1998 | the entry loop computes `LsFrom` |
| Listing.InsertByName | src/tools.rs:1976 | insertion adds exactly the entry |
| Listing.SortByName | src/tools.rs:1976 | the sort is a permutation |
| Listing.InsertByNameSorted | src/tools.rs:1976 | insertion keeps the entries sorted by lowered name |
| Listing.SortByNameSorted | src/tools.rs:1976 | the sort orders the entries by lowered name and keeps exactly the same entries |
| Listing.ListDirectory | src/tools.rs:1976-1998 | sorting then collecting gives `LsFrom` over the sorted entries, and the names shown are the first of the sorted listing |
| Listing.LsFromStep | src/tools.rs:1981-1997 | one turn moves what entry `i` contributes from the rest to the results |
| Listing.LsBounds | src/tools.rs:1978-1998 | at most `limit` results; with the flag, exactly `limit`, the first of the unlimited listing; without it, the whole listing; a longer listing always sets the flag |
| Listing.LsReadableFlag | src/tools.rs:1981-1985 | when every entry can be stat'ed, the flag is set exactly when entries remain past the limit |
| Listing.LsUnreadableTail | src/tools.rs:1981-1991 | an unreadable entry past the last shown one still sets the flag |
| Listing.LsZeroLimit | src/tools.rs:1981-2003 | limit 0 lists nothing, sets the flag and prints `(empty directory)` |
| Listing.TrimEndChar | src/tools.rs:1813 | `trim_end_matches`: a prefix not ending in the character |
| Listing.TrimStartSeps | src/tools.rs:1821 | a suffix not starting with a separator |
| Listing.FindEntriesSnoc | src/tools.rs:1812-1832 | each line adds its relativised path after those before it |
| Listing.RelativiseAll | src/tools.rs:1811-1832 | the loop over `stdout.lines()` computes `FindEntries` |
| Listing.RelativiseUnderSearchPath | src/tools.rs:1818-1825 | `<search>/<name>` comes out as `<name>`, from which joining gives the line back |
| Chars.TrimOfSolid | src/tools.rs:1813 | a text with non-blank ends is its own trim |
| Listing.RelativiseKeepsDirectoryMark | src/tools.rs:1818-1829 | a line with a trailing separator keeps a trailing `'/'` |
| Listing.RelativiseLineMark | src/tools.rs:1818-1829 | a trimmed line ending in a separator comes out ending in `'/'`, made relative or not |
| Listing.LimitFlagsDiffer | src/tools.rs:1843 | with exactly `limit` readable files ls does not flag its limit while find does |
| Listing.LsFrom | src/tools.rs:1978-1998 | the ls loop with `room` places left: each entry's listed name in order; an entry met with no room left sets the limit flag and stops the loop |
| Listing.LsText | src/tools.rs:2000-2008 | `(empty directory)` for no names, otherwise the names one per line |
| Listing.Relativise | src/tools.rs:1812-1829 | one line of `fd` output: CRs trimmed off the end and whitespace off both ends; a blank line is skipped, any other made relative |
| Listing.RelativiseLine | src/tools.rs:1818-1829 | an absolute line under the search path loses that prefix and its leading separators; a trailing separator comes back as `/` |
| Listing.FindEntries | src/tools.rs:1811-1832 | the relativised paths of the non-blank lines, in `fd`'s order |
| Listing.FindLimitReached | src/tools.rs:1843 | the limit is flagged once there are at least as many paths as the limit |
| Listing.Listed | src/tools.rs:1986-1996 | what one entry adds: `name/` for a directory, `name` for a file, nothing when it cannot be stat'ed |
| Listing.NameLe | src/tools.rs:1976 | the lowered names compare as not greater under `String`'s order |
| ProcessTree.CollectProcessTree | src/tools.rs:2176-2187 | the recursive walk appends the pre-order listing below `pid` to `out` |
| ProcessTree.PreorderParentsFirst | src/tools.rs:2176-2187 | the listing starts at the root and lists every other process after its parent, so the reverse kills children first |
| ProcessTree.PreorderClosed | src/tools.rs:2182-2185 | every child of a listed process is listed |
| ProcessTree.ForestHangsBelow | src/tools.rs:2183-2185 | the listings below the first children hang below the parent |
| ProcessTree.ForestContainsRoots | src/tools.rs:2183-2185 | every child is listed |
| ProcessTree.ForestClosed | src/tools.rs:2183-2185 | a forest's listing contains the children of each listed process |
| ProcessTree.HangsBelowAppend | src/tools.rs:2183-2185 | a child's listing after the listing so far still hangs below the root |
| ProcessTree.RootThenHanging | src/tools.rs:2181-2185 | a root followed by a listing that hangs below it lists parents first |
| ProcessTree.Preorder | src/tools.rs:2176-2187 | the pre-order listing of the tree below a pid: the pid, then the trees below each of its children in order |
| ProcessTree.Forest | src/tools.rs:2182-2186 | the pre-order listings of the trees below each child, one after another in the children's order |
| Registry.KindOf | src/tools.rs:474-482 | a known name selects the tool of that name; an unknown name names no tool |
| Registry.ToolRegistry.constructor | src/tools.rs:470-487 | the tools are those of the known enabled names, in order |
| Registry.ToolRegistry.Get | src/tools.rs:495-500 | the first registered tool with that name |
| Registry.FirstNamedFinds | src/tools.rs:495-500 | a tool is found exactly when one of that name is registered, and it has that name |
| Registry.RecognisedExactly | src/tools.rs:470-487 | a tool is registered exactly when its name is enabled |
| Registry.RegistryLookup | src/tools.rs:470-500 | lookup finds a tool exactly when the name is a known tool name among the enabled ones |
| Registry.Recognised | src/tools.rs:470-487 | one tool per enabled name that names a known tool, in the order of the names; unknown names are skipped |
| Registry.FirstNamed | src/tools.rs:495-500 | the first tool whose name is the one asked for, or none |
| Conformance.Facts | tests/ext_conformance_artifacts.rs:226-322 | a line tag is among a line's facts exactly when the trimmed line shows its pattern |
| Conformance.LineTag | tests/ext_conformance_artifacts.rs:230-313 | the `k`-th test of the loop body records a line tag |
| Conformance.FactsOfAt | tests/ext_conformance_artifacts.rs:226-227 | the facts of line `i` are read off that line alone |
| Conformance.ScanLinesSnoc | tests/ext_conformance_artifacts.rs:226-323 | scanning one more line is one more loop turn |
| Conformance.RecordTest | tests/ext_conformance_artifacts.rs:230-313 | one pattern test: while its flag is clear a showing line raises it and pushes the tag |
| Conformance.ScanLine | tests/ext_conformance_artifacts.rs:227-322 | the loop body: the nine tests in order, then the export checks |
| Conformance.ClassifyTsFile | tests/ext_conformance_artifacts.rs:197-380 | the method computes `ClassifySpec` |
| Conformance.ScanRecordsDetected | tests/ext_conformance_artifacts.rs:226-323 | each line tag is recorded once, exactly when some line shows it; each flag is set exactly when its tag is recorded; the export flags say whether some line is an export (a named one) |
| Conformance.ScanTags | tests/ext_conformance_artifacts.rs:230-313 | the recorded tags are exactly the shown line tags, without repetition |
| Conformance.ScanExports | tests/ext_conformance_artifacts.rs:315-322 | the export flags hold exactly when some line is an export (a named one) |
| Conformance.StepExports | tests/ext_conformance_artifacts.rs:315-322 | one turn sets the export flags exactly on an export (a named one) |
| Conformance.MarkUpToRecords | tests/ext_conformance_artifacts.rs:230-313 | the first `k` tests keep the state consistent and record exactly the newly shown tags among them |
| Conformance.StepRecords | tests/ext_conformance_artifacts.rs:230-313 | one turn records exactly the newly shown line tags |
| Conformance.ClassifyNoDuplicates | tests/ext_conformance_artifacts.rs:230-313 | `patterns_found` never repeats a tag |
| Conformance.DecideNoDuplicates | tests/ext_conformance_artifacts.rs:355-358 | `named_export_absent` is added at most once, after distinct line tags |
| Conformance.DecisionPriority | tests/ext_conformance_artifacts.rs:325-379 | outside test files: entry point exactly with a default export, high exactly with the API, a pi call or a re-export; sub-module exactly with, and no default, a named export or API plus pi call, `named_export_absent` exactly without a named export; non-extension exactly with no export at all; unknown/low otherwise |
| Conformance.LastSegmentSuffix | tests/ext_conformance_artifacts.rs:198 | for a suffix without `'/'`, the last segment ends with it exactly when the path does |
| Conformance.TestFileRule | tests/ext_conformance_artifacts.rs:198-211 | a path ending in `.test.ts`, `.spec.ts` or `.bench.ts` is exactly a high-confidence non-extension tagged only `test_file`, whatever the content |
| Conformance.DefaultPatternsSayDefault | tests/ext_conformance_artifacts.rs:230-270 | every default-export pattern spells `default` |
| Conformance.DefaultFunctionWithApi | tests/ext_conformance_artifacts.rs:621-639 | a default function export with an `ExtensionAPI` reference is a high-confidence entry point recording both |
| Conformance.ReexportIsEntryPoint | tests/ext_conformance_artifacts.rs:642-649 | a default re-export makes a high-confidence entry point |
| Conformance.NamedExportsOnlyIsSubModule | tests/ext_conformance_artifacts.rs:652-657 | a file that exports and never says `default` is a sub-module |
| Conformance.NoExportIsNonExtension | tests/ext_conformance_artifacts.rs:660-661 | no `default`, no export and no extension API: a non-extension |
| Conformance.NoDefaultScan | tests/ext_conformance_artifacts.rs:325-328 | lines that never say `default` give no default export |
| Conformance.HexDigit | tests/ext_conformance_artifacts.rs:13 | a digit is `0-9` or `a-f` |
| Conformance.HexLower | tests/ext_conformance_artifacts.rs:10-16 | the loop computes the `{:02x}` rendering of every byte |
| Conformance.ByteHexValue | tests/ext_conformance_artifacts.rs:13 | the two digits give back the byte |
| Conformance.HexLayout | tests/ext_conformance_artifacts.rs:10-16 | exactly `2n` lowercase hex digits, byte `i` at positions `2i` and `2i+1` |
| Conformance.CleanEntry | tests/ext_conformance_artifacts.rs:408-415 | one leading `./` dropped; prefixed with `pkg_rel/` unless `pkg_rel` is empty |
| Conformance.CleanEntryKeepsName | tests/ext_conformance_artifacts.rs:409 | the entry less its `./` ends the result, and only one `./` goes |
| Conformance.Boost | tests/ext_conformance_artifacts.rs:451-463 | the boost loop computes `BoostSpec` |
| Conformance.BoostProperties | tests/ext_conformance_artifacts.rs:451-463 | path and classification never change; `package_json_declared` is added exactly when declared, at most once; confidence changes only for an entry point, to high |
| Conformance.IsTestFile | tests/ext_conformance_artifacts.rs:198-203 | the last `/` segment of the path ends in `.test.ts`, `.spec.ts` or `.bench.ts` |
| Conformance.Decide | tests/ext_conformance_artifacts.rs:325-379 | the decision after the scan: a default export with an extension API, or a default re-export, is a high entry point; any other default export a medium one; a named export or both APIs a high sub-module; no export a medium non-extension; otherwise unknown, low |
| Conformance.ClassifySpec | tests/ext_conformance_artifacts.rs:197-380 | a test file is a high non-extension with only the `test_file` pattern; any other file is decided on the scan of its `lines()` |
| Conformance.HexSpec | tests/ext_conformance_artifacts.rs:10-16 | each byte as two lowercase hex digits, in order |
| Conformance.DeclaredEntries | tests/ext_conformance_artifacts.rs:405-416 | the string values of the `pi.extensions` array, in order, each cleaned of one `./` and put under the package's directory; other values are skipped |
| Conformance.BoostSpec | tests/ext_conformance_artifacts.rs:451-463 | for each package that declares the file, `package_json_declared` is recorded once and an entry point becomes high |
| Conformance.LineShows | tests/ext_conformance_artifacts.rs:230-313 | whether a trimmed line shows the pattern of a tag: the `starts_with` and `contains` tests of that tag's `if` |
| Conformance.Step | tests/ext_conformance_artifacts.rs:227-322 | one turn of the scan loop: the nine pattern tests in order, then the export check |
| Conformance.ScanLines | tests/ext_conformance_artifacts.rs:226-323 | the scan loop over the lines: every turn in order from the state with no flag raised and no pattern recorded |
| Conformance.ByteHex | tests/ext_conformance_artifacts.rs:13 | one byte as two lowercase hex digits: its high four bits, then its low four |
| Conformance.Declares | tests/ext_conformance_artifacts.rs:452 | some declared entry is the file's path or a suffix of it |
| Conformance.BoostOnce | tests/ext_conformance_artifacts.rs:453-461 | `package_json_declared` recorded unless already there, and an entry point's confidence made high |
| Manifest.NormalizeRepoUrl | src/bin/ext_artifact_manifest.rs:360-375 | the trimmed URL, none when blank; one leading `git+` dropped; the last four characters dropped when the last path component has a `git` extension in any case |
| Manifest.ExtractRepositoryUrl | src/bin/ext_artifact_manifest.rs:348-358 | the normalised `repository` string, or the normalised `url` string of a `repository` object; any other shape gives none |
| Manifest.CommunityAuthorFromDirectory | src/bin/ext_artifact_manifest.rs:338-346 | for `community/<slug>`, the text before the first `-` of the slug, when it is not blank; otherwise none |
| Manifest.DetectSpdxFromText | src/bin/ext_artifact_manifest.rs:248-275 | on the upper-cased text: MIT, then Apache-2.0 (needs `VERSION 2.0`), then GPL by version 3, 2 or none, then LGPL by version 3, 2.1 or none; otherwise none |
| Manifest.LicenseFromCandidates | src/bin/ext_artifact_manifest.rs:221-246 | the SPDX id of the first candidate license file that reads as text, or none |
| Manifest.InferLicense | src/bin/ext_artifact_manifest.rs:202-219 | MIT for the official and community tiers; else the trimmed `license` field when it is not blank; else the license file's id; else `UNKNOWN` |
| Manifest.InferSource | src/bin/ext_artifact_manifest.rs:277-337 | the first rule that applies: official items are the pi-mono repository at the examples path of their first file; community items the pi-mono repository at `<author>/<first file>` when both are known; `npm/` ids the npm package with the package's version; then the repository URL or homepage; then an `agents-` directory's GitHub `agents` repository; then a `third-party/` id's GitHub URL; otherwise unknown |
| Manifest.ItemName | src/bin/ext_artifact_manifest.rs:168-171 | the package's `name`, else the id's last `/` segment |
| Manifest.ReadPackageJson | src/bin/ext_artifact_manifest.rs:191-200 | no `package.json` is no package; one that fails to read or parse is that error; otherwise the parsed package |
| Manifest.BuildItem | src/bin/ext_artifact_manifest.rs:160-189 | the catalog's id, directory, checksum and the retrieval date, with the name, version, license and source inferred from the artifact directory; a package read error is the item's error |
| Manifest.Collect | src/bin/ext_artifact_manifest.rs:149 | every value in order when all results are values, else the first error |
| Manifest.BuiltItems | src/bin/ext_artifact_manifest.rs:145-148 | one build result per catalog extension, in catalog order |
| Manifest.ManifestOf | src/bin/ext_artifact_manifest.rs:145-157 | the first build error, or the manifest with the fixed schema, the generation date, the artifact root and the items sorted by id |
| Manifest.BuildManifest | src/bin/ext_artifact_manifest.rs:139-158 | the manifest built from every catalog extension, or the first item's error |
| Manifest.HasGitExtension | src/bin/ext_artifact_manifest.rs:368-370 | the path's extension is `git` in any ASCII case |
| Manifest.LicenseOfText | src/bin/ext_artifact_manifest.rs:239-242 | a readable license file's SPDX id, or `SEE_LICENSE` |
| Manifest.RepositoryOrHomepage | src/bin/ext_artifact_manifest.rs:311-316 | the package's repository URL, else its homepage, else none |
| Manifest.AgentsOwner | src/bin/ext_artifact_manifest.rs:320 | the text before the first `/` |
| Manifest.NormalizeRepoUrlDropsGit | src/bin/ext_artifact_manifest.rs:360-375 | for a URL ending in a name: the trimmed URL without one `git+`, minus the four characters of a `.git` ending in any case |
| Manifest.GitNameDecides | src/bin/ext_artifact_manifest.rs:368-373 | `Path::extension` is `git` in any case exactly when the last name ends in `.git` after a non-empty stem |
| Manifest.FileNameIsLastPiece | src/bin/ext_artifact_manifest.rs:368 | a path ending in a name has that name as file name |
| Manifest.GitExtensionOfName | src/bin/ext_artifact_manifest.rs:368-370 | a name's extension is `git` in some case exactly when it ends in `.git` after a non-empty stem |
| Manifest.GitExtensionOfFileName | src/bin/ext_artifact_manifest.rs:368-370 | the extension test on a path is the `.git` ending of its file name |
| Manifest.NormalizeRepoUrlBlank | src/bin/ext_artifact_manifest.rs:361-364 | no URL exactly when the input is all white space |
| Manifest.NormalizeRepoUrlTrailingSlash | src/bin/ext_artifact_manifest.rs:368-373 | `"a.git/"` becomes `"a."`: the cut takes the slash and keeps the dot |
| Manifest.NormalizeRepoUrlSlashAfterGit | src/bin/ext_artifact_manifest.rs:368-373 | for any URL that, trimmed and without `git+`, is a path ending in a `.git` name followed by one `/`, the component test still sees the `.git` name, so the result drops `git/` and keeps the dot |
| Manifest.ExtractRepositoryUrlFromText | src/bin/ext_artifact_manifest.rs:348-358 | a string or an object's `url` string, normalised; any other shape gives none; a URL exactly when such a non-blank string exists |
| Manifest.IndexOf | src/bin/ext_artifact_manifest.rs:340 | the first occurrence, as `split_once` finds it |
| Manifest.CommunityAuthorSound | src/bin/ext_artifact_manifest.rs:338-346 | an author only from `community/<author>-<rest>` with a non-blank, `'-'`-free author; none without the prefix or the `'-'` |
| Manifest.CommunityAuthorComplete | src/bin/ext_artifact_manifest.rs:338-346 | every such directory yields its author |
| Manifest.SpdxPriority | src/bin/ext_artifact_manifest.rs:248-275 | MIT decides first; Apache needs both phrases; a GPL id exactly when the GPL is named and nothing earlier matched, VERSION 3 before VERSION 2; LGPL only when the GPL is not named, VERSION 3 before 2.1 |
| Manifest.SpdxIgnoresCase | src/bin/ext_artifact_manifest.rs:249 | the detection ignores ASCII case |
| Manifest.DetectLicenseFile | src/bin/ext_artifact_manifest.rs:221-246 | the loop over the candidates computes `LicenseFromCandidates` |
| Manifest.FirstReadableFrom | src/bin/ext_artifact_manifest.rs:231-238 | the first existing, readable candidate from a position, with none before it |
| Manifest.FirstReadableDecides | src/bin/ext_artifact_manifest.rs:231-245 | the first readable candidate decides (its SPDX id or `SEE_LICENSE`); with none readable the result is none |
| Manifest.LicenseFileIsFirstReadable | src/bin/ext_artifact_manifest.rs:221-246 | the same for the fixed candidate list |
| Manifest.LicenseOfTextIds | src/bin/ext_artifact_manifest.rs:239-242 | a readable license file gives one of the fixed ids |
| Manifest.LicenseFromCandidatesIds | src/bin/ext_artifact_manifest.rs:221-246 | the license file result, if any, is one of the fixed ids |
| Manifest.InferLicenseOrder | src/bin/ext_artifact_manifest.rs:202-219 | MIT for the pi-mono tiers, else a non-blank package license trimmed, else the file result, else `UNKNOWN` |
| Manifest.InferLicenseShape | src/bin/ext_artifact_manifest.rs:202-219 | the license is never empty nor blank-ended, and is the package's trimmed license or a fixed id |
| Manifest.InferSourcePriority | src/bin/ext_artifact_manifest.rs:277-336 | the kind follows the test order: pi-mono Git exactly for the two tiers; Npm exactly for an `npm/` id; Url for metadata or a third-party id; owner's Git for `agents-`; Unknown exactly when no clue applies |
| Manifest.NpmSourceRoundTrip | src/bin/ext_artifact_manifest.rs:302-309 | `"npm/" + package` is the id, the URL is the npm page of the package, and the version is the package version |
| Manifest.CommunitySourcePath | src/bin/ext_artifact_manifest.rs:287-299 | `community/<author>-<rest>` with a file points at `packages/coding-agent/community/<author>/<file>` |
| Manifest.AgentsSourceOwner | src/bin/ext_artifact_manifest.rs:319-325 | `agents-<owner>` or `agents-<owner>/<rest>` gives `https://github.com/<owner>/agents` |
| Manifest.ThirdPartySource | src/bin/ext_artifact_manifest.rs:327-331 | `third-party/<rest>` gives `https://github.com/<rest>` |
| Manifest.ItemNameProperties | src/bin/ext_artifact_manifest.rs:168-171 | every item has a name: the package name, else a `'/'`-free suffix of the id that is the id or follows a `'/'` |
| Manifest.FirstErr | src/bin/ext_artifact_manifest.rs:149 | the first failing result, with all before it successful |
| Manifest.CollectProperties | src/bin/ext_artifact_manifest.rs:145-149 | collecting succeeds exactly when no item fails, keeping every item in order; otherwise the first error |
| Manifest.ManifestOfProperties | src/bin/ext_artifact_manifest.rs:145-157 | from the item results: a manifest exactly when none failed, else the first error; then the schema, time and root given, one entry per result, sorted by id, a permutation of the built items |
| Chars.LexTotal | src/bin/ext_artifact_manifest.rs:150 | `String::cmp` is total |
| Chars.LexReflexive | src/bin/ext_artifact_manifest.rs:150 | every string compares at most itself |
| Chars.LexAntisymmetric | src/bin/ext_artifact_manifest.rs:150 | strings comparing both ways are equal |
| Chars.LexTransitive | src/bin/ext_artifact_manifest.rs:150 | the order is transitive |
| Manifest.InsertById | src/bin/ext_artifact_manifest.rs:150 | insertion adds exactly the item |
| Manifest.SortById | src/bin/ext_artifact_manifest.rs:150 | the sort is a permutation |
| Manifest.InsertSorted | src/bin/ext_artifact_manifest.rs:150 | insertion keeps the items sorted by id |
| Manifest.SortByIdSorted | src/bin/ext_artifact_manifest.rs:150 | the sort orders by id and keeps exactly the same items |
| Manifest.SortedPairwise | src/bin/ext_artifact_manifest.rs:150 | in sorted items every id is at most every later one |
| Manifest.BuildManifestProperties | src/bin/ext_artifact_manifest.rs:139-158 | a manifest exactly when every item builds, else the first error; then schema `pi.ext.artifact_provenance.v1`, the catalog time, the artifact root, one item per extension, sorted by id, a permutation of the built items |
| Chars.TrimEnd | src/tools.rs:333 | `trim_end` drops trailing white space and nothing else |
| Chars.TrimStart | src/bin/ext_artifact_manifest.rs:361 | `trim_start` drops leading white space and nothing else |
| Chars.TrimEmptyIffBlank | src/bin/ext_artifact_manifest.rs:209 | `trim().is_empty()` exactly when the text is all white space |
| Chars.NatToString | src/tools.rs:1609-1613 | `format!` of a line number: at least one decimal digit, no leading zero |
| Chars.NatToStringRoundTrip | src/tools.rs:1609-1613 | the digits read back as the number |
| Chars.RustLinesCount | src/tools.rs:1050 | `lines().count()` is the number of newlines, plus one for an unterminated last line |
| Chars.LastSplitPieceDecides | src/tools.rs:1050 | the last piece of a split on newlines is empty exactly when the text is empty or ends with a newline |
| Chars.Trim | src/bin/ext_artifact_manifest.rs:361 | `s.trim()`: whitespace dropped from both ends |
| Chars.RustLines | src/tools.rs:452 | `s.lines()`: the pieces between `'\n'`s without a final empty piece, each newline-terminated piece losing one `'\r'` before its `'\n'` |
| Seqs.Split | src/tools.rs:111 | `split` pieces |
| Seqs.JoinSplit | src/tools.rs:111 | joining the pieces of a split gives the text back |
| Seqs.SplitLength | src/tools.rs:111-112 | a split has one piece more than separators |
| Seqs.StripPrefix | src/bin/ext_artifact_manifest.rs:365-367 | `strip_prefix`: the rest after the prefix, else the text |

## Left out

- I/O, processes and concurrency are not modelled: file reads and writes, temporary files and renames, `tokio::select!` in the bash tool, `kill()`, the `rg`/`fd` subprocesses and their JSON events, directory walking, `metadata`. What the code decides from their results is taken as parameters: `fileExists`, the `EntryKind` of an ls entry, the `Disk` oracles of the manifest generator, and grep's cached file text. The edit tool reads its file with `String::from_utf8_lossy` (src/tools.rs:1161), so bytes that are not valid UTF-8 become U+FFFD before any matching; `Edit.EditText` starts from the decoded `text: string` and does not model that replacement.
- `format_size` and the notices that embed it use floating point. A notice is modelled as its kind and its line range only.
- NFD normalisation (`try_nfd_variant`) is a function parameter of `ResolveReadPath`.
- JSON parsing (`serde_json`) is not modelled. `package.json` arrives already parsed, as a `PackageJson` value or an error string, and the repository field as a `JsonValue`.
- Base64 image encoding, SHA-256 digests and the insta snapshots are not modelled.
- Edit positions count characters, while the source's count bytes of UTF-8. The two agree on ASCII text. `normalize_repo_url`'s `truncate(len - 4)` is likewise modelled on characters; the `.git` it removes is ASCII.
- Conformance.ClassifyTsFile: the nine `has_*` pattern flags are held as the set `raised` of tags whose flag is set. The two export flags stay booleans.
- Utf8.IsContinuation: the mask test `b & 0xC0 == 0x80` is written as the equivalent range `0x80 <= b <= 0xBF`.
- Manifest.SortById: `sort_by` is stable. The model is an insertion sort, which is also stable, but stability is not stated as a property.
- Listing.SortByName: `to_lowercase` is Unicode lowering, while the model lowers ASCII letters only. The two orders agree on ASCII names. `sort_by` is stable and so is the insertion sort, but stability is not stated as a property.
- Paths.FormatGrepPath: `strip_prefix(..).display()` prints the raw text after the prefix, so an interior `//` or `/./` survives. The model joins the remaining names with `'/'`, so for the file `dir/a//b` under `dir` it prints `a/b` where the source prints `a//b`. The paths `rg` reports hold no such pieces.
- ReadTool.SelectWindow: `start_idx + limit` at src/tools.rs:622 is an unguarded `usize` sum of a caller-given `limit`. The model's sum is unbounded, so an overflow there is not captured.
- Manifest.InferSource: the official tier's path is not given its own lemma beyond the tier case of `InferSourcePriority`; it is `packages/coding-agent/examples/extensions/` plus the first file, if any.
- The `usize` arithmetic is modelled with unbounded naturals. The source saturates at seven places:
  - src/tools.rs:235, `max_bytes.saturating_sub(byte_count)` in `truncate_tail`. `Truncation.TruncateTail` writes the clamp out. Its loop invariant keeps `byteCount <= maxBytes`, so the clamp never applies.
  - src/tools.rs:274, `bytes.len().saturating_sub(max_bytes)`. `Truncation.CutFromEnd` subtracts only in its branch where the text is longer than `maxBytes`, where the source cannot saturate either.
  - src/tools.rs:850-853, the start line of the bash notice. `BashOutput.StartLine` writes out both saturations. `BashOutput.SplitCount` shows that neither bites for outputs shorter than `usize::MAX - 1` bytes.
  - src/tools.rs:1591, grep's `line_number.saturating_sub(context_value)`. `GrepTool.ContextWindow` writes the clamp out.
  - src/tools.rs:2087, `total_bytes.saturating_add`, and src/tools.rs:2114, `chunks_bytes.saturating_add`. `BashOutput.ChunkWindow.ProcessChunk` adds without a bound, so a total past `usize::MAX` bytes is not captured.
  - src/tools.rs:2117, `chunks_bytes.saturating_sub(front.len())`. It never saturates: `BashOutput.ChunkWindow.Valid` keeps `chunksBytes == SumLens(chunks)`, which is at least the front chunk's length. The model subtracts exactly.
  - src/bin/ext_artifact_manifest.rs:372, `value.len().saturating_sub(4)`. `Manifest.NormalizeRepoUrl` writes the clamp out.
- GrepTool.ContextWindow: `line_number + context_value` at src/tools.rs:1596 is an unguarded `usize` sum of a caller-given `context`. The model's sum is unbounded, so an overflow there is not captured.
- Paths.LowerExtension: the source lowers the extension with Unicode `to_lowercase` (src/tools.rs:429 and 437). The model lowers ASCII letters only. On these tables the two agree, for two reasons. First, a character that either lowering leaves non-ASCII matches no table entry. Second, the only non-ASCII character whose lowercase is ASCII is the Kelvin sign U+212A, which lowers to `k`, and no image extension contains `k`. `Paths.AsciiLoweringSuffices` proves both halves about the tables.
- `ProcessTree.CollectProcessTree` needs the children map to be free of cycles (a ghost rank that decreases from parent to child). The source would recurse forever on a cycle, and a process table has none.

## Findings

| source | as written | input that shows it | evidently intended | confidence | as-written member | corrected member |
|---|---|---|---|---|---|---|
| src/tools.rs:1050 | `first_line = content[..start].lines().count() + 1` | content `"ab"`, old text `"b"`: the match starts on line 1 at position 1, but the count of `lines()` of `"a"` is 1, so 2 is reported | the 1-based line the match starts on, i.e. newlines before `start` plus one | not executed | EditMatch.FirstLineAsWrittenOffByOne, EditMatch.ExactFirstLineCounterexample | EditMatch.ExactMatchSpec, EditMatch.LineNumberWithinLine |
| src/tools.rs:1100, src/tools.rs:1184 | `end = offsets[start_line + old_lines.len()]`, then `content_lf[end..]` | content `"x’y"` (curly apostrophe), old text `"x'y"`: the exact search fails and the fuzzy window is line 0. The text is 5 bytes (3 characters) and `end` is 6 (4 in characters), so the slice at 1184 panics. For `"ab"` replaced by `"z"` in `"ab\nab x"` the block is mid-text, and the newline after it is lost: `"zab x"` is written | `end` just before the newline that follows the block (`offsets[i + k] - 1`) | not executed | EditMatch.FuzzyEndAsWrittenOverruns, EditMatch.FuzzyEndCounterexample, Edit.FuzzySpliceAsWritten, Edit.CurlyEditPanics, Edit.MidBlockEditJoinsNextLine | EditMatch.FuzzyMatchSpec, EditMatch.FuzzyMatchProperties, Edit.EditWrites |
