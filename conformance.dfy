/**
 * The extension-conformance scan: a TypeScript file is classified as an
 * extension entry point, a sub-module, a non-extension or unknown from a
 * single pass over its trimmed lines that records which patterns occur,
 * followed by a fixed-priority decision. Also the lowercase hex rendering
 * of digests, the cleaning of entry points declared in `package.json`, and
 * the confidence boost such a declaration gives.
 */
module Conformance {
  import opened Wrappers
  import opened Seqs
  import opened Chars
  import Utf8

  datatype Classification = EntryPoint | SubModule | NonExtension | Unknown
  datatype Confidence = High | Medium | Low

  datatype Tag =
    | ExportDefaultFunction | ExportDefaultAsyncFunction | ExportDefaultReexport
    | ExportDefaultIdentifier | ExtensionApiRef | PiRegisterCall | PiOnEvent
    | PiEventsOrSession | PiUiCall | NamedExportAbsent | TestFile | PackageJsonDeclared

  /** The text each tag is reported as. */
  function TagName(t: Tag): string
  {
    match t
    case ExportDefaultFunction => "export_default_function"
    case ExportDefaultAsyncFunction => "export_default_async_function"
    case ExportDefaultReexport => "export_default_reexport"
    case ExportDefaultIdentifier => "export_default_identifier"
    case ExtensionApiRef => "extension_api_ref"
    case PiRegisterCall => "pi_register_call"
    case PiOnEvent => "pi_on_event"
    case PiEventsOrSession => "pi_events_or_session"
    case PiUiCall => "pi_ui_call"
    case NamedExportAbsent => "named_export_absent"
    case TestFile => "test_file"
    case PackageJsonDeclared => "package_json_declared"
  }

  datatype EntryPointScan = EntryPointScan(
    path: string,
    classification: Classification,
    confidence: Confidence,
    patterns: seq<Tag>)

  // ---------------------------------------------------------------------
  // What one trimmed line shows
  // ---------------------------------------------------------------------

  predicate DefaultFunctionLine(t: string)
  {
    IsPrefix("export default function", t) || IsPrefix("export default function(", t)
  }

  predicate DefaultAsyncFunctionLine(t: string)
  {
    IsPrefix("export default async function", t) || IsPrefix("export default async function(", t)
  }

  predicate DefaultReexportLine(t: string)
  {
    Contains(t, "export { default }") || Contains(t, "export {default}") || Contains(t, "export { default,")
  }

  /** `export default <identifier>;`, but not a function, class, object or parenthesised default. */
  predicate DefaultIdentifierLine(t: string)
  {
    IsPrefix("export default ", t)
    && !IsPrefix("export default function", t)
    && !IsPrefix("export default async", t)
    && !IsPrefix("export default class", t)
    && !IsPrefix("export default {", t)
    && !IsPrefix("export default (", t)
    && t != [] && t[|t| - 1] == ';'
  }

  predicate ExtensionApiLine(t: string)
  {
    Contains(t, "ExtensionAPI") || Contains(t, "ExtensionFactory")
  }

  predicate PiRegisterLine(t: string)
  {
    Contains(t, ".registerTool(") || Contains(t, ".registerCommand(")
    || Contains(t, ".registerProvider(") || Contains(t, ".registerFlag(")
  }

  predicate PiOnLine(t: string)
  {
    Contains(t, ".on(") && Contains(t, "pi")
  }

  predicate PiEventsLine(t: string)
  {
    Contains(t, "pi.events") || Contains(t, "pi.session")
  }

  predicate PiUiLine(t: string)
  {
    Contains(t, "pi.ui.") || Contains(t, ".setHeader(") || Contains(t, ".setFooter(")
  }

  predicate ExportLine(t: string)
  {
    IsPrefix("export ", t) || IsPrefix("export{", t)
  }

  /** The nine tags the line scan can record. */
  predicate IsLineTag(tag: Tag)
  {
    !(tag.NamedExportAbsent? || tag.TestFile? || tag.PackageJsonDeclared?)
  }

  const LineTagSet: set<Tag> := {ExportDefaultFunction, ExportDefaultAsyncFunction, ExportDefaultReexport,
                                 ExportDefaultIdentifier, ExtensionApiRef, PiRegisterCall, PiOnEvent,
                                 PiEventsOrSession, PiUiCall}

  /** Whether a trimmed line shows the pattern a line tag stands for. */
  predicate LineShows(tag: Tag, t: string)
  {
    match tag
    case ExportDefaultFunction => DefaultFunctionLine(t)
    case ExportDefaultAsyncFunction => DefaultAsyncFunctionLine(t)
    case ExportDefaultReexport => DefaultReexportLine(t)
    case ExportDefaultIdentifier => DefaultIdentifierLine(t)
    case ExtensionApiRef => ExtensionApiLine(t)
    case PiRegisterCall => PiRegisterLine(t)
    case PiOnEvent => PiOnLine(t)
    case PiEventsOrSession => PiEventsLine(t)
    case PiUiCall => PiUiLine(t)
    case _ => false
  }

  /**
   * What the scan reads off one trimmed line: the line tags whose pattern
   * it shows, whether it is an export, and whether it is a named one.
   */
  datatype LineFacts = LineFacts(shown: set<Tag>, isExport: bool, isNamedExport: bool)

  function Facts(t: string): (f: LineFacts)
    ensures forall tag :: tag in f.shown <==> IsLineTag(tag) && LineShows(tag, t)
  {
    var shown := set tag | tag in LineTagSet && LineShows(tag, t);
    LineFacts(shown, ExportLine(t), ExportLine(t) && !Contains(t, "default"))
  }

  /** Whether a line with these facts shows the pattern a line tag stands for. */
  predicate Shows(tag: Tag, f: LineFacts)
  {
    tag in f.shown
  }

  // ---------------------------------------------------------------------
  // The scan
  // ---------------------------------------------------------------------

  /**
   * The loop's state: the tags recorded so far, in order; the line tags
   * whose flag is raised (the loop's nine `has_*` pattern flags); and its
   * two export flags.
   */
  datatype ScanState = ScanState(patterns: seq<Tag>, raised: set<Tag>, anyExport: bool, namedExport: bool)

  /** Before the first line: nothing recorded, every flag clear. */
  const Start := ScanState([], {}, false, false)

  /** One test of the loop body: while its flag is clear, a line showing the pattern raises it and pushes the tag. */
  function Mark(s: ScanState, tag: Tag, f: LineFacts): ScanState
  {
    if tag !in s.raised && Shows(tag, f) then ScanState(s.patterns + [tag], s.raised + {tag}, s.anyExport, s.namedExport)
    else s
  }

  /** The `k`-th line tag, in the order the loop body tests them. */
  function LineTag(k: nat): (tag: Tag)
    requires k < 9
    ensures IsLineTag(tag)
  {
    match k
    case 0 => ExportDefaultFunction
    case 1 => ExportDefaultAsyncFunction
    case 2 => ExportDefaultReexport
    case 3 => ExportDefaultIdentifier
    case 4 => ExtensionApiRef
    case 5 => PiRegisterCall
    case 6 => PiOnEvent
    case 7 => PiEventsOrSession
    case _ => PiUiCall
  }

  /** The first `k` tests of the loop body, in order. */
  function MarkUpTo(s: ScanState, f: LineFacts, k: nat): ScanState
    requires k <= 9
  {
    if k == 0 then s else Mark(MarkUpTo(s, f, k - 1), LineTag(k - 1), f)
  }

  /** One turn of the scan loop: the nine tests in order, then the export check. */
  function Step(s: ScanState, f: LineFacts): ScanState
  {
    var m := MarkUpTo(s, f, 9);
    ScanState(m.patterns, m.raised, m.anyExport || f.isExport, m.namedExport || f.isNamedExport)
  }

  /** The scan over the facts of each line, in order. */
  function ScanFacts(fs: seq<LineFacts>): ScanState
  {
    if fs == [] then Start
    else Step(ScanFacts(fs[..|fs| - 1]), fs[|fs| - 1])
  }

  /** The facts of each of `lines`, trimmed. */
  function FactsOf(lines: seq<string>): (fs: seq<LineFacts>)
    ensures |fs| == |lines|
  {
    if lines == [] then [] else FactsOf(lines[..|lines| - 1]) + [Facts(Trim(lines[|lines| - 1]))]
  }

  /** The facts of line `i` are read off that line alone. */
  lemma {:induction false} FactsOfAt(lines: seq<string>, i: nat)
    requires i < |lines|
    ensures FactsOf(lines)[i] == Facts(Trim(lines[i]))
    decreases |lines|
  {
    if i < |lines| - 1 {
      var init := lines[..|lines| - 1];
      FactsOfAt(init, i);
      assert init[i] == lines[i];
    }
  }

  /** The scan over `content.lines()`. */
  function ScanLines(lines: seq<string>): ScanState
  {
    ScanFacts(FactsOf(lines))
  }

  /** Scanning one more line is one more turn. */
  lemma ScanLinesSnoc(lines: seq<string>, i: nat)
    requires i < |lines|
    ensures ScanLines(lines[..i + 1]) == Step(ScanLines(lines[..i]), Facts(Trim(lines[i])))
  {
    var before := FactsOf(lines[..i]);
    var f := Facts(Trim(lines[i]));
    assert lines[..i + 1][..i] == lines[..i];
    assert FactsOf(lines[..i + 1]) == before + [f];
    assert (before + [f])[..i] == before;
  }

  /** The last `'/'`-separated segment of a path. */
  function LastSegment(p: string): string
  {
    var parts := Split(p, '/');
    parts[|parts| - 1]
  }

  predicate IsTestFile(relPath: string)
  {
    var name := LastSegment(relPath);
    IsSuffix(".test.ts", name) || IsSuffix(".spec.ts", name) || IsSuffix(".bench.ts", name)
  }

  predicate HasDefault(p: seq<Tag>)
  {
    ExportDefaultFunction in p || ExportDefaultAsyncFunction in p
    || ExportDefaultReexport in p || ExportDefaultIdentifier in p
  }

  predicate HasPiApi(p: seq<Tag>)
  {
    PiRegisterCall in p || PiOnEvent in p || PiEventsOrSession in p || PiUiCall in p
  }

  /** The fixed-priority decision after the scan, read off the loop's flags. */
  function Decide(relPath: string, s: ScanState): EntryPointScan
  {
    var p := s.patterns;
    var r := s.raised;
    var hasDefault := ExportDefaultFunction in r || ExportDefaultAsyncFunction in r
                      || ExportDefaultReexport in r || ExportDefaultIdentifier in r;
    var hasExtensionApi := ExtensionApiRef in r;
    var hasPiApi := PiRegisterCall in r || PiOnEvent in r || PiEventsOrSession in r || PiUiCall in r;
    if (hasDefault && (hasExtensionApi || hasPiApi)) || ExportDefaultReexport in r then
      EntryPointScan(relPath, EntryPoint, High, p)
    else if hasDefault then
      EntryPointScan(relPath, EntryPoint, Medium, p)
    else if s.namedExport || (hasExtensionApi && hasPiApi) then
      EntryPointScan(relPath, SubModule, High, if !s.namedExport then p + [NamedExportAbsent] else p)
    else if !s.anyExport then
      EntryPointScan(relPath, NonExtension, Medium, p)
    else
      EntryPointScan(relPath, Unknown, Low, p)
  }

  /** `classify_ts_file`, as a value. */
  function ClassifySpec(content: string, relPath: string): EntryPointScan
  {
    if IsTestFile(relPath) then EntryPointScan(relPath, NonExtension, High, [TestFile])
    else Decide(relPath, ScanLines(RustLines(content)))
  }

  /**
   * Pattern test number `k` of the scan loop on a trimmed line: a line showing the pattern
   * raises the flag of its tag and records the tag, unless the flag is already raised.
   */
  method RecordTest(k: nat, trimmed: string, ghost s: ScanState, patterns: seq<Tag>, raised: set<Tag>)
    returns (patterns': seq<Tag>, raised': set<Tag>)
    requires k < 9
    requires ScanState(patterns, raised, s.anyExport, s.namedExport) == MarkUpTo(s, Facts(trimmed), k)
    ensures ScanState(patterns', raised', s.anyExport, s.namedExport) == MarkUpTo(s, Facts(trimmed), k + 1)
  {
    var tag := LineTag(k);
    patterns', raised' := patterns, raised;
    if tag !in raised && LineShows(tag, trimmed) {
      raised' := raised + {tag};
      patterns' := patterns + [tag];
    }
  }

  /** The body of the scan loop on one trimmed line: the nine pattern tests, then the export tests. */
  method ScanLine(trimmed: string, patterns: seq<Tag>, raised: set<Tag>, anyExport: bool, namedExport: bool)
    returns (patterns': seq<Tag>, raised': set<Tag>, anyExport': bool, namedExport': bool)
    ensures ScanState(patterns', raised', anyExport', namedExport')
            == Step(ScanState(patterns, raised, anyExport, namedExport), Facts(trimmed))
  {
    ghost var s := ScanState(patterns, raised, anyExport, namedExport);
    patterns', raised' := RecordTest(0, trimmed, s, patterns, raised);
    patterns', raised' := RecordTest(1, trimmed, s, patterns', raised');
    patterns', raised' := RecordTest(2, trimmed, s, patterns', raised');
    patterns', raised' := RecordTest(3, trimmed, s, patterns', raised');
    patterns', raised' := RecordTest(4, trimmed, s, patterns', raised');
    patterns', raised' := RecordTest(5, trimmed, s, patterns', raised');
    patterns', raised' := RecordTest(6, trimmed, s, patterns', raised');
    patterns', raised' := RecordTest(7, trimmed, s, patterns', raised');
    patterns', raised' := RecordTest(8, trimmed, s, patterns', raised');
    anyExport', namedExport' := anyExport, namedExport;
    if ExportLine(trimmed) {
      anyExport' := true;
      if !Contains(trimmed, "default") {
        namedExport' := true;
      }
    }
  }

  /**
   * `classify_ts_file`: the test-file check, the flag-setting scan and the decision.
   * The nine `has_*` pattern flags are held as the set `raised` of tags whose flag is set.
   */
  method ClassifyTsFile(content: string, relPath: string) returns (scan: EntryPointScan)
    ensures scan == ClassifySpec(content, relPath)
  {
    if IsTestFile(relPath) {
      return EntryPointScan(relPath, NonExtension, High, [TestFile]);
    }
    var lines := RustLines(content);
    var patterns: seq<Tag> := [];
    var raised: set<Tag> := {};
    var hasNamedExport := false;
    var hasAnyExport := false;
    var i := 0;
    while i < |lines|
      invariant 0 <= i <= |lines|
      invariant ScanLines(lines[..i]) == ScanState(patterns, raised, hasAnyExport, hasNamedExport)
    {
      patterns, raised, hasAnyExport, hasNamedExport := ScanLine(Trim(lines[i]), patterns, raised, hasAnyExport, hasNamedExport);
      ScanLinesSnoc(lines, i);
      i := i + 1;
    }
    assert lines[..i] == lines;
    var hasDefaultExport := ExportDefaultFunction in raised || ExportDefaultAsyncFunction in raised
                            || ExportDefaultReexport in raised || ExportDefaultIdentifier in raised;
    var hasExtensionApi := ExtensionApiRef in raised;
    var hasPiApi := PiRegisterCall in raised || PiOnEvent in raised || PiEventsOrSession in raised || PiUiCall in raised;
    if (hasDefaultExport && (hasExtensionApi || hasPiApi)) || ExportDefaultReexport in raised {
      scan := EntryPointScan(relPath, EntryPoint, High, patterns);
    } else if hasDefaultExport {
      scan := EntryPointScan(relPath, EntryPoint, Medium, patterns);
    } else if hasNamedExport || (hasExtensionApi && hasPiApi) {
      if !hasNamedExport {
        patterns := patterns + [NamedExportAbsent];
      }
      scan := EntryPointScan(relPath, SubModule, High, patterns);
    } else if !hasAnyExport {
      scan := EntryPointScan(relPath, NonExtension, Medium, patterns);
    } else {
      scan := EntryPointScan(relPath, Unknown, Low, patterns);
    }
  }

  // ---------------------------------------------------------------------
  // Properties of the scan and the decision
  // ---------------------------------------------------------------------

  predicate NoDuplicates<T(==)>(s: seq<T>)
  {
    forall i, j :: 0 <= i < j < |s| ==> s[i] != s[j]
  }

  /** Distinct line tags only. */
  predicate GoodTags(p: seq<Tag>)
  {
    NoDuplicates(p) && forall i :: 0 <= i < |p| ==> IsLineTag(p[i])
  }

  /** A flag is raised exactly when its tag is recorded, and the recorded tags are distinct line tags. */
  predicate Consistent(s: ScanState)
  {
    GoodTags(s.patterns) && forall tag :: tag in s.raised <==> tag in s.patterns
  }

  /** Some line shows the pattern of `tag`. */
  predicate SomeShows(fs: seq<LineFacts>, tag: Tag)
  {
    exists i :: 0 <= i < |fs| && Shows(tag, fs[i])
  }

  predicate SomeExport(fs: seq<LineFacts>)
  {
    exists i :: 0 <= i < |fs| && fs[i].isExport
  }

  predicate SomeNamedExport(fs: seq<LineFacts>)
  {
    exists i :: 0 <= i < |fs| && fs[i].isNamedExport
  }

  /**
   * The scan records each line tag once, exactly when some line shows it,
   * and no other tag, with each flag set exactly when its tag is recorded;
   * the export flags say whether some line is an export (a named one).
   */
  lemma ScanRecordsDetected(fs: seq<LineFacts>)
    ensures var s := ScanFacts(fs);
            Consistent(s)
            && (forall tag :: IsLineTag(tag) ==> (tag in s.patterns <==> SomeShows(fs, tag)))
            && (s.anyExport <==> SomeExport(fs))
            && (s.namedExport <==> SomeNamedExport(fs))
  {
    ScanTags(fs);
    ScanExports(fs);
  }

  lemma {:induction false} ScanTags(fs: seq<LineFacts>)
    ensures var s := ScanFacts(fs);
            Consistent(s) && forall tag :: IsLineTag(tag) ==> (tag in s.patterns <==> SomeShows(fs, tag))
    decreases |fs|
  {
    if fs != [] {
      var init := fs[..|fs| - 1];
      var f := fs[|fs| - 1];
      ScanTags(init);
      StepRecords(ScanFacts(init), f);
      assert fs == init + [f];
      forall tag | IsLineTag(tag)
        ensures SomeShows(fs, tag) <==> SomeShows(init, tag) || Shows(tag, f)
      {
        ShowsSnoc(init, f, tag);
      }
    }
  }

  lemma ShowsSnoc(init: seq<LineFacts>, f: LineFacts, tag: Tag)
    ensures SomeShows(init + [f], tag) <==> SomeShows(init, tag) || Shows(tag, f)
  {
    var fs := init + [f];
    if SomeShows(init, tag) {
      var i :| 0 <= i < |init| && Shows(tag, init[i]);
      assert fs[i] == init[i];
    }
    if SomeShows(fs, tag) && !Shows(tag, f) {
      var i :| 0 <= i < |fs| && Shows(tag, fs[i]);
      assert i < |init| && fs[i] == init[i];
    }
    assert fs[|init|] == f;
  }

  lemma {:induction false} ScanExports(fs: seq<LineFacts>)
    ensures ScanFacts(fs).anyExport <==> SomeExport(fs)
    ensures ScanFacts(fs).namedExport <==> SomeNamedExport(fs)
    decreases |fs|
  {
    if fs != [] {
      var init := fs[..|fs| - 1];
      var f := fs[|fs| - 1];
      ScanExports(init);
      StepExports(ScanFacts(init), f);
      assert fs == init + [f];
      if SomeExport(init) {
        var i :| 0 <= i < |init| && init[i].isExport;
        assert fs[i] == init[i];
      }
      if SomeExport(fs) && !f.isExport {
        var i :| 0 <= i < |fs| && fs[i].isExport;
        assert i < |init| && fs[i] == init[i];
      }
      if SomeNamedExport(init) {
        var i :| 0 <= i < |init| && init[i].isNamedExport;
        assert fs[i] == init[i];
      }
      if SomeNamedExport(fs) && !f.isNamedExport {
        var i :| 0 <= i < |fs| && fs[i].isNamedExport;
        assert i < |init| && fs[i] == init[i];
      }
    }
  }

  /** Where a tag stands among the loop body's tests; 9 for the tags the loop never records. */
  function LineTagIndex(tag: Tag): (k: nat)
    ensures k < 9 <==> IsLineTag(tag)
    ensures k < 9 ==> LineTag(k) == tag
  {
    match tag
    case ExportDefaultFunction => 0
    case ExportDefaultAsyncFunction => 1
    case ExportDefaultReexport => 2
    case ExportDefaultIdentifier => 3
    case ExtensionApiRef => 4
    case PiRegisterCall => 5
    case PiOnEvent => 6
    case PiEventsOrSession => 7
    case PiUiCall => 8
    case _ => 9
  }

  /** The first `k` tests leave the export flags alone. */
  lemma {:induction false} MarkUpToKeepsExports(s: ScanState, f: LineFacts, k: nat)
    requires k <= 9
    ensures MarkUpTo(s, f, k).anyExport == s.anyExport && MarkUpTo(s, f, k).namedExport == s.namedExport
  {
    if k > 0 {
      MarkUpToKeepsExports(s, f, k - 1);
    }
  }

  /** One turn sets the export flags exactly when the line is an export (a named one). */
  lemma StepExports(s: ScanState, f: LineFacts)
    ensures Step(s, f).anyExport == (s.anyExport || f.isExport)
    ensures Step(s, f).namedExport == (s.namedExport || f.isNamedExport)
  {
    MarkUpToKeepsExports(s, f, 9);
  }

  /** The first `k` tests keep the state consistent and record exactly the newly shown tags among them. */
  lemma {:induction false} MarkUpToRecords(s: ScanState, f: LineFacts, k: nat)
    requires k <= 9 && Consistent(s)
    ensures var q := MarkUpTo(s, f, k);
            Consistent(q) && forall x :: x in q.patterns <==> x in s.patterns || (LineTagIndex(x) < k && Shows(x, f))
  {
    if k > 0 {
      MarkUpToRecords(s, f, k - 1);
      var tag := LineTag(k - 1);
      assert LineTagIndex(tag) == k - 1;
    }
  }

  /** One turn keeps the state consistent and records exactly the newly shown line tags. */
  lemma StepRecords(s: ScanState, f: LineFacts)
    requires Consistent(s)
    ensures var q := Step(s, f);
            Consistent(q) && (forall tag :: IsLineTag(tag) ==> (tag in q.patterns <==> tag in s.patterns || Shows(tag, f)))
  {
    MarkUpToRecords(s, f, 9);
  }

  /**
   * The reported patterns never repeat a tag: the scan's tags are distinct
   * line tags, and `named_export_absent` is added at most once, after them.
   */
  lemma ClassifyNoDuplicates(content: string, relPath: string)
    ensures NoDuplicates(ClassifySpec(content, relPath).patterns)
  {
    if !IsTestFile(relPath) {
      var fs := FactsOf(RustLines(content));
      ScanRecordsDetected(fs);
      DecideNoDuplicates(relPath, ScanFacts(fs));
    }
  }

  /** The decision adds `named_export_absent` only to distinct line tags, so the tags stay distinct. */
  lemma DecideNoDuplicates(relPath: string, s: ScanState)
    requires Consistent(s)
    ensures NoDuplicates(Decide(relPath, s).patterns)
  {
    var p := s.patterns;
    var q := p + [NamedExportAbsent];
    forall i, j | 0 <= i < j < |q|
      ensures q[i] != q[j]
    {
      if j < |p| {
        assert q[i] == p[i] && q[j] == p[j];
      } else {
        assert IsLineTag(q[i]);
      }
    }
  }

  /**
   * The decision, read as conditions on what the scan saw (outside test
   * files): an entry point exactly when there is a default export, with high
   * confidence exactly when it comes with the extension API, a pi call or a
   * re-export; a sub-module exactly when, without a default export, there
   * is a named export or the extension API together with a pi call, and
   * `named_export_absent` marks exactly the sub-modules without a named
   * export; a non-extension exactly when, beyond that, there is no export
   * at all; and unknown, with low confidence, otherwise.
   */
  lemma DecisionPriority(content: string, relPath: string)
    requires !IsTestFile(relPath)
    ensures var s := ScanLines(RustLines(content));
            var p := s.patterns;
            var r := ClassifySpec(content, relPath);
            var ext := ExtensionApiRef in p;
            (r.classification == EntryPoint <==> HasDefault(p))
            && (r.classification == EntryPoint ==>
                  (r.confidence == High <==> ext || HasPiApi(p) || ExportDefaultReexport in p)
                  && (r.confidence != High ==> r.confidence == Medium))
            && (r.classification == SubModule <==> !HasDefault(p) && (s.namedExport || (ext && HasPiApi(p))))
            && (r.classification == SubModule ==> r.confidence == High)
            && (r.classification == NonExtension <==>
                  !HasDefault(p) && !s.namedExport && !(ext && HasPiApi(p)) && !s.anyExport)
            && (r.classification == NonExtension ==> r.confidence == Medium)
            && (r.classification == Unknown <==> r.confidence == Low)
            && (NamedExportAbsent in r.patterns <==> r.classification == SubModule && !s.namedExport)
            && (r.patterns == p || r.patterns == p + [NamedExportAbsent])
            && r.path == relPath
  {
    ScanRecordsDetected(FactsOf(RustLines(content)));
  }

  // ---------------------------------------------------------------------
  // The test-file rule
  // ---------------------------------------------------------------------

  /** A suffix free of `'/'` lies after any `'/'` of the whole. */
  lemma FreeSuffixAfter(sfx: string, p: string, k: nat)
    requires k < |p| && p[k] == '/'
    requires IsSuffix(sfx, p) && Free(sfx, '/')
    ensures |sfx| < |p| - k
  {
    var start := |p| - |sfx|;
    forall i | start <= i < |p|
      ensures p[i] != '/'
    {
      assert p[i] == sfx[i - start];
    }
  }

  /** A tail of `p` that is all of it or follows a `'/'` ends with a `'/'`-free suffix exactly when `p` does. */
  lemma SuffixOfLastPiece(seg: string, p: string, sfx: string)
    requires IsSuffix(seg, p)
    requires seg == p || (|seg| < |p| && p[|p| - |seg| - 1] == '/')
    requires Free(sfx, '/')
    ensures IsSuffix(sfx, seg) <==> IsSuffix(sfx, p)
  {
    if IsSuffix(sfx, seg) {
      SuffixTransitive(sfx, seg, p);
    }
    if IsSuffix(sfx, p) && seg != p {
      FreeSuffixAfter(sfx, p, |p| - |seg| - 1);
      assert p[|p| - |sfx|..] == seg[|seg| - |sfx|..];
    }
  }

  /** For a suffix without `'/'`, the last segment ends with it exactly when the path does. */
  lemma LastSegmentSuffix(p: string, sfx: string)
    requires Free(sfx, '/')
    ensures IsSuffix(sfx, LastSegment(p)) <==> IsSuffix(sfx, p)
  {
    SplitLastIsSuffix(p, '/');
    SuffixOfLastPiece(LastSegment(p), p, sfx);
  }

  /**
   * A path ending in `.test.ts`, `.spec.ts` or `.bench.ts` is a
   * high-confidence non-extension tagged only `test_file`, whatever the
   * content.
   */
  lemma TestFileRule(content: string, relPath: string)
    ensures IsTestFile(relPath) <==>
              IsSuffix(".test.ts", relPath) || IsSuffix(".spec.ts", relPath) || IsSuffix(".bench.ts", relPath)
    ensures IsTestFile(relPath) ==>
              ClassifySpec(content, relPath) == EntryPointScan(relPath, NonExtension, High, [TestFile])
  {
    LastSegmentSuffix(relPath, ".test.ts");
    LastSegmentSuffix(relPath, ".spec.ts");
    LastSegmentSuffix(relPath, ".bench.ts");
  }

  // ---------------------------------------------------------------------
  // The kinds of file the classifier tells apart
  // ---------------------------------------------------------------------

  /** An occurrence inside an occurrence. */
  lemma OccursWithin(t: string, p: string, i: int, q: string, k: int)
    requires OccursAt(t, p, i) && OccursAt(p, q, k)
    ensures OccursAt(t, q, i + k)
  {
    var w := t[i..i + |p|];
    assert forall m :: 0 <= m < |q| ==> t[i + k + m] == w[k + m] == q[m];
    assert t[i + k..i + k + |q|] == q;
  }

  /** A line starting with a pattern that spells `default` at `k` contains `default`. */
  lemma PrefixSaysDefault(t: string, p: string, k: nat)
    requires IsPrefix(p, t) && OccursAt(p, "default", k)
    ensures Contains(t, "default")
  {
    assert OccursAt(t, p, 0);
    OccursWithin(t, p, 0, "default", k);
  }

  /** A line containing a pattern that spells `default` at `k` contains `default`. */
  lemma InfixSaysDefault(t: string, p: string, k: nat)
    requires Contains(t, p) && OccursAt(p, "default", k)
    ensures Contains(t, "default")
  {
    var i :| 0 <= i <= |t| - |p| && OccursAt(t, p, i);
    OccursWithin(t, p, i, "default", k);
  }

  /** Every default-export pattern spells out `default`. */
  lemma DefaultPatternsSayDefault(t: string)
    requires DefaultFunctionLine(t) || DefaultAsyncFunctionLine(t) || DefaultReexportLine(t) || DefaultIdentifierLine(t)
    ensures Contains(t, "default")
  {
    if DefaultFunctionLine(t) {
      DefaultFunctionSaysDefault(t);
    } else if DefaultAsyncFunctionLine(t) {
      DefaultAsyncSaysDefault(t);
    } else if DefaultReexportLine(t) {
      ReexportSaysDefault(t);
    } else {
      PrefixSaysDefault(t, "export default ", 7);
    }
  }

  lemma DefaultFunctionSaysDefault(t: string)
    requires DefaultFunctionLine(t)
    ensures Contains(t, "default")
  {
    if IsPrefix("export default function", t) {
      PrefixSaysDefault(t, "export default function", 7);
    } else {
      PrefixSaysDefault(t, "export default function(", 7);
    }
  }

  lemma DefaultAsyncSaysDefault(t: string)
    requires DefaultAsyncFunctionLine(t)
    ensures Contains(t, "default")
  {
    if IsPrefix("export default async function", t) {
      ghost var p := "export default async function";
      assert p[7] == 'd' && p[8] == 'e' && p[9] == 'f' && p[10] == 'a' && p[11] == 'u' && p[12] == 'l' && p[13] == 't';
      assert p[7..14] == "default";
      PrefixSaysDefault(t, "export default async function", 7);
    } else {
      ghost var p := "export default async function(";
      assert p[7] == 'd' && p[8] == 'e' && p[9] == 'f' && p[10] == 'a' && p[11] == 'u' && p[12] == 'l' && p[13] == 't';
      assert p[7..14] == "default";
      PrefixSaysDefault(t, "export default async function(", 7);
    }
  }

  lemma ReexportSaysDefault(t: string)
    requires DefaultReexportLine(t)
    ensures Contains(t, "default")
  {
    if Contains(t, "export { default }") {
      InfixSaysDefault(t, "export { default }", 9);
    } else if Contains(t, "export {default}") {
      InfixSaysDefault(t, "export {default}", 8);
    } else {
      InfixSaysDefault(t, "export { default,", 9);
    }
  }

  /**
   * A file with a default function export and a reference to the extension
   * API is a high-confidence entry point recording both.
   */
  lemma DefaultFunctionWithApi(content: string, relPath: string, i: nat, j: nat)
    requires !IsTestFile(relPath)
    requires i < |RustLines(content)| && DefaultFunctionLine(Trim(RustLines(content)[i]))
    requires j < |RustLines(content)| && ExtensionApiLine(Trim(RustLines(content)[j]))
    ensures var r := ClassifySpec(content, relPath);
            r.classification == EntryPoint && r.confidence == High
            && ExportDefaultFunction in r.patterns && ExtensionApiRef in r.patterns
  {
    var lines := RustLines(content);
    ShowsAt(lines, i, ExportDefaultFunction);
    ShowsAt(lines, j, ExtensionApiRef);
    DefaultWithApiDecides(relPath, FactsOf(lines), i, j);
  }

  /** A line showing the pattern of a line tag has that tag among its facts. */
  lemma ShowsAt(lines: seq<string>, i: nat, tag: Tag)
    requires i < |lines| && IsLineTag(tag) && LineShows(tag, Trim(lines[i]))
    ensures Shows(tag, FactsOf(lines)[i])
  {
    FactsOfAt(lines, i);
    ShowsLine(tag, Trim(lines[i]));
  }

  /** A line tag is among the facts of a line exactly when the line shows its pattern. */
  lemma ShowsLine(tag: Tag, t: string)
    requires IsLineTag(tag)
    ensures Shows(tag, Facts(t)) <==> LineShows(tag, t)
  {
  }

  /** The same on the facts of the lines. */
  lemma DefaultWithApiDecides(relPath: string, fs: seq<LineFacts>, i: nat, j: nat)
    requires i < |fs| && Shows(ExportDefaultFunction, fs[i])
    requires j < |fs| && Shows(ExtensionApiRef, fs[j])
    ensures var r := Decide(relPath, ScanFacts(fs));
            r.classification == EntryPoint && r.confidence == High
            && ExportDefaultFunction in r.patterns && ExtensionApiRef in r.patterns
  {
    var s := ScanFacts(fs);
    ScanTags(fs);
    assert SomeShows(fs, ExportDefaultFunction);
    assert SomeShows(fs, ExtensionApiRef);
    assert ExportDefaultFunction in s.raised && ExtensionApiRef in s.raised;
  }

  /** A default re-export makes a high-confidence entry point, whatever else the file holds. */
  lemma ReexportIsEntryPoint(content: string, relPath: string, i: nat)
    requires !IsTestFile(relPath)
    requires i < |RustLines(content)| && DefaultReexportLine(Trim(RustLines(content)[i]))
    ensures var r := ClassifySpec(content, relPath);
            r.classification == EntryPoint && r.confidence == High && ExportDefaultReexport in r.patterns
  {
    var fs := FactsOf(RustLines(content));
    FactsOfAt(RustLines(content), i);
    assert Shows(ExportDefaultReexport, fs[i]);
    ScanTags(fs);
  }

  /** A file whose lines never say `default` and which exports something is a sub-module. */
  lemma NamedExportsOnlyIsSubModule(content: string, relPath: string, i: nat)
    requires !IsTestFile(relPath)
    requires forall k :: 0 <= k < |RustLines(content)| ==> !Contains(Trim(RustLines(content)[k]), "default")
    requires i < |RustLines(content)| && ExportLine(Trim(RustLines(content)[i]))
    ensures var r := ClassifySpec(content, relPath);
            r.classification == SubModule && r.confidence == High && NamedExportAbsent !in r.patterns
  {
    var lines := RustLines(content);
    var fs := FactsOf(lines);
    NoDefaultScan(lines);
    FactsOfAt(lines, i);
    assert fs[i].isNamedExport;
    ScanTags(fs);
    ScanExports(fs);
  }

  /**
   * A file whose lines never say `default`, never export and never name the
   * extension API is a non-extension.
   */
  lemma NoExportIsNonExtension(content: string, relPath: string)
    requires !IsTestFile(relPath)
    requires forall k :: 0 <= k < |RustLines(content)| ==>
               var t := Trim(RustLines(content)[k]);
               !Contains(t, "default") && !ExportLine(t) && !ExtensionApiLine(t)
    ensures var r := ClassifySpec(content, relPath);
            r.classification == NonExtension && r.confidence == Medium
  {
    var lines := RustLines(content);
    var fs := FactsOf(lines);
    NoDefaultScan(lines);
    forall k | 0 <= k < |fs|
      ensures !Shows(ExtensionApiRef, fs[k]) && !fs[k].isExport && !fs[k].isNamedExport
    {
      FactsOfAt(lines, k);
    }
    assert !SomeShows(fs, ExtensionApiRef);
    assert !SomeExport(fs) && !SomeNamedExport(fs);
    ScanTags(fs);
    ScanExports(fs);
  }

  /** Lines that never say `default` give a scan without a default export. */
  lemma NoDefaultScan(lines: seq<string>)
    requires forall k :: 0 <= k < |lines| ==> !Contains(Trim(lines[k]), "default")
    ensures !HasDefault(ScanLines(lines).patterns)
  {
    var fs := FactsOf(lines);
    forall k | 0 <= k < |fs|
      ensures !Shows(ExportDefaultFunction, fs[k]) && !Shows(ExportDefaultAsyncFunction, fs[k])
      ensures !Shows(ExportDefaultReexport, fs[k]) && !Shows(ExportDefaultIdentifier, fs[k])
    {
      FactsOfAt(lines, k);
      var t := Trim(lines[k]);
      if DefaultFunctionLine(t) || DefaultAsyncFunctionLine(t) || DefaultReexportLine(t) || DefaultIdentifierLine(t) {
        DefaultPatternsSayDefault(t);
      }
    }
    ScanTags(fs);
  }

  // ---------------------------------------------------------------------
  // `hex_lower`
  // ---------------------------------------------------------------------

  function HexDigit(d: nat): (c: char)
    requires d < 16
    ensures ('0' <= c <= '9') || ('a' <= c <= 'f')
  {
    if d < 10 then ('0' as int + d) as char else ('a' as int + d - 10) as char
  }

  function HexValue(c: char): nat
  {
    if '0' <= c <= '9' then c as int - '0' as int
    else if 'a' <= c <= 'f' then c as int - 'a' as int + 10
    else 0
  }

  function ByteHex(b: Utf8.Byte): string
  {
    [HexDigit(b as int / 16), HexDigit(b as int % 16)]
  }

  /** The `{byte:02x}` rendering of every byte, in order. */
  function HexSpec(bytes: seq<Utf8.Byte>): string
  {
    if bytes == [] then [] else HexSpec(bytes[..|bytes| - 1]) + ByteHex(bytes[|bytes| - 1])
  }

  /** `hex_lower`: two lowercase hex digits per byte, appended in a loop. */
  method HexLower(bytes: seq<Utf8.Byte>) returns (output: string)
    ensures output == HexSpec(bytes)
  {
    output := [];
    var i := 0;
    while i < |bytes|
      invariant 0 <= i <= |bytes|
      invariant output == HexSpec(bytes[..i])
    {
      assert bytes[..i + 1][..i] == bytes[..i];
      var b := bytes[i];
      output := output + [HexDigit(b as int / 16), HexDigit(b as int % 16)];
      i := i + 1;
    }
    assert bytes[..i] == bytes;
  }

  /** The two digits of a byte give back its value. */
  lemma ByteHexValue(b: Utf8.Byte)
    ensures HexValue(ByteHex(b)[0]) * 16 + HexValue(ByteHex(b)[1]) == b as int
  {
    var hi, lo := b as int / 16, b as int % 16;
    assert HexValue(HexDigit(hi)) == hi;
    assert HexValue(HexDigit(lo)) == lo;
  }

  /**
   * The rendering has two characters per byte, all lowercase hex digits,
   * and byte `i` is the value of the digit pair at `2i`, `2i + 1`.
   */
  lemma {:induction false} HexLayout(bytes: seq<Utf8.Byte>)
    ensures var h := HexSpec(bytes);
            |h| == 2 * |bytes|
            && (forall k :: 0 <= k < |h| ==> ('0' <= h[k] <= '9') || ('a' <= h[k] <= 'f'))
            && forall i :: 0 <= i < |bytes| ==> HexValue(h[2 * i]) * 16 + HexValue(h[2 * i + 1]) == bytes[i] as int
    decreases |bytes|
  {
    if bytes != [] {
      var init := bytes[..|bytes| - 1];
      HexLayout(init);
      var h := HexSpec(bytes);
      var b := bytes[|bytes| - 1];
      assert h == HexSpec(init) + ByteHex(b);
      forall i | 0 <= i < |bytes|
        ensures HexValue(h[2 * i]) * 16 + HexValue(h[2 * i + 1]) == bytes[i] as int
      {
        if i < |init| {
          assert h[2 * i] == HexSpec(init)[2 * i];
          assert h[2 * i + 1] == HexSpec(init)[2 * i + 1];
          assert bytes[i] == init[i];
        } else {
          ByteHexValue(b);
          assert h[2 * i] == ByteHex(b)[0] && h[2 * i + 1] == ByteHex(b)[1];
        }
      }
    }
  }

  // ---------------------------------------------------------------------
  // Entry points declared in `package.json`
  // ---------------------------------------------------------------------

  /** One declared entry: one leading `./` dropped, then put under the package's directory. */
  function CleanEntry(entry: string, pkgRel: string): (r: string)
    ensures pkgRel == [] ==> r == StripPrefix(entry, "./")
    ensures pkgRel != [] ==> IsPrefix(pkgRel + "/", r) && r[|pkgRel| + 1..] == StripPrefix(entry, "./")
  {
    var cleaned := StripPrefix(entry, "./");
    if pkgRel == [] then cleaned else pkgRel + "/" + cleaned
  }

  /** The string values of the `pi.extensions` array, cleaned, in order; other values are skipped. */
  function DeclaredEntries(values: seq<Option<string>>, pkgRel: string): seq<string>
  {
    if values == [] then []
    else
      var last := values[|values| - 1];
      DeclaredEntries(values[..|values| - 1], pkgRel) + (if last.Some? then [CleanEntry(last.value, pkgRel)] else [])
  }

  /** The cleaned entry ends with the declared entry less its `./`, and only one `./` goes. */
  lemma CleanEntryKeepsName(entry: string, pkgRel: string)
    ensures IsSuffix(StripPrefix(entry, "./"), CleanEntry(entry, pkgRel))
    ensures IsPrefix("./", entry) ==> "./" + StripPrefix(entry, "./") == entry
    ensures CleanEntry("././a.ts", "") == "./a.ts"
  {
    assert IsPrefix("./", "././a.ts");
  }

  // ---------------------------------------------------------------------
  // The package.json boost
  // ---------------------------------------------------------------------

  /** `entries.iter().any(|e| e == rel || rel.ends_with(e))`. */
  predicate Declares(entries: seq<string>, rel: string)
  {
    exists i :: 0 <= i < |entries| && (entries[i] == rel || IsSuffix(entries[i], rel))
  }

  /** The effect of one declaring package. */
  function BoostOnce(scan: EntryPointScan): EntryPointScan
  {
    scan.(patterns := if PackageJsonDeclared in scan.patterns then scan.patterns else scan.patterns + [PackageJsonDeclared],
          confidence := if scan.classification == EntryPoint then High else scan.confidence)
  }

  /** The boost over the packages' entry lists, in order. */
  function BoostSpec(scan: EntryPointScan, packages: seq<seq<string>>, rel: string): EntryPointScan
  {
    if packages == [] then scan
    else
      var before := BoostSpec(scan, packages[..|packages| - 1], rel);
      if Declares(packages[|packages| - 1], rel) then BoostOnce(before) else before
  }

  /** The boost loop of the entry-point scan test. */
  method Boost(scan: EntryPointScan, packages: seq<seq<string>>, rel: string) returns (r: EntryPointScan)
    ensures r == BoostSpec(scan, packages, rel)
  {
    r := scan;
    var k := 0;
    while k < |packages|
      invariant 0 <= k <= |packages|
      invariant r == BoostSpec(scan, packages[..k], rel)
    {
      assert packages[..k + 1][..k] == packages[..k];
      var entries := packages[k];
      if Declares(entries, rel) {
        if PackageJsonDeclared !in r.patterns {
          r := r.(patterns := r.patterns + [PackageJsonDeclared]);
        }
        if r.classification == EntryPoint {
          r := r.(confidence := High);
        }
      }
      k := k + 1;
    }
    assert packages[..k] == packages;
  }

  /** Some package declares the file. */
  predicate Declared(packages: seq<seq<string>>, rel: string)
  {
    exists k :: 0 <= k < |packages| && Declares(packages[k], rel)
  }

  /**
   * The boost never changes the path or the classification, adds
   * `package_json_declared` exactly when some package declares the file
   * (keeping tags distinct), and changes the confidence only of an entry
   * point, to high, when the file is declared.
   */
  lemma {:induction false} BoostProperties(scan: EntryPointScan, packages: seq<seq<string>>, rel: string)
    requires NoDuplicates(scan.patterns)
    ensures var r := BoostSpec(scan, packages, rel);
            r.path == scan.path && r.classification == scan.classification
            && NoDuplicates(r.patterns)
            && (PackageJsonDeclared in r.patterns <==> PackageJsonDeclared in scan.patterns || Declared(packages, rel))
            && (forall t :: t != PackageJsonDeclared ==> (t in r.patterns <==> t in scan.patterns))
            && (r.confidence != scan.confidence ==> scan.classification == EntryPoint && r.confidence == High)
            && (scan.classification == EntryPoint && Declared(packages, rel) ==> r.confidence == High)
    decreases |packages|
  {
    if packages != [] {
      var init := packages[..|packages| - 1];
      BoostProperties(scan, init, rel);
      var before := BoostSpec(scan, init, rel);
      assert forall k :: 0 <= k < |init| ==> init[k] == packages[k];
      if Declared(packages, rel) && !Declares(packages[|packages| - 1], rel) {
        var k :| 0 <= k < |packages| && Declares(packages[k], rel);
        assert Declares(init[k], rel);
      }
      if Declared(init, rel) {
        var k :| 0 <= k < |init| && Declares(init[k], rel);
        assert Declares(packages[k], rel);
      }
    }
  }
}
