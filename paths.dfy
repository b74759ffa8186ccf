/**
 * Path helpers of the tool layer: `~` expansion, resolution against the
 * working directory, the macOS screenshot-name fallbacks tried when a file
 * to read is missing, the image-extension tests and the path grep prints.
 * A path is a string with `'/'` as its separator (Unix), and its components
 * are those of Rust's `Path::components`: a leading root or `.`, then the
 * non-empty pieces other than `.`.
 */
module Paths {
  import opened Wrappers
  import opened Seqs
  import opened Chars
  import opened Normalize

  /** `Path::is_absolute` on Unix. */
  predicate IsAbsolute(p: string)
  {
    |p| > 0 && p[0] == '/'
  }

  /**
   * `PathBuf::join`: an absolute path replaces the base; otherwise a `'/'`
   * is put between the two unless the base is empty or already ends in one.
   */
  function JoinPath(base: string, p: string): (r: string)
    ensures IsAbsolute(p) ==> r == p
    ensures !IsAbsolute(p) ==> IsPrefix(base, r) && IsSuffix(p, r)
    ensures !IsAbsolute(p) && base != [] ==> (IsAbsolute(r) <==> IsAbsolute(base))
  {
    if IsAbsolute(p) then p
    else if base == [] || base[|base| - 1] == '/' then base + p
    else base + "/" + p
  }

  // ---------------------------------------------------------------------
  // Components
  // ---------------------------------------------------------------------

  /** The leading root (`/`) or current-directory (`.`) component, if any. */
  function RootOf(p: string): seq<string>
  {
    if IsAbsolute(p) then ["/"]
    else if p == "." || IsPrefix("./", p) then ["."]
    else []
  }

  /** The pieces that are real names: empty pieces and `.` are skipped. */
  function NormalParts(pieces: seq<string>): (r: seq<string>)
    ensures forall i :: 0 <= i < |r| ==> r[i] != [] && r[i] != "."
  {
    if pieces == [] then []
    else (if pieces[0] == [] || pieces[0] == "." then [] else [pieces[0]]) + NormalParts(pieces[1..])
  }

  /** `path.components()`, each component as its text. */
  function Components(p: string): seq<string>
  {
    RootOf(p) + NormalParts(Split(p, '/'))
  }

  lemma {:induction false} NormalPartsAppend(a: seq<string>, b: seq<string>)
    ensures NormalParts(a + b) == NormalParts(a) + NormalParts(b)
    decreases |a|
  {
    if a != [] {
      assert (a + b)[1..] == a[1..] + b;
      NormalPartsAppend(a[1..], b);
    } else {
      assert a + b == b;
    }
  }

  /**
   * Joining a relative path onto a non-empty base appends the relative
   * path's names to the base's components.
   */
  lemma JoinPathComponents(base: string, p: string)
    requires base != [] && !IsAbsolute(p)
    ensures Components(JoinPath(base, p)) == Components(base) + NormalParts(Split(p, '/'))
  {
    if base[|base| - 1] == '/' {
      JoinAfterSlash(base, p);
    } else {
      JoinWithSlash(base, p);
    }
  }

  lemma JoinAfterSlash(base: string, p: string)
    requires base != [] && base[|base| - 1] == '/'
    ensures Components(base + p) == Components(base) + NormalParts(Split(p, '/'))
  {
    var b := base[..|base| - 1];
    assert base == b + "/" + [];
    assert base + p == b + "/" + p;
    var names := NormalParts(Split(b, '/'));
    assert NormalParts(Split(base, '/')) == names by {
      NamesAround(b, []);
      NoNamesInEmpty();
    }
    assert NormalParts(Split(base + p, '/')) == names + NormalParts(Split(p, '/')) by {
      NamesAround(b, p);
    }
    RootOfExtend(base, p);
  }

  lemma NoNamesInEmpty()
    ensures NormalParts(Split([], '/')) == []
  {
    assert Split([], '/') == [[]];
  }

  lemma JoinWithSlash(base: string, p: string)
    requires base != []
    ensures Components(base + "/" + p) == Components(base) + NormalParts(Split(p, '/'))
  {
    NamesAround(base, p);
    RootAround(base, p);
  }

  lemma RootAround(base: string, p: string)
    requires base != []
    ensures RootOf(base + "/" + p) == RootOf(base)
  {
    assert base + "/" + p == base + (['/'] + p);
    RootOfExtend(base, ['/'] + p);
  }

  lemma NamesAround(base: string, p: string)
    ensures NormalParts(Split(base + "/" + p, '/')) == NormalParts(Split(base, '/')) + NormalParts(Split(p, '/'))
  {
    SplitAround(base, p, '/');
    NormalPartsAppend(Split(base, '/'), Split(p, '/'));
  }

  /** Text after a separator does not change the leading root or `.` component. */
  lemma RootOfExtend(base: string, t: string)
    requires base != []
    requires base[|base| - 1] == '/' || (t != [] && t[0] == '/')
    ensures RootOf(base + t) == RootOf(base)
  {
    var r := base + t;
    assert r[0] == base[0];
    if |base| >= 2 {
      assert r[..2] == base[..2];
    } else if base[0] != '/' {
      assert r[..2] == [base[0], '/'];
    }
  }

  // ---------------------------------------------------------------------
  // `expand_path` and `resolve_to_cwd`
  // ---------------------------------------------------------------------

  /** The home directory, or `"~"` when there is none. */
  function HomeOr(home: Option<string>): string
  {
    if home.Some? then home.value else "~"
  }

  /**
   * `expand_path`: Unicode spaces become `' '`; then `~` alone is the home
   * directory and `~/rest` is `rest` joined onto it.
   */
  function ExpandPath(filePath: string, home: Option<string>): string
  {
    var normalized := NormalizeUnicodeSpaces(filePath);
    if normalized == "~" then HomeOr(home)
    else if IsPrefix("~/", normalized) then JoinPath(HomeOr(home), normalized[2..])
    else normalized
  }

  predicate NoSpecialSpaces(s: string)
  {
    forall i :: 0 <= i < |s| ==> !IsSpecialUnicodeSpace(s[i])
  }

  lemma NormalizeSpacesFixes(s: string)
    ensures NoSpecialSpaces(NormalizeUnicodeSpaces(s))
    ensures NoSpecialSpaces(s) ==> NormalizeUnicodeSpaces(s) == s
  {
  }

  /** An expanded path holds no Unicode space other than what the home directory holds. */
  lemma ExpandPathHasNoSpecialSpaces(filePath: string, home: Option<string>)
    requires NoSpecialSpaces(HomeOr(home))
    ensures NoSpecialSpaces(ExpandPath(filePath, home))
  {
    var normalized := NormalizeUnicodeSpaces(filePath);
    NormalizeSpacesFixes(filePath);
    if normalized != "~" && IsPrefix("~/", normalized) {
      var h, rest := HomeOr(home), normalized[2..];
      var r := JoinPath(h, rest);
      assert NoSpecialSpaces(rest) by {
        forall i | 0 <= i < |rest| ensures !IsSpecialUnicodeSpace(rest[i]) {
          assert rest[i] == normalized[i + 2];
        }
      }
      forall i | 0 <= i < |r| ensures !IsSpecialUnicodeSpace(r[i]) {
        if !IsAbsolute(rest) {
          if i < |h| {
            assert r[i] == h[i];
          } else if i >= |r| - |rest| {
            assert r[i] == rest[i - (|r| - |rest|)];
          } else {
            assert r[i] == '/';
          }
        }
      }
    }
  }

  /**
   * Expanding twice is expanding once, when the home directory is absolute
   * (or missing) and holds no Unicode space.
   */
  lemma ExpandPathIdempotent(filePath: string, home: Option<string>)
    requires NoSpecialSpaces(HomeOr(home))
    requires home.None? || IsAbsolute(home.value)
    ensures ExpandPath(ExpandPath(filePath, home), home) == ExpandPath(filePath, home)
  {
    var h := HomeOr(home);
    var normalized := NormalizeUnicodeSpaces(filePath);
    var r := ExpandPath(filePath, home);
    ExpandPathHasNoSpecialSpaces(filePath, home);
    NormalizeSpacesFixes(r);
    assert NormalizeUnicodeSpaces(r) == r;
    if normalized == "~" {
      assert r == h;
      if home.Some? {
        assert r[0] == '/';
        assert !IsPrefix("~/", r);
      }
    } else if IsPrefix("~/", normalized) {
      var rest := normalized[2..];
      if IsAbsolute(rest) {
        assert r[0] == '/';
        assert !IsPrefix("~/", r);
      } else if home.Some? {
        assert r[..|h|] == h;
        assert r[0] == '/';
        assert !IsPrefix("~/", r);
      } else {
        assert r == "~/" + rest;
        assert r[2..] == rest;
      }
    }
  }

  /** `resolve_to_cwd` (and `resolve_path`, its alias): expand, then join onto `cwd` unless absolute. */
  function ResolveToCwd(filePath: string, cwd: string, home: Option<string>): (r: string)
    ensures IsAbsolute(cwd) ==> IsAbsolute(r)
  {
    var expanded := ExpandPath(filePath, home);
    if IsAbsolute(expanded) then expanded else JoinPath(cwd, expanded)
  }

  /**
   * A path that does not expand to an absolute one resolves to the working
   * directory's components followed by its own names.
   */
  lemma ResolveToCwdComponents(filePath: string, cwd: string, home: Option<string>)
    requires cwd != []
    ensures var expanded := ExpandPath(filePath, home);
            var r := ResolveToCwd(filePath, cwd, home);
            (IsAbsolute(expanded) ==> r == expanded)
            && (!IsAbsolute(expanded) ==>
                  Components(r) == Components(cwd) + NormalParts(Split(expanded, '/')))
  {
    var expanded := ExpandPath(filePath, home);
    if !IsAbsolute(expanded) {
      JoinPathComponents(cwd, expanded);
    }
  }

  // ---------------------------------------------------------------------
  // `resolve_read_path`
  // ---------------------------------------------------------------------

  const NarrowNoBreakSpace: char := '\U{202F}'
  const RightSingleQuote: char := '\U{2019}'

  /** `try_mac_os_screenshot_path`: `" AM."`/`" PM."` get a narrow no-break space. */
  function ScreenshotVariant(p: string): string
  {
    ReplaceAll(ReplaceAll(p, " AM.", [NarrowNoBreakSpace] + "AM."), " PM.", [NarrowNoBreakSpace] + "PM.")
  }

  /** `try_curly_quote_variant`: every `'` becomes U+2019. */
  function CurlyQuoteVariant(p: string): string
  {
    ReplaceAll(p, "'", [RightSingleQuote])
  }

  /** A pattern that starts with a character the text lacks does not occur in it. */
  lemma AbsentLead(s: string, pat: string)
    requires pat != [] && Free(s, pat[0])
    ensures !Contains(s, pat)
  {
  }

  /** Without a space or an apostrophe the fallback variants are the path itself. */
  lemma VariantsOfPlainPath(p: string)
    ensures Free(p, ' ') ==> ScreenshotVariant(p) == p
    ensures Free(p, '\'') ==> CurlyQuoteVariant(p) == p
  {
    if Free(p, ' ') {
      AbsentLead(p, " AM.");
      ReplaceAbsent(p, " AM.", [NarrowNoBreakSpace] + "AM.");
      AbsentLead(p, " PM.");
      ReplaceAbsent(p, " PM.", [NarrowNoBreakSpace] + "PM.");
    }
    if Free(p, '\'') {
      AbsentLead(p, "'");
      ReplaceAbsent(p, "'", [RightSingleQuote]);
    }
  }

  /** The first candidate that differs from `resolved` and exists, else `resolved`. */
  function FirstExisting(resolved: string, candidates: seq<string>, fileExists: string -> bool): string
  {
    if candidates == [] then resolved
    else if candidates[0] != resolved && fileExists(candidates[0]) then candidates[0]
    else FirstExisting(resolved, candidates[1..], fileExists)
  }

  /** A candidate that is not taken: it is `resolved` itself or it does not exist. */
  predicate Skipped(resolved: string, c: string, fileExists: string -> bool)
  {
    c == resolved || !fileExists(c)
  }

  /** `FirstExisting` is an ordered first-match search. */
  lemma {:induction false} FirstExistingSearch(resolved: string, candidates: seq<string>, fileExists: string -> bool)
    ensures var r := FirstExisting(resolved, candidates, fileExists);
            (r == resolved <==> forall i :: 0 <= i < |candidates| ==> Skipped(resolved, candidates[i], fileExists))
            && (r != resolved ==>
                  fileExists(r)
                  && exists k :: 0 <= k < |candidates| && r == candidates[k]
                       && forall i :: 0 <= i < k ==> Skipped(resolved, candidates[i], fileExists))
    decreases |candidates|
  {
    if candidates != [] {
      var r := FirstExisting(resolved, candidates, fileExists);
      if candidates[0] != resolved && fileExists(candidates[0]) {
        assert r == candidates[0];
        assert !Skipped(resolved, candidates[0], fileExists);
      } else {
        var rest := candidates[1..];
        FirstExistingSearch(resolved, rest, fileExists);
        assert forall i :: 1 <= i < |candidates| ==> candidates[i] == rest[i - 1];
        if r != resolved {
          var k :| 0 <= k < |rest| && r == rest[k]
                   && forall i :: 0 <= i < k ==> Skipped(resolved, rest[i], fileExists);
          assert r == candidates[k + 1];
          assert forall i :: 0 <= i < k + 1 ==> Skipped(resolved, candidates[i], fileExists) by {
            forall i | 0 <= i < k + 1 ensures Skipped(resolved, candidates[i], fileExists) {
              if i > 0 { assert candidates[i] == rest[i - 1]; }
            }
          }
        }
      }
    }
  }

  /** The fallbacks in the order they are tried; NFD normalisation is a parameter. */
  function ReadCandidates(resolved: string, nfd: string -> string): seq<string>
  {
    [ScreenshotVariant(resolved), nfd(resolved), CurlyQuoteVariant(resolved), CurlyQuoteVariant(nfd(resolved))]
  }

  /**
   * `resolve_read_path`: the resolved path if it exists, else the first
   * screenshot-name variant that differs from it and exists, else the
   * resolved path. File existence and NFD normalisation are parameters.
   */
  function ResolveReadPath(filePath: string, cwd: string, home: Option<string>,
                           fileExists: string -> bool, nfd: string -> string): string
  {
    var resolved := ResolveToCwd(filePath, cwd, home);
    if fileExists(resolved) then resolved
    else FirstExisting(resolved, ReadCandidates(resolved, nfd), fileExists)
  }

  /**
   * The read path is the resolved path or an existing variant; an existing
   * resolved path always wins, and a path with no space, no apostrophe and
   * nothing to decompose is never swapped.
   */
  lemma ResolveReadPathChoice(filePath: string, cwd: string, home: Option<string>,
                              fileExists: string -> bool, nfd: string -> string)
    ensures var resolved := ResolveToCwd(filePath, cwd, home);
            var r := ResolveReadPath(filePath, cwd, home, fileExists, nfd);
            var cs := ReadCandidates(resolved, nfd);
            (r == resolved || fileExists(r))
            && (fileExists(resolved) ==> r == resolved)
            && (r != resolved ==>
                  exists k :: 0 <= k < |cs| && r == cs[k]
                    && forall i :: 0 <= i < k ==> Skipped(resolved, cs[i], fileExists))
            && (Free(resolved, ' ') && Free(resolved, '\'') && nfd(resolved) == resolved ==> r == resolved)
  {
    var resolved := ResolveToCwd(filePath, cwd, home);
    var cs := ReadCandidates(resolved, nfd);
    FirstExistingSearch(resolved, cs, fileExists);
    VariantsOfPlainPath(resolved);
    if Free(resolved, ' ') && Free(resolved, '\'') && nfd(resolved) == resolved {
      assert forall i :: 0 <= i < |cs| ==> Skipped(resolved, cs[i], fileExists);
    }
  }

  // ---------------------------------------------------------------------
  // File names, extensions and images
  // ---------------------------------------------------------------------

  /** `path.file_name()`: the last component when it is a name. */
  function FileName(p: string): (r: Option<string>)
    ensures r.Some? ==> r.value != [] && r.value != "." && r.value != ".." && Free(r.value, '/')
  {
    var cs := Components(p);
    if cs == [] then None
    else
      var last := cs[|cs| - 1];
      if last == "/" || last == "." || last == ".." then None
      else
        SplitKeepsFreeSep(p);
        Some(last)
  }

  /** The pieces of a split on `'/'` hold no `'/'`, nor do the components. */
  lemma SplitKeepsFreeSep(p: string)
    ensures forall i :: 0 <= i < |Components(p)| ==> Components(p)[i] == "/" || Free(Components(p)[i], '/')
  {
    var root, pieces := RootOf(p), Split(p, '/');
    SplitPiecesFree(p, '/');
    forall i | 0 <= i < |Components(p)|
      ensures Components(p)[i] == "/" || Free(Components(p)[i], '/')
    {
      if i >= |root| {
        assert Components(p)[i] == NormalParts(pieces)[i - |root|];
        NormalPartsFrom(pieces, i - |root|, '/');
      }
    }
  }

  /** Index of the last occurrence of `c`. */
  function LastIndexOf(s: string, c: char): (r: Option<nat>)
    ensures r.Some? ==> r.value < |s| && s[r.value] == c && forall i :: r.value < i < |s| ==> s[i] != c
    ensures r.None? ==> Free(s, c)
  {
    if s == [] then None
    else if s[|s| - 1] == c then Some(|s| - 1)
    else LastIndexOf(s[..|s| - 1], c)
  }

  /**
   * `Path::extension` of a file name: the text after the last `'.'`, unless
   * there is no `'.'`, the only `'.'` leads the name, or the name is `..`.
   */
  function NameExtension(name: string): Option<string>
  {
    if name == ".." then None
    else match LastIndexOf(name, '.')
      case None => None
      case Some(k) => if k == 0 then None else Some(name[k + 1..])
  }

  function Extension(p: string): Option<string>
  {
    match FileName(p)
    case None => None
    case Some(name) => NameExtension(name)
  }

  /**
   * A file name has extension `e` exactly when it is a non-empty stem, a
   * `'.'` and `e`, with no `'.'` in `e`.
   */
  lemma NameExtensionIffStemDot(name: string, e: string)
    requires name != ".."
    ensures NameExtension(name) == Some(e) <==>
              |name| > |e| + 1 && name[|name| - |e| - 1] == '.' && IsSuffix(e, name) && Free(e, '.')
  {
    var k := |name| - |e| - 1;
    if NameExtension(name) == Some(e) {
      var j := LastIndexOf(name, '.').value;
      assert name[j + 1..] == e;
      assert Free(e, '.') by {
        forall i | 0 <= i < |e| ensures e[i] != '.' {
          assert e[i] == name[j + 1 + i];
        }
      }
    }
    if |name| > |e| + 1 && name[k] == '.' && IsSuffix(e, name) && Free(e, '.') {
      assert forall i :: k < i < |name| ==> name[i] == e[i - k - 1];
      var j := LastIndexOf(name, '.');
      assert j == Some(k);
    }
  }

  const OctetStream: string := "application/octet-stream"

  /**
   * The extension, ASCII-lowercased, or empty. The source lowers with
   * Unicode `to_lowercase`; on the image tables the two agree, as
   * `AsciiLoweringSuffices` shows.
   */
  function LowerExtension(p: string): string
  {
    match Extension(p)
    case None => ""
    case Some(e) => ToAsciiLower(e)
  }

  predicate IsImageExtension(ext: string)
  {
    ext in {"jpg", "jpeg", "png", "gif", "webp", "bmp", "ico", "tiff", "tif"}
  }

  function MimeForExtension(ext: string): string
  {
    match ext
    case "jpg" => "image/jpeg"
    case "jpeg" => "image/jpeg"
    case "png" => "image/png"
    case "gif" => "image/gif"
    case "webp" => "image/webp"
    case "bmp" => "image/bmp"
    case "ico" => "image/x-icon"
    case "tiff" => "image/tiff"
    case "tif" => "image/tiff"
    case _ => OctetStream
  }

  /** `is_image_file`. */
  predicate IsImageFile(p: string)
  {
    IsImageExtension(LowerExtension(p))
  }

  /** `image_mime_type`. */
  function ImageMimeType(p: string): string
  {
    MimeForExtension(LowerExtension(p))
  }

  /**
   * ASCII lowering is enough for the image tables. Every table entry is
   * lowercase ASCII without a `k`, so the Kelvin sign (the one non-ASCII
   * character whose lowercase is ASCII, `k`) cannot lower into one. An
   * extension holding any other non-ASCII character keeps it under either
   * lowering and matches neither table.
   */
  lemma AsciiLoweringSuffices(ext: string)
    ensures IsImageExtension(ext) ==>
              forall i :: 0 <= i < |ext| ==> 'a' <= ext[i] <= 'z' && ext[i] != 'k'
    ensures (exists i :: 0 <= i < |ext| && ext[i] > '\U{007F}') ==>
              !IsImageExtension(ToAsciiLower(ext)) && MimeForExtension(ToAsciiLower(ext)) == OctetStream
  {
    if exists i :: 0 <= i < |ext| && ext[i] > '\U{007F}' {
      var i :| 0 <= i < |ext| && ext[i] > '\U{007F}';
      var lowered := ToAsciiLower(ext);
      assert lowered[i] == ext[i];
      ExtensionTablesAgree(lowered);
    }
  }

  /** The two extension tables agree: an image has an `image/` type, anything else the fallback. */
  lemma ImageTablesAgree(p: string)
    ensures IsImageFile(p) <==> ImageMimeType(p) != OctetStream
    ensures IsImageFile(p) ==> IsPrefix("image/", ImageMimeType(p))
  {
    ExtensionTablesAgree(LowerExtension(p));
  }

  /** The same on the lowercased extension. */
  lemma ExtensionTablesAgree(ext: string)
    ensures IsImageExtension(ext) <==> MimeForExtension(ext) != OctetStream
    ensures IsImageExtension(ext) ==> IsPrefix("image/", MimeForExtension(ext))
  {
    if !IsImageExtension(ext) {
      assert MimeForExtension(ext) == OctetStream;
    }
  }

  /** Upper-case extensions are recognised; only the last `.` counts. */
  lemma ImageNameExamples()
    ensures NameExtension("Shot.PNG") == Some("PNG") && MimeForExtension(ToAsciiLower("PNG")) == "image/png"
    ensures NameExtension("b.tar.jpeg") == Some("jpeg")
  {
    NameExtensionIffStemDot("Shot.PNG", "PNG");
    assert ToAsciiLower("PNG") == "png";
    NameExtensionIffStemDot("b.tar.jpeg", "jpeg");
  }

  // ---------------------------------------------------------------------
  // `format_grep_path`
  // ---------------------------------------------------------------------

  /** The text of a run of components, as `Path::display` prints it. */
  function ComponentsText(cs: seq<string>): string
  {
    if cs != [] && cs[0] == "/" then "/" + Join(cs[1..], '/') else Join(cs, '/')
  }

  function BackslashToSlash(c: char): char
  {
    if c == '\\' then '/' else c
  }

  function FileNameText(p: string): string
  {
    match FileName(p)
    case None => ""
    case Some(name) => name
  }

  /**
   * `format_grep_path`: inside a searched directory, the path relative to it
   * (backslashes turned into `'/'`) unless that is empty or starts with
   * `".."`; otherwise the file name, or nothing.
   */
  function FormatGrepPath(filePath: string, searchPath: string, isDirectory: bool): string
  {
    var fc, sc := Components(filePath), Components(searchPath);
    if isDirectory && IsPrefix(sc, fc) then
      var rel := Map(ComponentsText(fc[|sc|..]), BackslashToSlash);
      if rel != [] && !IsPrefix("..", rel) then rel else FileNameText(filePath)
    else FileNameText(filePath)
  }

  /** Outside the directory case the printed path is the file name. */
  lemma FormatGrepPathFallback(filePath: string, searchPath: string, isDirectory: bool)
    requires !isDirectory || !IsPrefix(Components(searchPath), Components(filePath))
    ensures FormatGrepPath(filePath, searchPath, isDirectory) == FileNameText(filePath)
    ensures FileNameText(filePath) == [] || Free(FileNameText(filePath), '/')
  {
  }

  /**
   * A file strictly inside the searched directory, whose first remaining
   * name does not start with `..` and whose path holds no backslash, is
   * printed as the remaining names joined by `'/'`; splitting that text
   * on `'/'` and appending it to the directory's components gives the
   * file's components back.
   */
  lemma FormatGrepPathRelative(filePath: string, searchPath: string)
    requires IsPrefix(Components(searchPath), Components(filePath))
    requires var rest := Components(filePath)[|Components(searchPath)|..];
             rest != [] && rest[0] != "/" && !IsPrefix("..", rest[0])
    requires Free(filePath, '\\')
    ensures var rest := Components(filePath)[|Components(searchPath)|..];
            var r := FormatGrepPath(filePath, searchPath, true);
            r == Join(rest, '/') && Components(searchPath) + Split(r, '/') == Components(filePath)
  {
    var fc, sc := Components(filePath), Components(searchPath);
    var rest := fc[|sc|..];
    var text := Join(rest, '/');
    assert forall i :: 0 <= i < |rest| ==> Free(rest[i], '/') && Free(rest[i], '\\') by {
      ComponentsFreeOfBackslash(filePath);
      NamesFromFree(filePath, |sc|);
      forall i | 0 <= i < |rest| ensures Free(rest[i], '/') && Free(rest[i], '\\') {
        assert rest[i] == fc[|sc| + i];
      }
    }
    assert rest[0] != [] by {
      NonEmptyComponents(filePath, |sc|);
    }
    assert ComponentsText(rest) == text;
    assert Map(text, BackslashToSlash) == text by {
      JoinKeepsFree(rest, '/', '\\');
      NoBackslashUnchanged(text);
    }
    JoinedNamesNotDotDot(rest);
    SplitJoin(rest, '/');
    assert sc + rest == fc;
  }

  /** The components of a path without backslashes hold none. */
  lemma ComponentsFreeOfBackslash(p: string)
    requires Free(p, '\\')
    ensures forall i :: 0 <= i < |Components(p)| ==> Free(Components(p)[i], '\\')
  {
    forall i | 0 <= i < |Components(p)|
      ensures Free(Components(p)[i], '\\')
    {
      ComponentFreeOfBackslash(p, i);
    }
  }

  lemma ComponentFreeOfBackslash(p: string, i: nat)
    requires Free(p, '\\') && i < |Components(p)|
    ensures Free(Components(p)[i], '\\')
  {
    var root := RootOf(p);
    if i >= |root| {
      var pieces := Split(p, '/');
      SplitKeepsFree(p, '/', '\\');
      IndexAfter(root, NormalParts(pieces), Components(p), i);
      NormalPartsFrom(pieces, i - |root|, '\\');
    }
  }

  /** From a component other than the root on, no component holds `'/'`. */
  lemma NamesFromFree(p: string, k: nat)
    requires k < |Components(p)| && Components(p)[k] != "/"
    ensures forall i :: k <= i < |Components(p)| ==> Free(Components(p)[i], '/')
  {
    SplitKeepsFreeSep(p);
    forall i | k <= i < |Components(p)|
      ensures Free(Components(p)[i], '/')
    {
      if i > k {
        RootOnlyFirst(p, i);
      }
    }
  }

  /** Text without backslashes is left alone by the backslash rewrite. */
  lemma NoBackslashUnchanged(t: string)
    requires Free(t, '\\')
    ensures Map(t, BackslashToSlash) == t
  {
  }

  /** Names joined by `'/'` start with the first name, so the text is neither empty nor `..`-led. */
  lemma JoinedNamesNotDotDot(rest: seq<string>)
    requires rest != [] && rest[0] != [] && !IsPrefix("..", rest[0]) && Free(rest[0], '/')
    ensures Join(rest, '/') != [] && !IsPrefix("..", Join(rest, '/'))
  {
    var text := Join(rest, '/');
    if |rest| > 1 {
      JoinCons(rest[0], rest[1..], '/');
      assert rest == [rest[0]] + rest[1..];
    }
    assert text[..|rest[0]|] == rest[0];
    if |rest[0]| == 1 && |text| >= 2 {
      assert text[1] == '/';
    }
    if |rest[0]| >= 2 {
      assert text[..2] == rest[0][..2];
    }
  }

  /** Every name in `NormalParts` is one of the pieces. */
  lemma {:induction false} NormalPartsFrom(pieces: seq<string>, j: nat, x: char)
    requires forall i :: 0 <= i < |pieces| ==> Free(pieces[i], x)
    requires j < |NormalParts(pieces)|
    ensures Free(NormalParts(pieces)[j], x)
    decreases |pieces|
  {
    var head := if pieces[0] == [] || pieces[0] == "." then [] else [pieces[0]];
    if j >= |head| {
      NormalPartsFrom(pieces[1..], j - |head|, x);
    }
  }

  /** Only the first component can be the root. */
  lemma RootOnlyFirst(p: string, i: nat)
    requires 0 < i < |Components(p)|
    ensures Components(p)[i] != "/"
  {
    var root := RootOf(p);
    var np := NormalParts(Split(p, '/'));
    assert |root| <= 1;
    var name := np[i - |root|];
    assert Components(p)[i] == name;
    assert name != [] && name[0] != '/' by {
      SplitPiecesFree(p, '/');
      NormalPartsFrom(Split(p, '/'), i - |root|, '/');
    }
  }

  lemma NonEmptyComponents(p: string, i: nat)
    requires i < |Components(p)|
    ensures Components(p)[i] != []
  {
    var root := RootOf(p);
    if i >= |root| {
      IndexAfter(root, NormalParts(Split(p, '/')), Components(p), i);
    }
  }

  /** Past the end of `a`, the entries of `a + b` are those of `b`. */
  lemma IndexAfter<T>(a: seq<T>, b: seq<T>, c: seq<T>, i: nat)
    requires c == a + b && |a| <= i < |c|
    ensures c[i] == b[i - |a|]
  {
  }
}
