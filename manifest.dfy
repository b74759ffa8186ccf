/**
 * The artifact provenance manifest generator. For each extension of the
 * master catalog it infers a name, a license and a source: from the
 * artifact's `package.json`, from its license file, or from the catalog's
 * naming conventions. It then lists the items sorted by id. The generator
 * reaches files only through a `Disk` of oracle functions.
 */
module Manifest {
  import opened Wrappers
  import opened Seqs
  import opened Chars
  import Paths

  const PI_MONO_REPO: string := "https://github.com/badlogic/pi-mono"

  /** One extension of the master catalog. */
  datatype CatalogExtension = CatalogExtension(id: string, directory: string, sourceTier: string,
                                               extensionFiles: seq<string>, checksum: string)

  /** The JSON value of a `repository` field: a string, an object, or any other shape. */
  datatype JsonValue = JString(s: string) | JObject(fields: map<string, JsonValue>) | JOther

  /** The fields of `package.json` the generator reads. */
  datatype PackageJson = PackageJson(name: Option<string>, version: Option<string>, license: Option<string>,
                                     repository: Option<JsonValue>, homepage: Option<string>)

  datatype ProvenanceSource =
    | Git(repo: string, path: Option<string>)
    | Npm(package: string, version: Option<string>, url: string)
    | Url(url: string)
    | Unknown(note: string)

  datatype ProvenanceItem = ProvenanceItem(id: string, directory: string, retrieved: string, sha256: string,
                                           name: Option<string>, version: Option<string>, license: string,
                                           source: ProvenanceSource)

  datatype ProvenanceManifest = ProvenanceManifest(schema: string, generated: string, artifactRoot: string,
                                                   items: seq<ProvenanceItem>)

  /**
   * The file system as the generator sees it: whether a path exists, the
   * text of a file when it reads as UTF-8, and the outcome of reading and
   * parsing an existing `package.json`.
   */
  datatype Disk = Disk(pathExists: string -> bool, readText: string -> Option<string>,
                       packageJson: string -> Result<PackageJson, string>)

  // ---------------------------------------------------------------------
  // Repository URLs
  // ---------------------------------------------------------------------

  /** `Path::new(v).extension()` is `git`, in any ASCII case. */
  predicate HasGitExtension(v: string)
  {
    var e := Paths.Extension(v);
    e.Some? && EqIgnoreAsciiCase(e.value, "git")
  }

  /**
   * `normalize_repo_url`: trim it; if nothing is left there is no URL. Drop
   * one leading `git+`. When the last path component has a `git` extension
   * in any case, drop the last four characters.
   */
  function NormalizeRepoUrl(raw: string): Option<string>
  {
    var value := Trim(raw);
    if value == [] then None
    else
      var stripped := StripPrefix(value, "git+");
      if HasGitExtension(stripped) then Some(stripped[..if |stripped| >= 4 then |stripped| - 4 else 0])
      else Some(stripped)
  }

  /** The last `'/'`-separated piece of a path. */
  function LastPiece(v: string): string
  {
    var pieces := Split(v, '/');
    pieces[|pieces| - 1]
  }

  /** The path ends in a file name: its last piece is neither empty, `.` nor `..`. */
  predicate EndsInName(v: string)
  {
    var name := LastPiece(v);
    name != [] && name != "." && name != ".."
  }

  /** The path ends in a name with a non-empty stem and a `.git` extension, in any case. */
  predicate EndsInGitName(v: string)
  {
    var name := LastPiece(v);
    |name| > 4 && ToAsciiLower(name[|name| - 4..]) == ".git"
  }

  /** The real names among the pieces end with the last piece when that piece is a name. */
  lemma {:induction false} NormalPartsLast(pieces: seq<string>)
    requires pieces != []
    requires pieces[|pieces| - 1] != [] && pieces[|pieces| - 1] != "."
    ensures var parts := Paths.NormalParts(pieces);
            parts != [] && parts[|parts| - 1] == pieces[|pieces| - 1]
    decreases |pieces|
  {
    if |pieces| > 1 {
      NormalPartsLast(pieces[1..]);
    }
  }

  /** A path that ends in a name has that name as its file name. */
  lemma FileNameIsLastPiece(v: string)
    requires EndsInName(v)
    ensures Paths.FileName(v) == Some(LastPiece(v))
  {
    var pieces := Split(v, '/');
    var name := pieces[|pieces| - 1];
    NormalPartsLast(pieces);
    var parts := Paths.NormalParts(pieces);
    var cs := Paths.RootOf(v) + parts;
    assert cs[|cs| - 1] == name;
    assert name != "/" by {
      SplitPiecesFree(v, '/');
      assert name[0] != '/';
    }
    FileNameOfLastComponent(v, name);
  }

  /** A path whose last component is a name has that name as its file name. */
  lemma FileNameOfLastComponent(v: string, name: string)
    requires var cs := Paths.Components(v); cs != [] && cs[|cs| - 1] == name
    requires name != "/" && name != "." && name != ".."
    ensures Paths.FileName(v) == Some(name)
  {
  }

  /** A file name has a `git` extension in some case exactly when it ends in `.git` after a non-empty stem. */
  lemma GitExtensionOfName(name: string)
    requires name != ".."
    ensures var e := Paths.NameExtension(name);
            (e.Some? && EqIgnoreAsciiCase(e.value, "git")) <==>
              |name| > 4 && ToAsciiLower(name[|name| - 4..]) == ".git"
  {
    var e := Paths.NameExtension(name);
    if e.Some? && EqIgnoreAsciiCase(e.value, "git") {
      Paths.NameExtensionIffStemDot(name, e.value);
      assert |e.value| == 3;
      assert name[|name| - 4..] == ['.'] + e.value;
    }
    if |name| > 4 && ToAsciiLower(name[|name| - 4..]) == ".git" {
      var ext := name[|name| - 3..];
      assert ToAsciiLower(ext) == "git" by {
        assert ToAsciiLower(name[|name| - 4..])[1..] == ToAsciiLower(ext);
      }
      assert name[|name| - 4] == '.' by {
        assert ToAsciiLower(name[|name| - 4..])[0] == AsciiLower(name[|name| - 4]);
      }
      assert Free(ext, '.') by {
        forall i | 0 <= i < 3 ensures ext[i] != '.' {
          assert AsciiLower(ext[i]) == "git"[i];
        }
      }
      Paths.NameExtensionIffStemDot(name, ext);
    }
  }

  /**
   * For a URL whose last piece is a file name, the result is the trimmed
   * URL without its `git+` prefix. If that name ends in `.git` (any case)
   * after a non-empty stem, those four characters are dropped too.
   */
  lemma NormalizeRepoUrlDropsGit(raw: string)
    requires var v := StripPrefix(Trim(raw), "git+"); EndsInName(v)
    ensures var v := StripPrefix(Trim(raw), "git+"); EndsInGitName(v) ==> |v| > 4
    ensures var v := StripPrefix(Trim(raw), "git+");
            NormalizeRepoUrl(raw) == Some(if EndsInGitName(v) then v[..|v| - 4] else v)
  {
    var v := StripPrefix(Trim(raw), "git+");
    GitNameDecides(v);
  }

  /** For a path ending in a name, the extension test is the `.git` ending of that name. */
  lemma GitNameDecides(v: string)
    requires EndsInName(v)
    ensures HasGitExtension(v) <==> EndsInGitName(v)
    ensures EndsInGitName(v) ==> |v| > 4
  {
    var name := LastPiece(v);
    FileNameIsLastPiece(v);
    GitExtensionOfFileName(v, name);
    SplitLastIsSuffix(v, '/');
    assert |name| <= |v|;
  }

  /** The extension test on a path is the `.git` ending of its file name. */
  lemma GitExtensionOfFileName(v: string, name: string)
    requires Paths.FileName(v) == Some(name)
    ensures HasGitExtension(v) <==> |name| > 4 && ToAsciiLower(name[|name| - 4..]) == ".git"
  {
    GitExtensionOfName(name);
  }

  /** A blank URL is no URL; anything else gives some text. */
  lemma NormalizeRepoUrlBlank(raw: string)
    ensures NormalizeRepoUrl(raw).None? <==> forall i :: 0 <= i < |raw| ==> IsWhitespace(raw[i])
  {
    TrimEmptyIffBlank(raw);
  }

  /** A trailing `'/'` after a `.git` name makes the cut take the slash and keep the dot. */
  lemma NormalizeRepoUrlTrailingSlash()
    ensures NormalizeRepoUrl("a.git/") == Some("a.")
  {
    var v := "a.git/";
    TrailingSlashTrim();
    assert StripPrefix(v, "git+") == v by {
      assert v[..4] != "git+";
    }
    TrailingSlashComponents();
    assert Paths.FileName(v) == Some("a.git") by {
      assert "a.git" != "/" && "a.git" != "." && "a.git" != "..";
    }
    TrailingSlashExtension();
    assert HasGitExtension(v);
    assert v[..2] == "a.";
  }

  /**
   * The same for any URL: when what is left after trimming and dropping
   * `git+` is a path ending in a `.git` name followed by one `'/'`, the
   * component test still sees the `.git` name, but the last four characters
   * are `"git/"`, so the result keeps the name's dot.
   */
  lemma NormalizeRepoUrlSlashAfterGit(raw: string, s: string)
    requires StripPrefix(Trim(raw), "git+") == s + "/"
    requires EndsInGitName(s)
    ensures |s| > 4 && s[|s| - 4] == '.'
    ensures NormalizeRepoUrl(raw) == Some(s[..|s| - 3])
  {
    GitNameDot(s);
    GitNameBeforeSlash(s);
    var v := s + "/";
    assert Trim(raw) != [];
    assert v[..|v| - 4] == s[..|s| - 3];
  }

  /** A path ending in a `.git` name is longer than four characters, the fourth from last a dot. */
  lemma GitNameDot(s: string)
    requires EndsInGitName(s)
    ensures |s| > 4 && s[|s| - 4] == '.'
  {
    var name := LastPiece(s);
    SplitLastIsSuffix(s, '/');
    assert name == s[|s| - |name|..];
    assert name[|name| - 4] == '.' by {
      assert ToAsciiLower(name[|name| - 4..])[0] == AsciiLower(name[|name| - 4]);
    }
  }

  /** The extension test still sees a `.git` name behind one trailing `'/'`. */
  lemma GitNameBeforeSlash(s: string)
    requires EndsInGitName(s)
    ensures HasGitExtension(s + "/")
  {
    var name := LastPiece(s);
    SplitLastIsSuffix(s, '/');
    assert EndsInName(s);
    FileNameIsLastPiece(s);
    ComponentsTrailingSlash(s);
    GitExtensionOfFileName(s + "/", name);
  }

  /** One trailing `'/'` after a path of two or more characters changes none of its components. */
  lemma ComponentsTrailingSlash(s: string)
    requires |s| >= 2
    ensures Paths.Components(s + "/") == Paths.Components(s)
  {
    assert s + "/" == s + ['/'] + [];
    SplitAround(s, [], '/');
    Paths.NormalPartsAppend(Split(s, '/'), [[]]);
    assert Paths.NormalParts([[]]) == [];
    assert IsPrefix("./", s + "/") <==> IsPrefix("./", s) by {
      assert (s + "/")[..2] == s[..2];
    }
  }

  lemma TrailingSlashTrim()
    ensures Trim("a.git/") == "a.git/"
  {
    TrimOfSolid("a.git/");
  }

  lemma TrailingSlashComponents()
    ensures Paths.Components("a.git/") == ["a.git"]
  {
    var v := "a.git/";
    TrailingSlashSplit();
    assert Paths.RootOf(v) == [] by {
      assert v[..2] != "./";
    }
    assert Paths.NormalParts(["a.git", ""]) == ["a.git"] by {
      assert ["a.git", ""][1..] == [""];
      assert Paths.NormalParts([""]) == [];
    }
  }

  lemma TrailingSlashSplit()
    ensures Split("a.git/", '/') == ["a.git", ""]
  {
    assert "a.git/" == "a.git" + ['/'] + [];
    SplitAround("a.git", [], '/');
    SplitFree("a.git", '/');
  }

  lemma TrailingSlashExtension()
    ensures Paths.NameExtension("a.git") == Some("git")
    ensures EqIgnoreAsciiCase("git", "git")
  {
    var name := "a.git";
    assert name[..4] == "a.gi" && "a.gi"[..3] == "a.g" && "a.g"[..2] == "a.";
    assert Paths.LastIndexOf("a.", '.') == Some(1);
    assert Paths.LastIndexOf(name, '.') == Some(1);
    assert name[2..] == "git";
  }

  /**
   * `extract_repository_url`: the `repository` string, or the `url` string
   * of a `repository` object, normalised; any other shape gives nothing.
   */
  function ExtractRepositoryUrl(pkg: PackageJson): Option<string>
  {
    match pkg.repository
    case None => None
    case Some(JString(s)) => NormalizeRepoUrl(s)
    case Some(JObject(fields)) =>
      if "url" in fields && fields["url"].JString? then NormalizeRepoUrl(fields["url"].s) else None
    case Some(JOther) => None
  }

  /** The raw URL text `extract_repository_url` reads, if the field has one of its two shapes. */
  function RepositoryText(pkg: PackageJson): Option<string>
  {
    match pkg.repository
    case Some(JString(s)) => Some(s)
    case Some(JObject(fields)) => if "url" in fields && fields["url"].JString? then Some(fields["url"].s) else None
    case _ => None
  }

  /**
   * A repository URL comes from a string in one of the two shapes, and is
   * that string normalised: there is one exactly when such a string exists
   * and is not blank.
   */
  lemma ExtractRepositoryUrlFromText(pkg: PackageJson)
    ensures ExtractRepositoryUrl(pkg) == (match RepositoryText(pkg) case None => None case Some(s) => NormalizeRepoUrl(s))
    ensures ExtractRepositoryUrl(pkg).Some? <==>
              RepositoryText(pkg).Some? && !(forall i :: 0 <= i < |RepositoryText(pkg).value| ==> IsWhitespace(RepositoryText(pkg).value[i]))
  {
    if RepositoryText(pkg).Some? {
      NormalizeRepoUrlBlank(RepositoryText(pkg).value);
    }
  }

  // ---------------------------------------------------------------------
  // Community authors
  // ---------------------------------------------------------------------

  /** Index of the first `c`, as `split_once(c)` finds it. */
  function IndexOf(s: string, c: char): (r: Option<nat>)
    ensures r.Some? ==> r.value < |s| && s[r.value] == c && Free(s[..r.value], c)
    ensures r.None? ==> Free(s, c)
  {
    if s == [] then None
    else if s[0] == c then Some(0)
    else match IndexOf(s[1..], c)
      case None => None
      case Some(k) =>
        assert s[..k + 1] == [s[0]] + s[1..][..k];
        Some(k + 1)
  }

  predicate Blank(s: string)
  {
    forall i :: 0 <= i < |s| ==> IsWhitespace(s[i])
  }

  /**
   * `community_author_from_directory`: under `community/`, the text before
   * the first `'-'`, unless it is blank.
   */
  function CommunityAuthorFromDirectory(directory: string): Option<string>
  {
    if !IsPrefix("community/", directory) then None
    else
      var slug := directory[10..];
      match IndexOf(slug, '-')
      case None => None
      case Some(k) => if Trim(slug[..k]) == [] then None else Some(slug[..k])
  }

  /**
   * An author is found only in `community/<author>-<rest>` with a
   * non-blank author free of `'-'`; nothing is found without the
   * `community/` prefix or without a `'-'` after it.
   */
  lemma CommunityAuthorSound(directory: string)
    ensures var r := CommunityAuthorFromDirectory(directory);
            (r.Some? ==> Free(r.value, '-') && !Blank(r.value)
                         && IsPrefix("community/" + r.value + "-", directory))
            && (!IsPrefix("community/", directory) ==> r.None?)
            && (IsPrefix("community/", directory) && Free(directory[10..], '-') ==> r.None?)
  {
    var r := CommunityAuthorFromDirectory(directory);
    if r.Some? {
      var slug := directory[10..];
      var k := IndexOf(slug, '-').value;
      TrimEmptyIffBlank(slug[..k]);
      assert directory[..10 + k + 1] == "community/" + r.value + "-";
    }
  }

  /** Every `community/<author>-<rest>` with a non-blank author free of `'-'` yields that author. */
  lemma CommunityAuthorComplete(author: string, rest: string)
    requires Free(author, '-') && !Blank(author)
    ensures CommunityAuthorFromDirectory("community/" + author + "-" + rest) == Some(author)
  {
    var d := "community/" + author + "-" + rest;
    assert d[..10] == "community/";
    var slug := d[10..];
    assert slug == author + "-" + rest;
    IndexOfFirst(author, rest, '-');
    assert slug[..|author|] == author;
    TrimEmptyIffBlank(author);
  }

  /** The first `c` of `a + [c] + b`, for `a` free of `c`, is at `|a|`. */
  lemma {:induction false} IndexOfFirst(a: string, b: string, c: char)
    requires Free(a, c)
    ensures IndexOf(a + [c] + b, c) == Some(|a|)
    decreases |a|
  {
    if a != [] {
      IndexOfFirst(a[1..], b, c);
      assert (a + [c] + b)[1..] == a[1..] + [c] + b;
    }
  }

  // ---------------------------------------------------------------------
  // Licenses
  // ---------------------------------------------------------------------

  /**
   * `detect_spdx_from_text`: fixed-order tests on the ASCII-uppercased
   * text. MIT comes first, then Apache 2.0 (which needs both phrases), then
   * the GPL and then the LGPL, each refined by its version phrase.
   */
  function DetectSpdxFromText(text: string): Option<string>
  {
    var upper := ToAsciiUpper(text);
    if Contains(upper, "MIT LICENSE") then Some("MIT")
    else if Contains(upper, "APACHE LICENSE") && Contains(upper, "VERSION 2.0") then Some("Apache-2.0")
    else if Contains(upper, "GNU GENERAL PUBLIC LICENSE") then
      if Contains(upper, "VERSION 3") then Some("GPL-3.0")
      else if Contains(upper, "VERSION 2") then Some("GPL-2.0")
      else Some("GPL")
    else if Contains(upper, "GNU LESSER GENERAL PUBLIC LICENSE") then
      if Contains(upper, "VERSION 3") then Some("LGPL-3.0")
      else if Contains(upper, "VERSION 2.1") then Some("LGPL-2.1")
      else Some("LGPL")
    else None
  }

  const GplIds: set<string> := {"GPL-3.0", "GPL-2.0", "GPL"}
  const LgplIds: set<string> := {"LGPL-3.0", "LGPL-2.1", "LGPL"}

  /**
   * The priority of the tests. An MIT phrase decides whatever else the text
   * says. Apache needs both of its phrases. A GPL id is reported exactly
   * when the GNU GPL is named and neither earlier test passed. An LGPL id is
   * reported only when the GNU GPL is not named too, since the GPL's title
   * is tested first.
   */
  lemma SpdxPriority(text: string)
    ensures var u := ToAsciiUpper(text);
            var r := DetectSpdxFromText(text);
            var apache := Contains(u, "APACHE LICENSE") && Contains(u, "VERSION 2.0");
            var gpl := Contains(u, "GNU GENERAL PUBLIC LICENSE");
            var lgpl := Contains(u, "GNU LESSER GENERAL PUBLIC LICENSE");
            (r == Some("MIT") <==> Contains(u, "MIT LICENSE"))
            && (r == Some("Apache-2.0") <==> !Contains(u, "MIT LICENSE") && apache)
            && (r.Some? && r.value in GplIds <==> !Contains(u, "MIT LICENSE") && !apache && gpl)
            && (r.Some? && r.value in LgplIds <==> !Contains(u, "MIT LICENSE") && !apache && !gpl && lgpl)
            && (r.None? <==> !Contains(u, "MIT LICENSE") && !apache && !gpl && !lgpl)
            && (r == Some("GPL-3.0") || r == Some("LGPL-3.0") ==> Contains(u, "VERSION 3"))
  {
  }

  /** Upper-casing after lower-casing is upper-casing. */
  lemma UpperOfLower(s: string)
    ensures ToAsciiUpper(ToAsciiLower(s)) == ToAsciiUpper(s)
    ensures ToAsciiUpper(ToAsciiUpper(s)) == ToAsciiUpper(s)
  {
    var a, b, c := ToAsciiUpper(ToAsciiLower(s)), ToAsciiUpper(s), ToAsciiUpper(ToAsciiUpper(s));
    forall i | 0 <= i < |s| ensures a[i] == b[i] && c[i] == b[i] {
      assert a[i] == AsciiUpper(AsciiLower(s[i]));
      assert c[i] == AsciiUpper(AsciiUpper(s[i]));
    }
  }

  /** The detection ignores ASCII case: the text, its upper-cased and its lower-cased forms agree. */
  lemma SpdxIgnoresCase(text: string)
    ensures DetectSpdxFromText(ToAsciiUpper(text)) == DetectSpdxFromText(text)
    ensures DetectSpdxFromText(ToAsciiLower(text)) == DetectSpdxFromText(text)
  {
    UpperOfLower(text);
  }

  /** The file names tried, in order. */
  const LicenseCandidates: seq<string> := ["LICENSE", "LICENSE.md", "LICENSE.txt", "COPYING", "COPYING.md", "COPYING.txt"]

  /** What a readable license file says: its SPDX id, or `SEE_LICENSE`. */
  function LicenseOfText(text: string): string
  {
    match DetectSpdxFromText(text)
    case Some(id) => id
    case None => "SEE_LICENSE"
  }

  /** The file exists and reads as text. */
  predicate Readable(disk: Disk, path: string)
  {
    disk.pathExists(path) && disk.readText(path).Some?
  }

  /** The first readable candidate among `names` under `dir` decides. */
  function LicenseFromCandidates(disk: Disk, dir: string, names: seq<string>): Option<string>
  {
    if names == [] then None
    else
      var path := Paths.JoinPath(dir, names[0]);
      if Readable(disk, path) then Some(LicenseOfText(disk.readText(path).value))
      else LicenseFromCandidates(disk, dir, names[1..])
  }

  /** `detect_license_file`: the loop over the candidates, skipping missing and unreadable files. */
  method DetectLicenseFile(disk: Disk, dir: string) returns (r: Option<string>)
    ensures r == LicenseFromCandidates(disk, dir, LicenseCandidates)
  {
    var candidates := LicenseCandidates;
    for k := 0 to |candidates|
      invariant LicenseFromCandidates(disk, dir, candidates) == LicenseFromCandidates(disk, dir, candidates[k..])
    {
      assert candidates[k..][1..] == candidates[k + 1..];
      var path := Paths.JoinPath(dir, candidates[k]);
      if !disk.pathExists(path) {
        continue;
      }
      var text := disk.readText(path);
      if text.None? {
        continue;
      }
      var spdx := DetectSpdxFromText(text.value);
      if spdx.Some? {
        return spdx;
      }
      return Some("SEE_LICENSE");
    }
    return None;
  }

  /** Candidate `k` under `dir` is readable. */
  predicate ReadableAt(disk: Disk, dir: string, names: seq<string>, k: nat)
    requires k < |names|
  {
    Readable(disk, Paths.JoinPath(dir, names[k]))
  }

  /** The index of the first readable candidate, if any. */
  function FirstReadable(disk: Disk, dir: string, names: seq<string>): (r: Option<nat>)
    ensures r.Some? ==> r.value < |names| && ReadableAt(disk, dir, names, r.value)
                        && forall j :: 0 <= j < r.value ==> !ReadableAt(disk, dir, names, j)
    ensures r.None? ==> forall j :: 0 <= j < |names| ==> !ReadableAt(disk, dir, names, j)
  {
    FirstReadableFrom(disk, dir, names, 0)
  }

  function FirstReadableFrom(disk: Disk, dir: string, names: seq<string>, from: nat): (r: Option<nat>)
    requires from <= |names|
    ensures r.Some? ==> from <= r.value < |names| && ReadableAt(disk, dir, names, r.value)
                        && forall j :: from <= j < r.value ==> !ReadableAt(disk, dir, names, j)
    ensures r.None? ==> forall j :: from <= j < |names| ==> !ReadableAt(disk, dir, names, j)
    decreases |names| - from
  {
    if from == |names| then None
    else if ReadableAt(disk, dir, names, from) then Some(from)
    else FirstReadableFrom(disk, dir, names, from + 1)
  }

  /**
   * The first readable candidate decides, whatever the later ones say; with
   * none readable there is no license file.
   */
  lemma {:induction false} FirstReadableDecides(disk: Disk, dir: string, names: seq<string>, from: nat)
    requires from <= |names|
    ensures LicenseFromCandidates(disk, dir, names[from..]) ==
              match FirstReadableFrom(disk, dir, names, from)
              case None => None
              case Some(k) => Some(LicenseOfText(disk.readText(Paths.JoinPath(dir, names[k])).value))
    decreases |names| - from
  {
    if from < |names| {
      assert names[from..][0] == names[from];
      if !ReadableAt(disk, dir, names, from) {
        assert names[from..][1..] == names[from + 1..];
        FirstReadableDecides(disk, dir, names, from + 1);
      }
    }
  }

  /** The candidates' verdict, through the first readable one. */
  lemma LicenseFileIsFirstReadable(disk: Disk, dir: string)
    ensures LicenseFromCandidates(disk, dir, LicenseCandidates) ==
              match FirstReadable(disk, dir, LicenseCandidates)
              case None => None
              case Some(k) => Some(LicenseOfText(disk.readText(Paths.JoinPath(dir, LicenseCandidates[k])).value))
  {
    FirstReadableDecides(disk, dir, LicenseCandidates, 0);
    assert LicenseCandidates[0..] == LicenseCandidates;
  }

  /** The ids a license file can give. */
  const FileLicenseIds: set<string> :=
    {"MIT", "Apache-2.0", "GPL-3.0", "GPL-2.0", "GPL", "LGPL-3.0", "LGPL-2.1", "LGPL", "SEE_LICENSE"}

  /** A readable license file always gives one of the fixed ids. */
  lemma LicenseOfTextIds(text: string)
    ensures LicenseOfText(text) in FileLicenseIds
  {
  }

  lemma {:induction false} LicenseFromCandidatesIds(disk: Disk, dir: string, names: seq<string>)
    ensures var r := LicenseFromCandidates(disk, dir, names);
            r.Some? ==> r.value in FileLicenseIds
    decreases |names|
  {
    if names != [] {
      var path := Paths.JoinPath(dir, names[0]);
      if Readable(disk, path) {
        LicenseOfTextIds(disk.readText(path).value);
      } else {
        LicenseFromCandidatesIds(disk, dir, names[1..]);
      }
    }
  }

  /**
   * `infer_license`: the `official-pi-mono` and `community` tiers are MIT;
   * otherwise a package license that is not blank, trimmed; otherwise what
   * a license file says; otherwise `UNKNOWN`.
   */
  function InferLicense(sourceTier: string, pkg: Option<PackageJson>, disk: Disk, dir: string): string
  {
    if sourceTier == "official-pi-mono" || sourceTier == "community" then "MIT"
    else if pkg.Some? && pkg.value.license.Some? && Trim(pkg.value.license.value) != [] then
      Trim(pkg.value.license.value)
    else match LicenseFromCandidates(disk, dir, LicenseCandidates)
      case Some(l) => l
      case None => "UNKNOWN"
  }

  /** The trimmed package license, or nothing when there is none. */
  function DeclaredLicense(pkg: Option<PackageJson>): string
  {
    if pkg.Some? && pkg.value.license.Some? then Trim(pkg.value.license.value) else []
  }

  /** The order of the license sources. */
  lemma InferLicenseOrder(sourceTier: string, pkg: Option<PackageJson>, disk: Disk, dir: string)
    ensures var r := InferLicense(sourceTier, pkg, disk, dir);
            var declared := DeclaredLicense(pkg);
            (sourceTier == "official-pi-mono" || sourceTier == "community" ==> r == "MIT")
            && (sourceTier != "official-pi-mono" && sourceTier != "community" && declared != [] ==> r == declared)
            && (sourceTier != "official-pi-mono" && sourceTier != "community" && declared == [] ==>
                  r == (match LicenseFromCandidates(disk, dir, LicenseCandidates) case Some(l) => l case None => "UNKNOWN"))
  {
  }

  /** A trimmed text that is not empty starts and ends with something other than white space. */
  lemma TrimmedEnds(s: string)
    requires Trim(s) != []
    ensures !IsWhitespace(Trim(s)[0]) && !IsWhitespace(Trim(s)[|Trim(s)| - 1])
  {
    var t := TrimStart(s);
    assert TrimEnd(t)[0] == t[0];
  }

  /** The fixed ids are not blank at either end. */
  lemma FixedIdsTrimmed(id: string)
    requires id in FileLicenseIds + {"UNKNOWN"}
    ensures id != [] && !IsWhitespace(id[0]) && !IsWhitespace(id[|id| - 1])
  {
  }

  /**
   * The license is never empty and never starts or ends with white space.
   * It is either the package's own trimmed license, or one of the fixed ids.
   */
  lemma InferLicenseShape(sourceTier: string, pkg: Option<PackageJson>, disk: Disk, dir: string)
    ensures var r := InferLicense(sourceTier, pkg, disk, dir);
            r != [] && !IsWhitespace(r[0]) && !IsWhitespace(r[|r| - 1])
            && (r == DeclaredLicense(pkg) || r in FileLicenseIds + {"UNKNOWN"})
  {
    var r := InferLicense(sourceTier, pkg, disk, dir);
    LicenseFromCandidatesIds(disk, dir, LicenseCandidates);
    if r == DeclaredLicense(pkg) && r != "MIT" && r !in FileLicenseIds + {"UNKNOWN"} {
      TrimmedEnds(pkg.value.license.value);
    } else {
      assert r in FileLicenseIds + {"UNKNOWN"};
      FixedIdsTrimmed(r);
    }
  }

  // ---------------------------------------------------------------------
  // Sources
  // ---------------------------------------------------------------------

  const OfficialPathPrefix: string := "packages/coding-agent/examples/extensions/"
  const CommunityPathPrefix: string := "packages/coding-agent/community/"
  const NpmUrlPrefix: string := "https://www.npmjs.com/package/"
  const GithubPrefix: string := "https://github.com/"
  const NoMetadataNote: string := "No repository metadata detected"

  /** The repository URL of the package, else its homepage. */
  function RepositoryOrHomepage(pkg: Option<PackageJson>): Option<string>
  {
    if pkg.None? then None
    else match ExtractRepositoryUrl(pkg.value)
      case Some(url) => Some(url)
      case None => pkg.value.homepage
  }

  /** The owner in an `agents-<owner>/...` directory: the text before the first `'/'`. */
  function AgentsOwner(ownerish: string): string
  {
    Split(ownerish, '/')[0]
  }

  /**
   * `infer_source`, in its order: the official tier, the community tier, an
   * `npm/` id, a repository URL or homepage, an `agents-` directory, a
   * `third-party/` id, and otherwise nothing known.
   */
  function InferSource(ext: CatalogExtension, pkg: Option<PackageJson>): ProvenanceSource
  {
    if ext.sourceTier == "official-pi-mono" then
      Git(PI_MONO_REPO, if ext.extensionFiles == [] then None else Some(OfficialPathPrefix + ext.extensionFiles[0]))
    else if ext.sourceTier == "community" then
      var author := CommunityAuthorFromDirectory(ext.directory);
      Git(PI_MONO_REPO,
          if author.Some? && ext.extensionFiles != [] then Some(CommunityPathPrefix + author.value + "/" + ext.extensionFiles[0])
          else None)
    else if IsPrefix("npm/", ext.id) then
      var package := ext.id[4..];
      Npm(package, if pkg.Some? then pkg.value.version else None, NpmUrlPrefix + package)
    else if RepositoryOrHomepage(pkg).Some? then
      Url(RepositoryOrHomepage(pkg).value)
    else if IsPrefix("agents-", ext.directory) then
      Git(GithubPrefix + AgentsOwner(ext.directory[7..]) + "/agents", None)
    else if IsPrefix("third-party/", ext.id) then
      Url(GithubPrefix + ext.id[12..])
    else
      Unknown(NoMetadataNote)
  }

  /**
   * The source's kind follows the order of the tests. The pi-mono
   * repository is named exactly for the two pi-mono tiers. An npm package
   * is reported exactly for an `npm/` id outside those tiers. Nothing is
   * known exactly when no test applies.
   */
  lemma InferSourcePriority(ext: CatalogExtension, pkg: Option<PackageJson>)
    ensures var r := InferSource(ext, pkg);
            var tier := ext.sourceTier == "official-pi-mono" || ext.sourceTier == "community";
            var npm := IsPrefix("npm/", ext.id);
            var meta := RepositoryOrHomepage(pkg).Some?;
            var agents := IsPrefix("agents-", ext.directory);
            var thirdParty := IsPrefix("third-party/", ext.id);
            (r.Git? && r.repo == PI_MONO_REPO <==> tier)
            && (r.Npm? <==> !tier && npm)
            && (r.Url? <==> !tier && !npm && (meta || (!agents && thirdParty)))
            && (r.Git? && r.repo != PI_MONO_REPO <==> !tier && !npm && !meta && agents)
            && (r.Unknown? <==> !tier && !npm && !meta && !agents && !thirdParty)
  {
    var r := InferSource(ext, pkg);
    if r.Git? && !(ext.sourceTier == "official-pi-mono" || ext.sourceTier == "community") {
      var repo := GithubPrefix + AgentsOwner(ext.directory[7..]) + "/agents";
      assert r.repo == repo;
      assert repo[|repo| - 1] != PI_MONO_REPO[|PI_MONO_REPO| - 1];
    }
  }

  /** An npm source names the package the id names, and its npm page. */
  lemma NpmSourceRoundTrip(ext: CatalogExtension, pkg: Option<PackageJson>)
    requires InferSource(ext, pkg).Npm?
    ensures var r := InferSource(ext, pkg);
            "npm/" + r.package == ext.id && r.url == NpmUrlPrefix + r.package
            && r.version == (if pkg.Some? then pkg.value.version else None)
  {
    InferSourcePriority(ext, pkg);
  }

  /**
   * A community extension in `community/<author>-<rest>` with a first file
   * points at that file in the author's folder of pi-mono.
   */
  lemma CommunitySourcePath(ext: CatalogExtension, pkg: Option<PackageJson>, author: string, rest: string)
    requires ext.sourceTier == "community" && ext.extensionFiles != []
    requires ext.directory == "community/" + author + "-" + rest && Free(author, '-') && !Blank(author)
    ensures InferSource(ext, pkg) == Git(PI_MONO_REPO, Some(CommunityPathPrefix + author + "/" + ext.extensionFiles[0]))
  {
    CommunityAuthorComplete(author, rest);
  }

  /**
   * Without a tier, an npm id or package metadata, a directory
   * `agents-<owner>` or `agents-<owner>/<rest>` points at the owner's
   * `agents` repository on GitHub.
   */
  lemma AgentsSourceOwner(ext: CatalogExtension, pkg: Option<PackageJson>, owner: string, rest: string)
    requires ext.sourceTier != "official-pi-mono" && ext.sourceTier != "community"
    requires !IsPrefix("npm/", ext.id) && RepositoryOrHomepage(pkg).None?
    requires Free(owner, '/')
    requires ext.directory == "agents-" + owner || ext.directory == "agents-" + owner + "/" + rest
    ensures InferSource(ext, pkg) == Git(GithubPrefix + owner + "/agents", None)
  {
    var d := ext.directory;
    assert d[..7] == "agents-";
    if d == "agents-" + owner {
      assert d[7..] == owner;
      SplitFree(owner, '/');
    } else {
      assert d[7..] == owner + ['/'] + rest;
      SplitAround(owner, rest, '/');
      SplitFree(owner, '/');
    }
  }

  /**
   * Without any earlier clue, a `third-party/<rest>` id points at
   * `https://github.com/<rest>`.
   */
  lemma ThirdPartySource(ext: CatalogExtension, pkg: Option<PackageJson>, rest: string)
    requires ext.sourceTier != "official-pi-mono" && ext.sourceTier != "community"
    requires !IsPrefix("npm/", ext.id) && RepositoryOrHomepage(pkg).None?
    requires !IsPrefix("agents-", ext.directory)
    requires ext.id == "third-party/" + rest
    ensures InferSource(ext, pkg) == Url(GithubPrefix + rest)
  {
    assert ext.id[..12] == "third-party/" && ext.id[12..] == rest;
  }

  // ---------------------------------------------------------------------
  // Items and the manifest
  // ---------------------------------------------------------------------

  /** The item name: the package's own name, else the last `'/'`-segment of the id. */
  function ItemName(pkg: Option<PackageJson>, id: string): Option<string>
  {
    if pkg.Some? && pkg.value.name.Some? then pkg.value.name else Some(LastPiece(id))
  }

  /**
   * Every item has a name. Without a package name it is the id's last
   * segment: a `'/'`-free suffix that is the whole id or follows a `'/'`.
   */
  lemma ItemNameProperties(pkg: Option<PackageJson>, id: string)
    ensures var r := ItemName(pkg, id);
            r.Some?
            && (pkg.Some? && pkg.value.name.Some? ==> r == pkg.value.name)
            && (!(pkg.Some? && pkg.value.name.Some?) ==>
                  Free(r.value, '/') && IsSuffix(r.value, id)
                  && (r.value == id || id[|id| - |r.value| - 1] == '/'))
  {
    SplitLastIsSuffix(id, '/');
    SplitPiecesFree(id, '/');
  }

  /** `read_package_json`: no file is no package; a file that fails to read or parse is an error. */
  function ReadPackageJson(disk: Disk, dir: string): Result<Option<PackageJson>, string>
  {
    var path := Paths.JoinPath(dir, "package.json");
    if !disk.pathExists(path) then Ok(None)
    else match disk.packageJson(path)
      case Err(e) => Err(e)
      case Ok(p) => Ok(Some(p))
  }

  /** `build_item`: the catalog's fields, and what is inferred from the artifact directory. */
  function BuildItem(ext: CatalogExtension, retrieved: string, artifactsDir: string, disk: Disk): Result<ProvenanceItem, string>
  {
    var dir := Paths.JoinPath(artifactsDir, ext.directory);
    match ReadPackageJson(disk, dir)
    case Err(e) => Err(e)
    case Ok(pkg) =>
      Ok(ProvenanceItem(ext.id, ext.directory, retrieved, ext.checksum, ItemName(pkg, ext.id),
                        if pkg.Some? then pkg.value.version else None,
                        InferLicense(ext.sourceTier, pkg, disk, dir), InferSource(ext, pkg)))
  }

  /** `collect::<Result<Vec<_>>>()`: every value in order, or the first error. */
  function Collect<T, E>(rs: seq<Result<T, E>>): Result<seq<T>, E>
  {
    if rs == [] then Ok([])
    else match rs[0]
      case Err(e) => Err(e)
      case Ok(x) =>
        match Collect(rs[1..])
        case Err(e) => Err(e)
        case Ok(rest) => Ok([x] + rest)
  }

  /** The index of the first error at or after `from`, if any. */
  function FirstErr<T, E>(rs: seq<Result<T, E>>, from: nat): (r: Option<nat>)
    requires from <= |rs|
    ensures r.Some? ==> from <= r.value < |rs| && rs[r.value].Err?
    ensures r.Some? ==> forall j :: from <= j < r.value ==> rs[j].Ok?
    ensures r.None? ==> forall j :: from <= j < |rs| ==> rs[j].Ok?
    decreases |rs| - from
  {
    if from == |rs| then None
    else if rs[from].Err? then Some(from)
    else FirstErr(rs, from + 1)
  }

  /**
   * Collecting succeeds exactly when no result is an error, and then keeps
   * every value in order. Otherwise it gives the first error.
   */
  lemma {:induction false} CollectProperties<T, E>(rs: seq<Result<T, E>>, from: nat)
    requires from <= |rs|
    ensures var r := Collect(rs[from..]);
            match FirstErr(rs, from)
            case Some(k) => r == Err(rs[k].error)
            case None => r.Ok? && |r.value| == |rs| - from
                         && forall i :: from <= i < |rs| ==> Ok(r.value[i - from]) == rs[i]
    decreases |rs| - from
  {
    if from < |rs| {
      var tail := rs[from..];
      assert tail[0] == rs[from];
      assert tail[1..] == rs[from + 1..];
      if rs[from].Ok? {
        CollectProperties(rs, from + 1);
      }
    }
  }

  /** The item built for each catalog extension, in catalog order. */
  function BuiltItems(exts: seq<CatalogExtension>, retrieved: string, artifactsDir: string, disk: Disk)
    : (rs: seq<Result<ProvenanceItem, string>>)
    ensures |rs| == |exts|
  {
    seq(|exts|, i requires 0 <= i < |exts| => BuildItem(exts[i], retrieved, artifactsDir, disk))
  }

  /** Each item's id is at most the next one's. */
  predicate SortedById(s: seq<ProvenanceItem>)
  {
    forall i :: 0 <= i < |s| - 1 ==> LexLe(s[i].id, s[i + 1].id)
  }

  /** Insertion before the first item whose id is at least `x`'s. */
  function InsertById(x: ProvenanceItem, s: seq<ProvenanceItem>): (r: seq<ProvenanceItem>)
    ensures multiset(r) == multiset(s) + multiset{x}
    ensures r[0] == x || (s != [] && r[0] == s[0])
  {
    if s == [] || LexLe(x.id, s[0].id) then [x] + s
    else
      var rest := InsertById(x, s[1..]);
      assert s == [s[0]] + s[1..];
      [s[0]] + rest
  }

  /** `items.sort_by(|a, b| a.id.cmp(&b.id))`, as an insertion sort. */
  function SortById(items: seq<ProvenanceItem>): (r: seq<ProvenanceItem>)
    ensures multiset(r) == multiset(items)
  {
    if items == [] then []
    else
      assert items == [items[0]] + items[1..];
      InsertById(items[0], SortById(items[1..]))
  }

  lemma {:induction false} InsertSorted(x: ProvenanceItem, s: seq<ProvenanceItem>)
    requires SortedById(s)
    ensures SortedById(InsertById(x, s))
    decreases |s|
  {
    if s != [] && !LexLe(x.id, s[0].id) {
      var rest := InsertById(x, s[1..]);
      InsertSorted(x, s[1..]);
      LexTotal(x.id, s[0].id);
      var r := [s[0]] + rest;
      forall i | 0 <= i < |r| - 1 ensures LexLe(r[i].id, r[i + 1].id) {
        if i > 0 {
          assert r[i] == rest[i - 1] && r[i + 1] == rest[i];
        }
      }
    }
  }

  /** The sort orders the items by id and keeps exactly the same items. */
  lemma {:induction false} SortByIdSorted(items: seq<ProvenanceItem>)
    ensures SortedById(SortById(items)) && multiset(SortById(items)) == multiset(items)
    decreases |items|
  {
    if items != [] {
      SortByIdSorted(items[1..]);
      InsertSorted(items[0], SortById(items[1..]));
    }
  }

  /** In a list sorted by id, every id is at most every later one. */
  lemma {:induction false} SortedPairwise(s: seq<ProvenanceItem>, i: nat, j: nat)
    requires SortedById(s) && i <= j < |s|
    ensures LexLe(s[i].id, s[j].id)
    decreases j - i
  {
    if i == j {
      LexReflexive(s[i].id);
    } else {
      SortedPairwise(s, i + 1, j);
      LexTransitive(s[i].id, s[i + 1].id, s[j].id);
    }
  }

  const ManifestSchema: string := "pi.ext.artifact_provenance.v1"

  /** `build_manifest`: every item built, then sorted by id. */
  function BuildManifest(generated: string, exts: seq<CatalogExtension>, artifactsDir: string, disk: Disk)
    : Result<ProvenanceManifest, string>
  {
    ManifestOf(generated, artifactsDir, BuiltItems(exts, generated, artifactsDir, disk))
  }

  /** The manifest assembled from the results of building each item. */
  function ManifestOf(generated: string, artifactsDir: string, rs: seq<Result<ProvenanceItem, string>>)
    : Result<ProvenanceManifest, string>
  {
    match Collect(rs)
    case Err(e) => Err(e)
    case Ok(items) => Ok(ProvenanceManifest(ManifestSchema, generated, artifactsDir, SortById(items)))
  }

  /**
   * Assembling succeeds exactly when every item built, with every built
   * item listed once, ordered by id; otherwise the first error is reported.
   */
  lemma ManifestOfProperties(generated: string, artifactsDir: string, rs: seq<Result<ProvenanceItem, string>>)
    ensures var m := ManifestOf(generated, artifactsDir, rs);
            match FirstErr(rs, 0)
            case Some(k) => m == Err(rs[k].error)
            case None =>
              m.Ok? && m.value.schema == ManifestSchema && m.value.generated == generated
              && m.value.artifactRoot == artifactsDir
              && SortedById(m.value.items) && |m.value.items| == |rs|
              && multiset(m.value.items) == multiset(seq(|rs|, i requires 0 <= i < |rs| => rs[i].value))
  {
    CollectProperties(rs, 0);
    assert rs[0..] == rs;
    if FirstErr(rs, 0).None? {
      var items := Collect(rs).value;
      assert items == seq(|rs|, i requires 0 <= i < |rs| => rs[i].value);
      SortByIdSorted(items);
      assert |multiset(SortById(items))| == |multiset(items)|;
    }
  }

  /**
   * A manifest exists exactly when every item builds. It then lists one
   * item per catalog extension, ordered by id, the very items built from the
   * extensions with the catalog's generation time as their retrieval time.
   * Otherwise the first failing extension's error is reported.
   */
  lemma BuildManifestProperties(generated: string, exts: seq<CatalogExtension>, artifactsDir: string, disk: Disk)
    ensures var rs := BuiltItems(exts, generated, artifactsDir, disk);
            var m := BuildManifest(generated, exts, artifactsDir, disk);
            match FirstErr(rs, 0)
            case Some(k) => m == Err(rs[k].error)
            case None =>
              m.Ok? && m.value.schema == ManifestSchema && m.value.generated == generated
              && m.value.artifactRoot == artifactsDir
              && SortedById(m.value.items) && |m.value.items| == |exts|
              && multiset(m.value.items) == multiset(seq(|exts|, i requires 0 <= i < |exts| => rs[i].value))
  {
    ManifestOfProperties(generated, artifactsDir, BuiltItems(exts, generated, artifactsDir, disk));
  }
}
