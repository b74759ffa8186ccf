/**
 * The limit arithmetic of the two listing tools: `ls` collecting directory
 * entries up to its entry limit, and `find` turning `fd`'s output lines
 * into paths relative to the searched directory and flagging its limit.
 */
module Listing {
  import opened Wrappers
  import opened Seqs
  import opened Chars
  import Paths

  // ---------------------------------------------------------------------
  // ls
  // ---------------------------------------------------------------------

  /** What `metadata` says of an entry; `Unreadable` is a failed stat. */
  datatype EntryKind = Directory | RegularFile | Unreadable
  datatype DirEntry = DirEntry(name: string, kind: EntryKind)

  /** What an entry contributes: `name/` for a directory, `name` for a file, nothing if unreadable. */
  function Listed(e: DirEntry): seq<string>
  {
    match e.kind
    case Directory => [e.name + "/"]
    case RegularFile => [e.name]
    case Unreadable => []
  }

  /** Every entry listed, with no limit. */
  function AllListed(entries: seq<DirEntry>): seq<string>
  {
    if entries == [] then [] else Listed(entries[0]) + AllListed(entries[1..])
  }

  datatype LsResult = LsResult(results: seq<string>, limitReached: bool)

  /**
   * The ls loop with `room` places left: an entry met with no room left
   * sets the flag and stops the loop, whatever that entry is.
   */
  function LsFrom(entries: seq<DirEntry>, room: nat): LsResult
  {
    if entries == [] then LsResult([], false)
    else if room == 0 then LsResult([], true)
    else
      var l := Listed(entries[0]);
      var rest := LsFrom(entries[1..], room - |l|);
      LsResult(l + rest.results, rest.limitReached)
  }

  /** `a.to_lowercase().cmp(&b.to_lowercase())` is not `Greater`, lowering ASCII letters. */
  predicate NameLe(a: DirEntry, b: DirEntry)
  {
    LexLe(ToAsciiLower(a.name), ToAsciiLower(b.name))
  }

  /** Each entry's lowered name is at most the next one's. */
  predicate SortedByName(s: seq<DirEntry>)
  {
    forall i :: 0 <= i < |s| - 1 ==> NameLe(s[i], s[i + 1])
  }

  /** Insertion before the first entry whose lowered name is at least `x`'s. */
  function InsertByName(x: DirEntry, s: seq<DirEntry>): (r: seq<DirEntry>)
    ensures multiset(r) == multiset(s) + multiset{x}
    ensures r[0] == x || (s != [] && r[0] == s[0])
  {
    if s == [] || NameLe(x, s[0]) then [x] + s
    else
      var rest := InsertByName(x, s[1..]);
      assert s == [s[0]] + s[1..];
      [s[0]] + rest
  }

  /** `entries.sort_by(|a, b| a.to_lowercase().cmp(&b.to_lowercase()))`, as an insertion sort. */
  function SortByName(entries: seq<DirEntry>): (r: seq<DirEntry>)
    ensures multiset(r) == multiset(entries)
  {
    if entries == [] then []
    else
      assert entries == [entries[0]] + entries[1..];
      InsertByName(entries[0], SortByName(entries[1..]))
  }

  lemma {:induction false} InsertByNameSorted(x: DirEntry, s: seq<DirEntry>)
    requires SortedByName(s)
    ensures SortedByName(InsertByName(x, s))
    decreases |s|
  {
    if s != [] && !NameLe(x, s[0]) {
      var rest := InsertByName(x, s[1..]);
      InsertByNameSorted(x, s[1..]);
      LexTotal(ToAsciiLower(x.name), ToAsciiLower(s[0].name));
      var r := [s[0]] + rest;
      forall i | 0 <= i < |r| - 1 ensures NameLe(r[i], r[i + 1]) {
        if i > 0 {
          assert r[i] == rest[i - 1] && r[i + 1] == rest[i];
        }
      }
    }
  }

  /** The sort orders the entries by lowered name and keeps exactly the same entries. */
  lemma {:induction false} SortByNameSorted(entries: seq<DirEntry>)
    ensures SortedByName(SortByName(entries)) && multiset(SortByName(entries)) == multiset(entries)
    decreases |entries|
  {
    if entries != [] {
      SortByNameSorted(entries[1..]);
      InsertByNameSorted(entries[0], SortByName(entries[1..]));
    }
  }

  /**
   * The ls tool once the directory is read: sort the entries, then collect
   * them up to the limit. The names shown come in sorted order, and are the
   * first of the whole sorted listing.
   */
  method ListDirectory(entries: seq<DirEntry>, limit: nat) returns (results: seq<string>, limitReached: bool)
    ensures LsResult(results, limitReached) == LsFrom(SortByName(entries), limit)
    ensures IsPrefix(results, AllListed(SortByName(entries)))
  {
    var sorted := SortByName(entries);
    results, limitReached := CollectEntries(sorted, limit);
    LsBounds(sorted, limit);
  }

  /** The entry loop of the ls tool, over the sorted entries. */
  method CollectEntries(entries: seq<DirEntry>, limit: nat) returns (results: seq<string>, limitReached: bool)
    ensures LsResult(results, limitReached) == LsFrom(entries, limit)
  {
    results := [];
    limitReached := false;
    var i := 0;
    while i < |entries|
      invariant 0 <= i <= |entries| && |results| <= limit
      invariant !limitReached
      invariant LsFrom(entries, limit) ==
                  LsResult(results + LsFrom(entries[i..], limit - |results|).results,
                           LsFrom(entries[i..], limit - |results|).limitReached)
    {
      if |results| >= limit {
        limitReached := true;
        break;
      }
      var entry := entries[i];
      ghost var before := results;
      match entry.kind {
        case Unreadable =>
        case Directory =>
          results := results + [entry.name + "/"];
        case RegularFile =>
          results := results + [entry.name];
      }
      assert results == before + Listed(entry);
      LsFromStep(entries, i, before, limit);
      i := i + 1;
    }
    if !limitReached {
      assert entries[i..] == [];
    }
  }

  /** One turn of the ls loop: what entry `i` contributes moves from the rest to the names so far. */
  lemma LsFromStep(entries: seq<DirEntry>, i: nat, before: seq<string>, limit: nat)
    requires i < |entries| && |before| < limit
    ensures var after := before + Listed(entries[i]);
            var r := LsFrom(entries[i..], limit - |before|);
            var r' := LsFrom(entries[i + 1..], limit - |after|);
            |after| <= limit && before + r.results == after + r'.results && r.limitReached == r'.limitReached
  {
    assert entries[i..][1..] == entries[i + 1..];
    var l := Listed(entries[i]);
    var r' := LsFrom(entries[i + 1..], limit - |before + l|);
    assert before + (l + r'.results) == (before + l) + r'.results;
  }

  /**
   * At most `limit` names come out; with the flag set exactly `limit`, the
   * first ones of the unlimited listing; without it, the whole listing.
   * Whenever the unlimited listing is longer than the limit the flag is set.
   */
  lemma {:induction false} LsBounds(entries: seq<DirEntry>, limit: nat)
    ensures var r := LsFrom(entries, limit);
            |r.results| <= limit
            && (r.limitReached ==> |r.results| == limit && IsPrefix(r.results, AllListed(entries)))
            && (!r.limitReached ==> r.results == AllListed(entries))
            && (|AllListed(entries)| > limit ==> r.limitReached)
    decreases |entries|
  {
    if entries != [] && limit > 0 {
      var l := Listed(entries[0]);
      LsBounds(entries[1..], limit - |l|);
      var rest := LsFrom(entries[1..], limit - |l|);
      var all := AllListed(entries[1..]);
      if rest.limitReached {
        assert (l + all)[..|l| + |rest.results|] == l + all[..|rest.results|];
      }
    }
  }

  /** When every entry can be stat'ed, the flag is set exactly when entries remain past the limit. */
  lemma {:induction false} LsReadableFlag(entries: seq<DirEntry>, limit: nat)
    requires forall i :: 0 <= i < |entries| ==> entries[i].kind != Unreadable
    ensures LsFrom(entries, limit).limitReached <==> |entries| > limit
    decreases |entries|
  {
    if entries != [] && limit > 0 {
      LsReadableFlag(entries[1..], limit - 1);
    }
  }

  /**
   * An unreadable entry after the last shown one still sets the flag,
   * although nothing listable was left out.
   */
  lemma LsUnreadableTail()
    ensures var entries := [DirEntry("a", RegularFile), DirEntry("b", Unreadable)];
            LsFrom(entries, 1) == LsResult(["a"], true) && AllListed(entries) == ["a"]
  {
    var entries := [DirEntry("a", RegularFile), DirEntry("b", Unreadable)];
    assert entries[1..] == [DirEntry("b", Unreadable)];
    assert entries[1..][1..] == [];
  }

  /** The text before byte truncation and notices: the names one per line, or a placeholder. */
  function LsText(results: seq<string>): string
  {
    if results == [] then "(empty directory)" else Join(results, '\n')
  }

  /**
   * With a limit of 0 a non-empty directory lists nothing and sets the
   * flag, and the placeholder for an empty directory is printed.
   */
  lemma LsZeroLimit(entries: seq<DirEntry>)
    requires entries != []
    ensures LsFrom(entries, 0) == LsResult([], true)
    ensures LsText(LsFrom(entries, 0).results) == "(empty directory)"
  {
  }

  // ---------------------------------------------------------------------
  // find
  // ---------------------------------------------------------------------

  /** `trim_end_matches(c)`: drops every trailing `c`. */
  function TrimEndChar(s: string, c: char): (r: string)
    ensures IsPrefix(r, s) && (r == [] || r[|r| - 1] != c)
  {
    if s != [] && s[|s| - 1] == c then TrimEndChar(s[..|s| - 1], c) else s
  }

  predicate IsSep(c: char)
  {
    c == '/' || c == '\\'
  }

  /** `trim_start_matches(['/', '\\'])`. */
  function TrimStartSeps(s: string): (r: string)
    ensures IsSuffix(r, s) && (r == [] || !IsSep(r[0]))
  {
    if s != [] && IsSep(s[0]) then
      var r := TrimStartSeps(s[1..]);
      assert s[|s| - |r|..] == s[1..][|s| - 1 - |r|..];
      r
    else s
  }

  /**
   * One line of `fd`'s output: trimmed; skipped when blank; made relative
   * when it is absolute and starts with the search path's text; and given
   * back its trailing `'/'` when it had a trailing separator.
   */
  function Relativise(rawLine: string, searchPath: string): Option<string>
  {
    var line := Trim(TrimEndChar(rawLine, '\r'));
    if line == [] then None else Some(RelativiseLine(line, searchPath))
  }

  /** A trimmed, non-blank line made relative, with its trailing `'/'` put back. */
  function RelativiseLine(line: string, searchPath: string): string
    requires line != []
  {
    var hadTrailingSlash := IsSep(line[|line| - 1]);
    var rel := if Paths.IsAbsolute(line) && IsPrefix(searchPath, line)
               then TrimStartSeps(line[|searchPath|..]) else line;
    if hadTrailingSlash && !(rel != [] && rel[|rel| - 1] == '/') then rel + "/" else rel
  }

  /** The relativised paths, in `fd`'s order. */
  function FindEntries(lines: seq<string>, searchPath: string): seq<string>
  {
    if lines == [] then []
    else
      var last := Relativise(lines[|lines| - 1], searchPath);
      FindEntries(lines[..|lines| - 1], searchPath) + (if last.Some? then [last.value] else [])
  }

  /** Line `i` adds its relativised path, if any, after those of the lines before it. */
  lemma FindEntriesSnoc(lines: seq<string>, i: nat, searchPath: string)
    requires i < |lines|
    ensures var r := Relativise(lines[i], searchPath);
            FindEntries(lines[..i + 1], searchPath) ==
              FindEntries(lines[..i], searchPath) + (if r.Some? then [r.value] else [])
  {
    assert lines[..i + 1][..i] == lines[..i];
  }

  /** The relativisation loop over `stdout.lines()`. */
  method RelativiseAll(stdout: string, searchPath: string) returns (relativized: seq<string>)
    ensures relativized == FindEntries(RustLines(stdout), searchPath)
  {
    var lines := RustLines(stdout);
    relativized := [];
    var i := 0;
    while i < |lines|
      invariant 0 <= i <= |lines|
      invariant relativized == FindEntries(lines[..i], searchPath)
    {
      var r := Relativise(lines[i], searchPath);
      if r.Some? {
        relativized := relativized + [r.value];
      }
      FindEntriesSnoc(lines, i, searchPath);
      i := i + 1;
    }
    assert lines[..i] == lines;
  }

  /** `find` flags its limit as soon as it has as many paths as the limit. */
  predicate FindLimitReached(relativized: seq<string>, limit: nat)
  {
    |relativized| >= limit
  }

  /**
   * A line that is the search path, a `'/'` and a name (not starting with a
   * separator, not ending with one) comes out as the name: joining the
   * search path back on gives the line.
   */
  lemma RelativiseUnderSearchPath(searchPath: string, name: string)
    requires Paths.IsAbsolute(searchPath)
    requires searchPath == Trim(searchPath) && name == Trim(name) && name != []
    requires !IsSep(name[0]) && !IsSep(name[|name| - 1])
    ensures Relativise(searchPath + "/" + name, searchPath) == Some(name)
  {
    var line := searchPath + "/" + name;
    assert TrimEndChar(line, '\r') == line by {
      assert line[|line| - 1] == name[|name| - 1];
      assert !IsWhitespace(name[|name| - 1]);
    }
    assert Trim(line) == line by {
      assert line[0] == searchPath[0];
      assert line[|line| - 1] == name[|name| - 1];
      TrimOfSolid(line);
    }
    assert Paths.IsAbsolute(line) && IsPrefix(searchPath, line) by {
      assert line[..|searchPath|] == searchPath;
    }
    assert TrimStartSeps(line[|searchPath|..]) == name by {
      assert line[|searchPath|..] == "/" + name;
      assert ("/" + name)[1..] == name;
    }
    assert !IsSep(line[|line| - 1]) by {
      assert line[|line| - 1] == name[|name| - 1];
    }
  }

  /** A line with a trailing separator keeps a trailing `'/'`. */
  lemma RelativiseKeepsDirectoryMark(rawLine: string, searchPath: string)
    ensures var r := Relativise(rawLine, searchPath);
            var line := Trim(TrimEndChar(rawLine, '\r'));
            (r.None? <==> line == [])
            && (r.Some? && IsSep(line[|line| - 1]) ==> r.value != [] && r.value[|r.value| - 1] == '/')
  {
    var line := Trim(TrimEndChar(rawLine, '\r'));
    if line != [] && IsSep(line[|line| - 1]) {
      RelativiseLineMark(line, searchPath);
    }
  }

  /** A line ending in a separator comes out ending in `'/'`. */
  lemma RelativiseLineMark(line: string, searchPath: string)
    requires line != [] && IsSep(line[|line| - 1])
    ensures var out := RelativiseLine(line, searchPath);
            out != [] && out[|out| - 1] == '/'
  {
  }

  /**
   * The two tools disagree at the boundary: with exactly `limit` readable
   * files, ls does not flag its limit, while find, given `limit` paths,
   * does.
   */
  lemma LimitFlagsDiffer(entries: seq<DirEntry>, paths: seq<string>, limit: nat)
    requires |entries| == limit && |paths| == limit
    requires forall i :: 0 <= i < |entries| ==> entries[i].kind == RegularFile
    ensures !LsFrom(entries, limit).limitReached
    ensures FindLimitReached(paths, limit)
  {
    LsReadableFlag(entries, limit);
  }
}
