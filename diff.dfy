/**
 * `compute_diff`: the simple line diff the edit tool reports. It walks the
 * old and new lines with two cursors; equal lines are passed over together,
 * and at the first difference it skips old lines until one equals the
 * current new line, then new lines until one equals the current old line,
 * and prints what it skipped as one hunk.
 */
module Diff {
  import opened Seqs
  import opened Chars

  /** One step of the walk: a line both sides share, or a hunk of skipped lines. */
  datatype Step =
    | Keep(line: string)
    | Hunk(oldStart: nat, removed: seq<string>, newStart: nat, added: seq<string>)

  /** The first old position from `i` on that is past the end or equals the current new line. */
  function SkipOld(o: seq<string>, n: seq<string>, i: nat, j: nat): (r: nat)
    requires i <= |o|
    ensures i <= r <= |o|
    ensures r == |o| || (j < |n| && o[r] == n[j])
    decreases |o| - i
  {
    if i < |o| && (j >= |n| || o[i] != n[j]) then SkipOld(o, n, i + 1, j) else i
  }

  /** The first new position from `j` on that is past the end or equals the current old line. */
  function SkipNew(o: seq<string>, n: seq<string>, i: nat, j: nat): (r: nat)
    requires j <= |n|
    ensures j <= r <= |n|
    ensures r == |n| || (i < |o| && n[r] == o[i])
    decreases |n| - j
  {
    if j < |n| && (i >= |o| || n[j] != o[i]) then SkipNew(o, n, i, j + 1) else j
  }

  /** The steps the walk takes from cursors `i` and `j`. */
  function DiffFrom(o: seq<string>, n: seq<string>, i: nat, j: nat): seq<Step>
    requires i <= |o| && j <= |n|
    decreases (|o| - i) + (|n| - j)
  {
    if i == |o| && j == |n| then []
    else if i < |o| && j < |n| && o[i] == n[j] then [Keep(o[i])] + DiffFrom(o, n, i + 1, j + 1)
    else
      var i2 := SkipOld(o, n, i, j);
      var j2 := SkipNew(o, n, i2, j);
      [Hunk(i, o[i..i2], j, n[j..j2])] + DiffFrom(o, n, i2, j2)
  }

  // ---------------------------------------------------------------------------
  // Rendering
  // ---------------------------------------------------------------------------

  /** `"--- a/{path}\n+++ b/{path}\n"`. */
  function Header(path: string): string
  {
    "--- a/" + path + "\n+++ b/" + path + "\n"
  }

  /** `"@@ -{old_start + 1},{old_count} +{new_start + 1},{new_count} @@\n"`. */
  function HunkHeader(oldStart: nat, oldCount: nat, newStart: nat, newCount: nat): string
  {
    "@@ -" + NatToString(oldStart + 1) + "," + NatToString(oldCount)
    + " +" + NatToString(newStart + 1) + "," + NatToString(newCount) + " @@\n"
  }

  /** Each line written as `"{mark}{line}\n"`. */
  function MarkedLines(mark: char, lines: seq<string>): string
  {
    if lines == [] then []
    else MarkedLines(mark, lines[..|lines| - 1]) + [mark] + lines[|lines| - 1] + "\n"
  }

  function StepText(s: Step): string
  {
    match s
    case Keep(_) => []
    case Hunk(os, r, ns, a) => HunkHeader(os, |r|, ns, |a|) + MarkedLines('-', r) + MarkedLines('+', a)
  }

  function Render(steps: seq<Step>): string
  {
    if steps == [] then [] else StepText(steps[0]) + Render(steps[1..])
  }

  /** The text `compute_diff` returns. */
  function DiffText(oldText: string, newText: string, path: string): string
  {
    Header(path) + Render(DiffFrom(RustLines(oldText), RustLines(newText), 0, 0))
  }

  // ---------------------------------------------------------------------------
  // compute_diff
  // ---------------------------------------------------------------------------

  /** Appends `"{mark}{line}\n"` for each line, as the two `for line in ...` loops do. */
  method WriteLines(diff: string, mark: char, lines: seq<string>) returns (r: string)
    ensures r == diff + MarkedLines(mark, lines)
  {
    r := diff;
    for k := 0 to |lines|
      invariant r == diff + MarkedLines(mark, lines[..k])
    {
      assert lines[..k + 1][..k] == lines[..k];
      r := r + [mark] + lines[k] + "\n";
    }
    assert lines[..|lines|] == lines;
  }

  /** The two inner loops of `compute_diff`: skip differing old lines, then differing new lines. */
  method SkipDiffering(oldLines: seq<string>, newLines: seq<string>, oldStart: nat, newStart: nat)
    returns (i: nat, j: nat)
    requires oldStart <= |oldLines| && newStart <= |newLines|
    ensures i == SkipOld(oldLines, newLines, oldStart, newStart)
    ensures j == SkipNew(oldLines, newLines, i, newStart)
  {
    i, j := oldStart, newStart;
    while i < |oldLines| && (j >= |newLines| || oldLines[i] != newLines[j])
      invariant oldStart <= i <= |oldLines|
      invariant SkipOld(oldLines, newLines, i, j) == SkipOld(oldLines, newLines, oldStart, j)
    {
      i := i + 1;
    }
    while j < |newLines| && (i >= |oldLines| || newLines[j] != oldLines[i])
      invariant newStart <= j <= |newLines|
      invariant SkipNew(oldLines, newLines, i, j) == SkipNew(oldLines, newLines, i, newStart)
    {
      j := j + 1;
    }
  }

  /** Writes one hunk: its `@@` line, then its `-` lines, then its `+` lines. */
  method WriteHunk(diff: string, oldStart: nat, removed: seq<string>, newStart: nat, added: seq<string>)
    returns (r: string)
    ensures r == diff + StepText(Hunk(oldStart, removed, newStart, added))
  {
    var header := HunkHeader(oldStart, |removed|, newStart, |added|);
    r := diff + header;
    r := WriteLines(r, '-', removed);
    r := WriteLines(r, '+', added);
    AppendAssoc(diff, header, MarkedLines('-', removed), MarkedLines('+', added));
  }

  lemma AppendAssoc(a: string, b: string, c: string, d: string)
    ensures ((a + b) + c) + d == a + ((b + c) + d)
  {
  }

  lemma AppendAssoc3(a: string, b: string, c: string)
    ensures (a + b) + c == a + (b + c)
  {
  }

  /**
   * One turn of `compute_diff`'s loop: pass over an equal pair, or write a
   * hunk. What is written plus what remains to be written stays the same,
   * and the cursors advance.
   */
  method DiffStep(diff: string, oldLines: seq<string>, newLines: seq<string>, i: nat, j: nat)
    returns (diff': string, i': nat, j': nat)
    requires i <= |oldLines| && j <= |newLines| && (i < |oldLines| || j < |newLines|)
    ensures i' <= |oldLines| && j' <= |newLines| && i + j < i' + j'
    ensures diff' + Render(DiffFrom(oldLines, newLines, i', j')) == diff + Render(DiffFrom(oldLines, newLines, i, j))
  {
    ghost var steps := DiffFrom(oldLines, newLines, i, j);
    if i < |oldLines| && j < |newLines| && oldLines[i] == newLines[j] {
      diff', i', j' := diff, i + 1, j + 1;
      assert steps == [Keep(oldLines[i])] + DiffFrom(oldLines, newLines, i', j');
      assert diff' == diff + StepText(steps[0]);
    } else {
      i', j' := SkipDiffering(oldLines, newLines, i, j);
      var hunk := Hunk(i, oldLines[i..i'], j, newLines[j..j']);
      diff' := WriteHunk(diff, i, oldLines[i..i'], j, newLines[j..j']);
      assert steps == [hunk] + DiffFrom(oldLines, newLines, i', j');
    }
    assert steps[1..] == DiffFrom(oldLines, newLines, i', j');
    RenderCons(diff, steps);
  }

  /** Rendering a script after some text: its first step's text, then the rest. */
  lemma RenderCons(diff: string, steps: seq<Step>)
    requires steps != []
    ensures diff + Render(steps) == (diff + StepText(steps[0])) + Render(steps[1..])
  {
    AppendAssoc3(diff, StepText(steps[0]), Render(steps[1..]));
  }

  /** `compute_diff`. */
  method ComputeDiff(oldText: string, newText: string, path: string) returns (diff: string)
    ensures diff == DiffText(oldText, newText, path)
  {
    var oldLines := RustLines(oldText);
    var newLines := RustLines(newText);
    ghost var whole := DiffText(oldText, newText, path);
    diff := Header(path);
    var i: nat := 0;
    var j: nat := 0;
    while i < |oldLines| || j < |newLines|
      invariant i <= |oldLines| && j <= |newLines|
      invariant diff + Render(DiffFrom(oldLines, newLines, i, j)) == whole
      decreases (|oldLines| - i) + (|newLines| - j)
    {
      diff, i, j := DiffStep(diff, oldLines, newLines, i, j);
    }
  }

  // ---------------------------------------------------------------------------
  // What the walk promises
  // ---------------------------------------------------------------------------

  /** The old lines a script accounts for: shared lines and removed ones, in order. */
  function OldSide(steps: seq<Step>): seq<string>
  {
    if steps == [] then []
    else (match steps[0] case Keep(l) => [l] case Hunk(_, r, _, _) => r) + OldSide(steps[1..])
  }

  /** The new lines a script accounts for: shared lines and added ones, in order. */
  function NewSide(steps: seq<Step>): seq<string>
  {
    if steps == [] then []
    else (match steps[0] case Keep(l) => [l] case Hunk(_, _, _, a) => a) + NewSide(steps[1..])
  }

  /**
   * Every hunk is non-empty and sits where the lines before it end: its
   * start positions count the old and new lines accounted for so far.
   */
  predicate Placed(steps: seq<Step>, i: nat, j: nat)
  {
    steps == [] ||
    match steps[0]
    case Keep(_) => Placed(steps[1..], i + 1, j + 1)
    case Hunk(os, r, ns, a) =>
      os == i && ns == j && |r| + |a| > 0 && Placed(steps[1..], i + |r|, j + |a|)
  }

  /**
   * From any cursors, the walk accounts for every remaining old line and
   * every remaining new line exactly once, in order, with each hunk placed
   * at the cursors and holding at least one line.
   */
  lemma {:induction false} DiffFromCovers(o: seq<string>, n: seq<string>, i: nat, j: nat)
    requires i <= |o| && j <= |n|
    ensures OldSide(DiffFrom(o, n, i, j)) == o[i..]
    ensures NewSide(DiffFrom(o, n, i, j)) == n[j..]
    ensures Placed(DiffFrom(o, n, i, j), i, j)
    decreases (|o| - i) + (|n| - j)
  {
    if i == |o| && j == |n| {
    } else if i < |o| && j < |n| && o[i] == n[j] {
      DiffFromCovers(o, n, i + 1, j + 1);
      KeepCovers(o, n, i, j);
    } else {
      var i2 := SkipOld(o, n, i, j);
      var j2 := SkipNew(o, n, i2, j);
      DiffFromCovers(o, n, i2, j2);
      HunkCovers(o, n, i, j);
    }
  }

  /** Everything the walk covers from the cursors, as `DiffFromCovers` states it. */
  predicate Covers(o: seq<string>, n: seq<string>, i: nat, j: nat)
    requires i <= |o| && j <= |n|
  {
    var steps := DiffFrom(o, n, i, j);
    OldSide(steps) == o[i..] && NewSide(steps) == n[j..] && Placed(steps, i, j)
  }

  /** A shared line extends what the rest of the walk covers. */
  lemma KeepCovers(o: seq<string>, n: seq<string>, i: nat, j: nat)
    requires i < |o| && j < |n| && o[i] == n[j]
    requires Covers(o, n, i + 1, j + 1)
    ensures Covers(o, n, i, j)
  {
    var steps := DiffFrom(o, n, i, j);
    var rest := DiffFrom(o, n, i + 1, j + 1);
    assert steps == [Keep(o[i])] + rest;
    assert steps[1..] == rest;
    assert [o[i]] + o[i + 1..] == o[i..];
    assert [n[j]] + n[j + 1..] == n[j..];
  }

  /** At a difference the walk moves past at least one line. */
  lemma HunkAdvances(o: seq<string>, n: seq<string>, i: nat, j: nat)
    requires i <= |o| && j <= |n| && !(i == |o| && j == |n|)
    requires !(i < |o| && j < |n| && o[i] == n[j])
    ensures var i2 := SkipOld(o, n, i, j); i < i2 || j < SkipNew(o, n, i2, j)
  {
    if i < |o| {
      assert SkipOld(o, n, i, j) == SkipOld(o, n, i + 1, j);
    } else {
      assert SkipOld(o, n, i, j) == i;
      assert SkipNew(o, n, i, j) == SkipNew(o, n, i, j + 1);
    }
  }

  /**
   * A hunk at the cursors in front of `rest` accounts for its lines before
   * those of `rest`, and is placed when it is non-empty and `rest` is placed
   * after it.
   */
  lemma PlacedHunk(steps: seq<Step>, i: nat, j: nat, removed: seq<string>, added: seq<string>, rest: seq<Step>)
    requires steps == [Hunk(i, removed, j, added)] + rest
    ensures OldSide(steps) == removed + OldSide(rest) && NewSide(steps) == added + NewSide(rest)
    ensures |removed| + |added| > 0 && Placed(rest, i + |removed|, j + |added|) ==> Placed(steps, i, j)
  {
    assert steps[1..] == rest;
  }

  /** A hunk extends what the rest of the walk covers, and holds at least one line. */
  lemma HunkCovers(o: seq<string>, n: seq<string>, i: nat, j: nat)
    requires i <= |o| && j <= |n| && !(i == |o| && j == |n|)
    requires !(i < |o| && j < |n| && o[i] == n[j])
    requires var i2 := SkipOld(o, n, i, j); Covers(o, n, i2, SkipNew(o, n, i2, j))
    ensures Covers(o, n, i, j)
  {
    var i2 := SkipOld(o, n, i, j);
    var j2 := SkipNew(o, n, i2, j);
    var steps := DiffFrom(o, n, i, j);
    var rest := DiffFrom(o, n, i2, j2);
    var removed, added := o[i..i2], n[j..j2];
    assert steps == [Hunk(i, removed, j, added)] + rest;
    HunkAdvances(o, n, i, j);
    PlacedHunk(steps, i, j, removed, added, rest);
  }

  /** The whole old text and the whole new text are accounted for. */
  lemma ComputeDiffCovers(oldText: string, newText: string)
    ensures var steps := DiffFrom(RustLines(oldText), RustLines(newText), 0, 0);
            OldSide(steps) == RustLines(oldText) && NewSide(steps) == RustLines(newText)
            && Placed(steps, 0, 0)
  {
    var o := RustLines(oldText);
    var n := RustLines(newText);
    DiffFromCovers(o, n, 0, 0);
    assert o[0..] == o;
    assert n[0..] == n;
  }

  /** A script with no hunk renders as nothing, and one with a hunk as something. */
  lemma {:induction false} RenderEmptyIffNoHunk(steps: seq<Step>)
    ensures Render(steps) == [] <==> forall k :: 0 <= k < |steps| ==> steps[k].Keep?
  {
    if steps != [] {
      RenderEmptyIffNoHunk(steps[1..]);
      assert forall k :: 1 <= k < |steps| ==> steps[k] == steps[1..][k - 1];
      if steps[0].Hunk? {
        assert |StepText(steps[0])| > 0;
      }
    }
  }

  /** A script with no hunk accounts for the same lines on both sides. */
  lemma {:induction false} KeepsOnlySameSides(steps: seq<Step>)
    requires forall k :: 0 <= k < |steps| ==> steps[k].Keep?
    ensures OldSide(steps) == NewSide(steps)
  {
    if steps != [] {
      assert forall k :: 1 <= k < |steps| ==> steps[k] == steps[1..][k - 1];
      KeepsOnlySameSides(steps[1..]);
    }
  }

  /** Equal lines walk in step: every step keeps a line. */
  lemma {:induction false} DiffFromSameLines(o: seq<string>, i: nat)
    requires i <= |o|
    ensures forall k :: 0 <= k < |DiffFrom(o, o, i, i)| ==> DiffFrom(o, o, i, i)[k].Keep?
    decreases |o| - i
  {
    if i < |o| {
      DiffFromSameLines(o, i + 1);
      var rest := DiffFrom(o, o, i + 1, i + 1);
      assert DiffFrom(o, o, i, i) == [Keep(o[i])] + rest;
    }
  }

  /**
   * The diff is only the `---`/`+++` header exactly when the two texts have
   * the same lines (as `str::lines` sees them).
   */
  lemma DiffHeaderOnlyIffSameLines(oldText: string, newText: string, path: string)
    ensures DiffText(oldText, newText, path) == Header(path) <==> RustLines(oldText) == RustLines(newText)
  {
    var o := RustLines(oldText);
    var n := RustLines(newText);
    var steps := DiffFrom(o, n, 0, 0);
    RenderEmptyIffNoHunk(steps);
    if o == n {
      DiffFromSameLines(o, 0);
    }
    if Render(steps) == [] {
      KeepsOnlySameSides(steps);
      ComputeDiffCovers(oldText, newText);
    }
    assert DiffText(oldText, newText, path) == Header(path) + Render(steps);
  }
}
