/**
 * The bookkeeping of the bash tool around the child process: the two
 * output buffers `append_output` maintains, the bounded window of raw
 * chunks kept for streaming updates, and how the finished run is
 * classified and reported (`build_bash_output`).
 */
module BashOutput {
  import opened Wrappers
  import opened Seqs
  import opened Truncation

  /** `BASH_ROLLING_BUFFER_BYTES`. */
  const BASH_ROLLING_BUFFER_BYTES: nat := 100 * 1024

  /** `DEFAULT_BASH_TIMEOUT`, in seconds. */
  const DEFAULT_BASH_TIMEOUT: nat := 120

  /** The lines appended so far, minus the empty lines that came before the first non-empty one. */
  function DropLeadingEmpty(lines: seq<seq<Byte>>): (r: seq<seq<Byte>>)
    ensures IsSuffix(r, lines)
    ensures r == [] || r[0] != []
    ensures forall i :: 0 <= i < |lines| - |r| ==> lines[i] == []
  {
    if lines != [] && lines[0] == [] then DropLeadingEmpty(lines[1..]) else lines
  }

  /** Appending a line extends the kept lines by it, unless nothing non-empty has been seen yet. */
  lemma {:induction false} DropLeadingEmptySnoc(lines: seq<seq<Byte>>, line: seq<Byte>)
    ensures DropLeadingEmpty(lines + [line]) ==
            if DropLeadingEmpty(lines) == [] then (if line == [] then [] else [line])
            else DropLeadingEmpty(lines) + [line]
    decreases |lines|
  {
    if lines != [] {
      assert (lines + [line])[1..] == lines[1..] + [line];
      DropLeadingEmptySnoc(lines[1..], line);
    }
  }

  /** Once the first line is non-empty, no line is ever dropped. */
  lemma DropLeadingEmptyKeepsAll(lines: seq<seq<Byte>>)
    requires lines != [] && lines[0] != []
    ensures DropLeadingEmpty(lines) == lines
  {
  }

  /** A line pushed onto an accumulator, after a `'\n'` unless the accumulator is empty. */
  function PushLine(acc: seq<Byte>, line: seq<Byte>): seq<Byte>
  {
    if acc == [] then line else acc + [NL] + line
  }

  /** Pushing the same line onto a text and onto one of its suffixes keeps the suffix relation. */
  lemma PushLineKeepsSuffix(tail: seq<Byte>, acc: seq<Byte>, line: seq<Byte>)
    requires IsSuffix(tail, acc)
    ensures IsSuffix(PushLine(tail, line), PushLine(acc, line))
  {
    var a := PushLine(acc, line);
    var t := PushLine(tail, line);
    if tail == [] {
      assert a[|a| - |line|..] == line;
    } else {
      assert a[|a| - |t|..] == acc[|acc| - |tail|..] + [NL] + line;
    }
  }

  /** Pushing a line onto the join of the kept lines is the join after appending it. */
  lemma PushLineJoins(appended: seq<seq<Byte>>, line: seq<Byte>)
    ensures PushLine(JoinLines(DropLeadingEmpty(appended)), line)
            == JoinLines(DropLeadingEmpty(appended + [line]))
  {
    var kept := DropLeadingEmpty(appended);
    DropLeadingEmptySnoc(appended, line);
    if kept != [] {
      JoinSnoc(kept, line, NL);
      assert JoinLines(kept) != [] by {
        JoinLength(kept, NL);
      }
    }
  }

  /**
   * The two `String` accumulators of a bash run: `full` collects every
   * output line, `rolling` is the recent tail shown in streaming updates.
   */
  class OutputBuffers {
    var full: seq<Byte>
    var rolling: seq<Byte>
    /** Every line appended so far, in order. */
    ghost var appended: seq<seq<Byte>>

    /**
     * `full` is the `'\n'`-join of the appended lines (leading empty lines
     * leave no trace, because the separator is only pushed onto a non-empty
     * accumulator); `rolling` is a byte suffix of it within the cap.
     */
    ghost predicate Valid()
      reads this
    {
      && full == JoinLines(DropLeadingEmpty(appended))
      && |rolling| <= BASH_ROLLING_BUFFER_BYTES
      && IsSuffix(rolling, full)
    }

    constructor()
      ensures Valid()
      ensures full == [] && rolling == [] && appended == []
    {
      full := [];
      rolling := [];
      appended := [];
    }

    /** `append_output`. */
    method AppendOutput(line: seq<Byte>)
      requires Valid()
      modifies this
      ensures Valid()
      ensures appended == old(appended) + [line]
      ensures full == PushLine(old(full), line)
      ensures var grown := PushLine(old(rolling), line);
              rolling == if |grown| > BASH_ROLLING_BUFFER_BYTES
                         then CutFromEnd(grown, BASH_ROLLING_BUFFER_BYTES) else grown
    {
      ghost var full0, rolling0, appended0 := full, rolling, appended;
      AppendKeepsBuffers(appended0, full0, rolling0, line);

      if full != [] {
        full := full + [NL];
      }
      full := full + line;
      assert full == PushLine(full0, line);

      if rolling != [] {
        rolling := rolling + [NL];
      }
      rolling := rolling + line;
      assert rolling == PushLine(rolling0, line);

      if |rolling| > BASH_ROLLING_BUFFER_BYTES {
        rolling := TruncateStringToBytesFromEnd(rolling, BASH_ROLLING_BUFFER_BYTES);
      }
      appended := appended + [line];
      assert full == JoinLines(DropLeadingEmpty(appended));
      assert IsSuffix(rolling, full) && |rolling| <= BASH_ROLLING_BUFFER_BYTES;
    }
  }

  /**
   * Appending one line keeps the buffers' invariant: the full output is
   * the join of the kept appended lines, and the rolling buffer, cut back
   * to the cap when it grows past it, is a suffix of the full output.
   */
  lemma AppendKeepsBuffers(appended: seq<seq<Byte>>, full: seq<Byte>, rolling: seq<Byte>, line: seq<Byte>)
    requires full == JoinLines(DropLeadingEmpty(appended)) && IsSuffix(rolling, full)
    ensures var grown := PushLine(rolling, line);
            var kept := if |grown| > BASH_ROLLING_BUFFER_BYTES
                        then CutFromEnd(grown, BASH_ROLLING_BUFFER_BYTES) else grown;
            && PushLine(full, line) == JoinLines(DropLeadingEmpty(appended + [line]))
            && IsSuffix(kept, PushLine(full, line)) && |kept| <= BASH_ROLLING_BUFFER_BYTES
  {
    PushLineJoins(appended, line);
    PushLineKeepsSuffix(rolling, full, line);
    var grown := PushLine(rolling, line);
    if |grown| > BASH_ROLLING_BUFFER_BYTES {
      SuffixTransitive(CutFromEnd(grown, BASH_ROLLING_BUFFER_BYTES), grown, PushLine(full, line));
    }
  }

  // ---------------------------------------------------------------------------
  // The chunk window of process_bash_chunk
  // ---------------------------------------------------------------------------

  /**
   * The chunks left once the oldest are dropped while their total is over
   * `maxBytes` and more than one chunk remains.
   */
  function Evict(chunks: seq<seq<Byte>>, maxBytes: nat): seq<seq<Byte>>
  {
    if SumLens(chunks) > maxBytes && |chunks| > 1 then Evict(chunks[1..], maxBytes) else chunks
  }

  /**
   * Eviction keeps a non-empty suffix ending in the newest chunk; what it
   * keeps fits the budget unless it is that chunk alone; and it stops as
   * soon as the rest fits: with the last dropped chunk put back, the total
   * is over the budget.
   */
  lemma {:induction false} EvictProperties(chunks: seq<seq<Byte>>, maxBytes: nat)
    requires chunks != []
    ensures var r := Evict(chunks, maxBytes);
            && r != [] && IsSuffix(r, chunks) && r[|r| - 1] == chunks[|chunks| - 1]
            && (SumLens(r) <= maxBytes || |r| == 1)
            && (|r| < |chunks| ==> SumLens(chunks[|chunks| - |r| - 1..]) > maxBytes)
    decreases |chunks|
  {
    if SumLens(chunks) > maxBytes && |chunks| > 1 {
      EvictProperties(chunks[1..], maxBytes);
      var r := Evict(chunks, maxBytes);
      assert chunks[1..][|chunks[1..]| - |r|..] == chunks[|chunks| - |r|..];
      if |r| < |chunks| - 1 {
        assert chunks[1..][|chunks[1..]| - |r| - 1..] == chunks[|chunks| - |r| - 1..];
      } else {
        assert chunks[|chunks| - |r| - 1..] == chunks;
      }
    }
  }

  /**
   * The window of raw output chunks that `process_bash_chunk` keeps for
   * streaming updates, with the running byte counts it maintains.
   */
  class ChunkWindow {
    var chunks: seq<seq<Byte>>
    var chunksBytes: nat
    var totalBytes: nat
    const maxChunksBytes: nat

    ghost predicate Valid()
      reads this
    {
      chunksBytes == SumLens(chunks)
    }

    constructor(maxChunksBytes: nat)
      ensures Valid()
      ensures chunks == [] && totalBytes == 0 && this.maxChunksBytes == maxChunksBytes
    {
      chunks := [];
      chunksBytes := 0;
      totalBytes := 0;
      this.maxChunksBytes := maxChunksBytes;
    }

    /** The chunk bookkeeping of `process_bash_chunk`: count, push to the back, evict from the front. */
    method ProcessChunk(chunk: seq<Byte>)
      requires Valid()
      modifies this
      ensures Valid()
      ensures totalBytes == old(totalBytes) + |chunk|
      ensures chunks == Evict(old(chunks) + [chunk], maxChunksBytes)
    {
      totalBytes := totalBytes + |chunk|;

      SumLensSnoc(chunks, chunk);
      chunks := chunks + [chunk];
      chunksBytes := chunksBytes + |chunk|;
      while chunksBytes > maxChunksBytes && |chunks| > 1
        invariant chunksBytes == SumLens(chunks)
        invariant totalBytes == old(totalBytes) + |chunk|
        invariant Evict(chunks, maxChunksBytes) == Evict(old(chunks) + [chunk], maxChunksBytes)
        decreases |chunks|
      {
        var front := chunks[0];
        chunks := chunks[1..];
        chunksBytes := chunksBytes - |front|;
      }
      assert Evict(chunks, maxChunksBytes) == chunks;
    }
  }

  // ---------------------------------------------------------------------------
  // build_bash_output
  // ---------------------------------------------------------------------------

  /** The notice appended when the output was cut and the full output was saved. */
  datatype TruncationNotice =
    | NoNotice
    | PartialLineNotice(endLine: nat)
    | LinesNotice(startLine: nat, endLine: nat, totalLines: nat)
    | BytesNotice(startLine: nat, endLine: nat, totalLines: nat)

  /** The closing message about how the command ended. */
  datatype StatusMessage = NoStatus | TimedOut(seconds: nat) | ExitedWith(code: int)

  datatype BashReport = BashReport(
    body: seq<Byte>,
    notice: TruncationNotice,
    status: StatusMessage,
    isError: bool,
    truncation: TruncationResult)

  /** `"(no output)"`. */
  const NO_OUTPUT: seq<Byte> := [0x28, 0x6E, 0x6F, 0x20, 0x6F, 0x75, 0x74, 0x70, 0x75, 0x74, 0x29]

  /** `is_error`: the run timed out, or it exited with a code other than zero. */
  predicate IsError(exitCode: Option<int>, timedOut: bool)
  {
    timedOut || (exitCode.Some? && exitCode.value != 0)
  }

  /**
   * `total_lines.saturating_sub(output_lines).saturating_add(1)` on `usize`:
   * the number of the first line shown.
   */
  function StartLine(totalLines: nat, outputLines: nat): nat
  {
    var skipped := if totalLines >= outputLines then totalLines - outputLines else 0;
    if skipped >= UsizeMax then UsizeMax else skipped + 1
  }

  /**
   * `build_bash_output`. `fullOutputSaved` says whether writing the full
   * output to a temporary file succeeded, which is when the truncation
   * notice is added.
   */
  function BuildBashOutput(fullOutput: seq<Byte>, exitCode: Option<int>, timedOut: bool,
                           timeoutSecs: nat, fullOutputSaved: bool): (r: BashReport)
    ensures r.truncation == TailSpec(fullOutput, DEFAULT_MAX_LINES, DEFAULT_MAX_BYTES)
    ensures r.body == (if r.truncation.content == [] then NO_OUTPUT else r.truncation.content)
    ensures r.isError <==> timedOut || (exitCode.Some? && exitCode.value != 0)
    ensures r.notice != NoNotice <==> r.truncation.truncated && fullOutputSaved
    ensures r.status.NoStatus? <==> !r.isError
    ensures timedOut ==> r.status == TimedOut(timeoutSecs)
  {
    var t := TailSpec(fullOutput, DEFAULT_MAX_LINES, DEFAULT_MAX_BYTES);
    var body := if t.content == [] then NO_OUTPUT else t.content;
    var startLine := StartLine(t.totalLines, t.outputLines);
    var endLine := t.totalLines;
    var notice :=
      if !(t.truncated && fullOutputSaved) then NoNotice
      else if t.lastLinePartial then PartialLineNotice(endLine)
      else if t.truncatedBy == Some(Lines) then LinesNotice(startLine, endLine, t.totalLines)
      else BytesNotice(startLine, endLine, t.totalLines);
    var status :=
      if timedOut then TimedOut(timeoutSecs)
      else if exitCode.Some? && exitCode.value != 0 then ExitedWith(exitCode.value)
      else NoStatus;
    BashReport(body, notice, status, IsError(exitCode, timedOut), t)
  }

  /** No more lines than bytes plus one come out of a split. */
  lemma SplitCount(content: seq<Byte>)
    ensures |LinesOf(content)| <= |content| + 1
  {
    JoinSplit(content, NL);
    JoinLength(LinesOf(content), NL);
  }

  /**
   * The line range a notice announces is the range actually shown: the
   * kept text is the join of lines `startLine ..= endLine` of the output
   * (for any output shorter than `usize::MAX - 1` bytes).
   */
  lemma NoticeRangeIsShown(fullOutput: seq<Byte>, exitCode: Option<int>, timedOut: bool,
                           timeoutSecs: nat, fullOutputSaved: bool)
    requires |fullOutput| + 1 < UsizeMax
    ensures var r := BuildBashOutput(fullOutput, exitCode, timedOut, timeoutSecs, fullOutputSaved);
            var lines := LinesOf(fullOutput);
            (r.notice.LinesNotice? || r.notice.BytesNotice?) ==>
              1 <= r.notice.startLine <= r.notice.endLine + 1 && r.notice.endLine == |lines|
              && r.truncation.content == JoinLines(lines[r.notice.startLine - 1..r.notice.endLine])
  {
    var lines := LinesOf(fullOutput);
    var r := BuildBashOutput(fullOutput, exitCode, timedOut, timeoutSecs, fullOutputSaved);
    var t := r.truncation;
    if r.notice.LinesNotice? || r.notice.BytesNotice? {
      SplitCount(fullOutput);
      TailKeepsSuffix(fullOutput, DEFAULT_MAX_LINES, DEFAULT_MAX_BYTES);
      TailCutReason(fullOutput, DEFAULT_MAX_LINES, DEFAULT_MAX_BYTES);
      assert !t.lastLinePartial && t.totalLines == |lines|;
      assert r.notice.startLine == StartLine(|lines|, t.outputLines) && r.notice.endLine == |lines|;
      KeptLinesRange(lines, t.outputLines);
    }
  }

  /** The last `k` lines are lines `StartLine ..= n`, counted from one. */
  lemma KeptLinesRange(lines: seq<seq<Byte>>, k: nat)
    requires k <= |lines| < UsizeMax
    ensures var s := StartLine(|lines|, k);
            1 <= s <= |lines| + 1 && lines[s - 1..|lines|] == lines[|lines| - k..]
  {
  }
}
