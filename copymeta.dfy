/**
 * The `copymeta` command: for every entry of the source directory, copy
 * the EXIF metadata onto the same-named file of the destination directory
 * with `exiftool -overwrite_original -tagsFromFile <src> <dst>`, after
 * checking that every destination file exists.
 */
module CopyMeta {
  import opened Results
  import opened Substrings
  import opened Disk

  /** What one `exiftool` run reported: whether it exited successfully, and its standard error. */
  datatype ToolRun = ToolRun(succeeded: bool, stderr: string)

  /** One run of `exiftool -overwrite_original -tagsFromFile src dst` for entry `entry` of the listing. */
  datatype ToolCall = ToolCall(entry: nat, src: Path, dst: Path)

  /** The outcome of running the tool on a source and a destination path. */
  type Tool = (Path, Path) -> ToolRun

  /** The message by which `exiftool` refuses a file it cannot handle. */
  const UnknownFileType := "Unknown file type"

  /** A run that does not stop the command: it succeeded, or it failed on a file of unknown type. */
  predicate Tolerated(run: ToolRun) {
    run.succeeded || Contains(run.stderr, UnknownFileType)
  }

  /** The call made for entry `j`: the listed name in the source and in the destination directory. */
  function CallAt(names: seq<string>, srcDir: Path, dstDir: Path, j: nat): (c: ToolCall)
    requires j < |names|
  {
    ToolCall(j, Join(srcDir, names[j]), Join(dstDir, names[j]))
  }

  /** What the tool reports for entry `j`. */
  function RunAt(tool: Tool, names: seq<string>, srcDir: Path, dstDir: Path, j: nat): ToolRun
    requires j < |names|
  {
    tool(Join(srcDir, names[j]), Join(dstDir, names[j]))
  }

  /**
   * The pre-flight check from entry `k` on: the first entry whose
   * same-named destination `os.Stat` cannot find, if there is one.
   */
  function FirstMissing(stat: Path -> bool, names: seq<string>, dstDir: Path, k: nat): (m: Option<nat>)
    requires k <= |names|
    ensures m.Some? ==>
      && k <= m.value < |names| && !stat(Join(dstDir, names[m.value]))
      && forall j :: k <= j < m.value ==> stat(Join(dstDir, names[j]))
    ensures m.None? ==> forall j :: k <= j < |names| ==> stat(Join(dstDir, names[j]))
    decreases |names| - k
  {
    if k == |names| then None
    else if !stat(Join(dstDir, names[k])) then Some(k)
    else FirstMissing(stat, names, dstDir, k + 1)
  }

  function PrefixCalls(calls: seq<ToolCall>, run: Batch<ToolCall>): Batch<ToolCall> {
    Batch(calls + run.trace, run.outcome)
  }

  /**
   * The tool loop from entry `k` on: run the tool on each entry in turn,
   * go on after a tolerated run, stop at the first run that is not.
   */
  function ToolFrom(tool: Tool, names: seq<string>, srcDir: Path, dstDir: Path, k: nat): Batch<ToolCall>
    requires k <= |names|
    decreases |names| - k
  {
    if k == |names| then Batch([], Completed)
    else
      var call := CallAt(names, srcDir, dstDir, k);
      if Tolerated(RunAt(tool, names, srcDir, dstDir, k))
      then PrefixCalls([call], ToolFrom(tool, names, srcDir, dstDir, k + 1))
      else Batch([call], Aborted(k, ExifCopyFailed))
  }

  /** `copyMetadata` after the directories are resolved and listed: the pre-flight check, then the tool loop. */
  function CopyMetadataRun(stat: Path -> bool, tool: Tool, names: seq<string>, srcDir: Path, dstDir: Path)
    : Batch<ToolCall>
  {
    match FirstMissing(stat, names, dstDir, 0)
      case Some(m) => Batch([], Aborted(m, DestinationMissing(Join(dstDir, names[m]))))
      case None => ToolFrom(tool, names, srcDir, dstDir, 0)
  }

  /**
   * The two loops of `copyMetadata` over the listing `names`: `stat` says
   * whether `os.Stat` finds a path, `tool` what `exiftool` reports for a
   * pair of paths; the calls are the tool runs made, in order.
   */
  method CopyMetadata(stat: Path -> bool, tool: Tool, names: seq<string>, srcDir: Path, dstDir: Path)
    returns (calls: seq<ToolCall>, outcome: Outcome)
    ensures Batch(calls, outcome) == CopyMetadataRun(stat, tool, names, srcDir, dstDir)
  {
    var i := 0;
    while i < |names|
      invariant 0 <= i <= |names|
      invariant forall j :: 0 <= j < i ==> stat(Join(dstDir, names[j]))
    {
      var dst := Join(dstDir, names[i]);
      if !stat(dst) {
        return [], Aborted(i, DestinationMissing(dst));
      }
      i := i + 1;
    }
    calls := [];
    var k := 0;
    assert [] + ToolFrom(tool, names, srcDir, dstDir, 0).trace == ToolFrom(tool, names, srcDir, dstDir, 0).trace;
    while k < |names|
      invariant 0 <= k <= |names|
      invariant ToolFrom(tool, names, srcDir, dstDir, 0) == PrefixCalls(calls, ToolFrom(tool, names, srcDir, dstDir, k))
      decreases |names| - k
    {
      var src := Join(srcDir, names[k]);
      var dst := Join(dstDir, names[k]);
      var run := tool(src, dst);
      ghost var rest := ToolFrom(tool, names, srcDir, dstDir, k + 1);
      assert calls + ([ToolCall(k, src, dst)] + rest.trace) == (calls + [ToolCall(k, src, dst)]) + rest.trace;
      calls := calls + [ToolCall(k, src, dst)];
      if !run.succeeded {
        if Contains(run.stderr, UnknownFileType) {
          k := k + 1;
          continue;
        }
        return calls, Aborted(k, ExifCopyFailed);
      }
      k := k + 1;
    }
    assert calls + [] == calls;
    outcome := Completed;
  }

  // ---------------------------------------------------------------------
  // Properties

  /** The tool loop never reports a missing destination and never panics. */
  lemma {:induction false} ToolFromOutcome(tool: Tool, names: seq<string>, srcDir: Path, dstDir: Path, k: nat)
    requires k <= |names|
    ensures var b := ToolFrom(tool, names, srcDir, dstDir, k);
      b.outcome.Completed? || (b.outcome.Aborted? && b.outcome.error.ExifCopyFailed?)
    decreases |names| - k
  {
    if k < |names| && Tolerated(RunAt(tool, names, srcDir, dstDir, k)) {
      ToolFromOutcome(tool, names, srcDir, dstDir, k + 1);
    }
  }

  /**
   * The pre-flight check decides first: some entry lacks its destination
   * exactly when the command fails with "destination file does not exist",
   * naming the first such entry, before running the tool at all.
   */
  lemma PreflightFails(stat: Path -> bool, tool: Tool, names: seq<string>, srcDir: Path, dstDir: Path)
    ensures var b := CopyMetadataRun(stat, tool, names, srcDir, dstDir);
      && ((exists j :: 0 <= j < |names| && !stat(Join(dstDir, names[j])))
          <==> b.outcome.Aborted? && b.outcome.error.DestinationMissing?)
      && (b.outcome.Aborted? && b.outcome.error.DestinationMissing? ==>
            && b.trace == []
            && b.outcome.entry < |names|
            && b.outcome.error.path == Join(dstDir, names[b.outcome.entry])
            && !stat(b.outcome.error.path)
            && forall j :: 0 <= j < b.outcome.entry ==> stat(Join(dstDir, names[j])))
  {
    if FirstMissing(stat, names, dstDir, 0).None? {
      ToolFromOutcome(tool, names, srcDir, dstDir, 0);
    }
  }

  /**
   * The tool runs on the entries in listing order, one run per entry, each
   * on the listed name in the source directory and the same name in the
   * destination directory.
   */
  lemma {:induction false} ToolCallsInOrder(tool: Tool, names: seq<string>, srcDir: Path, dstDir: Path, k: nat)
    requires k <= |names|
    ensures var b := ToolFrom(tool, names, srcDir, dstDir, k);
      && |b.trace| <= |names| - k
      && forall i :: 0 <= i < |b.trace| ==> b.trace[i] == CallAt(names, srcDir, dstDir, k + i)
    decreases |names| - k
  {
    if k < |names| && Tolerated(RunAt(tool, names, srcDir, dstDir, k)) {
      ToolCallsInOrder(tool, names, srcDir, dstDir, k + 1);
      var rest := ToolFrom(tool, names, srcDir, dstDir, k + 1).trace;
      var tr := [CallAt(names, srcDir, dstDir, k)] + rest;
      forall i | 0 <= i < |tr| ensures tr[i] == CallAt(names, srcDir, dstDir, k + i) {
        if i > 0 {
          assert tr[i] == rest[i - 1];
        }
      }
    }
  }

  /**
   * The tool loop completes exactly when every run from `k` on is
   * tolerated, and then it has run the tool on every entry.
   */
  lemma {:induction false} ToolCompleted(tool: Tool, names: seq<string>, srcDir: Path, dstDir: Path, k: nat)
    requires k <= |names|
    ensures var b := ToolFrom(tool, names, srcDir, dstDir, k);
      && (b.outcome.Completed? <==> forall j :: k <= j < |names| ==> Tolerated(RunAt(tool, names, srcDir, dstDir, j)))
      && (b.outcome.Completed? ==> |b.trace| == |names| - k)
    decreases |names| - k
  {
    if k < |names| && Tolerated(RunAt(tool, names, srcDir, dstDir, k)) {
      ToolCompleted(tool, names, srcDir, dstDir, k + 1);
    }
  }

  /**
   * A failed run whose standard error does not mention an unknown file
   * type stops the loop at once: the loop aborts at the first such entry
   * with "failed to copy exif metadata", whose pair is the last call made,
   * and no later entry is processed.
   */
  lemma {:induction false} ToolAborts(tool: Tool, names: seq<string>, srcDir: Path, dstDir: Path, k: nat)
    requires k <= |names|
    ensures var b := ToolFrom(tool, names, srcDir, dstDir, k);
      b.outcome.Aborted? ==>
        var e := b.outcome.entry;
        && k <= e < |names|
        && !Tolerated(RunAt(tool, names, srcDir, dstDir, e))
        && (forall j :: k <= j < e ==> Tolerated(RunAt(tool, names, srcDir, dstDir, j)))
        && b.outcome.error == ExifCopyFailed
        && |b.trace| == e - k + 1
        && b.trace[|b.trace| - 1] == CallAt(names, srcDir, dstDir, e)
    decreases |names| - k
  {
    if k < |names| && Tolerated(RunAt(tool, names, srcDir, dstDir, k)) {
      ToolAborts(tool, names, srcDir, dstDir, k + 1);
    }
  }

  /** Two reports agree wherever the command looks: on success, and on standard error after a failure. */
  predicate SameVerdict(a: ToolRun, b: ToolRun) {
    a.succeeded == b.succeeded && (!a.succeeded ==> a.stderr == b.stderr)
  }

  /**
   * Standard error is read only when a run fails: tools that agree on
   * which runs succeed, and on what failing runs print, drive the loop the
   * same way.
   */
  lemma {:induction false} StderrOnlyOnFailure(tool1: Tool, tool2: Tool, names: seq<string>, srcDir: Path, dstDir: Path, k: nat)
    requires k <= |names|
    requires forall j :: k <= j < |names| ==>
      SameVerdict(RunAt(tool1, names, srcDir, dstDir, j), RunAt(tool2, names, srcDir, dstDir, j))
    ensures ToolFrom(tool1, names, srcDir, dstDir, k) == ToolFrom(tool2, names, srcDir, dstDir, k)
    decreases |names| - k
  {
    if k < |names| {
      assert SameVerdict(RunAt(tool1, names, srcDir, dstDir, k), RunAt(tool2, names, srcDir, dstDir, k));
      StderrOnlyOnFailure(tool1, tool2, names, srcDir, dstDir, k + 1);
    }
  }

  /**
   * `copyMetadata` returns no error exactly when every destination exists
   * and every run succeeded or was skipped as an unknown file type.
   */
  lemma CopyMetadataSucceeds(stat: Path -> bool, tool: Tool, names: seq<string>, srcDir: Path, dstDir: Path)
    ensures CopyMetadataRun(stat, tool, names, srcDir, dstDir).outcome.Completed?
        <==> && (forall j :: 0 <= j < |names| ==> stat(Join(dstDir, names[j])))
             && (forall j :: 0 <= j < |names| ==> Tolerated(RunAt(tool, names, srcDir, dstDir, j)))
  {
    ToolCompleted(tool, names, srcDir, dstDir, 0);
  }
}
