/**
 * The `organise` command: copy every image of a source directory into a
 * destination directory under a name made of its (shifted) capture time,
 * disambiguating collisions with a counter, and write the shifted time into
 * the copy's EXIF segment.
 */
module Organise {
  import opened Results
  import opened Digits
  import opened Disk
  import opened Layouts
  import opened Exif

  // ---------------------------------------------------------------------
  // Destination names

  /** The disambiguation text of candidate `n`: none for the first, "(n)" after it. */
  function Suffix(n: nat): string {
    if n == 0 then "" else "(" + Decimal(n) + ")"
  }

  /** `generatePath(dstDir, dateTaken, disambiguation)`. */
  function GeneratePath(dstDir: Path, t: Time, disambiguation: string): Path {
    Join(dstDir, Format(t, FILE_LAYOUT) + disambiguation + ".jpg")
  }

  /** The `n`th path `generateUniquePath` considers. */
  function Candidate(dstDir: Path, t: Time, n: nat): Path {
    GeneratePath(dstDir, t, Suffix(n))
  }

  /** The loop bound `i < 100`: candidates 0..98 are probed, candidate 99 is the fallback. */
  const LastSuffix: nat := 99

  /** `os.Stat(p)` succeeds: the path exists and no other error is reported for it. */
  function Stat(files: Files, statFails: Path -> bool): Path -> bool {
    p => p in files && !statFails(p)
  }

  /**
   * The first candidate from `n` on whose `Stat` fails, or the fallback
   * `LastSuffix` when every probed candidate exists.
   */
  function FirstFree(stat: Path -> bool, dstDir: Path, t: Time, n: nat): (m: nat)
    requires n <= LastSuffix
    ensures n <= m <= LastSuffix
    ensures forall j :: n <= j < m ==> stat(Candidate(dstDir, t, j))
    ensures m < LastSuffix ==> !stat(Candidate(dstDir, t, m))
    decreases LastSuffix - n
  {
    if n == LastSuffix then n
    else if !stat(Candidate(dstDir, t, n)) then n
    else
      var m := FirstFree(stat, dstDir, t, n + 1);
      TakenBelow(stat, dstDir, t, n, m);
      m
  }

  /** One more existing candidate in front of a run of existing candidates. */
  lemma TakenBelow(stat: Path -> bool, dstDir: Path, t: Time, n: nat, m: nat)
    requires stat(Candidate(dstDir, t, n))
    requires forall j :: n + 1 <= j < m ==> stat(Candidate(dstDir, t, j))
    ensures forall j :: n <= j < m ==> stat(Candidate(dstDir, t, j))
  {
    forall j | n <= j < m ensures stat(Candidate(dstDir, t, j)) {
      if j == n {
      } else {
        assert n + 1 <= j < m;
      }
    }
  }

  /** Every one of the first `n` candidates exists. */
  predicate AllTaken(stat: Path -> bool, dstDir: Path, t: Time, n: nat) {
    forall j :: 0 <= j < n ==> stat(Candidate(dstDir, t, j))
  }

  lemma AllTakenNext(stat: Path -> bool, dstDir: Path, t: Time, n: nat)
    requires AllTaken(stat, dstDir, t, n) && stat(Candidate(dstDir, t, n))
    ensures AllTaken(stat, dstDir, t, n + 1)
  {
  }

  /** `FirstFree` is the only counter meeting its contract: every earlier candidate exists, it does not. */
  lemma FirstFreeIs(stat: Path -> bool, dstDir: Path, t: Time, m: nat)
    requires m <= LastSuffix
    requires forall j :: 0 <= j < m ==> stat(Candidate(dstDir, t, j))
    requires m < LastSuffix ==> !stat(Candidate(dstDir, t, m))
    ensures FirstFree(stat, dstDir, t, 0) == m
  {
  }

  /** The path `generateUniquePath(dstDir, t)` returns. */
  function UniquePath(stat: Path -> bool, dstDir: Path, t: Time): Path {
    Candidate(dstDir, t, FirstFree(stat, dstDir, t, 0))
  }

  /** The first `n` candidates, in the order they are probed. */
  function Probes(dstDir: Path, t: Time, n: nat): (ps: seq<Path>)
    ensures |ps| == n
  {
    if n == 0 then [] else Probes(dstDir, t, n - 1) + [Candidate(dstDir, t, n - 1)]
  }

  /** The `j`th probe is candidate `j`: the counter goes up by one per probe. */
  lemma {:induction false} ProbesAt(dstDir: Path, t: Time, n: nat, j: nat)
    requires j < n
    ensures Probes(dstDir, t, n)[j] == Candidate(dstDir, t, j)
  {
    var prev := Probes(dstDir, t, n - 1);
    assert Probes(dstDir, t, n) == prev + [Candidate(dstDir, t, n - 1)];
    if j < n - 1 {
      ProbesAt(dstDir, t, n - 1, j);
      assert (prev + [Candidate(dstDir, t, n - 1)])[j] == prev[j];
    }
  }

  /**
   * `generateUniquePath(dstDir, t)`: probe the candidates in order until one
   * does not `Stat`. `probed` lists the paths given to `os.Stat`, in order.
   */
  method GenerateUniquePath(stat: Path -> bool, dstDir: Path, t: Time) returns (path: Path, probed: seq<Path>)
    ensures path == UniquePath(stat, dstDir, t)
    ensures var m := FirstFree(stat, dstDir, t, 0);
      probed == Probes(dstDir, t, if m < LastSuffix then m + 1 else LastSuffix)
  {
    var disambiguation := "";
    probed := [];
    var i := 1;
    while i < LastSuffix + 1
      invariant 1 <= i <= LastSuffix + 1
      invariant disambiguation == Suffix(i - 1)
      invariant probed == Probes(dstDir, t, i - 1)
      invariant AllTaken(stat, dstDir, t, i - 1)
      decreases LastSuffix + 1 - i
    {
      var candidate := GeneratePath(dstDir, t, disambiguation);
      assert candidate == Candidate(dstDir, t, i - 1);
      probed := probed + [candidate];
      assert probed == Probes(dstDir, t, i);
      if !stat(candidate) {
        break;
      }
      AllTakenNext(stat, dstDir, t, i - 1);
      disambiguation := "(" + Decimal(i) + ")";
      i := i + 1;
    }
    FirstFreeIs(stat, dstDir, t, i - 1);
    path := GeneratePath(dstDir, t, disambiguation);
  }

  lemma SuffixInjective(m: nat, n: nat)
    requires Suffix(m) == Suffix(n)
    ensures m == n
  {
    if m != 0 && n != 0 {
      assert Decimal(m) == Suffix(m)[1..|Suffix(m)| - 1];
      assert Decimal(n) == Suffix(n)[1..|Suffix(n)| - 1];
      DecimalInjective(m, n);
    }
  }

  /** Names with the same time part and the same extension coincide only with the same disambiguation. */
  lemma NameCancel(f: string, a: string, b: string)
    requires f + a + ".jpg" == f + b + ".jpg"
    ensures a == b
  {
    var x, y := f + a + ".jpg", f + b + ".jpg";
    assert |a| == |b|;
    assert a == x[|f|..|f| + |a|];
    assert b == y[|f|..|f| + |b|];
  }

  /** Different counters give different candidate paths, so no candidate is probed twice. */
  lemma CandidatesDistinct(dstDir: Path, t: Time, m: nat, n: nat)
    requires m != n
    ensures Candidate(dstDir, t, m) != Candidate(dstDir, t, n)
  {
    if Candidate(dstDir, t, m) == Candidate(dstDir, t, n) {
      JoinInjective(dstDir, Format(t, FILE_LAYOUT) + Suffix(m) + ".jpg", Format(t, FILE_LAYOUT) + Suffix(n) + ".jpg");
      NameCancel(Format(t, FILE_LAYOUT), Suffix(m), Suffix(n));
      SuffixInjective(m, n);
    }
  }

  /**
   * A generated path is the destination directory joined with the name
   * "YYYY-MM-DD" + "H" + "hh-mm-ss" + disambiguation + ".jpg", and its first
   * nineteen characters read back as the time under the file layout.
   */
  lemma GeneratePathName(dstDir: Path, t: Time, disambiguation: string)
    requires 0 <= t.year <= 9999
    ensures var name := Format(t, FILE_LAYOUT) + disambiguation + ".jpg";
      var p := GeneratePath(dstDir, t, disambiguation);
      && |p| >= |name| && p[|p| - |name|..] == name
      && Parse(name[..19], FILE_LAYOUT) == Some(t)
  {
    var name := Format(t, FILE_LAYOUT) + disambiguation + ".jpg";
    JoinEndsWith(dstDir, name);
    assert name[..19] == Format(t, FILE_LAYOUT);
    FormatParses(t, FILE_LAYOUT);
  }

  /** With one disambiguation, distinct times (years 0..9999) get distinct paths. */
  lemma GeneratePathInjective(dstDir: Path, t1: Time, t2: Time, disambiguation: string)
    requires 0 <= t1.year <= 9999 && 0 <= t2.year <= 9999
    requires GeneratePath(dstDir, t1, disambiguation) == GeneratePath(dstDir, t2, disambiguation)
    ensures t1 == t2
  {
    var n1 := Format(t1, FILE_LAYOUT) + disambiguation + ".jpg";
    var n2 := Format(t2, FILE_LAYOUT) + disambiguation + ".jpg";
    JoinInjective(dstDir, n1, n2);
    assert Format(t1, FILE_LAYOUT) == n1[..19] == n2[..19] == Format(t2, FILE_LAYOUT);
    FormatInjective(t1, t2, FILE_LAYOUT);
  }

  /**
   * The unique path is one whose `Stat` fails, unless every one of the 99
   * probed candidates exists: then it is the "(99)" path, which was never
   * probed and may exist too.
   */
  lemma UniquePathChoice(stat: Path -> bool, dstDir: Path, t: Time)
    ensures !stat(UniquePath(stat, dstDir, t)) ||
      (UniquePath(stat, dstDir, t) == Candidate(dstDir, t, LastSuffix) &&
       forall j :: 0 <= j < LastSuffix ==> stat(Candidate(dstDir, t, j)))
    ensures !stat(Candidate(dstDir, t, 0)) ==> UniquePath(stat, dstDir, t) == Candidate(dstDir, t, 0)
    ensures stat(Candidate(dstDir, t, 0)) && !stat(Candidate(dstDir, t, 1)) ==>
      UniquePath(stat, dstDir, t) == GeneratePath(dstDir, t, "(1)")
  {
    var m := FirstFree(stat, dstDir, t, 0);
    if !stat(Candidate(dstDir, t, 0)) {
      FirstFreeIs(stat, dstDir, t, 0);
    } else if !stat(Candidate(dstDir, t, 1)) {
      FirstFreeIs(stat, dstDir, t, 1);
      assert Suffix(1) == "(1)" by {
        assert Decimal(1) == [DigitChar(1)];
      }
    }
  }

  // ---------------------------------------------------------------------
  // Copying

  /**
   * `copyFile(src, dst)`: open the source, create (truncate) the
   * destination, copy. When both name the same file, the truncation empties
   * the source before it is read, so the copy is empty. `createFails` says
   * where `os.Create`, or the `io.Copy` after it, fails.
   */
  function CopyFileOn(files: Files, src: Path, dst: Path, createFails: Path -> bool): (Files, Option<Error>) {
    if src !in files then (files, Some(OpenFailed(src)))
    else if createFails(dst) then (files, Some(CopyFailed(dst)))
    else (files[dst := if src == dst then [] else files[src]], None)
  }

  method CopyFile(disk: Disk, src: Path, dst: Path, createFails: Path -> bool) returns (err: Option<Error>)
    modifies disk
    ensures (disk.files, err) == CopyFileOn(old(disk.files), src, dst, createFails)
  {
    if src !in disk.files {
      return Some(OpenFailed(src));
    }
    if createFails(dst) {
      return Some(CopyFailed(dst));
    }
    disk.Create(dst, []);
    var contents := disk.files[src];
    assert contents == if src == dst then [] else old(disk.files)[src];
    SpliceAtTail([], 0, contents);
    assert [][..0] + contents == contents;
    disk.WriteAt(dst, contents, 0);
    assert disk.files == old(disk.files)[dst := contents];
    return None;
  }

  /** A copy changes only its destination, and on success the destination holds the source's bytes. */
  lemma CopyFileEffect(files: Files, src: Path, dst: Path, createFails: Path -> bool)
    ensures var (f, err) := CopyFileOn(files, src, dst, createFails);
      && (err.None? <==> src in files && !createFails(dst))
      && (err.Some? ==> f == files)
      && (err.None? ==> dst in f && f[dst] == (if src == dst then [] else files[src]))
      && (forall p :: p != dst ==> (p in f <==> p in files) && (p in files ==> f[p] == files[p]))
  {
  }

  // ---------------------------------------------------------------------
  // The batch loop

  /** What the model does not compute: the EXIF library, the time shift and the I/O faults. */
  datatype Environment = Environment(
    lib: Library,
    shift: Time -> Time,         // originalTime.Add(shift)
    statFails: Path -> bool,     // os.Stat fails on a path that exists
    createFails: Path -> bool)   // os.Create, or the io.Copy into the created file, fails

  /**
   * What the loop does, in order: a source skipped, a copy begun (to `dst`,
   * named after the shifted time `time`), a date patched into the copy.
   */
  datatype Action =
    | Skipped(entry: nat, src: Path)
    | Copying(entry: nat, src: Path, dst: Path, time: Time)
    | Patched(entry: nat, dst: Path, time: Time)

  /** The effect of one iteration on entry `k`, the actions it takes, and how the loop stops there if it does. */
  function OrganiseStep(files: Files, names: seq<string>, k: nat, srcDir: Path, dstDir: Path, env: Environment)
    : (Files, seq<Action>, Option<Outcome>)
    requires k < |names|
  {
    var src := Join(srcDir, names[k]);
    match GetImageTime(files, src, env.lib)
      case Fatal => (files, [], Some(Crashed(k)))
      case Err(_) => (files, [Skipped(k, src)], None)
      case Ok(original) => CopyStep(files, k, src, env.shift(original), dstDir, env)
  }

  /** The rest of an iteration once the shifted time `t` is known: choose the name, copy, patch. */
  function CopyStep(files: Files, k: nat, src: Path, t: Time, dstDir: Path, env: Environment)
    : (Files, seq<Action>, Option<Outcome>)
  {
    var dst := UniquePath(Stat(files, env.statFails), dstDir, t);
    var copy := CopyFileOn(files, src, dst, env.createFails);
    if copy.1.Some? then (copy.0, [Copying(k, src, dst, t)], Some(Aborted(k, copy.1.value)))
    else PatchStep(copy.0, k, src, dst, t, env.lib.probe)
  }

  /** The end of an iteration once the copy is made: patch the copy's date. */
  function PatchStep(copied: Files, k: nat, src: Path, dst: Path, t: Time, probe: Classifier)
    : (Files, seq<Action>, Option<Outcome>)
  {
    var patch := SetImageTimeOn(copied, dst, t, probe);
    var (acts, stop) := PatchActions(k, src, dst, t, patch.1);
    (patch.0, acts, stop)
  }

  /** The actions of an iteration whose patch of the copy returned `r`, and how the loop stops. */
  function PatchActions(k: nat, src: Path, dst: Path, t: Time, r: Result<()>): (seq<Action>, Option<Outcome>) {
    match r
      case Fatal => ([Copying(k, src, dst, t)], Some(Crashed(k)))
      case Err(e) => ([Copying(k, src, dst, t)], Some(Aborted(k, e)))
      case Ok(_) => ([Copying(k, src, dst, t), Patched(k, dst, t)], None)
  }

  function Prefixed(trace: seq<Action>, run: (Files, Batch<Action>)): (Files, Batch<Action>) {
    (run.0, Batch(trace + run.1.trace, run.1.outcome))
  }

  lemma PrefixedAssoc(a: seq<Action>, b: seq<Action>, run: (Files, Batch<Action>))
    ensures Prefixed(a, Prefixed(b, run)) == Prefixed(a + b, run)
  {
    assert a + (b + run.1.trace) == (a + b) + run.1.trace;
  }

  /**
   * One iteration as a function of the files and the entry: the files after
   * it, its actions, and how the loop stops there if it does.
   */
  type Step = (Files, nat) -> (Files, seq<Action>, Option<Outcome>)

  /** The iteration of `organise` on each entry of the listing `names`. */
  function OrganiseSteps(names: seq<string>, srcDir: Path, dstDir: Path, env: Environment): Step {
    // The loop never runs an iteration past the end of the listing; there the value is arbitrary.
    (files: Files, k: nat) =>
      if k < |names| then OrganiseStep(files, names, k, srcDir, dstDir, env) else (files, [], None)
  }

  /** A loop whose iterations `k` to `n - 1` are `step`: the final files and what it did. */
  function LoopFrom(step: Step, files: Files, n: nat, k: nat): (Files, Batch<Action>)
    requires k <= n
    decreases n - k
  {
    if k == n then (files, Batch([], Completed))
    else
      var (next, acts, stop) := step(files, k);
      if stop.Some? then (next, Batch(acts, stop.value))
      else Prefixed(acts, LoopFrom(step, next, n, k + 1))
  }

  /** The loop of `organise` from entry `k` of the listing on: the final files and what it did. */
  function OrganiseFrom(files: Files, names: seq<string>, k: nat, srcDir: Path, dstDir: Path, env: Environment)
    : (Files, Batch<Action>)
    requires k <= |names|
  {
    LoopFrom(OrganiseSteps(names, srcDir, dstDir, env), files, |names|, k)
  }

  /**
   * One iteration of the loop of `organise` on entry `k`: read the time,
   * skip on any error, otherwise copy to a fresh name and patch the copy.
   */
  method OrganiseEntry(disk: Disk, names: seq<string>, k: nat, srcDir: Path, dstDir: Path, env: Environment)
    returns (acts: seq<Action>, stop: Option<Outcome>)
    requires k < |names|
    modifies disk
    ensures (disk.files, acts, stop) == OrganiseStep(old(disk.files), names, k, srcDir, dstDir, env)
  {
    var src := Join(srcDir, names[k]);
    var got := GetImageTime(disk.files, src, env.lib);
    if got.Fatal? {
      return [], Some(Crashed(k));
    }
    if got.Err? {
      return [Skipped(k, src)], None;
    }
    var t := env.shift(got.value);
    assert OrganiseStep(old(disk.files), names, k, srcDir, dstDir, env) == CopyStep(disk.files, k, src, t, dstDir, env);
    var dst, _ := GenerateUniquePath(Stat(disk.files, env.statFails), dstDir, t);
    acts := [Copying(k, src, dst, t)];
    var err := CopyFile(disk, src, dst, env.createFails);
    if err.Some? {
      return acts, Some(Aborted(k, err.value));
    }
    assert CopyStep(old(disk.files), k, src, t, dstDir, env) == PatchStep(disk.files, k, src, dst, t, env.lib.probe);
    ghost var copied := disk.files;
    var r := SetImageTime(disk, dst, t, env.lib.probe);
    ghost var patch := SetImageTimeOn(copied, dst, t, env.lib.probe);
    assert patch.0 == disk.files && patch.1 == r;
    if r.Fatal? {
      assert PatchStep(copied, k, src, dst, t, env.lib.probe) == (disk.files, acts, Some(Crashed(k)));
      return acts, Some(Crashed(k));
    }
    if r.Err? {
      assert PatchStep(copied, k, src, dst, t, env.lib.probe) == (disk.files, acts, Some(Aborted(k, r.error)));
      return acts, Some(Aborted(k, r.error));
    }
    assert patch.1 == Ok(());
    acts := [Copying(k, src, dst, t), Patched(k, dst, t)];
    assert PatchStep(copied, k, src, dst, t, env.lib.probe) == (disk.files, acts, None);
    return acts, None;
  }

  /** The run from entry `k` is iteration `k` followed, unless it stops, by the run from `k + 1`. */
  lemma OrganiseFromStep(files: Files, names: seq<string>, k: nat, srcDir: Path, dstDir: Path, env: Environment)
    requires k < |names|
    ensures var (next, acts, stop) := OrganiseStep(files, names, k, srcDir, dstDir, env);
      OrganiseFrom(files, names, k, srcDir, dstDir, env)
        == if stop.Some? then (next, Batch(acts, stop.value))
           else Prefixed(acts, OrganiseFrom(next, names, k + 1, srcDir, dstDir, env))
  {
  }

  /**
   * The loop of `organise(srcDir, dstDir, shift)` over the listing `names`:
   * a failed time read skips the entry, any failure of the copy or of the
   * patch ends the command at once, and a panic ends it too.
   */
  method Organise(disk: Disk, names: seq<string>, srcDir: Path, dstDir: Path, env: Environment)
    returns (trace: seq<Action>, outcome: Outcome)
    modifies disk
    ensures (disk.files, Batch(trace, outcome)) == OrganiseFrom(old(disk.files), names, 0, srcDir, dstDir, env)
  {
    trace := [];
    var k := 0;
    assert [] + OrganiseFrom(disk.files, names, 0, srcDir, dstDir, env).1.trace
        == OrganiseFrom(disk.files, names, 0, srcDir, dstDir, env).1.trace;
    while k < |names|
      invariant 0 <= k <= |names|
      invariant OrganiseFrom(old(disk.files), names, 0, srcDir, dstDir, env)
             == Prefixed(trace, OrganiseFrom(disk.files, names, k, srcDir, dstDir, env))
      decreases |names| - k
    {
      OrganiseFromStep(disk.files, names, k, srcDir, dstDir, env);
      var acts, stop := OrganiseEntry(disk, names, k, srcDir, dstDir, env);
      if stop.Some? {
        trace := trace + acts;
        outcome := stop.value;
        return;
      }
      PrefixedAssoc(trace, acts, OrganiseFrom(disk.files, names, k + 1, srcDir, dstDir, env));
      trace := trace + acts;
      k := k + 1;
    }
    assert trace + [] == trace;
    outcome := Completed;
  }

  // ---------------------------------------------------------------------
  // Properties of the loop

  /** `p` is one of the paths `generateUniquePath` can return for time `t`. */
  ghost predicate IsCandidate(dstDir: Path, t: Time, p: Path) {
    p in Probes(dstDir, t, LastSuffix + 1)
  }

  /** Only the destination of the copy changes, and no path disappears. */
  ghost predicate ChangesOnly(before: Files, after: Files, dst: Path) {
    && before.Keys <= after.Keys
    && forall p :: p in after && (p !in before || after[p] != before[p]) ==> p == dst
  }

  /** Every action names an entry of the listing in `[lo, hi)`. */
  ghost predicate EntriesWithin(trace: seq<Action>, lo: nat, hi: nat) {
    forall i :: 0 <= i < |trace| ==> lo <= trace[i].entry < hi
  }

  /** Entries never go back. */
  ghost predicate EntriesSorted(trace: seq<Action>) {
    forall i, j :: 0 <= i < j < |trace| ==> trace[i].entry <= trace[j].entry
  }

  /** Every source an action names is the listed name of its entry, in the source directory. */
  ghost predicate SourcesListed(trace: seq<Action>, names: seq<string>, srcDir: Path) {
    forall i :: 0 <= i < |trace| && !trace[i].Patched? ==>
      trace[i].entry < |names| && trace[i].src == Join(srcDir, names[trace[i].entry])
  }

  /** Entry `e` was skipped or copied and patched. */
  ghost predicate Handled(trace: seq<Action>, e: nat) {
    exists i :: 0 <= i < |trace| && trace[i].entry == e && (trace[i].Skipped? || trace[i].Patched?)
  }

  /** `p` was the destination of a copy. */
  ghost predicate Copied(trace: seq<Action>, p: Path) {
    exists i :: 0 <= i < |trace| && trace[i].Copying? && trace[i].dst == p
  }

  /** Every copy goes to a candidate name of its own time. */
  ghost predicate CopiesNamed(trace: seq<Action>, dstDir: Path) {
    forall i :: 0 <= i < |trace| && trace[i].Copying? ==> IsCandidate(dstDir, trace[i].time, trace[i].dst)
  }

  /**
   * A patch directly follows the copy it patches (same entry, destination
   * and time), and a copy is followed by its patch unless it is the last action.
   */
  ghost predicate Paired(trace: seq<Action>) {
    && (|trace| > 0 ==> !trace[0].Patched?)
    && forall i, j :: 0 <= i < j < |trace| && j == i + 1 ==>
         && (trace[j].Patched? ==>
               trace[i].Copying? && trace[i].entry == trace[j].entry
               && trace[i].dst == trace[j].dst && trace[i].time == trace[j].time)
         && (trace[i].Copying? ==> trace[j].Patched?)
  }

  lemma ConcatOrder(a: seq<Action>, b: seq<Action>, names: seq<string>, srcDir: Path, k: nat, hi: nat)
    requires k < hi && EntriesWithin(a, k, k + 1) && EntriesWithin(b, k + 1, hi) && EntriesSorted(b)
    requires SourcesListed(a, names, srcDir) && SourcesListed(b, names, srcDir)
    ensures EntriesWithin(a + b, k, hi) && EntriesSorted(a + b) && SourcesListed(a + b, names, srcDir)
  {
    var ab := a + b;
    assert forall i :: 0 <= i < |a| ==> ab[i] == a[i];
    assert forall i :: |a| <= i < |ab| ==> ab[i] == b[i - |a|];
  }

  lemma ConcatHandled(a: seq<Action>, b: seq<Action>, e: nat)
    requires Handled(a, e) || Handled(b, e)
    ensures Handled(a + b, e)
  {
    if Handled(a, e) {
      var i :| 0 <= i < |a| && a[i].entry == e && (a[i].Skipped? || a[i].Patched?);
      assert (a + b)[i] == a[i];
    } else {
      var i :| 0 <= i < |b| && b[i].entry == e && (b[i].Skipped? || b[i].Patched?);
      assert (a + b)[|a| + i] == b[i];
    }
  }

  lemma ConcatCopied(a: seq<Action>, b: seq<Action>, p: Path)
    requires Copied(a, p) || Copied(b, p)
    ensures Copied(a + b, p)
  {
    if Copied(a, p) {
      var i :| 0 <= i < |a| && a[i].Copying? && a[i].dst == p;
      assert (a + b)[i] == a[i];
    } else {
      var i :| 0 <= i < |b| && b[i].Copying? && b[i].dst == p;
      assert (a + b)[|a| + i] == b[i];
    }
  }

  lemma ConcatPaired(a: seq<Action>, b: seq<Action>, dstDir: Path)
    requires Paired(a) && Paired(b) && CopiesNamed(a, dstDir) && CopiesNamed(b, dstDir)
    requires a != [] ==> !a[|a| - 1].Copying?
    requires b != [] ==> !b[0].Patched?
    ensures Paired(a + b) && CopiesNamed(a + b, dstDir)
  {
    ConcatPairs(a, b);
    ConcatNamed(a, b, dstDir);
  }

  lemma ConcatPairs(a: seq<Action>, b: seq<Action>)
    requires Paired(a) && Paired(b)
    requires a != [] ==> !a[|a| - 1].Copying?
    requires b != [] ==> !b[0].Patched?
    ensures Paired(a + b)
  {
    var ab := a + b;
    forall i, j | 0 <= i < j < |ab| && j == i + 1
      ensures ab[j].Patched? ==>
                ab[i].Copying? && ab[i].entry == ab[j].entry && ab[i].dst == ab[j].dst && ab[i].time == ab[j].time
      ensures ab[i].Copying? ==> ab[j].Patched?
    {
      if j < |a| {
        assert ab[i] == a[i] && ab[j] == a[j];
      } else if i >= |a| {
        assert ab[i] == b[i - |a|] && ab[j] == b[j - |a|];
      } else {
        assert ab[i] == a[|a| - 1] && ab[j] == b[0];
      }
    }
    if a == [] {
      assert ab == b;
    }
  }

  lemma ConcatNamed(a: seq<Action>, b: seq<Action>, dstDir: Path)
    requires CopiesNamed(a, dstDir) && CopiesNamed(b, dstDir)
    ensures CopiesNamed(a + b, dstDir)
  {
    var ab := a + b;
    forall i | 0 <= i < |ab| && ab[i].Copying? ensures IsCandidate(dstDir, ab[i].time, ab[i].dst) {
      if i < |a| {
        assert ab[i] == a[i];
      } else {
        assert ab[i] == b[i - |a|];
      }
    }
  }

  /** A completed run from `k + 1` on that handled every later entry, behind an iteration that handled `k`. */
  lemma ConcatHandledAll(acts: seq<Action>, rest: seq<Action>, k: nat, n: nat)
    requires Handled(acts, k)
    requires forall e :: k + 1 <= e < n ==> Handled(rest, e)
    ensures forall e :: k <= e < n ==> Handled(acts + rest, e)
  {
    forall e | k <= e < n ensures Handled(acts + rest, e) {
      ConcatHandled(acts, rest, e);
    }
  }

  /**
   * The paths that differ after an iteration and then after the rest of
   * the loop were all copied to by one of the two.
   */
  lemma ConcatChanges(files: Files, next: Files, after: Files, acts: seq<Action>, rest: seq<Action>)
    requires files.Keys <= next.Keys
    requires forall p :: p in next && (p !in files || next[p] != files[p]) ==> Copied(acts, p)
    requires forall p :: p in after && (p !in next || after[p] != next[p]) ==> Copied(rest, p)
    ensures forall p :: p in after && (p !in files || after[p] != files[p]) ==> Copied(acts + rest, p)
  {
    forall p | p in after && (p !in files || after[p] != files[p]) ensures Copied(acts + rest, p) {
      ConcatCopied(acts, rest, p);
    }
  }

  /** Patched destinations that an earlier stage left in place are still there after a later one. */
  lemma ConcatPatchedKept(acts: seq<Action>, rest: seq<Action>, next: Files, after: Files)
    requires next.Keys <= after.Keys
    requires forall i :: 0 <= i < |acts| && acts[i].Patched? ==> acts[i].dst in next
    requires forall i :: 0 <= i < |rest| && rest[i].Patched? ==> rest[i].dst in after
    ensures forall i :: 0 <= i < |acts + rest| && (acts + rest)[i].Patched? ==> (acts + rest)[i].dst in after
  {
    var tr := acts + rest;
    forall i | 0 <= i < |tr| && tr[i].Patched? ensures tr[i].dst in after {
      if i < |acts| {
        assert tr[i] == acts[i];
      } else {
        assert tr[i] == rest[i - |acts|];
      }
    }
  }

  /**
   * The shape of one iteration on entry `k`: its actions name that entry
   * and the listed source, a patch follows its copy, a stop is at that
   * entry, and going on means the entry was skipped or patched.
   */
  ghost predicate Shaped(acts: seq<Action>, stop: Option<Outcome>, names: seq<string>, k: nat, srcDir: Path, dstDir: Path) {
    && EntriesWithin(acts, k, k + 1) && SourcesListed(acts, names, srcDir)
    && Paired(acts) && CopiesNamed(acts, dstDir)
    && (stop.Some? ==> !stop.value.Completed? && stop.value.entry == k)
    && (stop.None? ==> acts != [] && !acts[|acts| - 1].Copying? && Handled(acts, k))
  }

  lemma PatchStepShape(copied: Files, names: seq<string>, k: nat, srcDir: Path, dstDir: Path, dst: Path, t: Time, probe: Classifier)
    requires k < |names| && IsCandidate(dstDir, t, dst)
    ensures var (_, acts, stop) := PatchStep(copied, k, Join(srcDir, names[k]), dst, t, probe);
      Shaped(acts, stop, names, k, srcDir, dstDir)
  {
    PatchActionsShape(names, k, srcDir, dstDir, dst, t, SetImageTimeOn(copied, dst, t, probe).1);
  }

  lemma PatchActionsShape(names: seq<string>, k: nat, srcDir: Path, dstDir: Path, dst: Path, t: Time, r: Result<()>)
    requires k < |names| && IsCandidate(dstDir, t, dst)
    ensures var (acts, stop) := PatchActions(k, Join(srcDir, names[k]), dst, t, r);
      Shaped(acts, stop, names, k, srcDir, dstDir)
  {
    if r.Ok? {
      PatchedShape(names, k, srcDir, dstDir, dst, t);
    } else {
      CopyingShape(names, k, srcDir, dstDir, dst, t, PatchActions(k, Join(srcDir, names[k]), dst, t, r).1);
    }
  }

  /** An iteration that stops after its copy began. */
  lemma CopyingShape(names: seq<string>, k: nat, srcDir: Path, dstDir: Path, dst: Path, t: Time, stop: Option<Outcome>)
    requires k < |names| && IsCandidate(dstDir, t, dst)
    requires stop.Some? && !stop.value.Completed? && stop.value.entry == k
    ensures Shaped([Copying(k, Join(srcDir, names[k]), dst, t)], stop, names, k, srcDir, dstDir)
  {
    var one := [Copying(k, Join(srcDir, names[k]), dst, t)];
    SingleInOrder(one, names, k, srcDir, dst, t);
    CopiesNamedAtStart(one, dstDir, dst, t);
  }

  /** The ordering half of `CopyingShape`, which does not depend on the name. */
  lemma SingleInOrder(acts: seq<Action>, names: seq<string>, k: nat, srcDir: Path, dst: Path, t: Time)
    requires k < |names| && acts == [Copying(k, Join(srcDir, names[k]), dst, t)]
    ensures EntriesWithin(acts, k, k + 1) && SourcesListed(acts, names, srcDir) && Paired(acts)
  {
  }

  /** An iteration that copied and patched. */
  lemma PatchedShape(names: seq<string>, k: nat, srcDir: Path, dstDir: Path, dst: Path, t: Time)
    requires k < |names| && IsCandidate(dstDir, t, dst)
    ensures Shaped([Copying(k, Join(srcDir, names[k]), dst, t), Patched(k, dst, t)], None, names, k, srcDir, dstDir)
  {
    var both := [Copying(k, Join(srcDir, names[k]), dst, t), Patched(k, dst, t)];
    PairShape(both, names, k, srcDir, dstDir, dst, t);
  }

  lemma PairShape(acts: seq<Action>, names: seq<string>, k: nat, srcDir: Path, dstDir: Path, dst: Path, t: Time)
    requires k < |names| && IsCandidate(dstDir, t, dst)
    requires |acts| == 2 && acts[0] == Copying(k, Join(srcDir, names[k]), dst, t) && acts[1] == Patched(k, dst, t)
    ensures Shaped(acts, None, names, k, srcDir, dstDir)
  {
    PairInOrder(acts, names, k, srcDir, dst, t);
    CopiesNamedAtStart(acts, dstDir, dst, t);
  }

  /** The ordering half of `PairShape`, which does not depend on the name. */
  lemma PairInOrder(acts: seq<Action>, names: seq<string>, k: nat, srcDir: Path, dst: Path, t: Time)
    requires k < |names|
    requires |acts| == 2 && acts[0] == Copying(k, Join(srcDir, names[k]), dst, t) && acts[1] == Patched(k, dst, t)
    ensures EntriesWithin(acts, k, k + 1) && SourcesListed(acts, names, srcDir) && Paired(acts)
    ensures !acts[|acts| - 1].Copying? && Handled(acts, k)
  {
    forall i | 0 <= i < |acts| ensures acts[i] == if i == 0 then acts[0] else acts[1] {
    }
    assert Handled(acts, k) by {
      assert acts[1].entry == k && acts[1].Patched?;
    }
  }

  /** A trace whose only copy is its first action, to a candidate name, copies only to candidate names. */
  lemma CopiesNamedAtStart(acts: seq<Action>, dstDir: Path, dst: Path, t: Time)
    requires IsCandidate(dstDir, t, dst)
    requires |acts| > 0 && acts[0].Copying? && acts[0].dst == dst && acts[0].time == t
    requires forall i :: 0 < i < |acts| ==> !acts[i].Copying?
    ensures CopiesNamed(acts, dstDir)
  {
    forall i | 0 <= i < |acts| && acts[i].Copying? ensures IsCandidate(dstDir, acts[i].time, acts[i].dst) {
      assert i == 0;
    }
  }

  lemma CopyStepShape(files: Files, names: seq<string>, k: nat, srcDir: Path, t: Time, dstDir: Path, env: Environment)
    requires k < |names|
    ensures var (_, acts, stop) := CopyStep(files, k, Join(srcDir, names[k]), t, dstDir, env);
      Shaped(acts, stop, names, k, srcDir, dstDir)
  {
    var src := Join(srcDir, names[k]);
    var dst := UniquePath(Stat(files, env.statFails), dstDir, t);
    ProbesAt(dstDir, t, LastSuffix + 1, FirstFree(Stat(files, env.statFails), dstDir, t, 0));
    assert IsCandidate(dstDir, t, dst);
    var copy := CopyFileOn(files, src, dst, env.createFails);
    if copy.1.None? {
      PatchStepShape(copy.0, names, k, srcDir, dstDir, dst, t, env.lib.probe);
    }
  }

  /** The shape of one iteration's actions and where it may stop. */
  lemma StepShape(files: Files, names: seq<string>, k: nat, srcDir: Path, dstDir: Path, env: Environment)
    requires k < |names|
    ensures var (_, acts, stop) := OrganiseStep(files, names, k, srcDir, dstDir, env);
      Shaped(acts, stop, names, k, srcDir, dstDir)
  {
    var src := Join(srcDir, names[k]);
    var got := GetImageTime(files, src, env.lib);
    if got.Ok? {
      CopyStepShape(files, names, k, srcDir, env.shift(got.value), dstDir, env);
    } else if got.Err? {
      assert Handled([Skipped(k, src)], k) by {
        assert [Skipped(k, src)][0] == Skipped(k, src);
      }
    }
  }

  /**
   * Whatever error reading the time returns, the iteration skips the
   * entry and goes on with the files unchanged.
   */
  lemma StepSkips(files: Files, names: seq<string>, k: nat, srcDir: Path, dstDir: Path, env: Environment)
    requires k < |names| && GetImageTime(files, Join(srcDir, names[k]), env.lib).Err?
    ensures OrganiseStep(files, names, k, srcDir, dstDir, env) == (files, [Skipped(k, Join(srcDir, names[k]))], None)
  {
  }

  /**
   * An iteration aborts only after its time was read and its copy begun:
   * its one action is that copy, to the name chosen for the shifted time,
   * and the error is the copy's or, once the copy is made, the patch's.
   */
  lemma StepAborts(files: Files, names: seq<string>, k: nat, srcDir: Path, dstDir: Path, env: Environment)
    requires k < |names|
    ensures var src := Join(srcDir, names[k]);
      var (_, acts, stop) := OrganiseStep(files, names, k, srcDir, dstDir, env);
      var got := GetImageTime(files, src, env.lib);
      stop.Some? && stop.value.Aborted? ==>
        got.Ok? &&
        var t := env.shift(got.value);
        var dst := UniquePath(Stat(files, env.statFails), dstDir, t);
        var copy := CopyFileOn(files, src, dst, env.createFails);
        && acts == [Copying(k, src, dst, t)]
        && (copy.1.Some? ==> stop.value.error == copy.1.value)
        && (copy.1.None? ==> SetImageTimeOn(copy.0, dst, t, env.lib.probe).1 == Err(stop.value.error))
  {
    var src := Join(srcDir, names[k]);
    var got := GetImageTime(files, src, env.lib);
    if got.Ok? {
      var t := env.shift(got.value);
      var dst := UniquePath(Stat(files, env.statFails), dstDir, t);
      var copy := CopyFileOn(files, src, dst, env.createFails);
      if copy.1.None? {
        PatchAborts(copy.0, k, src, dst, t, env.lib.probe);
      }
    }
  }

  /**
   * An iteration whose time was read begins by copying the source to the
   * name `generateUniquePath` chooses for the shifted time on the files as
   * they are; when it goes on, that copy succeeded and was patched with the
   * same time, and the files are those the patch left.
   */
  lemma StepCopies(files: Files, names: seq<string>, k: nat, srcDir: Path, dstDir: Path, env: Environment)
    requires k < |names| && GetImageTime(files, Join(srcDir, names[k]), env.lib).Ok?
    ensures var src := Join(srcDir, names[k]);
      var t := env.shift(GetImageTime(files, src, env.lib).value);
      var dst := UniquePath(Stat(files, env.statFails), dstDir, t);
      var copy := CopyFileOn(files, src, dst, env.createFails);
      var (after, acts, stop) := OrganiseStep(files, names, k, srcDir, dstDir, env);
      && acts != [] && acts[0] == Copying(k, src, dst, t)
      && (stop.None? ==>
            && copy.1.None?
            && acts == [Copying(k, src, dst, t), Patched(k, dst, t)]
            && SetImageTimeOn(copy.0, dst, t, env.lib.probe) == (after, Ok(())))
  {
    var src := Join(srcDir, names[k]);
    var t := env.shift(GetImageTime(files, src, env.lib).value);
    var dst := UniquePath(Stat(files, env.statFails), dstDir, t);
    var copy := CopyFileOn(files, src, dst, env.createFails);
    assert OrganiseStep(files, names, k, srcDir, dstDir, env) == CopyStep(files, k, src, t, dstDir, env);
    if copy.1.None? {
      PatchGoesOn(copy.0, k, src, dst, t, env.lib.probe);
    }
  }

  /** A patch step begins with the copy action; when it goes on, the patch succeeded and follows the copy. */
  lemma PatchGoesOn(copied: Files, k: nat, src: Path, dst: Path, t: Time, probe: Classifier)
    ensures var (after, acts, stop) := PatchStep(copied, k, src, dst, t, probe);
      && acts != [] && acts[0] == Copying(k, src, dst, t)
      && (stop.None? ==>
            acts == [Copying(k, src, dst, t), Patched(k, dst, t)] && SetImageTimeOn(copied, dst, t, probe) == (after, Ok(())))
  {
    match SetImageTimeOn(copied, dst, t, probe).1
      case Fatal =>
      case Err(_) =>
      case Ok(_) =>
  }

  /** A patch step aborts only with the patch's own error, after the one copy action. */
  lemma PatchAborts(copied: Files, k: nat, src: Path, dst: Path, t: Time, probe: Classifier)
    ensures var (_, acts, stop) := PatchStep(copied, k, src, dst, t, probe);
      stop.Some? && stop.value.Aborted? ==>
        acts == [Copying(k, src, dst, t)] && SetImageTimeOn(copied, dst, t, probe).1 == Err(stop.value.error)
  {
    var r := SetImageTimeOn(copied, dst, t, probe).1;
    if r.Err? {
      assert PatchActions(k, src, dst, t, r) == ([Copying(k, src, dst, t)], Some(Aborted(k, r.error)));
    }
  }

  /**
   * What one iteration may change: no path disappears, only a path it
   * copied to can differ, and a patched copy is in place.
   */
  ghost predicate Confined(files: Files, after: Files, acts: seq<Action>) {
    && files.Keys <= after.Keys
    && (forall p :: p in after && (p !in files || after[p] != files[p]) ==> Copied(acts, p))
    && (forall i :: 0 <= i < |acts| && acts[i].Patched? ==> acts[i].dst in after)
  }

  lemma PatchStepFiles(files: Files, copied: Files, k: nat, src: Path, dst: Path, t: Time, probe: Classifier)
    requires ChangesOnly(files, copied, dst) && dst in copied
    ensures var (after, acts, _) := PatchStep(copied, k, src, dst, t, probe);
      Confined(files, after, acts)
  {
    var patch := SetImageTimeOn(copied, dst, t, probe);
    assert ChangesOnly(files, patch.0, dst);
    var acts := PatchStep(copied, k, src, dst, t, probe).1;
    assert acts[0] == Copying(k, src, dst, t);
    assert Copied(acts, dst);
  }

  lemma CopyStepFiles(files: Files, k: nat, src: Path, t: Time, dstDir: Path, env: Environment)
    ensures var (after, acts, _) := CopyStep(files, k, src, t, dstDir, env);
      Confined(files, after, acts)
  {
    var dst := UniquePath(Stat(files, env.statFails), dstDir, t);
    CopyFileEffect(files, src, dst, env.createFails);
    var copy := CopyFileOn(files, src, dst, env.createFails);
    if copy.1.None? {
      PatchStepFiles(files, copy.0, k, src, dst, t, env.lib.probe);
    }
  }

  /**
   * What one iteration changes: no path disappears, only the destination
   * of its copy can differ, and a patched copy is in place.
   */
  lemma StepFiles(files: Files, names: seq<string>, k: nat, srcDir: Path, dstDir: Path, env: Environment)
    requires k < |names|
    ensures var (after, acts, _) := OrganiseStep(files, names, k, srcDir, dstDir, env);
      Confined(files, after, acts)
  {
    var src := Join(srcDir, names[k]);
    var got := GetImageTime(files, src, env.lib);
    if got.Ok? {
      CopyStepFiles(files, k, src, env.shift(got.value), dstDir, env);
    }
  }

  /**
   * Every iteration of `step` before `n` names only its own entry and that
   * entry's listed source, and stops, if it does, at that entry.
   */
  ghost predicate StepsInOrder(step: Step, n: nat, names: seq<string>, srcDir: Path) {
    forall f: Files, j: nat :: j < n ==>
      && EntriesWithin(step(f, j).1, j, j + 1) && SourcesListed(step(f, j).1, names, srcDir)
      && (step(f, j).2.Some? ==> !step(f, j).2.value.Completed? && step(f, j).2.value.entry == j)
  }

  /**
   * Every iteration of `step` before `n` that goes on has skipped or
   * patched its entry, and none stops the loop as completed.
   */
  ghost predicate StepsHandle(step: Step, n: nat) {
    forall f: Files, j: nat :: j < n ==>
      && (step(f, j).2.None? ==> Handled(step(f, j).1, j))
      && (step(f, j).2.Some? ==> !step(f, j).2.value.Completed?)
  }

  /**
   * Every iteration of `step` before `n` pairs its copy with its patch,
   * copies to a candidate name, and ends on its patch or a skip when it goes on.
   */
  ghost predicate StepsPaired(step: Step, n: nat, dstDir: Path) {
    forall f: Files, j: nat :: j < n ==>
      && EntriesWithin(step(f, j).1, j, j + 1) && Paired(step(f, j).1) && CopiesNamed(step(f, j).1, dstDir)
      && (step(f, j).2.Some? ==> !step(f, j).2.value.Completed? && step(f, j).2.value.entry == j)
      && (step(f, j).2.None? ==> step(f, j).1 != [] && !step(f, j).1[|step(f, j).1| - 1].Copying?)
  }

  /** Every iteration of `step` before `n` changes the files only as `Confined` allows. */
  ghost predicate StepsConfined(step: Step, n: nat) {
    forall f: Files, j: nat :: j < n ==> Confined(f, step(f, j).0, step(f, j).1)
  }

  lemma OrganiseStepsShaped(names: seq<string>, srcDir: Path, dstDir: Path, env: Environment)
    ensures var step := OrganiseSteps(names, srcDir, dstDir, env);
      StepsInOrder(step, |names|, names, srcDir) && StepsHandle(step, |names|) && StepsPaired(step, |names|, dstDir)
  {
    var step := OrganiseSteps(names, srcDir, dstDir, env);
    forall f: Files, j: nat | j < |names|
      ensures Shaped(step(f, j).1, step(f, j).2, names, j, srcDir, dstDir)
    {
      StepShape(f, names, j, srcDir, dstDir, env);
    }
  }

  /** The trace ends with the copy of entry `e`. */
  ghost predicate EndsCopying(trace: seq<Action>, e: nat) {
    trace != [] && trace[|trace| - 1].Copying? && trace[|trace| - 1].entry == e
  }

  /** Every iteration of `step` before `n` that aborts ends on its own copy. */
  ghost predicate StepsAbortAfterCopy(step: Step, n: nat) {
    forall f: Files, j: nat :: j < n && step(f, j).2.Some? && step(f, j).2.value.Aborted? ==>
      step(f, j).2.value.entry == j && EndsCopying(step(f, j).1, j)
  }

  lemma OrganiseStepsAbort(names: seq<string>, srcDir: Path, dstDir: Path, env: Environment)
    ensures StepsAbortAfterCopy(OrganiseSteps(names, srcDir, dstDir, env), |names|)
  {
    var step := OrganiseSteps(names, srcDir, dstDir, env);
    forall f: Files, j: nat | j < |names| && step(f, j).2.Some? && step(f, j).2.value.Aborted?
      ensures step(f, j).2.value.entry == j && EndsCopying(step(f, j).1, j)
    {
      StepAborts(f, names, j, srcDir, dstDir, env);
      StepShape(f, names, j, srcDir, dstDir, env);
    }
  }

  lemma OrganiseStepsConfined(names: seq<string>, srcDir: Path, dstDir: Path, env: Environment)
    ensures StepsConfined(OrganiseSteps(names, srcDir, dstDir, env), |names|)
  {
    forall f: Files, j: nat | j < |names|
      ensures var r := OrganiseSteps(names, srcDir, dstDir, env)(f, j); Confined(f, r.0, r.1)
    {
      StepFiles(f, names, j, srcDir, dstDir, env);
    }
  }

  lemma {:induction false} LoopOrder(step: Step, files: Files, names: seq<string>, k: nat, srcDir: Path)
    requires k <= |names| && StepsInOrder(step, |names|, names, srcDir)
    ensures var b := LoopFrom(step, files, |names|, k).1;
      && EntriesWithin(b.trace, k, |names|) && EntriesSorted(b.trace) && SourcesListed(b.trace, names, srcDir)
      && (!b.outcome.Completed? ==> k <= b.outcome.entry < |names| && EntriesWithin(b.trace, k, b.outcome.entry + 1))
    decreases |names| - k
  {
    if k < |names| {
      var (after, acts, stop) := step(files, k);
      if stop.None? {
        LoopOrder(step, after, names, k + 1, srcDir);
        var rest := LoopFrom(step, after, |names|, k + 1).1;
        ConcatOrder(acts, rest.trace, names, srcDir, k, |names|);
        if !rest.outcome.Completed? {
          ConcatOrder(acts, rest.trace, names, srcDir, k, rest.outcome.entry + 1);
        }
      }
    }
  }

  /**
   * The loop visits the entries in listing order: every action names an
   * entry from `k` on, entries never go back, each source is the listed
   * name in the source directory, and when the loop stops early it stops
   * at an entry no action has gone past.
   */
  lemma OrganiseOrder(files: Files, names: seq<string>, k: nat, srcDir: Path, dstDir: Path, env: Environment)
    requires k <= |names|
    ensures var b := OrganiseFrom(files, names, k, srcDir, dstDir, env).1;
      && EntriesWithin(b.trace, k, |names|) && EntriesSorted(b.trace) && SourcesListed(b.trace, names, srcDir)
      && (!b.outcome.Completed? ==> k <= b.outcome.entry < |names| && EntriesWithin(b.trace, k, b.outcome.entry + 1))
  {
    OrganiseStepsShaped(names, srcDir, dstDir, env);
    LoopOrder(OrganiseSteps(names, srcDir, dstDir, env), files, names, k, srcDir);
  }

  lemma {:induction false} LoopCompleted(step: Step, files: Files, n: nat, k: nat)
    requires k <= n && StepsHandle(step, n)
    ensures var b := LoopFrom(step, files, n, k).1;
      b.outcome.Completed? ==> forall e :: k <= e < n ==> Handled(b.trace, e)
    decreases n - k
  {
    if k < n {
      var (after, acts, stop) := step(files, k);
      if stop.None? {
        LoopCompleted(step, after, n, k + 1);
        var rest := LoopFrom(step, after, n, k + 1).1;
        if rest.outcome.Completed? {
          ConcatHandledAll(acts, rest.trace, k, n);
        }
      }
    }
  }

  /**
   * A loop that completes has dealt with every entry from `k` on: each one
   * was either skipped or copied and patched.
   */
  lemma OrganiseCompleted(files: Files, names: seq<string>, k: nat, srcDir: Path, dstDir: Path, env: Environment)
    requires k <= |names|
    ensures var b := OrganiseFrom(files, names, k, srcDir, dstDir, env).1;
      b.outcome.Completed? ==> forall e :: k <= e < |names| ==> Handled(b.trace, e)
  {
    var step := OrganiseSteps(names, srcDir, dstDir, env);
    OrganiseStepsShaped(names, srcDir, dstDir, env);
    LoopCompleted(step, files, |names|, k);
    assert OrganiseFrom(files, names, k, srcDir, dstDir, env) == LoopFrom(step, files, |names|, k);
  }

  /**
   * A patch directly follows the copy of the same entry, to the same
   * destination, with the same time; every copy goes to a candidate name of
   * its time; a copy not followed by its patch is the last action, at the
   * entry where the batch stopped.
   */
  ghost predicate CopiesThenPatches(b: Batch<Action>, dstDir: Path) {
    && Paired(b.trace) && CopiesNamed(b.trace, dstDir)
    && (b.trace != [] && b.trace[|b.trace| - 1].Copying? ==>
          !b.outcome.Completed? && b.outcome.entry == b.trace[|b.trace| - 1].entry)
  }

  /** An iteration that goes on, followed by a well-paired rest, is well paired. */
  lemma CopiesThenPatchesPrefix(acts: seq<Action>, b: Batch<Action>, dstDir: Path)
    requires Paired(acts) && CopiesNamed(acts, dstDir) && acts != [] && !acts[|acts| - 1].Copying?
    requires CopiesThenPatches(b, dstDir)
    ensures CopiesThenPatches(Batch(acts + b.trace, b.outcome), dstDir)
  {
    ConcatPaired(acts, b.trace, dstDir);
    var tr := acts + b.trace;
    if b.trace != [] {
      assert tr[|tr| - 1] == b.trace[|b.trace| - 1];
    } else {
      assert tr == acts;
    }
  }

  /** An iteration that stops is well paired on its own. */
  lemma CopiesThenPatchesStop(acts: seq<Action>, stop: Outcome, k: nat, dstDir: Path)
    requires EntriesWithin(acts, k, k + 1) && Paired(acts) && CopiesNamed(acts, dstDir)
    requires !stop.Completed? && stop.entry == k
    ensures CopiesThenPatches(Batch(acts, stop), dstDir)
  {
    if acts != [] {
      assert acts[|acts| - 1].entry == k;
    }
  }

  lemma {:induction false} LoopCopyThenPatch(step: Step, files: Files, n: nat, k: nat, dstDir: Path)
    requires k <= n && StepsPaired(step, n, dstDir)
    ensures CopiesThenPatches(LoopFrom(step, files, n, k).1, dstDir)
    decreases n - k
  {
    if k < n {
      if step(files, k).2.None? {
        LoopCopyThenPatch(step, step(files, k).0, n, k + 1, dstDir);
        LoopCopyThenPatchGoesOn(step, files, n, k, dstDir);
      } else {
        LoopCopyThenPatchStops(step, files, n, k, dstDir);
      }
    }
  }

  /** The inductive step of `LoopCopyThenPatch`, for an iteration that goes on. */
  lemma LoopCopyThenPatchGoesOn(step: Step, files: Files, n: nat, k: nat, dstDir: Path)
    requires k < n && StepsPaired(step, n, dstDir) && step(files, k).2.None?
    requires CopiesThenPatches(LoopFrom(step, step(files, k).0, n, k + 1).1, dstDir)
    ensures CopiesThenPatches(LoopFrom(step, files, n, k).1, dstDir)
  {
    var (after, acts, stop) := step(files, k);
    assert LoopFrom(step, files, n, k) == Prefixed(acts, LoopFrom(step, after, n, k + 1));
    CopiesThenPatchesPrefix(acts, LoopFrom(step, after, n, k + 1).1, dstDir);
  }

  /** The base of `LoopCopyThenPatch`, for an iteration that stops the loop. */
  lemma LoopCopyThenPatchStops(step: Step, files: Files, n: nat, k: nat, dstDir: Path)
    requires k < n && StepsPaired(step, n, dstDir) && step(files, k).2.Some?
    ensures CopiesThenPatches(LoopFrom(step, files, n, k).1, dstDir)
  {
    var (after, acts, stop) := step(files, k);
    assert LoopFrom(step, files, n, k).1 == Batch(acts, stop.value);
    CopiesThenPatchesStop(acts, stop.value, k, dstDir);
  }

  /**
   * Each copy is made to a name built from the shifted time, and the date
   * patched into it is that same time: the run's trace satisfies
   * `CopiesThenPatches`.
   */
  lemma OrganiseCopyThenPatch(files: Files, names: seq<string>, k: nat, srcDir: Path, dstDir: Path, env: Environment)
    requires k <= |names|
    ensures CopiesThenPatches(OrganiseFrom(files, names, k, srcDir, dstDir, env).1, dstDir)
  {
    OrganiseStepsShaped(names, srcDir, dstDir, env);
    LoopCopyThenPatch(OrganiseSteps(names, srcDir, dstDir, env), files, |names|, k, dstDir);
  }

  lemma {:induction false} LoopAborted(step: Step, files: Files, n: nat, k: nat)
    requires k <= n && StepsAbortAfterCopy(step, n)
    ensures var b := LoopFrom(step, files, n, k).1;
      b.outcome.Aborted? ==> EndsCopying(b.trace, b.outcome.entry)
    decreases n - k
  {
    if k < n {
      if step(files, k).2.None? {
        LoopAborted(step, step(files, k).0, n, k + 1);
        LoopAbortedGoesOn(step, files, n, k);
      } else {
        assert LoopFrom(step, files, n, k).1 == Batch(step(files, k).1, step(files, k).2.value);
      }
    }
  }

  /** The inductive step of `LoopAborted`, for an iteration that goes on. */
  lemma LoopAbortedGoesOn(step: Step, files: Files, n: nat, k: nat)
    requires k < n && step(files, k).2.None?
    requires var b := LoopFrom(step, step(files, k).0, n, k + 1).1;
      b.outcome.Aborted? ==> EndsCopying(b.trace, b.outcome.entry)
    ensures var b := LoopFrom(step, files, n, k).1;
      b.outcome.Aborted? ==> EndsCopying(b.trace, b.outcome.entry)
  {
    var (after, acts, stop) := step(files, k);
    var rest := LoopFrom(step, after, n, k + 1).1;
    assert LoopFrom(step, files, n, k) == Prefixed(acts, LoopFrom(step, after, n, k + 1));
    if rest.outcome.Aborted? {
      var tr := acts + rest.trace;
      assert tr[|tr| - 1] == rest.trace[|rest.trace| - 1];
    }
  }

  /**
   * A run aborts only on the copy or the patch of an entry whose time was
   * read: its last action is the copy of the entry where it stopped, from
   * that entry's listed source.
   */
  lemma OrganiseAborted(files: Files, names: seq<string>, k: nat, srcDir: Path, dstDir: Path, env: Environment)
    requires k <= |names|
    ensures var b := OrganiseFrom(files, names, k, srcDir, dstDir, env).1;
      b.outcome.Aborted? ==>
        && EndsCopying(b.trace, b.outcome.entry)
        && b.outcome.entry < |names|
        && b.trace[|b.trace| - 1].src == Join(srcDir, names[b.outcome.entry])
  {
    OrganiseStepsAbort(names, srcDir, dstDir, env);
    LoopAborted(OrganiseSteps(names, srcDir, dstDir, env), files, |names|, k);
    OrganiseOrder(files, names, k, srcDir, dstDir, env);
  }

  lemma {:induction false} LoopFiles(step: Step, files: Files, n: nat, k: nat)
    requires k <= n && StepsConfined(step, n)
    ensures var (after, b) := LoopFrom(step, files, n, k);
      && files.Keys <= after.Keys
      && (forall p :: p in after && (p !in files || after[p] != files[p]) ==> Copied(b.trace, p))
      && (forall i :: 0 <= i < |b.trace| && b.trace[i].Patched? ==> b.trace[i].dst in after)
    decreases n - k
  {
    if k < n {
      var (next, acts, stop) := step(files, k);
      if stop.None? {
        LoopFiles(step, next, n, k + 1);
        var (after, rest) := LoopFrom(step, next, n, k + 1);
        ConcatChanges(files, next, after, acts, rest.trace);
        ConcatPatchedKept(acts, rest.trace, next, after);
      }
    }
  }

  /**
   * The loop only ever adds or rewrites the destinations it copies to: no
   * path disappears, every path whose contents differ at the end was the
   * destination of a copy, and every patched copy is still in place.
   */
  lemma OrganiseFiles(files: Files, names: seq<string>, k: nat, srcDir: Path, dstDir: Path, env: Environment)
    requires k <= |names|
    ensures var (after, b) := OrganiseFrom(files, names, k, srcDir, dstDir, env);
      && files.Keys <= after.Keys
      && (forall p :: p in after && (p !in files || after[p] != files[p]) ==> Copied(b.trace, p))
      && (forall i :: 0 <= i < |b.trace| && b.trace[i].Patched? ==> b.trace[i].dst in after)
  {
    OrganiseStepsConfined(names, srcDir, dstDir, env);
    LoopFiles(OrganiseSteps(names, srcDir, dstDir, env), files, |names|, k);
  }

  /** One `Skipped` action per entry from `k` on, in listing order. */
  function Skips(names: seq<string>, k: nat, srcDir: Path): (trace: seq<Action>)
    requires k <= |names|
    ensures |trace| == |names| - k
    decreases |names| - k
  {
    if k == |names| then [] else [Skipped(k, Join(srcDir, names[k]))] + Skips(names, k + 1, srcDir)
  }

  lemma {:induction false} LoopAllSkipped(step: Step, files: Files, names: seq<string>, k: nat, srcDir: Path)
    requires k <= |names|
    requires forall j :: k <= j < |names| ==> step(files, j) == (files, [Skipped(j, Join(srcDir, names[j]))], None)
    ensures LoopFrom(step, files, |names|, k) == (files, Batch(Skips(names, k, srcDir), Completed))
    decreases |names| - k
  {
    if k < |names| {
      LoopAllSkipped(step, files, names, k + 1, srcDir);
    }
  }

  /**
   * Every failure to read a time skips the entry, whatever the error: when
   * no source from `k` on yields a time, the loop copies nothing, changes
   * nothing, and completes having skipped each entry in turn.
   */
  lemma OrganiseAllUnreadable(files: Files, names: seq<string>, k: nat, srcDir: Path, dstDir: Path, env: Environment)
    requires k <= |names|
    requires forall e :: k <= e < |names| ==> GetImageTime(files, Join(srcDir, names[e]), env.lib).Err?
    ensures OrganiseFrom(files, names, k, srcDir, dstDir, env) == (files, Batch(Skips(names, k, srcDir), Completed))
  {
    var step := OrganiseSteps(names, srcDir, dstDir, env);
    forall j | k <= j < |names| ensures step(files, j) == (files, [Skipped(j, Join(srcDir, names[j]))], None) {
      assert GetImageTime(files, Join(srcDir, names[j]), env.lib).Err?;
    }
    LoopAllSkipped(step, files, names, k, srcDir);
  }
}
