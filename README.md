# pix: a verified model of the photo organiser's core

`pix` is a command-line tool for batches of JPEG photos. This project models
three of its parts in Dafny and proves properties of the model:

- **The EXIF helpers** (`commands/helpers/exif.go`).
  - `extractExifBytes` slides an 8-byte window over the file until the EXIF
    header test accepts one. It returns the rest of the file and the number
    of bytes it discarded.
  - `GetImageTime` reads the `DateTimeOriginal` tag and parses it with the
    layout `2006:01:02 15:04:05`.
  - `SetImageTime` replaces every occurrence of the fixed date
    `2023:06:18 11:28:22` in the EXIF segment with the new date. It then
    writes the segment back at its offset.
- **`organise`** (`commands/organise.go`). For each entry of the source
  directory, it reads the capture time and shifts it. It copies the file to
  `<dst>/YYYY-MM-DDHhh-mm-ss[(n)].jpg` and patches the shifted time into the
  copy. The name is the first one, from no suffix up to `(98)`, for which
  `os.Stat` fails, and otherwise `(99)`.
- **`copyMetadata`** (`commands/copymeta.go`). It first checks that every
  source entry has a same-named destination file. It then runs `exiftool`
  once per entry. A failure whose standard error mentions
  `Unknown file type` is skipped; any other failure aborts.

Layout of the model:

| module (file) | what it holds |
|---|---|
| `Results` (`results.dfy`) | error values, results with a panic variant, batch outcomes |
| `Digits` (`digits.dfy`) | zero-padded decimal text, as the date layouts write and read it |
| `Substrings` (`substrings.dfy`) | `bytes.ReplaceAll` and `strings.Contains` |
| `Disk` (`disk.dfy`) | paths, `filepath.Join`, `WriteAt` as a splice, and a `Disk` class holding the files |
| `Layouts` (`layouts.dfy`) | the calendar time, the two fixed-width layouts, `Format` and `Parse` |
| `Exif` (`exif.dfy`) | the locator loop, `GetImageTime`, `SetImageTime` |
| `Organise` (`organise.dfy`) | `generatePath`, the `generateUniquePath` loop, `copyFile`, the `organise` loop |
| `CopyMeta` (`copymeta.dfy`) | the two loops of `copyMetadata` |

The loops are methods with invariants, each proved to return what a
recursive function of its inputs describes. For the methods that change the
`Disk` class, that function describes the new file map. The properties are
lemmas about those functions.

Some parts are outside the model, and the model takes them as parameters:
- the EXIF library's header test, as a function of one window;
- its tag lookup, as a function of the segment and the tag name;
- the time shift, as a function on times;
- where `os.Stat` and `os.Create` fail;
- what `exiftool` reports for a pair of paths.

A Go panic (`log.Panic`) is the `Fatal` result. In a batch it is the
`Crashed` outcome.

Three behaviours of the code worth noting:
- **Destination names.** The file name layout is `2006-01-02H15-04-05`, with
  a literal `H` between the date and the time.
- **Collision fallback.** When all 99 probed names exist, the path returned
  has the suffix `(99)`, a name that was never probed.
- **Skipped entries.** `organise` skips an entry on *every* error from
  `GetImageTime`, whatever its cause. The reason is
  `errors.As(err, &exif.ErrNoExif)`: its target has type `*error`, so it
  matches any error. A panic in the locator still ends the run. The same
  call also assigns the error to `exif.ErrNoExif`; "## Left out" says what
  that changes.

## Model

| member | source | states |
|---|---|---|
| Exif.Locate | commands/helpers/exif.go:100-142 | models `extractExifBytes` as a function of the file's bytes: the segment and its offset, `ErrNoExif`, or a panic; `LocateAccepted`, `LocateNoExif` and `LocateFatal` state its outcomes, and `ExtractExifBytes` is proved to compute it |
| Exif.ExtractExifBytes | commands/helpers/exif.go:100-142 | the scan loop returns exactly `Locate`: the segment and its offset, `ErrNoExif`, or a panic |
| Exif.ScanFrom | commands/helpers/exif.go:107-136 | a located segment is the input from its offset to the end, at or after the bytes already discarded; the only error is `ErrNoExif` |
| Exif.ScanOutcome | commands/helpers/exif.go:107-136 | success means the offset's window is accepted and every earlier one was "no EXIF"; a panic means the first window not rejected failed the test; `ErrNoExif` means every window was rejected |
| Exif.LocateAccepted | commands/helpers/exif.go:107-141 | success with offset k holds iff window k is the first accepted one after only "no EXIF" windows; the bytes are then the rest of the file and start with that window |
| Exif.LocateNoExif | commands/helpers/exif.go:109-129 | `ErrNoExif` iff every full window is rejected, in particular when the file is shorter than 8 bytes; no other error is returned |
| Exif.LocateFatal | commands/helpers/exif.go:109-133 | the locator panics iff the first window not rejected as "no EXIF" fails the header test with another error |
| Exif.GetImageTime | commands/helpers/exif.go:18-54 | models `GetImageTime`: open, locate the segment, look up `DateTimeOriginal`, parse; its properties are the contracts of `GetImageTimeLocateErrors`, `GetImageTimeMissing`, `FirstTagOnly` and `TimeFromTagsOk` |
| Exif.TimeFromTags | commands/helpers/exif.go:30-53 | models the tag lookup's outcome: a lookup error, no tags, a format error, or the parse of the first tag's text; `TimeFromTagsOk` and `FirstTagOnly` state what it returns |
| Exif.GetImageTimeLocateErrors | commands/helpers/exif.go:18-28 | an unopenable file gives its open error, a file without EXIF gives `ErrNoExif`, and a header error panics, each as an if-and-only-if |
| Exif.GetImageTimeMissing | commands/helpers/exif.go:39-46 | the "no tags with name DateTimeOriginal" error occurs iff the segment is found and the lookup returns no tags |
| Exif.FirstTagOnly | commands/helpers/exif.go:44-48 | only the first tag found decides the result |
| Exif.TimeFromTagsOk | commands/helpers/exif.go:44-53 | the result is time t iff the first tag's text is t in the EXIF layout and t has a four-digit year |
| Exif.NewDate | commands/helpers/exif.go:69 | the new date bytes are as long as the formatted new time; `NewDateParses` states their content: the text they spell parses back to the time |
| Exif.PatchFile | commands/helpers/exif.go:63-77 | models the patch of one file's bytes: locate, replace every literal date in the segment, write it back at its offset; `PatchKeepsPrefix`, `PatchLength`, `PatchInPlace`, `PatchAbsent` and `PatchSameDate` state its effect |
| Exif.SetImageTimeOn | commands/helpers/exif.go:56-83 | models `SetImageTime` on the file map; `SetImageTimeFailsFirst` states its failures, and `SetImageTime` is proved to compute it |
| Exif.SetImageTime | commands/helpers/exif.go:56-83 | the new file map and the result are those of the patch: the segment with every literal date replaced, written back at its offset; nothing is written on failure |
| Exif.SetImageTimeFailsFirst | commands/helpers/exif.go:56-66 | the patch succeeds iff the file opens and its segment is found; every failure leaves the files unchanged; a missing segment gives `ErrNoExif` |
| Exif.PatchKeepsPrefix | commands/helpers/exif.go:63-77 | the bytes before the segment are unchanged, and the bytes from the offset on are the replaced segment |
| Exif.PatchLength | commands/helpers/exif.go:68-77 | the file grows by the extra length of the new date for every replaced occurrence; its length is unchanged iff the year has four digits or the literal does not occur |
| Exif.PatchInPlace | commands/helpers/exif.go:68-77 | with a four-digit year, every match position now holds the new date and every byte outside the matches is unchanged |
| Exif.PatchAbsent | commands/helpers/exif.go:68-77 | a segment without the literal date leaves the file byte-for-byte the same |
| Exif.PatchSameDate | commands/helpers/exif.go:68-70 | setting the time 2023-06-18 11:28:22 leaves the file unchanged, because the literal is that time's EXIF text |
| Exif.NewDateParses | commands/helpers/exif.go:53-69 | with a four-digit year, the text spelled by the bytes `SetImageTime` writes is 19 characters long and `GetImageTime`'s parse reads it back as the same time |
| Layouts.Format | commands/helpers/exif.go:69 | the formatted time has at least 19 characters, and exactly 19 iff the year is in 0..9999 |
| Layouts.Parse | commands/helpers/exif.go:53 | models `time.Parse` with the EXIF layout on the strict 19-character form; `FormatParses` and `ParseFormats` state that it inverts `Format` |
| Layouts.FormatParses | commands/helpers/exif.go:53 | the formatted text of a time with a year in 0..9999 parses back to that time |
| Layouts.ParseFormats | commands/helpers/exif.go:53 | any text the parser accepts is exactly the formatted text of the time it returns, with a four-digit year |
| Layouts.FormatInjective | commands/organise.go:117 | distinct times with four-digit years never share a formatted text |
| Substrings.ReplaceAll | commands/helpers/exif.go:70 | models `bytes.ReplaceAll` for a non-empty pattern; `ReplaceAllLength`, `MatchesGreedy`, `ReplaceAllInPlace`, `ReplaceAllAbsent` and `ReplaceAllSelf` state its properties |
| Substrings.ReplaceAllLength | commands/helpers/exif.go:70 | the replaced text's length changes by the length difference for each non-overlapping match |
| Substrings.MatchesGreedy | commands/helpers/exif.go:70 | the matches are left to right and do not overlap, and every occurrence starts inside some match |
| Substrings.OccursIffMatched | commands/helpers/exif.go:70 | there is a match iff the pattern occurs |
| Substrings.ReplaceAllInPlace | commands/helpers/exif.go:70 | when pattern and replacement have the same length, each match position holds the replacement and every other position keeps its byte |
| Substrings.ReplaceAllAbsent | commands/helpers/exif.go:70 | when the pattern does not occur, the text is unchanged |
| Substrings.ReplaceAllSelf | commands/helpers/exif.go:70 | replacing a pattern by itself changes nothing |
| Substrings.Contains | commands/copymeta.go:65 | the result is true iff the substring occurs |
| Disk.Splice | commands/helpers/exif.go:77 | the data overwrites from the offset on, the file grows when the data runs past its end, a gap reads as zero bytes, and the rest is unchanged |
| Disk.SpliceAtTail | commands/helpers/exif.go:77 | a write that reaches the end of the file keeps the prefix before the offset and replaces the rest |
| Disk.Disk.WriteAt | commands/helpers/exif.go:77 | only the written path changes, and it becomes the splice of its old contents |
| Disk.Disk.Create | commands/organise.go:93 | the created path holds exactly the given bytes, and nothing else changes |
| Disk.Join | commands/organise.go:57 | models `filepath.Join` of a directory and a plain name; `JoinEndsWith` and `JoinInjective` state its properties |
| Disk.JoinEndsWith | commands/organise.go:117 | the joined path is the directory, at most one separator, then the name |
| Disk.JoinInjective | commands/copymeta.go:56-57 | different names in one directory give different paths |
| Organise.GeneratePath | commands/organise.go:116-118 | models `generatePath`; `GeneratePathName` and `GeneratePathInjective` state its properties |
| Organise.Suffix | commands/organise.go:104-110 | models the disambiguation text: empty for counter 0, `fmt.Sprintf("(%d)", n)` otherwise; `SuffixInjective` states that distinct counters give distinct texts |
| Organise.Stat | commands/organise.go:107 | models `os.Stat` succeeding on a path: the path holds a file and the stat fault does not strike it; `organise` passes it to `UniquePath`, so `StepCopies` and `StepAborts` name the chosen path through it |
| Organise.FirstFree | commands/organise.go:106-111 | the chosen counter is at most 99; every earlier candidate exists, and a counter below 99 is one whose `Stat` fails |
| Organise.FirstFreeIs | commands/organise.go:106-111 | the first-free counter is the only one meeting that description |
| Organise.UniquePath | commands/organise.go:103-114 | models `generateUniquePath`: the candidate at the first-free counter; `UniquePathChoice` states what it returns, and `GenerateUniquePath` is proved to compute it |
| Organise.GenerateUniquePath | commands/organise.go:103-114 | the path returned is the first-free candidate, and the paths probed are candidates 0, 1, … up to and including it, or 0..98 when every probe exists |
| Organise.ProbesAt | commands/organise.go:106-110 | the j-th probe is candidate j: the counter goes up by one per probe |
| Organise.SuffixInjective | commands/organise.go:110 | different counters give different disambiguation texts |
| Organise.CandidatesDistinct | commands/organise.go:106-113 | different counters give different paths, so no path is probed twice |
| Organise.UniquePathChoice | commands/organise.go:103-114 | the path returned does not `Stat`, or else all 99 probes existed and it is the unprobed "(99)" path; a free first candidate is used as is, and a taken first with a free second gives "(1)" |
| Organise.GeneratePathName | commands/organise.go:116-118 | the path ends with the formatted time, the disambiguation and ".jpg"; its first 19 characters parse back to the time |
| Organise.GeneratePathInjective | commands/organise.go:116-118 | with one disambiguation, distinct times with four-digit years give distinct paths |
| Organise.CopyFileOn | commands/organise.go:86-101 | models `copyFile` on the file map; `CopyFileEffect` states its effect |
| Organise.CopyFile | commands/organise.go:86-101 | the new file map and the error are those of the copy function: the source opened, the destination truncated, then filled |
| Organise.CopyFileEffect | commands/organise.go:86-101 | the copy succeeds iff the source exists and create succeeds; it then holds the source's bytes, or nothing when source and destination coincide; no other path changes |
| Organise.OrganiseEntry | commands/organise.go:57-80 | one iteration's new file map, actions and stop are those of the step function |
| Organise.OrganiseFrom | commands/organise.go:56-83 | models the `organise` loop from an entry on as the iteration function repeated until a stop; `OrganiseOrder`, `OrganiseCompleted`, `OrganiseCopyThenPatch`, `OrganiseFiles`, `OrganiseAborted` and `OrganiseAllUnreadable` state its properties, and `Organise` is proved to compute it |
| Organise.Organise | commands/organise.go:56-83 | the loop's final files, trace and outcome are those of `OrganiseFrom` from the first entry |
| Organise.OrganiseStep | commands/organise.go:57-82 | models one iteration; `StepShape`, `StepSkips`, `StepAborts` and `StepFiles` state its properties, and `OrganiseEntry` is proved to compute it |
| Organise.CopyStep | commands/organise.go:68-80 | models the loop body once the shifted time is known: choose the name, copy, and patch unless the copy failed; `StepCopies` and `StepAborts` state its outcomes |
| Organise.PatchStep | commands/organise.go:77-80 | models the patch of the copy and its effect on the loop; `PatchGoesOn` and `PatchAborts` state its outcomes |
| Organise.StepShape | commands/organise.go:57-80 | the shape of one iteration: it names only its own entry and the listed source; a patch follows its copy with the same path and time; a stop is at this entry; going on means the entry was skipped or patched |
| Organise.StepSkips | commands/organise.go:59-64 | any error from `GetImageTime` skips the entry and goes on, with the files unchanged |
| Organise.StepAborts | commands/organise.go:59-80 | an iteration aborts only after the time was read: its one action is the copy to the name chosen for the shifted time, and the error is the copy's or, after a successful copy, the patch's |
| Organise.StepCopies | commands/organise.go:66-80 | an iteration whose time was read first copies the source to `generateUniquePath`'s choice for the shifted time on the files as they are; when it goes on, that copy succeeded, it was patched with the same time, and the files are those the patch left |
| Organise.PatchGoesOn | commands/organise.go:77-80 | the patch step begins with the copy action; when it goes on, `SetImageTime` succeeded and its patch directly follows the copy |
| Organise.PatchAborts | commands/organise.go:77-80 | the patch step aborts only with `SetImageTime`'s error, after the copy action |
| Organise.StepFiles | commands/organise.go:68-80 | one iteration removes no path, changes only the path it copies to, and a patched copy exists |
| Organise.OrganiseOrder | commands/organise.go:56-57 | actions follow listing order, each source is the listed name in the source directory, and an early stop is at an entry no action has gone past |
| Organise.OrganiseCompleted | commands/organise.go:56-83 | a completed run has skipped, or copied and patched, every entry |
| Organise.OrganiseCopyThenPatch | commands/organise.go:68-80 | every copy goes to a candidate name of its shifted time; each patch directly follows its copy with the same entry, path and time; an unpatched copy is the last action, at the entry where the run stopped |
| Organise.OrganiseFiles | commands/organise.go:70-80 | no path disappears, every changed path was copied to, and every patched copy is present at the end |
| Organise.OrganiseAborted | commands/organise.go:59-80 | a run that aborts ends with the copy of the entry where it stopped, from that entry's listed source: no entry aborts before its time is read and its copy begun |
| Organise.OrganiseAllUnreadable | commands/organise.go:59-64 | when no source yields a time, whatever the error, the run skips every entry in order, changes nothing and completes |
| CopyMeta.FirstMissing | commands/copymeta.go:49-53 | the pre-flight check reports the first entry whose destination does not `Stat`, or reports none when every destination exists |
| CopyMeta.Tolerated | commands/copymeta.go:63-68 | models the test that lets the loop go on: the run succeeded, or its standard error mentions `Unknown file type`; `ToolCompleted` and `ToolAborts` are stated over it |
| CopyMeta.CopyMetadataRun | commands/copymeta.go:49-72 | models `copyMetadata` after the directories are listed: the pre-flight check, then the tool loop; `PreflightFails` and `CopyMetadataSucceeds` state its outcomes, and `CopyMetadata` is proved to compute it |
| CopyMeta.CopyMetadata | commands/copymeta.go:49-72 | the two loops return exactly the calls and the outcome of `CopyMetadataRun` |
| CopyMeta.PreflightFails | commands/copymeta.go:49-53 | "destination file does not exist" is returned iff some destination is missing; it then names the first one, and the tool never ran |
| CopyMeta.ToolCallsInOrder | commands/copymeta.go:55-60 | the tool runs once per entry in listing order, on the source path and the same-named destination path |
| CopyMeta.ToolFrom | commands/copymeta.go:55-72 | models the tool loop; `ToolCallsInOrder`, `ToolFromOutcome`, `ToolCompleted`, `ToolAborts` and `StderrOnlyOnFailure` state its properties, and `CopyMetadata` is proved to compute it |
| CopyMeta.ToolFromOutcome | commands/copymeta.go:63-72 | the tool loop either completes or aborts with "failed to copy exif metadata" |
| CopyMeta.ToolCompleted | commands/copymeta.go:63-72 | the tool loop completes iff every run succeeded or reported an unknown file type; it then ran on every entry |
| CopyMeta.ToolAborts | commands/copymeta.go:63-70 | an abort is at the first run that is not tolerated, with the pathless "failed to copy exif metadata" error; that run's pair of paths is the last call made, and no later entry is run |
| CopyMeta.StderrOnlyOnFailure | commands/copymeta.go:63-65 | standard error matters only after a failed run: tools that agree on success, and on what failing runs print, give the same run |
| CopyMeta.CopyMetadataSucceeds | commands/copymeta.go:49-72 | the command returns nil iff every destination exists and every run succeeded or was skipped |

## Left out

- Directory listing, `filepath.Abs` and `os.MkdirAll` are left out. These are I/O; the listing is the input `names`. A sub-directory entry is not a file of the model, so reading its time fails to open and `organise` skips it. In Go `os.Open` succeeds on a directory, the locator's `Peek` then fails with an error other than EOF, and `log.Panic` ends the run: the model skips where the program crashes.
- The EXIF library internals are abstract functions: the window test of `ParseExifHeader`, and `getRootIfd`, `ChildWithIfdPath`, `FindTagWithName` and `FormatFirst` as one tag lookup. The model does not know which byte patterns are headers.
- `bufio` read errors other than EOF (`Discard`, `ReadAll`), and the `Seek` before `WriteAt`, are left out. The model's file reads and seeks do not fail.
- Exif.GetImageTime, Exif.SetImageTime and Organise.CopyFileOn: an open fails only on a path that is not in the file map. An existing file that `os.Open` (commands/helpers/exif.go:19-21, commands/organise.go:87-89) or `os.OpenFile` with `O_RDWR` (commands/helpers/exif.go:57-59) cannot open, for lack of permission for example, is not modelled: where Go skips the entry or aborts the batch, the model reads, copies or patches it.
- Exif.SetImageTime: `f.WriteAt` never fails in the model (commands/helpers/exif.go:77-80). Go can return an error there, possibly after part of the segment was written, and `organise` then aborts; the model's patch always writes the whole segment and goes on. "Nothing is written on failure" holds because the only failures modelled come before the write.
- Layouts.Parse: `time.Parse`'s leniencies are not modelled, because they are not needed for the fixed-width dates. The left-out leniencies are fractional seconds, space padding and a one-digit hour (layout `15` accepts one or two digits). The model accepts exactly the strict 19-character form.
- Time zones, monotonic clock readings and sub-second parts of `time.Time` are left out. The time is a calendar date and a time of day, to the second, which is all the two layouts show.
- Substrings.ReplaceAll: only non-empty patterns are modelled, because its only use replaces the 19-byte literal date. Go's rule for an empty pattern, which inserts the replacement between runes, is left out.
- Organise.OrganiseStep: the side effect of `errors.As(err, &exif.ErrNoExif)` is left out. Besides matching, it assigns the error to the package variable `exif.ErrNoExif`, so after the first skipped entry every later "no EXIF" result carries that earlier error value, for example an error from `SetImageTime` on a copy without EXIF data. The locator's own comparison with `exif.ErrNoExif` (commands/helpers/exif.go:120) reads the reassigned variable too. The model keeps `NoExifData` as a constant and takes the header test's verdict from the classifier, as if the variable kept its value.
- Organise.Stat: a directory at a candidate name counts as free, because the file map holds only files. Go's `os.Stat` succeeds on a directory, so `generateUniquePath` would move on to the next candidate.
- Organise.OrganiseCopyThenPatch: over a whole run it states only that a copy goes to a candidate name of its shifted time, because the run-level lemmas have no name for the files at an earlier iteration. That the copy goes to `generateUniquePath`'s first free candidate for the files as they are at that iteration, and is then patched with the same time, is stated per iteration by `StepCopies` and `StepAborts`.
- Organise.StepShape: states the shape of one iteration only. That a time error skips and goes on is the contract of `StepSkips`; that an abort comes only from the copy or the patch is the contract of `StepAborts`, and of `OrganiseAborted` for a whole run.
- CopyMeta.CopyMetadata: `ExifCopyFailed` does not carry the wrapped `exec` error (the exit status); which pair failed is the last call of the trace.
- Organise.Organise: `originalTime.Add(shift)` is the abstract function `shift`, because Go's duration arithmetic on the calendar is out of scope.
- The `Printf`/`fmt.Printf` progress messages are left out; they are output only.
- Organise.CopyFileOn: `createFails` stands for a failure of `os.Create` or of the `io.Copy` after it, and both give `CopyFailed` naming the destination, which leaves the files unchanged. The model does not record the truncated or partly written destination that a failing `io.Copy` leaves behind, nor that an `io.Copy` read error names the source.
- CopyMeta.CopyMetadata: the effect of `exiftool` on the destination files is not modelled; the tool's report is the input `tool`. Its standard output, which goes to the terminal, is left out too.
- The CLI wiring (`main.go`, `commands/helpers/args.go`, the `cli.Command` values) is not part of this model. Neither is `commands/timediff.go`, whose calls do not match the helpers shown.
