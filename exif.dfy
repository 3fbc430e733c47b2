/**
 * The EXIF helpers of the tool: locating the EXIF segment in a file by a
 * sliding header test, reading the `DateTimeOriginal` tag through the EXIF
 * library, and patching a date into the segment in place.
 *
 * The EXIF library is not modelled; what it decides is given as functions:
 * the header test over one window (`ParseExifHeader`) and the tag lookup
 * over a located segment (`getRootIfd`, `ChildWithIfdPath`,
 * `FindTagWithName` and `FormatFirst` together).
 */
module Exif {
  import opened Results
  import opened Digits
  import opened Substrings
  import opened Disk
  import opened Layouts

  /** The length of the window the header test inspects (`exif.ExifSignatureLength`). */
  const ExifSignatureLength: nat := 8

  /** What `exif.ParseExifHeader` makes of one window. */
  datatype Probe = Accepted | NoExifHere | HeaderError

  /** The header test, a function of the window alone. */
  type Classifier = seq<byte> -> Probe

  /** A located EXIF segment: the bytes from `offset` to the end of the file. */
  datatype Segment = Segment(raw: seq<byte>, offset: nat)

  /** The window the scan inspects after discarding `k` bytes. */
  function Window(input: seq<byte>, k: nat): (w: seq<byte>)
    requires k + ExifSignatureLength <= |input|
    ensures |w| == ExifSignatureLength
  {
    input[k..k + ExifSignatureLength]
  }

  /**
   * The window at `k` is the first from `i` on that the header test does not
   * reject with "no EXIF here", and the test says `p` of it.
   */
  predicate DecidedAt(input: seq<byte>, probe: Classifier, i: nat, k: nat, p: Probe) {
    && i <= k && k + ExifSignatureLength <= |input|
    && probe(Window(input, k)) == p
    && forall j :: i <= j < k ==> probe(Window(input, j)) == NoExifHere
  }

  /** Every window from `i` on is rejected with "no EXIF here". */
  predicate RejectedFrom(input: seq<byte>, probe: Classifier, i: nat) {
    forall j :: i <= j && j + ExifSignatureLength <= |input| ==> probe(Window(input, j)) == NoExifHere
  }

  /** The outcome of the scan once `k` bytes have been discarded. */
  function ScanFrom(input: seq<byte>, probe: Classifier, k: nat): (r: Result<Segment>)
    requires k <= |input|
    ensures r.Ok? ==> k <= r.value.offset <= |input| && r.value.raw == input[r.value.offset..]
    ensures r.Err? ==> r.error == NoExifData
    decreases |input| - k
  {
    if k + ExifSignatureLength > |input| then Err(NoExifData)
    else match probe(Window(input, k))
      case Accepted => Ok(Segment(input[k..], k))
      case NoExifHere => ScanFrom(input, probe, k + 1)
      case HeaderError => Fatal
  }

  /** What `extractExifBytes` returns for a file: the segment, `ErrNoExif`, or a panic. */
  function Locate(input: seq<byte>, probe: Classifier): Result<Segment> {
    ScanFrom(input, probe, 0)
  }

  /**
   * `extractExifBytes(r)`: peek a window, discard one byte while the header
   * test says "no EXIF here", stop at the first accepted window.
   */
  method ExtractExifBytes(input: seq<byte>, probe: Classifier) returns (r: Result<Segment>)
    ensures r == Locate(input, probe)
  {
    var discarded: nat := 0;
    while true
      invariant discarded <= |input|
      invariant ScanFrom(input, probe, discarded) == Locate(input, probe)
      decreases |input| - discarded
    {
      if discarded + ExifSignatureLength > |input| {
        return Err(NoExifData);
      }
      var window := input[discarded..discarded + ExifSignatureLength];
      var header := probe(window);
      if header == HeaderError {
        return Fatal;
      }
      if header == Accepted {
        return Ok(Segment(input[discarded..], discarded));
      }
      discarded := discarded + 1;
    }
  }

  /** Each outcome of the scan from `i`, described by the windows the test saw. */
  lemma {:induction false} ScanOutcome(input: seq<byte>, probe: Classifier, i: nat)
    requires i <= |input|
    ensures ScanFrom(input, probe, i).Ok? ==>
      DecidedAt(input, probe, i, ScanFrom(input, probe, i).value.offset, Accepted)
    ensures ScanFrom(input, probe, i).Fatal? ==>
      exists k :: DecidedAt(input, probe, i, k, HeaderError)
    ensures ScanFrom(input, probe, i).Err? ==> RejectedFrom(input, probe, i)
    decreases |input| - i
  {
    if i + ExifSignatureLength <= |input| && probe(Window(input, i)) == NoExifHere {
      ScanOutcome(input, probe, i + 1);
      var r := ScanFrom(input, probe, i + 1);
      if r.Ok? {
        assert DecidedAt(input, probe, i + 1, r.value.offset, Accepted);
      } else if r.Fatal? {
        var k :| DecidedAt(input, probe, i + 1, k, HeaderError);
        assert DecidedAt(input, probe, i, k, HeaderError);
      }
    } else if i + ExifSignatureLength <= |input| && probe(Window(input, i)) == HeaderError {
      assert DecidedAt(input, probe, i, i, HeaderError);
    }
  }

  /** At most one window is the first one the test does not reject. */
  lemma DecidedUnique(input: seq<byte>, probe: Classifier, k1: nat, p1: Probe, k2: nat, p2: Probe)
    requires p1 != NoExifHere && p2 != NoExifHere
    requires DecidedAt(input, probe, 0, k1, p1) && DecidedAt(input, probe, 0, k2, p2)
    ensures k1 == k2 && p1 == p2
  {
  }

  /**
   * The locator succeeds with offset `k` exactly when the window at `k` is
   * the first accepted one and every earlier window was rejected as "no EXIF
   * here"; the bytes returned are then the whole rest of the file, starting
   * with that window.
   */
  lemma LocateAccepted(input: seq<byte>, probe: Classifier, k: nat)
    ensures (Locate(input, probe).Ok? && Locate(input, probe).value.offset == k) <==>
      DecidedAt(input, probe, 0, k, Accepted)
    ensures Locate(input, probe).Ok? ==>
      var s := Locate(input, probe).value;
      && DecidedAt(input, probe, 0, s.offset, Accepted)
      && s.raw == input[s.offset..]
      && s.offset + |s.raw| == |input|
      && s.raw[..ExifSignatureLength] == Window(input, s.offset)
  {
    ScanOutcome(input, probe, 0);
    var r := Locate(input, probe);
    if DecidedAt(input, probe, 0, k, Accepted) && r.Ok? {
      DecidedUnique(input, probe, k, Accepted, r.value.offset, Accepted);
    }
  }

  /**
   * The locator returns `ErrNoExif` exactly when every full window is
   * rejected as "no EXIF here", in particular when the file is shorter than
   * one window; it never returns any other error.
   */
  lemma LocateNoExif(input: seq<byte>, probe: Classifier)
    ensures Locate(input, probe) == Err(NoExifData) <==> RejectedFrom(input, probe, 0)
    ensures Locate(input, probe).Err? ==> Locate(input, probe).error == NoExifData
    ensures |input| < ExifSignatureLength ==> Locate(input, probe) == Err(NoExifData)
  {
    ScanOutcome(input, probe, 0);
  }

  /**
   * A header error panics: the locator neither succeeds nor reports
   * `ErrNoExif` exactly when the first window not rejected as "no EXIF here"
   * is one the test fails with another error.
   */
  lemma LocateFatal(input: seq<byte>, probe: Classifier)
    ensures Locate(input, probe) == Fatal <==> exists k :: DecidedAt(input, probe, 0, k, HeaderError)
  {
    ScanOutcome(input, probe, 0);
    var r := Locate(input, probe);
    if r.Ok? {
      forall k | DecidedAt(input, probe, 0, k, HeaderError) ensures false {
        DecidedUnique(input, probe, k, HeaderError, r.value.offset, Accepted);
      }
    }
  }

  // ---------------------------------------------------------------------
  // Reading the capture time

  const DateTimeOriginal: string := "DateTimeOriginal"

  /** One tag found by name: `FormatFirst` either renders its value or fails. */
  datatype TagValue = Formatted(text: string) | Unformattable

  /**
   * What the library makes of a segment and a tag name: an error from
   * `getRootIfd`, `ChildWithIfdPath` or `FindTagWithName`, or the tags found.
   */
  datatype TagLookup = LookupFailed | Tags(results: seq<TagValue>)

  /** The EXIF library as the helpers use it. */
  datatype Library = Library(probe: Classifier, findTag: (seq<byte>, string) -> TagLookup)

  /** The tail of `GetImageTime` once the tags are found: use the first one only. */
  function TimeFromTags(lookup: TagLookup): Result<Time> {
    match lookup
      case LookupFailed => Err(TagLookupFailed)
      case Tags(results) =>
        if |results| == 0 then Err(MissingTag(DateTimeOriginal))
        else match results[0]
          case Unformattable => Err(TagFormatFailed)
          case Formatted(text) =>
            match Parse(text, EXIF_LAYOUT)
              case None => Err(DateParseFailed(text))
              case Some(t) => Ok(t)
  }

  /** `GetImageTime(path)`: open the file, locate the segment, read and parse the tag. */
  function GetImageTime(files: Files, path: Path, lib: Library): Result<Time> {
    if path !in files then Err(OpenFailed(path))
    else match Locate(files[path], lib.probe)
      case Fatal => Fatal
      case Err(e) => Err(e)
      case Ok(seg) => TimeFromTags(lib.findTag(seg.raw, DateTimeOriginal))
  }

  /**
   * `GetImageTime` reports the missing tag by name exactly when the file
   * opens, its segment is found, and the lookup finds no tag.
   */
  lemma GetImageTimeMissing(files: Files, path: Path, lib: Library)
    ensures GetImageTime(files, path, lib) == Err(MissingTag(DateTimeOriginal)) <==>
      && path in files
      && Locate(files[path], lib.probe).Ok?
      && lib.findTag(Locate(files[path], lib.probe).value.raw, DateTimeOriginal) == Tags([])
  {
    if path in files && Locate(files[path], lib.probe).Err? {
      LocateNoExif(files[path], lib.probe);
    }
  }

  /** Only the first tag found matters: lookups that agree on it give the same result. */
  lemma FirstTagOnly(a: seq<TagValue>, b: seq<TagValue>)
    requires |a| > 0 && |b| > 0 && a[0] == b[0]
    ensures TimeFromTags(Tags(a)) == TimeFromTags(Tags(b))
  {
  }

  /**
   * `GetImageTime` succeeds with `t` exactly when the first tag found reads
   * as the EXIF layout of `t`, which then has a four-digit year.
   */
  lemma TimeFromTagsOk(results: seq<TagValue>, t: Time)
    ensures TimeFromTags(Tags(results)) == Ok(t) <==>
      |results| > 0 && results[0] == Formatted(Format(t, EXIF_LAYOUT)) && 0 <= t.year <= 9999
  {
    if TimeFromTags(Tags(results)) == Ok(t) {
      ParseFormats(results[0].text, EXIF_LAYOUT);
    }
    if |results| > 0 && results[0] == Formatted(Format(t, EXIF_LAYOUT)) && 0 <= t.year <= 9999 {
      FormatParses(t, EXIF_LAYOUT);
    }
  }

  /** A file that cannot be opened or has no segment is reported; a header error panics. */
  lemma GetImageTimeLocateErrors(files: Files, path: Path, lib: Library)
    ensures GetImageTime(files, path, lib) == Err(OpenFailed(path)) <==> path !in files
    ensures GetImageTime(files, path, lib) == Err(NoExifData) <==>
      path in files && RejectedFrom(files[path], lib.probe, 0)
    ensures GetImageTime(files, path, lib).Fatal? <==>
      path in files && exists k :: DecidedAt(files[path], lib.probe, 0, k, HeaderError)
  {
    if path in files {
      LocateNoExif(files[path], lib.probe);
      LocateFatal(files[path], lib.probe);
    }
  }

  // ---------------------------------------------------------------------
  // Writing the capture time

  /** The date `SetImageTime` searches for: a fixed literal, not the file's own tag value. */
  const OLD_DATE: string := "2023:06:18 11:28:22"

  function OldDate(): (b: seq<byte>)
    ensures |b| == 19
  {
    AsciiBytes(OLD_DATE)
  }

  /** `newTime.AppendFormat(nil, "2006:01:02 15:04:05")` as bytes. */
  function NewDate(t: Time): (b: seq<byte>)
    ensures |b| == |Format(t, EXIF_LAYOUT)|
  {
    FormatAscii(t, EXIF_LAYOUT);
    AsciiBytes(Format(t, EXIF_LAYOUT))
  }

  /**
   * The file after the patch of `SetImageTime`: every occurrence of the
   * literal in the EXIF segment is replaced by the new date, and the result
   * is written back at the segment's offset.
   */
  function PatchFile(file: seq<byte>, t: Time, probe: Classifier): Result<seq<byte>> {
    match Locate(file, probe)
      case Fatal => Fatal
      case Err(e) => Err(e)
      case Ok(seg) => Ok(Splice(file, seg.offset, ReplaceAll(seg.raw, OldDate(), NewDate(t))))
  }

  /** The effect of `SetImageTime(path, t)` on the file system, and what it returns. */
  function SetImageTimeOn(files: Files, path: Path, t: Time, probe: Classifier): (Files, Result<()>) {
    if path !in files then (files, Err(OpenFailed(path)))
    else match PatchFile(files[path], t, probe)
      case Fatal => (files, Fatal)
      case Err(e) => (files, Err(e))
      case Ok(patched) => (files[path := patched], Ok(()))
  }

  /** `SetImageTime(path, t)`: locate the segment, replace the literal, write back in place. */
  method SetImageTime(disk: Disk, path: Path, t: Time, probe: Classifier) returns (r: Result<()>)
    modifies disk
    ensures (disk.files, r) == SetImageTimeOn(old(disk.files), path, t, probe)
  {
    if path !in disk.files {
      return Err(OpenFailed(path));
    }
    var seg := ExtractExifBytes(disk.files[path], probe);
    match seg
    case Fatal =>
      return Fatal;
    case Err(e) =>
      return Err(e);
    case Ok(s) =>
      var updated := ReplaceAll(s.raw, OldDate(), NewDate(t));
      disk.WriteAt(path, updated, s.offset);
      return Ok(());
  }

  /**
   * Nothing is written unless the segment is found: every failure of the
   * locator, and a missing file, leave the file system as it was.
   */
  lemma SetImageTimeFailsFirst(files: Files, path: Path, t: Time, probe: Classifier)
    ensures SetImageTimeOn(files, path, t, probe).1 != Ok(()) ==>
      SetImageTimeOn(files, path, t, probe).0 == files
    ensures SetImageTimeOn(files, path, t, probe).1 == Ok(()) <==>
      path in files && Locate(files[path], probe).Ok?
    ensures path in files && Locate(files[path], probe).Err? ==>
      SetImageTimeOn(files, path, t, probe).1 == Err(NoExifData)
  {
    if path in files {
      LocateNoExif(files[path], probe);
    }
  }

  /**
   * The patched file keeps every byte before the segment, and the bytes from
   * the offset on are exactly the segment after the replacement.
   */
  lemma PatchKeepsPrefix(file: seq<byte>, t: Time, probe: Classifier)
    requires Locate(file, probe).Ok?
    ensures var seg := Locate(file, probe).value;
      var out := PatchFile(file, t, probe).value;
      && |out| >= |file|
      && out[..seg.offset] == file[..seg.offset]
      && out[seg.offset..] == ReplaceAll(seg.raw, OldDate(), NewDate(t))
  {
    var seg := Locate(file, probe).value;
    var data := ReplaceAll(seg.raw, OldDate(), NewDate(t));
    ReplaceGrows(seg.raw, t);
    SpliceAtTail(file, seg.offset, data);
    var out := file[..seg.offset] + data;
    assert out[..seg.offset] == file[..seg.offset];
    assert out[seg.offset..] == data;
  }

  /** The new date is never shorter than the literal, so the replacement never shrinks the segment. */
  lemma ReplaceGrows(raw: seq<byte>, t: Time)
    ensures |ReplaceAll(raw, OldDate(), NewDate(t))| >= |raw|
  {
    var n: nat := |Matches(raw, OldDate())|;
    var d: nat := |NewDate(t)| - |OldDate()|;
    ProductZero(n, d);
    ReplaceAllLength(raw, OldDate(), NewDate(t));
  }

  /**
   * The file keeps its length exactly when the new date is 19 bytes (a year
   * in 0..9999) or the literal does not occur in the segment; otherwise it
   * grows by the extra bytes of every replaced occurrence.
   */
  lemma PatchLength(file: seq<byte>, t: Time, probe: Classifier)
    requires Locate(file, probe).Ok?
    ensures var seg := Locate(file, probe).value;
      var out := PatchFile(file, t, probe).value;
      && |out| == |file| + |Matches(seg.raw, OldDate())| * (|Format(t, EXIF_LAYOUT)| - 19)
      && (|out| == |file| <==> 0 <= t.year <= 9999 || !Occurs(seg.raw, OldDate()))
  {
    SegmentPatchLength(file, Locate(file, probe).value, t);
  }

  /** `PatchLength` for any segment that runs to the end of the file. */
  lemma SegmentPatchLength(file: seq<byte>, seg: Segment, t: Time)
    requires seg.offset <= |file| && seg.raw == file[seg.offset..]
    ensures var out := Splice(file, seg.offset, ReplaceAll(seg.raw, OldDate(), NewDate(t)));
      && |out| == |file| + |Matches(seg.raw, OldDate())| * (|Format(t, EXIF_LAYOUT)| - 19)
      && (|out| == |file| <==> 0 <= t.year <= 9999 || !Occurs(seg.raw, OldDate()))
  {
    var data := ReplaceAll(seg.raw, OldDate(), NewDate(t));
    var n: nat := |Matches(seg.raw, OldDate())|;
    var extra: nat := |Format(t, EXIF_LAYOUT)| - 19;
    ReplaceAllLength(seg.raw, OldDate(), NewDate(t));
    ProductZero(n, extra);
    GrowthLength(|file|, seg.offset, |seg.raw|, |data|, n * extra);
    OccursIffMatched(seg.raw, OldDate());
  }

  /** The length arithmetic of `SegmentPatchLength`, with the growth as a single quantity. */
  lemma GrowthLength(fileLen: nat, offset: nat, rawLen: nat, dataLen: nat, growth: int)
    requires offset + rawLen == fileLen && dataLen == rawLen + growth && growth >= 0
    ensures (if offset + dataLen > fileLen then offset + dataLen else fileLen) == fileLen + growth
  {
  }

  lemma ProductZero(n: nat, e: nat)
    ensures n * e >= 0 && (n * e == 0 <==> n == 0 || e == 0)
  {
    if n > 0 && e > 0 {
      assert n * e >= e by { assert n * e == (n - 1) * e + e; }
    }
  }

  /**
   * With a four-digit year the patch is in place: each replaced occurrence
   * holds the new date at the same file position, and every other byte of
   * the file is unchanged.
   */
  lemma PatchInPlace(file: seq<byte>, t: Time, probe: Classifier)
    requires Locate(file, probe).Ok? && 0 <= t.year <= 9999
    ensures var seg := Locate(file, probe).value;
      var out := PatchFile(file, t, probe).value;
      var ms := Matches(seg.raw, OldDate());
      && |out| == |file|
      && (forall m :: m in ms ==> out[seg.offset + m..seg.offset + m + 19] == NewDate(t))
      && (forall j :: 0 <= j < |file| && !Covered(ms, 19, j - seg.offset) ==> out[j] == file[j])
  {
    var seg := Locate(file, probe).value;
    var data := ReplaceAll(seg.raw, OldDate(), NewDate(t));
    var ms := Matches(seg.raw, OldDate());
    assert |NewDate(t)| == 19;
    ReplaceAllInPlace(seg.raw, OldDate(), NewDate(t));
    SpliceInPlace(file, seg.offset, seg.raw, data, ms, NewDate(t));
  }

  /**
   * Writing `data` back at `off`, where `data` is the file's tail `raw` with
   * the spans at `ms` overwritten by `rep`: the file keeps its length, each
   * span holds `rep`, and every byte outside the spans is kept.
   */
  lemma SpliceInPlace(file: seq<byte>, off: nat, raw: seq<byte>, data: seq<byte>, ms: seq<nat>, rep: seq<byte>)
    requires off <= |file| && file[off..] == raw && |data| == |raw|
    requires forall m :: m in ms ==> m + |rep| <= |data| && data[m..m + |rep|] == rep
    requires forall j :: 0 <= j < |raw| && !Covered(ms, |rep|, j) ==> data[j] == raw[j]
    ensures var out := Splice(file, off, data);
      && |out| == |file|
      && (forall m :: m in ms ==> out[off + m..off + m + |rep|] == rep)
      && (forall j :: 0 <= j < |file| && !Covered(ms, |rep|, j - off) ==> out[j] == file[j])
  {
    var out := Splice(file, off, data);
    SpliceAtTail(file, off, data);
    assert out == file[..off] + data;
    forall m | m in ms ensures out[off + m..off + m + |rep|] == rep {
      assert out[off + m..off + m + |rep|] == data[m..m + |rep|];
    }
    forall j | 0 <= j < |file| && !Covered(ms, |rep|, j - off) ensures out[j] == file[j] {
      if j >= off {
        assert out[j] == data[j - off];
        assert raw[j - off] == file[j];
      }
    }
  }

  /** When the literal does not occur in the segment, the bytes written back are the bytes read. */
  lemma PatchAbsent(file: seq<byte>, t: Time, probe: Classifier)
    requires Locate(file, probe).Ok? && !Occurs(Locate(file, probe).value.raw, OldDate())
    ensures PatchFile(file, t, probe) == Ok(file)
  {
    var seg := Locate(file, probe).value;
    ReplaceAllAbsent(seg.raw, OldDate(), NewDate(t));
    SpliceAtTail(file, seg.offset, seg.raw);
    assert file[..seg.offset] + file[seg.offset..] == file;
  }

  /** Two decimal digits of a number below 100. */
  lemma TwoDigits(n: nat)
    requires n < 100
    ensures Padded(n, 2) == [DigitChar(n / 10), DigitChar(n % 10)]
  {
    assert Pow10(2) == 100;
    assert Fixed(n / 10, 1) == [DigitChar(n / 10)];
  }

  /** The year of the literal, four digits. */
  lemma LiteralYear()
    ensures YearText(2023) == "2023"
  {
    assert Pow10(4) == 10000;
    TwoDigits(20);
    assert Fixed(20, 2) == Padded(20, 2) == "20";
    assert Fixed(202, 3) == "202";
  }

  /** The date half of the literal. */
  lemma LiteralDate(t: Time)
    requires t == DateTime(2023, 6, 18, 11, 28, 22)
    ensures DateText(t, EXIF_LAYOUT) == "2023:06:18"
  {
    LiteralYear();
    TwoDigits(6); TwoDigits(18);
  }

  /** The clock half of the literal. */
  lemma LiteralClock(t: Time)
    requires t == DateTime(2023, 6, 18, 11, 28, 22)
    ensures ClockText(t, EXIF_LAYOUT) == "11:28:22"
  {
    TwoDigits(11); TwoDigits(28); TwoDigits(22);
  }

  /** The literal is the EXIF layout of 2023-06-18 11:28:22. */
  lemma OldDateFormat()
    ensures var t: Time := DateTime(2023, 6, 18, 11, 28, 22);
      Format(t, EXIF_LAYOUT) == OLD_DATE
  {
    var t: Time := DateTime(2023, 6, 18, 11, 28, 22);
    var date, clock := DateText(t, EXIF_LAYOUT), ClockText(t, EXIF_LAYOUT);
    LiteralDate(t);
    LiteralClock(t);
    LiteralHalves(date, clock);
    assert Format(t, EXIF_LAYOUT) == date + [EXIF_LAYOUT.middle] + clock;
  }

  /** The literal is its date half, a space, and its clock half. */
  lemma LiteralHalves(date: string, clock: string)
    requires date == "2023:06:18" && clock == "11:28:22"
    ensures date + [' '] + clock == OLD_DATE
  {
  }

  /** Setting the very date the literal spells leaves the file unchanged. */
  lemma PatchSameDate(file: seq<byte>, probe: Classifier)
    requires Locate(file, probe).Ok?
    ensures var t: Time := DateTime(2023, 6, 18, 11, 28, 22);
      PatchFile(file, t, probe) == Ok(file)
  {
    var t: Time := DateTime(2023, 6, 18, 11, 28, 22);
    var seg := Locate(file, probe).value;
    OldDateFormat();
    assert NewDate(t) == OldDate();
    ReplaceAllSelf(seg.raw, OldDate());
    SpliceAtTail(file, seg.offset, seg.raw);
    assert file[..seg.offset] + file[seg.offset..] == file;
  }

  /**
   * The date `SetImageTime` writes is read back by `GetImageTime`'s parser
   * as the same time: the text whose characters are the written bytes is
   * 19 characters long and parses to `t`.
   */
  lemma NewDateParses(t: Time, text: string)
    requires 0 <= t.year <= 9999
    requires |text| == |NewDate(t)| && forall i :: 0 <= i < |text| ==> text[i] as int == NewDate(t)[i] as int
    ensures |text| == 19
    ensures Parse(text, EXIF_LAYOUT) == Some(t)
  {
    var s := Format(t, EXIF_LAYOUT);
    FormatAscii(t, EXIF_LAYOUT);
    assert forall i :: 0 <= i < |text| ==> text[i] == s[i];
    assert text == s;
    FormatParses(t, EXIF_LAYOUT);
  }
}
