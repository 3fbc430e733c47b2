/**
 * The two fixed-width date-time layouts of the tool: the EXIF layout
 * "2006:01:02 15:04:05" that `GetImageTime` parses and `SetImageTime`
 * formats, and the file-name layout "2006-01-02H15-04-05" that
 * `generatePath` formats (with a literal `H` between date and time).
 */
module Layouts {
  import opened Digits
  import opened Results

  datatype DateTime = DateTime(year: int, month: nat, day: nat, hour: nat, minute: nat, second: nat)

  predicate IsLeap(year: int) {
    year % 4 == 0 && (year % 100 != 0 || year % 400 == 0)
  }

  function DaysIn(month: nat, year: int): nat
    requires 1 <= month <= 12
  {
    if month == 2 then (if IsLeap(year) then 29 else 28)
    else if month == 4 || month == 6 || month == 9 || month == 11 then 30
    else 31
  }

  predicate IsValid(t: DateTime) {
    && 1 <= t.month <= 12
    && 1 <= t.day <= DaysIn(t.month, t.year)
    && t.hour < 24 && t.minute < 60 && t.second < 60
  }

  /** A calendar date and time of day, as a Go `time.Time` holds it, to the second. */
  type Time = t: DateTime | IsValid(t) witness DateTime(1, 1, 1, 0, 0, 0)

  /** The separators of a layout of the shape YYYY?MM?DD?hh?mm?ss. */
  datatype Layout = Layout(dateSep: char, middle: char, timeSep: char)

  /** "2006:01:02 15:04:05" */
  const EXIF_LAYOUT := Layout(':', ' ', ':')

  /** "2006-01-02H15-04-05" */
  const FILE_LAYOUT := Layout('-', 'H', '-')

  /** The "2006" field: four digits zero-padded, more when needed, a minus sign before a negative year. */
  function YearText(year: int): (s: string)
    ensures |s| >= 4
    ensures |s| == 4 <==> 0 <= year <= 9999
  {
    assert Pow10(4) == 10000;
    if year < 0 then "-" + Padded(-year, 4) else Padded(year, 4)
  }

  /** The date half of a layout: year, month, day. */
  function DateText(t: Time, layout: Layout): (s: string)
    ensures |s| >= 10
    ensures |s| == 10 <==> 0 <= t.year <= 9999
  {
    assert Pow10(2) == 100;
    YearText(t.year) + [layout.dateSep] + Padded(t.month, 2) + [layout.dateSep] + Padded(t.day, 2)
  }

  /** The clock half of a layout: hour, minute, second, each exactly two digits. */
  function ClockText(t: Time, layout: Layout): (s: string)
    ensures |s| == 8
  {
    assert Pow10(2) == 100;
    Padded(t.hour, 2) + [layout.timeSep] + Padded(t.minute, 2) + [layout.timeSep] + Padded(t.second, 2)
  }

  /** `t.Format(layout)`: as long as the layout when the year has four digits, longer otherwise. */
  function Format(t: Time, layout: Layout): (s: string)
    ensures |s| >= 19
    ensures |s| == 19 <==> 0 <= t.year <= 9999
  {
    DateText(t, layout) + [layout.middle] + ClockText(t, layout)
  }

  /** A layout whose separators are ASCII formats to ASCII text. */
  lemma FormatAscii(t: Time, layout: Layout)
    requires layout.dateSep as int < 128 && layout.middle as int < 128 && layout.timeSep as int < 128
    ensures Ascii(Format(t, layout))
  {
    var ds, ms, ts := [layout.dateSep], [layout.middle], [layout.timeSep];
    var year := if t.year < 0 then "-" + Padded(-t.year, 4) else Padded(t.year, 4);
    if t.year < 0 { AsciiConcat("-", Padded(-t.year, 4)); }
    assert year == YearText(t.year);
    AsciiConcat(year, ds);
    AsciiConcat(year + ds, Padded(t.month, 2));
    AsciiConcat(year + ds + Padded(t.month, 2), ds);
    AsciiConcat(year + ds + Padded(t.month, 2) + ds, Padded(t.day, 2));
    var date := DateText(t, layout);
    AsciiConcat(Padded(t.hour, 2), ts);
    AsciiConcat(Padded(t.hour, 2) + ts, Padded(t.minute, 2));
    AsciiConcat(Padded(t.hour, 2) + ts + Padded(t.minute, 2), ts);
    AsciiConcat(Padded(t.hour, 2) + ts + Padded(t.minute, 2) + ts, Padded(t.second, 2));
    var clock := ClockText(t, layout);
    AsciiConcat(date, ms);
    AsciiConcat(date + ms, clock);
  }

  /** Three digit fields joined by two separators, read back from a string of that shape. */
  function SplitFields(s: string, wide: nat, sep: char): Option<(nat, nat, nat)> {
    if || |s| != wide + 6 || s[wide] != sep || s[wide + 3] != sep
       || !AllDigits(s[..wide]) || !AllDigits(s[wide + 1..wide + 3]) || !AllDigits(s[wide + 4..])
    then None
    else Some((Value(s[..wide]), Value(s[wide + 1..wide + 3]), Value(s[wide + 4..])))
  }

  /**
   * `time.Parse(layout, s)`, restricted to the strict fixed-width form:
   * four year digits, two digits per other field, the layout's separators,
   * and field values that name a real calendar time.
   */
  function Parse(s: string, layout: Layout): Option<Time> {
    if |s| != 19 || s[10] != layout.middle then None
    else match (SplitFields(s[..10], 4, layout.dateSep), SplitFields(s[11..], 2, layout.timeSep))
      case (Some((y, mo, d)), Some((h, mi, se))) =>
        var t := DateTime(y, mo, d, h, mi, se);
        if IsValid(t) then var v: Time := t; Some(v) else None
      case _ => None
  }

  /** The pieces of `a + [c1] + b + [c2] + e`, recovered by slicing. */
  lemma Slices(a: string, c1: char, b: string, c2: char, e: string)
    ensures var s := a + [c1] + b + [c2] + e;
      && s[..|a|] == a && s[|a|] == c1 && s[|a| + 1..|a| + 1 + |b|] == b
      && s[|a| + 1 + |b|] == c2 && s[|a| + 2 + |b|..] == e
  {
    var s := a + [c1] + b + [c2] + e;
    assert s == a + ([c1] + b + [c2] + e);
    assert s[|a| + 1..] == b + [c2] + e;
    assert s[|a| + 1..][..|b|] == b;
  }

  lemma SplitJoined(x: string, sep: char, y: string, z: string)
    requires AllDigits(x) && |y| == 2 && AllDigits(y) && |z| == 2 && AllDigits(z)
    ensures SplitFields(x + [sep] + y + [sep] + z, |x|, sep) == Some((Value(x), Value(y), Value(z)))
  {
    Slices(x, sep, y, sep, z);
  }

  lemma JoinSplit(s: string, wide: nat, sep: char)
    requires SplitFields(s, wide, sep).Some?
    ensures var f := SplitFields(s, wide, sep).value;
      s == Fixed(f.0, wide) + [sep] + Fixed(f.1, 2) + [sep] + Fixed(f.2, 2)
  {
    FixedOfValue(s[..wide]);
    FixedOfValue(s[wide + 1..wide + 3]);
    FixedOfValue(s[wide + 4..]);
    assert s == s[..wide] + [s[wide]] + s[wide + 1..wide + 3] + [s[wide + 3]] + s[wide + 4..];
  }

  /** A formatted time in years 0..9999 parses back to the same calendar fields. */
  lemma FormatParses(t: Time, layout: Layout)
    requires 0 <= t.year <= 9999
    ensures Parse(Format(t, layout), layout) == Some(t)
  {
    assert Pow10(4) == 10000 && Pow10(2) == 100;
    var date, clock := DateText(t, layout), ClockText(t, layout);
    var s := Format(t, layout);
    assert s[..10] == date && s[10] == layout.middle && s[11..] == clock;
    SplitJoined(Fixed(t.year, 4), layout.dateSep, Fixed(t.month, 2), Fixed(t.day, 2));
    SplitJoined(Fixed(t.hour, 2), layout.timeSep, Fixed(t.minute, 2), Fixed(t.second, 2));
  }

  /** The date fields the parser reads are written back as the same ten characters. */
  lemma DateBack(d: string, t: Time, layout: Layout)
    requires SplitFields(d, 4, layout.dateSep) == Some((t.year, t.month, t.day))
    ensures 0 <= t.year <= 9999 && DateText(t, layout) == d
  {
    assert Pow10(4) == 10000 && Pow10(2) == 100;
    ValueBound(d[..4]);
    JoinSplit(d, 4, layout.dateSep);
  }

  /** The clock fields the parser reads are written back as the same eight characters. */
  lemma ClockBack(c: string, t: Time, layout: Layout)
    requires SplitFields(c, 2, layout.timeSep) == Some((t.hour, t.minute, t.second))
    ensures ClockText(t, layout) == c
  {
    assert Pow10(2) == 100;
    JoinSplit(c, 2, layout.timeSep);
  }

  /** Whatever the parser accepts is exactly the formatted text of the time it returns. */
  lemma ParseFormats(s: string, layout: Layout)
    requires Parse(s, layout).Some?
    ensures var t := Parse(s, layout).value;
      0 <= t.year <= 9999 && Format(t, layout) == s
  {
    var t := Parse(s, layout).value;
    DateBack(s[..10], t, layout);
    ClockBack(s[11..], t, layout);
    assert s == s[..10] + [s[10]] + s[11..];
  }

  /** Times in years 0..9999 never share a formatted text. */
  lemma FormatInjective(t1: Time, t2: Time, layout: Layout)
    requires 0 <= t1.year <= 9999 && 0 <= t2.year <= 9999
    requires Format(t1, layout) == Format(t2, layout)
    ensures t1 == t2
  {
    FormatParses(t1, layout);
    FormatParses(t2, layout);
  }
}
