/** The file-name pattern of Scripts/File_Watcher.py:32, applied with `re.match`: a name is accepted
    when some PREFIX of it is `label_SRC_LOC_DATE_TIME.ext` in the pattern's own terms.

    The pattern is reproduced as written, including its quirks:
    - the label class `[a-zA-z]` runs from 'A' to 'z', so it also takes `[ \ ] ^ _` and the backtick;
    - the month class `0[1,3-9]` in front of `29|30` also takes a comma;
    - months and days of the third date alternative may drop their leading zero;
    - the time is one to six digits;
    - there is no end anchor, and the leap-year list `20(0[48]|[2468][048]|[13579][26])` leaves out 2000.
    The look-behind `(?<!\d)` and look-ahead `(?!\d)` around the date always hold, because the date
    is preceded and followed by '_'; they are not modelled.
    `\d` is taken as an ASCII digit. */
module NamePattern {

  predicate IsDigit(c: char) {
    '0' <= c <= '9'
  }

  /** `[a-zA-Z]` */
  predicate IsLetter(c: char) {
    'a' <= c <= 'z' || 'A' <= c <= 'Z'
  }

  /** `[a-zA-z]`: the second range covers 'A'..'z', which includes `[ \ ] ^ _` and the backtick. */
  predicate IsLabelChar(c: char) {
    'a' <= c <= 'z' || 'A' <= c <= 'z'
  }

  predicate AllLabelChars(s: string) {
    forall k :: 0 <= k < |s| ==> IsLabelChar(s[k])
  }

  predicate AllDigits(s: string) {
    forall k :: 0 <= k < |s| ==> IsDigit(s[k])
  }

  /** `[a-zA-Z]{3}`: the source and the location code. */
  predicate IsCode(s: string) {
    |s| == 3 && IsLetter(s[0]) && IsLetter(s[1]) && IsLetter(s[2])
  }

  // ----- the date: three alternatives -----

  /** `20\d{2}` */
  predicate IsYear(y: string) {
    |y| == 4 && y[0] == '2' && y[1] == '0' && IsDigit(y[2]) && IsDigit(y[3])
  }

  /** `20(?:0[48]|[2468][048]|[13579][26])` */
  predicate IsListedLeapYear(y: string) {
    && |y| == 4 && y[0] == '2' && y[1] == '0'
    && ((y[2] == '0' && (y[3] == '4' || y[3] == '8'))
        || ((y[2] == '2' || y[2] == '4' || y[2] == '6' || y[2] == '8') && (y[3] == '0' || y[3] == '4' || y[3] == '8'))
        || ((y[2] == '1' || y[2] == '3' || y[2] == '5' || y[2] == '7' || y[2] == '9') && (y[3] == '2' || y[3] == '6')))
  }

  /** `(?:0[13578]|1[02])31` */
  predicate IsLongMonthDay31(md: string) {
    && |md| == 4
    && ((md[0] == '0' && (md[1] == '1' || md[1] == '3' || md[1] == '5' || md[1] == '7' || md[1] == '8'))
        || (md[0] == '1' && (md[1] == '0' || md[1] == '2')))
    && md[2] == '3' && md[3] == '1'
  }

  /** `(?:0[1,3-9]|1[0-2])(?:29|30)`; the class `[1,3-9]` holds '1', ',' and '3' to '9'. */
  predicate IsMonthDay29Or30(md: string) {
    && |md| == 4
    && ((md[0] == '0' && (md[1] == '1' || md[1] == ',' || '3' <= md[1] <= '9'))
        || (md[0] == '1' && '0' <= md[1] <= '2'))
    && ((md[2] == '2' && md[3] == '9') || (md[2] == '3' && md[3] == '0'))
  }

  /** `(?:0?[1-9])|(?:1[0-2])` */
  predicate IsShortMonth(m: string) {
    || (|m| == 1 && '1' <= m[0] <= '9')
    || (|m| == 2 && m[0] == '0' && '1' <= m[1] <= '9')
    || (|m| == 2 && m[0] == '1' && '0' <= m[1] <= '2')
  }

  /** `0?[1-9]|1\d|2[0-8]` */
  predicate IsShortDay(d: string) {
    || (|d| == 1 && '1' <= d[0] <= '9')
    || (|d| == 2 && d[0] == '0' && '1' <= d[1] <= '9')
    || (|d| == 2 && d[0] == '1' && IsDigit(d[1]))
    || (|d| == 2 && d[0] == '2' && '0' <= d[1] <= '8')
  }

  /** The date group of the pattern. */
  predicate IsDate(d: string) {
    || (|d| == 8 && IsYear(d[..4]) && (IsLongMonthDay31(d[4..]) || IsMonthDay29Or30(d[4..])))
    || (|d| == 8 && IsListedLeapYear(d[..4]) && d[4..] == "0229")
    || (|d| >= 6 && IsYear(d[..4]) && IsShortMonth(d[4..5]) && IsShortDay(d[5..]))
    || (|d| >= 7 && IsYear(d[..4]) && IsShortMonth(d[4..6]) && IsShortDay(d[6..]))
  }

  // ----- the time: `(?:(?:([01]?\d|2[0-3]))?([0-5]?\d))?([0-5]?\d)` -----

  /** `[01]?\d|2[0-3]` */
  predicate IsHour(h: string) {
    || (|h| == 1 && IsDigit(h[0]))
    || (|h| == 2 && (h[0] == '0' || h[0] == '1') && IsDigit(h[1]))
    || (|h| == 2 && h[0] == '2' && '0' <= h[1] <= '3')
  }

  /** `[0-5]?\d`, used for both minutes and seconds. */
  predicate IsSexagesimal(m: string) {
    || (|m| == 1 && IsDigit(m[0]))
    || (|m| == 2 && '0' <= m[0] <= '5' && IsDigit(m[1]))
  }

  predicate IsTime(t: string) {
    || IsSexagesimal(t)
    || (exists k :: 1 <= k <= 2 && k < |t| && IsSexagesimal(t[..k]) && IsSexagesimal(t[k..]))
    || (exists j, k :: 1 <= j <= 2 && j < k <= j + 2 && k < |t| && IsHour(t[..j]) && IsSexagesimal(t[j..k]) && IsSexagesimal(t[k..]))
  }

  /** `[.](txt)` or `[.](csv)`: the two top-level alternatives differ only here. */
  predicate IsDataExtension(e: string) {
    e == "txt" || e == "csv"
  }

  // ----- the pattern as a recognizer over positions -----

  /** From the time on: TIME, '.', and the extension, as a prefix of `v`. */
  predicate MatchesFromTime(v: string) {
    exists tl :: 1 <= tl <= 6 && tl + 4 <= |v| && IsTime(v[..tl]) && v[tl] == '.' && IsDataExtension(v[tl + 1..tl + 4])
  }

  /** From the date on: DATE, '_', then the time part, as a prefix of `u`. */
  predicate MatchesFromDate(u: string) {
    exists dl :: 6 <= dl <= 8 && dl < |u| && IsDate(u[..dl]) && u[dl] == '_' && MatchesFromTime(u[dl + 1..])
  }

  /** After the label: `_SRC_LOC_` and the date part, as a prefix of `t`. */
  predicate MatchesAfterLabel(t: string) {
    && |t| >= 9
    && t[0] == '_' && IsCode(t[1..4]) && t[4] == '_' && IsCode(t[5..8]) && t[8] == '_'
    && MatchesFromDate(t[9..])
  }

  /** `re.match(pattern, name) is not None` */
  predicate MatchesNamePattern(name: string) {
    exists i :: 1 <= i < |name| && AllLabelChars(name[..i]) && MatchesAfterLabel(name[i..])
  }

  // ----- the declarative reading: a file descriptor rendered as a prefix of the name -----

  datatype FileDescriptor = FileDescriptor(
    dataName: string, source: string, locationCode: string, date: string, time: string, extension: string)
  {
    ghost predicate Valid() {
      && |dataName| >= 1 && AllLabelChars(dataName)
      && IsCode(source) && IsCode(locationCode)
      && IsDate(date) && IsTime(time) && IsDataExtension(extension)
    }

    /** `dataName_source_locationCode_date_time.extension` */
    function Render(): string {
      dataName + AfterLabel()
    }

    function AfterLabel(): string {
      "_" + (source + ("_" + (locationCode + ("_" + FromDate()))))
    }

    function FromDate(): string {
      date + ("_" + FromTime())
    }

    function FromTime(): string {
      time + ("." + extension)
    }
  }

  /** A name is accepted exactly when some valid descriptor renders to a prefix of it. */
  ghost predicate HasAcceptedPrefix(name: string) {
    exists fd: FileDescriptor :: fd.Valid() && fd.Render() <= name
  }
}
