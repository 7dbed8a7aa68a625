/** What the file-name pattern of Scripts/File_Watcher.py:32 accepts, proved about the recognizer
    in module NamePattern: the shape of an accepted name, the calendar its dates follow, the times
    it admits, and that only a prefix of the name is inspected. */
module NamePatternProperties {
  import opened NamePattern

  // ----- segment shapes -----

  /** A date segment is six to eight characters, starts with a `20xx` year, and holds only digits
      and (through the `[1,3-9]` class) commas, so never '_' or '.'. */
  lemma DateShape(d: string)
    requires IsDate(d)
    ensures 6 <= |d| <= 8 && IsYear(d[..4])
    ensures forall k :: 0 <= k < |d| ==> IsDigit(d[k]) || d[k] == ','
  {
    assert d[..4][0] == d[0] && d[..4][1] == d[1] && d[..4][2] == d[2] && d[..4][3] == d[3];
    if |d| == 8 && IsListedLeapYear(d[..4]) && d[4..] == "0229" {
      assert d[4] == '0' && d[5] == '2' && d[6] == '2' && d[7] == '9' by {
        assert d[4..][0] == d[4] && d[4..][1] == d[5] && d[4..][2] == d[6] && d[4..][3] == d[7];
      }
    } else if |d| == 8 && IsYear(d[..4]) && (IsLongMonthDay31(d[4..]) || IsMonthDay29Or30(d[4..])) {
      assert d[4..][0] == d[4] && d[4..][1] == d[5] && d[4..][2] == d[6] && d[4..][3] == d[7];
    } else if |d| >= 6 && IsYear(d[..4]) && IsShortMonth(d[4..5]) && IsShortDay(d[5..]) {
      assert d[4..5][0] == d[4];
      assert forall k :: 0 <= k < |d[5..]| ==> d[5..][k] == d[5 + k];
    } else {
      assert d[4..6][0] == d[4] && d[4..6][1] == d[5];
      assert forall k :: 0 <= k < |d[6..]| ==> d[6..][k] == d[6 + k];
    }
  }

  lemma SexagesimalShape(m: string)
    requires IsSexagesimal(m)
    ensures 1 <= |m| <= 2 && AllDigits(m)
  {
  }

  lemma HourShape(h: string)
    requires IsHour(h)
    ensures 1 <= |h| <= 2 && AllDigits(h)
  {
  }

  lemma DigitsJoin(a: string, b: string)
    requires AllDigits(a) && AllDigits(b)
    ensures AllDigits(a + b)
  {
    forall i | 0 <= i < |a + b| ensures IsDigit((a + b)[i]) {
      if i >= |a| {
        assert (a + b)[i] == b[i - |a|];
      }
    }
  }

  lemma TwoPartTimeShape(t: string, k: nat)
    requires k <= |t| && IsSexagesimal(t[..k]) && IsSexagesimal(t[k..])
    ensures 1 <= |t| <= 6 && AllDigits(t)
  {
    SexagesimalShape(t[..k]);
    SexagesimalShape(t[k..]);
    DigitsJoin(t[..k], t[k..]);
    assert t == t[..k] + t[k..];
  }

  lemma ThreePartTimeShape(t: string, j: nat, k: nat)
    requires j <= k <= |t| && IsHour(t[..j]) && IsSexagesimal(t[j..k]) && IsSexagesimal(t[k..])
    ensures 1 <= |t| <= 6 && AllDigits(t)
  {
    HourShape(t[..j]);
    SexagesimalShape(t[j..k]);
    SexagesimalShape(t[k..]);
    DigitsJoin(t[..j], t[j..k]);
    DigitsJoin(t[..j] + t[j..k], t[k..]);
    assert t == t[..j] + t[j..k] + t[k..];
  }

  /** A time segment is one to six digits. */
  lemma TimeShape(t: string)
    requires IsTime(t)
    ensures 1 <= |t| <= 6 && AllDigits(t)
  {
    if IsSexagesimal(t) {
      SexagesimalShape(t);
    } else if k :| 1 <= k <= 2 && k < |t| && IsSexagesimal(t[..k]) && IsSexagesimal(t[k..]) {
      TwoPartTimeShape(t, k);
    } else {
      var j, k :| 1 <= j <= 2 && j < k <= j + 2 && k < |t| && IsHour(t[..j]) && IsSexagesimal(t[j..k]) && IsSexagesimal(t[k..]);
      ThreePartTimeShape(t, j, k);
    }
  }

  // ----- the time of day -----

  function DigitValue(c: char): int {
    c as int - '0' as int
  }

  function TwoDigitValue(s: string): int
    requires |s| == 2
  {
    10 * DigitValue(s[0]) + DigitValue(s[1])
  }

  /** A six-digit time `HHMMSS` is accepted exactly when it is a time of the 24-hour clock. */
  lemma SixDigitTime(t: string)
    requires |t| == 6 && AllDigits(t)
    ensures IsTime(t) <==> TwoDigitValue(t[0..2]) <= 23 && TwoDigitValue(t[2..4]) <= 59 && TwoDigitValue(t[4..6]) <= 59
  {
    assert t[0..2][0] == t[0] && t[0..2][1] == t[1];
    assert t[2..4][0] == t[2] && t[2..4][1] == t[3];
    assert t[4..6][0] == t[4] && t[4..6][1] == t[5];
    if IsTime(t) {
      if IsSexagesimal(t) {
      } else if k :| 1 <= k <= 2 && k < |t| && IsSexagesimal(t[..k]) && IsSexagesimal(t[k..]) {
      } else {
        var j, k :| 1 <= j <= 2 && j < k <= j + 2 && k < |t| && IsHour(t[..j]) && IsSexagesimal(t[j..k]) && IsSexagesimal(t[k..]);
        assert j == 2 && k == 4;
        assert t[..2] == t[0..2];
      }
    } else {
      if TwoDigitValue(t[0..2]) <= 23 && TwoDigitValue(t[2..4]) <= 59 && TwoDigitValue(t[4..6]) <= 59 {
        assert IsHour(t[..2]) && IsSexagesimal(t[2..4]) && IsSexagesimal(t[4..]) by {
          assert t[..2] == t[0..2];
          assert t[4..] == t[4..6];
        }
        assert false;
      }
    }
  }

  lemma TimeExamples()
    ensures IsTime("235959")
    ensures !IsTime("245959")
    ensures IsTime("5959") && IsTime("7")
  {
    SixDigitTime("235959");
    SixDigitTime("245959");
    assert IsSexagesimal("5959"[..2]) && IsSexagesimal("5959"[2..]);
  }

  // ----- the calendar -----

  predicate IsGregorianLeapYear(year: int) {
    year % 4 == 0 && (year % 100 != 0 || year % 400 == 0)
  }

  function DaysInMonth(year: int, month: int): int {
    if month == 2 then (if IsGregorianLeapYear(year) then 29 else 28)
    else if month == 4 || month == 6 || month == 9 || month == 11 then 30
    else 31
  }

  function YearValue(d: string): int
    requires |d| >= 4
  {
    1000 * DigitValue(d[0]) + 100 * DigitValue(d[1]) + 10 * DigitValue(d[2]) + DigitValue(d[3])
  }

  /** The leap-year list of the pattern: every fourth year from 2004 to 2096; 2000 is left out. */
  lemma ListedLeapYears(y: string)
    requires IsYear(y)
    ensures IsListedLeapYear(y) <==> YearValue(y) % 4 == 0 && YearValue(y) != 2000
  {
    var tens, units := DigitValue(y[2]), DigitValue(y[3]);
    assert YearValue(y) == 2000 + 10 * tens + units;
    assert 0 <= tens <= 9 && 0 <= units <= 9;
    if tens % 2 == 0 {
      assert 10 * tens == 4 * (5 * (tens / 2));
    } else {
      assert 10 * tens == 4 * (5 * (tens / 2) + 2) + 2;
    }
  }

  /** An eight-digit date is accepted exactly when it is a day of the Gregorian calendar in the years
      2000 to 2099, except 29 February 2000, which the pattern's leap-year list leaves out. */
  lemma EightDigitDate(d: string)
    requires |d| == 8 && AllDigits(d)
    ensures IsDate(d) <==>
      var year, month, day := YearValue(d), TwoDigitValue(d[4..6]), TwoDigitValue(d[6..8]);
      && 2000 <= year <= 2099 && 1 <= month <= 12 && 1 <= day <= DaysInMonth(year, month)
      && !(year == 2000 && month == 2 && day == 29)
  {
    var year, month, day := YearValue(d), TwoDigitValue(d[4..6]), TwoDigitValue(d[6..8]);
    assert d[..4][0] == d[0] && d[..4][1] == d[1] && d[..4][2] == d[2] && d[..4][3] == d[3];
    assert d[4..][0] == d[4] && d[4..][1] == d[5] && d[4..][2] == d[6] && d[4..][3] == d[7];
    assert d[4..6][0] == d[4] && d[4..6][1] == d[5];
    assert d[6..8][0] == d[6] && d[6..8][1] == d[7];
    assert d[6..] == d[6..8];
    assert |d[5..]| == 3;
    var yearOk := IsYear(d[..4]);
    assert yearOk <==> 2000 <= year <= 2099;
    if yearOk {
      ListedLeapYears(d[..4]);
      assert YearValue(d[..4]) == year;
      assert IsGregorianLeapYear(year) <==> year % 4 == 0;
    }
    assert d[4..] == "0229" <==> month == 2 && day == 29;
  }

  /** 29 February is accepted in 2024 and rejected in 2023; 31 April and 30 February never exist. */
  lemma LeapDayExamples()
    ensures IsDate("20240229")
    ensures !IsDate("20230229")
    ensures !IsDate("20220431")
    ensures !IsDate("20220230")
  {
    assert IsDate("20240229") by { EightDigitDate("20240229"); }
    assert !IsDate("20230229") by { EightDigitDate("20230229"); }
    assert !IsDate("20220431") by { EightDigitDate("20220431"); }
    assert !IsDate("20220230") by { EightDigitDate("20220230"); }
  }

  /** 29 February 2000 is rejected although 2000 is a Gregorian leap year. */
  lemma YearTwoThousandExample()
    ensures !IsDate("20000229")
  {
    EightDigitDate("20000229");
  }

  /** The quirks of the date group: a month or day may drop its leading zero, and a comma passes
      for the second digit of a month in front of day 29 or 30. */
  lemma DateQuirkExamples()
    ensures IsDate("2022111")
    ensures IsDate("20220,29")
  {
    assert IsYear("2022111"[..4]) && IsShortMonth("2022111"[4..5]) && IsShortDay("2022111"[5..]);
    assert IsYear("20220,29"[..4]) && IsMonthDay29Or30("20220,29"[4..]);
  }

  /** Every character of an accepted date is a digit, except that the sixth character of an
      eight-character date may be the comma of a month-day part `0,29` or `0,30`. */
  lemma DigitOrMonthComma(d: string, j: nat)
    requires IsDate(d) && j < |d|
    ensures || IsDigit(d[j])
            || (|d| == 8 && j == 5 && d[4] == '0' && d[5] == ',' && (d[6..] == "29" || d[6..] == "30"))
  {
    DateShape(d);
    if |d| == 8 && IsYear(d[..4]) && IsMonthDay29Or30(d[4..]) {
      assert d[4..][0] == d[4] && d[4..][1] == d[5] && d[4..][2] == d[6] && d[4..][3] == d[7];
      assert d[6..] == [d[6], d[7]];
    } else if |d| == 8 && IsYear(d[..4]) && IsLongMonthDay31(d[4..]) {
      assert d[4..][0] == d[4] && d[4..][1] == d[5] && d[4..][2] == d[6] && d[4..][3] == d[7];
    } else if |d| == 8 && IsListedLeapYear(d[..4]) && d[4..] == "0229" {
      assert d[..4][0] == d[0] && d[..4][1] == d[1] && d[..4][2] == d[2] && d[..4][3] == d[3];
      assert d[4..][0] == d[4] && d[4..][1] == d[5] && d[4..][2] == d[6] && d[4..][3] == d[7];
    } else if |d| >= 6 && IsYear(d[..4]) && IsShortMonth(d[4..5]) && IsShortDay(d[5..]) {
      assert d[4..5][0] == d[4];
      assert forall k :: 0 <= k < |d[5..]| ==> d[5..][k] == d[5 + k];
    } else {
      assert d[4..6][0] == d[4] && d[4..6][1] == d[5];
      assert forall k :: 0 <= k < |d[6..]| ==> d[6..][k] == d[6 + k];
    }
  }

  /** A comma in an accepted date can only be the second month digit of `0,29` or `0,30` ending an
      eight-character date. */
  lemma CommaInDate(d: string, k: nat)
    requires IsDate(d) && k < |d| && d[k] == ','
    ensures |d| == 8 && k == 5 && d[4] == '0' && (d[6..] == "29" || d[6..] == "30")
  {
    DigitOrMonthComma(d, k);
  }

  /** The value of a one- or two-digit month or day field. */
  function FieldValue(s: string): int {
    if |s| == 1 then DigitValue(s[0])
    else if |s| == 2 then TwoDigitValue(s)
    else 0
  }

  /** A short month field names a month 1 to 12 and a short day field a day 1 to 28, a day every
      month has. */
  lemma ShortFieldsName(year: int, m: string, dd: string)
    requires IsShortMonth(m) && IsShortDay(dd)
    ensures 1 <= FieldValue(m) <= 12 && 1 <= FieldValue(dd) <= 28
    ensures FieldValue(dd) <= DaysInMonth(year, FieldValue(m))
  {
  }

  /** A date shorter than eight characters is all digits in a year 2000-2099, at least one cut of
      its tail into a short month and a short day is accepted, and every accepted cut names month
      1 to 12 and day 1 to 28: a day of the calendar whichever cut is meant. */
  lemma ShortDateIsCalendarDay(d: string)
    requires IsDate(d) && |d| < 8
    ensures AllDigits(d) && 2000 <= YearValue(d) <= 2099
    ensures exists cut :: 5 <= cut <= 6 && cut < |d| && IsShortMonth(d[4..cut]) && IsShortDay(d[cut..])
    ensures forall cut :: 5 <= cut <= 6 && cut < |d| && IsShortMonth(d[4..cut]) && IsShortDay(d[cut..]) ==>
      && 1 <= FieldValue(d[4..cut]) <= 12 && 1 <= FieldValue(d[cut..]) <= 28
      && FieldValue(d[cut..]) <= DaysInMonth(YearValue(d), FieldValue(d[4..cut]))
  {
    forall j | 0 <= j < |d|
      ensures IsDigit(d[j])
    {
      DigitOrMonthComma(d, j);
    }
    DateShape(d);
    assert d[..4][0] == d[0] && d[..4][1] == d[1] && d[..4][2] == d[2] && d[..4][3] == d[3];
    if IsShortMonth(d[4..5]) && IsShortDay(d[5..]) {
      assert 5 < |d|;
    } else {
      assert 6 < |d| && IsShortMonth(d[4..6]) && IsShortDay(d[6..]);
    }
    forall cut | 5 <= cut <= 6 && cut < |d| && IsShortMonth(d[4..cut]) && IsShortDay(d[cut..])
      ensures && 1 <= FieldValue(d[4..cut]) <= 12 && 1 <= FieldValue(d[cut..]) <= 28
              && FieldValue(d[cut..]) <= DaysInMonth(YearValue(d), FieldValue(d[4..cut]))
    {
      ShortFieldsName(YearValue(d), d[4..cut], d[cut..]);
    }
  }

  // ----- the recognizer and the descriptor reading agree -----

  lemma PrefixSplit(a: string, b: string, v: string)
    requires a + b <= v
    ensures a <= v && b <= v[|a|..]
  {
    assert v[..|a + b|][..|a|] == v[..|a|];
    assert (a + b)[..|a|] == a;
    assert v[|a|..][..|b|] == v[..|a + b|][|a|..];
    assert (a + b)[|a|..] == b;
  }

  lemma PrefixJoin(a: string, b: string, v: string)
    requires a <= v && b <= v[|a|..]
    ensures a + b <= v
  {
    assert v[..|a + b|] == v[..|a|] + v[|a|..][..|b|];
  }

  lemma FromTimeComplete(time: string, extension: string, v: string)
    requires IsTime(time) && IsDataExtension(extension)
    requires time + ("." + extension) <= v
    ensures MatchesFromTime(v)
  {
    TimeShape(time);
    var tl := |time|;
    PrefixSplit(time, "." + extension, v);
    PrefixSplit(".", extension, v[tl..]);
    assert v[tl..][1..] == v[tl + 1..];
    assert v[tl + 1..tl + 4] == extension;
    assert v[..tl] == time;
    assert 1 <= tl <= 6 && tl + 4 <= |v| && IsTime(v[..tl]) && v[tl] == '.' && IsDataExtension(v[tl + 1..tl + 4]);
  }

  lemma FromDateComplete(fd: FileDescriptor, u: string)
    requires IsDate(fd.date) && IsTime(fd.time) && IsDataExtension(fd.extension)
    requires fd.FromDate() <= u
    ensures MatchesFromDate(u)
  {
    DateShape(fd.date);
    var dl := |fd.date|;
    PrefixSplit(fd.date, "_" + fd.FromTime(), u);
    PrefixSplit("_", fd.FromTime(), u[dl..]);
    assert u[dl..][1..] == u[dl + 1..];
    FromTimeComplete(fd.time, fd.extension, u[dl + 1..]);
    assert u[..dl] == fd.date;
    assert 6 <= dl <= 8 && dl < |u| && IsDate(u[..dl]) && u[dl] == '_' && MatchesFromTime(u[dl + 1..]);
  }

  lemma AfterLabelComplete(fd: FileDescriptor, t: string)
    requires fd.Valid()
    requires fd.AfterLabel() <= t
    ensures MatchesAfterLabel(t)
  {
    var rest := "_" + fd.FromDate();
    PrefixSplit("_", fd.source + ("_" + (fd.locationCode + rest)), t);
    PrefixSplit(fd.source, "_" + (fd.locationCode + rest), t[1..]);
    PrefixSplit("_", fd.locationCode + rest, t[1..][3..]);
    PrefixSplit(fd.locationCode, rest, t[1..][3..][1..]);
    PrefixSplit("_", fd.FromDate(), t[1..][3..][1..][3..]);
    assert t[1..][3..][1..][3..][1..] == t[9..];
    assert t[1..4] == fd.source;
    assert t[5..8] == fd.locationCode;
    FromDateComplete(fd, t[9..]);
  }

  /** Completeness: a name that starts with the rendering of a valid descriptor is accepted,
      whatever follows it. */
  lemma AcceptsValidPrefix(fd: FileDescriptor, name: string)
    requires fd.Valid()
    requires fd.Render() <= name
    ensures MatchesNamePattern(name)
  {
    var i := |fd.dataName|;
    PrefixSplit(fd.dataName, fd.AfterLabel(), name);
    AfterLabelComplete(fd, name[i..]);
    assert name[..i] == fd.dataName;
    assert 1 <= i < |name| && AllLabelChars(name[..i]) && MatchesAfterLabel(name[i..]);
  }

  lemma FromTimeParts(v: string) returns (time: string, extension: string)
    requires MatchesFromTime(v)
    ensures IsTime(time) && IsDataExtension(extension) && time + ("." + extension) <= v
  {
    var tl :| 1 <= tl <= 6 && tl + 4 <= |v| && IsTime(v[..tl]) && v[tl] == '.' && IsDataExtension(v[tl + 1..tl + 4]);
    time, extension := v[..tl], v[tl + 1..tl + 4];
    DotSplit(v, tl);
  }

  /** Cutting `v` around the '.' at `tl` gives back a prefix of `v`. */
  lemma DotSplit(v: string, tl: nat)
    requires tl + 4 <= |v| && v[tl] == '.'
    ensures v[..tl] + ("." + v[tl + 1..tl + 4]) <= v
  {
    assert v[..tl] + ("." + v[tl + 1..tl + 4]) == v[..tl + 4];
  }

  lemma FromDateParts(u: string) returns (date: string, time: string, extension: string)
    requires MatchesFromDate(u)
    ensures IsDate(date) && IsTime(time) && IsDataExtension(extension)
    ensures date + ("_" + (time + ("." + extension))) <= u
  {
    var dl :| 6 <= dl <= 8 && dl < |u| && IsDate(u[..dl]) && u[dl] == '_' && MatchesFromTime(u[dl + 1..]);
    date := u[..dl];
    time, extension := FromTimeParts(u[dl + 1..]);
    var w := time + ("." + extension);
    assert u[dl..][1..] == u[dl + 1..];
    PrefixJoin("_", w, u[dl..]);
    PrefixJoin(date, "_" + w, u);
  }

  /** Soundness: an accepted name starts with the rendering of a valid descriptor
      `dataName_SRC_LOC_date_time.ext`. */
  lemma AcceptedNameShape(name: string) returns (fd: FileDescriptor)
    requires MatchesNamePattern(name)
    ensures fd.Valid() && fd.Render() <= name
  {
    var i :| 1 <= i < |name| && AllLabelChars(name[..i]) && MatchesAfterLabel(name[i..]);
    var t := name[i..];
    var date, time, extension := FromDateParts(t[9..]);
    fd := FileDescriptor(name[..i], t[1..4], t[5..8], date, time, extension);
    AfterLabelPrefix(t, fd.FromDate());
    PrefixJoin(fd.dataName, fd.AfterLabel(), name);
  }

  /** `_SRC_LOC_` followed by a prefix of what comes after it is a prefix of `t`. */
  lemma AfterLabelPrefix(t: string, w: string)
    requires |t| >= 9 && t[0] == '_' && t[4] == '_' && t[8] == '_' && w <= t[9..]
    ensures "_" + (t[1..4] + ("_" + (t[5..8] + ("_" + w)))) <= t
  {
    var rest := "_" + w;
    assert t[1..][3..][1..][3..][1..] == t[9..];
    PrefixJoin("_", w, t[1..][3..][1..][3..]);
    PrefixJoin(t[5..8], rest, t[1..][3..][1..]);
    PrefixJoin("_", t[5..8] + rest, t[1..][3..]);
    PrefixJoin(t[1..4], "_" + (t[5..8] + rest), t[1..]);
    PrefixJoin("_", t[1..4] + ("_" + (t[5..8] + rest)), t);
  }

  /** The recognizer decides exactly the declarative reading of the pattern. */
  lemma PatternMeansAcceptedPrefix(name: string)
    ensures MatchesNamePattern(name) <==> HasAcceptedPrefix(name)
  {
    if MatchesNamePattern(name) {
      var fd := AcceptedNameShape(name);
    }
    if HasAcceptedPrefix(name) {
      var fd: FileDescriptor :| fd.Valid() && fd.Render() <= name;
      AcceptsValidPrefix(fd, name);
    }
  }

  /** With no end anchor, whatever follows an accepted name keeps it accepted. */
  lemma AcceptanceIgnoresSuffix(name: string, tail: string)
    requires MatchesNamePattern(name)
    ensures MatchesNamePattern(name + tail)
  {
    var fd := AcceptedNameShape(name);
    PrefixExtends(fd.Render(), name, tail);
    AcceptsValidPrefix(fd, name + tail);
  }

  lemma PrefixExtends(a: string, name: string, tail: string)
    requires a <= name
    ensures a <= name + tail
  {
    assert (name + tail)[..|a|] == name[..|a|];
  }

  // ----- names whose segments are plain: exactly one way to read them -----

  lemma NotTimeWith(t: string, k: nat)
    requires k < |t| && !IsDigit(t[k])
    ensures !IsTime(t)
  {
    if IsTime(t) {
      TimeShape(t);
    }
  }

  lemma NotDateWith(d: string, k: nat)
    requires k < |d| && !IsDigit(d[k]) && d[k] != ','
    ensures !IsDate(d)
  {
    if IsDate(d) {
      DateShape(d);
    }
  }

  /** Where the pieces of `time.ext` sit. */
  lemma FromTimeLayout(fd: FileDescriptor, rest: string)
    requires |fd.extension| == 3
    ensures var v := fd.FromTime() + rest; var n := |fd.time|;
      && |v| >= n + 4 && v[..n] == fd.time && v[n] == '.' && v[n + 1..n + 4] == fd.extension
  {
    var v := fd.FromTime() + rest;
    assert v[..|fd.time| + 4] == fd.FromTime();
  }

  /** No other length of the time segment is followed by the '.'. */
  lemma OtherTimeSplitFails(fd: FileDescriptor, rest: string, tl: nat)
    requires AllDigits(fd.time) && |fd.extension| == 3
    requires 1 <= tl && tl + 4 <= |fd.FromTime() + rest| && tl != |fd.time|
    ensures !(IsTime((fd.FromTime() + rest)[..tl]) && (fd.FromTime() + rest)[tl] == '.')
  {
    var v := fd.FromTime() + rest;
    var n := |fd.time|;
    FromTimeLayout(fd, rest);
    if tl < n {
      assert v[tl] == fd.time[tl];
    } else {
      assert v[..tl][n] == '.';
      NotTimeWith(v[..tl], n);
    }
  }

  lemma FromTimeDecided(fd: FileDescriptor, rest: string)
    requires AllDigits(fd.time) && |fd.extension| == 3
    ensures MatchesFromTime(fd.FromTime() + rest) <==> IsTime(fd.time) && IsDataExtension(fd.extension)
  {
    var v := fd.FromTime() + rest;
    var n := |fd.time|;
    FromTimeLayout(fd, rest);
    if IsTime(fd.time) && IsDataExtension(fd.extension) {
      FromTimeComplete(fd.time, fd.extension, v);
    }
    if MatchesFromTime(v) {
      var tl :| 1 <= tl <= 6 && tl + 4 <= |v| && IsTime(v[..tl]) && v[tl] == '.' && IsDataExtension(v[tl + 1..tl + 4]);
      if tl != n {
        OtherTimeSplitFails(fd, rest, tl);
      }
    }
  }

  /** Where the pieces of `date_time.ext` sit. */
  lemma FromDateLayout(fd: FileDescriptor, rest: string)
    ensures var u := fd.FromDate() + rest; var n := |fd.date|;
      && |u| > n && u[..n] == fd.date && u[n] == '_' && u[n + 1..] == fd.FromTime() + rest
  {
    var u := fd.FromDate() + rest;
    assert u[..|fd.date|] == fd.date;
    assert u[|fd.date| + 1..] == fd.FromTime() + rest;
  }

  /** No other length of the date segment is followed by the '_'. */
  lemma OtherDateSplitFails(fd: FileDescriptor, rest: string, dl: nat)
    requires AllDigits(fd.date) && dl < |fd.FromDate() + rest| && dl != |fd.date|
    ensures !(IsDate((fd.FromDate() + rest)[..dl]) && (fd.FromDate() + rest)[dl] == '_')
  {
    var u := fd.FromDate() + rest;
    var n := |fd.date|;
    FromDateLayout(fd, rest);
    if dl < n {
      assert u[dl] == fd.date[dl];
    } else {
      assert u[..dl][n] == '_';
      NotDateWith(u[..dl], n);
    }
  }

  /** A match from the date on can only take the whole date segment as its date. */
  lemma FromDateMatchSplit(fd: FileDescriptor, rest: string)
    requires AllDigits(fd.date) && MatchesFromDate(fd.FromDate() + rest)
    ensures IsDate(fd.date) && MatchesFromTime(fd.FromTime() + rest)
  {
    var u := fd.FromDate() + rest;
    FromDateLayout(fd, rest);
    var dl :| 6 <= dl <= 8 && dl < |u| && IsDate(u[..dl]) && u[dl] == '_' && MatchesFromTime(u[dl + 1..]);
    if dl != |fd.date| {
      OtherDateSplitFails(fd, rest, dl);
    }
  }

  lemma FromDateDecided(fd: FileDescriptor, rest: string)
    requires AllDigits(fd.date) && AllDigits(fd.time) && |fd.extension| == 3
    ensures MatchesFromDate(fd.FromDate() + rest) <==> IsDate(fd.date) && IsTime(fd.time) && IsDataExtension(fd.extension)
  {
    FromTimeDecided(fd, rest);
    if IsDate(fd.date) && IsTime(fd.time) && IsDataExtension(fd.extension) {
      FromDateComplete(fd, fd.FromDate() + rest);
    }
    if MatchesFromDate(fd.FromDate() + rest) {
      FromDateMatchSplit(fd, rest);
    }
  }

  /** Where the pieces of `_SRC_LOC_date_time.ext` sit. */
  lemma AfterLabelLayout(fd: FileDescriptor)
    requires |fd.source| == 3 && |fd.locationCode| == 3
    ensures var a := fd.AfterLabel();
      && |a| >= 9 && a[0] == '_' && a[1..4] == fd.source && a[4] == '_'
      && a[5..8] == fd.locationCode && a[8] == '_' && a[9..] == fd.FromDate()
  {
  }

  lemma AfterLabelDecided(fd: FileDescriptor, rest: string)
    requires IsCode(fd.source) && IsCode(fd.locationCode)
    requires AllDigits(fd.date) && AllDigits(fd.time) && |fd.extension| == 3
    ensures MatchesAfterLabel(fd.AfterLabel() + rest) <==> IsDate(fd.date) && IsTime(fd.time) && IsDataExtension(fd.extension)
  {
    var t := fd.AfterLabel() + rest;
    AfterLabelLayout(fd);
    assert t[1..4] == fd.source && t[5..8] == fd.locationCode;
    assert t[9..] == fd.FromDate() + rest;
    FromDateDecided(fd, rest);
  }

  /** The premises under which a name can be read in one way only. */
  ghost predicate Plain(fd: FileDescriptor) {
    && |fd.dataName| >= 1 && (forall k :: 0 <= k < |fd.dataName| ==> IsLetter(fd.dataName[k]))
    && IsCode(fd.source) && IsCode(fd.locationCode)
    && |fd.date| >= 1 && AllDigits(fd.date) && AllDigits(fd.time) && |fd.extension| == 3
  }

  /** Where the characters of a plain name sit. */
  lemma PlainLayout(fd: FileDescriptor, rest: string)
    requires Plain(fd)
    ensures var name, n := fd.Render() + rest, |fd.dataName|;
      && |name| >= n + 10
      && (forall k :: 0 <= k < n ==> name[k] == fd.dataName[k])
      && name[n] == '_' && name[n + 4] == '_' && name[n + 8] == '_'
      && IsLetter(name[n + 1]) && IsLetter(name[n + 2]) && IsLetter(name[n + 3])
      && IsLetter(name[n + 5]) && IsLetter(name[n + 6]) && IsLetter(name[n + 7])
      && IsDigit(name[n + 9])
  {
    var name, n := fd.Render() + rest, |fd.dataName|;
    AfterLabelLayout(fd);
    var a := fd.AfterLabel();
    assert name == fd.dataName + (a + rest);
    assert a[9] == fd.date[0] by {
      assert a[9..][0] == fd.FromDate()[0];
    }
    assert a[1..4][0] == a[1] && a[1..4][1] == a[2] && a[1..4][2] == a[3];
    assert a[5..8][0] == a[5] && a[5..8][1] == a[6] && a[5..8][2] == a[7];
  }

  /** With letters up to position `n`, '_' at `n`, `n + 4` and `n + 8`, letters between them and a
      digit at `n + 9`, the label cannot end anywhere but at `n`: a shorter label leaves a letter
      where '_' must be, and a longer one either misplaces a code or swallows the digit. */
  lemma LabelCannotEndElsewhere(name: string, n: nat, i: nat)
    requires |name| >= n + 10 && 1 <= i < |name| && i != n
    requires forall k :: 0 <= k < n ==> IsLetter(name[k])
    requires name[n] == '_' && name[n + 4] == '_' && name[n + 8] == '_'
    requires IsLetter(name[n + 1]) && IsLetter(name[n + 2]) && IsLetter(name[n + 3])
    requires IsLetter(name[n + 5]) && IsLetter(name[n + 6]) && IsLetter(name[n + 7])
    requires IsDigit(name[n + 9])
    ensures !(AllLabelChars(name[..i]) && MatchesAfterLabel(name[i..]))
  {
    var t := name[i..];
    if i < n + 4 || n + 4 < i < n + 8 || i == n + 9 {
      assert t[0] == name[i];
    } else if i == n + 4 {
      if |t| >= 9 {
        assert t[5..8][0] == name[n + 9];
      }
    } else if i == n + 8 {
      if |t| >= 9 {
        assert t[1..4][0] == name[n + 9];
      }
    } else {
      assert name[..i][n + 9] == name[n + 9];
    }
  }

  /** In a plain name the label cannot end anywhere but at its first '_'. */
  lemma LabelEndsAtFirstUnderscore(fd: FileDescriptor, rest: string, i: nat)
    requires Plain(fd)
    requires 1 <= i < |fd.Render() + rest| && i != |fd.dataName|
    ensures !(AllLabelChars((fd.Render() + rest)[..i]) && MatchesAfterLabel((fd.Render() + rest)[i..]))
  {
    PlainLayout(fd, rest);
    LabelCannotEndElsewhere(fd.Render() + rest, |fd.dataName|, i);
  }

  /** A name whose label is made of letters only and whose date and time are made of digits only
      can be read in one way alone, so it is accepted exactly when its segments are valid. */
  lemma PlainNameDecided(fd: FileDescriptor, rest: string)
    requires Plain(fd)
    ensures MatchesNamePattern(fd.Render() + rest) <==> fd.Valid()
  {
    var name := fd.Render() + rest;
    var n := |fd.dataName|;
    AfterLabelLayout(fd);
    assert name[..n] == fd.dataName;
    assert name[n..] == fd.AfterLabel() + rest;
    AfterLabelDecided(fd, rest);
    if fd.Valid() {
      AcceptsValidPrefix(fd, name);
    }
    forall i | 1 <= i < |name| && i != n
      ensures !(AllLabelChars(name[..i]) && MatchesAfterLabel(name[i..]))
    {
      LabelEndsAtFirstUnderscore(fd, rest, i);
    }
  }

  lemma FlightNamePlain(date: string)
    requires |date| == 8 && AllDigits(date)
    ensures Plain(FileDescriptor("flight", "IND", "SGP", date, "235959", "csv"))
    ensures AllLabelChars("flight") && IsTime("235959")
  {
    assert IsTime("235959") by { TimeExamples(); }
    forall k | 0 <= k < 6 ensures IsLetter("flight"[k]) && IsDigit("235959"[k]) {
      assert k == 0 || k == 1 || k == 2 || k == 3 || k == 4 || k == 5;
    }
  }

  lemma FlightNameRendered(date: string)
    ensures FileDescriptor("flight", "IND", "SGP", date, "235959", "csv").Render() + "" == "flight_IND_SGP_" + date + "_235959.csv"
  {
  }

  /** A flight file of a given digit date is accepted exactly when the date is. */
  lemma FlightNameDecided(date: string)
    requires |date| == 8 && AllDigits(date)
    ensures MatchesNamePattern("flight_IND_SGP_" + date + "_235959.csv") <==> IsDate(date)
  {
    var fd := FileDescriptor("flight", "IND", "SGP", date, "235959", "csv");
    FlightNameRendered(date);
    FlightNamePlain(date);
    PlainNameDecided(fd, "");
  }

  /** The leap-day file of 2024 is accepted. */
  lemma LeapDayNameAccepted()
    ensures MatchesNamePattern("flight_IND_SGP_20240229_235959.csv")
  {
    assert "flight_IND_SGP_" + "20240229" + "_235959.csv" == "flight_IND_SGP_20240229_235959.csv";
    assert IsDate("20240229") by { LeapDayExamples(); }
    FlightNameDecided("20240229");
  }

  /** The same name dated 29 February 2023 is rejected, though its other segments are valid. */
  lemma LeapDayNameRejected()
    ensures !MatchesNamePattern("flight_IND_SGP_20230229_235959.csv")
  {
    assert "flight_IND_SGP_" + "20230229" + "_235959.csv" == "flight_IND_SGP_20230229_235959.csv";
    assert !IsDate("20230229") by { LeapDayExamples(); }
    FlightNameDecided("20230229");
  }
}
