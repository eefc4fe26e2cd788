/**
  The two input validators of the bot (`is_valid_time`, `is_valid_date`) and the
  date rendering used for a new session's default date (`format_date_local`).
 */
module Validators {
  import opened Wrappers
  import opened Text
  import opened Numerals

  // ---------------------------------------------------------------- times

  /**
    `is_valid_time`: the anchored pattern `([01]\d|2[0-3]):[0-5]\d`, one
    alternative per disjunct, with ASCII digits.
   */
  predicate IsValidTime(s: string) {
    && |s| == 5
    && (|| ((s[0] == '0' || s[0] == '1') && IsDigit(s[1]))
        || (s[0] == '2' && '0' <= s[1] <= '3'))
    && s[2] == ':'
    && '0' <= s[3] <= '5'
    && IsDigit(s[4])
  }

  /** A reading of a 24-hour clock: hour below 24 and minute below 60, each as two digits. */
  predicate IsClockTime(s: string) {
    && |s| == 5
    && s[2] == ':'
    && AllDigits(s[..2]) && AllDigits(s[3..])
    && DigitsValue(s[..2]) < 24
    && DigitsValue(s[3..]) < 60
  }

  lemma OneDigitValue(t: string)
    requires |t| == 1 && AllDigits(t)
    ensures DigitsValue(t) == DigitValue(t[0])
  {
    assert t[..0] == "";
  }

  lemma TwoDigitValue(t: string)
    requires |t| == 2 && AllDigits(t)
    ensures DigitsValue(t) == 10 * DigitValue(t[0]) + DigitValue(t[1])
  {
    var p := t[..1];
    OneDigitValue(p);
    assert DigitsValue(t) == DigitsValue(p) * 10 + DigitValue(t[1]);
  }

  /** The pattern accepts exactly the clock readings. */
  lemma ValidTimeIsClockTime(s: string)
    ensures IsValidTime(s) <==> IsClockTime(s)
  {
    if |s| == 5 && AllDigits(s[..2]) && AllDigits(s[3..]) {
      TwoDigitValue(s[..2]);
      TwoDigitValue(s[3..]);
    }
  }

  function Hour(s: string): (h: nat)
    requires IsValidTime(s)
    ensures h < 24
  {
    ValidTimeIsClockTime(s);
    DigitsValue(s[..2])
  }

  function Minute(s: string): (m: nat)
    requires IsValidTime(s)
    ensures m < 60
  {
    ValidTimeIsClockTime(s);
    DigitsValue(s[3..])
  }

  /** Minutes since midnight of a valid time. */
  function MinuteOfDay(s: string): (m: nat)
    requires IsValidTime(s)
    ensures m < 24 * 60
  {
    Hour(s) * 60 + Minute(s)
  }

  function TwoDigits(n: nat): (r: string)
    requires n < 100
    ensures |r| == 2 && AllDigits(r) && DigitsValue(r) == n
  {
    var r := [DigitChar(n / 10), DigitChar(n % 10)];
    TwoDigitValue(r);
    r
  }

  /** `f"{h:02d}:{m:02d}"`: the zero-padded rendering the pattern expects. */
  function FormatTime(h: nat, m: nat): (r: string)
    requires h < 24 && m < 60
    ensures IsValidTime(r)
    ensures Hour(r) == h && Minute(r) == m
  {
    var r := TwoDigits(h) + ":" + TwoDigits(m);
    assert r[..2] == TwoDigits(h) && r[3..] == TwoDigits(m);
    ValidTimeIsClockTime(r);
    r
  }

  /** Every accepted time is the zero-padded rendering of its own hour and minute. */
  lemma ValidTimeIsFormatted(s: string)
    requires IsValidTime(s)
    ensures s == FormatTime(Hour(s), Minute(s))
  {
    var r := FormatTime(Hour(s), Minute(s));
    TwoDigitValue(s[..2]);
    TwoDigitValue(s[3..]);
    TwoDigitValue(r[..2]);
    TwoDigitValue(r[3..]);
    assert r[0] == s[0] && r[1] == s[1] && r[3] == s[3] && r[4] == s[4];
  }

  /** Definition of `StrLess` on non-empty strings, one step. */
  lemma StrLessStep(a: string, b: string)
    requires |a| > 0 && |b| > 0
    ensures StrLess(a, b) <==> a[0] < b[0] || (a[0] == b[0] && StrLess(a[1..], b[1..]))
  {
  }

  /** String order on two five-character strings that agree at position 2 skips that position. */
  lemma StrLessFive(a: string, b: string)
    requires |a| == 5 && |b| == 5 && a[2] == b[2]
    ensures StrLess(a, b) <==>
      || a[0] < b[0]
      || (a[0] == b[0] && a[1] < b[1])
      || (a[0] == b[0] && a[1] == b[1] && a[3] < b[3])
      || (a[0] == b[0] && a[1] == b[1] && a[3] == b[3] && a[4] < b[4])
  {
    StrLessStep(a, b);
    StrLessStep(a[1..], b[1..]);
    assert a[1..][1..] == a[2..] && b[1..][1..] == b[2..];
    StrLessStep(a[2..], b[2..]);
    assert a[2..][1..] == a[3..] && b[2..][1..] == b[3..];
    StrLessStep(a[3..], b[3..]);
    assert a[3..][1..] == a[4..] && b[3..][1..] == b[4..];
    StrLessStep(a[4..], b[4..]);
    assert a[4..][1..] == "" && b[4..][1..] == "";
  }

  lemma PlaceValue10(x1: int, y1: int, x2: int, y2: int)
    requires 0 <= y1 < 10 && 0 <= y2 < 10
    ensures 10 * x1 + y1 < 10 * x2 + y2 <==> x1 < x2 || (x1 == x2 && y1 < y2)
  {
  }

  lemma PlaceValue60(x1: int, y1: int, x2: int, y2: int)
    requires 0 <= y1 < 60 && 0 <= y2 < 60
    ensures x1 * 60 + y1 < x2 * 60 + y2 <==> x1 < x2 || (x1 == x2 && y1 < y2)
  {
  }

  /** The hour and minute of a valid time, digit by digit. */
  lemma ClockDigits(s: string)
    requires IsValidTime(s)
    ensures Hour(s) == 10 * DigitValue(s[0]) + DigitValue(s[1])
    ensures Minute(s) == 10 * DigitValue(s[3]) + DigitValue(s[4])
  {
    TwoDigitValue(s[..2]);
    TwoDigitValue(s[3..]);
  }

  /**
    Because accepted times are zero-padded, comparing them as strings (as the
    entries query does) is the same as comparing them on the clock.
   */
  lemma TimeOrderIsChronological(a: string, b: string)
    requires IsValidTime(a) && IsValidTime(b)
    ensures StrLess(a, b) <==> MinuteOfDay(a) < MinuteOfDay(b)
  {
    ClockDigits(a);
    ClockDigits(b);
    StrLessFive(a, b);
    PlaceValue10(DigitValue(a[0]), DigitValue(a[1]), DigitValue(b[0]), DigitValue(b[1]));
    PlaceValue10(DigitValue(a[3]), DigitValue(a[4]), DigitValue(b[3]), DigitValue(b[4]));
    PlaceValue60(Hour(a), Minute(a), Hour(b), Minute(b));
  }

  /** Distinct accepted times are distinct clock readings. */
  lemma TimeEqualityIsChronological(a: string, b: string)
    requires IsValidTime(a) && IsValidTime(b)
    ensures a == b <==> MinuteOfDay(a) == MinuteOfDay(b)
  {
    TimeOrderIsChronological(a, b);
    TimeOrderIsChronological(b, a);
    StrLessTrichotomy(a, b);
    StrLessIrreflexive(a);
  }

  lemma TimeExamples()
    ensures IsValidTime("09:30") && IsValidTime("14:00") && IsValidTime("23:59")
    ensures !IsValidTime("9:30") && !IsValidTime("24:00") && !IsValidTime("12:60")
  {
  }

  // ---------------------------------------------------------------- dates

  /** A (day, month, year) triple; `IsCalendarDate` is what Python's `datetime.date` admits. */
  datatype Date = Date(day: nat, month: nat, year: nat)

  /** Proleptic Gregorian leap years, as `datetime` uses. */
  predicate IsLeapYear(y: nat) {
    y % 4 == 0 && (y % 100 != 0 || y % 400 == 0)
  }

  function DaysInMonth(month: nat, year: nat): (n: nat)
    requires 1 <= month <= 12
    ensures 28 <= n <= 31
  {
    if month == 2 then (if IsLeapYear(year) then 29 else 28)
    else if month == 4 || month == 6 || month == 9 || month == 11 then 30
    else 31
  }

  predicate IsCalendarDate(d: Date) {
    && 1 <= d.year <= 9999
    && 1 <= d.month <= 12
    && 1 <= d.day <= DaysInMonth(d.month, d.year)
  }

  /** The values `datetime.date.today()` can take. */
  type CalendarDate = d: Date | IsCalendarDate(d) witness Date(1, 1, 2000)

  /** The `%d` directive of `strptime`: `3[01]|[12]\d|0[1-9]|[1-9]`. */
  predicate DayField(f: string) {
    || (|f| == 2 && f[0] == '3' && (f[1] == '0' || f[1] == '1'))
    || (|f| == 2 && (f[0] == '1' || f[0] == '2') && IsDigit(f[1]))
    || (|f| == 2 && f[0] == '0' && '1' <= f[1] <= '9')
    || (|f| == 1 && '1' <= f[0] <= '9')
  }

  /** The `%m` directive of `strptime`: `1[0-2]|0[1-9]|[1-9]`. */
  predicate MonthField(f: string) {
    || (|f| == 2 && f[0] == '1' && '0' <= f[1] <= '2')
    || (|f| == 2 && f[0] == '0' && '1' <= f[1] <= '9')
    || (|f| == 1 && '1' <= f[0] <= '9')
  }

  /** The `%Y` directive of `strptime`: exactly four digits. */
  predicate YearField(f: string) {
    |f| == 4 && AllDigits(f)
  }

  /** `%d` accepts one or two digits denoting 1 to 31, leading zero allowed. */
  lemma DayFieldMeaning(f: string)
    ensures DayField(f) <==> 1 <= |f| <= 2 && AllDigits(f) && 1 <= DigitsValue(f) <= 31
  {
    if |f| == 2 && AllDigits(f) {
      TwoDigitValue(f);
    } else if |f| == 1 && AllDigits(f) {
      OneDigitValue(f);
    }
  }

  /** `%m` accepts one or two digits denoting 1 to 12, leading zero allowed. */
  lemma MonthFieldMeaning(f: string)
    ensures MonthField(f) <==> 1 <= |f| <= 2 && AllDigits(f) && 1 <= DigitsValue(f) <= 12
  {
    if |f| == 2 && AllDigits(f) {
      TwoDigitValue(f);
    } else if |f| == 1 && AllDigits(f) {
      OneDigitValue(f);
    }
  }

  /**
    `datetime.datetime.strptime(s, "%d-%m-%Y")`, `None` where it raises `ValueError`:
    the three directives separated by `-` must cover the whole string, then the
    date constructor rejects year 0 and a day past the end of the month.
   */
  function ParseDate(s: string): (r: Option<Date>)
    ensures r.Some? ==> IsCalendarDate(r.value)
    ensures r.Some? ==> |SplitOn(s, '-')| == 3 && YearField(SplitOn(s, '-')[2])
  {
    var fs := SplitOn(s, '-');
    if |fs| == 3 && DayField(fs[0]) && MonthField(fs[1]) && YearField(fs[2]) then
      MonthFieldMeaning(fs[1]);
      var d := Date(DigitsValue(fs[0]), DigitsValue(fs[1]), DigitsValue(fs[2]));
      if 1 <= d.year && d.day <= DaysInMonth(d.month, d.year) then
        DayFieldMeaning(fs[0]);
        DigitsValueBound(fs[2]);
        Some(d)
      else None
    else None
  }

  /** `is_valid_date`. */
  predicate IsValidDate(s: string) {
    ParseDate(s).Some?
  }

  /** `format_date_local`: `f"{day}-{month}-{year}"`, no zero padding. */
  function FormatDate(d: CalendarDate): string {
    NatToString(d.day) + "-" + NatToString(d.month) + "-" + NatToString(d.year)
  }

  function FourDigits(n: nat): (r: string)
    requires n < 10000
    ensures YearField(r) && DigitsValue(r) == n
  {
    var r := TwoDigits(n / 100) + TwoDigits(n % 100);
    assert r[..3][..2] == r[..2] == TwoDigits(n / 100);
    TwoDigitValue(TwoDigits(n / 100));
    TwoDigitValue(TwoDigits(n % 100));
    assert DigitsValue(r[..2]) == n / 100;
    assert DigitsValue(r[..3]) == DigitsValue(r[..2]) * 10 + DigitValue(r[2]);
    r
  }

  /** `f"{day:02d}-{month:02d}-{year:04d}"`. */
  function PaddedDate(d: CalendarDate): string {
    TwoDigits(d.day) + "-" + TwoDigits(d.month) + "-" + FourDigits(d.year)
  }

  /**
    SQLite's `CURRENT_DATE`: `YYYY-MM-DD`, zero-padded. `CalendarDate` years
    stop at 9999, as SQLite's date functions do.
   */
  function IsoDate(d: CalendarDate): (r: string)
    ensures |r| == 10 && r[4] == '-' && r[7] == '-'
  {
    FourDigits(d.year) + "-" + TwoDigits(d.month) + "-" + TwoDigits(d.day)
  }

  /** The three fields of SQLite's date read back as its year, month and day. */
  lemma IsoDateFields(d: CalendarDate)
    ensures var fs := SplitOn(IsoDate(d), '-');
      && |fs| == 3 && |fs[0]| == 4 && |fs[1]| == 2 && |fs[2]| == 2
      && AllDigits(fs[0]) && AllDigits(fs[1]) && AllDigits(fs[2])
      && DigitsValue(fs[0]) == d.year && DigitsValue(fs[1]) == d.month && DigitsValue(fs[2]) == d.day
  {
    var a, b, c := FourDigits(d.year), TwoDigits(d.month), TwoDigits(d.day);
    DigitsHaveNoDash(a);
    DigitsHaveNoDash(b);
    DigitsHaveNoDash(c);
    JoinThree(a, b, c);
    SplitJoinOn([a, b, c], '-');
  }

  /** Distinct dates have distinct SQLite renderings. */
  lemma IsoDateInjective(d: CalendarDate, e: CalendarDate)
    ensures IsoDate(d) == IsoDate(e) <==> d == e
  {
    IsoDateFields(d);
    IsoDateFields(e);
  }

  /**
    SQLite's date never passes `is_valid_date`: its first field has four
    digits, and `%d` takes at most two.
   */
  lemma IsoDateNeverValid(d: CalendarDate)
    ensures !IsValidDate(IsoDate(d))
  {
    IsoDateFields(d);
  }

  /** SQLite's date and `format_date_local` never render any two dates as the same string. */
  lemma IsoDateIsNotLocal(u: CalendarDate, t: CalendarDate)
    ensures IsoDate(u) != FormatDate(t)
  {
    IsoDateFields(u);
    var a, b, c := NatToString(t.day), NatToString(t.month), NatToString(t.year);
    DigitsHaveNoDash(a);
    DigitsHaveNoDash(b);
    DigitsHaveNoDash(c);
    JoinThree(a, b, c);
    SplitJoinOn([a, b, c], '-');
    NatToStringLength(t.day);
  }

  /** A non-empty string of digits and dashes is one `split()` token. */
  lemma DateShapedIsToken(s: string)
    requires |s| > 0 && forall i :: 0 <= i < |s| ==> IsDigit(s[i]) || s[i] == '-'
    ensures IsToken(s)
  {
    forall i | 0 <= i < |s|
      ensures !IsSpace(s[i])
    {
    }
  }

  lemma DigitsHaveNoDash(s: string)
    requires AllDigits(s)
    ensures '-' !in s
  {
    forall i | 0 <= i < |s|
      ensures s[i] != '-'
    {
    }
  }

  lemma JoinThree(a: string, b: string, c: string)
    ensures JoinOn([a, b, c], '-') == a + "-" + b + "-" + c
  {
    assert [a, b, c][1..] == [b, c];
    assert [b, c][1..] == [c];
    assert JoinOn([b, c], '-') == b + "-" + c;
    assert JoinOn([a, b, c], '-') == a + "-" + (b + "-" + c);
  }

  /** The parser reads back the fields of a dash-joined triple of numerals. */
  lemma ParseJoinedFields(a: string, b: string, c: string, d: CalendarDate)
    requires AllDigits(a) && AllDigits(b) && YearField(c)
    requires 1 <= |a| <= 2 && 1 <= |b| <= 2
    requires DigitsValue(a) == d.day && DigitsValue(b) == d.month && DigitsValue(c) == d.year
    ensures ParseDate(a + "-" + b + "-" + c) == Some(d)
  {
    var s := a + "-" + b + "-" + c;
    DigitsHaveNoDash(a);
    DigitsHaveNoDash(b);
    DigitsHaveNoDash(c);
    JoinThree(a, b, c);
    SplitJoinOn([a, b, c], '-');
    DayFieldMeaning(a);
    MonthFieldMeaning(b);
  }

  /**
    The default session date is always accepted by the date validator once the
    year has four digits, and it denotes the same day it was rendered from.
   */
  lemma FormatDateRoundTrip(d: CalendarDate)
    requires d.year >= 1000
    ensures ParseDate(FormatDate(d)) == Some(d)
    ensures IsValidDate(FormatDate(d))
  {
    NatToStringLength(d.day);
    NatToStringLength(d.month);
    NatToStringLength(d.year);
    ParseJoinedFields(NatToString(d.day), NatToString(d.month), NatToString(d.year), d);
  }

  /** Before year 1000 the unpadded year has fewer than four digits and `%Y` refuses it. */
  lemma FormatDateValidIff(d: CalendarDate)
    ensures IsValidDate(FormatDate(d)) <==> d.year >= 1000
  {
    if d.year >= 1000 {
      FormatDateRoundTrip(d);
    } else {
      var a, b, c := NatToString(d.day), NatToString(d.month), NatToString(d.year);
      DigitsHaveNoDash(a);
      DigitsHaveNoDash(b);
      DigitsHaveNoDash(c);
      JoinThree(a, b, c);
      SplitJoinOn([a, b, c], '-');
      NatToStringLength(d.year);
    }
  }

  /** Parsing is numeric: the zero-padded spelling of a date denotes the same date. */
  lemma PaddedDateParses(d: CalendarDate)
    ensures ParseDate(PaddedDate(d)) == Some(d)
  {
    ParseJoinedFields(TwoDigits(d.day), TwoDigits(d.month), FourDigits(d.year), d);
  }

  /** The parser on a literal `a-b-c`: the directives, then the calendar. */
  lemma ParseDateFields(a: string, b: string, c: string)
    requires '-' !in a && '-' !in b && '-' !in c
    ensures IsValidDate(a + "-" + b + "-" + c) <==>
      && DayField(a) && MonthField(b) && YearField(c)
      && (MonthFieldMeaning(b);
          1 <= DigitsValue(c) && DigitsValue(a) <= DaysInMonth(DigitsValue(b), DigitsValue(c)))
  {
    JoinThree(a, b, c);
    SplitJoinOn([a, b, c], '-');
  }

  /** A four-digit numeral, read digit by digit. */
  lemma FourDigitValue(t: string)
    requires YearField(t)
    ensures DigitsValue(t) == 1000 * DigitValue(t[0]) + 100 * DigitValue(t[1]) + 10 * DigitValue(t[2]) + DigitValue(t[3])
  {
    var p := t[..3];
    assert p[..2] == t[..2];
    TwoDigitValue(t[..2]);
    assert DigitsValue(p) == DigitsValue(t[..2]) * 10 + DigitValue(t[2]);
  }

  /** 29 February is a valid date exactly in leap years. */
  lemma LeapDay(c: string)
    requires YearField(c) && DigitsValue(c) >= 1
    ensures IsValidDate("29-2-" + c) <==> IsLeapYear(DigitsValue(c))
  {
    var a, b := "29", "2";
    OneDigitValue(b);
    TwoDigitValue(a);
    DigitsHaveNoDash(c);
    ParseDateFields(a, b, c);
    assert "29-2-" + c == a + "-" + b + "-" + c;
  }

  lemma LeapYearExamples()
    ensures IsLeapYear(2024) && IsLeapYear(2000) && !IsLeapYear(2025) && !IsLeapYear(1900)
  {
  }

  /** April has 30 days. */
  lemma DateExampleMonthLength()
    ensures !IsValidDate("31-4-2025")
    ensures !IsValidDate("31-2-2025")
  {
    var a, b, c := "31", "4", "2025";
    FourDigitValue(c);
    OneDigitValue(b);
    TwoDigitValue(a);
    ParseDateFields(a, b, c);
    assert "31-4-2025" == a + "-" + b + "-" + c;
    var f := "2";
    OneDigitValue(f);
    ParseDateFields(a, f, c);
    assert "31-2-2025" == a + "-" + f + "-" + c;
  }

  lemma DateExampleUnpadded()
    ensures IsValidDate("15-3-2025")
  {
    var a, b, c := "15", "3", "2025";
    FourDigitValue(c);
    OneDigitValue(b);
    TwoDigitValue(a);
    ParseDateFields(a, b, c);
    assert "15-3-2025" == a + "-" + b + "-" + c;
  }

  lemma DateExamplePadded()
    ensures IsValidDate("05-03-2025")
  {
    var a, b, c := "05", "03", "2025";
    FourDigitValue(c);
    TwoDigitValue(b);
    TwoDigitValue(a);
    ParseDateFields(a, b, c);
    assert "05-03-2025" == a + "-" + b + "-" + c;
  }

  lemma DateExampleSyntax()
    ensures !IsValidDate("15-13-2025") && !IsValidDate("abc")
  {
    var a, b, c := "15", "13", "2025";
    ParseDateFields(a, b, c);
    assert "15-13-2025" == a + "-" + b + "-" + c;
    SplitOnWhole("abc", '-');
  }
}
