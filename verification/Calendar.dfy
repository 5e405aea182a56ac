/** Day counts since 1970-01-01 as calendar dates of the Gregorian calendar. */
module Calendar {

  datatype Date = Date(year: nat, month: nat, day: nat)

  predicate IsLeap(y: nat) {
    (y % 4 == 0 && y % 100 != 0) || y % 400 == 0
  }

  function DaysInYear(y: nat): nat {
    if IsLeap(y) then 366 else 365
  }

  function MonthLengths(leap: bool): (lengths: seq<nat>)
    ensures |lengths| == 12
  {
    if leap then [31, 29, 31, 30, 31, 30, 31, 31, 30, 31, 30, 31]
    else [31, 28, 31, 30, 31, 30, 31, 31, 30, 31, 30, 31]
  }

  function DaysInMonth(y: nat, m: nat): nat
    requires 1 <= m <= 12
  {
    MonthLengths(IsLeap(y))[m - 1]
  }

  predicate Valid(d: Date) {
    d.year >= 1970 && 1 <= d.month <= 12 && 1 <= d.day <= DaysInMonth(d.year, d.month)
  }

  /** The leap years from year 1 to `y`, by the Gregorian rule. */
  function LeapsThrough(y: nat): int {
    y / 4 - y / 100 + y / 400
  }

  /** The day number of the first of January, in closed form. */
  function YearStart(y: nat): int
    requires y >= 1
  {
    365 * (y - 1970) + LeapsThrough(y - 1) - LeapsThrough(1969)
  }

  /** The days of a year before the first of month `m`, in closed form: months
  alternate around 30.6 days from March on. */
  function MonthStart(leap: bool, m: nat): int
    requires 1 <= m <= 13
  {
    if m == 1 then 0
    else if m == 2 then 31
    else (153 * (m - 3) + 2) / 5 + (if leap then 60 else 59)
  }

  /** The closed-form day number of a date. */
  function DayNumber(d: Date): int
    requires d.year >= 1 && 1 <= d.month <= 12
  {
    YearStart(d.year) + MonthStart(IsLeap(d.year), d.month) + d.day - 1
  }

  /** The rules nest: a multiple of 400 is one of 100, and that is one of 4. */
  lemma LeapRulesNest(y: nat)
    ensures y % 400 == 0 ==> y % 100 == 0
    ensures y % 100 == 0 ==> y % 4 == 0
  {
    assert y % 400 == 0 ==> y == 100 * (4 * (y / 400));
    assert y % 100 == 0 ==> y == 4 * (25 * (y / 100));
  }

  lemma QuotientSteps(y: nat)
    requires y >= 1
    ensures y / 4 == (y - 1) / 4 + (if y % 4 == 0 then 1 else 0)
    ensures y / 100 == (y - 1) / 100 + (if y % 100 == 0 then 1 else 0)
    ensures y / 400 == (y - 1) / 400 + (if y % 400 == 0 then 1 else 0)
  {
  }

  lemma YearLength(y: nat)
    requires y >= 1
    ensures YearStart(y + 1) == YearStart(y) + DaysInYear(y)
  {
    LeapRulesNest(y);
    QuotientSteps(y);
    assert LeapsThrough(y) == LeapsThrough(y - 1) + (if IsLeap(y) then 1 else 0);
  }

  lemma MonthLength(leap: bool, m: nat)
    requires 1 <= m <= 12
    ensures MonthStart(leap, m + 1) == MonthStart(leap, m) + MonthLengths(leap)[m - 1]
  {
  }

  lemma YearEnds(leap: bool)
    ensures MonthStart(leap, 13) == if leap then 366 else 365
  {
  }

  method DaysToYmd(total: nat) returns (date: Date)
    ensures Valid(date) && DayNumber(date) == total
  {
    var days: nat, year: nat := total, 1970;
    while days >= DaysInYear(year)
      invariant year >= 1970 && YearStart(year) + days == total
      decreases days
    {
      YearLength(year);
      days := days - DaysInYear(year);
      year := year + 1;
    }
    var leap := IsLeap(year);
    var lengths := MonthLengths(leap);
    YearEnds(leap);
    var month: nat := 1;
    while month <= 12 && days >= lengths[month - 1]
      invariant 1 <= month <= 13 && YearStart(year) + MonthStart(leap, month) + days == total
      invariant MonthStart(leap, month) + days < DaysInYear(year)
      decreases days, 13 - month
    {
      MonthLength(leap, month);
      days := days - lengths[month - 1];
      month := month + 1;
    }
    date := Date(year, month, days + 1);
  }

  ghost predicate Before(a: Date, b: Date) {
    || a.year < b.year
    || (a.year == b.year && a.month < b.month)
    || (a.year == b.year && a.month == b.month && a.day < b.day)
  }

  lemma {:induction false} YearsAdvance(y: nat, z: nat)
    requires 1 <= y < z
    ensures YearStart(y) + DaysInYear(y) <= YearStart(z)
    decreases z
  {
    YearLength(z - 1);
    if y == z - 1 {
    } else {
      YearsAdvance(y, z - 1);
    }
  }

  lemma {:induction false} MonthsAdvance(leap: bool, m: nat, n: nat)
    requires 1 <= m < n <= 13
    ensures MonthStart(leap, m) + MonthLengths(leap)[m - 1] <= MonthStart(leap, n)
    decreases n
  {
    MonthLength(leap, n - 1);
    if m == n - 1 {
    } else {
      MonthsAdvance(leap, m, n - 1);
    }
  }

  lemma DateInsideYear(d: Date)
    requires Valid(d)
    ensures YearStart(d.year) <= DayNumber(d) < YearStart(d.year) + DaysInYear(d.year)
  {
    var leap := IsLeap(d.year);
    YearEnds(leap);
    MonthsAdvance(leap, d.month, 13);
  }

  lemma EarlierDateEarlierDay(a: Date, b: Date)
    requires Valid(a) && Valid(b) && Before(a, b)
    ensures DayNumber(a) < DayNumber(b)
  {
    DateInsideYear(a);
    DateInsideYear(b);
    if a.year < b.year {
      YearsAdvance(a.year, b.year);
    } else if a.month < b.month {
      MonthsAdvance(IsLeap(a.year), a.month, b.month);
    }
  }

  /** Day numbers order dates, and a valid date is the only one with its number. */
  lemma DayNumberOrdersDates(a: Date, b: Date)
    requires Valid(a) && Valid(b)
    ensures DayNumber(a) < DayNumber(b) <==> Before(a, b)
    ensures DayNumber(a) == DayNumber(b) <==> a == b
    ensures DayNumber(a) >= 0
  {
    DateInsideYear(a);
    if a.year > 1970 {
      YearsAdvance(1970, a.year);
    }
    if Before(a, b) {
      EarlierDateEarlierDay(a, b);
    } else if Before(b, a) {
      EarlierDateEarlierDay(b, a);
    }
  }

  /** Known days: the epoch, both kinds of century, a leap day and the ends of a leap year. */
  lemma KnownDays()
    ensures DayNumber(Date(1970, 1, 1)) == 0
    ensures DayNumber(Date(2000, 2, 29)) == 11016 && Valid(Date(2000, 2, 29))
    ensures DayNumber(Date(2024, 1, 1)) == 19723 && DayNumber(Date(2024, 12, 31)) == 20088
    ensures DayNumber(Date(2100, 3, 1)) == 47541 && !Valid(Date(2100, 2, 29))
  {
  }

  datatype Timestamp = Timestamp(date: Date, hour: nat, minute: nat, second: nat)

  ghost predicate ValidTime(t: Timestamp) {
    Valid(t.date) && t.hour < 24 && t.minute < 60 && t.second < 60
  }

  function SecondsAt(t: Timestamp): int
    requires ValidTime(t)
  {
    ((DayNumber(t.date) * 24 + t.hour) * 60 + t.minute) * 60 + t.second
  }

  lemma QuotientsNest(secs: nat)
    ensures secs / 3600 == (secs / 60) / 60
    ensures secs / 86400 == (secs / 3600) / 24
  {
  }

  lemma FieldsRecombine(secs: nat)
    ensures ((secs / 86400 * 24 + (secs / 3600) % 24) * 60 + (secs / 60) % 60) * 60 + secs % 60 == secs
  {
    QuotientsNest(secs);
    var minutes, hours := secs / 60, secs / 3600;
    assert hours / 24 * 24 + hours % 24 == hours;
    assert minutes / 60 * 60 + minutes % 60 == minutes;
  }

  /** The fields of the report's timestamp determine its second, and are all in range. */
  method TimestampAt(secs: nat) returns (t: Timestamp)
    ensures ValidTime(t) && SecondsAt(t) == secs
  {
    var second, minute := secs % 60, (secs / 60) % 60;
    var hour, days := (secs / 3600) % 24, secs / 86400;
    var date := DaysToYmd(days);
    FieldsRecombine(secs);
    t := Timestamp(date, hour, minute, second);
  }
}
