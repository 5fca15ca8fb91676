/**
  Calendar days for the export: the inclusive run of days between the chosen
  start and end dates (`getDatesInRange`) and their `DD.MM.YYYY` labels
  (`formatDate`). A day is a proleptic Gregorian (year, month, day) triple;
  stepping to the next day is what `setDate(getDate() + 1)` does.
 */
module Calendar {
  import opened Results
  import opened Text

  datatype Date = Date(year: int, month: int, day: int)

  predicate IsLeapYear(y: int) {
    y % 4 == 0 && (y % 100 != 0 || y % 400 == 0)
  }

  function DaysInMonth(y: int, m: int): (n: int)
    requires 1 <= m <= 12
    ensures 28 <= n <= 31
  {
    if m == 2 then (if IsLeapYear(y) then 29 else 28)
    else if m == 4 || m == 6 || m == 9 || m == 11 then 30
    else 31
  }

  predicate ValidDate(d: Date) {
    1 <= d.year && 1 <= d.month <= 12 && 1 <= d.day <= DaysInMonth(d.year, d.month)
  }

  /** A date a date input can hold. */
  type CalendarDate = d: Date | ValidDate(d) witness Date(1, 1, 1)

  function YearLength(y: int): int {
    if IsLeapYear(y) then 366 else 365
  }

  /** Days in the years before `y`, counting from year 1. */
  function DaysBeforeYear(y: int): nat
    requires y >= 1
  {
    if y == 1 then 0 else DaysBeforeYear(y - 1) + YearLength(y - 1)
  }

  /** Days in the months of year `y` before month `m`. */
  function DaysBeforeMonth(y: int, m: int): (n: nat)
    requires 1 <= m <= 12
    ensures n + DaysInMonth(y, m) <= YearLength(y)
    ensures m == 12 ==> n + DaysInMonth(y, m) == YearLength(y)
  {
    var leap := if IsLeapYear(y) then 1 else 0;
    match m
    case 1 => 0
    case 2 => 31
    case 3 => 59 + leap
    case 4 => 90 + leap
    case 5 => 120 + leap
    case 6 => 151 + leap
    case 7 => 181 + leap
    case 8 => 212 + leap
    case 9 => 243 + leap
    case 10 => 273 + leap
    case 11 => 304 + leap
    case _ => 334 + leap
  }

  /** Each month begins where the previous one ends. */
  lemma MonthsAdjacent(y: int, m: int)
    requires 1 <= m < 12
    ensures DaysBeforeMonth(y, m + 1) == DaysBeforeMonth(y, m) + DaysInMonth(y, m)
  {
  }

  /** Each year begins where the previous one ends. */
  lemma YearsAdjacent(y: int)
    requires y >= 1
    ensures DaysBeforeYear(y + 1) == DaysBeforeYear(y) + DaysBeforeMonth(y, 12) + DaysInMonth(y, 12)
  {
  }

  /** Position of a date on a single day axis (0001-01-01 is day 0). JavaScript
      compares dates by this order. */
  function DayNumber(d: CalendarDate): nat {
    DaysBeforeYear(d.year) + DaysBeforeMonth(d.year, d.month) + d.day - 1
  }

  /** The following calendar day: it lies one step further on the day axis. */
  function NextDay(d: CalendarDate): (r: CalendarDate)
    ensures DayNumber(r) == DayNumber(d) + 1
  {
    if d.day < DaysInMonth(d.year, d.month) then Date(d.year, d.month, d.day + 1)
    else if d.month < 12 then
      MonthsAdjacent(d.year, d.month);
      Date(d.year, d.month + 1, 1)
    else
      YearsAdjacent(d.year);
      Date(d.year + 1, 1, 1)
  }

  lemma {:induction false} DaysBeforeYearMonotone(a: int, b: int)
    requires 1 <= a <= b
    ensures DaysBeforeYear(a) + (b - a) * 365 <= DaysBeforeYear(b)
    decreases b - a
  {
    if a < b {
      DaysBeforeYearMonotone(a, b - 1);
    }
  }

  lemma {:induction false} DaysBeforeMonthMonotone(y: int, a: int, b: int)
    requires 1 <= a <= b <= 12
    ensures DaysBeforeMonth(y, a) + (b - a) * 28 <= DaysBeforeMonth(y, b)
    decreases b - a
  {
    if a < b {
      DaysBeforeMonthMonotone(y, a, b - 1);
      MonthsAdjacent(y, b - 1);
    }
  }

  /** Distinct dates sit at distinct places on the day axis. */
  lemma DayNumberInjective(a: CalendarDate, b: CalendarDate)
    requires DayNumber(a) == DayNumber(b)
    ensures a == b
  {
    if a.year < b.year {
      DaysBeforeYearMonotone(a.year + 1, b.year);
      assert false;
    } else if b.year < a.year {
      DaysBeforeYearMonotone(b.year + 1, a.year);
      assert false;
    } else if a.month < b.month {
      DaysBeforeMonthMonotone(a.year, a.month + 1, b.month);
      assert false;
    } else if b.month < a.month {
      DaysBeforeMonthMonotone(a.year, b.month + 1, a.month);
      assert false;
    }
  }

  /** The days from `start` to `end`, both included, one after the other;
      empty when `start` is later than `end`. */
  function DaysFrom(start: CalendarDate, end: CalendarDate): (r: seq<CalendarDate>)
    ensures |r| == if DayNumber(start) > DayNumber(end) then 0 else DayNumber(end) - DayNumber(start) + 1
    ensures forall k :: 0 <= k < |r| ==> DayNumber(r[k]) == DayNumber(start) + k
    ensures r != [] ==> r[0] == start
    ensures forall k :: 0 <= k < |r| - 1 ==> r[k + 1] == NextDay(r[k])
    decreases DayNumber(end) - DayNumber(start) + 1
  {
    if DayNumber(start) > DayNumber(end) then []
    else [start] + DaysFrom(NextDay(start), end)
  }

  /** `getDatesInRange`: `None` stands for a date string JavaScript could not
      parse (`isNaN`); either one missing gives no days. */
  function DatesInRange(start: Option<CalendarDate>, end: Option<CalendarDate>): (r: seq<CalendarDate>)
    ensures (start.None? || end.None?) ==> r == []
    ensures start.Some? && end.Some? ==> r == DaysFrom(start.value, end.value)
  {
    if start.None? || end.None? then [] else DaysFrom(start.value, end.value)
  }

  /** The run of days ends exactly on the end date. */
  lemma DaysFromEndsAtEnd(start: CalendarDate, end: CalendarDate)
    requires DayNumber(start) <= DayNumber(end)
    ensures DaysFrom(start, end)[|DaysFrom(start, end)| - 1] == end
  {
    var r := DaysFrom(start, end);
    DayNumberInjective(r[|r| - 1], end);
  }

  /** Every date between the two ends appears in the run, at its offset
      from the start. */
  lemma DaysFromComplete(start: CalendarDate, end: CalendarDate, d: CalendarDate)
    requires DayNumber(start) <= DayNumber(d) <= DayNumber(end)
    ensures DaysFrom(start, end)[DayNumber(d) - DayNumber(start)] == d
  {
    var r := DaysFrom(start, end);
    DayNumberInjective(r[DayNumber(d) - DayNumber(start)], d);
  }

  function TwoDigit(n: nat): string {
    PadStart(NatToString(n), 2, '0')
  }

  /** Two two-character fields and a tail joined by dots. */
  lemma DottedParts(a: string, b: string, c: string)
    requires |a| == 2 && |b| == 2
    ensures |a + "." + b + "." + c| == 6 + |c|
    ensures (a + "." + b + "." + c)[2] == '.' && (a + "." + b + "." + c)[5] == '.'
    ensures (a + "." + b + "." + c)[..2] == a
    ensures (a + "." + b + "." + c)[3..5] == b
    ensures (a + "." + b + "." + c)[6..] == c
  {
  }

  /** `formatDate`: day and month padded to two digits, the year as printed
      (unpadded), joined by dots. */
  function FormatDate(d: CalendarDate): (r: string)
    ensures |r| == 6 + |NatToString(d.year)|
    ensures r[2] == '.' && r[5] == '.'
    ensures r[..2] == TwoDigit(d.day) && r[3..5] == TwoDigit(d.month) && r[6..] == NatToString(d.year)
  {
    TwoDigits(d.day);
    TwoDigits(d.month);
    DottedParts(TwoDigit(d.day), TwoDigit(d.month), NatToString(d.year));
    TwoDigit(d.day) + "." + TwoDigit(d.month) + "." + NatToString(d.year)
  }

  /** Reads a `DD.MM.YYYY` label back into a date. */
  function ParseFormattedDate(s: string): Option<Date> {
    if |s| >= 7 && s[2] == '.' && s[5] == '.'
       && AllDigits(s[..2]) && AllDigits(s[3..5]) && AllDigits(s[6..])
    then Some(Date(DigitsToNat(s[6..]), DigitsToNat(s[3..5]), DigitsToNat(s[..2])))
    else None
  }

  /** The label names the date it was made from: it reads back as the same
      day, month and year. */
  lemma FormatDateRoundTrip(d: CalendarDate)
    ensures ParseFormattedDate(FormatDate(d)) == Some(d)
  {
    var r := FormatDate(d);
    TwoDigits(d.day);
    TwoDigits(d.month);
    NatToStringRoundTrip(d.year);
    assert |r| >= 7;
  }

  /** Two different days never share a column heading. */
  lemma FormatDateInjective(a: CalendarDate, b: CalendarDate)
    requires FormatDate(a) == FormatDate(b)
    ensures a == b
  {
    FormatDateRoundTrip(a);
    FormatDateRoundTrip(b);
  }
}
