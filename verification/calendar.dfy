/** Calendar dates as the pipeline uses them: proleptic Gregorian (y, m, d)
    triples, ordered chronologically, and the (year, month) keys of monthly data. */
module Calendar {

  import opened Results
  import opened Text

  datatype Date = Date(year: int, month: int, day: int)

  /** A calendar month of a year: the key of one canonical employment row. */
  datatype YearMonth = YearMonth(year: int, month: int)

  predicate IsLeapYear(y: int) {
    y % 4 == 0 && (y % 100 != 0 || y % 400 == 0)
  }

  function DaysInMonth(y: int, m: int): (n: int)
    requires 1 <= m <= 12
    ensures 28 <= n <= 31
  {
    if m == 2 then (if IsLeapYear(y) then 29 else 28)
    else if m == 4 || m == 6 || m == 9 || m == 11 then 30
    else 31
  }

  predicate ValidDate(d: Date) {
    1 <= d.month <= 12 && 1 <= d.day <= DaysInMonth(d.year, d.month)
  }

  /** Strict chronological order (`a < b` on timestamps at midnight). */
  predicate Before(a: Date, b: Date) {
    a.year < b.year
    || (a.year == b.year && a.month < b.month)
    || (a.year == b.year && a.month == b.month && a.day < b.day)
  }

  /** Strict order of year-months. */
  predicate MonthBefore(a: YearMonth, b: YearMonth) {
    a.year < b.year || (a.year == b.year && a.month < b.month)
  }

  predicate MonthNotAfter(a: YearMonth, b: YearMonth) {
    !MonthBefore(b, a)
  }

  function FirstOfMonth(ym: YearMonth): Date {
    Date(ym.year, ym.month, 1)
  }

  function MonthOf(d: Date): YearMonth {
    YearMonth(d.year, d.month)
  }

  function NextMonth(ym: YearMonth): (n: YearMonth)
    requires 1 <= ym.month <= 12
    ensures 1 <= n.month <= 12
    ensures MonthBefore(ym, n)
  {
    if ym.month == 12 then YearMonth(ym.year + 1, 1) else YearMonth(ym.year, ym.month + 1)
  }

  /** The employment window test: the first day of the month lies in
      [start, end], both ends inclusive. */
  predicate InWindow(ym: YearMonth, start: Date, end: Date) {
    !Before(FirstOfMonth(ym), start) && !Before(end, FirstOfMonth(ym))
  }

  /** The earliest month a window starting on `start` admits: the start's own
      month when it starts on the 1st, the following month otherwise. */
  function FirstAdmittedMonth(start: Date): (ym: YearMonth)
    requires ValidDate(start)
    ensures 1 <= ym.month <= 12
  {
    if start.day == 1 then MonthOf(start) else NextMonth(MonthOf(start))
  }

  /** The window test restated on whole months: a month is kept exactly when it
      lies between the first admitted month and the end date's month. A start
      on any day after the 1st therefore excludes its own month. */
  lemma InWindowByMonths(ym: YearMonth, start: Date, end: Date)
    requires ValidDate(start) && ValidDate(end)
    requires 1 <= ym.month <= 12
    ensures InWindow(ym, start, end)
        <==> MonthNotAfter(FirstAdmittedMonth(start), ym) && MonthNotAfter(ym, MonthOf(end))
  {
  }

  lemma MidMonthStartExcludesItsMonth(start: Date, end: Date)
    requires ValidDate(start) && start.day > 1
    ensures !InWindow(MonthOf(start), start, end)
  {
  }

  /** The months whose first day a pandas nanosecond timestamp can hold: it
      spans 1677-09-21 to 2262-04-11, so the first representable month start
      is 1677-10-01 and the last is 2262-04-01. */
  predicate TimestampMonth(ym: YearMonth) {
    && 1 <= ym.month <= 12
    && MonthNotAfter(YearMonth(1677, 10), ym)
    && MonthNotAfter(ym, YearMonth(2262, 4))
  }

  /** An ISO `YYYY-MM-DD` text: a decimal year, a dash, two month digits, a
      dash, two day digits, naming a real calendar day. */
  function ParseIsoDate(s: string): (r: Option<Date>)
    ensures r.Some? ==> ValidDate(r.value) && r.value.year >= 0
  {
    if |s| < 7 then None
    else
      var y, mm, dd := s[..|s| - 6], s[|s| - 5..|s| - 3], s[|s| - 2..];
      if IsDecimal(y) && s[|s| - 6] == '-' && s[|s| - 3] == '-' && AllDigits(mm) && AllDigits(dd) then
        var d := Date(DecimalToNat(y), DecimalToNat(mm), DecimalToNat(dd));
        if ValidDate(d) then Some(d) else None
      else None
  }

  /** `YYYY-MM-DD` rendering of a date with a non-negative year. */
  function FormatIsoDate(d: Date): string
    requires ValidDate(d) && d.year >= 0
  {
    NatToDecimal(d.year) + "-" + ZeroPad2(d.month) + "-" + ZeroPad2(d.day)
  }

  /** Reading back a rendered date gives the date. */
  lemma IsoDateRoundTrip(d: Date)
    requires ValidDate(d) && d.year >= 0
    ensures ParseIsoDate(FormatIsoDate(d)) == Some(d)
  {
    var y, m, dd := NatToDecimal(d.year), ZeroPad2(d.month), ZeroPad2(d.day);
    var s := FormatIsoDate(d);
    assert s == y + "-" + m + "-" + dd;
    assert s[..|s| - 6] == y;
    assert s[|s| - 5..|s| - 3] == m;
    assert s[|s| - 2..] == dd;
    NatDecimalRoundTrip(d.year);
  }

  /** Malformed texts are rejected rather than guessed at. */
  lemma IsoDateRejects(y: nat)
    ensures ParseIsoDate(NatToDecimal(y) + "-" + ZeroPad2(13) + "-" + ZeroPad2(1)).None?
    ensures ParseIsoDate(NatToDecimal(y) + "-" + ZeroPad2(2) + "-" + ZeroPad2(30)).None?
  {
    var s1 := NatToDecimal(y) + "-" + ZeroPad2(13) + "-" + ZeroPad2(1);
    assert s1[|s1| - 5..|s1| - 3] == ZeroPad2(13);
    var s2 := NatToDecimal(y) + "-" + ZeroPad2(2) + "-" + ZeroPad2(30);
    assert s2[|s2| - 2..] == ZeroPad2(30);
    assert s2[|s2| - 5..|s2| - 3] == ZeroPad2(2);
  }
}
