/**
 * The calendar side of Go's time.Time as file/file.go uses it (Year, Month,
 * Month.String, Before, AddDate), and utils/date.go's RemoveMonths.
 * A date is read in one fixed location: no time zones, no daylight saving.
 */
module Dates {

  const NanosPerDay: int := 86_400_000_000_000

  /** Gregorian leap years, as Go's isLeap. */
  predicate IsLeap(year: int) {
    year % 4 == 0 && (year % 100 != 0 || year % 400 == 0)
  }

  function DaysIn(year: int, month: int): (n: int)
    requires 1 <= month <= 12
    ensures 28 <= n <= 31
    ensures month == 2 ==> (n == 29 <==> IsLeap(year))
  {
    if month == 2 then (if IsLeap(year) then 29 else 28)
    else if month == 4 || month == 6 || month == 9 || month == 11 then 30
    else 31
  }

  /** Year, month (1..12), day of month and nanoseconds since midnight. */
  datatype DateTime = DateTime(year: int, month: int, day: int, nanos: int) {
    predicate Valid() {
      1 <= month <= 12 && 1 <= day <= DaysIn(year, month) && 0 <= nanos < NanosPerDay
    }
  }

  /** A time.Time always denotes an existing calendar day; January 1 of year 1 is Go's zero time. */
  type Date = d: DateTime | d.Valid() witness DateTime(1, 1, 1, 0)

  const MonthNames: seq<string> := [
    "January", "February", "March", "April", "May", "June",
    "July", "August", "September", "October", "November", "December"]

  /** time.Month.String for a valid month: its full English name. */
  function MonthName(month: int): (name: string)
    requires 1 <= month <= 12
    ensures |name| >= 3
    ensures forall c :: 0 <= c < |name| ==> name[c] != '/'
  {
    MonthNames[month - 1]
  }

  /** time.Time.Before: a denotes an earlier instant than b. */
  predicate Before(a: Date, b: Date) {
    a.year < b.year
    || (a.year == b.year && a.month < b.month)
    || (a.year == b.year && a.month == b.month && a.day < b.day)
    || (a.year == b.year && a.month == b.month && a.day == b.day && a.nanos < b.nanos)
  }

  /** Before is a strict total order: irreflexive, transitive and total on distinct dates. */
  lemma BeforeIsStrictTotalOrder(a: Date, b: Date, c: Date)
    ensures !Before(a, a)
    ensures Before(a, b) ==> !Before(b, a)
    ensures Before(a, b) && Before(b, c) ==> Before(a, c)
    ensures a != b ==> Before(a, b) || Before(b, a)
  {
  }

  /** The number of whole months from the start of year 0 to the month of d. */
  function MonthIndex(d: DateTime): int {
    d.year * 12 + (d.month - 1)
  }

  /** The year and month of a month index (Euclidean division, so negative years work too). */
  function YearOfIndex(k: int): int { k / 12 }

  function MonthOfIndex(k: int): (m: int)
    ensures 1 <= m <= 12
  {
    k % 12 + 1
  }

  /** An earlier month gives an earlier date, whatever the day and time. */
  lemma EarlierMonthIsBefore(a: Date, b: Date)
    requires MonthIndex(a) < MonthIndex(b)
    ensures Before(a, b)
  {
  }

  /**
   * RemoveMonths(d, n) = d.AddDate(0, -n, 0): the month index goes down by n with the
   * day and the time of day kept; a day that the target month does not have spills
   * over into the next month, as Go's normalisation does (March 31 less one month
   * is March 3, or March 2 in a leap year).
   */
  function RemoveMonths(d: Date, n: int): (r: Date)
    ensures r.nanos == d.nanos
    ensures var k := MonthIndex(d) - n;
      || (MonthIndex(r) == k && r.day == d.day)
      || (MonthIndex(r) == k + 1
          && d.day > DaysIn(YearOfIndex(k), MonthOfIndex(k))
          && r.day == d.day - DaysIn(YearOfIndex(k), MonthOfIndex(k)))
  {
    var k := MonthIndex(d) - n;
    var year, month := YearOfIndex(k), MonthOfIndex(k);
    if d.day <= DaysIn(year, month) then
      DateTime(year, month, d.day, d.nanos)
    else
      var excess := d.day - DaysIn(year, month);
      DateTime(YearOfIndex(k + 1), MonthOfIndex(k + 1), excess, d.nanos)
  }

  /** For a day of month up to 28 the month index drops by exactly n and the day is kept. */
  lemma RemoveMonthsKeepsDay(d: Date, n: int)
    requires d.day <= 28
    ensures MonthIndex(RemoveMonths(d, n)) == MonthIndex(d) - n
    ensures RemoveMonths(d, n).day == d.day && RemoveMonths(d, n).nanos == d.nanos
  {
  }

  /** Removing zero months gives the same date back. */
  lemma RemoveZeroMonths(d: Date)
    ensures RemoveMonths(d, 0) == d
  {
    var k := MonthIndex(d);
    assert YearOfIndex(k) == d.year && MonthOfIndex(k) == d.month;
  }

  /** Removing a positive number of months always gives an earlier date. */
  lemma RemoveMonthsIsEarlier(d: Date, n: int)
    requires n > 0
    ensures Before(RemoveMonths(d, n), d)
  {
    var r := RemoveMonths(d, n);
    if MonthIndex(r) < MonthIndex(d) {
      EarlierMonthIsBefore(r, d);
    } else {
      assert MonthIndex(r) == MonthIndex(d) && r.day < d.day;
      assert r.year == d.year && r.month == d.month;
    }
  }

  /** A negative n moves the date forward by -n months, when the day does not overflow. */
  lemma RemoveNegativeMonths(d: Date, n: int)
    requires n < 0 && d.day <= 28
    ensures MonthIndex(RemoveMonths(d, n)) == MonthIndex(d) + (-n)
    ensures Before(d, RemoveMonths(d, n))
  {
    RemoveMonthsKeepsDay(d, n);
    RemoveNegativeMonthsIsLater(d, n);
  }

  /** Removing a negative number of months always gives a later date, whatever the day. */
  lemma RemoveNegativeMonthsIsLater(d: Date, n: int)
    requires n < 0
    ensures Before(d, RemoveMonths(d, n))
  {
    EarlierMonthIsBefore(d, RemoveMonths(d, n));
  }

  /** Removing a then b months is removing a + b months, when no day overflows. */
  lemma RemoveMonthsAdds(d: Date, a: int, b: int)
    requires d.day <= 28
    ensures RemoveMonths(RemoveMonths(d, a), b) == RemoveMonths(d, a + b)
  {
    RemoveMonthsKeepsDay(d, a);
    var once := RemoveMonths(d, a);
    RemoveMonthsKeepsDay(once, b);
    RemoveMonthsKeepsDay(d, a + b);
    var x, y := RemoveMonths(once, b), RemoveMonths(d, a + b);
    assert MonthIndex(x) == MonthIndex(y);
    assert x.year == YearOfIndex(MonthIndex(x)) && y.year == YearOfIndex(MonthIndex(y));
    assert x.month == MonthOfIndex(MonthIndex(x)) && y.month == MonthOfIndex(MonthIndex(y));
  }

  /** From 2021-03-03, one month back is 2021-02-03 and two months back is 2021-01-03. */
  lemma RemoveMonthsWithinYear()
    ensures RemoveMonths(DateTime(2021, 3, 3, 0), 1) == DateTime(2021, 2, 3, 0)
    ensures RemoveMonths(DateTime(2021, 3, 3, 0), 2) == DateTime(2021, 1, 3, 0)
  {
  }

  /** From 2021-03-03, three months back is 2020-12-03 and six months back is 2020-09-03. */
  lemma RemoveMonthsAcrossYear()
    ensures RemoveMonths(DateTime(2021, 3, 3, 0), 3) == DateTime(2020, 12, 3, 0)
    ensures RemoveMonths(DateTime(2021, 3, 3, 0), 6) == DateTime(2020, 9, 3, 0)
  {
  }

  /** One month back from 2021-03-31 is "February 31st", which time.Date normalises to 2021-03-03. */
  lemma RemoveMonthsOverflow()
    ensures RemoveMonths(DateTime(2021, 3, 31, 0), 1) == DateTime(2021, 3, 3, 0)
  {
    var k := MonthIndex(DateTime(2021, 3, 31, 0)) - 1;
    assert k == 2021 * 12 + 1;
    assert YearOfIndex(k) == 2021 && MonthOfIndex(k) == 2;
    assert DaysIn(2021, 2) == 28;
    assert YearOfIndex(k + 1) == 2021 && MonthOfIndex(k + 1) == 3;
  }
}
