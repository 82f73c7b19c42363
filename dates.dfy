/** `java.time.LocalDate` as the date calculator uses it: a proleptic Gregorian (year, month,
    day) in the years -999,999,999 .. 999,999,999, with `plusDays`, `plusMonths` and
    `plusYears`. A shift whose result leaves the supported years throws DateTimeException in
    Java (or ArithmeticException on long overflow, which only happens when the result would be
    out of range anyway); here it is None. */
module Dates {

  import opened Optional

  const MIN_YEAR: int := -999_999_999
  const MAX_YEAR: int := 999_999_999

  datatype Date = Date(year: int, month: int, day: int)

  /** `ChronoUnit.DAYS`, `MONTHS` and `YEARS`. */
  datatype Unit = Days | Months | Years

  /** `IsoChronology.isLeapYear`. */
  predicate IsLeap(y: int) {
    y % 4 == 0 && (y % 100 != 0 || y % 400 == 0)
  }

  /** `Month.length(leapYear)`. */
  function DaysInMonth(y: int, m: int): (n: int)
    requires 1 <= m <= 12
    ensures 28 <= n <= 31
    ensures n == 31 <==> m in {1, 3, 5, 7, 8, 10, 12}
    ensures n == 30 <==> m in {4, 6, 9, 11}
    ensures m == 2 ==> (n == 29 <==> IsLeap(y))
  {
    if m == 2 then (if IsLeap(y) then 29 else 28)
    else if m == 4 || m == 6 || m == 9 || m == 11 then 30
    else 31
  }

  predicate YearInRange(y: int) {
    MIN_YEAR <= y <= MAX_YEAR
  }

  /** A date LocalDate can hold. */
  predicate Valid(d: Date) {
    YearInRange(d.year) && 1 <= d.month <= 12 && 1 <= d.day <= DaysInMonth(d.year, d.month)
  }

  /** Calendar order. */
  predicate Before(a: Date, b: Date) {
    a.year < b.year || (a.year == b.year && (a.month < b.month || (a.month == b.month && a.day < b.day)))
  }

  // ---------------------------------------------------------------------------------------
  // Days

  /** The day after d; None after the last supported day. */
  function NextDay(d: Date): (r: Option<Date>)
    requires Valid(d)
    ensures r.Some? ==> Valid(r.value) && Before(d, r.value)
    ensures r.None? <==> d == Date(MAX_YEAR, 12, 31)
  {
    if d.day < DaysInMonth(d.year, d.month) then Some(Date(d.year, d.month, d.day + 1))
    else if d.month < 12 then Some(Date(d.year, d.month + 1, 1))
    else if d.year < MAX_YEAR then Some(Date(d.year + 1, 1, 1))
    else None
  }

  /** The day before d; None before the first supported day. */
  function PrevDay(d: Date): (r: Option<Date>)
    requires Valid(d)
    ensures r.Some? ==> Valid(r.value) && Before(r.value, d)
    ensures r.None? <==> d == Date(MIN_YEAR, 1, 1)
  {
    if d.day > 1 then Some(Date(d.year, d.month, d.day - 1))
    else if d.month > 1 then Some(Date(d.year, d.month - 1, DaysInMonth(d.year, d.month - 1)))
    else if d.year > MIN_YEAR then Some(Date(d.year - 1, 12, 31))
    else None
  }

  /** Stepping forward and back are inverse: no day is skipped or repeated. */
  lemma NextPrevInverse(d: Date, e: Date)
    requires Valid(d) && Valid(e)
    ensures NextDay(d) == Some(e) <==> PrevDay(e) == Some(d)
  {
  }

  /** No valid day lies strictly between a day and the next one. */
  lemma NextDayIsAdjacent(d: Date, e: Date)
    requires Valid(d) && Valid(e) && NextDay(d).Some?
    ensures !(Before(d, e) && Before(e, NextDay(d).value))
  {
  }

  /** No valid day lies strictly between the previous day and a day. */
  lemma PrevDayIsAdjacent(d: Date, e: Date)
    requires Valid(d) && Valid(e) && PrevDay(d).Some?
    ensures !(Before(PrevDay(d).value, e) && Before(e, d))
  {
  }

  /** `d.plusDays(n)`: n days later (earlier for negative n), walked one day at a time. The
      source computes through the epoch day; both walk the same calendar, and both fail
      exactly when the target day is outside the supported years. */
  function PlusDays(d: Date, n: int): (r: Option<Date>)
    requires Valid(d)
    ensures r.Some? ==> Valid(r.value)
    decreases if n >= 0 then n else -n
  {
    if n == 0 then Some(d)
    else if n > 0 then
      match NextDay(d)
      case None => None
      case Some(e) => PlusDays(e, n - 1)
    else
      match PrevDay(d)
      case None => None
      case Some(e) => PlusDays(e, n + 1)
  }

  /** A forward walk of m days that ends one day before z extends to a walk of m + 1 days. */
  lemma {:induction false} PlusDaysExtendForward(x: Date, m: nat, y: Date, z: Date)
    requires Valid(x) && Valid(y) && PlusDays(x, m) == Some(y) && NextDay(y) == Some(z)
    ensures PlusDays(x, m + 1) == Some(z)
    decreases m
  {
    if m > 0 {
      var x' := NextDay(x).value;
      PlusDaysExtendForward(x', m - 1, y, z);
    }
  }

  /** A backward walk of m days that ends one day after z extends to a walk of m + 1 days. */
  lemma {:induction false} PlusDaysExtendBackward(x: Date, m: nat, y: Date, z: Date)
    requires Valid(x) && Valid(y) && PlusDays(x, -(m as int)) == Some(y) && PrevDay(y) == Some(z)
    ensures PlusDays(x, -(m + 1)) == Some(z)
    decreases m
  {
    if m > 0 {
      var x' := PrevDay(x).value;
      PlusDaysExtendBackward(x', m - 1, y, z);
    }
  }

  /** `d.plusDays(n).minusDays(n) == d` whenever the first shift succeeds. */
  lemma {:induction false} PlusDaysRoundTrip(d: Date, n: int)
    requires Valid(d) && PlusDays(d, n).Some?
    ensures PlusDays(PlusDays(d, n).value, -n) == Some(d)
    decreases if n >= 0 then n else -n
  {
    var e := PlusDays(d, n).value;
    if n > 0 {
      var d' := NextDay(d).value;
      PlusDaysRoundTrip(d', n - 1);
      NextPrevInverse(d, d');
      PlusDaysExtendBackward(e, n - 1, d', d);
    } else if n < 0 {
      var d' := PrevDay(d).value;
      PlusDaysRoundTrip(d', n + 1);
      NextPrevInverse(d', d);
      PlusDaysExtendForward(e, -n - 1, d', d);
    }
  }

  /** A forward shift lands later in the calendar, a backward one earlier. */
  lemma {:induction false} PlusDaysMoves(d: Date, n: int)
    requires Valid(d) && PlusDays(d, n).Some?
    ensures n > 0 ==> Before(d, PlusDays(d, n).value)
    ensures n < 0 ==> Before(PlusDays(d, n).value, d)
    decreases if n >= 0 then n else -n
  {
    if n > 1 {
      PlusDaysMoves(NextDay(d).value, n - 1);
    } else if n < -1 {
      PlusDaysMoves(PrevDay(d).value, n + 1);
    }
  }

  // ---------------------------------------------------------------------------------------
  // Months and years

  /** Months since January of year 0: `year * 12 + (month - 1)`, the count plusMonths works on. */
  function MonthIndex(d: Date): int {
    d.year * 12 + (d.month - 1)
  }

  function Min(a: int, b: int): (m: int)
    ensures m <= a && m <= b && (m == a || m == b)
  {
    if a <= b then a else b
  }

  /** `resolvePreviousValid`: the day of month clamped to the target month's length. */
  function Clamped(year: int, month: int, day: int): (d: Date)
    requires YearInRange(year) && 1 <= month <= 12 && day >= 1
    ensures Valid(d) && d.year == year && d.month == month
    ensures d.day == Min(day, DaysInMonth(year, month))
  {
    Date(year, month, Min(day, DaysInMonth(year, month)))
  }

  /** `d.plusMonths(m)`: the month index moves by m, the year is floorDiv(index, 12), the month
      floorMod(index, 12) + 1, and the day is clamped to the new month's length. */
  function PlusMonths(d: Date, m: int): (r: Option<Date>)
    requires Valid(d)
    ensures r.Some? ==> Valid(r.value)
    ensures r.Some? ==> MonthIndex(r.value) == MonthIndex(d) + m
    ensures r.Some? ==> r.value.day == Min(d.day, DaysInMonth(r.value.year, r.value.month))
    ensures r.None? <==> !YearInRange((MonthIndex(d) + m) / 12)
  {
    if m == 0 then Some(d)
    else
      var index := MonthIndex(d) + m;
      var year := index / 12;
      if !YearInRange(year) then None
      else Some(Clamped(year, index % 12 + 1, d.day))
  }

  /** `d.plusYears(y)`: same month, the day clamped (29 February to 28 February). */
  function PlusYears(d: Date, y: int): (r: Option<Date>)
    requires Valid(d)
    ensures r.Some? ==> Valid(r.value) && r.value.year == d.year + y && r.value.month == d.month
    ensures r.Some? ==> r.value.day == Min(d.day, DaysInMonth(r.value.year, d.month))
    ensures r.None? <==> !YearInRange(d.year + y)
  {
    if y == 0 then Some(d)
    else
      var year := d.year + y;
      if !YearInRange(year) then None
      else Some(Clamped(year, d.month, d.day))
  }

  /** A date is determined by its month index and its day. */
  lemma MonthIndexDetermines(a: Date, b: Date)
    requires Valid(a) && Valid(b) && MonthIndex(a) == MonthIndex(b) && a.day == b.day
    ensures a == b
  {
  }

  /** Shifting by m months and back restores the date unless the day had to be clamped. */
  lemma PlusMonthsRoundTrip(d: Date, m: int)
    requires Valid(d) && PlusMonths(d, m).Some? && PlusMonths(d, m).value.day == d.day
    ensures PlusMonths(PlusMonths(d, m).value, -m) == Some(d)
  {
    var e := PlusMonths(d, m).value;
    var back := MonthIndex(e) - m;
    assert back == MonthIndex(d);
    assert back / 12 == d.year;
    var r := PlusMonths(e, -m);
    MonthIndexDetermines(r.value, d);
  }

  /** Shifting by y years and back restores the date unless the day had to be clamped. */
  lemma PlusYearsRoundTrip(d: Date, y: int)
    requires Valid(d) && PlusYears(d, y).Some? && PlusYears(d, y).value.day == d.day
    ensures PlusYears(PlusYears(d, y).value, -y) == Some(d)
  {
  }

  /** The clamping rule at work: 31 January 2024 plus one month is 29 February 2024. */
  lemma PlusMonthsClampsToMonthEnd()
    ensures PlusMonths(Date(2024, 1, 31), 1) == Some(Date(2024, 2, 29))
  {
    assert IsLeap(2024);
  }

  /** Twelve months are one year. */
  lemma TwelveMonthsAreAYear(d: Date, y: int)
    requires Valid(d)
    ensures PlusMonths(d, 12 * y) == PlusYears(d, y)
  {
    if y != 0 {
      var index := MonthIndex(d) + 12 * y;
      assert index == (d.year + y) * 12 + (d.month - 1);
      assert index / 12 == d.year + y;
      assert index % 12 + 1 == d.month;
    }
  }

  // ---------------------------------------------------------------------------------------
  // The shift the calculator applies

  /** `date.plus(amount, unit)`. */
  function Plus(d: Date, amount: int, unit: Unit): (r: Option<Date>)
    requires Valid(d)
    ensures r.Some? ==> Valid(r.value)
    ensures amount == 0 ==> r == Some(d)
  {
    match unit
    case Days => PlusDays(d, amount)
    case Months => PlusMonths(d, amount)
    case Years => PlusYears(d, amount)
  }

  /** `date.minus(amount, unit)`: plus(-amount, unit). For amount = Long.MIN_VALUE Java
      computes plus(Long.MAX_VALUE).plus(1), which throws for every unit just as the
      unbounded shift by -amount leaves the supported years. */
  function Minus(d: Date, amount: int, unit: Unit): (r: Option<Date>)
    requires Valid(d)
    ensures r.Some? ==> Valid(r.value)
    ensures amount == 0 ==> r == Some(d)
  {
    Plus(d, -amount, unit)
  }

  /** Subtracting what was added restores the date: always for days, and for months and years
      whenever the day did not have to be clamped. */
  lemma MinusUndoesPlus(d: Date, amount: int, unit: Unit)
    requires Valid(d) && Plus(d, amount, unit).Some?
    requires unit != Days ==> Plus(d, amount, unit).value.day == d.day
    ensures Minus(Plus(d, amount, unit).value, amount, unit) == Some(d)
  {
    match unit
    case Days => PlusDaysRoundTrip(d, amount);
    case Months => PlusMonthsRoundTrip(d, amount);
    case Years => PlusYearsRoundTrip(d, amount);
  }
}
