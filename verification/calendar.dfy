/** JavaScript `Date` values as ideal civil days of the proleptic Gregorian
    calendar, read in local time: full year, zero-based month, day of month.
    Time of day, time zones and daylight-saving shifts are not modelled. */
module Calendar {
  import opened Arithmetic

  datatype CivilDate = CivilDate(year: int, month: int, day: int)

  predicate IsLeapYear(year: int) {
    year % 4 == 0 && (year % 100 != 0 || year % 400 == 0)
  }

  /** Days in month `month` (0 = January) of `year`. */
  function MonthLength(year: int, month: int): int
    requires 0 <= month < 12
  {
    if month == 1 then (if IsLeapYear(year) then 29 else 28)
    else if month == 3 || month == 5 || month == 8 || month == 10 then 30
    else 31
  }

  /** The components a `Date` reports: a month index in 0..11 and a day inside that month. */
  predicate ValidDate(d: CivilDate) {
    0 <= d.month < 12 && 1 <= d.day <= MonthLength(d.year, d.month)
  }

  /** The following calendar day. */
  function Next(d: CivilDate): (r: CivilDate)
    requires ValidDate(d)
    ensures ValidDate(r)
  {
    if d.day < MonthLength(d.year, d.month) then CivilDate(d.year, d.month, d.day + 1)
    else if d.month < 11 then CivilDate(d.year, d.month + 1, 1)
    else CivilDate(d.year + 1, 0, 1)
  }

  /** The preceding calendar day. */
  function Prev(d: CivilDate): (r: CivilDate)
    requires ValidDate(d)
    ensures ValidDate(r)
  {
    if d.day > 1 then CivilDate(d.year, d.month, d.day - 1)
    else if d.month > 0 then CivilDate(d.year, d.month - 1, MonthLength(d.year, d.month - 1))
    else CivilDate(d.year - 1, 11, 31)
  }

  lemma NextPrevInverse(d: CivilDate)
    requires ValidDate(d)
    ensures Prev(Next(d)) == d
    ensures Next(Prev(d)) == d
  {
  }

  /** `d` moved by `n` days, one day at a time (backwards when `n` is negative). */
  function Shift(d: CivilDate, n: int): (r: CivilDate)
    requires ValidDate(d)
    ensures ValidDate(r)
    decreases if n < 0 then -n else n
  {
    if n == 0 then d
    else if n > 0 then Shift(Next(d), n - 1)
    else Shift(Prev(d), n + 1)
  }

  lemma {:induction false} ShiftFromNext(d: CivilDate, n: int)
    requires ValidDate(d)
    ensures Shift(Next(d), n - 1) == Shift(d, n)
  {
    if n <= 0 {
      NextPrevInverse(d);
    }
  }

  lemma {:induction false} ShiftFromPrev(d: CivilDate, n: int)
    requires ValidDate(d)
    ensures Shift(Prev(d), n + 1) == Shift(d, n)
  {
    if n >= 0 {
      NextPrevInverse(d);
    }
  }

  /** Moving by `a` days and then by `b` days is moving by `a + b` days. */
  lemma {:induction false} ShiftAdd(d: CivilDate, a: int, b: int)
    requires ValidDate(d)
    ensures Shift(Shift(d, a), b) == Shift(d, a + b)
    decreases if a < 0 then -a else a
  {
    if a > 0 {
      ShiftAdd(Next(d), a - 1, b);
      ShiftFromNext(d, a + b);
    } else if a < 0 {
      ShiftAdd(Prev(d), a + 1, b);
      ShiftFromPrev(d, a + b);
    }
  }

  /** Inside one month, moving forward only advances the day of month. */
  lemma {:induction false} ShiftWithinMonth(d: CivilDate, k: nat)
    requires ValidDate(d)
    requires d.day + k <= MonthLength(d.year, d.month)
    ensures Shift(d, k) == CivilDate(d.year, d.month, d.day + k)
    decreases k
  {
    if k > 0 {
      ShiftWithinMonth(Next(d), k - 1);
    }
  }

  /** The day that a year, a month and a day number land on, as `Date` computes
      it for its constructor and for `setDate`: a month outside 0..11 rolls over
      into a neighbouring year and a day outside the month rolls over into a
      neighbouring month. (Dafny's `/` and `%` round towards minus infinity for a
      positive divisor, which is the roll-over `Date` performs.) */
  function MakeDate(year: int, month: int, day: int): (r: CivilDate)
    ensures ValidDate(r)
  {
    Shift(CivilDate(year + month / 12, month % 12, 1), day - 1)
  }

  /** The year the `Date` constructor works in: a year argument from 0 to 99
      stands for 1900 to 1999, every other year for itself. */
  function FullYear(year: int): (y: int)
    ensures 0 <= year <= 99 ==> y == 1900 + year
    ensures !(0 <= year <= 99) ==> y == year
  {
    if 0 <= year <= 99 then 1900 + year else year
  }

  /** `new Date(year, month, day)`: the year read as `FullYear` does, before
      the month and the day roll over. */
  function NewDate(year: int, month: int, day: int): (r: CivilDate)
    ensures ValidDate(r)
  {
    MakeDate(FullYear(year), month, day)
  }

  /** A day inside the (normalised) month is made as that day of that month. */
  lemma MakeDateInMonth(year: int, month: int, day: int)
    requires 1 <= day <= MonthLength(year + month / 12, month % 12)
    ensures MakeDate(year, month, day) == CivilDate(year + month / 12, month % 12, day)
  {
    ShiftWithinMonth(CivilDate(year + month / 12, month % 12, 1), day - 1);
  }

  /** Day 0 of the month after `month` is the last day of `month` (normalised). */
  lemma LastDayOfMonth(year: int, month: int)
    ensures MakeDate(year, month + 1, 0) ==
      CivilDate(year + month / 12, month % 12, MonthLength(year + month / 12, month % 12))
  {
    DivModSucc(month, 12);
    var first := CivilDate(year + (month + 1) / 12, (month + 1) % 12, 1);
    assert MakeDate(year, month + 1, 0) == Shift(first, -1) == Prev(first);
  }

  /** Every valid date is its month's first day moved forward by `day - 1` days. */
  lemma FromFirstOfMonth(d: CivilDate)
    requires ValidDate(d)
    ensures d == Shift(CivilDate(d.year, d.month, 1), d.day - 1)
  {
    ShiftWithinMonth(CivilDate(d.year, d.month, 1), d.day - 1);
  }

  // ---------------------------------------------------------------------------
  // Day numbers: days since 1970-01-01, the whole-day part of `Date.getTime()`.
  // ---------------------------------------------------------------------------

  /** Leap years among 1..y (a negative count below year 1). */
  function LeapYearsThrough(y: int): int {
    y / 4 - y / 100 + y / 400
  }

  function DaysBeforeYear(year: int): int {
    365 * (year - 1970) + LeapYearsThrough(year - 1) - LeapYearsThrough(1969)
  }

  function DaysBeforeMonth(year: int, month: int): int
    requires 0 <= month <= 12
  {
    if month == 0 then 0 else DaysBeforeMonth(year, month - 1) + MonthLength(year, month - 1)
  }

  function DayNumber(d: CivilDate): int
    requires ValidDate(d)
  {
    DaysBeforeYear(d.year) + DaysBeforeMonth(d.year, d.month) + d.day - 1
  }

  /** `Date.getDay()`: 0 is Sunday; 1970-01-01 was a Thursday. */
  function DayOfWeek(d: CivilDate): (w: int)
    requires ValidDate(d)
    ensures 0 <= w < 7
  {
    (DayNumber(d) + 4) % 7
  }

  lemma LeapStep(y: int)
    ensures LeapYearsThrough(y) - LeapYearsThrough(y - 1) == if IsLeapYear(y) then 1 else 0
  {
    DivStep(y, 4);
    DivStep(y, 100);
    DivStep(y, 400);
    MultipleOfMultiple(y, 4, 25);
    MultipleOfMultiple(y, 100, 4);
  }

  /** Going from `y - 1` to `y` adds one to the quotient by `k` exactly at
      multiples of `k`. */
  lemma DivStep(y: int, k: int)
    requires k > 0
    ensures y / k - (y - 1) / k == if y % k == 0 then 1 else 0
  {
    DivModSucc(y - 1, k);
  }

  lemma MultipleOfMultiple(y: int, a: int, b: int)
    requires a > 0 && b > 0
    ensures y % (a * b) == 0 ==> y % a == 0
  {
    if y % (a * b) == 0 {
      var q := y / (a * b);
      assert y == (a * b) * q;
      DivModUnique(y, a, b * q, 0);
    }
  }

  lemma YearLength(year: int)
    ensures DaysBeforeMonth(year, 12) == if IsLeapYear(year) then 366 else 365
    ensures DaysBeforeYear(year + 1) == DaysBeforeYear(year) + DaysBeforeMonth(year, 12)
  {
    var leap := if IsLeapYear(year) then 1 else 0;
    assert DaysBeforeMonth(year, 1) == 31;
    assert MonthLength(year, 1) == 28 + leap;
    assert DaysBeforeMonth(year, 2) == 59 + leap;
    assert DaysBeforeMonth(year, 4) == 120 + leap;
    assert DaysBeforeMonth(year, 6) == 181 + leap;
    assert DaysBeforeMonth(year, 8) == 243 + leap;
    assert DaysBeforeMonth(year, 10) == 304 + leap;
    assert DaysBeforeMonth(year, 12) == 365 + leap;
    LeapStep(year);
  }

  /** Each calendar step forward adds exactly one day. */
  lemma DayNumberNext(d: CivilDate)
    requires ValidDate(d)
    ensures DayNumber(Next(d)) == DayNumber(d) + 1
  {
    if d.day == MonthLength(d.year, d.month) && d.month == 11 {
      YearLength(d.year);
    }
  }

  lemma DayNumberPrev(d: CivilDate)
    requires ValidDate(d)
    ensures DayNumber(Prev(d)) == DayNumber(d) - 1
  {
    DayNumberNext(Prev(d));
    NextPrevInverse(d);
  }

  /** Moving by `n` days changes the day number by exactly `n`. */
  lemma {:induction false} DayNumberShift(d: CivilDate, n: int)
    requires ValidDate(d)
    ensures DayNumber(Shift(d, n)) == DayNumber(d) + n
    decreases if n < 0 then -n else n
  {
    if n > 0 {
      DayNumberNext(d);
      DayNumberShift(Next(d), n - 1);
    } else if n < 0 {
      DayNumberPrev(d);
      DayNumberShift(Prev(d), n + 1);
    }
  }

  /** The day of the week advances by one, modulo 7, from each day to the next. */
  lemma DayOfWeekNext(d: CivilDate)
    requires ValidDate(d)
    ensures DayOfWeek(Next(d)) == (DayOfWeek(d) + 1) % 7
  {
    DayNumberNext(d);
    ModSucc(DayNumber(d) + 4);
  }

  lemma ModSucc(n: int)
    ensures (n + 1) % 7 == (n % 7 + 1) % 7
  {
    DivModSucc(n, 7);
  }

  lemma {:induction false} DaysBeforeMonthMonotone(year: int, m1: int, m2: int)
    requires 0 <= m1 <= m2 <= 12
    ensures DaysBeforeMonth(year, m1) <= DaysBeforeMonth(year, m2)
    decreases m2 - m1
  {
    if m1 < m2 {
      DaysBeforeMonthMonotone(year, m1, m2 - 1);
    }
  }

  lemma {:induction false} DaysBeforeYearMonotone(y1: int, y2: int)
    requires y1 <= y2
    ensures DaysBeforeYear(y1) <= DaysBeforeYear(y2)
    decreases y2 - y1
  {
    if y1 < y2 {
      YearLength(y2 - 1);
      DaysBeforeYearMonotone(y1, y2 - 1);
    }
  }

  /** A date's day number lies inside its own year and its own month. */
  lemma DayNumberBounds(d: CivilDate)
    requires ValidDate(d)
    ensures DaysBeforeYear(d.year) <= DayNumber(d) < DaysBeforeYear(d.year + 1)
    ensures DaysBeforeMonth(d.year, d.month) <= DayNumber(d) - DaysBeforeYear(d.year) < DaysBeforeMonth(d.year, d.month + 1)
  {
    YearLength(d.year);
    DaysBeforeMonthMonotone(d.year, 0, d.month);
    DaysBeforeMonthMonotone(d.year, d.month + 1, 12);
  }

  /** Day numbers order dates chronologically: by year, then month, then day. */
  lemma DayNumberOrder(a: CivilDate, b: CivilDate)
    requires ValidDate(a) && ValidDate(b)
    ensures DayNumber(a) < DayNumber(b) <==>
      a.year < b.year || (a.year == b.year && (a.month < b.month || (a.month == b.month && a.day < b.day)))
  {
    if a.year < b.year {
      EarlierYear(a, b);
    } else if b.year < a.year {
      EarlierYear(b, a);
    } else if a.month < b.month {
      EarlierMonth(a, b);
    } else if b.month < a.month {
      EarlierMonth(b, a);
    }
  }

  lemma EarlierYear(a: CivilDate, b: CivilDate)
    requires ValidDate(a) && ValidDate(b) && a.year < b.year
    ensures DayNumber(a) < DayNumber(b)
  {
    DayNumberBounds(a);
    DayNumberBounds(b);
    DaysBeforeYearMonotone(a.year + 1, b.year);
  }

  lemma EarlierMonth(a: CivilDate, b: CivilDate)
    requires ValidDate(a) && ValidDate(b) && a.year == b.year && a.month < b.month
    ensures DayNumber(a) < DayNumber(b)
  {
    DayNumberBounds(a);
    DayNumberBounds(b);
    DaysBeforeMonthMonotone(a.year, a.month + 1, b.month);
  }

  /** Distinct dates have distinct day numbers. */
  lemma DayNumberInjective(a: CivilDate, b: CivilDate)
    requires ValidDate(a) && ValidDate(b)
    ensures DayNumber(a) == DayNumber(b) <==> a == b
  {
    DayNumberOrder(a, b);
    DayNumberOrder(b, a);
  }
}
