/** The scheduler's date helpers: month lengths, weekend and holiday tests, the
    `YYYY-MM-DD` key every day is known by, month parsing, the list of a
    month's days, day arithmetic and range tests. */
module DateUtils {
  import opened Wrappers
  import opened Arithmetic
  import opened Strings
  import opened Calendar
  import opened WeekendConfig

  /** A `Date` object that holds a valid day (times of day are not modelled). */
  type Date = d: CivilDate | ValidDate(d) witness CivilDate(1970, 0, 1)

  /** `getDaysInMonth(year, month)`: day 0 of the following month is the last
      day of this one, so the answer is the length of the (normalised) month of
      the constructor's year. */
  function GetDaysInMonth(year: int, month: int): (n: int)
    ensures n == MonthLength(FullYear(year) + month / 12, month % 12)
    ensures 28 <= n <= 31
  {
    LastDayOfMonth(FullYear(year), month);
    NewDate(year, month + 1, 0).day
  }

  /** `isWeekend(date)`: the day of the week is one of the configured weekend
      days. `env` is the value of `WEEKEND_CONFIG`. */
  predicate IsWeekend(env: Option<string>, date: Date) {
    IsWeekendDay(env, DayOfWeek(date))
  }

  /** `isHoliday(date)`: no holiday calendar exists, so no day is a holiday. */
  predicate IsHoliday(date: Date) {
    false
  }

  /** `formatDate(date)`: the year as `String` renders it (not padded), then the
      one-based month and the day, each padded to two digits. */
  function FormatDate(date: Date): string {
    IntToString(date.year) + "-" + PadStart(NatToString(date.month + 1), 2, '0')
      + "-" + PadStart(NatToString(date.day), 2, '0')
  }

  /** The shape `YYYY-MM` that the month parameter is validated against before
      it reaches the scheduler. */
  predicate IsMonthString(s: string) {
    |s| == 7 && AllDigits(s[..4]) && s[4] == '-' && AllDigits(s[5..])
  }

  /** `parseMonth("YYYY-MM")`: the first day of that month; years `0000` to
      `0099` are read as 1900 to 1999, and month `00` and months above `12` roll
      over into a neighbouring year, as `new Date` does. */
  function ParseMonth(s: string): (d: Date)
    requires IsMonthString(s)
    ensures d.day == 1
    ensures var y, m := DigitsValue(s[..4]), DigitsValue(s[5..]);
      d.year == FullYear(y) + (m - 1) / 12 && d.month == (m - 1) % 12
    ensures 1 <= DigitsValue(s[5..]) <= 12 ==>
      d == CivilDate(FullYear(DigitsValue(s[..4])), DigitsValue(s[5..]) - 1, 1)
  {
    var y, m := DigitsValue(s[..4]), DigitsValue(s[5..]);
    MakeDateInMonth(FullYear(y), m - 1, 1);
    NewDate(y, m - 1, 1)
  }

  /** `getMonthDates(year, month)`: every day of the month, in order, in the
      constructor's year. */
  method GetMonthDates(year: int, month: int) returns (dates: seq<Date>)
    ensures |dates| == GetDaysInMonth(year, month)
    ensures forall i :: 0 <= i < |dates| ==> dates[i] == CivilDate(FullYear(year) + month / 12, month % 12, i + 1)
  {
    var days := GetDaysInMonth(year, month);
    dates := [];
    var day := 1;
    while day <= days
      invariant 1 <= day <= days + 1
      invariant |dates| == day - 1
      invariant forall i :: 0 <= i < |dates| ==> dates[i] == CivilDate(FullYear(year) + month / 12, month % 12, i + 1)
    {
      MakeDateInMonth(FullYear(year), month, day);
      dates := dates + [NewDate(year, month, day)];
      day := day + 1;
    }
  }

  /** The days of a month as a value: what `GetMonthDates` returns. */
  function MonthDays(year: int, month: int): (dates: seq<Date>)
    ensures |dates| == GetDaysInMonth(year, month)
    ensures forall i :: 0 <= i < |dates| ==> dates[i] == CivilDate(FullYear(year) + month / 12, month % 12, i + 1)
  {
    seq(GetDaysInMonth(year, month), i requires 0 <= i < GetDaysInMonth(year, month) =>
      CivilDate(FullYear(year) + month / 12, month % 12, i + 1))
  }

  /** Consecutive entries of a month's day list are consecutive days. */
  lemma MonthDaysConsecutive(year: int, month: int, i: int)
    requires 0 <= i < |MonthDays(year, month)| - 1
    ensures MonthDays(year, month)[i + 1] == Next(MonthDays(year, month)[i])
    ensures DayNumber(MonthDays(year, month)[i + 1]) == DayNumber(MonthDays(year, month)[i]) + 1
  {
    DayNumberNext(MonthDays(year, month)[i]);
  }

  /** `addDays(date, days)`: `setDate(getDate() + days)` on a copy, which lands
      `days` days away from `date`. */
  function AddDays(date: Date, days: int): (r: Date)
    ensures r == Shift(date, days)
    ensures DayNumber(r) == DayNumber(date) + days
  {
    FromFirstOfMonth(date);
    ShiftAdd(CivilDate(date.year, date.month, 1), date.day - 1, days);
    assert date.month / 12 == 0 && date.month % 12 == date.month;
    DayNumberShift(date, days);
    MakeDate(date.year, date.month, date.day + days)
  }

  /** Going forward and back by the same number of days returns to the start. */
  lemma AddDaysInverse(date: Date, days: int)
    ensures AddDays(AddDays(date, days), -days) == date
  {
    DayNumberInjective(AddDays(AddDays(date, days), -days), date);
  }

  /** `isDateInRange(date, start, end)`: inclusive at both ends. */
  predicate IsDateInRange(date: Date, startDate: Date, endDate: Date) {
    DayNumber(startDate) <= DayNumber(date) <= DayNumber(endDate)
  }

  /** The days reached by adding 0 to `n` days to `start` are exactly the range
      from `start` to `start + n`. */
  lemma AddDaysRange(start: Date, n: nat, date: Date)
    ensures IsDateInRange(date, start, AddDays(start, n)) <==>
      exists k :: 0 <= k <= n && date == AddDays(start, k)
  {
    var k := DayNumber(date) - DayNumber(start);
    if 0 <= k <= n {
      DayNumberInjective(date, AddDays(start, k));
    }
  }

  /** A date is a weekend day exactly when the date a week later is. */
  lemma WeekendRepeatsWeekly(env: Option<string>, date: Date)
    ensures IsWeekend(env, AddDays(date, 7)) <==> IsWeekend(env, date)
  {
    var n := DayNumber(date) + 4;
    DivModUnique(n + 7, 7, n / 7 + 1, n % 7);
  }

  // ---------------------------------------------------------------------------
  // The date key.
  // ---------------------------------------------------------------------------

  /** The month and day fields of a key are exactly two digits. */
  lemma FormatDateParts(date: Date)
    ensures FormatDate(date) == IntToString(date.year) + "-" + FixedDigits(date.month + 1, 2)
      + "-" + FixedDigits(date.day, 2)
  {
    PadTwoDigits(date.month + 1);
    PadTwoDigits(date.day);
  }

  /** Where the parts of a `year-MM-DD` key sit. */
  lemma KeyParts(y: string, m: string, d: string)
    requires |m| == 2 && |d| == 2
    ensures var s := y + "-" + m + "-" + d;
      |s| == |y| + 6 && s[..|s| - 6] == y && s[|s| - 5..|s| - 3] == m && s[|s| - 2..] == d
  {
  }

  /** Keys with year parts of equal length compare by year, then month, then day. */
  lemma KeyOrder(ya: string, ma: string, da: string, yb: string, mb: string, db: string)
    requires |ya| == |yb| && |ma| == |mb|
    ensures StrLess(ya + "-" + ma + "-" + da, yb + "-" + mb + "-" + db) <==>
      StrLess(ya, yb) || (ya == yb && (StrLess(ma, mb) || (ma == mb && StrLess(da, db))))
  {
    assert ya + "-" + ma + "-" + da == ya + ("-" + (ma + ("-" + da)));
    assert yb + "-" + mb + "-" + db == yb + ("-" + (mb + ("-" + db)));
    StrLessConcat(ya, "-" + (ma + ("-" + da)), yb, "-" + (mb + ("-" + db)));
    StrLessIrreflexive("-");
    StrLessConcat("-", ma + ("-" + da), "-", mb + ("-" + db));
    StrLessConcat(ma, "-" + da, mb, "-" + db);
    StrLessConcat("-", da, "-", db);
  }

  /** Different days have different keys, so the key identifies the day. */
  lemma FormatDateInjective(a: Date, b: Date)
    ensures FormatDate(a) == FormatDate(b) <==> a == b
  {
    if FormatDate(a) == FormatDate(b) {
      SameKeySameDate(a, b);
    }
  }

  lemma SameKeySameDate(a: Date, b: Date)
    requires FormatDate(a) == FormatDate(b)
    ensures a == b
  {
    var ya, ma, da := IntToString(a.year), FixedDigits(a.month + 1, 2), FixedDigits(a.day, 2);
    var yb, mb, db := IntToString(b.year), FixedDigits(b.month + 1, 2), FixedDigits(b.day, 2);
    assert ya + "-" + ma + "-" + da == yb + "-" + mb + "-" + db by {
      FormatDateParts(a);
      FormatDateParts(b);
    }
    KeyPartsEqual(ya, ma, da, yb, mb, db);
    IntToStringInjective(a.year, b.year);
    assert Pow10(2) == 100;
    FixedDigitsInjective(a.month + 1, b.month + 1, 2);
    FixedDigitsInjective(a.day, b.day, 2);
  }

  /** Equal keys have equal parts. */
  lemma KeyPartsEqual(ya: string, ma: string, da: string, yb: string, mb: string, db: string)
    requires |ma| == 2 && |da| == 2 && |mb| == 2 && |db| == 2
    requires ya + "-" + ma + "-" + da == yb + "-" + mb + "-" + db
    ensures ya == yb && ma == mb && da == db
  {
    KeyParts(ya, ma, da);
    KeyParts(yb, mb, db);
  }

  /** Years with four digits. */
  predicate FourDigitYear(date: Date) {
    1000 <= date.year <= 9999
  }

  /** Keys of four-digit years are fixed-width digit blocks. */
  lemma FormatDateFixed(date: Date)
    requires FourDigitYear(date)
    ensures FormatDate(date) == FixedKey(date.year, date.month + 1, date.day)
  {
    FormatDateParts(date);
    NatToStringFixed(date.year, 4);
  }

  /** The key a four-digit year, a month number and a day number render to. */
  function FixedKey(y: nat, m: nat, d: nat): string {
    FixedDigits(y, 4) + "-" + FixedDigits(m, 2) + "-" + FixedDigits(d, 2)
  }

  lemma FixedKeyOrder(y1: nat, m1: nat, d1: nat, y2: nat, m2: nat, d2: nat)
    requires y1 < 10000 && y2 < 10000 && m1 < 100 && m2 < 100 && d1 < 100 && d2 < 100
    ensures StrLess(FixedKey(y1, m1, d1), FixedKey(y2, m2, d2)) <==>
      y1 < y2 || (y1 == y2 && (m1 < m2 || (m1 == m2 && d1 < d2)))
  {
    assert Pow10(2) == 100 && Pow10(4) == 10000;
    KeyOrder(FixedDigits(y1, 4), FixedDigits(m1, 2), FixedDigits(d1, 2),
             FixedDigits(y2, 4), FixedDigits(m2, 2), FixedDigits(d2, 2));
    FixedDigitsOrder(y1, y2, 4);
    FixedDigitsOrder(m1, m2, 2);
    FixedDigitsOrder(d1, d2, 2);
    FixedDigitsInjective(y1, y2, 4);
    FixedDigitsInjective(m1, m2, 2);
  }

  /** `a` comes before `b` by year, then month, then day. */
  predicate Before(a: Date, b: Date) {
    a.year < b.year || (a.year == b.year && (a.month < b.month || (a.month == b.month && a.day < b.day)))
  }

  /** For four-digit years, comparing keys as strings compares the days
      chronologically; this is what lets leave periods be compared on keys. */
  lemma FormatDateOrder(a: Date, b: Date)
    requires FourDigitYear(a) && FourDigitYear(b)
    ensures StrLess(FormatDate(a), FormatDate(b)) <==> DayNumber(a) < DayNumber(b)
  {
    KeyOrderBefore(a, b);
    DayNumberOrder(a, b);
  }

  lemma KeyOrderBefore(a: Date, b: Date)
    requires FourDigitYear(a) && FourDigitYear(b)
    ensures StrLess(FormatDate(a), FormatDate(b)) <==> Before(a, b)
  {
    FormatDateFixed(a);
    FormatDateFixed(b);
    FixedKeyOrder(a.year, a.month + 1, a.day, b.year, b.month + 1, b.day);
  }

  /** For four-digit years, the key comparisons `start <= key <= end` decide
      exactly `isDateInRange`. */
  lemma FormatDateRange(date: Date, startDate: Date, endDate: Date)
    requires FourDigitYear(date) && FourDigitYear(startDate) && FourDigitYear(endDate)
    ensures IsDateInRange(date, startDate, endDate) <==>
      StrLessEq(FormatDate(startDate), FormatDate(date)) && StrLessEq(FormatDate(date), FormatDate(endDate))
  {
    FormatDateOrder(startDate, date);
    FormatDateOrder(date, endDate);
    FormatDateInjective(startDate, date);
    FormatDateInjective(date, endDate);
    DayNumberInjective(startDate, date);
    DayNumberInjective(date, endDate);
  }

  /** Parsing a well-formed month and printing its first day gives the month
      back with day `01`. */
  lemma ParseMonthRoundTrip(s: string)
    requires IsMonthString(s) && s[0] != '0'
    requires 1 <= DigitsValue(s[5..]) <= 12
    ensures FormatDate(ParseMonth(s)) == s + "-01"
  {
    ParsedMonthKey(s);
    MonthStringJoin(s);
    DayOneSuffix(s);
  }

  lemma ParsedMonthKey(s: string)
    requires IsMonthString(s) && s[0] != '0'
    requires 1 <= DigitsValue(s[5..]) <= 12
    ensures FormatDate(ParseMonth(s)) == FixedKey(DigitsValue(s[..4]), DigitsValue(s[5..]), 1)
  {
    var y, m := DigitsValue(s[..4]), DigitsValue(s[5..]);
    var d := ParseMonth(s);
    assert 1000 <= y <= 9999 by {
      MonthStringParts(s);
    }
    assert d == CivilDate(y, m - 1, 1);
    FormatDateFixed(d);
  }

  lemma MonthStringJoin(s: string)
    requires IsMonthString(s) && s[0] != '0'
    ensures FixedDigits(DigitsValue(s[..4]), 4) + "-" + FixedDigits(DigitsValue(s[5..]), 2) == s
  {
    MonthStringParts(s);
    assert s == s[..4] + "-" + s[5..];
  }

  lemma DayOneSuffix(s: string)
    ensures s + "-01" == s + "-" + FixedDigits(1, 2)
  {
    assert FixedDigits(1, 2) == "01";
  }

  /** The year and month blocks of a `YYYY-MM` string without a leading zero
      render back to themselves, and the year has four digits. */
  lemma MonthStringParts(s: string)
    requires IsMonthString(s) && s[0] != '0'
    ensures 1000 <= DigitsValue(s[..4]) <= 9999
    ensures FixedDigits(DigitsValue(s[..4]), 4) == s[..4]
    ensures FixedDigits(DigitsValue(s[5..]), 2) == s[5..]
  {
    var y := DigitsValue(s[..4]);
    DigitsRoundTrip(s[..4]);
    DigitsRoundTrip(s[5..]);
    assert s[..4][0] == s[0];
    FixedDigitsLeading(y, 4);
  }

  /** The first seven characters of a first-of-month key parse back to that day. */
  lemma FormatParseRoundTrip(date: Date)
    requires FourDigitYear(date) && date.day == 1
    ensures IsMonthString(FormatDate(date)[..7])
    ensures ParseMonth(FormatDate(date)[..7]) == date
  {
    var s := FormatDate(date)[..7];
    MonthPrefix(date);
    assert s[..4] == FixedDigits(date.year, 4);
    assert s[5..] == FixedDigits(date.month + 1, 2);
    assert Pow10(2) == 100 && Pow10(4) == 10000;
    FixedDigitsSmall(date.year, 4);
    FixedDigitsSmall(date.month + 1, 2);
    var y, m := DigitsValue(s[..4]), DigitsValue(s[5..]);
    assert y == date.year && m == date.month + 1;
    assert FullYear(y) == y;
  }

  /** The first seven characters of a four-digit-year key are the year block, a
      dash and the month block. */
  lemma MonthPrefix(date: Date)
    requires FourDigitYear(date)
    ensures |FormatDate(date)| == 10
    ensures FormatDate(date)[..4] == FixedDigits(date.year, 4)
    ensures FormatDate(date)[4] == '-'
    ensures FormatDate(date)[5..7] == FixedDigits(date.month + 1, 2)
  {
    FormatDateFixed(date);
  }

  /** A number that fits in `w` digits reads back from its rendering. */
  lemma FixedDigitsSmall(n: nat, w: nat)
    requires n < Pow10(w)
    ensures DigitsValue(FixedDigits(n, w)) == n
  {
    FixedDigitsValue(n, w);
    DivModUnique(n, Pow10(w), 0, n);
  }
}
