/** The month the engine plans and the shifts it plans for it: the day
    descriptors built by `initialize`, the demand rules of `createShifts`, and
    the grouping of shifts by day key in `assignNursesToShifts`. */
module SchedulerPlan {
  import opened Wrappers
  import opened Seqs
  import opened Strings
  import opened Calendar
  import opened DateUtils
  import opened Arithmetic
  import opened SchedulerTypes

  // ---------------------------------------------------------------------------
  // Month expansion.
  // ---------------------------------------------------------------------------

  /** The descriptor `initialize` builds for one date. */
  function DescribeDay(env: Option<string>, date: Date): DayInfo {
    DayInfo(date, FormatDate(date), IsWeekend(env, date), IsHoliday(date))
  }

  /** `month.split('-').map(Number)` on a `YYYY-MM` string. */
  function YearOf(month: string): nat
    requires IsMonthString(month)
  {
    DigitsValue(month[..4])
  }

  function MonthNumberOf(month: string): nat
    requires IsMonthString(month)
  {
    DigitsValue(month[5..])
  }

  /** The days `initialize` describes: `getMonthDates(year, monthNum - 1)`, each
      with its key and flags. */
  function MonthInfo(env: Option<string>, month: string): (days: seq<DayInfo>)
    requires IsMonthString(month)
    ensures |days| == GetDaysInMonth(YearOf(month), MonthNumberOf(month) - 1)
    ensures forall i :: 0 <= i < |days| ==> days[i] == DescribeDay(env, days[i].date)
  {
    var dates := MonthDays(YearOf(month), MonthNumberOf(month) - 1);
    seq(|dates|, i requires 0 <= i < |dates| => DescribeDay(env, dates[i]))
  }

  /** For months `01` to `12`, entry `i` describes day `i + 1` of that month of
      that year, a year `0000` to `0099` standing for 1900 to 1999. */
  lemma MonthInfoDates(env: Option<string>, month: string)
    requires IsMonthString(month) && 1 <= MonthNumberOf(month) <= 12
    ensures forall i :: 0 <= i < |MonthInfo(env, month)| ==>
      MonthInfo(env, month)[i].date == CivilDate(FullYear(YearOf(month)), MonthNumberOf(month) - 1, i + 1)
  {
    var m := MonthNumberOf(month) - 1;
    DivModUnique(m, 12, 0, m);
  }

  /** A month of a year `0000` to `0099` is planned in the 1900s: its days fall
      in 1900 + year, and its February has 29 days exactly when 1900 + year is
      a leap year, which `0000` (1900) is not. */
  lemma TwoDigitYearMonth(env: Option<string>, month: string)
    requires IsMonthString(month) && YearOf(month) <= 99 && MonthNumberOf(month) == 2
    ensures forall i :: 0 <= i < |MonthInfo(env, month)| ==> MonthInfo(env, month)[i].date.year == 1900 + YearOf(month)
    ensures |MonthInfo(env, month)| == if YearOf(month) % 4 == 0 && YearOf(month) != 0 then 29 else 28
  {
    var y := YearOf(month);
    MonthInfoDates(env, month);
    assert (1900 + y) % 4 == y % 4 by {
      DivModUnique(1900 + y, 4, 475 + y / 4, y % 4);
    }
    assert (1900 + y) % 100 == y by {
      DivModUnique(1900 + y, 100, 19, y);
    }
  }

  /** Day descriptors as `initialize` builds them, for consecutive days. */
  ghost predicate WellFormedMonth(env: Option<string>, days: seq<DayInfo>) {
    && (forall i :: 0 <= i < |days| ==> days[i] == DescribeDay(env, days[i].date))
    && (forall i :: 0 < i < |days| ==> DayNumber(days[i].date) == DayNumber(days[i - 1].date) + 1)
  }

  lemma MonthInfoWellFormed(env: Option<string>, month: string)
    requires IsMonthString(month)
    ensures WellFormedMonth(env, MonthInfo(env, month))
  {
    var days := MonthInfo(env, month);
    var y, m := YearOf(month), MonthNumberOf(month) - 1;
    forall i | 0 < i < |days|
      ensures DayNumber(days[i].date) == DayNumber(days[i - 1].date) + 1
    {
      MonthDaysConsecutive(y, m, i - 1);
    }
  }

  /** Along a well-formed month, day numbers go up by one per entry. */
  lemma {:induction false} DayNumberAt(env: Option<string>, days: seq<DayInfo>, i: int)
    requires WellFormedMonth(env, days) && 0 <= i < |days|
    ensures DayNumber(days[i].date) == DayNumber(days[0].date) + i
  {
    if i > 0 {
      DayNumberAt(env, days, i - 1);
    }
  }

  /** The days of a well-formed month are strictly ascending, so their keys are
      all different. */
  lemma MonthKeysDistinct(env: Option<string>, days: seq<DayInfo>)
    requires WellFormedMonth(env, days)
    ensures forall a, b :: 0 <= a < b < |days| ==> DayNumber(days[a].date) < DayNumber(days[b].date)
    ensures forall a, b :: 0 <= a < b < |days| ==> days[a].dateStr != days[b].dateStr
  {
    forall a, b | 0 <= a < b < |days|
      ensures DayNumber(days[a].date) < DayNumber(days[b].date)
      ensures days[a].dateStr != days[b].dateStr
    {
      DayNumberAt(env, days, a);
      DayNumberAt(env, days, b);
      FormatDateInjective(days[a].date, days[b].date);
    }
  }

  // ---------------------------------------------------------------------------
  // Demand planning.
  // ---------------------------------------------------------------------------

  /** Weekend days and holidays get one 24-hour shift. */
  predicate IsRestDay(day: DayInfo) {
    day.isWeekend || day.isHoliday
  }

  predicate IsWorkday(day: DayInfo) {
    !IsRestDay(day)
  }

  /** The shifts `createShifts` plans for one day. */
  function PlanDay(day: DayInfo): seq<ShiftNeed> {
    if day.isWeekend || day.isHoliday then
      [ShiftNeed(day.dateStr, Weekend24h, "00:00", "24:00", 2, false)]
    else
      [ShiftNeed(day.dateStr, Day8h, "08:00", "16:00", 2, true),
       ShiftNeed(day.dateStr, Night16h, "16:00", "08:00", 2, false)]
  }

  /** The shifts `createShifts` plans for the month: each day's shifts, day by day. */
  function PlanShifts(days: seq<DayInfo>): seq<ShiftNeed> {
    if days == [] then [] else PlanDay(days[0]) + PlanShifts(days[1..])
  }

  lemma {:induction false} PlanShiftsConcat(a: seq<DayInfo>, b: seq<DayInfo>)
    ensures PlanShifts(a + b) == PlanShifts(a) + PlanShifts(b)
  {
    if a == [] {
      assert a + b == b;
    } else {
      assert (a + b)[0] == a[0];
      assert (a + b)[1..] == a[1..] + b;
      PlanShiftsConcat(a[1..], b);
    }
  }

  /** Two shifts per workday and one per weekend day or holiday. */
  lemma {:induction false} PlanShiftsCount(days: seq<DayInfo>)
    ensures |PlanShifts(days)| == 2 * |Filter(days, IsWorkday)| + |Filter(days, IsRestDay)|
  {
    if days != [] {
      PlanShiftsCount(days[1..]);
    }
  }

  /** The keys of a list of days. */
  ghost function Keys(days: seq<DayInfo>): set<string> {
    set i | 0 <= i < |days| :: days[i].dateStr
  }

  /** Every planned shift is dated on one of the planned days. */
  lemma {:induction false} PlanShiftsKeys(days: seq<DayInfo>)
    ensures forall i :: 0 <= i < |PlanShifts(days)| ==> PlanShifts(days)[i].date in Keys(days)
  {
    if days != [] {
      PlanShiftsKeys(days[1..]);
      assert Keys(days[1..]) <= Keys(days) by {
        forall k | k in Keys(days[1..])
          ensures k in Keys(days)
        {
          var i :| 0 <= i < |days[1..]| && days[1..][i].dateStr == k;
          assert days[i + 1].dateStr == k;
        }
      }
      assert days[0].dateStr in Keys(days);
    }
  }

  // ---------------------------------------------------------------------------
  // Grouping by day key.
  // ---------------------------------------------------------------------------

  function OnDate(key: string): Shift -> bool {
    (s: Shift) => s.need.date == key
  }

  /** The shifts dated `key`, in their original order. */
  function ShiftsOn(shifts: seq<Shift>, key: string): seq<Shift> {
    Filter(shifts, OnDate(key))
  }

  /** Shifts that carry the planned needs, in the planned order. */
  ghost predicate Planned(shifts: seq<Shift>, days: seq<DayInfo>) {
    |shifts| == |PlanShifts(days)| && forall i :: 0 <= i < |shifts| ==> shifts[i].need == PlanShifts(days)[i]
  }

  /** Where the shifts of day `di` start among the planned shifts. */
  function DayOffset(days: seq<DayInfo>, di: int): nat
    requires 0 <= di <= |days|
  {
    |PlanShifts(days[..di])|
  }

  /** The plan of a month is the plan before day `di`, that day's shifts, and the
      plan after it. */
  lemma PlanSplit(days: seq<DayInfo>, di: int)
    requires 0 <= di < |days|
    ensures PlanShifts(days) == PlanShifts(days[..di]) + PlanDay(days[di]) + PlanShifts(days[di + 1..])
  {
    var before, after := days[..di], days[di + 1..];
    SplitAround(days, di);
    PlanShiftsConcat(before + [days[di]], after);
    PlanShiftsConcat(before, [days[di]]);
    assert PlanShifts([days[di]]) == PlanDay(days[di]);
  }

  /** With distinct keys, day `di`'s key is not the key of any other day. */
  lemma KeyElsewhere(days: seq<DayInfo>, di: int)
    requires forall a, b :: 0 <= a < b < |days| ==> days[a].dateStr != days[b].dateStr
    requires 0 <= di < |days|
    ensures days[di].dateStr !in Keys(days[..di])
    ensures days[di].dateStr !in Keys(days[di + 1..])
  {
    var key := days[di].dateStr;
    var before, after := days[..di], days[di + 1..];
    forall i | 0 <= i < |before|
      ensures before[i].dateStr != key
    {
      assert before[i] == days[i];
    }
    forall i | 0 <= i < |after|
      ensures after[i].dateStr != key
    {
      assert after[i] == days[di + 1 + i];
    }
  }

  /** When shifts carry the needs `a + b + c` and only the needs of `b` are dated
      `key`, the shifts dated `key` are the block that carries `b`. */
  lemma BlockOnKey(shifts: seq<Shift>, a: seq<ShiftNeed>, b: seq<ShiftNeed>, c: seq<ShiftNeed>, key: string)
    requires |shifts| == |a| + |b| + |c|
    requires forall i :: 0 <= i < |shifts| ==> shifts[i].need == (a + b + c)[i]
    requires forall i :: 0 <= i < |a| ==> a[i].date != key
    requires forall i :: 0 <= i < |b| ==> b[i].date == key
    requires forall i :: 0 <= i < |c| ==> c[i].date != key
    ensures ShiftsOn(shifts, key) == shifts[|a|..|a| + |b|]
    ensures forall k :: 0 <= k < |b| ==> shifts[|a| + k].need == b[k]
  {
    BlockNeeds(shifts, a, b, c);
    var lo, hi := |a|, |a| + |b|;
    var sa, sb, sc := shifts[..lo], shifts[lo..hi], shifts[hi..];
    SplitThree(shifts, lo, hi);
    forall i | 0 <= i < |sa|
      ensures !OnDate(key)(sa[i])
    {
      assert sa[i] == shifts[i] && (a + b + c)[i] == a[i];
    }
    forall i | 0 <= i < |sb|
      ensures OnDate(key)(sb[i])
    {
      assert sb[i] == shifts[lo + i] && (a + b + c)[lo + i] == b[i];
    }
    forall i | 0 <= i < |sc|
      ensures !OnDate(key)(sc[i])
    {
      assert sc[i] == shifts[hi + i] && (a + b + c)[hi + i] == c[i];
    }
    FilterBlock(sa, sb, sc, OnDate(key));
  }

  /** Planned shifts of days whose keys do not include `key` are not dated `key`. */
  lemma KeyAbsent(part: seq<DayInfo>, key: string)
    requires key !in Keys(part)
    ensures forall i :: 0 <= i < |PlanShifts(part)| ==> PlanShifts(part)[i].date != key
  {
    PlanShiftsKeys(part);
  }

  /** When the days have distinct keys, the shifts dated with day `di`'s key are
      exactly that day's planned shifts, in the planned order. */
  lemma GroupOfDay(days: seq<DayInfo>, shifts: seq<Shift>, di: int)
    requires forall a, b :: 0 <= a < b < |days| ==> days[a].dateStr != days[b].dateStr
    requires Planned(shifts, days)
    requires 0 <= di < |days|
    ensures DayOffset(days, di) + |PlanDay(days[di])| <= |shifts|
    ensures ShiftsOn(shifts, days[di].dateStr) ==
      shifts[DayOffset(days, di)..DayOffset(days, di) + |PlanDay(days[di])|]
    ensures forall k :: 0 <= k < |PlanDay(days[di])| ==>
      shifts[DayOffset(days, di) + k].need == PlanDay(days[di])[k]
  {
    var key, pb := days[di].dateStr, PlanDay(days[di]);
    var pa, pc := PlanAround(days, shifts, di);
    assert forall i :: 0 <= i < |pb| ==> pb[i].date == key;
    assert ShiftsOn(shifts, key) == shifts[|pa|..|pa| + |pb|] && forall k :: 0 <= k < |pb| ==> shifts[|pa| + k].need == pb[k] by {
      BlockOnKey(shifts, pa, pb, pc, key);
    }
  }

  /** The planned needs around day `di`: those of the days before it, which start
      the plan and carry other keys, and those of the days after it. */
  lemma PlanAround(days: seq<DayInfo>, shifts: seq<Shift>, di: int) returns (pa: seq<ShiftNeed>, pc: seq<ShiftNeed>)
    requires forall a, b :: 0 <= a < b < |days| ==> days[a].dateStr != days[b].dateStr
    requires Planned(shifts, days)
    requires 0 <= di < |days|
    ensures |pa| == DayOffset(days, di)
    ensures |shifts| == |pa| + |PlanDay(days[di])| + |pc|
    ensures forall i :: 0 <= i < |shifts| ==> shifts[i].need == (pa + PlanDay(days[di]) + pc)[i]
    ensures forall i :: 0 <= i < |pa| ==> pa[i].date != days[di].dateStr
    ensures forall i :: 0 <= i < |pc| ==> pc[i].date != days[di].dateStr
  {
    var key := days[di].dateStr;
    var before, after := days[..di], days[di + 1..];
    pa, pc := PlanShifts(before), PlanShifts(after);
    assert PlanShifts(days) == pa + PlanDay(days[di]) + pc by {
      PlanSplit(days, di);
    }
    KeyElsewhere(days, di);
    KeyAbsent(before, key);
    KeyAbsent(after, key);
  }

  /** The shifts planned from the middle block carry its needs. */
  lemma BlockNeeds(shifts: seq<Shift>, a: seq<ShiftNeed>, b: seq<ShiftNeed>, c: seq<ShiftNeed>)
    requires |shifts| == |a| + |b| + |c|
    requires forall i :: 0 <= i < |shifts| ==> shifts[i].need == (a + b + c)[i]
    ensures forall k :: 0 <= k < |b| ==> shifts[|a| + k].need == b[k]
  {
    forall k | 0 <= k < |b|
      ensures shifts[|a| + k].need == b[k]
    {
      assert (a + b + c)[|a| + k] == b[k];
    }
  }
}
