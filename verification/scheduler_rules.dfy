/** The read-only rules the engine applies to one nurse on one day: whether a
    leave record blocks the day, what recording a shift does to a ledger entry,
    the hard eligibility rules of the three shift kinds, and the priority score
    that orders eligible nurses. */
module SchedulerRules {
  import opened Wrappers
  import opened Seqs
  import opened Strings
  import opened Calendar
  import opened DateUtils
  import opened FairnessCalculator
  import opened Ranking
  import opened SchedulerTypes

  // ---------------------------------------------------------------------------
  // Leaves.
  // ---------------------------------------------------------------------------

  /** JavaScript truthiness of an optional string: present and not empty. */
  predicate Truthy(s: Option<string>) {
    s.Some? && s.value != ""
  }

  /** One leave record keeps `nurseId` off the day keyed `dateStr`: it belongs to
      that nurse, it is not a preference (a missing type reads as `annual`), it
      has both bounds, and `dateStr >= start && dateStr <= end` as strings. */
  predicate LeaveBlocks(leave: Leave, nurseId: string, dateStr: string) {
    && leave.NurseId() == Some(nurseId)
    && leave.kind.GetOr(Annual) != Preference
    && Truthy(leave.StartDate()) && Truthy(leave.EndDate())
    && !StrLess(dateStr, leave.StartDate().value)
    && !StrLess(leave.EndDate().value, dateStr)
  }

  /** `isNurseOnLeave`: `leaves.some(...)`, scanning the records in order. */
  predicate IsNurseOnLeave(leaves: seq<Leave>, nurseId: string, dateStr: string) {
    if leaves == [] then false
    else LeaveBlocks(leaves[0], nurseId, dateStr) || IsNurseOnLeave(leaves[1..], nurseId, dateStr)
  }

  /** A nurse is on leave exactly when some record blocks the day. */
  lemma {:induction false} OnLeaveSome(leaves: seq<Leave>, nurseId: string, dateStr: string)
    ensures IsNurseOnLeave(leaves, nurseId, dateStr) <==>
      exists i :: 0 <= i < |leaves| && LeaveBlocks(leaves[i], nurseId, dateStr)
  {
    if leaves != [] {
      OnLeaveSome(leaves[1..], nurseId, dateStr);
      if exists i :: 0 <= i < |leaves| && LeaveBlocks(leaves[i], nurseId, dateStr) {
        var i :| 0 <= i < |leaves| && LeaveBlocks(leaves[i], nurseId, dateStr);
        if i > 0 {
          assert leaves[1..][i - 1] == leaves[i];
        }
      }
      if exists i :: 0 <= i < |leaves[1..]| && LeaveBlocks(leaves[1..][i], nurseId, dateStr) {
        var i :| 0 <= i < |leaves[1..]| && LeaveBlocks(leaves[1..][i], nurseId, dateStr);
        assert leaves[i + 1] == leaves[1..][i];
      }
    }
  }

  /** For keys of four-digit years, a leave record with date keys as bounds
      blocks a day exactly when it is the nurse's, it is not a preference, and
      the day lies in the inclusive range of the bounds. */
  lemma LeaveBlocksOnDay(leave: Leave, nurseId: string, date: Date, startDate: Date, endDate: Date)
    requires FourDigitYear(date) && FourDigitYear(startDate) && FourDigitYear(endDate)
    requires leave.StartDate() == Some(FormatDate(startDate))
    requires leave.EndDate() == Some(FormatDate(endDate))
    ensures LeaveBlocks(leave, nurseId, FormatDate(date)) <==>
      leave.NurseId() == Some(nurseId) && leave.kind != Some(Preference) && IsDateInRange(date, startDate, endDate)
  {
    FormatDateOrder(date, startDate);
    FormatDateOrder(endDate, date);
    FormatDateFixed(startDate);
    FormatDateFixed(endDate);
  }

  // ---------------------------------------------------------------------------
  // The ledger entry of a staff nurse.
  // ---------------------------------------------------------------------------

  /** The entry `initializeNurseStats` creates. */
  function ZeroStats(nurse: Nurse): NurseStats {
    NurseStats(nurse, 0, 0, 0, 0, 0, None)
  }

  /** `isNurseAssignedOnDate`: the last recorded shift is on the day keyed `dateStr`. */
  predicate AssignedOn(s: NurseStats, dateStr: string) {
    s.lastShiftDate.Some? && FormatDate(s.lastShiftDate.value) == dateStr
  }

  /** The last recorded shift was on the day before `date`, compared as keys. */
  predicate WorkedDayBefore(s: NurseStats, date: Date) {
    s.lastShiftDate.Some? && FormatDate(s.lastShiftDate.value) == FormatDate(AddDays(date, -1))
  }

  /** Keys compare as dates: the last shift was on the previous calendar day. */
  lemma WorkedDayBeforeMeaning(s: NurseStats, date: Date)
    ensures WorkedDayBefore(s, date) <==>
      s.lastShiftDate.Some? && DayNumber(s.lastShiftDate.value) == DayNumber(date) - 1
  {
    if s.lastShiftDate.Some? {
      FormatDateInjective(s.lastShiftDate.value, AddDays(date, -1));
      DayNumberInjective(s.lastShiftDate.value, AddDays(date, -1));
    }
  }

  /** `updateNurseStats` applied to one entry. */
  function Recorded(s: NurseStats, u: StatsUpdate): NurseStats {
    s.(totalHours := s.totalHours + u.hours,
       dayShiftCount := s.dayShiftCount + 1,
       nightShiftCount := if u.isNight then s.nightShiftCount + 1 else s.nightShiftCount,
       weekendShiftCount := if u.isWeekend then s.weekendShiftCount + 1 else s.weekendShiftCount,
       consecutiveDays := if WorkedDayBefore(s, u.date) then s.consecutiveDays + 1 else 1,
       lastShiftDate := Some(u.date))
  }

  /** What recording a shift does, field by field: the hours and the shift count
      grow, the night and weekend counts grow exactly when flagged, the run of
      consecutive days grows when the previous shift was the day before and
      restarts at 1 otherwise, the shift date becomes the last date, and the
      nurse is unchanged. */
  lemma RecordedSpec(s: NurseStats, u: StatsUpdate)
    ensures var r := Recorded(s, u);
      && r.nurse == s.nurse
      && r.totalHours == s.totalHours + u.hours
      && r.dayShiftCount == s.dayShiftCount + 1
      && r.nightShiftCount == s.nightShiftCount + (if u.isNight then 1 else 0)
      && r.weekendShiftCount == s.weekendShiftCount + (if u.isWeekend then 1 else 0)
      && r.consecutiveDays ==
           (if s.lastShiftDate.Some? && DayNumber(s.lastShiftDate.value) == DayNumber(u.date) - 1
            then s.consecutiveDays + 1 else 1)
      && r.lastShiftDate == Some(u.date)
  {
    WorkedDayBeforeMeaning(s, u.date);
  }

  // ---------------------------------------------------------------------------
  // Eligibility.
  // ---------------------------------------------------------------------------

  /** `getEligibleStaffForDay`, for one nurse and its ledger entry. */
  predicate DayOk(leaves: seq<Leave>, n: Nurse, s: NurseStats, day: DayInfo) {
    && !IsNurseOnLeave(leaves, n.id, day.dateStr)
    && !AssignedOn(s, day.dateStr)
    && s.consecutiveDays < 5
  }

  /** `getEligibleStaffForNight`: the day rules, no shift the day before once
      any night has been worked this month, and fewer than 10 nights. */
  predicate NightOk(leaves: seq<Leave>, n: Nurse, s: NurseStats, day: DayInfo) {
    && !IsNurseOnLeave(leaves, n.id, day.dateStr)
    && !AssignedOn(s, day.dateStr)
    && !(WorkedDayBefore(s, day.date) && s.nightShiftCount > 0)
    && s.consecutiveDays < 5
    && s.nightShiftCount < 10
  }

  /** `getEligibleStaffForWeekend`: not on leave, no shift the day before, and
      fewer than 4 weekend shifts. */
  predicate WeekendOk(leaves: seq<Leave>, n: Nurse, s: NurseStats, day: DayInfo) {
    && !IsNurseOnLeave(leaves, n.id, day.dateStr)
    && !WorkedDayBefore(s, day.date)
    && s.weekendShiftCount < 4
  }

  /** The eligibility rule of a shift kind, for one nurse and its entry. */
  predicate KindOk(kind: ShiftType, leaves: seq<Leave>, n: Nurse, s: NurseStats, day: DayInfo) {
    match kind
    case Day8h => DayOk(leaves, n, s, day)
    case Night16h => NightOk(leaves, n, s, day)
    case Weekend24h => WeekendOk(leaves, n, s, day)
  }

  /** The filter predicate: a staff nurse always has a ledger entry (the source
      reads it with `nurseStats.get(id)!`). */
  function RuleFor(kind: ShiftType, leaves: seq<Leave>, ledger: map<string, NurseStats>, day: DayInfo): Nurse -> bool {
    (n: Nurse) => n.id in ledger && KindOk(kind, leaves, n, ledger[n.id], day)
  }

  /** `getEligibleStaffFor*`: the staff that pass the rule, in staff order. */
  function Eligible(kind: ShiftType, staff: seq<Nurse>, leaves: seq<Leave>, ledger: map<string, NurseStats>, day: DayInfo): seq<Nurse> {
    Filter(staff, RuleFor(kind, leaves, ledger, day))
  }

  /** Eligibility keeps the staff order, and keeps exactly the staff nurses that
      pass the rule. */
  lemma EligibleSpec(kind: ShiftType, staff: seq<Nurse>, leaves: seq<Leave>, ledger: map<string, NurseStats>, day: DayInfo)
    ensures var e := Eligible(kind, staff, leaves, ledger, day);
      && IsSubsequence(e, staff)
      && (forall i :: 0 <= i < |e| ==> e[i] in staff && e[i].id in ledger && KindOk(kind, leaves, e[i], ledger[e[i].id], day))
      && (forall i :: 0 <= i < |staff| && staff[i].id in ledger && KindOk(kind, leaves, staff[i], ledger[staff[i].id], day) ==> staff[i] in e)
  {
    var p := RuleFor(kind, leaves, ledger, day);
    FilterSpec(staff, p);
    var e := Eligible(kind, staff, leaves, ledger, day);
    assert forall i :: 0 <= i < |e| ==> p(e[i]);
    assert forall i :: 0 <= i < |staff| && staff[i].id in ledger && KindOk(kind, leaves, staff[i], ledger[staff[i].id], day) ==> p(staff[i]);
  }

  /** The bounds every ledger entry keeps: at most 5 consecutive days and at most
      4 weekend shifts. */
  predicate WithinLimits(s: NurseStats) {
    0 <= s.consecutiveDays <= 5 && 0 <= s.weekendShiftCount <= 4
  }

  /** A day shift (on a day that is not a weekend day) keeps the limits: the run
      of consecutive days was below 5. */
  lemma DayShiftKeepsLimits(leaves: seq<Leave>, n: Nurse, s: NurseStats, day: DayInfo, u: StatsUpdate)
    requires WithinLimits(s) && DayOk(leaves, n, s, day)
    requires !u.isWeekend
    ensures WithinLimits(Recorded(s, u))
  {
  }

  /** A night shift (on a day that is not a weekend day) keeps the limits and the
      night count stays at most 10. */
  lemma NightShiftKeepsLimits(leaves: seq<Leave>, n: Nurse, s: NurseStats, day: DayInfo, u: StatsUpdate)
    requires WithinLimits(s) && NightOk(leaves, n, s, day)
    requires !u.isWeekend && u.isNight
    ensures WithinLimits(Recorded(s, u))
    ensures Recorded(s, u).nightShiftCount <= 10
  {
  }

  /** A weekend shift restarts the run of consecutive days at 1 (the nurse did
      not work the day before) and keeps the weekend count at most 4. */
  lemma WeekendShiftKeepsLimits(leaves: seq<Leave>, n: Nurse, s: NurseStats, day: DayInfo, u: StatsUpdate)
    requires WithinLimits(s) && WeekendOk(leaves, n, s, day)
    requires u.date == day.date
    ensures WithinLimits(Recorded(s, u))
    ensures Recorded(s, u).consecutiveDays == 1
  {
  }

  /** Day-shift eligibility does not look at the night before: a nurse whose last
      shift was yesterday, after nights this month, may still take the day shift. */
  lemma DayShiftIgnoresNightRest(leaves: seq<Leave>, n: Nurse, s: NurseStats, day: DayInfo)
    requires day.dateStr == FormatDate(day.date)
    requires s.lastShiftDate == Some(AddDays(day.date, -1)) && s.nightShiftCount > 0
    requires !IsNurseOnLeave(leaves, n.id, day.dateStr) && s.consecutiveDays < 5
    ensures DayOk(leaves, n, s, day)
    ensures !NightOk(leaves, n, s, day)
  {
    YesterdayNotToday(s, day);
  }

  /** The night rest rule reads the month's night count, not the kind of
      yesterday's shift: after a shift yesterday, night eligibility holds exactly
      when no night has been worked this month and the other night rules hold. */
  lemma NightRestUsesMonthlyCount(leaves: seq<Leave>, n: Nurse, s: NurseStats, day: DayInfo)
    requires day.dateStr == FormatDate(day.date)
    requires s.lastShiftDate == Some(AddDays(day.date, -1)) && s.nightShiftCount >= 0
    ensures NightOk(leaves, n, s, day) <==>
      s.nightShiftCount == 0 && !IsNurseOnLeave(leaves, n.id, day.dateStr) && s.consecutiveDays < 5
  {
    YesterdayNotToday(s, day);
  }

  /** A nurse whose last shift was yesterday worked the day before and is not
      yet assigned today. */
  lemma YesterdayNotToday(s: NurseStats, day: DayInfo)
    requires day.dateStr == FormatDate(day.date)
    requires s.lastShiftDate == Some(AddDays(day.date, -1))
    ensures WorkedDayBefore(s, day.date) && !AssignedOn(s, day.dateStr)
  {
    var y := AddDays(day.date, -1);
    assert y != day.date by {
      assert DayNumber(y) == DayNumber(day.date) - 1;
    }
    FormatDateInjective(y, day.date);
  }

  /** Weekend eligibility does not look at the night count, so a weekend shift
      can take a nurse past 10 nights. */
  lemma WeekendIgnoresNightCap(leaves: seq<Leave>, n: Nurse, s: NurseStats, day: DayInfo, nights: int)
    ensures WeekendOk(leaves, n, s, day) <==> WeekendOk(leaves, n, s.(nightShiftCount := nights), day)
    ensures WeekendOk(leaves, n, s, day) && s.nightShiftCount >= 10 ==>
      Recorded(s, StatsUpdate(24, true, true, day.date)).nightShiftCount > 10
  {
  }

  // ---------------------------------------------------------------------------
  // Priority.
  // ---------------------------------------------------------------------------

  /** The three monthly averages the score compares each nurse with. */
  datatype Averages = Averages(hours: real, nights: real, weekends: real)

  /** Every id of the ledger's iteration order has an entry. */
  predicate OrderInLedger(ledger: map<string, NurseStats>, order: seq<string>) {
    forall i :: 0 <= i < |order| ==> order[i] in ledger
  }

  function Hours(s: NurseStats): int { s.totalHours }
  function Nights(s: NurseStats): int { s.nightShiftCount }
  function Weekends(s: NurseStats): int { s.weekendShiftCount }

  /** `Array.from(nurseStats.values()).map(f)`, in the Map's insertion order. */
  function Column(ledger: map<string, NurseStats>, order: seq<string>, f: NurseStats -> int): (c: seq<real>)
    requires OrderInLedger(ledger, order)
    ensures |c| == |order|
    ensures forall i :: 0 <= i < |c| ==> c[i] == f(ledger[order[i]]) as real
  {
    seq(|order|, i requires 0 <= i < |order| => f(ledger[order[i]]) as real)
  }

  function AveragesOf(ledger: map<string, NurseStats>, order: seq<string>): Averages
    requires OrderInLedger(ledger, order)
  {
    Averages(Mean(Column(ledger, order, Hours)), Mean(Column(ledger, order, Nights)),
             Mean(Column(ledger, order, Weekends)))
  }

  /** The part of the score for the time since the last shift: minus 2 per whole
      day since it, or minus 50 for a nurse who has not worked this month. */
  function RestTerm(s: NurseStats, day: DayInfo): int {
    if s.lastShiftDate.Some? then -2 * (DayNumber(day.date) - DayNumber(s.lastShiftDate.value)) else -50
  }

  /** `calculatePriorityScore`: lower is better. */
  function PriorityScore(s: NurseStats, avg: Averages, day: DayInfo): real {
    (s.totalHours as real - avg.hours) * 10.0
      + (s.nightShiftCount as real - avg.nights) * 20.0
      + (s.weekendShiftCount as real - avg.weekends) * 15.0
      + RestTerm(s, day) as real
      + (s.consecutiveDays * 5) as real
  }

  /** The averages are the same for every nurse scored at one time, so they
      cancel: two nurses compare by their own counts alone. */
  lemma ScoreDifference(a: NurseStats, b: NurseStats, avg: Averages, day: DayInfo)
    ensures PriorityScore(a, avg, day) - PriorityScore(b, avg, day) ==
      ((a.totalHours - b.totalHours) * 10 + (a.nightShiftCount - b.nightShiftCount) * 20
        + (a.weekendShiftCount - b.weekendShiftCount) * 15 + RestTerm(a, day) - RestTerm(b, day)
        + (a.consecutiveDays - b.consecutiveDays) * 5) as real
  {
  }

  /** Fewer hours, fewer nights, fewer weekends or a shorter run, all else equal,
      means a strictly better (lower) score. */
  lemma FewerShiftsFirst(a: NurseStats, b: NurseStats, avg: Averages, day: DayInfo)
    requires a.lastShiftDate == b.lastShiftDate
    requires a.totalHours <= b.totalHours && a.nightShiftCount <= b.nightShiftCount
    requires a.weekendShiftCount <= b.weekendShiftCount && a.consecutiveDays <= b.consecutiveDays
    ensures PriorityScore(a, avg, day) <= PriorityScore(b, avg, day)
    ensures PriorityScore(a, avg, day) == PriorityScore(b, avg, day) <==>
      a.totalHours == b.totalHours && a.nightShiftCount == b.nightShiftCount &&
      a.weekendShiftCount == b.weekendShiftCount && a.consecutiveDays == b.consecutiveDays
  {
    ScoreDifference(a, b, avg, day);
  }

  /** All else equal, the nurse who last worked earlier comes first. */
  lemma LongerRestFirst(a: NurseStats, b: NurseStats, avg: Averages, day: DayInfo)
    requires a.lastShiftDate.Some? && b.lastShiftDate.Some?
    requires a.totalHours == b.totalHours && a.nightShiftCount == b.nightShiftCount
    requires a.weekendShiftCount == b.weekendShiftCount && a.consecutiveDays == b.consecutiveDays
    ensures PriorityScore(a, avg, day) < PriorityScore(b, avg, day) <==>
      DayNumber(a.lastShiftDate.value) < DayNumber(b.lastShiftDate.value)
  {
    ScoreDifference(a, b, avg, day);
  }

  /** All else equal, a nurse who has not worked this month comes before one who
      last worked `k` days ago exactly when `k` is below 25. */
  lemma NeverWorkedBonus(a: NurseStats, b: NurseStats, avg: Averages, day: DayInfo, k: int)
    requires a.lastShiftDate.None? && b.lastShiftDate == Some(AddDays(day.date, -k))
    requires a.totalHours == b.totalHours && a.nightShiftCount == b.nightShiftCount
    requires a.weekendShiftCount == b.weekendShiftCount && a.consecutiveDays == b.consecutiveDays
    ensures PriorityScore(a, avg, day) < PriorityScore(b, avg, day) <==> k < 25
  {
    ScoreDifference(a, b, avg, day);
  }

  /** The score of a nurse with an entry; nurses without one are never eligible. */
  function ScoreOf(ledger: map<string, NurseStats>, avg: Averages, day: DayInfo): Nurse -> real {
    (n: Nurse) => if n.id in ledger then PriorityScore(ledger[n.id], avg, day) else 0.0
  }

  /** `selectNursesByPriority`: score, stable ascending sort, first `count`. */
  function SelectByPriority(nurses: seq<Nurse>, ledger: map<string, NurseStats>, order: seq<string>, day: DayInfo, count: nat): seq<Nurse>
    requires OrderInLedger(ledger, order)
  {
    SelectBest(nurses, ScoreOf(ledger, AveragesOf(ledger, order), day), count)
  }

  /** Selection takes `count` nurses (or all when fewer), only from the
      candidates, with distinct ids when the candidates have distinct ids, and
      no candidate left out scores lower than one selected. */
  lemma SelectByPrioritySpec(nurses: seq<Nurse>, ledger: map<string, NurseStats>, order: seq<string>, day: DayInfo, count: nat)
    requires OrderInLedger(ledger, order)
    ensures var r, score := SelectByPriority(nurses, ledger, order, day, count), ScoreOf(ledger, AveragesOf(ledger, order), day);
      && |r| == (if count < |nurses| then count else |nurses|)
      && (forall i :: 0 <= i < |r| ==> r[i] in nurses)
      && (DistinctBy(nurses, IdOf) ==> DistinctBy(r, IdOf))
      && (forall i, q :: 0 <= i < |r| && 0 <= q < |nurses| && (forall j :: 0 <= j < |r| ==> r[j] != nurses[q]) ==>
            score(r[i]) <= score(nurses[q]))
  {
    var score := ScoreOf(ledger, AveragesOf(ledger, order), day);
    var r := SelectByPriority(nurses, ledger, order, day, count);
    var sel := Selected(nurses, score, count);
    SelectedSpec(nurses, score, count);
    SelectBestMembers(nurses, score, count);
    if DistinctBy(nurses, IdOf) {
      SelectBestDistinct(nurses, score, count, IdOf);
    }
    forall i, q | 0 <= i < |r| && 0 <= q < |nurses| && (forall j :: 0 <= j < |r| ==> r[j] != nurses[q])
      ensures score(r[i]) <= score(nurses[q])
    {
      forall m | 0 <= m < |sel|
        ensures sel[m].pos != q
      {
        assert r[m] == sel[m].item == nurses[sel[m].pos];
      }
      assert q !in Positions(sel);
      assert Precedes(sel[i], Ranked(nurses[q], score(nurses[q]), q));
    }
  }
}
