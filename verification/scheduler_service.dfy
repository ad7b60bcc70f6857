/** The engine as the program runs it: a `SchedulerService` object whose fields
    the phases of `generateSchedule` fill in and update step by step, and the
    record store those phases write to. */
module SchedulerEngine {
  import opened Wrappers
  import opened Seqs
  import opened DateUtils
  import opened FairnessCalculator
  import opened SchedulerTypes
  import opened SchedulerPlan
  import opened SchedulerRules
  import opened SchedulerSpec
  import opened SchedulerReport

  /** The row `createShifts` stores for a planned shift. */
  function RowOf(scheduleId: string, need: ShiftNeed): ShiftRow {
    ShiftRow(scheduleId, need.date, need.kind, need.startTime, need.endTime, need.requiredStaff)
  }

  /** Planned shifts paired with the ids their rows received, the `i`-th row
      created being named `mint(i)`. */
  function Minted(mint: nat -> string, base: nat, needs: seq<ShiftNeed>): (shifts: seq<Shift>)
    ensures |shifts| == |needs|
    ensures forall i :: 0 <= i < |needs| ==> shifts[i] == Shift(mint(base + i), needs[i])
  {
    seq(|needs|, i requires 0 <= i < |needs| => Shift(mint(base + i), needs[i]))
  }

  /** Where `mint` never repeats itself, as generated row ids do not, the
      shifts minted from position `base` carry distinct ids, none of them an
      id given to an earlier row. */
  lemma MintedFresh(mint: nat -> string, base: nat, needs: seq<ShiftNeed>)
    requires forall i: nat, j: nat :: i != j ==> mint(i) != mint(j)
    ensures var shifts := Minted(mint, base, needs);
      && (forall a, b :: 0 <= a < b < |shifts| ==> shifts[a].id != shifts[b].id)
      && (forall a, k :: 0 <= a < |shifts| && 0 <= k < base ==> shifts[a].id != mint(k))
  {
    var shifts := Minted(mint, base, needs);
    forall a, b | 0 <= a < b < |shifts|
      ensures shifts[a].id != shifts[b].id
    {
      assert shifts[a].id == mint(base + a) && shifts[b].id == mint(base + b);
    }
  }

  /** The rows the engine writes: shift rows, assignment rows and the fairness
      score of each schedule. A new row's id is `mint` of its position among
      all shift rows created. */
  class RecordStore {
    var shiftRows: seq<StoredShift>
    var assignmentRows: seq<Assignment>
    var fairness: map<string, real>
    const mint: nat -> string

    constructor (mint: nat -> string)
      ensures shiftRows == [] && assignmentRows == [] && fairness == map[] && this.mint == mint
    {
      shiftRows := [];
      assignmentRows := [];
      fairness := map[];
      this.mint := mint;
    }

    /** `ShiftModel.createMany`: stores the rows in order, the `i`-th new row
        under `mint` of its position among all shift rows, and returns them. */
    method CreateShifts(rows: seq<ShiftRow>) returns (created: seq<StoredShift>)
      modifies this`shiftRows
      ensures |created| == |rows|
      ensures forall i :: 0 <= i < |rows| ==> created[i] == StoredShift(mint(|old(shiftRows)| + i), rows[i])
      ensures shiftRows == old(shiftRows) + created
    {
      var base := |shiftRows|;
      created := seq(|rows|, i requires 0 <= i < |rows| => StoredShift(mint(base + i), rows[i]));
      shiftRows := shiftRows + created;
    }

    /** `ShiftAssignmentModel.createMany`. */
    method CreateAssignments(rows: seq<Assignment>)
      modifies this`assignmentRows
      ensures assignmentRows == old(assignmentRows) + rows
    {
      assignmentRows := assignmentRows + rows;
    }

    /** `ScheduleModel.update(scheduleId, { fairness_score })`. */
    method SetFairness(scheduleId: string, score: real)
      modifies this`fairness
      ensures fairness == old(fairness)[scheduleId := score]
    {
      fairness := fairness[scheduleId := score];
    }
  }

  /** The rows stored for shifts, each under the shift's id. */
  function StoredRows(scheduleId: string, shifts: seq<Shift>): (rows: seq<StoredShift>)
    ensures |rows| == |shifts|
    ensures forall i :: 0 <= i < |shifts| ==>
      rows[i].id == shifts[i].id && rows[i].row.scheduleId == scheduleId && rows[i].row.date == shifts[i].need.date &&
      rows[i].row.kind == shifts[i].need.kind && rows[i].row.requiredStaff == shifts[i].need.requiredStaff
  {
    seq(|shifts|, i requires 0 <= i < |shifts| => StoredShift(shifts[i].id, RowOf(scheduleId, shifts[i].need)))
  }

  /** The descriptors `initialize` builds from the dates of the month are
      `MonthInfo`. */
  lemma DescribedMonth(weekendEnv: Option<string>, month: string, dates: seq<Date>)
    requires IsMonthString(month)
    requires |dates| == GetDaysInMonth(YearOf(month), MonthNumberOf(month) - 1)
    requires forall i :: 0 <= i < |dates| ==> dates[i] == MonthDays(YearOf(month), MonthNumberOf(month) - 1)[i]
    ensures seq(|dates|, i requires 0 <= i < |dates| => DescribeDay(weekendEnv, dates[i])) == MonthInfo(weekendEnv, month)
  {
  }

  /** One more shift of a day's group is one more `AssignShift`. */
  lemma GroupStep(env: Env, p: Progress, group: seq<Shift>, k: nat, day: DayInfo)
    requires k < |group| && OrderInLedger(p.ledger, env.order)
    ensures OrderInLedger(AssignGroup(env, p, group[..k], day).ledger, env.order)
    ensures AssignGroup(env, p, group[..k + 1], day) == AssignShift(env, AssignGroup(env, p, group[..k], day), group[k], day)
  {
    assert group[..k + 1][..k] == group[..k];
    OrderKept(p.ledger, AssignGroup(env, p, group[..k], day).ledger, env.order);
  }

  /** What an `assign*HourShift` call returns and leaves in the ledger is one
      step of `AssignShift`. */
  lemma ShiftStep(env: Env, ledger: map<string, NurseStats>, before: seq<Assignment>, shift: Shift, day: DayInfo,
                  added: seq<Assignment>, recorded: map<string, NurseStats>)
    requires OrderInLedger(ledger, env.order)
    requires added == ResponsibleAssignment(env, shift, day) + StaffAssignments(shift.id, Chosen(env, ledger, shift, day))
    requires recorded == RecordAll(ledger, Chosen(env, ledger, shift, day), UpdateFor(shift.need.kind, day))
    ensures Progress(recorded, before + added) == AssignShift(env, Progress(ledger, before), shift, day)
  {
  }

  /** The group of a date: `byDate.get(key) || []`. */
  function ShiftsAt(byDate: map<string, seq<Shift>>, key: string): seq<Shift> {
    if key in byDate then byDate[key] else []
  }

  /** The grouping step of `assignNursesToShifts`: the shifts of each date, in
      their original order; a date without shifts has no group. */
  method GroupByDate(shifts: seq<Shift>) returns (byDate: map<string, seq<Shift>>)
    ensures forall key {:trigger ShiftsAt(byDate, key)} :: ShiftsAt(byDate, key) == ShiftsOn(shifts, key)
    ensures forall key :: key in byDate ==> byDate[key] != []
  {
    byDate := map[];
    for i := 0 to |shifts|
      invariant forall key {:trigger ShiftsAt(byDate, key)} :: ShiftsAt(byDate, key) == ShiftsOn(shifts[..i], key)
      invariant forall key :: key in byDate ==> byDate[key] != []
    {
      var shift := shifts[i];
      ghost var prev := byDate;
      if shift.need.date !in byDate {
        byDate := byDate[shift.need.date := []];
      }
      byDate := byDate[shift.need.date := byDate[shift.need.date] + [shift]];
      assert shifts[..i + 1] == shifts[..i] + [shift];
      forall key
        ensures ShiftsAt(byDate, key) == ShiftsOn(shifts[..i + 1], key)
      {
        assert ShiftsAt(prev, key) == ShiftsOn(shifts[..i], key);
        FilterConcat(shifts[..i], [shift], OnDate(key));
      }
    }
    assert shifts[..|shifts|] == shifts;
  }

  /** What `generateSchedule` guarantees of a month it completes, given staff
      nurses with distinct ids and a responsible nurse who is not also listed as
      staff: every ledger entry ends within the limits the eligibility rules
      enforce, the ledger keeps exactly the staff, every assignment is made by
      the algorithm for one of the month's shifts and names a staff nurse or,
      on a day shift only, the responsible nurse; the assignments made for a
      day are for shifts dated that day, book no nurse twice and name no nurse
      on leave that day. */
  lemma MonthPlanSound(weekendEnv: Option<string>, month: string, responsible: Option<Nurse>,
                       staff: seq<Nurse>, monthLeaves: seq<Leave>, mint: nat -> string, base: nat)
    requires IsMonthString(month) && DistinctBy(staff, IdOf)
    requires responsible.Some? ==> responsible.value.id !in IdSet(staff)
    ensures var days, seeded := MonthInfo(weekendEnv, month), Seeded(map[], [], staff);
      var env, start := Env(responsible, staff, monthLeaves, seeded.order), Progress(seeded.ledger, []);
      var shifts := Minted(mint, base, PlanShifts(days));
      var r := AssignUpTo(env, start, days, shifts, |days|);
      && r.ledger.Keys == IdSet(staff)
      && LedgerOk(r.ledger)
      && MadeFrom(env, r.assignments, 0, shifts)
      && (forall i :: 0 <= i < |days| ==> DistinctBy(DayAssignments(env, start, days, shifts, i), NurseIdOf))
      && (forall i, j :: 0 <= i < |days| && 0 <= j < |DayAssignments(env, start, days, shifts, i)| ==>
            !IsNurseOnLeave(monthLeaves, DayAssignments(env, start, days, shifts, i)[j].nurseId, days[i].dateStr))
      && (forall i, j :: 0 <= i < |days| && 0 <= j < |DayAssignments(env, start, days, shifts, i)| ==>
            ForShiftOn(DayAssignments(env, start, days, shifts, i)[j], shifts, days[i].dateStr))
  {
    var days, seeded := MonthInfo(weekendEnv, month), Seeded(map[], [], staff);
    var env, start := Env(responsible, staff, monthLeaves, seeded.order), Progress(seeded.ledger, []);
    var shifts := Minted(mint, base, PlanShifts(days));
    SeedFresh(staff);
    assert KeyedDays(days) && Planned(shifts, days) by {
      MonthInfoWellFormed(weekendEnv, month);
      WellFormedKeyed(weekendEnv, days);
    }
    RunSound(env, start, days, shifts);
  }

  class SchedulerService {
    var responsibleNurse: Option<Nurse>
    var staffNurses: seq<Nurse>
    var leaves: seq<Leave>
    /** The ledger, a `Map` from nurse id to running totals ... */
    var nurseStats: map<string, NurseStats>
    /** ... and the order in which the `Map` iterates its keys. */
    var statsOrder: seq<string>
    var scheduleId: string
    var monthDates: seq<DayInfo>

    ghost predicate Valid()
      reads this`nurseStats, this`statsOrder
    {
      OrderIsKeys(nurseStats, statsOrder)
    }

    /** What the assignment phase reads without changing. */
    function Context(): Env
      reads this`responsibleNurse, this`staffNurses, this`leaves, this`statsOrder
    {
      Env(responsibleNurse, staffNurses, leaves, statsOrder)
    }

    constructor ()
      ensures Valid()
      ensures responsibleNurse == None && staffNurses == [] && leaves == []
      ensures nurseStats == map[] && statsOrder == [] && scheduleId == "" && monthDates == []
    {
      responsibleNurse := None;
      staffNurses := [];
      leaves := [];
      nurseStats := map[];
      statsOrder := [];
      scheduleId := "";
      monthDates := [];
    }

    /** `initialize`: the responsible nurse must exist and there must be at
        least two staff nurses; then the month's leave records and day
        descriptors are kept and the ledger is seeded. The nurse and leave
        lookups are the parameters `responsible`, `staff` and `monthLeaves`;
        `weekendEnv` is the weekend configuration. */
    method Initialize(month: string, weekendEnv: Option<string>, responsible: Option<Nurse>,
                      staff: seq<Nurse>, monthLeaves: seq<Leave>) returns (outcome: Outcome<SchedulerError>)
      requires Valid() && IsMonthString(month)
      modifies this`responsibleNurse, this`staffNurses, this`leaves, this`monthDates,
               this`nurseStats, this`statsOrder
      ensures Valid()
      ensures outcome == (if responsible.None? then Fail(NoResponsibleNurse)
                          else if |staff| < 2 then Fail(TooFewStaffNurses) else Pass)
      ensures responsibleNurse == responsible
      ensures staffNurses == if responsible.None? then old(staffNurses) else staff
      ensures outcome.Pass? ==>
        && leaves == monthLeaves
        && monthDates == MonthInfo(weekendEnv, month)
        && Seeding(nurseStats, statsOrder) == Seeded(old(nurseStats), old(statsOrder), staff)
      ensures outcome.Fail? ==>
        leaves == old(leaves) && monthDates == old(monthDates) &&
        nurseStats == old(nurseStats) && statsOrder == old(statsOrder)
    {
      responsibleNurse := responsible;
      if responsible.None? {
        return Fail(NoResponsibleNurse);
      }
      staffNurses := staff;
      if |staff| < 2 {
        return Fail(TooFewStaffNurses);
      }
      leaves := monthLeaves;
      var dates := GetMonthDates(YearOf(month), MonthNumberOf(month) - 1);
      monthDates := seq(|dates|, i requires 0 <= i < |dates| => DescribeDay(weekendEnv, dates[i]));
      DescribedMonth(weekendEnv, month, dates);
      InitializeNurseStats();
      outcome := Pass;
    }

    /** `initializeNurseStats`: a zero entry for every staff nurse. */
    method InitializeNurseStats()
      requires Valid()
      modifies this`nurseStats, this`statsOrder
      ensures Valid()
      ensures Seeding(nurseStats, statsOrder) == Seeded(old(nurseStats), old(statsOrder), staffNurses)
    {
      for i := 0 to |staffNurses|
        invariant Seeding(nurseStats, statsOrder) == Seeded(old(nurseStats), old(statsOrder), staffNurses[..i])
      {
        var nurse := staffNurses[i];
        if nurse.id !in nurseStats {
          statsOrder := statsOrder + [nurse.id];
        }
        nurseStats := nurseStats[nurse.id := ZeroStats(nurse)];
        assert staffNurses[..i + 1][..i] == staffNurses[..i];
      }
      assert staffNurses[..|staffNurses|] == staffNurses;
      SeededOrder(old(nurseStats), old(statsOrder), staffNurses);
    }

    /** The loop of `createShifts`: the shift needs of each day of the month,
        day by day. */
    method PlanMonth() returns (needs: seq<ShiftNeed>)
      ensures needs == PlanShifts(monthDates)
    {
      needs := [];
      for d := 0 to |monthDates|
        invariant needs == PlanShifts(monthDates[..d])
      {
        var day := monthDates[d];
        if day.isWeekend || day.isHoliday {
          needs := needs + [ShiftNeed(day.dateStr, Weekend24h, "00:00", "24:00", 2, false)];
        } else {
          needs := needs + [ShiftNeed(day.dateStr, Day8h, "08:00", "16:00", 2, true)];
          needs := needs + [ShiftNeed(day.dateStr, Night16h, "16:00", "08:00", 2, false)];
        }
        assert monthDates[..d + 1] == monthDates[..d] + [day];
        PlanShiftsConcat(monthDates[..d], [day]);
      }
      assert monthDates[..|monthDates|] == monthDates;
    }

    /** `createShifts`: the month's planned shifts are stored, in order, and
        returned with the ids their rows received. */
    method CreateShifts(store: RecordStore) returns (shifts: seq<Shift>)
      modifies store`shiftRows
      ensures shifts == Minted(store.mint, |old(store.shiftRows)|, PlanShifts(monthDates))
      ensures Planned(shifts, monthDates)
      ensures store.shiftRows == old(store.shiftRows) + StoredRows(scheduleId, shifts)
    {
      var needs := PlanMonth();
      var id := scheduleId;
      var rows := seq(|needs|, i requires 0 <= i < |needs| => RowOf(id, needs[i]));
      var created := store.CreateShifts(rows);
      shifts := seq(|created|, i requires 0 <= i < |created| => Shift(created[i].id, needs[i]));
      assert created == StoredRows(id, shifts);
    }

    /** `updateNurseStats`: records one shift in the nurse's ledger entry, which
        must exist. */
    method UpdateNurseStats(nurseId: string, u: StatsUpdate)
      requires nurseId in nurseStats
      modifies this`nurseStats
      ensures nurseStats == old(nurseStats)[nurseId := Recorded(old(nurseStats)[nurseId], u)]
    {
      var stats := nurseStats[nurseId];
      stats := stats.(totalHours := stats.totalHours + u.hours);
      stats := stats.(dayShiftCount := stats.dayShiftCount + 1);
      if u.isNight {
        stats := stats.(nightShiftCount := stats.nightShiftCount + 1);
      }
      if u.isWeekend {
        stats := stats.(weekendShiftCount := stats.weekendShiftCount + 1);
      }
      if stats.lastShiftDate.Some? {
        var yesterday := AddDays(u.date, -1);
        if FormatDate(stats.lastShiftDate.value) == FormatDate(yesterday) {
          stats := stats.(consecutiveDays := stats.consecutiveDays + 1);
        } else {
          stats := stats.(consecutiveDays := 1);
        }
      } else {
        stats := stats.(consecutiveDays := 1);
      }
      stats := stats.(lastShiftDate := Some(u.date));
      nurseStats := nurseStats[nurseId := stats];
    }

    /** The loop every `assign*HourShift` ends with: one assignment per selected
        nurse, each recorded in the ledger. */
    method AssignSelected(shift: Shift, selected: seq<Nurse>, u: StatsUpdate, before: seq<Assignment>)
      returns (after: seq<Assignment>)
      requires forall i :: 0 <= i < |selected| ==> selected[i].id in nurseStats
      modifies this`nurseStats
      ensures after == before + StaffAssignments(shift.id, selected)
      ensures nurseStats == RecordAll(old(nurseStats), selected, u)
    {
      after := before;
      for j := 0 to |selected|
        invariant after == before + StaffAssignments(shift.id, selected[..j])
        invariant nurseStats == RecordAll(old(nurseStats), selected[..j], u)
      {
        var nurse := selected[j];
        after := after + [Assignment(shift.id, nurse.id, AssignedByAlgorithm)];
        assert StaffAssignments(shift.id, selected[..j + 1]) == StaffAssignments(shift.id, selected[..j]) + [Assignment(shift.id, nurse.id, AssignedByAlgorithm)];
        ghost var prev := nurseStats;
        assert nurse.id in prev;
        UpdateNurseStats(nurse.id, u);
        assert nurseStats == RecordAll(old(nurseStats), selected[..j + 1], u) by {
          assert selected[..j + 1][..j] == selected[..j] && selected[..j + 1][j] == nurse;
          assert prev == RecordAll(old(nurseStats), selected[..j], u);
        }
      }
      assert selected[..|selected|] == selected;
    }

    /** `assign8HourShift`: the responsible nurse unless on leave, then the two
        best-scoring nurses eligible for a day shift, each recorded as 8 hours. */
    method Assign8HourShift(shift: Shift, day: DayInfo) returns (assignments: seq<Assignment>)
      requires OrderInLedger(nurseStats, statsOrder)
      modifies this`nurseStats
      ensures var chosen := old(SelectByPriority(Eligible(Day8h, staffNurses, leaves, nurseStats, day), nurseStats, statsOrder, day, 2));
        && assignments ==
             old(if responsibleNurse.Some? && !IsNurseOnLeave(leaves, responsibleNurse.value.id, day.dateStr)
                 then [Assignment(shift.id, responsibleNurse.value.id, AssignedByAlgorithm)] else [])
             + StaffAssignments(shift.id, chosen)
        && nurseStats == RecordAll(old(nurseStats), chosen, StatsUpdate(8, false, day.isWeekend, day.date))
    {
      assignments := [];
      if responsibleNurse.Some? && !IsNurseOnLeave(leaves, responsibleNurse.value.id, day.dateStr) {
        assignments := assignments + [Assignment(shift.id, responsibleNurse.value.id, AssignedByAlgorithm)];
      }
      ghost var responsible := assignments;
      assert responsible == if responsibleNurse.Some? && !IsNurseOnLeave(leaves, responsibleNurse.value.id, day.dateStr)
        then [Assignment(shift.id, responsibleNurse.value.id, AssignedByAlgorithm)] else [];
      var eligible := Eligible(Day8h, staffNurses, leaves, nurseStats, day);
      var selected := SelectByPriority(eligible, nurseStats, statsOrder, day, 2);
      SelectedInLedger(Day8h, staffNurses, leaves, nurseStats, statsOrder, day);
      assignments := AssignSelected(shift, selected, StatsUpdate(8, false, day.isWeekend, day.date), assignments);
      assert assignments == responsible + StaffAssignments(shift.id, selected);
    }

    /** `assign16HourShift`: the two best-scoring nurses eligible for a night
        shift, each recorded as 16 night hours. */
    method Assign16HourShift(shift: Shift, day: DayInfo) returns (assignments: seq<Assignment>)
      requires OrderInLedger(nurseStats, statsOrder)
      modifies this`nurseStats
      ensures var chosen := old(SelectByPriority(Eligible(Night16h, staffNurses, leaves, nurseStats, day), nurseStats, statsOrder, day, 2));
        && assignments == StaffAssignments(shift.id, chosen)
        && nurseStats == RecordAll(old(nurseStats), chosen, StatsUpdate(16, true, day.isWeekend, day.date))
    {
      var eligible := Eligible(Night16h, staffNurses, leaves, nurseStats, day);
      var selected := SelectByPriority(eligible, nurseStats, statsOrder, day, 2);
      SelectedInLedger(Night16h, staffNurses, leaves, nurseStats, statsOrder, day);
      assignments := AssignSelected(shift, selected, StatsUpdate(16, true, day.isWeekend, day.date), []);
    }

    /** `assign24HourShift`: the two best-scoring nurses eligible for a weekend
        shift, each recorded as 24 night and weekend hours. */
    method Assign24HourShift(shift: Shift, day: DayInfo) returns (assignments: seq<Assignment>)
      requires OrderInLedger(nurseStats, statsOrder)
      modifies this`nurseStats
      ensures var chosen := old(SelectByPriority(Eligible(Weekend24h, staffNurses, leaves, nurseStats, day), nurseStats, statsOrder, day, 2));
        && assignments == StaffAssignments(shift.id, chosen)
        && nurseStats == RecordAll(old(nurseStats), chosen, StatsUpdate(24, true, true, day.date))
    {
      var eligible := Eligible(Weekend24h, staffNurses, leaves, nurseStats, day);
      var selected := SelectByPriority(eligible, nurseStats, statsOrder, day, 2);
      SelectedInLedger(Weekend24h, staffNurses, leaves, nurseStats, statsOrder, day);
      assignments := AssignSelected(shift, selected, StatsUpdate(24, true, true, day.date), []);
    }

    /** The body of the inner loop of `assignNursesToShifts`: the shift is given
        to the `assign*HourShift` of its type, and the new assignments are
        appended to `before`. */
    method DispatchShift(shift: Shift, day: DayInfo, before: seq<Assignment>) returns (after: seq<Assignment>)
      requires OrderInLedger(nurseStats, statsOrder)
      modifies this`nurseStats
      ensures Progress(nurseStats, after) == AssignShift(Context(), Progress(old(nurseStats), before), shift, day)
    {
      ghost var env, ledger := Context(), nurseStats;
      var added: seq<Assignment>;
      match shift.need.kind {
        case Day8h =>
          added := Assign8HourShift(shift, day);
        case Night16h =>
          added := Assign16HourShift(shift, day);
        case Weekend24h =>
          added := Assign24HourShift(shift, day);
      }
      assert Context() == env;
      ShiftStep(env, ledger, before, shift, day, added, nurseStats);
      after := before + added;
    }

    /** The inner loop of `assignNursesToShifts`: each of the day's shifts by its
        type, the new assignments appended to `before`. */
    method AssignDay(dayShifts: seq<Shift>, day: DayInfo, before: seq<Assignment>) returns (after: seq<Assignment>)
      requires OrderInLedger(nurseStats, statsOrder)
      modifies this`nurseStats
      ensures nurseStats.Keys == old(nurseStats).Keys
      ensures Progress(nurseStats, after) == AssignGroup(Context(), Progress(old(nurseStats), before), dayShifts, day)
    {
      after := before;
      ghost var env, p := Context(), Progress(nurseStats, before);
      for k := 0 to |dayShifts|
        invariant Context() == env && nurseStats.Keys == p.ledger.Keys
        invariant Progress(nurseStats, after) == AssignGroup(env, p, dayShifts[..k], day)
      {
        GroupStep(env, p, dayShifts, k, day);
        OrderKept(p.ledger, nurseStats, env.order);
        after := DispatchShift(dayShifts[k], day, after);
      }
      assert dayShifts[..|dayShifts|] == dayShifts;
    }

    /** The loops of `assignNursesToShifts`: the shifts grouped by date, then
        the days in order, each with the shifts dated with its key. */
    method AssignAllDays(shifts: seq<Shift>) returns (assignments: seq<Assignment>)
      requires OrderInLedger(nurseStats, statsOrder)
      modifies this`nurseStats
      ensures nurseStats.Keys == old(nurseStats).Keys
      ensures Progress(nurseStats, assignments) ==
        AssignUpTo(Context(), Progress(old(nurseStats), []), monthDates, shifts, |monthDates|)
    {
      var byDate := GroupByDate(shifts);
      assignments := [];
      ghost var env, p := Context(), Progress(nurseStats, []);
      ghost var q := p;
      for d := 0 to |monthDates|
        invariant Context() == env && nurseStats.Keys == p.ledger.Keys
        invariant q == AssignUpTo(env, p, monthDates, shifts, d)
        invariant Progress(nurseStats, assignments) == q
      {
        var day := monthDates[d];
        var dayShifts := ShiftsAt(byDate, day.dateStr);
        assert dayShifts == ShiftsOn(shifts, day.dateStr);
        assert OrderInLedger(q.ledger, env.order) by {
          OrderKept(p.ledger, q.ledger, env.order);
        }
        assignments := AssignDay(dayShifts, day, assignments);
        q := AssignGroup(env, q, dayShifts, day);
        assert q == AssignUpTo(env, p, monthDates, shifts, d + 1) by {
          DayStep(env, p, monthDates, shifts, d);
        }
      }
    }

    /** `assignNursesToShifts`: the assignments are made, then stored and
        returned. */
    method AssignNursesToShifts(shifts: seq<Shift>, store: RecordStore) returns (assignments: seq<Assignment>)
      requires OrderInLedger(nurseStats, statsOrder)
      modifies this`nurseStats, store`assignmentRows
      ensures nurseStats.Keys == old(nurseStats).Keys
      ensures Progress(nurseStats, assignments) ==
        AssignUpTo(Context(), Progress(old(nurseStats), []), monthDates, shifts, |monthDates|)
      ensures store.assignmentRows == old(store.assignmentRows) + assignments
    {
      assignments := AssignAllDays(shifts);
      store.CreateAssignments(assignments);
    }

    /** `getWarnings`: the responsible nurse's leave warning, then one warning per
        staff entry below 70% of the average hours, in ledger order. */
    method GetWarnings() returns (warnings: seq<Warning>)
      requires OrderInLedger(nurseStats, statsOrder)
      ensures warnings == Warnings(responsibleNurse, leaves, nurseStats, statsOrder)
    {
      warnings := [];
      if responsibleNurse.Some? {
        var responsibleLeaves := Filter(leaves, CountsAgainst(responsibleNurse.value.id));
        if |responsibleLeaves| > 10 {
          warnings := warnings + [ResponsibleOftenAbsent(|responsibleLeaves|)];
        }
      }
      var staffStats := Entries(nurseStats, statsOrder);
      var avgHours := Mean(Column(nurseStats, statsOrder, Hours));
      for i := 0 to |staffStats|
        invariant warnings == ResponsibleWarnings(responsibleNurse, leaves) + FewHoursWarnings(staffStats[..i], avgHours)
      {
        var stats := staffStats[i];
        if (stats.totalHours as real) < avgHours * 0.7 {
          warnings := warnings + [FewHours(stats.nurse.name, stats.totalHours)];
        }
        assert staffStats[..i + 1][..i] == staffStats[..i];
      }
      assert staffStats[..|staffStats|] == staffStats;
    }

    /** Phases 2 to 5 of `generateSchedule` and its summary: the shifts are
        created, the nurses assigned, the fairness score stored with the
        schedule, and the warnings read from the final ledger. */
    method RunPhases(sqrt: real -> real, store: RecordStore) returns (summary: Summary)
      requires Valid()
      modifies this`nurseStats, store`shiftRows, store`assignmentRows, store`fairness
      ensures Valid()
      ensures var shifts := Minted(store.mint, |old(store.shiftRows)|, PlanShifts(monthDates));
        var r := AssignUpTo(Context(), Progress(old(nurseStats), []), monthDates, shifts, |monthDates|);
        var score := FinalFairness(r.ledger, statsOrder, sqrt).overall;
        && summary == Summary(score, |shifts|, |r.assignments|, Warnings(responsibleNurse, leaves, r.ledger, statsOrder))
        && store.shiftRows == old(store.shiftRows) + StoredRows(scheduleId, shifts)
        && store.assignmentRows == old(store.assignmentRows) + r.assignments
        && store.fairness == old(store.fairness)[scheduleId := score]
        && nurseStats == r.ledger
    {
      var shifts := CreateShifts(store);
      var assignments := AssignNursesToShifts(shifts, store);
      OrderKept(old(nurseStats), nurseStats, statsOrder);
      var fairnessScore := FinalFairness(nurseStats, statsOrder, sqrt);
      store.SetFairness(scheduleId, fairnessScore.overall);
      var warnings := GetWarnings();
      summary := Summary(fairnessScore.overall, |shifts|, |assignments|, warnings);
    }

    /** `generateSchedule` on a fresh service: initialization, whose failures
        are the errors, then the remaining phases. */
    method GenerateSchedule(id: string, month: string, weekendEnv: Option<string>, responsible: Option<Nurse>,
                            staff: seq<Nurse>, monthLeaves: seq<Leave>, sqrt: real -> real, store: RecordStore)
      returns (result: Result<Summary, SchedulerError>)
      requires nurseStats == map[] && statsOrder == [] && IsMonthString(month)
      modifies this`scheduleId, this`responsibleNurse, this`staffNurses, this`leaves, this`monthDates,
               this`nurseStats, this`statsOrder, store`shiftRows, store`assignmentRows, store`fairness
      ensures scheduleId == id
      ensures result.Failure? <==> responsible.None? || |staff| < 2
      ensures result.Failure? ==>
        && result.error == (if responsible.None? then NoResponsibleNurse else TooFewStaffNurses)
        && store.shiftRows == old(store.shiftRows) && store.assignmentRows == old(store.assignmentRows)
        && store.fairness == old(store.fairness)
      ensures result.Success? ==>
        && monthDates == MonthInfo(weekendEnv, month)
        && statsOrder == Seeded(map[], [], staff).order
        && responsibleNurse == responsible && staffNurses == staff && leaves == monthLeaves
      ensures result.Success? ==>
        var shifts := Minted(store.mint, |old(store.shiftRows)|, PlanShifts(monthDates));
        var r := AssignUpTo(Context(), Progress(Seeded(map[], [], staff).ledger, []), monthDates, shifts, |monthDates|);
        var score := FinalFairness(r.ledger, statsOrder, sqrt).overall;
        && result.value == Summary(score, |shifts|, |r.assignments|, Warnings(responsibleNurse, leaves, r.ledger, statsOrder))
        && store.shiftRows == old(store.shiftRows) + StoredRows(id, shifts)
        && store.assignmentRows == old(store.assignmentRows) + r.assignments
        && store.fairness == old(store.fairness)[id := score]
        && nurseStats == r.ledger
    {
      scheduleId := id;
      var outcome := Initialize(month, weekendEnv, responsible, staff, monthLeaves);
      if outcome.Fail? {
        return Failure(outcome.error);
      }
      var summary := RunSeededPhases(id, staff, sqrt, store);
      result := Success(summary);
    }

    /** The phases of `generateSchedule` after a successful initialization,
        stated for the ledger that initialization seeds from `staff`. */
    method RunSeededPhases(ghost id: string, ghost staff: seq<Nurse>, sqrt: real -> real, store: RecordStore) returns (summary: Summary)
      requires scheduleId == id && Valid()
      requires nurseStats == Seeded(map[], [], staff).ledger
      modifies this`nurseStats, store`shiftRows, store`assignmentRows, store`fairness
      ensures var shifts := Minted(store.mint, |old(store.shiftRows)|, PlanShifts(monthDates));
        var r := AssignUpTo(Context(), Progress(Seeded(map[], [], staff).ledger, []), monthDates, shifts, |monthDates|);
        var score := FinalFairness(r.ledger, statsOrder, sqrt).overall;
        && summary == Summary(score, |shifts|, |r.assignments|, Warnings(responsibleNurse, leaves, r.ledger, statsOrder))
        && store.shiftRows == old(store.shiftRows) + StoredRows(id, shifts)
        && store.assignmentRows == old(store.assignmentRows) + r.assignments
        && store.fairness == old(store.fairness)[id := score]
        && nurseStats == r.ledger
    {
      summary := RunPhases(sqrt, store);
    }
  }
}
