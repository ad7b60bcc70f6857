/** What `assignNursesToShifts` computes, as functions of what it reads: the
    ledger updates and assignments of one shift, of one day's shifts and of the
    month so far, and the invariants the engine keeps while it runs. */
module SchedulerSpec {
  import opened Wrappers
  import opened Seqs
  import opened DateUtils
  import opened SchedulerTypes
  import opened SchedulerPlan
  import opened SchedulerRules

  /** What assignment reads without changing: the nurses, the leave records and
      the insertion order of the ledger. */
  datatype Env = Env(responsible: Option<Nurse>, staff: seq<Nurse>, leaves: seq<Leave>, order: seq<string>)

  /** What assignment changes: the ledger and the assignments made so far. */
  datatype Progress = Progress(ledger: map<string, NurseStats>, assignments: seq<Assignment>)

  /** The ids of a list of nurses. */
  ghost function IdSet(nurses: seq<Nurse>): set<string> {
    set i | 0 <= i < |nurses| :: nurses[i].id
  }

  /** The responsible nurse is not also a staff nurse (one role per nurse row). */
  ghost predicate ResponsibleApart(env: Env) {
    env.responsible.Some? ==> env.responsible.value.id !in IdSet(env.staff)
  }

  function NurseIdOf(a: Assignment): string {
    a.nurseId
  }

  // ---------------------------------------------------------------------------
  // One shift.
  // ---------------------------------------------------------------------------

  /** The ledger update each `assign*HourShift` passes to `updateNurseStats`. */
  function UpdateFor(kind: ShiftType, day: DayInfo): StatsUpdate {
    match kind
    case Day8h => StatsUpdate(8, false, day.isWeekend, day.date)
    case Night16h => StatsUpdate(16, true, day.isWeekend, day.date)
    case Weekend24h => StatsUpdate(24, true, true, day.date)
  }

  /** `updateNurseStats` for each nurse of `nurses` in turn; a nurse without an
      entry leaves the ledger as it is. */
  function RecordAll(ledger: map<string, NurseStats>, nurses: seq<Nurse>, u: StatsUpdate): (r: map<string, NurseStats>)
    ensures r.Keys == ledger.Keys
    decreases |nurses|
  {
    if nurses == [] then ledger
    else
      var prev := RecordAll(ledger, nurses[..|nurses| - 1], u);
      var id := nurses[|nurses| - 1].id;
      if id in prev then prev[id := Recorded(prev[id], u)] else prev
  }

  /** When the nurses have distinct ids, each of their entries is recorded once
      and every other entry is unchanged. */
  lemma {:induction false} RecordAllSpec(ledger: map<string, NurseStats>, nurses: seq<Nurse>, u: StatsUpdate)
    requires DistinctBy(nurses, IdOf)
    ensures forall x :: x in ledger ==>
      RecordAll(ledger, nurses, u)[x] == (if x in IdSet(nurses) then Recorded(ledger[x], u) else ledger[x])
    decreases |nurses|
  {
    if nurses != [] {
      var init, last := nurses[..|nurses| - 1], nurses[|nurses| - 1];
      assert DistinctBy(init, IdOf) by {
        forall i, j | 0 <= i < j < |init|
          ensures init[i].id != init[j].id
        {
          assert init[i] == nurses[i] && init[j] == nurses[j];
        }
      }
      RecordAllSpec(ledger, init, u);
      assert IdSet(nurses) == IdSet(init) + {last.id} by {
        forall x | x in IdSet(nurses)
          ensures x in IdSet(init) + {last.id}
        {
          var i :| 0 <= i < |nurses| && nurses[i].id == x;
          if i < |init| {
            assert init[i] == nurses[i];
          }
        }
        forall x | x in IdSet(init)
          ensures x in IdSet(nurses)
        {
          var i :| 0 <= i < |init| && init[i].id == x;
          assert nurses[i] == init[i];
        }
      }
      assert last.id !in IdSet(init) by {
        forall i | 0 <= i < |init|
          ensures init[i].id != last.id
        {
          assert init[i] == nurses[i];
        }
      }
    }
  }

  /** The staff chosen for a shift: the two best-scoring eligible nurses. */
  function Chosen(env: Env, ledger: map<string, NurseStats>, shift: Shift, day: DayInfo): seq<Nurse>
    requires OrderInLedger(ledger, env.order)
  {
    SelectByPriority(Eligible(shift.need.kind, env.staff, env.leaves, ledger, day), ledger, env.order, day, 2)
  }

  /** The responsible nurse's assignment: only on a day shift, and only when
      there is a responsible nurse who is not on leave that day. */
  function ResponsibleAssignment(env: Env, shift: Shift, day: DayInfo): seq<Assignment> {
    if shift.need.kind == Day8h && env.responsible.Some? &&
       !IsNurseOnLeave(env.leaves, env.responsible.value.id, day.dateStr)
    then [Assignment(shift.id, env.responsible.value.id, AssignedByAlgorithm)]
    else []
  }

  /** One assignment per chosen nurse, in the chosen order. */
  function StaffAssignments(shiftId: string, nurses: seq<Nurse>): seq<Assignment> {
    seq(|nurses|, i requires 0 <= i < |nurses| => Assignment(shiftId, nurses[i].id, AssignedByAlgorithm))
  }

  lemma OrderKept(a: map<string, NurseStats>, b: map<string, NurseStats>, order: seq<string>)
    requires a.Keys == b.Keys && OrderInLedger(a, order)
    ensures OrderInLedger(b, order)
  {
  }

  /** `assign8HourShift`, `assign16HourShift` or `assign24HourShift`, by the
      shift's kind. */
  function AssignShift(env: Env, p: Progress, shift: Shift, day: DayInfo): (r: Progress)
    requires OrderInLedger(p.ledger, env.order)
    ensures r.ledger.Keys == p.ledger.Keys
  {
    var chosen := Chosen(env, p.ledger, shift, day);
    Progress(RecordAll(p.ledger, chosen, UpdateFor(shift.need.kind, day)),
             p.assignments + (ResponsibleAssignment(env, shift, day) + StaffAssignments(shift.id, chosen)))
  }

  /** Every nurse selected for a shift has a ledger entry. */
  lemma SelectedInLedger(kind: ShiftType, staff: seq<Nurse>, leaves: seq<Leave>, ledger: map<string, NurseStats>, order: seq<string>, day: DayInfo)
    requires OrderInLedger(ledger, order)
    ensures var c := SelectByPriority(Eligible(kind, staff, leaves, ledger, day), ledger, order, day, 2);
      forall i :: 0 <= i < |c| ==> c[i].id in ledger
  {
    EligibleSpec(kind, staff, leaves, ledger, day);
    SelectByPrioritySpec(Eligible(kind, staff, leaves, ledger, day), ledger, order, day, 2);
  }

  /** Nurses picked from eligible ones are eligible staff nurses. */
  lemma PickedEligible(kind: ShiftType, env: Env, ledger: map<string, NurseStats>, day: DayInfo, e: seq<Nurse>, c: seq<Nurse>)
    requires forall i :: 0 <= i < |e| ==> e[i] in env.staff && e[i].id in ledger && KindOk(kind, env.leaves, e[i], ledger[e[i].id], day)
    requires forall i :: 0 <= i < |c| ==> c[i] in e
    ensures forall i :: 0 <= i < |c| ==>
      c[i] in env.staff && c[i].id in IdSet(env.staff) && c[i].id in ledger && KindOk(kind, env.leaves, c[i], ledger[c[i].id], day)
  {
    forall i | 0 <= i < |c|
      ensures c[i] in env.staff && c[i].id in IdSet(env.staff) && c[i].id in ledger && KindOk(kind, env.leaves, c[i], ledger[c[i].id], day)
    {
      assert c[i] in e;
      var q :| 0 <= q < |e| && e[q] == c[i];
      var m :| 0 <= m < |env.staff| && env.staff[m] == c[i];
    }
  }

  /** The chosen staff are eligible staff nurses with distinct ids. */
  lemma ChosenEligible(env: Env, ledger: map<string, NurseStats>, shift: Shift, day: DayInfo)
    requires OrderInLedger(ledger, env.order) && DistinctBy(env.staff, IdOf)
    ensures var c := Chosen(env, ledger, shift, day);
      && (forall i :: 0 <= i < |c| ==>
            c[i] in env.staff && c[i].id in IdSet(env.staff) && c[i].id in ledger &&
            KindOk(shift.need.kind, env.leaves, c[i], ledger[c[i].id], day))
      && DistinctBy(c, IdOf)
  {
    var kind := shift.need.kind;
    var e := Eligible(kind, env.staff, env.leaves, ledger, day);
    var c := Chosen(env, ledger, shift, day);
    EligibleSpec(kind, env.staff, env.leaves, ledger, day);
    FilterDistinctBy(env.staff, RuleFor(kind, env.leaves, ledger, day), IdOf);
    SelectByPrioritySpec(e, ledger, env.order, day, 2);
    PickedEligible(kind, env, ledger, day, e, c);
  }

  /** Two nurses are chosen, or all eligible ones when fewer are eligible, and
      no eligible nurse left out scores lower than one chosen. */
  lemma ChosenBest(env: Env, ledger: map<string, NurseStats>, shift: Shift, day: DayInfo)
    requires OrderInLedger(ledger, env.order)
    ensures var c, e := Chosen(env, ledger, shift, day), Eligible(shift.need.kind, env.staff, env.leaves, ledger, day);
      && |c| == (if 2 < |e| then 2 else |e|)
      && (forall i, q :: 0 <= i < |c| && 0 <= q < |e| && (forall j :: 0 <= j < |c| ==> c[j] != e[q]) ==>
            ScoreOf(ledger, AveragesOf(ledger, env.order), day)(c[i]) <=
            ScoreOf(ledger, AveragesOf(ledger, env.order), day)(e[q]))
  {
    var e := Eligible(shift.need.kind, env.staff, env.leaves, ledger, day);
    SelectByPrioritySpec(e, ledger, env.order, day, 2);
  }

  /** An assignment the engine made for shift `s`: it carries the shift's id and
      `algorithm`, and its nurse is a staff nurse or, on a day shift only, the
      responsible nurse. */
  ghost predicate Made(env: Env, a: Assignment, s: Shift) {
    && a.shiftId == s.id
    && a.assignedBy == AssignedByAlgorithm
    && (a.nurseId in IdSet(env.staff) ||
        (env.responsible.Some? && a.nurseId == env.responsible.value.id && s.need.kind == Day8h))
  }

  /** The assignments one shift adds. */
  lemma ShiftAdds(env: Env, p: Progress, shift: Shift, day: DayInfo)
    requires OrderInLedger(p.ledger, env.order)
    ensures AssignShift(env, p, shift, day).assignments ==
      p.assignments + (ResponsibleAssignment(env, shift, day) + StaffAssignments(shift.id, Chosen(env, p.ledger, shift, day)))
  {
  }

  /** Appending assignments made for a shift keeps the earlier ones. */
  lemma AppendedMade(env: Env, before: seq<Assignment>, added: seq<Assignment>, shift: Shift)
    requires forall i :: 0 <= i < |added| ==> Made(env, added[i], shift)
    ensures (before + added)[..|before|] == before
    ensures forall i :: |before| <= i < |before + added| ==> Made(env, (before + added)[i], shift)
  {
    forall i | |before| <= i < |before + added|
      ensures Made(env, (before + added)[i], shift)
    {
      assert (before + added)[i] == added[i - |before|];
    }
  }

  /** Every assignment a shift adds is made for that shift. */
  lemma AddedMade(env: Env, p: Progress, shift: Shift, day: DayInfo)
    requires OrderInLedger(p.ledger, env.order) && DistinctBy(env.staff, IdOf)
    ensures var added := ResponsibleAssignment(env, shift, day) + StaffAssignments(shift.id, Chosen(env, p.ledger, shift, day));
      forall i :: 0 <= i < |added| ==> Made(env, added[i], shift)
  {
    var c := Chosen(env, p.ledger, shift, day);
    assert forall i :: 0 <= i < |c| ==> c[i].id in IdSet(env.staff) by {
      ChosenEligible(env, p.ledger, shift, day);
    }
    var resp, staff := ResponsibleAssignment(env, shift, day), StaffAssignments(shift.id, c);
    forall i | 0 <= i < |resp + staff|
      ensures Made(env, (resp + staff)[i], shift)
    {
      if i >= |resp| {
        assert (resp + staff)[i] == staff[i - |resp|];
      }
    }
  }

  /** One shift: the earlier assignments are kept; the responsible nurse is added
      first, exactly on a day shift when present and not on leave; then one
      assignment per chosen nurse; every new assignment is made for this shift. */
  lemma AssignShiftSpec(env: Env, p: Progress, shift: Shift, day: DayInfo)
    requires OrderInLedger(p.ledger, env.order) && DistinctBy(env.staff, IdOf)
    ensures var r, e := AssignShift(env, p, shift, day), Eligible(shift.need.kind, env.staff, env.leaves, p.ledger, day);
      && |p.assignments| <= |r.assignments|
      && r.assignments[..|p.assignments|] == p.assignments
      && |r.assignments| - |p.assignments| == (if 2 < |e| then 2 else |e|) + |ResponsibleAssignment(env, shift, day)|
      && (|ResponsibleAssignment(env, shift, day)| == 1 <==>
            shift.need.kind == Day8h && env.responsible.Some? &&
            !IsNurseOnLeave(env.leaves, env.responsible.value.id, day.dateStr))
      && (forall i :: |p.assignments| <= i < |r.assignments| ==> Made(env, r.assignments[i], shift))
  {
    ShiftAdds(env, p, shift, day);
    ChosenBest(env, p.ledger, shift, day);
    AddedMade(env, p, shift, day);
    AppendedMade(env, p.assignments, ResponsibleAssignment(env, shift, day) + StaffAssignments(shift.id, Chosen(env, p.ledger, shift, day)), shift);
  }

  /** The assignments after one shift extend the earlier ones with assignments
      made for that shift. */
  lemma ShiftMade(env: Env, p: Progress, shift: Shift, day: DayInfo) returns (ra: seq<Assignment>)
    requires OrderInLedger(p.ledger, env.order) && DistinctBy(env.staff, IdOf)
    ensures ra == AssignShift(env, p, shift, day).assignments
    ensures Extends(p.assignments, ra) && forall i :: |p.assignments| <= i < |ra| ==> Made(env, ra[i], shift)
  {
    ShiftAdds(env, p, shift, day);
    AddedMade(env, p, shift, day);
    var added := ResponsibleAssignment(env, shift, day) + StaffAssignments(shift.id, Chosen(env, p.ledger, shift, day));
    AppendedMade(env, p.assignments, added, shift);
    ra := p.assignments + added;
  }

  // ---------------------------------------------------------------------------
  // One day and the month.
  // ---------------------------------------------------------------------------

  /** The inner loop of `assignNursesToShifts`: the day's shifts in order. */
  function AssignGroup(env: Env, p: Progress, group: seq<Shift>, day: DayInfo): (r: Progress)
    requires OrderInLedger(p.ledger, env.order)
    ensures r.ledger.Keys == p.ledger.Keys
    decreases |group|
  {
    if group == [] then p
    else
      var q := AssignGroup(env, p, group[..|group| - 1], day);
      OrderKept(p.ledger, q.ledger, env.order);
      AssignShift(env, q, group[|group| - 1], day)
  }

  /** The outer loop of `assignNursesToShifts` over the first `n` days, each with
      the shifts dated with its key. */
  function AssignUpTo(env: Env, p: Progress, days: seq<DayInfo>, shifts: seq<Shift>, n: int): (r: Progress)
    requires 0 <= n <= |days| && OrderInLedger(p.ledger, env.order)
    ensures r.ledger.Keys == p.ledger.Keys
    decreases n
  {
    if n == 0 then p
    else
      var q := AssignUpTo(env, p, days, shifts, n - 1);
      OrderKept(p.ledger, q.ledger, env.order);
      AssignGroup(env, q, ShiftsOn(shifts, days[n - 1].dateStr), days[n - 1])
  }

  /** One more day is one more `AssignGroup`, over the shifts of that date. */
  lemma DayStep(env: Env, p: Progress, days: seq<DayInfo>, shifts: seq<Shift>, d: nat)
    requires d < |days| && OrderInLedger(p.ledger, env.order)
    ensures OrderInLedger(AssignUpTo(env, p, days, shifts, d).ledger, env.order)
    ensures AssignUpTo(env, p, days, shifts, d + 1) ==
      AssignGroup(env, AssignUpTo(env, p, days, shifts, d), ShiftsOn(shifts, days[d].dateStr), days[d])
  {
    OrderKept(p.ledger, AssignUpTo(env, p, days, shifts, d).ledger, env.order);
  }

  /** `b` starts with `a`. */
  ghost predicate Extends<T>(a: seq<T>, b: seq<T>) {
    |a| <= |b| && b[..|a|] == a
  }

  /** `a` is made for one of the shifts of `scope`. */
  ghost predicate MadeIn(env: Env, a: Assignment, scope: seq<Shift>) {
    exists k :: 0 <= k < |scope| && Made(env, a, scope[k])
  }

  /** Every assignment of `a` from position `from` on is made for one of `scope`. */
  ghost predicate MadeFrom(env: Env, a: seq<Assignment>, from: nat, scope: seq<Shift>) {
    forall i :: from <= i < |a| ==> MadeIn(env, a[i], scope)
  }

  lemma MadeGrow(env: Env, pa: seq<Assignment>, qa: seq<Assignment>, ra: seq<Assignment>, init: seq<Shift>, last: Shift)
    requires Extends(pa, qa) && Extends(qa, ra) && MadeFrom(env, qa, |pa|, init)
    requires forall i :: |qa| <= i < |ra| ==> Made(env, ra[i], last)
    ensures Extends(pa, ra) && MadeFrom(env, ra, |pa|, init + [last])
  {
    var group := init + [last];
    assert ra[..|pa|] == ra[..|qa|][..|pa|];
    forall i | |pa| <= i < |ra|
      ensures MadeIn(env, ra[i], group)
    {
      if i < |qa| {
        assert ra[i] == ra[..|qa|][i] == qa[i];
        var k :| 0 <= k < |init| && Made(env, qa[i], init[k]);
        assert group[k] == init[k];
      } else {
        assert group[|init|] == last;
      }
    }
  }

  lemma MadeWiden(env: Env, pa: seq<Assignment>, qa: seq<Assignment>, ra: seq<Assignment>, group: seq<Shift>, shifts: seq<Shift>)
    requires Extends(pa, qa) && Extends(qa, ra) && MadeFrom(env, qa, |pa|, shifts) && MadeFrom(env, ra, |qa|, group)
    requires forall g :: 0 <= g < |group| ==> group[g] in shifts
    ensures Extends(pa, ra) && MadeFrom(env, ra, |pa|, shifts)
  {
    assert ra[..|pa|] == ra[..|qa|][..|pa|];
    forall i | |pa| <= i < |ra|
      ensures MadeIn(env, ra[i], shifts)
    {
      if i < |qa| {
        assert ra[i] == ra[..|qa|][i] == qa[i];
      } else {
        var g :| 0 <= g < |group| && Made(env, ra[i], group[g]);
        var k :| 0 <= k < |shifts| && shifts[k] == group[g];
        assert Made(env, ra[i], shifts[k]);
      }
    }
  }

  /** Assigning a day's shifts keeps the earlier assignments, and every new one
      is made for one of that day's shifts. */
  lemma {:induction false} AssignGroupMade(env: Env, p: Progress, group: seq<Shift>, day: DayInfo)
    requires OrderInLedger(p.ledger, env.order) && DistinctBy(env.staff, IdOf)
    ensures var r := AssignGroup(env, p, group, day);
      Extends(p.assignments, r.assignments) && MadeFrom(env, r.assignments, |p.assignments|, group)
    decreases |group|
  {
    if group != [] {
      var init, last := group[..|group| - 1], group[|group| - 1];
      assert init + [last] == group;
      AssignGroupMade(env, p, init, day);
      var q := AssignGroup(env, p, init, day);
      OrderKept(p.ledger, q.ledger, env.order);
      var ra := ShiftMade(env, q, last, day);
      MadeGrow(env, p.assignments, q.assignments, ra, init, last);
    }
  }

  /** The assignments the month makes so far keep the earlier ones, and each new
      one is made for one of the shifts: so the responsible nurse appears only on
      day shifts, and every other nurse assigned is a staff nurse. */
  lemma {:induction false} AssignUpToMade(env: Env, p: Progress, days: seq<DayInfo>, shifts: seq<Shift>, n: int)
    requires 0 <= n <= |days| && OrderInLedger(p.ledger, env.order) && DistinctBy(env.staff, IdOf)
    requires ResponsibleApart(env)
    ensures var r := AssignUpTo(env, p, days, shifts, n);
      && Extends(p.assignments, r.assignments)
      && MadeFrom(env, r.assignments, |p.assignments|, shifts)
      && (forall i :: |p.assignments| <= i < |r.assignments| ==>
            (env.responsible.Some? && r.assignments[i].nurseId == env.responsible.value.id ==>
             exists k :: 0 <= k < |shifts| && shifts[k].id == r.assignments[i].shiftId && shifts[k].need.kind == Day8h))
    decreases n
  {
    if n > 0 {
      AssignUpToMade(env, p, days, shifts, n - 1);
      var q := AssignUpTo(env, p, days, shifts, n - 1);
      var group := ShiftsOn(shifts, days[n - 1].dateStr);
      OrderKept(p.ledger, q.ledger, env.order);
      AssignGroupMade(env, q, group, days[n - 1]);
      FilterSpec(shifts, OnDate(days[n - 1].dateStr));
      MadeWiden(env, p.assignments, q.assignments, AssignGroup(env, q, group, days[n - 1]).assignments, group, shifts);
    }
    ResponsibleOnDayShifts(env, p.assignments, AssignUpTo(env, p, days, shifts, n).assignments, shifts);
  }

  lemma ResponsibleOnDayShifts(env: Env, pa: seq<Assignment>, ra: seq<Assignment>, shifts: seq<Shift>)
    requires ResponsibleApart(env) && MadeFrom(env, ra, |pa|, shifts)
    ensures forall i :: |pa| <= i < |ra| ==>
      (env.responsible.Some? && ra[i].nurseId == env.responsible.value.id ==>
       exists k :: 0 <= k < |shifts| && shifts[k].id == ra[i].shiftId && shifts[k].need.kind == Day8h)
  {
    forall i | |pa| <= i < |ra| && env.responsible.Some? && ra[i].nurseId == env.responsible.value.id
      ensures exists k :: 0 <= k < |shifts| && shifts[k].id == ra[i].shiftId && shifts[k].need.kind == Day8h
    {
      assert MadeIn(env, ra[i], shifts);
      var k :| 0 <= k < |shifts| && Made(env, ra[i], shifts[k]);
    }
  }

  // ---------------------------------------------------------------------------
  // Ledger limits.
  // ---------------------------------------------------------------------------

  /** Every entry within the limits the eligibility rules enforce. */
  ghost predicate LedgerOk(ledger: map<string, NurseStats>) {
    forall x :: x in ledger ==> WithinLimits(ledger[x])
  }

  /** Day and night shifts are planned only on days that are not weekend days. */
  predicate FitsDay(shift: Shift, day: DayInfo) {
    shift.need.kind == Weekend24h || !day.isWeekend
  }

  /** Assigning one shift keeps every entry within the limits. */
  lemma AssignShiftLimits(env: Env, p: Progress, shift: Shift, day: DayInfo)
    requires OrderInLedger(p.ledger, env.order) && DistinctBy(env.staff, IdOf)
    requires LedgerOk(p.ledger) && FitsDay(shift, day)
    ensures LedgerOk(AssignShift(env, p, shift, day).ledger)
  {
    var c := Chosen(env, p.ledger, shift, day);
    var u := UpdateFor(shift.need.kind, day);
    ChosenEligible(env, p.ledger, shift, day);
    RecordAllSpec(p.ledger, c, u);
    var r := AssignShift(env, p, shift, day).ledger;
    forall x | x in r
      ensures WithinLimits(r[x])
    {
      if x in IdSet(c) {
        var j :| 0 <= j < |c| && c[j].id == x;
        var s := p.ledger[x];
        match shift.need.kind
        case Day8h => DayShiftKeepsLimits(env.leaves, c[j], s, day, u);
        case Night16h => NightShiftKeepsLimits(env.leaves, c[j], s, day, u);
        case Weekend24h => WeekendShiftKeepsLimits(env.leaves, c[j], s, day, u);
      }
    }
  }

  /** Every shift of the group fits the day. */
  ghost predicate GroupFits(group: seq<Shift>, day: DayInfo) {
    forall k :: 0 <= k < |group| ==> FitsDay(group[k], day)
  }

  lemma {:induction false} AssignGroupLimits(env: Env, p: Progress, group: seq<Shift>, day: DayInfo)
    requires OrderInLedger(p.ledger, env.order) && DistinctBy(env.staff, IdOf)
    requires LedgerOk(p.ledger) && GroupFits(group, day)
    ensures LedgerOk(AssignGroup(env, p, group, day).ledger)
    decreases |group|
  {
    if group != [] {
      var init := group[..|group| - 1];
      assert GroupFits(init, day) by {
        forall k | 0 <= k < |init|
          ensures FitsDay(init[k], day)
        {
          assert init[k] == group[k];
        }
      }
      AssignGroupLimits(env, p, init, day);
      var q := AssignGroup(env, p, init, day);
      OrderKept(p.ledger, q.ledger, env.order);
      AssignShiftLimits(env, q, group[|group| - 1], day);
    }
  }

  /** Over the month, no ledger entry passes 5 consecutive days or 4 weekend
      shifts, provided each day's shifts fit the day. */
  lemma {:induction false} AssignUpToLimits(env: Env, p: Progress, days: seq<DayInfo>, shifts: seq<Shift>, n: int)
    requires 0 <= n <= |days| && OrderInLedger(p.ledger, env.order) && DistinctBy(env.staff, IdOf)
    requires LedgerOk(p.ledger)
    requires forall i :: 0 <= i < n ==> GroupFits(ShiftsOn(shifts, days[i].dateStr), days[i])
    ensures LedgerOk(AssignUpTo(env, p, days, shifts, n).ledger)
    decreases n
  {
    if n > 0 {
      AssignUpToLimits(env, p, days, shifts, n - 1);
      var q := AssignUpTo(env, p, days, shifts, n - 1);
      OrderKept(p.ledger, q.ledger, env.order);
      AssignGroupLimits(env, q, ShiftsOn(shifts, days[n - 1].dateStr), days[n - 1]);
    }
  }

  /** No two days of the month share a key. */
  ghost predicate DistinctKeys(days: seq<DayInfo>) {
    forall a, b :: 0 <= a < b < |days| ==> days[a].dateStr != days[b].dateStr
  }

  /** Keys and dates of the month agree, and keys are distinct. */
  ghost predicate KeyedDays(days: seq<DayInfo>) {
    && (forall i :: 0 <= i < |days| ==> days[i].dateStr == FormatDate(days[i].date))
    && DistinctKeys(days)
  }

  lemma WellFormedKeyed(wenv: Option<string>, days: seq<DayInfo>)
    requires WellFormedMonth(wenv, days)
    ensures KeyedDays(days)
  {
    MonthKeysDistinct(wenv, days);
  }

  /** The planned shifts of each day fit that day. */
  lemma PlannedGroupsFit(days: seq<DayInfo>, shifts: seq<Shift>)
    requires DistinctKeys(days) && Planned(shifts, days)
    ensures forall i :: 0 <= i < |days| ==> GroupFits(ShiftsOn(shifts, days[i].dateStr), days[i])
  {
    forall i | 0 <= i < |days|
      ensures GroupFits(ShiftsOn(shifts, days[i].dateStr), days[i])
    {
      GroupOfDay(days, shifts, i);
    }
  }

  // ---------------------------------------------------------------------------
  // No double booking.
  // ---------------------------------------------------------------------------

  lemma StaffAssignmentsDistinct(shiftId: string, c: seq<Nurse>)
    requires DistinctBy(c, IdOf)
    ensures DistinctBy(StaffAssignments(shiftId, c), NurseIdOf)
  {
  }

  /** A chosen staff nurse is a staff nurse, so not the responsible nurse. */
  lemma ChosenNotResponsible(env: Env, ledger: map<string, NurseStats>, shift: Shift, day: DayInfo, resp: seq<Assignment>)
    requires OrderInLedger(ledger, env.order) && DistinctBy(env.staff, IdOf) && ResponsibleApart(env)
    requires resp == ResponsibleAssignment(env, shift, day)
    ensures var s := StaffAssignments(shift.id, Chosen(env, ledger, shift, day));
      DistinctBy(resp + s, NurseIdOf)
  {
    var c := Chosen(env, ledger, shift, day);
    var s := StaffAssignments(shift.id, c);
    ChosenEligible(env, ledger, shift, day);
    StaffAssignmentsDistinct(shift.id, c);
    forall i, j | 0 <= i < |resp| && 0 <= j < |s|
      ensures resp[i].nurseId != s[j].nurseId
    {
      assert c[j].id in IdSet(env.staff) by {
        var m :| 0 <= m < |env.staff| && env.staff[m] == c[j];
      }
    }
    DistinctConcat(resp, s, NurseIdOf);
  }

  /** Nurses chosen for the night shift were not chosen for that day's day
      shift: recording the day shift marks them as assigned on the date. */
  lemma NightAfterDay(env: Env, p: Progress, d: Shift, n: Shift, day: DayInfo)
    requires OrderInLedger(p.ledger, env.order) && DistinctBy(env.staff, IdOf)
    requires day.dateStr == FormatDate(day.date)
    requires d.need.kind == Day8h && n.need.kind == Night16h
    ensures var p1 := AssignShift(env, p, d, day);
      var c0, c1 := Chosen(env, p.ledger, d, day), Chosen(env, p1.ledger, n, day);
      forall i, j :: 0 <= i < |c0| && 0 <= j < |c1| ==> c0[i].id != c1[j].id
  {
    var p1 := AssignShift(env, p, d, day);
    OrderKept(p.ledger, p1.ledger, env.order);
    var c0, c1 := Chosen(env, p.ledger, d, day), Chosen(env, p1.ledger, n, day);
    ChosenEligible(env, p.ledger, d, day);
    ChosenEligible(env, p1.ledger, n, day);
    RecordAllSpec(p.ledger, c0, UpdateFor(Day8h, day));
    forall i | 0 <= i < |c0|
      ensures AssignedOn(p1.ledger[c0[i].id], day.dateStr)
    {
      assert c0[i].id in IdSet(c0);
    }
    forall i, j | 0 <= i < |c0| && 0 <= j < |c1|
      ensures c0[i].id != c1[j].id
    {
      assert !AssignedOn(p1.ledger[c1[j].id], day.dateStr);
    }
  }

  /** The assignments made for one day's planned shifts name each nurse at most
      once: a nurse on the day shift is assigned on that date, which keeps that
      nurse off the night shift. */
  lemma DayGroupDistinct(env: Env, p: Progress, group: seq<Shift>, day: DayInfo)
    requires OrderInLedger(p.ledger, env.order) && DistinctBy(env.staff, IdOf) && ResponsibleApart(env)
    requires day.dateStr == FormatDate(day.date)
    requires |group| == |PlanDay(day)| && forall k :: 0 <= k < |group| ==> group[k].need == PlanDay(day)[k]
    ensures var r := AssignGroup(env, p, group, day);
      |p.assignments| <= |r.assignments| && DistinctBy(r.assignments[|p.assignments|..], NurseIdOf)
  {
    if |group| == 1 {
      OneShiftDistinct(env, p, group, day);
    } else {
      WorkdayGroupDistinct(env, p, group, day);
    }
  }

  /** A group of one shift names distinct nurses. */
  lemma OneShiftDistinct(env: Env, p: Progress, group: seq<Shift>, day: DayInfo)
    requires OrderInLedger(p.ledger, env.order) && DistinctBy(env.staff, IdOf) && ResponsibleApart(env)
    requires |group| == 1
    ensures var r := AssignGroup(env, p, group, day);
      |p.assignments| <= |r.assignments| && DistinctBy(r.assignments[|p.assignments|..], NurseIdOf)
  {
    assert group[..0] == [];
    ShiftAdds(env, p, group[0], day);
    var r0 := ResponsibleAssignment(env, group[0], day);
    ChosenNotResponsible(env, p.ledger, group[0], day, r0);
    TailAfter(p.assignments, r0 + StaffAssignments(group[0].id, Chosen(env, p.ledger, group[0], day)));
  }

  /** A two-shift group is the second shift assigned after the first. */
  lemma TwoShifts(env: Env, p: Progress, group: seq<Shift>, day: DayInfo)
    requires OrderInLedger(p.ledger, env.order) && |group| == 2
    ensures var p1 := AssignShift(env, p, group[0], day);
      OrderInLedger(p1.ledger, env.order) &&
      AssignGroup(env, p, group, day) == AssignShift(env, p1, group[1], day)
  {
    var p1 := AssignShift(env, p, group[0], day);
    assert AssignGroup(env, p, group[..1], day) == p1 by {
      assert group[..1][..0] == [];
    }
    OrderKept(p.ledger, p1.ledger, env.order);
  }


  /** Two lists of chosen staff with no id in common, after at most one
      assignment of a nurse who is not staff, name distinct nurses. */
  lemma TwoShiftsDistinct(r0: seq<Assignment>, id0: string, c0: seq<Nurse>, id1: string, c1: seq<Nurse>, staffIds: set<string>)
    requires DistinctBy(c0, IdOf) && DistinctBy(c1, IdOf)
    requires forall i :: 0 <= i < |r0| ==> r0[i].nurseId !in staffIds
    requires forall i :: 0 <= i < |c0| ==> c0[i].id in staffIds
    requires forall j :: 0 <= j < |c1| ==> c1[j].id in staffIds
    requires DistinctBy(r0, NurseIdOf)
    requires forall i, j :: 0 <= i < |c0| && 0 <= j < |c1| ==> c0[i].id != c1[j].id
    ensures DistinctBy(r0 + StaffAssignments(id0, c0) + StaffAssignments(id1, c1), NurseIdOf)
  {
    var s0, s1 := StaffAssignments(id0, c0), StaffAssignments(id1, c1);
    StaffAssignmentsDistinct(id0, c0);
    StaffAssignmentsDistinct(id1, c1);
    DistinctConcat(r0, s0, NurseIdOf);
    var a := r0 + s0;
    forall i, j | 0 <= i < |a| && 0 <= j < |s1|
      ensures a[i].nurseId != s1[j].nurseId
    {
      if i < |r0| {
        assert a[i] == r0[i];
      } else {
        assert a[i] == s0[i - |r0|];
      }
    }
    DistinctConcat(a, s1, NurseIdOf);
  }

  /** What a workday adds: the day shift's responsible and staff assignments,
      then the night shift's staff assignments. */
  function WorkdayAdded(env: Env, p: Progress, group: seq<Shift>, day: DayInfo): seq<Assignment>
    requires OrderInLedger(p.ledger, env.order) && |group| == 2
  {
    var p1 := AssignShift(env, p, group[0], day);
    OrderKept(p.ledger, p1.ledger, env.order);
    ResponsibleAssignment(env, group[0], day)
      + StaffAssignments(group[0].id, Chosen(env, p.ledger, group[0], day))
      + StaffAssignments(group[1].id, Chosen(env, p1.ledger, group[1], day))
  }

  lemma WorkdayAppends(env: Env, p: Progress, group: seq<Shift>, day: DayInfo)
    requires OrderInLedger(p.ledger, env.order)
    requires |group| == 2 && group[1].need.kind == Night16h
    ensures AssignGroup(env, p, group, day).assignments == p.assignments + WorkdayAdded(env, p, group, day)
  {
    TwoShifts(env, p, group, day);
    var p1 := AssignShift(env, p, group[0], day);
    ShiftAdds(env, p, group[0], day);
    ShiftAdds(env, p1, group[1], day);
    Reassociate(p.assignments, ResponsibleAssignment(env, group[0], day),
      StaffAssignments(group[0].id, Chosen(env, p.ledger, group[0], day)),
      ResponsibleAssignment(env, group[1], day),
      StaffAssignments(group[1].id, Chosen(env, p1.ledger, group[1], day)));
  }

  lemma WorkdayAddedDistinct(env: Env, p: Progress, group: seq<Shift>, day: DayInfo)
    requires OrderInLedger(p.ledger, env.order) && DistinctBy(env.staff, IdOf) && ResponsibleApart(env)
    requires day.dateStr == FormatDate(day.date)
    requires |group| == 2 && group[0].need.kind == Day8h && group[1].need.kind == Night16h
    ensures DistinctBy(WorkdayAdded(env, p, group, day), NurseIdOf)
  {
    var p1 := AssignShift(env, p, group[0], day);
    OrderKept(p.ledger, p1.ledger, env.order);
    var c0 := Chosen(env, p.ledger, group[0], day);
    var c1 := Chosen(env, p1.ledger, group[1], day);
    ChosenEligible(env, p.ledger, group[0], day);
    ChosenEligible(env, p1.ledger, group[1], day);
    NightAfterDay(env, p, group[0], group[1], day);
    TwoShiftsDistinct(ResponsibleAssignment(env, group[0], day), group[0].id, c0, group[1].id, c1, IdSet(env.staff));
  }

  lemma WorkdayGroupDistinct(env: Env, p: Progress, group: seq<Shift>, day: DayInfo)
    requires OrderInLedger(p.ledger, env.order) && DistinctBy(env.staff, IdOf) && ResponsibleApart(env)
    requires day.dateStr == FormatDate(day.date)
    requires |group| == 2 && group[0].need.kind == Day8h && group[1].need.kind == Night16h
    ensures var r := AssignGroup(env, p, group, day);
      |p.assignments| <= |r.assignments| && DistinctBy(r.assignments[|p.assignments|..], NurseIdOf)
  {
    WorkdayAppends(env, p, group, day);
    WorkdayAddedDistinct(env, p, group, day);
    TailAfter(p.assignments, WorkdayAdded(env, p, group, day));
  }

  /** The assignments made while processing day `i` of the month. */
  function DayAssignments(env: Env, p: Progress, days: seq<DayInfo>, shifts: seq<Shift>, i: int): seq<Assignment>
    requires 0 <= i < |days| && OrderInLedger(p.ledger, env.order)
  {
    var before := AssignUpTo(env, p, days, shifts, i);
    var after := AssignUpTo(env, p, days, shifts, i + 1);
    if |before.assignments| <= |after.assignments| then after.assignments[|before.assignments|..] else []
  }

  /** The shifts dated with day `i`'s key are that day's planned shifts. */
  lemma GroupPlanned(days: seq<DayInfo>, shifts: seq<Shift>, i: int)
    requires DistinctKeys(days) && Planned(shifts, days) && 0 <= i < |days|
    ensures var group := ShiftsOn(shifts, days[i].dateStr);
      |group| == |PlanDay(days[i])| && forall k :: 0 <= k < |group| ==> group[k].need == PlanDay(days[i])[k]
  {
    var off, n := DayOffset(days, i), |PlanDay(days[i])|;
    var group := ShiftsOn(shifts, days[i].dateStr);
    assert off + n <= |shifts| && group == shifts[off..off + n] by { GroupOfDay(days, shifts, i); }
    forall k | 0 <= k < n
      ensures group[k].need == PlanDay(days[i])[k]
    {
      assert group[k] == shifts[off + k];
      GroupOfDay(days, shifts, i);
    }
  }

  /** No nurse is assigned twice on one day of the month: the assignments made
      for each day's shifts name distinct nurses. */
  lemma NoDoubleBooking(env: Env, p: Progress, days: seq<DayInfo>, shifts: seq<Shift>, i: int)
    requires 0 <= i < |days| && OrderInLedger(p.ledger, env.order)
    requires DistinctBy(env.staff, IdOf) && ResponsibleApart(env)
    requires KeyedDays(days) && Planned(shifts, days)
    ensures DistinctBy(DayAssignments(env, p, days, shifts, i), NurseIdOf)
  {
    var q := AssignUpTo(env, p, days, shifts, i);
    var group := ShiftsOn(shifts, days[i].dateStr);
    DayStep(env, p, days, shifts, i);
    assert DistinctKeys(days) && days[i].dateStr == FormatDate(days[i].date);
    GroupPlanned(days, shifts, i);
    DayGroupDistinct(env, q, group, days[i]);
  }

  // ---------------------------------------------------------------------------
  // Leave.
  // ---------------------------------------------------------------------------

  /** The nurses one shift adds are not on leave that day: the responsible nurse
      is checked directly, the staff through the eligibility rule of the kind. */
  lemma AddedOffLeave(env: Env, p: Progress, shift: Shift, day: DayInfo)
    requires OrderInLedger(p.ledger, env.order) && DistinctBy(env.staff, IdOf)
    ensures var added := ResponsibleAssignment(env, shift, day) + StaffAssignments(shift.id, Chosen(env, p.ledger, shift, day));
      forall i :: 0 <= i < |added| ==> !IsNurseOnLeave(env.leaves, added[i].nurseId, day.dateStr)
  {
    var c := Chosen(env, p.ledger, shift, day);
    forall j | 0 <= j < |c|
      ensures !IsNurseOnLeave(env.leaves, c[j].id, day.dateStr)
    {
      ChosenEligible(env, p.ledger, shift, day);
      assert KindOk(shift.need.kind, env.leaves, c[j], p.ledger[c[j].id], day);
    }
    var resp: seq<Assignment> := ResponsibleAssignment(env, shift, day);
    assert OffLeaveFrom(env.leaves, resp, 0, day.dateStr);
    StaffOffLeave(env.leaves, day.dateStr, shift.id, c);
    OffLeaveGrow(env.leaves, day.dateStr, 0, resp, StaffAssignments(shift.id, c));
  }

  /** Assignments made for nurses who are all off leave name no nurse on leave. */
  lemma StaffOffLeave(leaves: seq<Leave>, key: string, shiftId: string, c: seq<Nurse>)
    requires forall j :: 0 <= j < |c| ==> !IsNurseOnLeave(leaves, c[j].id, key)
    ensures OffLeaveFrom(leaves, StaffAssignments(shiftId, c), 0, key)
  {
  }

  /** From position `from` on, `a` names no nurse on leave on `key`. */
  ghost predicate OffLeaveFrom(leaves: seq<Leave>, a: seq<Assignment>, from: nat, key: string) {
    forall i :: from <= i < |a| ==> !IsNurseOnLeave(leaves, a[i].nurseId, key)
  }

  lemma OffLeaveGrow(leaves: seq<Leave>, key: string, from: nat, qa: seq<Assignment>, added: seq<Assignment>)
    requires from <= |qa| && OffLeaveFrom(leaves, qa, from, key) && OffLeaveFrom(leaves, added, 0, key)
    ensures OffLeaveFrom(leaves, qa + added, from, key)
  {
    forall i | from <= i < |qa + added|
      ensures !IsNurseOnLeave(leaves, (qa + added)[i].nurseId, key)
    {
      if i < |qa| {
        assert (qa + added)[i] == qa[i];
      } else {
        assert (qa + added)[i] == added[i - |qa|];
      }
    }
  }

  /** Assigning a day's shifts adds no nurse who is on leave that day. */
  lemma {:induction false} AssignGroupOffLeave(env: Env, p: Progress, group: seq<Shift>, day: DayInfo)
    requires OrderInLedger(p.ledger, env.order) && DistinctBy(env.staff, IdOf)
    ensures var r := AssignGroup(env, p, group, day);
      && |p.assignments| <= |r.assignments|
      && forall i :: |p.assignments| <= i < |r.assignments| ==> !IsNurseOnLeave(env.leaves, r.assignments[i].nurseId, day.dateStr)
    decreases |group|
  {
    if group != [] {
      var init, last := group[..|group| - 1], group[|group| - 1];
      AssignGroupOffLeave(env, p, init, day);
      var q := AssignGroup(env, p, init, day);
      assert OffLeaveFrom(env.leaves, q.assignments, |p.assignments|, day.dateStr);
      OrderKept(p.ledger, q.ledger, env.order);
      var added := ResponsibleAssignment(env, last, day) + StaffAssignments(last.id, Chosen(env, q.ledger, last, day));
      assert AssignGroup(env, p, group, day).assignments == q.assignments + added by {
        ShiftAdds(env, q, last, day);
      }
      assert OffLeaveFrom(env.leaves, added, 0, day.dateStr) by {
        AddedOffLeave(env, q, last, day);
      }
      OffLeaveGrow(env.leaves, day.dateStr, |p.assignments|, q.assignments, added);
    }
  }

  /** `a` is for one of the shifts dated `key`. */
  ghost predicate ForShiftOn(a: Assignment, shifts: seq<Shift>, key: string) {
    exists k :: 0 <= k < |shifts| && shifts[k].id == a.shiftId && shifts[k].need.date == key
  }

  /** The assignments made while processing day `i` are all for shifts dated
      with that day's key, and none names a nurse on leave that day. */
  lemma DayOffLeave(env: Env, p: Progress, days: seq<DayInfo>, shifts: seq<Shift>, i: int)
    requires 0 <= i < |days| && OrderInLedger(p.ledger, env.order) && DistinctBy(env.staff, IdOf)
    ensures var a := DayAssignments(env, p, days, shifts, i);
      forall j :: 0 <= j < |a| ==> !IsNurseOnLeave(env.leaves, a[j].nurseId, days[i].dateStr)
    ensures var a := DayAssignments(env, p, days, shifts, i);
      forall j :: 0 <= j < |a| ==> ForShiftOn(a[j], shifts, days[i].dateStr)
  {
    var q := AssignUpTo(env, p, days, shifts, i);
    var group := ShiftsOn(shifts, days[i].dateStr);
    DayStep(env, p, days, shifts, i);
    var r := AssignGroup(env, q, group, days[i]);
    AssignGroupMade(env, q, group, days[i]);
    AssignGroupOffLeave(env, q, group, days[i]);
    FilterSpec(shifts, OnDate(days[i].dateStr));
    var a := DayAssignments(env, p, days, shifts, i);
    assert a == r.assignments[|q.assignments|..];
    forall j | 0 <= j < |a|
      ensures ForShiftOn(a[j], shifts, days[i].dateStr)
    {
      assert a[j] == r.assignments[|q.assignments| + j];
      assert MadeIn(env, a[j], group);
      var g :| 0 <= g < |group| && Made(env, a[j], group[g]);
      assert group[g] in shifts && OnDate(days[i].dateStr)(group[g]);
      var k :| 0 <= k < |shifts| && shifts[k] == group[g];
    }
    forall j | 0 <= j < |a|
      ensures !IsNurseOnLeave(env.leaves, a[j].nurseId, days[i].dateStr)
    {
      assert a[j] == r.assignments[|q.assignments| + j];
    }
  }

  /** The whole month, on any ledger within the limits and any shifts planned
      for keyed days: the ledger stays within the limits; every new assignment
      is made for one of the shifts; and the assignments made for each day are
      for shifts dated that day, book no nurse twice and name no nurse on leave
      that day. */
  lemma RunSound(env: Env, p: Progress, days: seq<DayInfo>, shifts: seq<Shift>)
    requires OrderInLedger(p.ledger, env.order) && DistinctBy(env.staff, IdOf) && ResponsibleApart(env)
    requires KeyedDays(days) && Planned(shifts, days) && LedgerOk(p.ledger)
    ensures var r := AssignUpTo(env, p, days, shifts, |days|);
      && LedgerOk(r.ledger)
      && MadeFrom(env, r.assignments, |p.assignments|, shifts)
    ensures forall i :: 0 <= i < |days| ==> DistinctBy(DayAssignments(env, p, days, shifts, i), NurseIdOf)
    ensures forall i, j :: 0 <= i < |days| && 0 <= j < |DayAssignments(env, p, days, shifts, i)| ==>
      !IsNurseOnLeave(env.leaves, DayAssignments(env, p, days, shifts, i)[j].nurseId, days[i].dateStr)
    ensures forall i, j :: 0 <= i < |days| && 0 <= j < |DayAssignments(env, p, days, shifts, i)| ==>
      ForShiftOn(DayAssignments(env, p, days, shifts, i)[j], shifts, days[i].dateStr)
  {
    PlannedGroupsFit(days, shifts);
    AssignUpToLimits(env, p, days, shifts, |days|);
    AssignUpToMade(env, p, days, shifts, |days|);
    forall i | 0 <= i < |days|
      ensures DistinctBy(DayAssignments(env, p, days, shifts, i), NurseIdOf)
      ensures forall j :: 0 <= j < |DayAssignments(env, p, days, shifts, i)| ==>
        !IsNurseOnLeave(env.leaves, DayAssignments(env, p, days, shifts, i)[j].nurseId, days[i].dateStr)
      ensures forall j :: 0 <= j < |DayAssignments(env, p, days, shifts, i)| ==>
        ForShiftOn(DayAssignments(env, p, days, shifts, i)[j], shifts, days[i].dateStr)
    {
      NoDoubleBooking(env, p, days, shifts, i);
      DayOffLeave(env, p, days, shifts, i);
    }
  }
}
