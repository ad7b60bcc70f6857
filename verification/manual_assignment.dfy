/** The manual side of the schedule screens: the `canAssign` check the month
    grid and the board run before asking the server to assign a nurse that was
    dragged onto a shift, the guard around that request in `handleAssign`, and
    the board's grouping of the month's shifts by type. */
module ManualAssignment {
  import opened Wrappers
  import opened Seqs
  import opened SchedulerTypes

  /** An assignment as a shift card shows it: the nurse and the role the
      nurse fills on the shift. */
  datatype CardAssignment = CardAssignment(nurseId: string, role: Role)

  /** A shift as the screens receive it. `currentStaff` and
      `currentResponsible` are the counts the server may send along; when they
      are absent the screens count the assignments themselves. */
  datatype CardShift = CardShift(
    id: string, date: string, kind: ShiftType, requiredStaff: int,
    assignments: seq<CardAssignment>,
    currentStaff: Option<int>, currentResponsible: Option<int>)

  /** A day of the schedule and its shifts. */
  datatype CardDay = CardDay(date: string, shifts: seq<CardShift>)

  /** Why `canAssign` refuses, one reason per check. */
  datatype Refusal = AlreadyAssigned | ResponsibleDayOnly | ResponsibleTaken | StaffFull

  function RoleIs(role: Role): CardAssignment -> bool {
    (a: CardAssignment) => a.role == role
  }

  /** `currentResponsible ?? (assignments with role responsible).length`. */
  function ResponsibleCount(shift: CardShift): int {
    shift.currentResponsible.GetOr(|Filter(shift.assignments, RoleIs(Responsible))|)
  }

  /** `currentStaff ?? (assignments with role staff).length`. */
  function StaffCount(shift: CardShift): int {
    shift.currentStaff.GetOr(|Filter(shift.assignments, RoleIs(Staff))|)
  }

  /** `assignments.some(a => a.nurseId === nurseId)`. */
  predicate HasNurse(assignments: seq<CardAssignment>, nurseId: string) {
    exists i | 0 <= i < |assignments| :: assignments[i].nurseId == nurseId
  }

  /** What a manual assignment must respect: the nurse is not already on the
      shift; a responsible nurse only takes a day shift that has no
      responsible nurse yet; a staff nurse only takes a shift below its
      required staff. */
  predicate Admissible(nurse: Nurse, shift: CardShift) {
    && !HasNurse(shift.assignments, nurse.id)
    && (nurse.role == Responsible ==> shift.kind == Day8h && ResponsibleCount(shift) < 1)
    && (nurse.role == Staff ==> StaffCount(shift) < shift.requiredStaff)
  }

  /** `canAssign`: the checks in order, the first that fails giving the reason.
      It allows exactly the admissible assignments, and refuses a nurse already
      on the shift for that reason before any other. */
  function CanAssign(nurse: Nurse, shift: CardShift): (r: Outcome<Refusal>)
    ensures r.Pass? <==> Admissible(nurse, shift)
    ensures HasNurse(shift.assignments, nurse.id) ==> r == Fail(AlreadyAssigned)
    ensures r.Fail? && r.error == StaffFull ==> nurse.role == Staff
    ensures r.Fail? && r.error in {ResponsibleDayOnly, ResponsibleTaken} ==> nurse.role == Responsible
  {
    if HasNurse(shift.assignments, nurse.id) then Fail(AlreadyAssigned)
    else if nurse.role == Responsible then
      if shift.kind != Day8h then Fail(ResponsibleDayOnly)
      else if ResponsibleCount(shift) >= 1 then Fail(ResponsibleTaken)
      else Pass
    else if StaffCount(shift) >= shift.requiredStaff then Fail(StaffFull)
    else Pass
  }

  /** What `handleAssign` does after the check: show the refusal, or send the
      shift and nurse ids to the server. */
  datatype Action = ShowRefusal(reason: Refusal) | RequestAssign(shiftId: string, nurseId: string)

  /** The guard in `handleAssign`: the request is sent only when `canAssign`
      allows it, and then for this shift and this nurse. The request itself
      and the feedback text are not part of this model. */
  function HandleAssign(shift: CardShift, nurse: Nurse): (a: Action)
    ensures a.RequestAssign? <==> Admissible(nurse, shift)
    ensures a.RequestAssign? ==> a.shiftId == shift.id && a.nurseId == nurse.id
    ensures a.ShowRefusal? ==> CanAssign(nurse, shift) == Fail(a.reason)
  {
    var validation := CanAssign(nurse, shift);
    if validation.Fail? then ShowRefusal(validation.error)
    else RequestAssign(shift.id, nurse.id)
  }

  /** The shift after the server has added the nurse in the nurse's role, with
      its counts left to the screens. */
  function WithNurse(shift: CardShift, nurse: Nurse): CardShift {
    shift.(assignments := shift.assignments + [CardAssignment(nurse.id, nurse.role)],
           currentStaff := None, currentResponsible := None)
  }

  /** A shift card whose counts are its own assignments, with no nurse twice,
      at most one responsible nurse and no more staff than required. */
  predicate WellStaffed(shift: CardShift) {
    && shift.currentStaff.None? && shift.currentResponsible.None?
    && (forall i, j :: 0 <= i < j < |shift.assignments| ==> shift.assignments[i].nurseId != shift.assignments[j].nurseId)
    && ResponsibleCount(shift) <= 1
    && StaffCount(shift) <= shift.requiredStaff
  }

  lemma FilterAppend(s: seq<CardAssignment>, x: CardAssignment, p: CardAssignment -> bool)
    ensures |Filter(s + [x], p)| == |Filter(s, p)| + (if p(x) then 1 else 0)
  {
    FilterConcat(s, [x], p);
  }

  /** Assignments the check allows keep a well staffed shift well staffed. */
  lemma AllowedKeepsStaffing(nurse: Nurse, shift: CardShift)
    requires WellStaffed(shift) && CanAssign(nurse, shift).Pass?
    ensures WellStaffed(WithNurse(shift, nurse))
  {
    var added := CardAssignment(nurse.id, nurse.role);
    var after := WithNurse(shift, nurse);
    FilterAppend(shift.assignments, added, RoleIs(Responsible));
    FilterAppend(shift.assignments, added, RoleIs(Staff));
    forall i, j | 0 <= i < j < |after.assignments|
      ensures after.assignments[i].nurseId != after.assignments[j].nurseId
    {
      if j == |shift.assignments| {
        assert after.assignments[i] == shift.assignments[i];
      }
    }
  }

  /** Once assigned, the same nurse is refused on that shift as already
      assigned. */
  lemma AssignedRefusedAgain(nurse: Nurse, shift: CardShift)
    ensures CanAssign(nurse, WithNurse(shift, nurse)) == Fail(AlreadyAssigned)
  {
    var after := WithNurse(shift, nurse);
    assert after.assignments[|shift.assignments|].nurseId == nurse.id;
  }

  // ---------------------------------------------------------------------------
  // The board's columns.
  // ---------------------------------------------------------------------------

  /** The shifts of the days, day by day. */
  function AllShifts(days: seq<CardDay>): seq<CardShift>
    decreases |days|
  {
    if days == [] then [] else AllShifts(days[..|days| - 1]) + days[|days| - 1].shifts
  }

  function OfKind(kind: ShiftType): CardShift -> bool {
    (s: CardShift) => s.kind == kind
  }

  /** The `grouped` record: one list of shifts per shift type. */
  datatype Columns = Columns(day: seq<CardShift>, night: seq<CardShift>, weekend: seq<CardShift>) {
    function Of(kind: ShiftType): seq<CardShift> {
      match kind
      case Day8h => day
      case Night16h => night
      case Weekend24h => weekend
    }

    /** `grouped[shift.type].push(shift)`. */
    function Push(shift: CardShift): (c: Columns)
      ensures forall kind :: c.Of(kind) == if kind == shift.kind then Of(kind) + [shift] else Of(kind)
    {
      match shift.kind
      case Day8h => this.(day := day + [shift])
      case Night16h => this.(night := night + [shift])
      case Weekend24h => this.(weekend := weekend + [shift])
    }
  }

  /** `shiftsByType`: every shift of the schedule pushed onto the list of its
      type, days and shifts in order; without a schedule the three lists are
      empty. Each list holds exactly the shifts of its type, in schedule
      order. */
  method ShiftsByType(schedule: Option<seq<CardDay>>) returns (grouped: Columns)
    ensures forall kind :: grouped.Of(kind) == (if schedule.None? then [] else Filter(AllShifts(schedule.value), OfKind(kind)))
  {
    grouped := Columns([], [], []);
    if schedule.None? {
      return;
    }
    var days := schedule.value;
    for d := 0 to |days|
      invariant forall kind :: grouped.Of(kind) == Filter(AllShifts(days[..d]), OfKind(kind))
    {
      var shifts := days[d].shifts;
      assert AllShifts(days[..d]) + shifts[..0] == AllShifts(days[..d]);
      for j := 0 to |shifts|
        invariant forall kind :: grouped.Of(kind) == Filter(AllShifts(days[..d]) + shifts[..j], OfKind(kind))
      {
        var shift := shifts[j];
        grouped := grouped.Push(shift);
        forall kind
          ensures grouped.Of(kind) == Filter(AllShifts(days[..d]) + shifts[..j + 1], OfKind(kind))
        {
          assert AllShifts(days[..d]) + shifts[..j + 1] == (AllShifts(days[..d]) + shifts[..j]) + [shift];
          FilterConcat(AllShifts(days[..d]) + shifts[..j], [shift], OfKind(kind));
        }
      }
      assert shifts[..|shifts|] == shifts;
      assert days[..d + 1][..d] == days[..d];
    }
    assert days[..|days|] == days;
  }

  /** The three lists split the schedule's shifts: their lengths add up to the
      number of shifts. */
  lemma {:induction false} KindsPartition(s: seq<CardShift>)
    ensures |Filter(s, OfKind(Day8h))| + |Filter(s, OfKind(Night16h))| + |Filter(s, OfKind(Weekend24h))| == |s|
  {
    if s != [] {
      KindsPartition(s[1..]);
    }
  }
}
