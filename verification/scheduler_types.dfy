/** The records the shift-generation engine works with: nurses, leave records,
    planned and stored shifts, assignments, day descriptors and the per-nurse
    statistics ledger entries. */
module SchedulerTypes {
  import opened Wrappers
  import opened DateUtils

  datatype Role = Responsible | Staff

  /** A nurse row (timestamps are not modelled). */
  datatype Nurse = Nurse(id: string, name: string, role: Role)

  function IdOf(n: Nurse): string {
    n.id
  }

  datatype LeaveType = Annual | Excuse | Sick | Preference

  /** A leave record as the engine reads it. Database rows carry the snake_case
      columns; camelCase spellings, when a record has them, are read first. Any
      field may be missing, which `None` stands for. */
  datatype Leave = Leave(
    camelNurseId: Option<string>, snakeNurseId: Option<string>,
    kind: Option<LeaveType>,
    camelStart: Option<string>, snakeStart: Option<string>,
    camelEnd: Option<string>, snakeEnd: Option<string>)
  {
    function NurseId(): Option<string> {
      camelNurseId.OrElse(snakeNurseId)
    }

    function StartDate(): Option<string> {
      camelStart.OrElse(snakeStart)
    }

    function EndDate(): Option<string> {
      camelEnd.OrElse(snakeEnd)
    }
  }

  datatype ShiftType = Day8h | Night16h | Weekend24h

  /** A shift the engine plans for a day, before it is stored. */
  datatype ShiftNeed = ShiftNeed(
    date: string, kind: ShiftType, startTime: string, endTime: string,
    requiredStaff: int, requiresResponsible: bool)

  /** A planned shift together with the id its stored row received. */
  datatype Shift = Shift(id: string, need: ShiftNeed)

  function ShiftIdOf(s: Shift): string {
    s.id
  }

  /** The columns of a stored shift row. */
  datatype ShiftRow = ShiftRow(
    scheduleId: string, date: string, kind: ShiftType, startTime: string,
    endTime: string, requiredStaff: int)

  datatype StoredShift = StoredShift(id: string, row: ShiftRow)

  /** One nurse on one shift; the engine's assignments all say `algorithm`. */
  datatype Assignment = Assignment(shiftId: string, nurseId: string, assignedBy: string)

  const AssignedByAlgorithm := "algorithm"

  /** A day of the month with its key and its weekend and holiday flags. */
  datatype DayInfo = DayInfo(date: Date, dateStr: string, isWeekend: bool, isHoliday: bool)

  /** A staff nurse's running totals for the month being planned. */
  datatype NurseStats = NurseStats(
    nurse: Nurse, totalHours: int, nightShiftCount: int, weekendShiftCount: int,
    dayShiftCount: int, consecutiveDays: int, lastShiftDate: Option<Date>)

  /** What one assignment adds to a ledger entry. */
  datatype StatsUpdate = StatsUpdate(hours: int, isNight: bool, isWeekend: bool, date: Date)

  datatype SchedulerError = NoResponsibleNurse | TooFewStaffNurses

  /** An advisory message: the responsible nurse has many leave records, or a
      staff nurse has far fewer hours than the average. */
  datatype Warning = ResponsibleOftenAbsent(leaveRecords: nat) | FewHours(name: string, hours: int)

  /** What a successful generation reports. */
  datatype Summary = Summary(fairnessScore: real, shifts: nat, assignments: nat, warnings: seq<Warning>)
}
