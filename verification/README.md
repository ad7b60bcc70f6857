# Nurse shift scheduler: the generation engine and the manual-assignment checks

This project models, in Dafny, the core of a nurse-scheduling application for a
hospital ward. There is one responsible nurse and a pool of staff nurses. Each
month has one schedule of shifts:

- every workday gets an 8-hour day shift and a 16-hour night shift;
- every weekend day (or holiday) gets one 24-hour shift.

The backend's `SchedulerService.generateSchedule` builds the schedule in five
phases:

1. It loads the nurses and the month's leave records, describes each day of the
   month, and seeds a per-nurse ledger of running totals.
2. It plans the shifts and stores them.
3. It walks the days in order. For each shift it filters the staff by hard rules
   (leave, one shift a day, rest after the night before, at most 5 consecutive
   days, at most 10 nights, at most 4 weekend shifts). It ranks the eligible
   nurses by a priority score, assigns the best two, and records them in the
   ledger. The responsible nurse also takes every day shift unless on leave.
4. It computes a 0–100 fairness score from the standard deviations of hours,
   nights and weekend shifts across the ledger.
5. It stores the score and reports a summary with warnings.

The model also covers the helpers the engine uses:

- the date utilities: month lengths, `YYYY-MM-DD` keys, month parsing, day
  arithmetic;
- the weekend configuration: Saturday–Sunday, Friday–Saturday or Thursday–Saturday;
- the fairness calculator.

On the frontend, the month grid and the board run the same `canAssign` check
before a dragged nurse is sent to the server. The board also groups the month's
shifts by type.

How the source takes each form in Dafny:

- **The service** is a `class SchedulerService`. Its fields are the ones the
  source mutates.
  - The ledger `Map` becomes a `map` plus an explicit insertion-order `seq`,
    because the averages and warnings iterate it in that order.
  - Each phase is a method proved against a specification function:
    `AssignShift`, `AssignGroup`, `AssignUpTo`, `Seeded`, `Warnings`,
    `FinalFairness`.
  - The properties are proved about those functions: limits kept, assignments
    well formed, no nurse booked twice on one day.
- **The database writes** are a `class RecordStore`.
- **The pure helpers** are functions and lemmas.
- **JavaScript semantics are written out:**
  - `??` and truthiness become `Option`;
  - `sort` is a stable sort;
  - `Math.round(x * 100) / 100` is floor(100x + 0.5) / 100 over reals;
  - string comparison of date keys is lexicographic, as the code does it;
  - `new Date(y, m, d)` reads a year from 0 to 99 as 1900 + year, then rolls the month and day over; `setDate` only rolls over.

## Model

| member | source | states |
|---|---|---|
| WeekendConfig.GetWeekendConfig | backend/src/config/weekendConfig.ts:49-61 | the result is one of the three presets and lists only days 0–6; an unset variable selects the Saturday–Sunday default |
| WeekendConfig.CaseInsensitiveSelection | backend/src/config/weekendConfig.ts:50-60 | a name and its upper-case form select the same preset |
| WeekendConfig.PresetSelection | backend/src/config/weekendConfig.ts:22-69 | `FRIDAY_SATURDAY` (any case) makes exactly days 5 and 6 weekend days, `GULF` days 4–6, anything else, an empty value or no value days 0 and 6 |
| WeekendConfig.UpperCaseIdempotent | backend/src/config/weekendConfig.ts:52 | upper-casing twice is upper-casing once |
| DateUtils.GetDaysInMonth | backend/src/utils/dateUtils.ts:10-12 | day 0 of the next month gives the length of the (rolled-over) month of the constructor's year (1900 + year for years 0–99), between 28 and 31 |
| DateUtils.ParseMonth | backend/src/utils/dateUtils.ts:45-48 | the first day of the month; years `0000`–`0099` are read as 1900–1999; months 00 and above 12 roll into the neighbouring year; months 01–12 give that month |
| DateUtils.GetMonthDates | backend/src/utils/dateUtils.ts:55-64 | one date per day of the month, day i + 1 at index i, as many as `getDaysInMonth` says, in the constructor's year (1900 + year for years 0–99) |
| DateUtils.MonthDaysConsecutive | backend/src/utils/dateUtils.ts:55-64 | consecutive entries of a month's list are consecutive calendar days |
| DateUtils.AddDays | backend/src/utils/dateUtils.ts:69-73 | the result lies exactly `days` days from the input |
| DateUtils.AddDaysInverse | backend/src/utils/dateUtils.ts:69-73 | adding `n` days then `-n` days returns the original date |
| DateUtils.AddDaysRange | backend/src/utils/dateUtils.ts:78-84 | a date is in the inclusive range [start, start + n] exactly when it is start + k for some 0 ≤ k ≤ n |
| DateUtils.WeekendRepeatsWeekly | backend/src/utils/dateUtils.ts:17-20 | a date is a weekend day exactly when the date a week later is |
| DateUtils.FormatDateInjective | backend/src/utils/dateUtils.ts:35-40 | two dates have the same `YYYY-MM-DD` key exactly when they are the same day |
| DateUtils.FormatDateOrder | backend/src/utils/dateUtils.ts:35-40 | for four-digit years, comparing keys as strings compares the days chronologically |
| DateUtils.FormatDateRange | backend/src/utils/dateUtils.ts:78-84 | for four-digit years, the string comparisons on keys decide `isDateInRange` |
| DateUtils.ParseMonthRoundTrip | backend/src/utils/dateUtils.ts:35-48 | for a month 01–12 and a year without a leading zero, formatting the parsed first day of `YYYY-MM` gives that string followed by `-01` |
| DateUtils.FormatParseRoundTrip | backend/src/utils/dateUtils.ts:35-48 | the first seven characters of a first-of-month key are a month string that parses back to that day |
| FairnessCalculator.ComponentScore | backend/src/utils/fairnessCalculator.ts:42-44 | never negative; at most 100 for a non-negative deviation; 100 exactly for deviation 0; 0 exactly when the scaled deviation reaches 100 |
| FairnessCalculator.Round2 | backend/src/utils/fairnessCalculator.ts:52-55 | rounding to two decimals moves the value by at most half a hundredth |
| FairnessCalculator.CalculateFairnessScore | backend/src/utils/fairnessCalculator.ts:30-57 | every score is non-negative, and at most 100 when the deviations are non-negative |
| FairnessCalculator.ScoreAntitone | backend/src/utils/fairnessCalculator.ts:30-57 | larger deviations never give a higher component or overall score |
| FairnessCalculator.PerfectScore | backend/src/utils/fairnessCalculator.ts:30-57 | zero deviations give 100 for every score |
| FairnessCalculator.NinetyEverywhere | backend/src/utils/fairnessCalculator.ts:42-55 | deviations of 5 hours, 1 night and half a weekend cost each component 10 points |
| FairnessCalculator.NormalizeScore | backend/src/utils/fairnessCalculator.ts:62-65 | the result lies in [0, 100], and is 100 when max = min |
| FairnessCalculator.NormalizeScoreInRange | backend/src/utils/fairnessCalculator.ts:62-65 | inside a non-empty range values are not clamped, and the result is monotone in the value |
| FairnessCalculator.MeanBounds | backend/src/utils/fairnessCalculator.ts:8-11 | the mean of values inside [lo, hi] is inside [lo, hi] |
| FairnessCalculator.VarianceZero | backend/src/utils/fairnessCalculator.ts:16-24 | the mean squared difference is non-negative, and zero exactly when all values are equal |
| FairnessCalculator.StandardDeviationZero | backend/src/utils/fairnessCalculator.ts:16-24 | with a correct square root, the deviation is non-negative and zero exactly when all values are equal |
| Ranking.SortRanked | backend/src/services/scheduler.service.ts:509 | the sort is a permutation of its input |
| Ranking.SortRankedSorted | backend/src/services/scheduler.service.ts:509 | the result is ascending by score, with ties in their original order (a stable sort) |
| Ranking.SelectedSpec | backend/src/services/scheduler.service.ts:503-511 | each kept entry is the item at its position, and no item left out scores below (or ties earlier than) a kept one |
| Ranking.SelectBestDistinct | backend/src/services/scheduler.service.ts:503-511 | selecting from items with distinct keys gives items with distinct keys |
| SchedulerRules.OnLeaveSome | backend/src/services/scheduler.service.ts:602-631 | a nurse is on leave exactly when some leave record blocks the day |
| SchedulerRules.LeaveBlocksOnDay | backend/src/services/scheduler.service.ts:622-629 | for keys of four-digit years, a record blocks a day exactly when it names the nurse, is not a preference, and the day lies inside its dates |
| SchedulerRules.RecordedSpec | backend/src/services/scheduler.service.ts:560-597 | recording a shift, field by field: hours and shift count grow; nights and weekends grow exactly when flagged; the run grows after a shift the day before and restarts at 1 otherwise; the last date is the shift date |
| SchedulerRules.EligibleSpec | backend/src/services/scheduler.service.ts:394-492 | eligibility keeps the staff order, and keeps exactly the staff nurses that pass the rule of the shift kind |
| SchedulerRules.DayShiftKeepsLimits | backend/src/services/scheduler.service.ts:394-415 | a day shift given to an eligible nurse keeps at most 5 consecutive days and at most 4 weekend shifts |
| SchedulerRules.NightShiftKeepsLimits | backend/src/services/scheduler.service.ts:420-459 | a night shift given to an eligible nurse keeps the limits and at most 10 nights |
| SchedulerRules.WeekendShiftKeepsLimits | backend/src/services/scheduler.service.ts:464-492 | a weekend shift given to an eligible nurse restarts the run at 1 and keeps at most 4 weekend shifts |
| SchedulerRules.DayShiftIgnoresNightRest | backend/src/services/scheduler.service.ts:394-459 | a nurse who worked yesterday, with nights this month, stays eligible for a day shift but not for a night shift |
| SchedulerRules.NightRestUsesMonthlyCount | backend/src/services/scheduler.service.ts:434-445 | after a shift yesterday, night eligibility holds exactly when no night was worked this month and the other night rules hold |
| SchedulerRules.WeekendIgnoresNightCap | backend/src/services/scheduler.service.ts:464-492 | weekend eligibility does not read the night count, so a weekend shift can take a nurse past 10 nights |
| SchedulerRules.ScoreDifference | backend/src/services/scheduler.service.ts:518-555 | whatever the averages, two scores differ by 10 per hour, 20 per night, 15 per weekend shift and 5 per consecutive day, plus the difference of their rest terms |
| SchedulerRules.FewerShiftsFirst | backend/src/services/scheduler.service.ts:518-555 | with the same last shift date, no more hours, nights, weekends or consecutive days never rank later, and tie exactly when all four are equal |
| SchedulerRules.LongerRestFirst | backend/src/services/scheduler.service.ts:540-549 | all else equal, the nurse who last worked earlier ranks first |
| SchedulerRules.NeverWorkedBonus | backend/src/services/scheduler.service.ts:540-549 | a nurse who never worked beats one who last worked k days ago exactly when k < 25 |
| SchedulerRules.SelectByPrioritySpec | backend/src/services/scheduler.service.ts:498-512 | `count` nurses are taken (all when fewer); only from the input; with distinct ids when the input has them; none left out scores lower than one taken |
| SchedulerPlan.MonthInfo | backend/src/services/scheduler.service.ts:142-150 | one descriptor per day of the month, each describing its own date |
| SchedulerPlan.MonthInfoDates | backend/src/services/scheduler.service.ts:142-150 | for months 01–12, entry i describes day i + 1 of that month, of year 1900 + YYYY when YYYY is 0000–0099 and of YYYY otherwise |
| SchedulerPlan.TwoDigitYearMonth | backend/src/services/scheduler.service.ts:142-150 | a month string of year `0000`–`0099` (which the route's `\d{4}-\d{2}` check lets through) is planned in 1900 + year; its February has 29 days exactly when 1900 + year is a leap year, so `0000-02` has 28 |
| SchedulerPlan.MonthInfoWellFormed | backend/src/services/scheduler.service.ts:142-150 | the descriptors are consecutive days, each keyed by its formatted date |
| SchedulerPlan.MonthKeysDistinct | backend/src/services/scheduler.service.ts:145-150 | the days of a month are strictly ascending, so their keys are distinct |
| SchedulerPlan.PlanShiftsCount | backend/src/services/scheduler.service.ts:184-215 | two shifts per workday and one per weekend day or holiday |
| SchedulerPlan.PlanShiftsKeys | backend/src/services/scheduler.service.ts:184-215 | every planned shift is dated on one of the month's days |
| SchedulerPlan.GroupOfDay | backend/src/services/scheduler.service.ts:248-258 | with distinct keys, the shifts grouped under a day's key are exactly that day's planned shifts, in order |
| SchedulerSpec.RecordAllSpec | backend/src/services/scheduler.service.ts:308-322 | recording nurses with distinct ids records each of their entries once and leaves every other entry unchanged |
| SchedulerSpec.ChosenEligible | backend/src/services/scheduler.service.ts:305-306 | the chosen staff are staff nurses with ledger entries who pass the rule of the shift kind, with distinct ids |
| SchedulerSpec.ChosenBest | backend/src/services/scheduler.service.ts:305-306 | two nurses are chosen, or all eligible ones when fewer, and no eligible nurse left out scores lower than one chosen |
| SchedulerSpec.AssignShiftSpec | backend/src/services/scheduler.service.ts:289-389 | one shift keeps the earlier assignments and adds min(2, eligible) staff plus the responsible nurse, who is added exactly on a day shift when present and not on leave; every new assignment carries the shift's id and `algorithm`, and names a staff nurse or, on a day shift, the responsible nurse |
| SchedulerSpec.AssignUpToMade | backend/src/services/scheduler.service.ts:257-275 | over the month, earlier assignments are kept, each new one is made for one of the month's shifts, and the responsible nurse appears only on day shifts |
| SchedulerSpec.AssignUpToLimits | backend/src/services/scheduler.service.ts:257-275 | when day and night shifts fall only on non-weekend days, no ledger entry passes 5 consecutive days or 4 weekend shifts over the month |
| SchedulerSpec.NoDoubleBooking | backend/src/services/scheduler.service.ts:257-275 | the assignments made for each day's shifts name distinct nurses |
| SchedulerSpec.AddedOffLeave | backend/src/services/scheduler.service.ts:295-306 | no nurse one shift adds is on leave that day: the responsible nurse by the leave check before the push, the staff through the eligibility rule of the kind |
| SchedulerSpec.AssignGroupOffLeave | backend/src/services/scheduler.service.ts:258-274 | assigning a day's shifts adds no nurse on leave that day |
| SchedulerSpec.DayOffLeave | backend/src/services/scheduler.service.ts:257-275 | the assignments made while processing a day are all for shifts dated with that day's key, and none names a nurse on leave that day |
| SchedulerSpec.RunSound | backend/src/services/scheduler.service.ts:240-283 | over the month, from a ledger within the limits and shifts planned for keyed days: the ledger stays within the limits, every new assignment is made for one of the shifts, and each day's assignments are for that day's shifts, book no nurse twice and name no nurse on leave that day |
| SchedulerReport.Seeded | backend/src/services/scheduler.service.ts:161-174 | seeding keeps every ordered id in the ledger |
| SchedulerReport.SeededKeys | backend/src/services/scheduler.service.ts:161-174 | the keys become the old keys plus the nurses' ids, and other entries are unchanged |
| SchedulerReport.SeededEntries | backend/src/services/scheduler.service.ts:163-172 | each nurse's entry is a zero entry for a nurse with that id |
| SchedulerReport.SeedFresh | backend/src/services/scheduler.service.ts:161-174 | on an empty ledger, the order lists the staff ids once each, and every entry is within the limits |
| SchedulerReport.FewHoursWarningsSpec | backend/src/services/scheduler.service.ts:691-701 | one warning per entry below 70% of the average hours, and a warning exists exactly for such an entry |
| SchedulerReport.EvenHoursNoWarnings | backend/src/services/scheduler.service.ts:691-701 | when everyone has the same non-negative hours, no one is warned |
| SchedulerReport.NotEveryoneBelow | backend/src/services/scheduler.service.ts:691-701 | with non-negative hours, fewer warnings than entries: the nurse with the most hours is never below the threshold |
| SchedulerReport.FinalFairnessBounds | backend/src/services/scheduler.service.ts:646-670 | with a correct square root, every final score lies in [0, 100] |
| SchedulerReport.EvenLedgerPerfect | backend/src/services/scheduler.service.ts:646-670 | equal hours, nights and weekends everywhere score a perfect 100 |
| SchedulerEngine.Minted | backend/src/services/scheduler.service.ts:231-234 | one shift per planned need, paired with the id its row received |
| SchedulerEngine.MintedFresh | backend/src/services/scheduler.service.ts:218-234 | when `mint` never repeats an id, as database row ids do not, the new shifts have distinct ids, none of them already given to an earlier row |
| SchedulerEngine.StoredRows | backend/src/services/scheduler.service.ts:218-227 | one row per shift, under the shift's id, with the schedule id, date, type and required staff |
| SchedulerEngine.GroupByDate | backend/src/services/scheduler.service.ts:248-254 | the group under each key is exactly the shifts with that date, in order; no group is empty |
| SchedulerEngine.MonthPlanSound | backend/src/services/scheduler.service.ts:76-115 | for a completed month, given distinct staff ids: the ledger keeps exactly the staff; every entry is within the limits; every assignment is for one of the month's shifts and names a staff nurse (or, on day shifts only, the responsible nurse); the assignments made for each day are for shifts dated that day, book no nurse twice, and name no nurse on (non-preference) leave that day |
| SchedulerEngine.RecordStore.CreateShifts | backend/src/services/scheduler.service.ts:218-227 | the rows are appended in order, the i-th new row under the id `mint` gives its position among all shift rows |
| SchedulerEngine.RecordStore.CreateAssignments | backend/src/services/scheduler.service.ts:278 | the assignment rows are appended in order |
| SchedulerEngine.RecordStore.SetFairness | backend/src/services/scheduler.service.ts:96 | the schedule's fairness score is set and nothing else changes |
| SchedulerEngine.SchedulerService.Initialize | backend/src/services/scheduler.service.ts:120-156 | fails without a responsible nurse, then with fewer than 2 staff, leaving leaves, days and ledger unchanged; otherwise keeps the leaves, the month's descriptors and the ledger `Seeded` with the staff, keeping the ledger's order invariant |
| SchedulerEngine.SchedulerService.InitializeNurseStats | backend/src/services/scheduler.service.ts:161-174 | the ledger and its order become `Seeded` of the staff, and the order invariant holds |
| SchedulerEngine.SchedulerService.PlanMonth | backend/src/services/scheduler.service.ts:182-215 | the needs are the month's plan: each day's shifts, day by day |
| SchedulerEngine.SchedulerService.CreateShifts | backend/src/services/scheduler.service.ts:179-235 | the shifts carry the planned needs in order with minted ids, and their rows are appended to the store |
| SchedulerEngine.SchedulerService.UpdateNurseStats | backend/src/services/scheduler.service.ts:560-597 | only the nurse's entry changes, to `Recorded` of the old entry |
| SchedulerEngine.SchedulerService.AssignSelected | backend/src/services/scheduler.service.ts:308-322 | one assignment per selected nurse, in order, each recorded in the ledger |
| SchedulerEngine.SchedulerService.Assign8HourShift | backend/src/services/scheduler.service.ts:289-325 | the responsible nurse unless on leave, then the two best day-eligible staff, recorded as 8 hours |
| SchedulerEngine.SchedulerService.Assign16HourShift | backend/src/services/scheduler.service.ts:331-357 | the two best night-eligible staff, recorded as 16 night hours |
| SchedulerEngine.SchedulerService.Assign24HourShift | backend/src/services/scheduler.service.ts:363-389 | the two best weekend-eligible staff, recorded as 24 night and weekend hours |
| SchedulerEngine.SchedulerService.DispatchShift | backend/src/services/scheduler.service.ts:260-273 | the new ledger and assignments are one `AssignShift` step |
| SchedulerEngine.SchedulerService.AssignDay | backend/src/services/scheduler.service.ts:258-274 | the ledger keys are kept, and the result is `AssignGroup` over the day's shifts |
| SchedulerEngine.SchedulerService.AssignAllDays | backend/src/services/scheduler.service.ts:245-275 | the ledger keys are kept, and the result is `AssignUpTo` over all days of the month |
| SchedulerEngine.SchedulerService.AssignNursesToShifts | backend/src/services/scheduler.service.ts:240-283 | the month's assignments as `AssignUpTo`, appended to the store |
| SchedulerEngine.SchedulerService.GetWarnings | backend/src/services/scheduler.service.ts:675-704 | the warnings are `Warnings` of the final ledger |
| SchedulerEngine.SchedulerService.RunPhases | backend/src/services/scheduler.service.ts:86-113 | shifts stored, assignments stored, fairness stored under the schedule, and the summary, all as functions of the seeded ledger and the month |
| SchedulerEngine.SchedulerService.GenerateSchedule | backend/src/services/scheduler.service.ts:76-115 | fails with the initialization error and an untouched store exactly when there is no responsible nurse or fewer than 2 staff; otherwise the summary, the store and the final ledger are the month's `AssignUpTo` from the seeded ledger |
| ManualAssignment.CanAssign | frontend/src/components/Board/BoardView.tsx:33-64 | allows exactly the admissible assignments (not already on the shift; responsible only on a day shift without a responsible nurse; staff only below the required staff); a nurse already on the shift is refused for that reason first; the month grid's `canAssign` (frontend/src/components/Calendar/MonthGridView.tsx:37-68) is the same check |
| ManualAssignment.HandleAssign | frontend/src/components/Board/BoardView.tsx:105-112 | the request is sent exactly for admissible assignments, for this shift and nurse; otherwise the `canAssign` reason is shown; the month grid's `handleAssign` (frontend/src/components/Calendar/MonthGridView.tsx:111-118) is the same guard |
| ManualAssignment.AllowedKeepsStaffing | frontend/src/components/Board/BoardView.tsx:33-64 | an assignment the check allows keeps a well-staffed shift well staffed: no nurse twice, at most one responsible nurse, no more staff than required |
| ManualAssignment.AssignedRefusedAgain | frontend/src/components/Calendar/MonthGridView.tsx:41-43 | once a nurse is on a shift, the check refuses that nurse on it as already assigned |
| ManualAssignment.ShiftsByType | frontend/src/components/Board/BoardView.tsx:87-103 | each type's list holds exactly the schedule's shifts of that type, in schedule order; without a schedule all three are empty |
| ManualAssignment.KindsPartition | frontend/src/components/Board/BoardView.tsx:90-100 | the three lists together hold as many shifts as the schedule |

## Left out

- **I/O and the database.**
  - The nurse, leave and schedule lookups (`NurseModel.findResponsible`, `findStaff`, `LeaveModel.findAll`) are parameters of `Initialize`.
  - The `createMany` and `update` writes are a `RecordStore` whose new row ids come from a `mint` function.
  - Database failures and the `try`/`catch` rethrow are not modelled.
- **Logging and the clock.** `console.log` is left out. `generation_time_ms` (`Date.now()`) is not part of the summary.
- **`Math.sqrt`** is a parameter `sqrt`. Lemmas that need its meaning require `IsSquareRoot(sqrt)`. Numbers are exact reals, not IEEE doubles.
- **Dates** are ideal civil dates.
  - No time zones, no daylight-saving shifts, no times of day.
  - `calculatePriorityScore`'s day difference is a difference of day numbers.
  - `isDateInRange` compares day numbers.
- **`String(year)`** is modelled for every integer year. The order lemmas on keys assume four-digit years, because for other widths string order is not date order. A `YYYY-MM` month of year `0000`–`0099` is read as 1900–1999, as the `Date` constructor does, so the scheduler's own days always have four-digit years.
- **Month strings.**
  - `Initialize` and `GenerateSchedule` require a `YYYY-MM` string, which the route validates before calling the service.
  - Malformed strings (`NaN` in JavaScript) are not modelled.
  - The upper-casing of the weekend variable covers ASCII and the two non-ASCII characters that upper-case to `I` and `S`. Full Unicode case mapping is not modelled.
- **SchedulerEngine.SchedulerService.GenerateSchedule** requires a fresh ledger (empty `nurseStats`), as the route creates a new service per request. A reused service would keep old ledger entries in the averages; that is not stated.
- **SchedulerEngine.SchedulerService.UpdateNurseStats** requires the nurse's entry to exist. The source asserts this with `!`, and every caller only passes staff nurses, who all have entries.
- **SchedulerEngine.MonthPlanSound** requires distinct staff ids, and a responsible nurse who is not also a staff nurse. Both hold for database rows with one role per nurse; the source does not check them.
- **Post-night rest on day shifts.**
  - The source's own test (`backend/src/__tests__/services/scheduler.service.test.ts`, lines 243-249, "Post-Night Rest") expects no shift on the day after a night shift, and `scheduler.service.ts` line 442 checks rest for night shifts. But `getEligibleStaffForDay` does not check the night before. The model follows the code.
  - `SchedulerRules.DayShiftIgnoresNightRest` states the consequence.
  - `SchedulerRules.NightRestUsesMonthlyCount` states that the night rule reads the month's night count rather than yesterday's shift type.
- **Priority averages.** The source recomputes the averages for every nurse it scores. Nothing changes the ledger during one selection, so the model computes them once per selection.
- **Frontend.**
  - `WithNurse` stands for the server adding the nurse. It gives the new assignment the nurse's own role; the server route is not part of this model.
  - Not modelled: the `onAssign` request, the feedback texts and their language, the calendar grid layout (`calendarDays`, `formatDay`), `handleRemove`, and the drag-and-drop handlers.
- **Refusal reasons and warnings** are enumerations (`Refusal`; `Warning` with `FewHours(name, hours)` and `ResponsibleOftenAbsent(n)`), not the Turkish message strings of the views and of `scheduler.service.ts` lines 686 and 698.
- **`isHoliday`** always answers false, as the source does. No holiday calendar exists.
