# Schedule generator: verified model of the rostering core

This project models, in Dafny, the rule layer of a shift-rostering
application that builds staff rosters with OR-Tools:

- **The two-month roster generator** (`scheduler.py`,
  `create_two_month_shift_schedule`). Each 28-day month block is solved
  twice under the same hard rules. Phase 1 uses CP-SAT and finds any legal
  block; its solution is extracted into a baseline roster. Phase 2 uses
  GLOP and maximises agreement with that baseline. Phase 2's solution is
  then written into the full roster under day key `d + 28 * month`.
  - `TwoMonthRules.dfy` states the rule families as predicates over a
    solved block: the quota of 20, the 4-day window, coverage, night and
    evening continuation, and the 5-per-week cap. It also models the
    night and evening marker lookup and proves what the rules imply.
  - `TwoMonthSchedule.dfy` models the extraction loops, the baseline, the
    objective coefficients, the merge into the full roster and the
    two-month driver with its two exceptions.
- **The weekly scheduler** (`scheduler/scheduler.py`): `create_schedule`'s
  constraint set, the schedule records built by
  `create_schedule_from_solution`, and the flag returned by
  `assign_shifts` (`WeeklyScheduler.dfy`).
- **The request builder** (`schedule.py`,
  `create_shift_scheduling_request`): four shift templates per day,
  end times past midnight, shift ids, coverage entries and the fixed
  constraint constants (`ShiftRequest.dfy`).

`Counting.dfy` holds finite sums and counts with their lemmas, including
double counting of a two-index table. `Wrappers.dfy` holds `Option` and
`Result`.

The solvers are foreign calls. A solved block is therefore an input: a
boolean function `x(e, d, s)` over employee index, day and shift index in
`scheduler.py`. In `scheduler/scheduler.py` it is keyed by
`(userID, day, shiftID)`, as that file's variable dictionary is. Each
solver call is an oracle parameter that returns a status and an
assignment. The methods do not assume that the solver honours the rules.
The lemmas that need legality take it as a hypothesis, so nothing here
claims that a solver finds a legal or optimal answer.

Rosters are maps written with last-write-wins, as the source's
dictionaries are:
- a later shift index on the same day overwrites an earlier one;
- in phase 1 a later employee with the same id replaces the earlier
  one's whole block;
- in phase 2 a later employee with the same id merges day by day.

Lemmas about "employee e's entries" take distinct employee ids as a
hypothesis, and the bounds on the phase-2 objective also take distinct
shift ids. These are not preconditions of the operations, because the
source does not check ids.

The model follows the code, also where it differs from what the code's
own comments say (scheduler.py:25, 29 and 55 speak of days) or from what
a reader would expect:
- Every count in `scheduler.py` counts shift **slots**, not days. This
  holds for the quota of 20, the 4-day window and the 5-per-week cap.
  The file has no rule limiting an employee to one shift per day, so an
  employee may hold two shifts on one day. `DaysWithinQuota` and
  `BlockEntries` prove that an employee then works fewer than 20 distinct
  days. `NoFourDayRun` proves that the window rule still forbids four
  consecutive worked days.
- The extractor does not pick "the" shift of a day. It keeps the last
  true shift index of that day.
- The phase-2 objective rewards a variable when its shift's id equals
  the id the baseline holds for that employee and day. That id is the
  id of the last shift index worked that day (`CoefficientMeaning`). A
  shift the baseline works but a later shift index overwrote that day
  earns nothing, unless the two share an id.
- With distinct employee and shift ids, the baseline is one maximiser of
  the objective (`BaselineMaximisesAgreement`). It is not the only one:
  an assignment scores the same exactly when it works the baseline's
  last shift on every (employee, day) the baseline works
  (`AgreementTie`). Nothing else about the assignment is fixed, so the
  objective alone does not pin phase 2 to the baseline.
- When two shifts share an id, both are rewarded on a day whose baseline
  id is theirs. The objective then no longer caps an assignment at the
  baseline's score. `RepeatedShiftIdOutscoresBaseline` shows an
  assignment with one employee and two shifts that scores twice the
  baseline. That assignment does not meet the hard rules, and no
  one-employee block does (`SingleEmployeeInfeasible`). So the lemma does
  not show that phase 2 itself returns a block scoring above the
  baseline.
- In phase 1 every status other than OPTIMAL raises, FEASIBLE included.
- The baseline gives every employee a key, idle ones included. The final
  roster gives an id a key only when some true variable is written for
  it.
- No input is validated: empty employee or shift lists and short
  horizons raise no error. The only failures are the two solver
  exceptions.
- The horizon is always two months. The `start_date` parameter is never
  used.

The contracts below are stated in terms of these definitions. Each one
models the source lines given.
- `TwoMonthRules.Legal` (scheduler.py:25-59) is the hard-rule set. Both
  phases use it, because the linear model repeats the same rules at
  scheduler.py:88-116. It has five families:
  - `TotalLoad`: exactly 20 slots per employee (lines 26-27).
  - `MaxConsecutive`: at most 3 slots in every 4-day window (lines 30-32).
  - `Coverage`: at least one worker per slot (lines 35-37).
  - `MarkerRule` over `Continuation`: the night and evening continuation
    rules, each applied only when that shift exists (lines 40-53).
  - `WeeklyRest`: at most 5 slots in each of the four fixed weeks
    (lines 56-59).
- `WeeklyScheduler.WeeklyLegal` (scheduler/scheduler.py:20-41) is
  `create_schedule`'s rule set. It has four rules:
  - `OneUserPerShift`: exactly one user per shift and day (lines 21-24).
  - `OneShiftPerDay`: at most one shift per user and day (lines 26-28).
  - `FiveShifts`: exactly five slots per user over the horizon
    (lines 31-34).
  - `NoLongRuns`: at most 3 slots in every 4-day window (lines 37-41).
- `TwoMonthSchedule.WorkDays` (scheduler.py:71-75) is one employee's
  extraction of a block: each worked day key maps to the id of the last
  shift index worked that day. Phase 2 merges the same extraction of its
  own solution (scheduler.py:135-142).
- `TwoMonthSchedule.Baseline` (scheduler.py:69-76) folds the employees
  into the baseline map. A later employee with the same id replaces an
  earlier one's block.
- `TwoMonthSchedule.Coefficient` (scheduler.py:123-128) is the objective
  coefficient of one variable.
- `TwoMonthSchedule.MergeDays` (scheduler.py:140-142) writes one
  employee's days into the roster. It creates the id's map only when
  something is written.
- `TwoMonthSchedule.RosterOf` (scheduler.py:14-142) is the roster after
  the given number of months have been merged in month order.
- `WeeklyScheduler.AllRecords` (scheduler/scheduler.py:52-66) lists the
  records of the true variables, by user, then day, then shift.
- `ShiftRequest.ShiftAt` (schedule.py:17-23) gives shift i in closed form:
  template i mod 4 on day i / 4, with its id and its start and end times.

## Model

| member | source | states |
|---|---|---|
| TwoMonthRules.FirstStartingAt | scheduler.py:40-41 | The result is the first index at or after `from` whose start time equals the given time; it is None exactly when no shift from there on starts at that time |
| TwoMonthRules.NightShift | scheduler.py:40 | The night marker is the first shift starting at 22:00, and None exactly when no shift starts at 22:00 |
| TwoMonthRules.EveningShift | scheduler.py:41 | The evening marker is the first shift starting at 14:00, and None exactly when no shift starts at 14:00 |
| TwoMonthRules.ContinuationMeaning | scheduler.py:43-53 | The constraint `x(e,d,m) + Σ_{s≠m} x(e,d+1,s) ≤ 1` holds iff (working m on day d leaves day d+1 with no other shift) and (day d+1 holds at most one shift other than m) |
| TwoMonthRules.DayDoubleCount | scheduler.py:26-37 | On one day, the slots summed over employees equal the staffing summed over shifts |
| TwoMonthRules.HeadcountNeeded | scheduler.py:26-37 | Quota and coverage together force 28 · \|shifts\| ≤ 20 · \|employees\| |
| TwoMonthRules.BlockSupply | scheduler.py:26-27 | When every employee works exactly the quota of slots, the per-day loads over the block add up to \|employees\| · 20 |
| TwoMonthRules.BlockDemand | scheduler.py:34-37 | When every slot has at least one worker, the per-day loads over the block add up to at least 28 · \|shifts\| |
| TwoMonthRules.SingleEmployeeInfeasible | scheduler.py:25-59 | With one employee no block satisfies the rules, whatever the shifts (with no shifts the quota of 20 already fails) |
| TwoMonthRules.DaysWithinQuota | scheduler.py:25-27 | In a legal block an employee works at most 20 distinct days, and exactly 20 iff no day holds two of their shifts |
| TwoMonthRules.WeeksFull | scheduler.py:25-27 | With the quota of 20 and the weekly cap of 5 (lines 55-59), each of the four fixed weeks holds exactly 5 slots |
| TwoMonthRules.NoFourDayRun | scheduler.py:29-32 | Under the window rule, every 4-day window starting at day 0..24 contains a day on which the employee holds no slot |
| TwoMonthSchedule.LastWorked | scheduler.py:72-75 | The surviving write for a day: the last shift index below n that the employee works, None exactly when none is worked |
| TwoMonthSchedule.WrittenAt | scheduler.py:70-75 | The extraction loops' map after day d, shift n: completed days hold the last shift worked, day d the last among the first n shifts, and no other key exists |
| TwoMonthSchedule.WorkDaysAt | scheduler.py:72-75 | Day key d + 28·month is present iff the employee holds a slot on day d, and then holds the id of the last shift index worked that day |
| TwoMonthSchedule.WorkDaysOffset | scheduler.py:75 | Block m's extraction is block 0's shifted by 28·m day keys |
| TwoMonthSchedule.WorkDaysInBlock | scheduler.py:75 | No day key outside [28·month, 28·month + 27] is written |
| TwoMonthSchedule.WorkDaysEmpty | scheduler.py:72-75 | An employee's extracted block is empty iff they hold no slot in the block |
| TwoMonthSchedule.WrittenSize | scheduler.py:72-75 | The loops' map has one key per day worked so far (days, not slots) |
| TwoMonthSchedule.WorkDaysSize | scheduler.py:69-76 | An extracted block has exactly as many entries as days worked |
| TwoMonthSchedule.BlockEntries | scheduler.py:69-76 | In a legal block an employee's extracted block has at most 20 entries, and exactly 20 iff no day holds two of their shifts |
| TwoMonthSchedule.ExtractBaseline | scheduler.py:69-76 | The triple loop builds exactly the baseline fold: each employee id mapped to its extracted block, later ids overwriting earlier ones |
| TwoMonthSchedule.BaselineKeys | scheduler.py:76 | The baseline's keys are exactly the employee ids, idle employees included |
| TwoMonthSchedule.BaselineOf | scheduler.py:76 | An id maps to the block of the last employee carrying it |
| TwoMonthSchedule.ObjectiveCoefficients | scheduler.py:119-128 | The loops build the coefficient table: one entry per (employee, day, shift), 1 exactly when the baseline holds that shift's id for that employee and day key, else 0 |
| TwoMonthSchedule.CoefficientMeaning | scheduler.py:123-128 | With distinct employee ids, a coefficient is 1 iff the phase-1 solution's last shift worked that day has the same id as the variable's shift |
| TwoMonthSchedule.DayAgreementBound | scheduler.py:119-129 | With distinct employee and shift ids: on one (employee, day), any assignment earns at most 1 from the objective, and the phase-1 solution earns 1 exactly when it works that day |
| TwoMonthSchedule.EmployeeAgreementBound | scheduler.py:119-129 | With distinct employee and shift ids: per employee, no assignment scores more than the phase-1 solution, whose score is the days it works |
| TwoMonthSchedule.BaselineMaximisesAgreement | scheduler.py:118-131 | With distinct employee and shift ids, no assignment scores above the phase-1 solution, which scores the number of (employee, day) pairs it works |
| TwoMonthSchedule.DayAgreementExact | scheduler.py:119-129 | With distinct employee and shift ids, an assignment earns 1 on one (employee, day) exactly when the baseline works that day and the assignment works the baseline's last shift that day, else 0 |
| TwoMonthSchedule.EmployeeAgreementTie | scheduler.py:119-129 | With distinct employee and shift ids, an employee's score is at most the baseline's, and equal exactly when the assignment keeps the baseline's last shift on every day the baseline works |
| TwoMonthSchedule.AgreementTie | scheduler.py:118-131 | With distinct employee and shift ids, an assignment ties the baseline's objective exactly when it keeps the baseline's last shift on every (employee, day) the baseline works; it may differ anywhere else |
| TwoMonthSchedule.RepeatedShiftIdOutscoresBaseline | scheduler.py:119-129 | With one employee and two shifts sharing an id, the assignment working both shifts on the baseline's only worked day scores 2 on that day against the baseline's 1, and twice the baseline's objective overall |
| TwoMonthSchedule.RepeatedShiftIdRewarded | scheduler.py:123-128 | With two shifts sharing an id, both variables of the baseline's worked day get coefficient 1 |
| TwoMonthSchedule.MergeDaysStep | scheduler.py:140-142 | Writing one more (day, shift id) into the roster, creating the id's map when missing, equals merging the extended day map |
| TwoMonthSchedule.MergeEmployee | scheduler.py:135-142 | One employee's day and shift loops merge exactly their extracted block into the roster |
| TwoMonthSchedule.MergeMonth | scheduler.py:133-142 | The phase-2 loops produce the roster with every employee's block merged in employee order |
| TwoMonthSchedule.MergeDaysAt | scheduler.py:140-142 | Merging a day map adds the id as a key only if the map is nonempty, and changes only that id's entries on the days it writes |
| TwoMonthSchedule.MergeAllOutside | scheduler.py:134-142 | Merging day maps that avoid a day leaves every entry on that day unchanged |
| TwoMonthSchedule.MergeAllOtherId | scheduler.py:134-142 | An id that no merged employee carries is left unchanged |
| TwoMonthSchedule.MergeAllOwn | scheduler.py:134-142 | With distinct ids, an employee's id holds its own days on top of the earlier roster |
| TwoMonthSchedule.MergeAllKeys | scheduler.py:140-141 | After merging, the keys are the old keys plus the ids of employees with a nonempty block |
| TwoMonthSchedule.MergedOutsideBlock | scheduler.py:139-142 | Merging month m leaves every entry outside days 28m..28m+27 as it was |
| TwoMonthSchedule.MergedBlock | scheduler.py:134-142 | With distinct ids, on a day the roster held nothing for the employee's id, the merged roster holds an entry for that id iff the employee's phase-2 extraction has the day, and then the same shift id |
| TwoMonthSchedule.MergedKeys | scheduler.py:140-141 | A month's merge adds a key exactly for employees holding some slot in that block |
| TwoMonthSchedule.CreateTwoMonthSchedule | scheduler.py:14-146 | Succeeds iff both phases report OPTIMAL in both months, returning the roster of both merged months; otherwise fails with the first failing phase's exception (month numbered from 1) and returns no roster |
| TwoMonthSchedule.RosterDayRange | scheduler.py:139 | For any per-month assignments, every day key of the roster merged over n months lies in 0..28n-1 (the driver's roster is this roster over the phase-2 assignments) |
| TwoMonthSchedule.RosterBlock | scheduler.py:134-142 | Months never collide: for any per-month assignments and distinct ids, an employee's entries in month m's days are exactly what month m's assignment gives it, whatever later months write |
| TwoMonthSchedule.RosterKeys | scheduler.py:134-142 | An id is a roster key iff some employee carrying it holds a slot in some merged month |
| TwoMonthSchedule.KeyOrigin | scheduler.py:134-142 | Every roster key comes from an employee carrying that id who holds a slot in some merged month, and the lemma names that month and employee |
| TwoMonthSchedule.KeyPresent | scheduler.py:134-142 | An employee holding a slot in a merged month makes its id a roster key |
| WeeklyScheduler.DayDoubleCount | scheduler/scheduler.py:21-28 | On one day, shifts counted user by user equal assignments counted shift by shift |
| WeeklyScheduler.SlotBalance | scheduler/scheduler.py:21-34 | "Exactly one user per (day, shift)" and "exactly five shifts per user" together force days · \|shifts\| = \|users\| · 5 |
| WeeklyScheduler.CreateScheduleFromSolution | scheduler/scheduler.py:52-66 | The loops produce exactly the user-by-day-by-shift concatenation of the records of the true variables |
| WeeklyScheduler.ShiftRecordsCount | scheduler/scheduler.py:56-65 | One day's records number the shifts the user holds that day |
| WeeklyScheduler.ShiftRecordsHas | scheduler/scheduler.py:56-65 | A day's records are exactly the records of the user's true variables that day |
| WeeklyScheduler.DayRecordsCount | scheduler/scheduler.py:55-65 | A user's records number the shifts they hold over the horizon |
| WeeklyScheduler.DayRecordsHas | scheduler/scheduler.py:55-65 | A user's records are exactly one per true variable of that user, dated start + day |
| WeeklyScheduler.AllRecordsCount | scheduler/scheduler.py:52-66 | The record list's length is the total number of true variables of all users |
| WeeklyScheduler.AllRecordsHas | scheduler/scheduler.py:52-66 | A record is listed iff it is the record of some true variable (user, day < days, shift) |
| WeeklyScheduler.LegalRecordCount | scheduler/scheduler.py:20-41 | From an assignment meeting the rules, there are 5 records per user, which equals days · \|shifts\| |
| WeeklyScheduler.RecordFields | scheduler/scheduler.py:57-64 | Every record's date lies in [start, start + days), and its user, shift and hours come from one true variable |
| WeeklyScheduler.CreateSchedule | scheduler/scheduler.py:44-50 | Returns records iff the status is OPTIMAL or FEASIBLE, and then exactly the records of the solution |
| WeeklyScheduler.AssignShifts | scheduler/scheduler.py:68-75 | Returns true iff the 7-day schedule has a solved status and at least one record |
| WeeklyScheduler.LegalWeekIsStored | scheduler/scheduler.py:68-75 | A solved legal week with at least one user yields 5 records per user, so `assign_shifts` reports success |
| ShiftRequest.TwoDigits | schedule.py:23 | An hour below 100 is written as exactly two decimal digits |
| ShiftRequest.TwoDigitsValue | schedule.py:23 | Reading the two digits back gives the hour |
| ShiftRequest.ShiftIdInjective | schedule.py:23 | A shift id determines its weekday, start hour and end hour |
| ShiftRequest.CreateShiftSchedulingRequest | schedule.py:4-82 | Builds 4 · max(num_days, 0) shifts, entry i being template i mod 4 on day i / 4; one coverage entry per shift with its times and one "Employee"; the employees in input order with role "Employee"; and the fixed constants (30 s, 3, 2, 5, 5, 16) |
| ShiftRequest.AddDay | schedule.py:17-57 | One pass of the template loop appends day d's four shifts, each equal to the closed-form shift at its index, and one coverage entry per shift with its times |
| ShiftRequest.ShiftAtDay | schedule.py:10-23 | Shift 4d + t is template t of (6,14), (8,16), (14,22), (22,6) on day d: its id built from day d's weekday and the two hours, its start at day d, and its end on day d + 1 exactly for the overnight template |
| ShiftRequest.Overnight | schedule.py:20-21 | A shift ends on the next day iff it is the fourth template (22-06), and otherwise on its own day |
| ShiftRequest.EightHours | schedule.py:10-21 | Every shift lasts eight hours |
| ShiftRequest.IdsRepeatWeekly | schedule.py:23 | Shift i and shift i + 28, one week later, share an id, so ids repeat once num_days > 7 |
| ShiftRequest.IdsDistinctWithinWeek | schedule.py:23 | Any two shifts less than seven days apart have different ids |

## Left out

- The OR-Tools solvers (CP-SAT `Solve` and GLOP). They are foreign
  calls, so each is an oracle parameter returning a status and an
  assignment. The model does not claim that the rules can be met or that
  an optimum is found.
- The construction of the solver models is not modelled as objects. The
  variables and `Add`/`SetCoefficient` calls are stated as the `Legal`
  and `WeeklyLegal` predicates and the coefficient table. Both phases of
  `scheduler.py` add the same rules, so one predicate serves both.
- GLOP solves a linear relaxation, and phase 2 reads values through
  `solution_value() > 0.5`. The model treats every value as a boolean.
  Fractional optima are not modelled.
- Shift start times are compared as hour and minute only, as
  `strftime('%H:%M')` does. Seconds and time zones are not modelled.
- In `schedule.py`, calendar dates become day offsets from the start
  date plus an hour. The weekday is counted from the start date's weekday
  (0 = Monday). Year and month rollover and `strftime('%A')` locale
  behaviour are not modelled.
- The module-level usage of `schedule.py` is left out: the JSON dump, the
  file write and the print.
- The database is left out. Users and shifts are parameters instead of
  `User.query.all()` and `Shift.query.all()`. The records committed by
  `assign_shifts` through `db.session` are not modelled; only its
  boolean result is.
- `scheduleHours` is the exact rational `seconds / 3600`, not a float.
  Durations are whole seconds, so sub-second parts of an interval are
  dropped.
- WeeklyScheduler.CreateSchedule: the horizon `days` is a natural number.
  A negative `days`, which the source would treat as an empty horizon,
  is not modelled.
- The unused `emp_schedule = {}` in phase 2 of `scheduler.py` has no
  effect and is omitted.
