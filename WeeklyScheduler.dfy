/**
 * The single-phase weekly scheduler (scheduler/scheduler.py): the rules it
 * hands to CP-SAT over a horizon of days, the schedule records it builds
 * from a solved assignment, and the success flag of `assign_shifts`.
 *
 * Users and shifts come from the database in the order given; the solver
 * is a foreign call, so a solved assignment arrives as a parameter. The
 * decision variables are keyed by (user id, day, shift id), as the source's
 * dictionary keys are: two users with the same id share their variables.
 */
module WeeklyScheduler {
  import opened Counting
  import opened Wrappers

  datatype User = User(id: int)

  /** A shift row: its id and its duration in whole seconds. */
  datatype Shift = Shift(id: int, durationSeconds: int)

  /** x(userId, day, shiftId): the variable of that user, day and shift is true. */
  type Assignment = (int, nat, int) -> bool

  /** The statuses CP-SAT can report. */
  datatype Status = Optimal | Feasible | Infeasible | ModelInvalid | Unknown

  datatype Solution = Solution(status: Status, x: Assignment)

  /** One row of the schedules table; the date is a day number. */
  datatype Record = Record(date: int, userId: int, shiftId: int, hours: real)

  /** The horizon `assign_shifts` asks for. */
  const WeekLength: nat := 7
  const ShiftsPerUser: nat := 5
  const WindowDays: nat := 4
  const MaxInWindow: nat := 3

  // ---------------------------------------------------------------------
  // The rules
  // ---------------------------------------------------------------------

  /** The shift indices that user works on day d. */
  function ShiftsOf(x: Assignment, user: User, shifts: seq<Shift>, d: nat): nat -> bool
  {
    (s: nat) => s < |shifts| && x(user.id, d, shifts[s].id)
  }

  /** The user indices that work a shift on day d. */
  function TakersOf(x: Assignment, users: seq<User>, d: nat, shift: Shift): nat -> bool
  {
    (u: nat) => u < |users| && x(users[u].id, d, shift.id)
  }

  /** The number of shifts a user holds on each day, counted from day `from`. */
  function LoadFrom(x: Assignment, user: User, shifts: seq<Shift>, from: nat): nat -> nat
  {
    (i: nat) => Count(|shifts|, ShiftsOf(x, user, shifts, from + i))
  }

  /** Each shift is assigned to exactly one user per day. */
  predicate OneUserPerShift(x: Assignment, users: seq<User>, shifts: seq<Shift>, days: nat)
  {
    forall d: nat, s: nat :: d < days && s < |shifts| ==> Count(|users|, TakersOf(x, users, d, shifts[s])) == 1
  }

  /** Each user holds at most one shift per day. */
  predicate OneShiftPerDay(x: Assignment, users: seq<User>, shifts: seq<Shift>, days: nat)
  {
    forall u: nat, d: nat :: u < |users| && d < days ==> Count(|shifts|, ShiftsOf(x, users[u], shifts, d)) <= 1
  }

  /** Each user works five shifts over the horizon. */
  predicate FiveShifts(x: Assignment, users: seq<User>, shifts: seq<Shift>, days: nat)
  {
    forall u: nat :: u < |users| ==> Sum(days, LoadFrom(x, users[u], shifts, 0)) == ShiftsPerUser
  }

  /** No more than three shifts in any four consecutive days that fit in the horizon. */
  predicate NoLongRuns(x: Assignment, users: seq<User>, shifts: seq<Shift>, days: nat)
  {
    forall u: nat, d: nat :: u < |users| && d + 3 < days ==> Sum(WindowDays, LoadFrom(x, users[u], shifts, d)) <= MaxInWindow
  }

  /** The whole constraint set of `create_schedule`. */
  predicate WeeklyLegal(x: Assignment, users: seq<User>, shifts: seq<Shift>, days: nat)
  {
    && OneUserPerShift(x, users, shifts, days)
    && OneShiftPerDay(x, users, shifts, days)
    && FiveShifts(x, users, shifts, days)
    && NoLongRuns(x, users, shifts, days)
  }

  // ---------------------------------------------------------------------
  // Double counting
  // ---------------------------------------------------------------------

  /** The number of shifts user index u holds on day d (0 past the last user). */
  function UserDayGrid(x: Assignment, users: seq<User>, shifts: seq<Shift>): (nat, nat) -> nat
  {
    (u: nat, d: nat) => if u < |users| then Count(|shifts|, ShiftsOf(x, users[u], shifts, d)) else 0
  }

  /** 1 when user index u works shift index s on day d, else 0. */
  function DayGrid(x: Assignment, users: seq<User>, shifts: seq<Shift>, d: nat): (nat, nat) -> nat
  {
    (u: nat, s: nat) => Ind(u < |users| && s < |shifts| && x(users[u].id, d, shifts[s].id))
  }

  /** On one day, counting user by user and shift by shift give the same number of assignments. */
  lemma DayDoubleCount(x: Assignment, users: seq<User>, shifts: seq<Shift>, d: nat)
    ensures Sum(|users|, Col(UserDayGrid(x, users, shifts), d)) ==
      Sum(|shifts|, (s: nat) => if s < |shifts| then Count(|users|, TakersOf(x, users, d, shifts[s])) else 0)
  {
    var g := DayGrid(x, users, shifts, d);
    var rows := Col(UserDayGrid(x, users, shifts), d);
    var cols: nat -> nat := (s: nat) => if s < |shifts| then Count(|users|, TakersOf(x, users, d, shifts[s])) else 0;
    forall u: nat | u < |users|
      ensures rows(u) == Sum(|shifts|, Row(g, u))
    {
      CountIsSum(|shifts|, ShiftsOf(x, users[u], shifts, d));
      SumCongruence(|shifts|, IndOf(ShiftsOf(x, users[u], shifts, d)), Row(g, u));
    }
    forall s: nat | s < |shifts|
      ensures cols(s) == Sum(|users|, Col(g, s))
    {
      CountIsSum(|users|, TakersOf(x, users, d, shifts[s]));
      SumCongruence(|users|, IndOf(TakersOf(x, users, d, shifts[s])), Col(g, s));
    }
    SumExchange(|users|, |shifts|, g, rows, cols);
  }

  /**
   * Any assignment with exactly one user per (day, shift) and exactly five
   * shifts per user fills days * |shifts| slots with |users| * 5 shifts, so
   * these rules can only both hold when the two products agree.
   */
  lemma SlotBalance(x: Assignment, users: seq<User>, shifts: seq<Shift>, days: nat)
    requires OneUserPerShift(x, users, shifts, days)
    requires FiveShifts(x, users, shifts, days)
    ensures days * |shifts| == |users| * ShiftsPerUser
  {
    var g := UserDayGrid(x, users, shifts);
    var rows: nat -> nat := (u: nat) => if u < |users| then Sum(days, LoadFrom(x, users[u], shifts, 0)) else 0;
    var cols: nat -> nat := (d: nat) => Sum(|users|, Col(g, d));
    forall u: nat | u < |users|
      ensures rows(u) == Sum(days, Row(g, u))
    {
      SumCongruence(days, LoadFrom(x, users[u], shifts, 0), Row(g, u));
    }
    SumExchange(|users|, days, g, rows, cols);
    SumConst(|users|, rows, ShiftsPerUser);
    forall d: nat | d < days
      ensures cols(d) == |shifts|
    {
      DayDoubleCount(x, users, shifts, d);
      SumConst(|shifts|, (s: nat) => if s < |shifts| then Count(|users|, TakersOf(x, users, d, shifts[s])) else 0, 1);
    }
    SumConst(days, cols, |shifts|);
  }

  // ---------------------------------------------------------------------
  // Records built from a solution
  // ---------------------------------------------------------------------

  /** The hours a shift's duration stands for. */
  function Hours(shift: Shift): real
  {
    shift.durationSeconds as real / 3600.0
  }

  function RecordOf(user: User, d: nat, shift: Shift, start: int): Record
  {
    Record(start + d, user.id, shift.id, Hours(shift))
  }

  /** The records for the first n shifts of day d of one user, in shift order. */
  function ShiftRecords(x: Assignment, user: User, shifts: seq<Shift>, start: int, d: nat, n: nat): seq<Record>
    requires n <= |shifts|
  {
    if n == 0 then []
    else ShiftRecords(x, user, shifts, start, d, n - 1)
         + (if x(user.id, d, shifts[n - 1].id) then [RecordOf(user, d, shifts[n - 1], start)] else [])
  }

  /** The first n pieces that `part` yields, one after the other. */
  function Concat<T>(part: nat -> seq<T>, n: nat): seq<T>
  {
    if n == 0 then [] else Concat(part, n - 1) + part(n - 1)
  }

  /** One user's records for each day. */
  function DayPart(x: Assignment, user: User, shifts: seq<Shift>, start: int): nat -> seq<Record>
  {
    (day: nat) => ShiftRecords(x, user, shifts, start, day, |shifts|)
  }

  /** The records for the days before d of one user, day by day. */
  function DayRecords(x: Assignment, user: User, shifts: seq<Shift>, start: int, d: nat): seq<Record>
  {
    Concat(DayPart(x, user, shifts, start), d)
  }

  /** Each user's records over the horizon (none past the last user). */
  function UserPart(x: Assignment, users: seq<User>, shifts: seq<Shift>, start: int, days: nat): nat -> seq<Record>
  {
    (u: nat) => if u < |users| then DayRecords(x, users[u], shifts, start, days) else []
  }

  /** The records of the first n users, user by user. */
  function AllRecords(x: Assignment, users: seq<User>, shifts: seq<Shift>, start: int, days: nat, n: nat): seq<Record>
    requires n <= |users|
  {
    Concat(UserPart(x, users, shifts, start, days), n)
  }

  /** `create_schedule_from_solution`: one record per true variable, in user, day, shift order. */
  method CreateScheduleFromSolution(x: Assignment, users: seq<User>, shifts: seq<Shift>, start: int, days: nat)
    returns (schedules: seq<Record>)
    ensures schedules == AllRecords(x, users, shifts, start, days, |users|)
  {
    schedules := [];
    var u := 0;
    while u < |users|
      invariant u <= |users|
      invariant schedules == AllRecords(x, users, shifts, start, days, u)
    {
      ghost var before := schedules;
      var d := 0;
      while d < days
        invariant d <= days
        invariant schedules == before + DayRecords(x, users[u], shifts, start, d)
      {
        ghost var dayStart := schedules;
        var s := 0;
        while s < |shifts|
          invariant s <= |shifts|
          invariant schedules == dayStart + ShiftRecords(x, users[u], shifts, start, d, s)
        {
          if x(users[u].id, d, shifts[s].id) {
            var schedule := Record(start + d, users[u].id, shifts[s].id, shifts[s].durationSeconds as real / 3600.0);
            schedules := schedules + [schedule];
          }
          s := s + 1;
        }
        d := d + 1;
      }
      u := u + 1;
    }
  }

  /** A day's records number the shifts the user holds that day. */
  lemma {:induction false} ShiftRecordsCount(x: Assignment, user: User, shifts: seq<Shift>, start: int, d: nat, n: nat)
    requires n <= |shifts|
    ensures |ShiftRecords(x, user, shifts, start, d, n)| == Count(n, ShiftsOf(x, user, shifts, d))
  {
    if n > 0 {
      ShiftRecordsCount(x, user, shifts, start, d, n - 1);
    }
  }

  /** A day's records are exactly the records of that user's true variables that day. */
  lemma {:induction false} ShiftRecordsHas(x: Assignment, user: User, shifts: seq<Shift>, start: int, d: nat, n: nat, r: Record)
    requires n <= |shifts|
    ensures r in ShiftRecords(x, user, shifts, start, d, n) <==>
      exists s: nat :: s < n && x(user.id, d, shifts[s].id) && r == RecordOf(user, d, shifts[s], start)
  {
    if n > 0 {
      ShiftRecordsHas(x, user, shifts, start, d, n - 1, r);
    }
  }

  /** A user's records over the first d days number that user's shifts in those days. */
  lemma {:induction false} DayRecordsCount(x: Assignment, user: User, shifts: seq<Shift>, start: int, d: nat)
    ensures |DayRecords(x, user, shifts, start, d)| == Sum(d, LoadFrom(x, user, shifts, 0))
  {
    if d > 0 {
      DayRecordsCount(x, user, shifts, start, d - 1);
      ShiftRecordsCount(x, user, shifts, start, d - 1, |shifts|);
      assert LoadFrom(x, user, shifts, 0)(d - 1) == Count(|shifts|, ShiftsOf(x, user, shifts, d - 1));
    }
  }

  /** The piece an element of a concatenation comes from. */
  lemma {:induction false} PartOf<T>(part: nat -> seq<T>, n: nat, r: T) returns (i: nat)
    requires r in Concat(part, n)
    ensures i < n && r in part(i)
  {
    if r in Concat(part, n - 1) {
      i := PartOf(part, n - 1, r);
    } else {
      i := n - 1;
    }
  }

  /** An element of one of the first n pieces is in their concatenation. */
  lemma {:induction false} InConcat<T>(part: nat -> seq<T>, n: nat, i: nat, r: T)
    requires i < n && r in part(i)
    ensures r in Concat(part, n)
  {
    if i < n - 1 {
      InConcat(part, n - 1, i, r);
    }
  }

  /** The day and shift a record of a user's first d days comes from. */
  lemma DayOfRecord(x: Assignment, user: User, shifts: seq<Shift>, start: int, d: nat, r: Record)
    returns (day: nat, s: nat)
    requires r in DayRecords(x, user, shifts, start, d)
    ensures day < d && s < |shifts| && x(user.id, day, shifts[s].id) && r == RecordOf(user, day, shifts[s], start)
  {
    day := PartOf(DayPart(x, user, shifts, start), d, r);
    ShiftRecordsHas(x, user, shifts, start, day, |shifts|, r);
    s :| s < |shifts| && x(user.id, day, shifts[s].id) && r == RecordOf(user, day, shifts[s], start);
  }

  /** Every true variable of a user in the first d days has its record among that user's records. */
  lemma DayRecordsComplete(x: Assignment, user: User, shifts: seq<Shift>, start: int, d: nat, day: nat, s: nat)
    requires day < d && s < |shifts| && x(user.id, day, shifts[s].id)
    ensures RecordOf(user, day, shifts[s], start) in DayRecords(x, user, shifts, start, d)
  {
    ShiftRecordsHas(x, user, shifts, start, day, |shifts|, RecordOf(user, day, shifts[s], start));
    InConcat(DayPart(x, user, shifts, start), d, day, RecordOf(user, day, shifts[s], start));
  }

  /** A user's records over the first d days are exactly the records of that user's true variables. */
  lemma DayRecordsHas(x: Assignment, user: User, shifts: seq<Shift>, start: int, d: nat, r: Record)
    ensures r in DayRecords(x, user, shifts, start, d) <==>
      exists day: nat, s: nat :: day < d && s < |shifts| && x(user.id, day, shifts[s].id) && r == RecordOf(user, day, shifts[s], start)
  {
    if r in DayRecords(x, user, shifts, start, d) {
      var day, s := DayOfRecord(x, user, shifts, start, d, r);
    }
    if exists day: nat, s: nat :: day < d && s < |shifts| && x(user.id, day, shifts[s].id) && r == RecordOf(user, day, shifts[s], start) {
      var day: nat, s: nat :| day < d && s < |shifts| && x(user.id, day, shifts[s].id) && r == RecordOf(user, day, shifts[s], start);
      DayRecordsComplete(x, user, shifts, start, d, day, s);
    }
  }

  /** The number of shifts of each user over the horizon (0 past the last user). */
  function UserLoads(x: Assignment, users: seq<User>, shifts: seq<Shift>, days: nat): nat -> nat
  {
    (u: nat) => if u < |users| then Sum(days, LoadFrom(x, users[u], shifts, 0)) else 0
  }

  /** The records of the first n users number the shifts those users hold. */
  lemma {:induction false} AllRecordsCount(x: Assignment, users: seq<User>, shifts: seq<Shift>, start: int, days: nat, n: nat)
    requires n <= |users|
    ensures |AllRecords(x, users, shifts, start, days, n)| == Sum(n, UserLoads(x, users, shifts, days))
  {
    if n > 0 {
      assert AllRecords(x, users, shifts, start, days, n) ==
        AllRecords(x, users, shifts, start, days, n - 1) + DayRecords(x, users[n - 1], shifts, start, days);
      AllRecordsCount(x, users, shifts, start, days, n - 1);
      DayRecordsCount(x, users[n - 1], shifts, start, days);
      assert UserLoads(x, users, shifts, days)(n - 1) == Sum(days, LoadFrom(x, users[n - 1], shifts, 0));
    }
  }

  /** The user whose records hold a given record of the first n users. */
  lemma UserOfRecord(x: Assignment, users: seq<User>, shifts: seq<Shift>, start: int, days: nat, n: nat, r: Record)
    returns (u: nat)
    requires n <= |users|
    requires r in AllRecords(x, users, shifts, start, days, n)
    ensures u < n && r in DayRecords(x, users[u], shifts, start, days)
  {
    u := PartOf(UserPart(x, users, shifts, start, days), n, r);
  }

  /** Every true variable of the first n users inside the horizon has its record in the list. */
  lemma AllRecordsComplete(x: Assignment, users: seq<User>, shifts: seq<Shift>, start: int, days: nat, n: nat, u: nat, day: nat, s: nat)
    requires u < n <= |users| && day < days && s < |shifts| && x(users[u].id, day, shifts[s].id)
    ensures RecordOf(users[u], day, shifts[s], start) in AllRecords(x, users, shifts, start, days, n)
  {
    DayRecordsComplete(x, users[u], shifts, start, days, day, s);
    InConcat(UserPart(x, users, shifts, start, days), n, u, RecordOf(users[u], day, shifts[s], start));
  }

  /** The records of the first n users are exactly one per true variable of those users inside the horizon. */
  lemma AllRecordsHas(x: Assignment, users: seq<User>, shifts: seq<Shift>, start: int, days: nat, n: nat, r: Record)
    requires n <= |users|
    ensures r in AllRecords(x, users, shifts, start, days, n) <==>
      exists u: nat, day: nat, s: nat :: u < n && day < days && s < |shifts| && x(users[u].id, day, shifts[s].id)
        && r == RecordOf(users[u], day, shifts[s], start)
  {
    if r in AllRecords(x, users, shifts, start, days, n) {
      var u := UserOfRecord(x, users, shifts, start, days, n, r);
      var day, s := DayOfRecord(x, users[u], shifts, start, days, r);
    }
    if exists u: nat, day: nat, s: nat :: u < n && day < days && s < |shifts| && x(users[u].id, day, shifts[s].id)
        && r == RecordOf(users[u], day, shifts[s], start) {
      var u: nat, day: nat, s: nat :| u < n && day < days && s < |shifts| && x(users[u].id, day, shifts[s].id)
        && r == RecordOf(users[u], day, shifts[s], start);
      AllRecordsComplete(x, users, shifts, start, days, n, u, day, s);
    }
  }

  /**
   * From a legal solution the records number five per user, which is also
   * one per (day, shift) of the horizon.
   */
  lemma LegalRecordCount(x: Assignment, users: seq<User>, shifts: seq<Shift>, start: int, days: nat)
    requires WeeklyLegal(x, users, shifts, days)
    ensures |AllRecords(x, users, shifts, start, days, |users|)| == |users| * ShiftsPerUser
    ensures |AllRecords(x, users, shifts, start, days, |users|)| == days * |shifts|
  {
    AllRecordsCount(x, users, shifts, start, days, |users|);
    SumConst(|users|, UserLoads(x, users, shifts, days), ShiftsPerUser);
    SlotBalance(x, users, shifts, days);
  }

  /** Every record's date lies in the horizon that starts at the start date. */
  lemma RecordFields(x: Assignment, users: seq<User>, shifts: seq<Shift>, start: int, days: nat, r: Record)
    requires r in AllRecords(x, users, shifts, start, days, |users|)
    ensures start <= r.date < start + days
    ensures exists u: nat, s: nat ::
      && u < |users| && s < |shifts| && r.userId == users[u].id && r.shiftId == shifts[s].id
      && r.hours == Hours(shifts[s]) && x(r.userId, r.date - start, r.shiftId)
  {
    AllRecordsHas(x, users, shifts, start, days, |users|, r);
    var u: nat, day: nat, s: nat :| u < |users| && day < days && s < |shifts| && x(users[u].id, day, shifts[s].id)
      && r == RecordOf(users[u], day, shifts[s], start);
    assert r.date - start == day;
  }

  // ---------------------------------------------------------------------
  // Solving and storing
  // ---------------------------------------------------------------------

  predicate Solved(status: Status)
  {
    status == Optimal || status == Feasible
  }

  /**
   * `create_schedule`: the records of the solver's assignment when it
   * reports OPTIMAL or FEASIBLE, and nothing otherwise.
   */
  method CreateSchedule(users: seq<User>, shifts: seq<Shift>, start: int, days: nat, solution: Solution)
    returns (r: Option<seq<Record>>)
    ensures r.Some? <==> Solved(solution.status)
    ensures r.Some? ==> r.value == AllRecords(solution.x, users, shifts, start, days, |users|)
  {
    if solution.status == Optimal || solution.status == Feasible {
      var schedules := CreateScheduleFromSolution(solution.x, users, shifts, start, days);
      return Some(schedules);
    } else {
      return None;
    }
  }

  /**
   * `assign_shifts`: schedules a week from the start date and reports
   * whether there was anything to store; an empty list counts as failure.
   */
  method AssignShifts(users: seq<User>, shifts: seq<Shift>, start: int, solution: Solution) returns (ok: bool)
    ensures ok <==> Solved(solution.status) && |AllRecords(solution.x, users, shifts, start, WeekLength, |users|)| > 0
  {
    var schedules := CreateSchedule(users, shifts, start, WeekLength, solution);
    if schedules.Some? && |schedules.value| > 0 {
      return true;
    }
    return false;
  }

  /**
   * A week is stored whenever the solver reports a legal assignment for at
   * least one user; it then holds 5 records per user.
   */
  lemma LegalWeekIsStored(users: seq<User>, shifts: seq<Shift>, start: int, solution: Solution)
    requires Solved(solution.status) && WeeklyLegal(solution.x, users, shifts, WeekLength)
    requires |users| > 0
    ensures |AllRecords(solution.x, users, shifts, start, WeekLength, |users|)| == |users| * ShiftsPerUser > 0
  {
    LegalRecordCount(solution.x, users, shifts, start, WeekLength);
  }
}
