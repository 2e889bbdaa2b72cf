/**
 * The two-phase, two-month roster generator (scheduler.py,
 * create_two_month_shift_schedule) around its two solver calls.
 *
 * For each 28-day month block: a constraint solver returns a first legal
 * block (phase 1); its extraction becomes the baseline; each variable
 * (e, d, s) gets objective coefficient 1 when the baseline has shift s's id
 * on that day for that employee, else 0; a linear solver returns a second
 * block maximising that objective (phase 2); and phase 2's true variables
 * are written into the full roster under day key d + 28 * month.
 *
 * The solvers are foreign: each phase is an oracle parameter that returns a
 * status and an assignment. Rosters are maps written with last-write-wins,
 * exactly as the source's dictionaries are: a later shift index on the same
 * day overwrites an earlier one, and a later employee with the same id
 * overwrites (phase 1) or merges into (phase 2) an earlier one.
 */
module TwoMonthSchedule {
  import opened Counting
  import opened Wrappers
  import opened TwoMonthRules

  /** Day key -> shift id, for one employee. */
  type DayShifts = map<int, int>

  /** Employee id -> day key -> shift id. */
  type Roster = map<int, DayShifts>

  /** Objective coefficient of variable (e, d, s), as c[e][d][s]. */
  type Objective = seq<seq<seq<nat>>>

  const Months: nat := 2

  datatype Status = Optimal | Feasible | Infeasible | Unbounded | Abnormal | ModelInvalid | NotSolved | Unknown

  /** What a solver call returns: its status and the values of its variables. */
  datatype Solution = Solution(status: Status, x: Assignment)

  /** The two exceptions the generator raises, with the month numbered from 1. */
  datatype Failure = NoFeasibleSolution(month: nat) | NoOptimalSolution(month: nat)

  /** The first day key of a month block. */
  function Offset(month: nat): nat
  {
    BlockDays * month
  }

  /** The day of the block that a day key of that block stands for. */
  function DayOf(month: nat, k: int): nat
    requires Offset(month) <= k
  {
    k - Offset(month)
  }

  predicate InBlock(month: nat, day: int)
  {
    Offset(month) <= day < Offset(month) + BlockDays
  }

  predicate Has(r: Roster, k: int, day: int)
  {
    k in r && day in r[k]
  }

  predicate DistinctEmployeeIds(employees: seq<Employee>)
  {
    forall i: nat, j: nat :: i < j < |employees| ==> employees[i].id != employees[j].id
  }

  predicate DistinctShiftIds(shifts: seq<ShiftType>)
  {
    forall i: nat, j: nat :: i < j < |shifts| ==> shifts[i].id != shifts[j].id
  }

  // ---------------------------------------------------------------------
  // Extraction of one employee's block
  // ---------------------------------------------------------------------

  /** The last shift index below n that employee e works on day d: the one whose write survives. */
  function LastWorked(x: Assignment, e: nat, d: nat, n: nat): (r: Option<nat>)
    ensures r.Some? ==> r.value < n && x(e, d, r.value)
    ensures r.Some? ==> forall s: nat :: r.value < s < n ==> !x(e, d, s)
    ensures r.None? <==> forall s: nat :: s < n ==> !x(e, d, s)
  {
    if n == 0 then None
    else if x(e, d, n - 1) then Some(n - 1)
    else LastWorked(x, e, d, n - 1)
  }

  /**
   * What the extraction loops have written for employee e once every shift
   * of the days before d and the first n shifts of day d have been visited:
   * each worked shift overwrites the day's key with its id.
   */
  function Written(x: Assignment, e: nat, shifts: seq<ShiftType>, month: nat, d: nat, n: nat): DayShifts
    requires n <= |shifts|
    decreases d, n
  {
    if n == 0 then
      if d == 0 then map[] else Written(x, e, shifts, month, d - 1, |shifts|)
    else
      var w := Written(x, e, shifts, month, d, n - 1);
      if x(e, d, n - 1) then w[d + Offset(month) := shifts[n - 1].id] else w
  }

  /** The shifts of employee e in one block: day key -> id of the last shift worked that day. */
  function WorkDays(x: Assignment, e: nat, shifts: seq<ShiftType>, month: nat): DayShifts
  {
    Written(x, e, shifts, month, BlockDays, 0)
  }

  /**
   * Pointwise meaning of the loops' state: a day j before d holds the last
   * shift worked that day, day d the last one among the first n shifts, and
   * no other key is present.
   */
  lemma {:induction false} WrittenAt(x: Assignment, e: nat, shifts: seq<ShiftType>, month: nat, d: nat, n: nat, k: int)
    requires n <= |shifts|
    ensures k in Written(x, e, shifts, month, d, n) ==> Offset(month) <= k <= Offset(month) + d
    ensures Offset(month) <= k < Offset(month) + d ==>
      var j := DayOf(month, k);
      && (k in Written(x, e, shifts, month, d, n) <==> LastWorked(x, e, j, |shifts|).Some?)
      && (k in Written(x, e, shifts, month, d, n) ==>
            Written(x, e, shifts, month, d, n)[k] == shifts[LastWorked(x, e, j, |shifts|).value].id)
    ensures k == Offset(month) + d ==>
      && (k in Written(x, e, shifts, month, d, n) <==> LastWorked(x, e, d, n).Some?)
      && (k in Written(x, e, shifts, month, d, n) ==>
            Written(x, e, shifts, month, d, n)[k] == shifts[LastWorked(x, e, d, n).value].id)
    decreases d, n
  {
    if n == 0 {
      if d > 0 {
        WrittenAt(x, e, shifts, month, d - 1, |shifts|, k);
      }
    } else {
      WrittenAt(x, e, shifts, month, d, n - 1, k);
    }
  }

  lemma LastWorkedExists(x: Assignment, e: nat, d: nat, ns: nat)
    ensures LastWorked(x, e, d, ns).Some? <==> SlotsOn(x, e, d, ns) > 0
  {
    CountZero(ns, ShiftsWorked(x, e, d));
  }

  /**
   * Day d of the block appears in an employee's extracted shifts exactly
   * when the employee holds some shift that day, and it then carries the id
   * of the last such shift index.
   */
  lemma WorkDaysAt(x: Assignment, e: nat, shifts: seq<ShiftType>, month: nat, d: nat)
    requires d < BlockDays
    ensures (d + Offset(month) in WorkDays(x, e, shifts, month)) <==> SlotsOn(x, e, d, |shifts|) > 0
    ensures d + Offset(month) in WorkDays(x, e, shifts, month) ==>
      exists s: nat :: s < |shifts| && x(e, d, s) && (forall s': nat :: s < s' < |shifts| ==> !x(e, d, s'))
        && WorkDays(x, e, shifts, month)[d + Offset(month)] == shifts[s].id
  {
    LastWorkedExists(x, e, d, |shifts|);
    WrittenAt(x, e, shifts, month, BlockDays, 0, d + Offset(month));
    assert DayOf(month, d + Offset(month)) == d;
    var w := WorkDays(x, e, shifts, month);
    if d + Offset(month) in w {
      var s := LastWorked(x, e, d, |shifts|).value;
      assert w[d + Offset(month)] == shifts[s].id;
    }
  }

  /**
   * Month blocks are the same extraction shifted by 28 days: block m's day
   * key 28m + d holds exactly what block 0's day key d would hold.
   */
  lemma WorkDaysOffset(x: Assignment, e: nat, shifts: seq<ShiftType>, month: nat, d: int)
    ensures (d + Offset(month) in WorkDays(x, e, shifts, month)) <==> (d in WorkDays(x, e, shifts, 0))
    ensures d in WorkDays(x, e, shifts, 0) ==>
      WorkDays(x, e, shifts, month)[d + Offset(month)] == WorkDays(x, e, shifts, 0)[d]
  {
    WrittenAt(x, e, shifts, month, BlockDays, 0, d + Offset(month));
    WrittenAt(x, e, shifts, 0, BlockDays, 0, d);
    if 0 <= d < BlockDays {
      assert DayOf(month, d + Offset(month)) == d == DayOf(0, d);
    }
  }

  /** Every day key of a block's extraction lies in that block. */
  lemma WorkDaysInBlock(x: Assignment, e: nat, shifts: seq<ShiftType>, month: nat, day: int)
    requires !InBlock(month, day)
    ensures day !in WorkDays(x, e, shifts, month)
  {
    WrittenAt(x, e, shifts, month, BlockDays, 0, day);
  }

  /** An employee's block is empty exactly when the employee holds no shift in it. */
  lemma WorkDaysEmpty(x: Assignment, e: nat, shifts: seq<ShiftType>, month: nat)
    ensures WorkDays(x, e, shifts, month) == map[] <==> forall d: nat :: d < BlockDays ==> SlotsOn(x, e, d, |shifts|) == 0
  {
    var w := WorkDays(x, e, shifts, month);
    forall d: nat | d < BlockDays
      ensures (d + Offset(month) in w) <==> SlotsOn(x, e, d, |shifts|) > 0
    {
      WorkDaysAt(x, e, shifts, month, d);
    }
    WorkDaysSize(x, e, shifts, month);
    CountZero(BlockDays, Positive(DaySlotsFrom(x, e, 0, |shifts|)));
  }

  /** The loops' map has one key per fully visited day worked, plus one for day d if it is worked so far. */
  lemma {:induction false} WrittenSize(x: Assignment, e: nat, shifts: seq<ShiftType>, month: nat, d: nat, n: nat)
    requires n <= |shifts|
    ensures |Written(x, e, shifts, month, d, n)| ==
      Count(d, Positive(DaySlotsFrom(x, e, 0, |shifts|))) + Ind(LastWorked(x, e, d, n).Some?)
    decreases d, n
  {
    var ns := |shifts|;
    if n == 0 {
      if d > 0 {
        WrittenSize(x, e, shifts, month, d - 1, ns);
        LastWorkedExists(x, e, d - 1, ns);
        assert DaySlotsFrom(x, e, 0, ns)(d - 1) == SlotsOn(x, e, d - 1, ns);
      }
    } else {
      WrittenSize(x, e, shifts, month, d, n - 1);
      var key := d + Offset(month);
      WrittenAt(x, e, shifts, month, d, n - 1, key);
      if x(e, d, n - 1) {
        UpdateSize(Written(x, e, shifts, month, d, n - 1), key, shifts[n - 1].id);
      }
    }
  }

  /** Writing a key grows a day map by one entry exactly when the key is new. */
  lemma UpdateSize(w: DayShifts, key: int, id: int)
    ensures |w[key := id]| == |w| + Ind(key !in w)
  {
    if key in w {
      assert w[key := id].Keys == w.Keys;
    } else {
      assert w[key := id].Keys == w.Keys + {key};
    }
  }

  /** An employee's extracted block has one entry per day worked, not per slot held. */
  lemma WorkDaysSize(x: Assignment, e: nat, shifts: seq<ShiftType>, month: nat)
    ensures |WorkDays(x, e, shifts, month)| == WorkedDays(x, e, |shifts|)
  {
    WrittenSize(x, e, shifts, month, BlockDays, 0);
  }

  /**
   * In a legal block an employee's extracted shifts have at most 20 day
   * entries, and exactly 20 only when no day holds two of the employee's
   * shifts (the quota counts slots, and nothing limits slots per day).
   */
  lemma BlockEntries(x: Assignment, employees: seq<Employee>, shifts: seq<ShiftType>, month: nat, e: nat)
    requires Legal(x, |employees|, shifts)
    requires e < |employees|
    ensures |WorkDays(x, e, shifts, month)| <= Quota
    ensures |WorkDays(x, e, shifts, month)| == Quota <==> forall d: nat :: d < BlockDays ==> SlotsOn(x, e, d, |shifts|) <= 1
  {
    WorkDaysSize(x, e, shifts, month);
    DaysWithinQuota(x, |employees|, shifts, e);
  }

  // ---------------------------------------------------------------------
  // Phase 1: the baseline
  // ---------------------------------------------------------------------

  /** The baseline after the first n employees: each id maps to its (last) employee's block. */
  function Baseline(x: Assignment, employees: seq<Employee>, shifts: seq<ShiftType>, month: nat, n: nat): Roster
    requires n <= |employees|
  {
    if n == 0 then map[]
    else Baseline(x, employees, shifts, month, n - 1)[employees[n - 1].id := WorkDays(x, n - 1, shifts, month)]
  }

  method ExtractBaseline(x: Assignment, employees: seq<Employee>, shifts: seq<ShiftType>, month: nat) returns (initial: Roster)
    ensures initial == Baseline(x, employees, shifts, month, |employees|)
  {
    initial := map[];
    var e := 0;
    while e < |employees|
      invariant e <= |employees|
      invariant initial == Baseline(x, employees, shifts, month, e)
    {
      var empSchedule: DayShifts := map[];
      var d := 0;
      while d < BlockDays
        invariant d <= BlockDays
        invariant empSchedule == Written(x, e, shifts, month, d, 0)
      {
        var s := 0;
        while s < |shifts|
          invariant s <= |shifts|
          invariant empSchedule == Written(x, e, shifts, month, d, s)
        {
          if x(e, d, s) {
            empSchedule := empSchedule[d + Offset(month) := shifts[s].id];
          }
          s := s + 1;
        }
        d := d + 1;
      }
      initial := initial[employees[e].id := empSchedule];
      e := e + 1;
    }
  }

  /** Every employee gets a key in the baseline, working or not, and no other key appears. */
  lemma {:induction false} BaselineKeys(x: Assignment, employees: seq<Employee>, shifts: seq<ShiftType>, month: nat, n: nat, k: int)
    requires n <= |employees|
    ensures k in Baseline(x, employees, shifts, month, n) <==> exists e: nat :: e < n && employees[e].id == k
  {
    if n > 0 {
      BaselineKeys(x, employees, shifts, month, n - 1, k);
    }
  }

  /** An id maps to the block of the last employee carrying it. */
  lemma {:induction false} BaselineOf(x: Assignment, employees: seq<Employee>, shifts: seq<ShiftType>, month: nat, n: nat, e: nat)
    requires e < n <= |employees|
    requires forall e': nat :: e < e' < n ==> employees[e'].id != employees[e].id
    ensures employees[e].id in Baseline(x, employees, shifts, month, n)
    ensures Baseline(x, employees, shifts, month, n)[employees[e].id] == WorkDays(x, e, shifts, month)
  {
    if e < n - 1 {
      BaselineOf(x, employees, shifts, month, n - 1, e);
    }
  }

  // ---------------------------------------------------------------------
  // Phase 2: the objective
  // ---------------------------------------------------------------------

  /** 1 when the baseline has shift s's id for employee e on day d of the block, else 0. */
  function Coefficient(initial: Roster, employees: seq<Employee>, shifts: seq<ShiftType>, month: nat, e: nat, d: nat, s: nat): nat
    requires e < |employees| && s < |shifts|
  {
    var id := employees[e].id;
    var key := d + Offset(month);
    if id in initial && key in initial[id] && shifts[s].id == initial[id][key] then 1 else 0
  }

  /** The coefficients of employee e's variables on day d, one per shift. */
  function DayCoefficients(initial: Roster, employees: seq<Employee>, shifts: seq<ShiftType>, month: nat, e: nat, d: nat): (row: seq<nat>)
    requires e < |employees|
    ensures |row| == |shifts|
    ensures forall s: nat :: s < |shifts| ==> row[s] == Coefficient(initial, employees, shifts, month, e, d, s)
  {
    seq(|shifts|, (s: int) requires 0 <= s < |shifts| => Coefficient(initial, employees, shifts, month, e, d, s))
  }

  /** The coefficients of employee e's variables, one row per day of the block. */
  function EmployeeCoefficients(initial: Roster, employees: seq<Employee>, shifts: seq<ShiftType>, month: nat, e: nat): (rows: seq<seq<nat>>)
    requires e < |employees|
    ensures |rows| == BlockDays
    ensures forall d: nat :: d < BlockDays ==> rows[d] == DayCoefficients(initial, employees, shifts, month, e, d)
  {
    seq(BlockDays, (d: int) requires 0 <= d => DayCoefficients(initial, employees, shifts, month, e, d))
  }

  function CoefficientTable(initial: Roster, employees: seq<Employee>, shifts: seq<ShiftType>, month: nat): (table: Objective)
    ensures |table| == |employees|
    ensures forall e: nat :: e < |employees| ==> table[e] == EmployeeCoefficients(initial, employees, shifts, month, e)
  {
    seq(|employees|, (e: int) requires 0 <= e < |employees| => EmployeeCoefficients(initial, employees, shifts, month, e))
  }

  method ObjectiveCoefficients(initial: Roster, employees: seq<Employee>, shifts: seq<ShiftType>, month: nat) returns (c: Objective)
    ensures c == CoefficientTable(initial, employees, shifts, month)
    ensures |c| == |employees|
    ensures forall e: nat, d: nat, s: nat :: e < |employees| && d < BlockDays && s < |shifts| ==>
      |c[e]| == BlockDays && |c[e][d]| == |shifts| && c[e][d][s] == Coefficient(initial, employees, shifts, month, e, d, s)
  {
    ghost var table := CoefficientTable(initial, employees, shifts, month);
    c := [];
    var e := 0;
    while e < |employees|
      invariant e <= |employees|
      invariant c == table[..e]
    {
      ghost var rows := EmployeeCoefficients(initial, employees, shifts, month, e);
      var perDay: seq<seq<nat>> := [];
      var d := 0;
      while d < BlockDays
        invariant d <= BlockDays
        invariant perDay == rows[..d]
      {
        ghost var row := DayCoefficients(initial, employees, shifts, month, e, d);
        var perShift: seq<nat> := [];
        var s := 0;
        while s < |shifts|
          invariant s <= |shifts|
          invariant perShift == row[..s]
        {
          var coefficient := if employees[e].id in initial && d + Offset(month) in initial[employees[e].id]
                               && shifts[s].id == initial[employees[e].id][d + Offset(month)] then 1 else 0;
          assert row[..s + 1] == row[..s] + [coefficient];
          perShift := perShift + [coefficient];
          s := s + 1;
        }
        assert row[..s] == row;
        assert rows[d] == row;
        assert rows[..d + 1] == rows[..d] + [perShift];
        perDay := perDay + [perShift];
        d := d + 1;
      }
      assert rows[..d] == rows;
      assert table[e] == rows;
      assert table[..e + 1] == table[..e] + [perDay];
      c := c + [perDay];
      e := e + 1;
    }
    assert c == table;
  }

  /**
   * With distinct employee ids, variable (e, d, s) is rewarded exactly when
   * the baseline's last shift for e on day d has the same id as shift s.
   */
  lemma CoefficientMeaning(x1: Assignment, employees: seq<Employee>, shifts: seq<ShiftType>, month: nat, e: nat, d: nat, s: nat)
    requires DistinctEmployeeIds(employees)
    requires e < |employees| && d < BlockDays && s < |shifts|
    ensures var last := LastWorked(x1, e, d, |shifts|);
      Coefficient(Baseline(x1, employees, shifts, month, |employees|), employees, shifts, month, e, d, s) == 1
      <==> last.Some? && shifts[last.value].id == shifts[s].id
  {
    BaselineOf(x1, employees, shifts, month, |employees|, e);
    WrittenAt(x1, e, shifts, month, BlockDays, 0, d + Offset(month));
    assert DayOf(month, d + Offset(month)) == d;
  }

  function AgreeAt(c: Objective, x2: Assignment, e: nat, d: nat): nat -> bool
  {
    (s: nat) => e < |c| && d < |c[e]| && s < |c[e][d]| && c[e][d][s] == 1 && x2(e, d, s)
  }

  function DayAgreement(c: Objective, x2: Assignment, ns: nat, e: nat): nat -> nat
  {
    (d: nat) => Count(ns, AgreeAt(c, x2, e, d))
  }

  function EmployeeAgreement(c: Objective, x2: Assignment, ns: nat): nat -> nat
  {
    (e: nat) => Sum(BlockDays, DayAgreement(c, x2, ns, e))
  }

  /** The phase-2 objective value of assignment x2: the rewarded variables it sets. */
  function Agreement(c: Objective, x2: Assignment, ne: nat, ns: nat): nat
  {
    Sum(ne, EmployeeAgreement(c, x2, ns))
  }

  function WorkedDaysOf(x: Assignment, ns: nat): nat -> nat
  {
    (e: nat) => WorkedDays(x, e, ns)
  }

  lemma DayAgreementBound(x1: Assignment, x2: Assignment, employees: seq<Employee>, shifts: seq<ShiftType>, month: nat, e: nat, d: nat)
    requires DistinctEmployeeIds(employees) && DistinctShiftIds(shifts)
    requires e < |employees| && d < BlockDays
    ensures var c := CoefficientTable(Baseline(x1, employees, shifts, month, |employees|), employees, shifts, month);
      && DayAgreement(c, x2, |shifts|, e)(d) <= Ind(SlotsOn(x1, e, d, |shifts|) > 0)
      && DayAgreement(c, x1, |shifts|, e)(d) == Ind(SlotsOn(x1, e, d, |shifts|) > 0)
  {
    var c := CoefficientTable(Baseline(x1, employees, shifts, month, |employees|), employees, shifts, month);
    var ns := |shifts|;
    var last := LastWorked(x1, e, d, ns);
    LastWorkedExists(x1, e, d, ns);
    forall s: nat | s < ns
      ensures c[e][d][s] == 1 <==> last == Some(s)
    {
      CoefficientMeaning(x1, employees, shifts, month, e, d, s);
    }
    var p2 := AgreeAt(c, x2, e, d);
    var p1 := AgreeAt(c, x1, e, d);
    if last.Some? {
      CountAtMostOne(ns, p2);
      CountSingle(ns, p1, last.value);
    } else {
      CountZero(ns, p2);
      CountZero(ns, p1);
    }
  }

  /** Summed over the block, per employee: at most the baseline's score, which is the days worked. */
  lemma EmployeeAgreementBound(x1: Assignment, x2: Assignment, employees: seq<Employee>, shifts: seq<ShiftType>, month: nat, e: nat)
    requires DistinctEmployeeIds(employees) && DistinctShiftIds(shifts)
    requires e < |employees|
    ensures var c := CoefficientTable(Baseline(x1, employees, shifts, month, |employees|), employees, shifts, month);
      && EmployeeAgreement(c, x2, |shifts|)(e) <= EmployeeAgreement(c, x1, |shifts|)(e)
      && EmployeeAgreement(c, x1, |shifts|)(e) == WorkedDaysOf(x1, |shifts|)(e)
  {
    var c := CoefficientTable(Baseline(x1, employees, shifts, month, |employees|), employees, shifts, month);
    var ns := |shifts|;
    forall d: nat | d < BlockDays
      ensures DayAgreement(c, x2, ns, e)(d) <= Ind(SlotsOn(x1, e, d, ns) > 0)
      ensures DayAgreement(c, x1, ns, e)(d) == Ind(SlotsOn(x1, e, d, ns) > 0)
    {
      DayAgreementBound(x1, x2, employees, shifts, month, e, d);
    }
    AgreementFromDays(c, x1, x2, ns, e, BlockDays);
  }

  /** Day-by-day bounds on agreement add up over the first n days. */
  lemma {:induction false} AgreementFromDays(c: Objective, x1: Assignment, x2: Assignment, ns: nat, e: nat, n: nat)
    requires forall d: nat :: d < n ==> DayAgreement(c, x2, ns, e)(d) <= Ind(SlotsOn(x1, e, d, ns) > 0)
    requires forall d: nat :: d < n ==> DayAgreement(c, x1, ns, e)(d) == Ind(SlotsOn(x1, e, d, ns) > 0)
    ensures Sum(n, DayAgreement(c, x2, ns, e)) <= Sum(n, DayAgreement(c, x1, ns, e))
    ensures Sum(n, DayAgreement(c, x1, ns, e)) == Count(n, Positive(DaySlotsFrom(x1, e, 0, ns)))
  {
    var worked := IndOf(Positive(DaySlotsFrom(x1, e, 0, ns)));
    SumMono(n, DayAgreement(c, x2, ns, e), worked);
    SumCongruence(n, DayAgreement(c, x1, ns, e), worked);
    CountIsSum(n, Positive(DaySlotsFrom(x1, e, 0, ns)));
  }

  /**
   * The phase-2 objective is maximised by the baseline itself (given
   * distinct employee and shift ids): no assignment agrees with the baseline
   * on more variables than the baseline does, and the baseline's score is
   * the number of (employee, day) pairs it works.
   */
  lemma BaselineMaximisesAgreement(x1: Assignment, x2: Assignment, employees: seq<Employee>, shifts: seq<ShiftType>, month: nat)
    requires DistinctEmployeeIds(employees) && DistinctShiftIds(shifts)
    ensures var c := CoefficientTable(Baseline(x1, employees, shifts, month, |employees|), employees, shifts, month);
      && Agreement(c, x2, |employees|, |shifts|) <= Agreement(c, x1, |employees|, |shifts|)
      && Agreement(c, x1, |employees|, |shifts|) == Sum(|employees|, WorkedDaysOf(x1, |shifts|))
  {
    var c := CoefficientTable(Baseline(x1, employees, shifts, month, |employees|), employees, shifts, month);
    var ns := |shifts|;
    forall e: nat | e < |employees|
      ensures EmployeeAgreement(c, x2, ns)(e) <= EmployeeAgreement(c, x1, ns)(e)
      ensures EmployeeAgreement(c, x1, ns)(e) == WorkedDaysOf(x1, ns)(e)
    {
      EmployeeAgreementBound(x1, x2, employees, shifts, month, e);
    }
    SumMono(|employees|, EmployeeAgreement(c, x2, ns), EmployeeAgreement(c, x1, ns));
    SumCongruence(|employees|, EmployeeAgreement(c, x1, ns), WorkedDaysOf(x1, ns));
  }

  /** x2 works, on day d, the last shift x1 works that day, if x1 works that day at all. */
  predicate KeepsLastShift(x1: Assignment, x2: Assignment, e: nat, d: nat, ns: nat)
  {
    var last := LastWorked(x1, e, d, ns);
    last.Some? ==> x2(e, d, last.value)
  }

  /** x2 keeps x1's last shift on every day of the block that x1 works. */
  predicate KeepsLastShifts(x1: Assignment, x2: Assignment, e: nat, ns: nat)
  {
    forall d: nat :: d < BlockDays ==> KeepsLastShift(x1, x2, e, d, ns)
  }

  /** With distinct ids, an assignment earns 1 on (e, d) exactly when it works the baseline's last shift that day. */
  lemma DayAgreementExact(x1: Assignment, x2: Assignment, employees: seq<Employee>, shifts: seq<ShiftType>, month: nat, e: nat, d: nat)
    requires DistinctEmployeeIds(employees) && DistinctShiftIds(shifts)
    requires e < |employees| && d < BlockDays
    ensures var c := CoefficientTable(Baseline(x1, employees, shifts, month, |employees|), employees, shifts, month);
      DayAgreement(c, x2, |shifts|, e)(d) == Ind(KeptOn(x1, x2, e, d, |shifts|))
  {
    var c := CoefficientTable(Baseline(x1, employees, shifts, month, |employees|), employees, shifts, month);
    var ns := |shifts|;
    var last := LastWorked(x1, e, d, ns);
    forall s: nat | s < ns
      ensures c[e][d][s] == 1 <==> last == Some(s)
    {
      CoefficientMeaning(x1, employees, shifts, month, e, d, s);
    }
    var p2 := AgreeAt(c, x2, e, d);
    if last.Some? && x2(e, d, last.value) {
      CountSingle(ns, p2, last.value);
    } else {
      CountZero(ns, p2);
    }
  }

  /** Per employee, with distinct ids: the baseline's score is reached exactly by keeping its last shift on every worked day. */
  lemma EmployeeAgreementTie(x1: Assignment, x2: Assignment, employees: seq<Employee>, shifts: seq<ShiftType>, month: nat, e: nat)
    requires DistinctEmployeeIds(employees) && DistinctShiftIds(shifts)
    requires e < |employees|
    ensures var c := CoefficientTable(Baseline(x1, employees, shifts, month, |employees|), employees, shifts, month);
      && EmployeeAgreement(c, x2, |shifts|)(e) <= EmployeeAgreement(c, x1, |shifts|)(e)
      && (EmployeeAgreement(c, x2, |shifts|)(e) == EmployeeAgreement(c, x1, |shifts|)(e)
          <==> KeepsLastShifts(x1, x2, e, |shifts|))
  {
    var c := CoefficientTable(Baseline(x1, employees, shifts, month, |employees|), employees, shifts, month);
    forall d: nat | d < BlockDays
      ensures DayAgreement(c, x2, |shifts|, e)(d) == Ind(KeptOn(x1, x2, e, d, |shifts|))
      ensures DayAgreement(c, x1, |shifts|, e)(d) == Ind(KeptOn(x1, x1, e, d, |shifts|))
    {
      DayAgreementExact(x1, x2, employees, shifts, month, e, d);
      DayAgreementExact(x1, x1, employees, shifts, month, e, d);
    }
    TieFromDays(c, x1, x2, |shifts|, e);
  }

  /** x2 works the last shift x1 works on day d (and x1 works that day). */
  predicate KeptOn(x1: Assignment, x2: Assignment, e: nat, d: nat, ns: nat)
  {
    var last := LastWorked(x1, e, d, ns);
    last.Some? && x2(e, d, last.value)
  }

  /** Day scores that are indicators of keeping the last shift add up to a tie exactly when every day keeps it. */
  lemma TieFromDays(c: Objective, x1: Assignment, x2: Assignment, ns: nat, e: nat)
    requires forall d: nat :: d < BlockDays ==> DayAgreement(c, x2, ns, e)(d) == Ind(KeptOn(x1, x2, e, d, ns))
    requires forall d: nat :: d < BlockDays ==> DayAgreement(c, x1, ns, e)(d) == Ind(KeptOn(x1, x1, e, d, ns))
    ensures EmployeeAgreement(c, x2, ns)(e) <= EmployeeAgreement(c, x1, ns)(e)
    ensures EmployeeAgreement(c, x2, ns)(e) == EmployeeAgreement(c, x1, ns)(e)
            <==> KeepsLastShifts(x1, x2, e, ns)
  {
    var f2 := DayAgreement(c, x2, ns, e);
    var f1 := DayAgreement(c, x1, ns, e);
    forall d: nat | d < BlockDays
      ensures f2(d) <= f1(d)
      ensures f2(d) == f1(d) <==> KeepsLastShift(x1, x2, e, d, ns)
    {
      var last := LastWorked(x1, e, d, ns);
      assert f1(d) == Ind(last.Some?);
    }
    SumMono(BlockDays, f2, f1);
    SumTight(BlockDays, f2, f1);
    if KeepsLastShifts(x1, x2, e, ns) {
      assert forall d: nat :: d < BlockDays ==> f2(d) == f1(d);
    }
    if Sum(BlockDays, f2) == Sum(BlockDays, f1) {
      forall d: nat | d < BlockDays
        ensures KeepsLastShift(x1, x2, e, d, ns)
      {
        assert f2(d) == f1(d);
      }
    }
    assert EmployeeAgreement(c, x2, ns)(e) == Sum(BlockDays, f2);
    assert EmployeeAgreement(c, x1, ns)(e) == Sum(BlockDays, f1);
  }

  /**
   * With distinct ids, an assignment ties the baseline on the phase-2
   * objective exactly when it works the baseline's last shift on every
   * (employee, day) the baseline works; nothing else about it is fixed.
   */
  lemma AgreementTie(x1: Assignment, x2: Assignment, employees: seq<Employee>, shifts: seq<ShiftType>, month: nat)
    requires DistinctEmployeeIds(employees) && DistinctShiftIds(shifts)
    ensures var c := CoefficientTable(Baseline(x1, employees, shifts, month, |employees|), employees, shifts, month);
      Agreement(c, x2, |employees|, |shifts|) == Agreement(c, x1, |employees|, |shifts|)
      <==> forall e: nat, d: nat :: e < |employees| && d < BlockDays ==> KeepsLastShift(x1, x2, e, d, |shifts|)
  {
    var c := CoefficientTable(Baseline(x1, employees, shifts, month, |employees|), employees, shifts, month);
    forall e: nat | e < |employees|
      ensures EmployeeAgreement(c, x2, |shifts|)(e) <= EmployeeAgreement(c, x1, |shifts|)(e)
      ensures EmployeeAgreement(c, x2, |shifts|)(e) == EmployeeAgreement(c, x1, |shifts|)(e)
              <==> KeepsLastShifts(x1, x2, e, |shifts|)
    {
      EmployeeAgreementTie(x1, x2, employees, shifts, month, e);
    }
    TieFromEmployees(c, x1, x2, |employees|, |shifts|);
  }

  /** Employee scores bounded by the baseline's add up to a tie exactly when every employee ties. */
  lemma TieFromEmployees(c: Objective, x1: Assignment, x2: Assignment, ne: nat, ns: nat)
    requires forall e: nat :: e < ne ==> EmployeeAgreement(c, x2, ns)(e) <= EmployeeAgreement(c, x1, ns)(e)
    requires forall e: nat :: e < ne ==>
      (EmployeeAgreement(c, x2, ns)(e) == EmployeeAgreement(c, x1, ns)(e) <==> KeepsLastShifts(x1, x2, e, ns))
    ensures Agreement(c, x2, ne, ns) == Agreement(c, x1, ne, ns)
            <==> forall e: nat, d: nat :: e < ne && d < BlockDays ==> KeepsLastShift(x1, x2, e, d, ns)
  {
    var g2 := EmployeeAgreement(c, x2, ns);
    var g1 := EmployeeAgreement(c, x1, ns);
    SumTight(ne, g2, g1);
    if forall e: nat, d: nat :: e < ne && d < BlockDays ==> KeepsLastShift(x1, x2, e, d, ns) {
      forall e: nat | e < ne
        ensures g2(e) == g1(e)
      {
        assert KeepsLastShifts(x1, x2, e, ns);
      }
    }
    if Sum(ne, g2) == Sum(ne, g1) {
      forall e: nat, d: nat | e < ne && d < BlockDays
        ensures KeepsLastShift(x1, x2, e, d, ns)
      {
        assert g2(e) == g1(e);
        assert KeepsLastShifts(x1, x2, e, ns);
      }
    }
  }

  /**
   * Distinct shift ids are needed for the bound above: when two shifts share
   * an id, both are rewarded on the baseline's worked day, so an assignment
   * working both shifts that day scores twice what the baseline scores.
   */
  lemma RepeatedShiftIdOutscoresBaseline(x1: Assignment, x2: Assignment, employees: seq<Employee>, shifts: seq<ShiftType>, month: nat)
    requires |employees| == 1 && |shifts| == 2 && shifts[0].id == shifts[1].id
    requires forall e: nat, d: nat, s: nat :: x1(e, d, s) <==> e == 0 && d == 0 && s == 0
    requires forall e: nat, d: nat, s: nat :: x2(e, d, s) <==> e == 0 && d == 0 && s < 2
    ensures var c := CoefficientTable(Baseline(x1, employees, shifts, month, |employees|), employees, shifts, month);
      && DayAgreement(c, x1, 2, 0)(0) == 1
      && DayAgreement(c, x2, 2, 0)(0) == 2
      && Agreement(c, x2, 1, 2) == 2 * Agreement(c, x1, 1, 2)
      && Agreement(c, x1, 1, 2) > 0
  {
    RepeatedShiftIdRewarded(x1, employees, shifts, month);
    DoubleAgreement(CoefficientTable(Baseline(x1, employees, shifts, month, |employees|), employees, shifts, month), x1, x2);
  }

  /** With two shifts sharing an id, both of the baseline's day-0 variables are rewarded. */
  lemma RepeatedShiftIdRewarded(x1: Assignment, employees: seq<Employee>, shifts: seq<ShiftType>, month: nat)
    requires |employees| == 1 && |shifts| == 2 && shifts[0].id == shifts[1].id
    requires forall e: nat, d: nat, s: nat :: x1(e, d, s) <==> e == 0 && d == 0 && s == 0
    ensures var c := CoefficientTable(Baseline(x1, employees, shifts, month, |employees|), employees, shifts, month);
      |c| == 1 && |c[0]| == BlockDays && |c[0][0]| == 2 && c[0][0][0] == 1 && c[0][0][1] == 1
  {
    assert LastWorked(x1, 0, 0, 2) == Some(0);
    CoefficientMeaning(x1, employees, shifts, month, 0, 0, 0);
    CoefficientMeaning(x1, employees, shifts, month, 0, 0, 1);
  }

  /** Scores of the two day-0 assignments against a table rewarding both day-0 shifts of employee 0. */
  lemma DoubleAgreement(c: Objective, x1: Assignment, x2: Assignment)
    requires |c| == 1 && |c[0]| == BlockDays && |c[0][0]| == 2 && c[0][0][0] == 1 && c[0][0][1] == 1
    requires forall e: nat, d: nat, s: nat :: x1(e, d, s) <==> e == 0 && d == 0 && s == 0
    requires forall e: nat, d: nat, s: nat :: x2(e, d, s) <==> e == 0 && d == 0 && s < 2
    ensures DayAgreement(c, x1, 2, 0)(0) == 1 && DayAgreement(c, x2, 2, 0)(0) == 2
    ensures Agreement(c, x2, 1, 2) == 2 * Agreement(c, x1, 1, 2) && Agreement(c, x1, 1, 2) > 0
  {
    var f1 := DayAgreement(c, x1, 2, 0);
    var f2 := DayAgreement(c, x2, 2, 0);
    forall d: nat | d < BlockDays
      ensures f1(d) == Ind(d == 0) && f2(d) == f1(d) + f1(d)
    {
      var p1 := AgreeAt(c, x1, 0, d);
      var p2 := AgreeAt(c, x2, 0, d);
      assert Count(2, p1) == Ind(p1(0)) + Ind(p1(1));
      assert Count(2, p2) == Ind(p2(0)) + Ind(p2(1));
    }
    SumAdd(BlockDays, f1, f1, f2);
    SumAtLeastTerm(BlockDays, f1, 0);
    assert Agreement(c, x1, 1, 2) == Sum(BlockDays, f1);
    assert Agreement(c, x2, 1, 2) == Sum(BlockDays, f2);
  }

  // ---------------------------------------------------------------------
  // Phase 2: merging into the full roster
  // ---------------------------------------------------------------------

  /** Writing one employee's days into the roster: the id gets a key only if some day is written. */
  function MergeDays(full: Roster, id: int, days: DayShifts): Roster
  {
    if days == map[] then full
    else full[id := (if id in full then full[id] else map[]) + days]
  }

  /** The roster after the day maps of the first n employees have been written, in order. */
  function MergeAll(full: Roster, ids: seq<int>, blocks: seq<DayShifts>, n: nat): Roster
    requires n <= |ids| && n <= |blocks|
  {
    if n == 0 then full
    else MergeDays(MergeAll(full, ids, blocks, n - 1), ids[n - 1], blocks[n - 1])
  }

  function Ids(employees: seq<Employee>): (ids: seq<int>)
    ensures |ids| == |employees|
    ensures forall e: nat :: e < |employees| ==> ids[e] == employees[e].id
  {
    seq(|employees|, (e: int) requires 0 <= e < |employees| => employees[e].id)
  }

  /** Phase 2's extraction for each of the first ne employees. */
  function Blocks(x: Assignment, ne: nat, shifts: seq<ShiftType>, month: nat): (blocks: seq<DayShifts>)
    ensures |blocks| == ne
    ensures forall e: nat :: e < ne ==> blocks[e] == WorkDays(x, e, shifts, month)
  {
    seq(ne, (e: int) requires 0 <= e => WorkDays(x, e, shifts, month))
  }

  /** The roster after phase 2's block of one month has been written for every employee. */
  function Merged(full: Roster, x: Assignment, employees: seq<Employee>, shifts: seq<ShiftType>, month: nat): Roster
  {
    MergeAll(full, Ids(employees), Blocks(x, |employees|, shifts, month), |employees|)
  }

  lemma MergeDaysStep(full: Roster, id: int, days: DayShifts, day: int, shiftId: int)
    ensures var m := MergeDays(full, id, days);
      var created := if id in m then m else m[id := map[]];
      MergeDays(full, id, days[day := shiftId]) == created[id := created[id][day := shiftId]]
  {
    var m := MergeDays(full, id, days);
    var created := if id in m then m else m[id := map[]];
    var base := if id in full then full[id] else map[];
    assert days[day := shiftId] != map[] by {
      assert day in days[day := shiftId];
    }
    if days == map[] {
      assert days[day := shiftId] == map[day := shiftId];
      assert base + map[day := shiftId] == base[day := shiftId];
    } else {
      assert created[id] == base + days;
      assert base + days[day := shiftId] == (base + days)[day := shiftId];
    }
  }

  /** Phase 2's loops over the days and shifts of one employee, writing straight into the roster. */
  method MergeEmployee(full: Roster, id: int, x: Assignment, e: nat, shifts: seq<ShiftType>, month: nat) returns (merged: Roster)
    ensures merged == MergeDays(full, id, WorkDays(x, e, shifts, month))
  {
    merged := full;
    var d := 0;
    while d < BlockDays
      invariant d <= BlockDays
      invariant merged == MergeDays(full, id, Written(x, e, shifts, month, d, 0))
    {
      var s := 0;
      while s < |shifts|
        invariant s <= |shifts|
        invariant merged == MergeDays(full, id, Written(x, e, shifts, month, d, s))
      {
        if x(e, d, s) {
          var dayNumber := d + Offset(month);
          MergeDaysStep(full, id, Written(x, e, shifts, month, d, s), dayNumber, shifts[s].id);
          if id !in merged {
            merged := merged[id := map[]];
          }
          merged := merged[id := merged[id][dayNumber := shifts[s].id]];
        }
        s := s + 1;
      }
      d := d + 1;
    }
  }

  method MergeMonth(full: Roster, x: Assignment, employees: seq<Employee>, shifts: seq<ShiftType>, month: nat) returns (merged: Roster)
    ensures merged == Merged(full, x, employees, shifts, month)
  {
    ghost var ids := Ids(employees);
    ghost var blocks := Blocks(x, |employees|, shifts, month);
    merged := full;
    var e := 0;
    while e < |employees|
      invariant e <= |employees|
      invariant merged == MergeAll(full, ids, blocks, e)
    {
      assert ids[e] == employees[e].id && blocks[e] == WorkDays(x, e, shifts, month);
      merged := MergeEmployee(merged, employees[e].id, x, e, shifts, month);
      assert merged == MergeAll(full, ids, blocks, e + 1);
      e := e + 1;
    }
  }

  /** What one employee's merge changes: only its id's entries, and only on the days it writes. */
  lemma MergeDaysAt(full: Roster, id: int, days: DayShifts, k: int, day: int)
    ensures var m := MergeDays(full, id, days);
      && (k in m <==> k in full || (k == id && days != map[]))
      && (Has(m, k, day) <==> Has(full, k, day) || (k == id && day in days))
      && (Has(m, k, day) ==> m[k][day] == if k == id && day in days then days[day] else full[k][day])
  {
  }

  /** Merging day maps that all avoid a day leaves every entry on that day as it was. */
  lemma {:induction false} MergeAllOutside(full: Roster, ids: seq<int>, blocks: seq<DayShifts>, n: nat, k: int, day: int)
    requires n <= |ids| && n <= |blocks|
    requires forall i: nat :: i < n ==> day !in blocks[i]
    ensures var m := MergeAll(full, ids, blocks, n);
      (Has(m, k, day) <==> Has(full, k, day)) && (Has(full, k, day) ==> m[k][day] == full[k][day])
  {
    if n > 0 {
      MergeAllOutside(full, ids, blocks, n - 1, k, day);
      MergeDaysAt(MergeAll(full, ids, blocks, n - 1), ids[n - 1], blocks[n - 1], k, day);
    }
  }

  /** An id none of the first n entries carries is left untouched. */
  lemma {:induction false} MergeAllOtherId(full: Roster, ids: seq<int>, blocks: seq<DayShifts>, n: nat, k: int, day: int)
    requires n <= |ids| && n <= |blocks|
    requires forall i: nat :: i < n ==> ids[i] != k
    ensures var m := MergeAll(full, ids, blocks, n);
      && (k in m <==> k in full)
      && (Has(m, k, day) <==> Has(full, k, day))
      && (Has(full, k, day) ==> m[k][day] == full[k][day])
  {
    if n > 0 {
      MergeAllOtherId(full, ids, blocks, n - 1, k, day);
      MergeDaysAt(MergeAll(full, ids, blocks, n - 1), ids[n - 1], blocks[n - 1], k, day);
    }
  }

  /** With distinct ids, entry i's id holds entry i's days on top of what the roster held. */
  lemma {:induction false} MergeAllOwn(full: Roster, ids: seq<int>, blocks: seq<DayShifts>, n: nat, i: nat, day: int)
    requires n <= |ids| && n <= |blocks| && i < n
    requires forall j: nat :: j < n && j != i ==> ids[j] != ids[i]
    ensures var m := MergeAll(full, ids, blocks, n);
      && (Has(m, ids[i], day) <==> Has(full, ids[i], day) || day in blocks[i])
      && (day in blocks[i] ==> m[ids[i]][day] == blocks[i][day])
  {
    if n == i + 1 {
      MergeAllOtherId(full, ids, blocks, i, ids[i], day);
      MergeDaysAt(MergeAll(full, ids, blocks, i), ids[i], blocks[i], ids[i], day);
    } else {
      MergeAllOwn(full, ids, blocks, n - 1, i, day);
      MergeDaysAt(MergeAll(full, ids, blocks, n - 1), ids[n - 1], blocks[n - 1], ids[i], day);
    }
  }

  /** Who has a key after merging: the ids already there, and those whose day map is not empty. */
  lemma {:induction false} MergeAllKeys(full: Roster, ids: seq<int>, blocks: seq<DayShifts>, n: nat, k: int)
    requires n <= |ids| && n <= |blocks|
    ensures k in MergeAll(full, ids, blocks, n) <==> k in full || exists i: nat :: i < n && ids[i] == k && blocks[i] != map[]
  {
    if n > 0 {
      MergeAllKeys(full, ids, blocks, n - 1, k);
      MergeDaysAt(MergeAll(full, ids, blocks, n - 1), ids[n - 1], blocks[n - 1], k, 0);
    }
  }

  /** Merging a month leaves every entry outside that month's block exactly as it was. */
  lemma MergedOutsideBlock(full: Roster, x: Assignment, employees: seq<Employee>, shifts: seq<ShiftType>, month: nat, k: int, day: int)
    requires !InBlock(month, day)
    ensures var m := Merged(full, x, employees, shifts, month);
      (Has(m, k, day) <==> Has(full, k, day)) && (Has(full, k, day) ==> m[k][day] == full[k][day])
  {
    var blocks := Blocks(x, |employees|, shifts, month);
    forall i: nat | i < |employees|
      ensures day !in blocks[i]
    {
      WorkDaysInBlock(x, i, shifts, month, day);
    }
    MergeAllOutside(full, Ids(employees), blocks, |employees|, k, day);
  }

  /**
   * With distinct employee ids, and a roster holding nothing yet in this
   * block for employee e, the merged roster's entries for e inside the
   * block are exactly e's phase-2 extraction.
   */
  lemma MergedBlock(full: Roster, x: Assignment, employees: seq<Employee>, shifts: seq<ShiftType>, month: nat, e: nat, day: int)
    requires DistinctEmployeeIds(employees)
    requires e < |employees|
    requires !Has(full, employees[e].id, day)
    ensures var m := Merged(full, x, employees, shifts, month);
      var w := WorkDays(x, e, shifts, month);
      (Has(m, employees[e].id, day) <==> day in w) && (day in w ==> m[employees[e].id][day] == w[day])
  {
    var ids := Ids(employees);
    forall j: nat | j < |employees| && j != e
      ensures ids[j] != ids[e]
    {
      if j < e {
        assert employees[j].id != employees[e].id;
      } else {
        assert employees[e].id != employees[j].id;
      }
    }
    MergeAllOwn(full, ids, Blocks(x, |employees|, shifts, month), |employees|, e, day);
  }

  /** Who has a key after merging a month: the ids already there, and employees who work in the block. */
  lemma MergedKeys(full: Roster, x: Assignment, employees: seq<Employee>, shifts: seq<ShiftType>, month: nat, k: int)
    ensures k in Merged(full, x, employees, shifts, month) <==>
      k in full || exists e: nat :: e < |employees| && employees[e].id == k && WorkDays(x, e, shifts, month) != map[]
  {
    MergeAllKeys(full, Ids(employees), Blocks(x, |employees|, shifts, month), |employees|, k);
  }

  // ---------------------------------------------------------------------
  // The two-month driver
  // ---------------------------------------------------------------------

  /** The phase-2 objective built from the phase-1 solution of a month. */
  function MonthObjective(employees: seq<Employee>, shifts: seq<ShiftType>, csp: nat -> Solution, month: nat): Objective
  {
    CoefficientTable(Baseline(csp(month).x, employees, shifts, month, |employees|), employees, shifts, month)
  }

  function Refined(employees: seq<Employee>, shifts: seq<ShiftType>, csp: nat -> Solution, ilp: (nat, Objective) -> Solution, month: nat): Solution
  {
    ilp(month, MonthObjective(employees, shifts, csp, month))
  }

  predicate MonthSolved(employees: seq<Employee>, shifts: seq<ShiftType>, csp: nat -> Solution, ilp: (nat, Objective) -> Solution, month: nat)
  {
    csp(month).status == Optimal && Refined(employees, shifts, csp, ilp, month).status == Optimal
  }

  /** The phase-2 assignment of each month. */
  function Phase2(employees: seq<Employee>, shifts: seq<ShiftType>, csp: nat -> Solution, ilp: (nat, Objective) -> Solution): nat -> Assignment
  {
    (month: nat) => Refined(employees, shifts, csp, ilp, month).x
  }

  /** The roster once the first `months` blocks of the assignments `sols` have been merged, in month order. */
  function RosterOf(employees: seq<Employee>, shifts: seq<ShiftType>, sols: nat -> Assignment, months: nat): Roster
  {
    if months == 0 then map[]
    else Merged(RosterOf(employees, shifts, sols, months - 1), sols(months - 1), employees, shifts, months - 1)
  }

  /** The full roster once the first `months` blocks have been solved and merged. */
  function RosterAfter(employees: seq<Employee>, shifts: seq<ShiftType>, csp: nat -> Solution, ilp: (nat, Objective) -> Solution, months: nat): Roster
  {
    RosterOf(employees, shifts, Phase2(employees, shifts, csp, ilp), months)
  }

  /** The exception a failing month raises: phase 1 first, then phase 2. */
  function MonthFailure(csp: nat -> Solution, month: nat): Failure
  {
    if csp(month).status != Optimal then NoFeasibleSolution(month + 1) else NoOptimalSolution(month + 1)
  }

  /**
   * Runs both phases for months 0 and 1. Succeeds exactly when all four
   * solver calls report OPTIMAL; otherwise fails with the first failing
   * phase's exception and returns no partial roster.
   */
  method CreateTwoMonthSchedule(employees: seq<Employee>, shifts: seq<ShiftType>, csp: nat -> Solution, ilp: (nat, Objective) -> Solution)
    returns (r: Result<Roster, Failure>)
    ensures r.Ok? <==> forall m: nat :: m < Months ==> MonthSolved(employees, shifts, csp, ilp, m)
    ensures r.Ok? ==> r.value == RosterAfter(employees, shifts, csp, ilp, Months)
    ensures r.Err? ==> exists m: nat ::
      && m < Months
      && !MonthSolved(employees, shifts, csp, ilp, m)
      && (forall m': nat :: m' < m ==> MonthSolved(employees, shifts, csp, ilp, m'))
      && r.error == MonthFailure(csp, m)
  {
    var fullSchedule: Roster := map[];
    var month: nat := 0;
    while month < Months
      invariant month <= Months
      invariant forall m: nat :: m < month ==> MonthSolved(employees, shifts, csp, ilp, m)
      invariant fullSchedule == RosterAfter(employees, shifts, csp, ilp, month)
    {
      var phase1 := csp(month);
      if phase1.status != Optimal {
        assert !MonthSolved(employees, shifts, csp, ilp, month) && MonthFailure(csp, month) == NoFeasibleSolution(month + 1);
        return Err(NoFeasibleSolution(month + 1));
      }
      var initial := ExtractBaseline(phase1.x, employees, shifts, month);
      var objective := ObjectiveCoefficients(initial, employees, shifts, month);
      var phase2 := ilp(month, objective);
      assert phase2 == Refined(employees, shifts, csp, ilp, month);
      if phase2.status == Optimal {
        fullSchedule := MergeMonth(fullSchedule, phase2.x, employees, shifts, month);
      } else {
        assert !MonthSolved(employees, shifts, csp, ilp, month) && MonthFailure(csp, month) == NoOptimalSolution(month + 1);
        return Err(NoOptimalSolution(month + 1));
      }
      month := month + 1;
    }
    return Ok(fullSchedule);
  }

  // ---------------------------------------------------------------------
  // Properties of the composed roster
  // ---------------------------------------------------------------------

  /** Every day key of the roster after n blocks lies in 0 .. 28n - 1. */
  lemma {:induction false} RosterDayRange(employees: seq<Employee>, shifts: seq<ShiftType>, sols: nat -> Assignment, n: nat, k: int, day: int)
    requires Has(RosterOf(employees, shifts, sols, n), k, day)
    ensures 0 <= day < Offset(n)
  {
    if n > 0 && !InBlock(n - 1, day) {
      MergedOutsideBlock(RosterOf(employees, shifts, sols, n - 1), sols(n - 1),
                         employees, shifts, n - 1, k, day);
      RosterDayRange(employees, shifts, sols, n - 1, k, day);
    }
  }

  /**
   * Blocks never collide: with distinct employee ids, the roster's entries
   * for employee e in block m (m < n) are exactly e's extraction from
   * month m's assignment, whatever later months wrote.
   */
  lemma {:induction false} RosterBlock(employees: seq<Employee>, shifts: seq<ShiftType>, sols: nat -> Assignment, n: nat, m: nat, e: nat, day: int)
    requires DistinctEmployeeIds(employees)
    requires m < n && e < |employees|
    requires InBlock(m, day)
    ensures var r := RosterOf(employees, shifts, sols, n);
      var w := WorkDays(sols(m), e, shifts, m);
      (Has(r, employees[e].id, day) <==> day in w) && (day in w ==> r[employees[e].id][day] == w[day])
  {
    var before := RosterOf(employees, shifts, sols, n - 1);
    var x := sols(n - 1);
    if m == n - 1 {
      if Has(before, employees[e].id, day) {
        RosterDayRange(employees, shifts, sols, n - 1, employees[e].id, day);
      }
      MergedBlock(before, x, employees, shifts, m, e, day);
    } else {
      MergedOutsideBlock(before, x, employees, shifts, n - 1, employees[e].id, day);
      RosterBlock(employees, shifts, sols, n - 1, m, e, day);
    }
  }

  /** The month and employee that put a key into the roster after n blocks. */
  lemma {:induction false} KeyOrigin(employees: seq<Employee>, shifts: seq<ShiftType>, sols: nat -> Assignment, n: nat, k: int)
    returns (m: nat, e: nat)
    requires k in RosterOf(employees, shifts, sols, n)
    ensures m < n && e < |employees| && employees[e].id == k
    ensures WorkDays(sols(m), e, shifts, m) != map[]
  {
    var before := RosterOf(employees, shifts, sols, n - 1);
    var x := sols(n - 1);
    assert RosterOf(employees, shifts, sols, n) == Merged(before, x, employees, shifts, n - 1);
    MergedKeys(before, x, employees, shifts, n - 1, k);
    if k in before {
      m, e := KeyOrigin(employees, shifts, sols, n - 1, k);
    } else {
      m := n - 1;
      e :| e < |employees| && employees[e].id == k && WorkDays(x, e, shifts, m) != map[];
    }
  }

  /** An employee who works in some block m < n has a key in the roster after n blocks. */
  lemma {:induction false} KeyPresent(employees: seq<Employee>, shifts: seq<ShiftType>, sols: nat -> Assignment, n: nat, m: nat, e: nat)
    requires m < n && e < |employees|
    requires WorkDays(sols(m), e, shifts, m) != map[]
    ensures employees[e].id in RosterOf(employees, shifts, sols, n)
  {
    var before := RosterOf(employees, shifts, sols, n - 1);
    var x := sols(n - 1);
    assert RosterOf(employees, shifts, sols, n) == Merged(before, x, employees, shifts, n - 1);
    MergedKeys(before, x, employees, shifts, n - 1, employees[e].id);
    if m < n - 1 {
      KeyPresent(employees, shifts, sols, n - 1, m, e);
    } else {
      assert WorkDays(x, e, shifts, n - 1) != map[];
    }
  }

  /** An employee id is a key of the roster exactly when that employee works some day of some block. */
  lemma RosterKeys(employees: seq<Employee>, shifts: seq<ShiftType>, sols: nat -> Assignment, n: nat, k: int)
    ensures k in RosterOf(employees, shifts, sols, n) <==>
      exists m: nat, e: nat :: m < n && e < |employees| && employees[e].id == k
        && WorkDays(sols(m), e, shifts, m) != map[]
  {
    if k in RosterOf(employees, shifts, sols, n) {
      var m, e := KeyOrigin(employees, shifts, sols, n, k);
    }
    if exists m: nat, e: nat :: m < n && e < |employees| && employees[e].id == k
        && WorkDays(sols(m), e, shifts, m) != map[] {
      var m: nat, e: nat :| m < n && e < |employees| && employees[e].id == k
        && WorkDays(sols(m), e, shifts, m) != map[];
      KeyPresent(employees, shifts, sols, n, m, e);
    }
  }

}
