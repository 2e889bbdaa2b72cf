/**
 * The hard rules of the two-month roster generator (scheduler.py): the
 * constraint families that both solving phases add for every 28-day block,
 * stated as predicates over a solved block, and the lookup of the night and
 * evening marker shifts.
 *
 * A solved block is a boolean function x(e, d, s) over employee index e,
 * day d of the block (0..27) and shift index s. Every family is a count of
 * true variables, and every count here is over shift slots: the source has
 * no rule that limits an employee to one shift per day.
 */
module TwoMonthRules {
  import opened Counting
  import opened Wrappers

  /** x(e, d, s): employee index e works shift index s on day d of the block. */
  type Assignment = (nat, nat, nat) -> bool

  /** A start time of day, compared as "HH:MM". */
  datatype ClockTime = ClockTime(hour: nat, minute: nat)

  datatype ShiftType = ShiftType(id: int, start: ClockTime)

  datatype Employee = Employee(id: int)

  const BlockDays: nat := 28
  const Quota: nat := 20
  const WindowDays: nat := 4
  const MaxInWindow: nat := 3
  const Weeks: nat := 4
  const WeekDays: nat := 7
  const MaxPerWeek: nat := 5
  const NightStart: ClockTime := ClockTime(22, 0)
  const EveningStart: ClockTime := ClockTime(14, 0)

  // ---------------------------------------------------------------------
  // Counts of decision variables
  // ---------------------------------------------------------------------

  function ShiftsWorked(x: Assignment, e: nat, d: nat): nat -> bool
  {
    (s: nat) => x(e, d, s)
  }

  /** Shift slots employee e holds on day d, over shift indices below ns. */
  function SlotsOn(x: Assignment, e: nat, d: nat, ns: nat): nat
  {
    Count(ns, ShiftsWorked(x, e, d))
  }

  function DaySlotsFrom(x: Assignment, e: nat, from: nat, ns: nat): nat -> nat
  {
    (i: nat) => SlotsOn(x, e, from + i, ns)
  }

  /** Shift slots employee e holds on the len days starting at day `from`. */
  function Slots(x: Assignment, e: nat, from: nat, len: nat, ns: nat): nat
  {
    Sum(len, DaySlotsFrom(x, e, from, ns))
  }

  function Workers(x: Assignment, d: nat, s: nat): nat -> bool
  {
    (e: nat) => x(e, d, s)
  }

  /** Employees (indices below ne) assigned to shift s on day d. */
  function Staffing(x: Assignment, ne: nat, d: nat, s: nat): nat
  {
    Count(ne, Workers(x, d, s))
  }

  function OtherShifts(x: Assignment, e: nat, d: nat, m: nat): nat -> bool
  {
    (s: nat) => s != m && x(e, d, s)
  }

  /** Shift slots employee e holds on day d on shifts other than m. */
  function OtherSlotsOn(x: Assignment, e: nat, d: nat, m: nat, ns: nat): nat
  {
    Count(ns, OtherShifts(x, e, d, m))
  }

  /** Days of the block on which employee e holds at least one shift. */
  function WorkedDays(x: Assignment, e: nat, ns: nat): nat
  {
    Count(BlockDays, Positive(DaySlotsFrom(x, e, 0, ns)))
  }

  // ---------------------------------------------------------------------
  // The constraint families
  // ---------------------------------------------------------------------

  /** Each employee holds exactly Quota shift slots in the block. */
  predicate TotalLoad(x: Assignment, ne: nat, ns: nat)
  {
    forall e: nat :: e < ne ==> Slots(x, e, 0, BlockDays, ns) == Quota
  }

  predicate WindowOk(x: Assignment, e: nat, d: nat, ns: nat)
  {
    Slots(x, e, d, WindowDays, ns) <= MaxInWindow
  }

  /** Every window of 4 consecutive days starting at day 0..24 holds at most 3 slots. */
  predicate MaxConsecutive(x: Assignment, ne: nat, ns: nat)
  {
    forall e: nat, d: nat :: e < ne && d < BlockDays - 3 ==> WindowOk(x, e, d, ns)
  }

  /** Every (day, shift) of the block has at least one employee. */
  predicate Coverage(x: Assignment, ne: nat, ns: nat)
  {
    forall d: nat, s: nat :: d < BlockDays && s < ns ==> Staffing(x, ne, d, s) >= 1
  }

  /** x(e, d, m) + (slots of e on day d + 1 other than m) <= 1 */
  predicate ContinuationOk(x: Assignment, e: nat, d: nat, m: nat, ns: nat)
  {
    Ind(x(e, d, m)) + OtherSlotsOn(x, e, d + 1, m, ns) <= 1
  }

  /** The continuation rule of marker shift m, for day pairs (0, 1) .. (26, 27). */
  predicate Continuation(x: Assignment, ne: nat, ns: nat, m: nat)
  {
    forall e: nat, d: nat :: e < ne && d < BlockDays - 1 ==> ContinuationOk(x, e, d, m, ns)
  }

  predicate WeekOk(x: Assignment, e: nat, w: nat, ns: nat)
  {
    Slots(x, e, w * WeekDays, WeekDays, ns) <= MaxPerWeek
  }

  /** Each of the four fixed weeks (days 7w .. 7w + 6) holds at most 5 slots. */
  predicate WeeklyRest(x: Assignment, ne: nat, ns: nat)
  {
    forall e: nat, w: nat :: e < ne && w < Weeks ==> WeekOk(x, e, w, ns)
  }

  /** A marker that was not found adds no rule. */
  predicate MarkerRule(x: Assignment, ne: nat, ns: nat, marker: Option<nat>)
  {
    marker.Some? ==> Continuation(x, ne, ns, marker.value)
  }

  /** The full hard-constraint set of one block, shared by both phases. */
  predicate Legal(x: Assignment, ne: nat, shifts: seq<ShiftType>)
  {
    var ns := |shifts|;
    && TotalLoad(x, ne, ns)
    && MaxConsecutive(x, ne, ns)
    && Coverage(x, ne, ns)
    && MarkerRule(x, ne, ns, NightShift(shifts))
    && MarkerRule(x, ne, ns, EveningShift(shifts))
    && WeeklyRest(x, ne, ns)
  }

  // ---------------------------------------------------------------------
  // Marker shifts
  // ---------------------------------------------------------------------

  /** The first shift index at or after `from` whose start time is t, if any. */
  function FirstStartingAt(shifts: seq<ShiftType>, t: ClockTime, from: nat): (r: Option<nat>)
    decreases |shifts| - from
    ensures r.Some? ==> from <= r.value < |shifts| && shifts[r.value].start == t
    ensures r.Some? ==> forall j: nat :: from <= j < r.value ==> shifts[j].start != t
    ensures r.None? <==> forall j: nat :: from <= j < |shifts| ==> shifts[j].start != t
  {
    if from >= |shifts| then None
    else if shifts[from].start == t then Some(from)
    else FirstStartingAt(shifts, t, from + 1)
  }

  /** The night marker: the first shift that starts at 22:00. */
  function NightShift(shifts: seq<ShiftType>): (r: Option<nat>)
    ensures r.Some? ==> r.value < |shifts| && shifts[r.value].start == NightStart
    ensures r.Some? ==> forall j: nat :: j < r.value ==> shifts[j].start != NightStart
    ensures r.None? <==> forall j: nat :: j < |shifts| ==> shifts[j].start != NightStart
  {
    FirstStartingAt(shifts, NightStart, 0)
  }

  /** The evening marker: the first shift that starts at 14:00. */
  function EveningShift(shifts: seq<ShiftType>): (r: Option<nat>)
    ensures r.Some? ==> r.value < |shifts| && shifts[r.value].start == EveningStart
    ensures r.Some? ==> forall j: nat :: j < r.value ==> shifts[j].start != EveningStart
    ensures r.None? <==> forall j: nat :: j < |shifts| ==> shifts[j].start != EveningStart
  {
    FirstStartingAt(shifts, EveningStart, 0)
  }

  // ---------------------------------------------------------------------
  // What the rules mean
  // ---------------------------------------------------------------------

  /**
   * The continuation constraint of marker m says two things: working m on
   * day d leaves day d + 1 either idle or on m alone; and, whatever happens
   * on day d, day d + 1 holds at most one shift other than m. (`next` names
   * d + 1 so that the quantifiers below have a term without arithmetic to
   * trigger on.)
   */
  lemma ContinuationMeaning(x: Assignment, e: nat, d: nat, next: nat, m: nat, ns: nat)
    requires next == d + 1
    requires m < ns
    ensures ContinuationOk(x, e, d, m, ns) <==>
      && (x(e, d, m) ==> forall s: nat :: s < ns && s != m ==> !x(e, next, s))
      && (forall s1: nat, s2: nat :: s1 < ns && s2 < ns && s1 != m && s2 != m && x(e, next, s1) && x(e, next, s2) ==> s1 == s2)
  {
    var p := OtherShifts(x, e, next, m);
    assert forall s: nat :: p(s) == (s != m && x(e, next, s));
    CountZero(ns, p);
    CountAtMostOne(ns, p);
  }

  /** The Staffing of day d, as a function of the shift index. */
  function StaffingOf(x: Assignment, ne: nat, d: nat): nat -> nat
  {
    (s: nat) => Staffing(x, ne, d, s)
  }

  /** The slots of day d, as a function of the employee index. */
  function SlotsOf(x: Assignment, d: nat, ns: nat): nat -> nat
  {
    (e: nat) => SlotsOn(x, e, d, ns)
  }

  function DayTable(x: Assignment, d: nat): (nat, nat) -> nat
  {
    (e: nat, s: nat) => Ind(x(e, d, s))
  }

  /** On one day, the slots summed over employees equal the staffing summed over shifts. */
  lemma {:induction false} DayDoubleCount(x: Assignment, ne: nat, ns: nat, d: nat)
    ensures Sum(ne, SlotsOf(x, d, ns)) == Sum(ns, StaffingOf(x, ne, d))
  {
    var g := DayTable(x, d);
    forall e: nat | e < ne
      ensures SlotsOf(x, d, ns)(e) == Sum(ns, Row(g, e))
    {
      CountIsSum(ns, ShiftsWorked(x, e, d));
      SumCongruence(ns, IndOf(ShiftsWorked(x, e, d)), Row(g, e));
    }
    forall s: nat | s < ns
      ensures StaffingOf(x, ne, d)(s) == Sum(ne, Col(g, s))
    {
      CountIsSum(ne, Workers(x, d, s));
      SumCongruence(ne, IndOf(Workers(x, d, s)), Col(g, s));
    }
    SumExchange(ne, ns, g, SlotsOf(x, d, ns), StaffingOf(x, ne, d));
  }

  function BlockTable(x: Assignment, ns: nat): (nat, nat) -> nat
  {
    (e: nat, d: nat) => SlotsOn(x, e, d, ns)
  }

  function EmployeeLoad(x: Assignment, ns: nat): nat -> nat
  {
    (e: nat) => Slots(x, e, 0, BlockDays, ns)
  }

  function DayLoad(x: Assignment, ne: nat, ns: nat): nat -> nat
  {
    (d: nat) => Sum(ns, StaffingOf(x, ne, d))
  }

  /**
   * Headcount bound: the quota and coverage rules together can only be met
   * when the employees' slots (20 each) cover every (day, shift) of the
   * block, so 28 * |shifts| <= 20 * |employees|.
   */
  lemma HeadcountNeeded(x: Assignment, ne: nat, ns: nat)
    requires TotalLoad(x, ne, ns)
    requires Coverage(x, ne, ns)
    ensures BlockDays * ns <= Quota * ne
  {
    BlockSupply(x, ne, ns);
    BlockDemand(x, ne, ns);
  }

  /** Under the quota, the slots of all employees, counted day by day, add up to 20 per employee. */
  lemma {:induction false} BlockSupply(x: Assignment, ne: nat, ns: nat)
    requires TotalLoad(x, ne, ns)
    ensures Sum(BlockDays, DayLoad(x, ne, ns)) == ne * Quota
  {
    var g := BlockTable(x, ns);
    forall e: nat | e < ne
      ensures EmployeeLoad(x, ns)(e) == Sum(BlockDays, Row(g, e))
    {
      SumCongruence(BlockDays, DaySlotsFrom(x, e, 0, ns), Row(g, e));
    }
    forall d: nat | d < BlockDays
      ensures DayLoad(x, ne, ns)(d) == Sum(ne, Col(g, d))
    {
      DayDoubleCount(x, ne, ns, d);
      SumCongruence(ne, SlotsOf(x, d, ns), Col(g, d));
    }
    SumExchange(ne, BlockDays, g, EmployeeLoad(x, ns), DayLoad(x, ne, ns));
    SumConst(ne, EmployeeLoad(x, ns), Quota);
  }

  /** Under coverage, every day needs at least one slot per shift. */
  lemma {:induction false} BlockDemand(x: Assignment, ne: nat, ns: nat)
    requires Coverage(x, ne, ns)
    ensures BlockDays * ns <= Sum(BlockDays, DayLoad(x, ne, ns))
  {
    forall d: nat | d < BlockDays
      ensures ns <= DayLoad(x, ne, ns)(d)
    {
      SumAtLeast(ns, StaffingOf(x, ne, d), 1);
    }
    SumAtLeast(BlockDays, DayLoad(x, ne, ns), ns);
  }

  /** A single employee can never staff a block: the rules admit no assignment. */
  lemma SingleEmployeeInfeasible(x: Assignment, shifts: seq<ShiftType>)
    ensures !Legal(x, 1, shifts)
  {
    if |shifts| == 0 {
      // With no shifts there are no slots, so the quota of 20 cannot be met.
      var f := DaySlotsFrom(x, 0, 0, 0);
      forall d: nat | d < BlockDays
        ensures f(d) == 0
      {
      }
      SumConst(BlockDays, f, 0);
      assert Slots(x, 0, 0, BlockDays, 0) == 0;
    } else if Legal(x, 1, shifts) {
      HeadcountNeeded(x, 1, |shifts|);
    }
  }

  /**
   * The quota counts shift slots, not days: an employee works at most Quota
   * distinct days, and exactly Quota days when no day holds two shifts.
   */
  lemma DaysWithinQuota(x: Assignment, ne: nat, shifts: seq<ShiftType>, e: nat)
    requires Legal(x, ne, shifts)
    requires e < ne
    ensures WorkedDays(x, e, |shifts|) <= Quota
    ensures WorkedDays(x, e, |shifts|) == Quota <==> forall d: nat :: d < BlockDays ==> SlotsOn(x, e, d, |shifts|) <= 1
  {
    var f := DaySlotsFrom(x, e, 0, |shifts|);
    CountPositive(BlockDays, f);
    assert Slots(x, e, 0, BlockDays, |shifts|) == Quota;
    forall d: nat | d < BlockDays
      ensures f(d) == SlotsOn(x, e, d, |shifts|)
    {
    }
  }

  /** Slots over a stretch of days split at any point into the slots of the two parts. */
  lemma {:induction false} SlotsSplit(x: Assignment, e: nat, from: nat, a: nat, b: nat, ns: nat)
    ensures Slots(x, e, from, a + b, ns) == Slots(x, e, from, a, ns) + Slots(x, e, from + a, b, ns)
  {
    if b > 0 {
      SlotsSplit(x, e, from, a, b - 1, ns);
      assert DaySlotsFrom(x, e, from, ns)(a + b - 1) == DaySlotsFrom(x, e, from + a, ns)(b - 1);
    }
  }

  /**
   * The weekly cap and the quota leave no slack: 20 slots in four weeks of
   * at most 5 each means every one of the four weeks holds exactly 5.
   */
  lemma {:induction false} WeeksFull(x: Assignment, ne: nat, ns: nat, e: nat, w: nat)
    requires TotalLoad(x, ne, ns) && WeeklyRest(x, ne, ns)
    requires e < ne && w < Weeks
    ensures Slots(x, e, w * WeekDays, WeekDays, ns) == MaxPerWeek
  {
    assert WeekOk(x, e, 0, ns) && WeekOk(x, e, 1, ns) && WeekOk(x, e, 2, ns) && WeekOk(x, e, 3, ns);
    FourFullWeeks(x, e, ns, WeekDays, MaxPerWeek);
    assert w * WeekDays == if w == 0 then 0 else if w == 1 then 7 else if w == 2 then 14 else 21;
  }

  /** Four consecutive stretches that each hold at most cap slots, and 4 * cap in all, each hold exactly cap. */
  lemma {:induction false} FourFullWeeks(x: Assignment, e: nat, ns: nat, week: nat, cap: nat)
    requires Slots(x, e, 0, week, ns) <= cap
    requires Slots(x, e, week, week, ns) <= cap
    requires Slots(x, e, week + week, week, ns) <= cap
    requires Slots(x, e, week + week + week, week, ns) <= cap
    requires Slots(x, e, 0, week + week + week + week, ns) == cap + cap + cap + cap
    ensures Slots(x, e, 0, week, ns) == cap
    ensures Slots(x, e, week, week, ns) == cap
    ensures Slots(x, e, week + week, week, ns) == cap
    ensures Slots(x, e, week + week + week, week, ns) == cap
  {
    SlotsSplit(x, e, 0, week, week + week + week, ns);
    SlotsSplit(x, e, week, week, week + week, ns);
    SlotsSplit(x, e, week + week, week, week, ns);
    assert Slots(x, e, 0, week + week + week + week, ns) ==
      Slots(x, e, 0, week, ns) + Slots(x, e, week, week, ns) + Slots(x, e, week + week, week, ns) + Slots(x, e, week + week + week, week, ns);
  }

  /**
   * The window rule bounds slots, so it also forbids four consecutive
   * worked days: every window of four days starting at day 0..24 has an idle day.
   */
  lemma NoFourDayRun(x: Assignment, ne: nat, ns: nat, e: nat, d: nat)
    requires MaxConsecutive(x, ne, ns)
    requires e < ne && d < BlockDays - 3
    ensures exists i: nat :: i < WindowDays && DaySlotsFrom(x, e, d, ns)(i) == 0
  {
    assert WindowOk(x, e, d, ns);
  }
}
