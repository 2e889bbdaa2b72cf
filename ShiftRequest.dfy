/**
 * The shift-scheduling request builder (schedule.py): four fixed shift
 * templates per day, end times that roll past midnight, shift ids built
 * from the weekday name and the hours, one coverage entry per shift asking
 * for one "Employee", and the fixed constraint constants.
 *
 * Dates are day offsets from the start date and the weekday is counted
 * from the start date's weekday (0 = Monday), so the record keeps the
 * request's day and hour fields without a calendar.
 */
module ShiftRequest {

  /** A point in time as the request writes it: a day offset and an hour. */
  datatype Stamp = Stamp(day: int, hour: nat)

  datatype ShiftEntry = ShiftEntry(id: string, start: Stamp, end: Stamp)

  datatype RoleRequirement = RoleRequirement(roleId: string, targetEmployeeCount: nat)

  datatype CoverageEntry = CoverageEntry(start: Stamp, end: Stamp, roleRequirements: seq<RoleRequirement>)

  datatype EmployeeEntry = EmployeeEntry(id: string, roleIds: seq<string>)

  datatype ShiftConstraints = ShiftConstraints(
    maxConsecutiveShifts: nat,
    minConsecutiveShiftsOff: nat,
    maxShiftsPerWeek: nat,
    minShiftsPerWeek: nat)

  datatype EmployeeShiftConstraints = EmployeeShiftConstraints(minHoursBetweenShifts: nat)

  datatype Request = Request(
    shifts: seq<ShiftEntry>,
    employees: seq<EmployeeEntry>,
    coverageRequirements: seq<CoverageEntry>,
    roleIds: seq<string>,
    timeLimitSeconds: nat,
    shiftConstraints: seq<ShiftConstraints>,
    employeeShiftConstraints: seq<EmployeeShiftConstraints>)

  /** A shift template: start hour and end hour. */
  datatype Template = Template(startHour: nat, endHour: nat)

  const Templates: seq<Template> := [Template(6, 14), Template(8, 16), Template(14, 22), Template(22, 6)]
  const TemplatesPerDay: nat := 4
  const Role: string := "Employee"
  const WeekdayNames: seq<string> := ["Monday", "Tuesday", "Wednesday", "Thursday", "Friday", "Saturday", "Sunday"]
  const TimeLimitSeconds: nat := 30
  const Rules: ShiftConstraints := ShiftConstraints(3, 2, 5, 5)
  const EmployeeRules: EmployeeShiftConstraints := EmployeeShiftConstraints(16)

  // ---------------------------------------------------------------------
  // Shift ids
  // ---------------------------------------------------------------------

  function Digit(n: nat): char
    requires n < 10
  {
    "0123456789"[n]
  }

  /** An hour written with two digits, as `{:02d}` writes hours below 100. */
  function TwoDigits(h: nat): (s: string)
    requires h < 100
    ensures |s| == 2 && '0' <= s[0] <= '9' && '0' <= s[1] <= '9'
  {
    [Digit(h / 10), Digit(h % 10)]
  }

  function DigitValue(c: char): int
  {
    c as int - '0' as int
  }

  /** Reading the two digits back gives the hour. */
  lemma TwoDigitsValue(h: nat)
    requires h < 100
    ensures 10 * DigitValue(TwoDigits(h)[0]) + DigitValue(TwoDigits(h)[1]) == h
  {
    assert DigitValue(Digit(h / 10)) == h / 10;
    assert DigitValue(Digit(h % 10)) == h % 10;
  }

  /** The weekday of day offset `day` when the start date falls on `startWeekday`. */
  function Weekday(startWeekday: nat, day: nat): (w: nat)
    ensures w < 7
  {
    (startWeekday + day) % 7
  }

  /** The id of a shift: weekday name, then the two-digit start and end hours. */
  function ShiftId(weekday: nat, startHour: nat, endHour: nat): string
    requires weekday < 7 && startHour < 100 && endHour < 100
  {
    WeekdayNames[weekday] + "_" + TwoDigits(startHour) + "-" + TwoDigits(endHour)
  }

  /** The length and first letter of a weekday name tell the weekday apart. */
  lemma WeekdayNamesDiffer(v: nat, w: nat)
    requires v < 7 && w < 7
    requires |WeekdayNames[v]| == |WeekdayNames[w]| && WeekdayNames[v][0] == WeekdayNames[w][0]
    ensures v == w
  {
  }

  /** A shift id determines its weekday, start hour and end hour. */
  lemma ShiftIdInjective(w1: nat, a1: nat, b1: nat, w2: nat, a2: nat, b2: nat)
    requires w1 < 7 && a1 < 100 && b1 < 100 && w2 < 7 && a2 < 100 && b2 < 100
    requires ShiftId(w1, a1, b1) == ShiftId(w2, a2, b2)
    ensures w1 == w2 && a1 == a2 && b1 == b2
  {
    var id := ShiftId(w1, a1, b1);
    var n1 := WeekdayNames[w1];
    var n2 := WeekdayNames[w2];
    assert |id| == |n1| + 6 == |n2| + 6;
    assert id[0] == n1[0] == n2[0];
    WeekdayNamesDiffer(w1, w2);
    var k := |n1|;
    assert id[k + 1..k + 3] == TwoDigits(a1) == TwoDigits(a2);
    assert id[k + 4..k + 6] == TwoDigits(b1) == TwoDigits(b2);
    TwoDigitsValue(a1);
    TwoDigitsValue(a2);
    TwoDigitsValue(b1);
    TwoDigitsValue(b2);
  }

  // ---------------------------------------------------------------------
  // Shifts and coverage
  // ---------------------------------------------------------------------

  /** Shift number i of the request: template i mod 4 on day i / 4. */
  function ShiftAt(startWeekday: nat, i: nat): ShiftEntry
  {
    var day := i / TemplatesPerDay;
    var t := Templates[i % TemplatesPerDay];
    ShiftEntry(
      ShiftId(Weekday(startWeekday, day), t.startHour, t.endHour),
      Stamp(day, t.startHour),
      Stamp(if t.endHour < t.startHour then day + 1 else day, t.endHour))
  }

  /** The coverage entry of a shift: its times and one "Employee". */
  function CoverageOf(shift: ShiftEntry): CoverageEntry
  {
    CoverageEntry(shift.start, shift.end, [RoleRequirement(Role, 1)])
  }

  function Days(numDays: int): nat
  {
    if numDays < 0 then 0 else numDays
  }

  /** Appending the next shift and its coverage entry keeps both lists equal to the expected ones. */
  lemma AppendShift(startWeekday: nat, shifts: seq<ShiftEntry>, coverage: seq<CoverageEntry>)
    requires |coverage| == |shifts|
    requires forall i: nat :: i < |shifts| ==> shifts[i] == ShiftAt(startWeekday, i)
    requires forall i: nat :: i < |coverage| ==> coverage[i] == CoverageOf(shifts[i])
    ensures var e := ShiftAt(startWeekday, |shifts|);
      && (forall i: nat :: i < |shifts| + 1 ==> (shifts + [e])[i] == ShiftAt(startWeekday, i))
      && (forall i: nat :: i < |coverage| + 1 ==> (coverage + [CoverageOf(e)])[i] == CoverageOf((shifts + [e])[i]))
  {
  }

  /** The body of the day loop: appends day `day`'s four shifts and their coverage entries. */
  method AddDay(startWeekday: nat, day: nat, shifts: seq<ShiftEntry>, coverage: seq<CoverageEntry>)
    returns (shifts': seq<ShiftEntry>, coverage': seq<CoverageEntry>)
    requires |shifts| == TemplatesPerDay * day && |coverage| == |shifts|
    requires forall i: nat :: i < |shifts| ==> shifts[i] == ShiftAt(startWeekday, i)
    requires forall i: nat :: i < |coverage| ==> coverage[i] == CoverageOf(shifts[i])
    ensures |shifts'| == TemplatesPerDay * (day + 1) && |coverage'| == |shifts'|
    ensures forall i: nat :: i < |shifts'| ==> shifts'[i] == ShiftAt(startWeekday, i)
    ensures forall i: nat :: i < |coverage'| ==> coverage'[i] == CoverageOf(shifts'[i])
  {
    shifts', coverage' := shifts, coverage;
    var weekday := (startWeekday + day) % 7;
    var t := 0;
    while t < |Templates|
      invariant t <= |Templates|
      invariant |shifts'| == TemplatesPerDay * day + t && |coverage'| == |shifts'|
      invariant forall i: nat :: i < |shifts'| ==> shifts'[i] == ShiftAt(startWeekday, i)
      invariant forall i: nat :: i < |coverage'| ==> coverage'[i] == CoverageOf(shifts'[i])
    {
      var startHour := Templates[t].startHour;
      var endHour := Templates[t].endHour;
      var shiftStart := Stamp(day, startHour);
      var shiftEnd := Stamp(day, endHour);
      if endHour < startHour {
        shiftEnd := Stamp(shiftEnd.day + 1, shiftEnd.hour);
      }
      var shiftId := WeekdayNames[weekday] + "_" + TwoDigits(startHour) + "-" + TwoDigits(endHour);
      ShiftAtDay(startWeekday, day, t);
      assert ShiftEntry(shiftId, shiftStart, shiftEnd) == ShiftAt(startWeekday, |shifts'|);
      AppendShift(startWeekday, shifts', coverage');
      shifts' := shifts' + [ShiftEntry(shiftId, shiftStart, shiftEnd)];
      coverage' := coverage' + [CoverageEntry(shiftStart, shiftEnd, [RoleRequirement(Role, 1)])];
      t := t + 1;
    }
  }

  /** `create_shift_scheduling_request`. */
  method CreateShiftSchedulingRequest(startWeekday: nat, numDays: int, employees: seq<string>) returns (request: Request)
    ensures |request.shifts| == TemplatesPerDay * Days(numDays)
    ensures |request.coverageRequirements| == |request.shifts|
    ensures forall i: nat :: i < |request.shifts| ==> request.shifts[i] == ShiftAt(startWeekday, i)
    ensures forall i: nat :: i < |request.coverageRequirements| ==>
      request.coverageRequirements[i] == CoverageOf(request.shifts[i])
    ensures |request.employees| == |employees|
    ensures forall i: nat :: i < |employees| ==> request.employees[i] == EmployeeEntry(employees[i], [Role])
    ensures request.roleIds == [Role]
    ensures request.timeLimitSeconds == TimeLimitSeconds
    ensures request.shiftConstraints == [Rules] && request.employeeShiftConstraints == [EmployeeRules]
  {
    var shifts: seq<ShiftEntry> := [];
    var coverage: seq<CoverageEntry> := [];
    var day := 0;
    while day < numDays
      invariant 0 <= day && day <= Days(numDays)
      invariant |shifts| == TemplatesPerDay * day && |coverage| == |shifts|
      invariant forall i: nat :: i < |shifts| ==> shifts[i] == ShiftAt(startWeekday, i)
      invariant forall i: nat :: i < |coverage| ==> coverage[i] == CoverageOf(shifts[i])
    {
      shifts, coverage := AddDay(startWeekday, day, shifts, coverage);
      day := day + 1;
    }
    var entries := seq(|employees|, (i: int) requires 0 <= i < |employees| => EmployeeEntry(employees[i], [Role]));
    request := Request(shifts, entries, coverage, [Role], TimeLimitSeconds, [Rules], [EmployeeRules]);
  }

  // ---------------------------------------------------------------------
  // What the shifts look like
  // ---------------------------------------------------------------------

  /** Shift number 4d + t is template t written out for day d. */
  lemma ShiftAtDay(startWeekday: nat, d: nat, t: nat)
    requires t < TemplatesPerDay
    ensures var tm := Templates[t];
      ShiftAt(startWeekday, TemplatesPerDay * d + t) ==
        ShiftEntry(ShiftId(Weekday(startWeekday, d), tm.startHour, tm.endHour), Stamp(d, tm.startHour),
                   Stamp(if tm.endHour < tm.startHour then d + 1 else d, tm.endHour))
  {
    assert (TemplatesPerDay * d + t) / TemplatesPerDay == d && (TemplatesPerDay * d + t) % TemplatesPerDay == t;
  }

  /** A shift ends on the next day exactly when it is the 22:00-06:00 template, otherwise on its own day. */
  lemma Overnight(startWeekday: nat, i: nat)
    ensures var s := ShiftAt(startWeekday, i);
      && (s.end.day == s.start.day + 1 <==> i % TemplatesPerDay == 3)
      && (s.end.day == s.start.day <==> i % TemplatesPerDay != 3)
  {
  }

  /** Every shift lasts eight hours, counting the day it may roll over. */
  lemma EightHours(startWeekday: nat, i: nat)
    ensures var s := ShiftAt(startWeekday, i);
      24 * (s.end.day - s.start.day) + s.end.hour - s.start.hour == 8
  {
  }

  /** Ids repeat with the weekday: shift i and shift i + 28 (one week later) share an id. */
  lemma IdsRepeatWeekly(startWeekday: nat, i: nat)
    ensures ShiftAt(startWeekday, i + 7 * TemplatesPerDay).id == ShiftAt(startWeekday, i).id
    ensures ShiftAt(startWeekday, i + 7 * TemplatesPerDay).start.day == ShiftAt(startWeekday, i).start.day + 7
  {
    assert (i + 7 * TemplatesPerDay) / TemplatesPerDay == i / TemplatesPerDay + 7;
    assert (i + 7 * TemplatesPerDay) % TemplatesPerDay == i % TemplatesPerDay;
    assert Weekday(startWeekday, i / TemplatesPerDay + 7) == Weekday(startWeekday, i / TemplatesPerDay);
  }

  /** Within any seven consecutive days the ids are all different. */
  lemma IdsDistinctWithinWeek(startWeekday: nat, i: nat, j: nat)
    requires i < j && j / TemplatesPerDay < i / TemplatesPerDay + 7
    ensures ShiftAt(startWeekday, i).id != ShiftAt(startWeekday, j).id
  {
    var di := i / TemplatesPerDay;
    var dj := j / TemplatesPerDay;
    var ti := Templates[i % TemplatesPerDay];
    var tj := Templates[j % TemplatesPerDay];
    if di == dj {
      assert i % TemplatesPerDay != j % TemplatesPerDay;
      assert ti.startHour != tj.startHour;
    } else {
      assert 0 < dj - di < 7;
      assert Weekday(startWeekday, di) != Weekday(startWeekday, dj);
    }
    if ShiftAt(startWeekday, i).id == ShiftAt(startWeekday, j).id {
      ShiftIdInjective(Weekday(startWeekday, di), ti.startHour, ti.endHour, Weekday(startWeekday, dj), tj.startHour, tj.endHour);
    }
  }
}
