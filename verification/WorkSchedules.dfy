/**
 Weekly windows in wall-clock time: the server's schedule tests, which look at
 occurrences that start today and yesterday, and the agent's own gate. An instant is a
 number of microseconds on the wall clock; day 1 is a Monday.
 */
module WorkSchedules {
  import opened Common

  const DAY: int := 24 * 60 * 60 * 1_000_000

  // datetime.combine: the day an instant lies in, and an instant of a day.
  function DayOf(local: int): int {
    local / DAY
  }

  function TimeOfDay(local: int): int {
    local % DAY
  }

  // 1 for Monday to 7 for Sunday.
  function IsoWeekday(day: int): (w: int)
    ensures 1 <= w <= 7
  {
    (day - 1) % 7 + 1
  }

  // Day 1 is a Monday, Sunday is followed by Monday.
  lemma WeekdaysFollow(day: int)
    ensures IsoWeekday(1) == 1
    ensures IsoWeekday(day + 1) == if IsoWeekday(day) == 7 then 1 else IsoWeekday(day) + 1
  {
  }

  // A window or work schedule as parsed from JSON. Bounds are times of day; None stands
  // for values that raise KeyError, TypeError or ValueError.
  datatype Rule = Rule(weekdays: set<int>, start: int, end: int)

  ghost predicate IsTimeOfDay(t: int) {
    0 <= t < DAY
  }

  ghost predicate WellFormed(rule: Rule) {
    IsTimeOfDay(rule.start) && IsTimeOfDay(rule.end)
  }

  // An end that is not after the start belongs to the next day.
  function ShiftedEnd(rule: Rule): int {
    if rule.end <= rule.start then rule.end + DAY else rule.end
  }

  // The occurrence of the rule that starts on a given day, widened by grace on both sides.
  predicate Covers(rule: Rule, day: int, grace: int, local: int) {
    IsoWeekday(day) in rule.weekdays && day * DAY + rule.start - grace <= local <= day * DAY + ShiftedEnd(rule) + grace
  }

  // It runs from the start on its day to the end, on the same day if that is later and
  // else on the next, with the grace before and after.
  lemma CoversExactly(rule: Rule, day: int, grace: int, local: int)
    ensures Covers(rule, day, grace, local) <==>
              && IsoWeekday(day) in rule.weekdays && local >= day * 86_400_000_000 + rule.start - grace
              && local <= (if rule.start < rule.end then day else day + 1) * 86_400_000_000 + rule.end + grace
  {
  }

  // The meaning of a rule: some occurrence, on any day at all, covers the instant.
  ghost predicate Scheduled(rule: Rule, grace: int, local: int) {
    exists day :: Covers(rule, day, grace, local)
  }

  predicate CoversWithLookBack(rule: Rule, grace: int, local: int) {
    Covers(rule, DayOf(local), grace, local) || Covers(rule, DayOf(local) - 1, grace, local)
  }

  // --- The server's tests -----------------------------------------------------------------

  method ScheduledNow(windows: seq<Option<Rule>>, local: int) returns (now: bool)
    requires forall i :: 0 <= i < |windows| && windows[i].Some? ==> WellFormed(windows[i].value)
    ensures now <==> exists i :: 0 <= i < |windows| && windows[i].Some? && Scheduled(windows[i].value, 0, local)
  {
    for i := 0 to |windows|
      invariant forall k :: 0 <= k < i && windows[k].Some? ==> !Scheduled(windows[k].value, 0, local)
    {
      if windows[i].Some? {
        LookBackIsEnough(windows[i].value, 0, local);
        var offset := 0;
        while offset >= -1
          invariant -2 <= offset <= 0
          invariant offset < 0 ==> !Covers(windows[i].value, DayOf(local), 0, local)
          invariant offset < -1 ==> !Covers(windows[i].value, DayOf(local) - 1, 0, local)
        {
          if Covers(windows[i].value, DayOf(local) + offset, 0, local) {
            return true;
          }
          offset := offset - 1;
        }
      }
    }
    return false;
  }

  // No schedule admits everything, a holiday nothing; a malformed schedule admits everything.
  function WithinWorkSchedule(schedule: Option<Option<Rule>>, local: int, graceMinutes: int, holiday: bool): bool {
    if schedule.None? then true
    else if holiday then false
    else if schedule.value.None? then true
    else CoversWithLookBack(schedule.value.value, Grace(graceMinutes), local)
  }

  function Grace(minutes: int): int {
    Max(0, minutes) * 60_000_000
  }

  // --- Looking back one day -------------------------------------------------------------------

  // Today and yesterday see every occurrence if the widened window stays within the 48
  // hours from the start of its day.
  predicate FitsLookBack(rule: Rule, grace: int) {
    grace <= rule.start && ShiftedEnd(rule) + grace < 2 * DAY
  }

  lemma DayBounds(local: int)
    ensures DayOf(local) * 86_400_000_000 <= local < DayOf(local) * 86_400_000_000 + 86_400_000_000
    ensures local == DayOf(local) * DAY + TimeOfDay(local)
  {
  }

  lemma DaysAreOrdered(a: int, b: int)
    requires a * DAY < b * DAY + DAY
    ensures a <= b
  {
  }

  lemma LookBackIsEnough(rule: Rule, grace: int, local: int)
    requires WellFormed(rule) && 0 <= grace && FitsLookBack(rule, grace)
    ensures CoversWithLookBack(rule, grace, local) <==> Scheduled(rule, grace, local)
  {
    DayBounds(local);
    forall day | Covers(rule, day, grace, local)
      ensures day == DayOf(local) || day == DayOf(local) - 1
    {
      DaysAreOrdered(day, DayOf(local));
      DaysAreOrdered(DayOf(local), day + 1);
    }
  }

  // The work-schedule test says yes exactly without a schedule, or on a working day when
  // the schedule is unreadable or some widened occurrence of it, on any day, covers now.
  lemma WithinWorkScheduleExactly(schedule: Option<Option<Rule>>, local: int, graceMinutes: int, holiday: bool)
    requires schedule.Some? && schedule.value.Some? ==>
               WellFormed(schedule.value.value) && FitsLookBack(schedule.value.value, Grace(graceMinutes))
    ensures WithinWorkSchedule(schedule, local, graceMinutes, holiday) <==>
              schedule.None? || (!holiday && (schedule.value.None?
                                              || Scheduled(schedule.value.value, Grace(graceMinutes), local)))
  {
    if schedule.Some? && schedule.value.Some? {
      LookBackIsEnough(schedule.value.value, Grace(graceMinutes), local);
    }
  }

  // A day with a given weekday.
  lemma WeekdayNeighbours(day: int)
    ensures IsoWeekday(day - 1) != IsoWeekday(day) && IsoWeekday(day + 1) != IsoWeekday(day)
            && IsoWeekday(day + 2) != IsoWeekday(day)
    ensures IsoWeekday(day - 2) != IsoWeekday(day)
  {
  }

  lemma DayOfSum(day: int, t: int)
    requires 0 <= t < DAY
    ensures DayOf(day * DAY + t) == day && TimeOfDay(day * DAY + t) == t
  {
  }

  ghost predicate LookBackCorrect(start: int, end: int, grace: int) {
    forall weekdays, local {:trigger Scheduled(Rule(weekdays, start, end), grace, local)} ::
      CoversWithLookBack(Rule(weekdays, start, end), grace, local) <==>
          Scheduled(Rule(weekdays, start, end), grace, local)
  }

  // For given times the look-back is right for all weekday sets and instants exactly when
  // the widened window fits.
  lemma LookBackExactly(start: int, end: int, grace: int)
    requires IsTimeOfDay(start) && IsTimeOfDay(end) && 0 <= grace
    ensures LookBackCorrect(start, end, grace) <==>
              grace <= start && (if start < end then 0 else 86_400_000_000) + end + grace < 172_800_000_000
  {
    if FitsLookBack(Rule({}, start, end), grace) {
      forall weekdays, local
        ensures CoversWithLookBack(Rule(weekdays, start, end), grace, local) <==>
                  Scheduled(Rule(weekdays, start, end), grace, local)
      {
        LookBackIsEnough(Rule(weekdays, start, end), grace, local);
      }
    } else {
      var day := 10;
      var rule := Rule({IsoWeekday(day)}, start, end);
      WeekdayNeighbours(day);
      if grace > start {
        // the last instant before the day begins
        var local := day * DAY - 1;
        DayOfSum(day - 1, DAY - 1);
        assert Covers(rule, day, grace, local);
        assert !CoversWithLookBack(rule, grace, local);
        assert Scheduled(rule, grace, local);
      } else {
        var local := (day + 2) * DAY;
        DayOfSum(day + 2, 0);
        assert Covers(rule, day, grace, local);
        assert !CoversWithLookBack(rule, grace, local);
        assert Scheduled(rule, grace, local);
      }
    }
  }

  // --- The agent's gate ----------------------------------------------------------------------------

  // Weekdays are kept apart: the agent checks them before it parses the times.
  datatype AgentSchedule = AgentSchedule(weekdays: set<int>, start: Option<int>, end: Option<int>)

  function IsWithinCollectionWindow(schedule: Option<AgentSchedule>, local: int, graceMinutes: int,
                                    holidays: set<int>): bool
  {
    if schedule.None? then true
    else if DayOf(local) in holidays then false
    else if IsoWeekday(DayOf(local)) !in schedule.value.weekdays then false
    else if schedule.value.start.None? || schedule.value.end.None? then true
    else
      var start := schedule.value.start.value - graceMinutes * 60_000_000;
      var end := schedule.value.end.value + graceMinutes * 60_000_000;
      var current := TimeOfDay(local);
      if end >= start then current >= start && current <= end else current >= start || current <= end
  }

  // On a scheduled weekday that is no holiday the gate admits the times of day from start
  // to end, each widened by the grace; where the widened end comes before the widened
  // start, all but those strictly between the two. Unreadable times admit the whole day.
  lemma GateExactly(schedule: AgentSchedule, local: int, graceMinutes: int, holidays: set<int>)
    ensures IsWithinCollectionWindow(None, local, graceMinutes, holidays)
    ensures IsWithinCollectionWindow(Some(schedule), local, graceMinutes, holidays) <==>
              && DayOf(local) !in holidays && IsoWeekday(DayOf(local)) in schedule.weekdays
              && (schedule.start.Some? && schedule.end.Some? ==>
                    var from, to := schedule.start.value - graceMinutes * 60_000_000,
                                    schedule.end.value + graceMinutes * 60_000_000;
                    if from <= to then from <= TimeOfDay(local) <= to else !(to < TimeOfDay(local) < from))
  {
  }

  // The two gates on the same schedule, grace, day and holiday.
  ghost predicate GatesAgreeAt(rule: Rule, graceMinutes: int, holidays: set<int>, local: int) {
    var agent := IsWithinCollectionWindow(Some(AgentSchedule(rule.weekdays, Some(rule.start), Some(rule.end))), local,
                                          graceMinutes, holidays);
    agent <==> WithinWorkSchedule(Some(Some(rule)), local, graceMinutes, DayOf(local) in holidays)
  }

  ghost predicate GatesAgree(start: int, end: int, graceMinutes: int) {
    forall weekdays, holidays, local :: GatesAgreeAt(Rule(weekdays, start, end), graceMinutes, holidays, local)
  }

  lemma DayGatesAgree(rule: Rule, graceMinutes: int, holidays: set<int>, local: int)
    requires WellFormed(rule) && 0 <= graceMinutes && rule.start < rule.end && rule.end + Grace(graceMinutes) < DAY
    ensures GatesAgreeAt(rule, graceMinutes, holidays, local)
  {
    DayBounds(local);
    assert (DayOf(local) - 1) * DAY == DayOf(local) * DAY - DAY;
  }

  // At the first instant of the day after the only scheduled weekday the server is still
  // in yesterday's occurrence, while the agent looks at today's weekday.
  lemma NightGatesDisagree(start: int, end: int, graceMinutes: int)
    requires IsTimeOfDay(start) && IsTimeOfDay(end) && 0 <= graceMinutes
    requires end <= start || end + Grace(graceMinutes) >= DAY
    ensures !GatesAgree(start, end, graceMinutes)
  {
    var day := 10;
    var rule := Rule({IsoWeekday(day)}, start, end);
    var local := (day + 1) * DAY;
    WeekdayNeighbours(day);
    DayOfSum(day + 1, 0);
    assert Covers(rule, day, Grace(graceMinutes), local);
    assert !GatesAgreeAt(rule, graceMinutes, {}, local);
  }

  // Agent and server agree for all weekday sets, holidays and instants exactly on
  // daytime schedules whose grace ends before midnight.
  lemma GatesAgreeExactly(start: int, end: int, graceMinutes: int)
    requires IsTimeOfDay(start) && IsTimeOfDay(end) && 0 <= graceMinutes
    ensures GatesAgree(start, end, graceMinutes) <==> start < end && end + Grace(graceMinutes) < DAY
  {
    if start < end && end + Grace(graceMinutes) < DAY {
      forall weekdays, holidays, local
        ensures GatesAgreeAt(Rule(weekdays, start, end), graceMinutes, holidays, local)
      {
        DayGatesAgree(Rule(weekdays, start, end), graceMinutes, holidays, local);
      }
    } else {
      NightGatesDisagree(start, end, graceMinutes);
    }
  }
}
