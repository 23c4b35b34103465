/**
 Dated assignments of work schedules to employees. Dates are day numbers; an open end
 is None. The table is read per employee, so it is kept per employee here.
 */
module ScheduleAssignments {
  import opened Common

  datatype Assignment = Assignment(schedule: nat, validFrom: int, validTo: Option<int>)

  predicate CoversDay(a: Assignment, day: int) {
    a.validFrom <= day && (a.validTo.None? || day <= a.validTo.value)
  }

  // The table's CHECK constraint.
  predicate WellDated(a: Assignment) {
    a.validTo.None? || a.validFrom <= a.validTo.value
  }

  // UPDATE ... SET valid_to = from - 1 WHERE valid_from < from AND (valid_to IS NULL OR valid_to >= from)
  function Truncated(a: Assignment, from: int): Assignment {
    if a.validFrom < from && (a.validTo.None? || a.validTo.value >= from) then a.(validTo := Some(from - 1)) else a
  }

  function Assign(rows: seq<Assignment>, added: Assignment): seq<Assignment> {
    seq(|rows|, i requires 0 <= i < |rows| => Truncated(rows[i], added.validFrom)) + [added]
  }

  // --- The lookup ----------------------------------------------------------------------

  // ORDER BY valid_from DESC LIMIT 1 may return any covering row with the latest start.
  ghost predicate MayBeEffective(rows: seq<Assignment>, day: int, i: nat)
    requires i < |rows|
  {
    && CoversDay(rows[i], day)
    && (forall j :: 0 <= j < |rows| && CoversDay(rows[j], day) ==> rows[j].validFrom <= rows[i].validFrom)
  }

  // The schedules the lookup may return for a day: usually one, none if no row covers it.
  ghost function EffectiveSchedules(rows: seq<Assignment>, day: int): set<nat> {
    set i | 0 <= i < |rows| && MayBeEffective(rows, day, i) :: rows[i].schedule
  }

  // --- The handler ------------------------------------------------------------------------

  datatype AssignError = InvalidDates

  type Table = map<nat, seq<Assignment>>

  function RowsOf(table: Table, employee: nat): seq<Assignment> {
    if employee in table then table[employee] else []
  }

  // Exactly the given employees got the assignment, once.
  ghost predicate AssignedTo(table: Table, table': Table, employees: set<nat>, added: Assignment) {
    && table'.Keys == table.Keys + employees
    && (forall e :: e in employees ==> table'[e] == Assign(if e in table then table[e] else [], added))
    && (forall e :: e in table && e !in employees ==> table'[e] == table[e])
  }

  lemma NobodyAssigned(table: Table, added: Assignment)
    ensures AssignedTo(table, table, {}, added)
  {
  }

  lemma AssignedOneMore(table: Table, table': Table, employees: set<nat>, added: Assignment, employee: nat,
                        next: Table, more: set<nat>)
    requires AssignedTo(table, table', employees, added) && employee !in employees
    requires next == table'[employee := Assign(RowsOf(table', employee), added)] && more == employees + {employee}
    ensures AssignedTo(table, next, more, added)
  {
  }

  lemma MoveOne(left: set<nat>, done: set<nat>, all: set<nat>, e: nat)
    requires e in left && left !! done && left + done == all
    ensures (left - {e}) !! (done + {e}) && (left - {e}) + (done + {e}) == all
  {
  }

  class ScheduleTable {
    var table: Table

    constructor ()
      ensures table == map[]
    {
      table := map[];
    }

    // Every listed employee gets the assignment once, in whatever order the set is read.
    method AssignSchedule(employees: seq<nat>, schedule: nat, validFrom: int, validTo: Option<int>)
      returns (r: Result<(), AssignError>)
      modifies this
      ensures r.Ok? <==> WellDated(Assignment(schedule, validFrom, validTo))
      ensures r.Err? ==> table == old(table)
      ensures r.Ok? ==> AssignedTo(old(table), table, Members(employees), Assignment(schedule, validFrom, validTo))
    {
      var added := Assignment(schedule, validFrom, validTo);
      if validTo.Some? && validTo.value < validFrom {
        return Err(InvalidDates);
      }
      var left := Members(employees);
      ghost var done: set<nat> := {};
      NobodyAssigned(table, added);
      while left != {}
        invariant left !! done && left + done == Members(employees)
        invariant AssignedTo(old(table), table, done, added)
        decreases |left|
      {
        var employee :| employee in left;
        ghost var before := table;
        table := table[employee := Assign(RowsOf(table, employee), added)];
        AssignedOneMore(old(table), before, done, added, employee, table, done + {employee});
        MoveOne(left, done, Members(employees), employee);
        left, done := left - {employee}, done + {employee};
      }
      assert done == Members(employees);
      return Ok(());
    }
  }

  // --- What an assignment does to history ----------------------------------------------------

  lemma TruncatedCovers(a: Assignment, from: int, day: int)
    ensures CoversDay(Truncated(a, from), day) <==> CoversDay(a, day) && (day < from || a.validFrom >= from)
  {
  }

  lemma AssignKeepsDates(rows: seq<Assignment>, added: Assignment)
    requires WellDated(added) && forall i :: 0 <= i < |rows| ==> WellDated(rows[i])
    ensures forall i :: 0 <= i < |rows| + 1 ==> WellDated(Assign(rows, added)[i])
  {
  }

  // Which rows can be effective after an assignment.
  lemma EffectiveAfter(rows: seq<Assignment>, added: Assignment, day: int)
    requires WellDated(added)
    ensures forall i :: 0 <= i < |rows| ==>
              (MayBeEffective(Assign(rows, added), day, i) <==>
                if day < added.validFrom then MayBeEffective(rows, day, i)
                else MayBeEffective(rows, day, i) && rows[i].validFrom >= added.validFrom)
    ensures MayBeEffective(Assign(rows, added), day, |rows|) <==>
              && CoversDay(added, day)
              && forall j :: 0 <= j < |rows| && CoversDay(rows[j], day) ==> rows[j].validFrom <= added.validFrom
  {
    var after := Assign(rows, added);
    forall i | 0 <= i < |rows|
      ensures after[i].validFrom == rows[i].validFrom
      ensures CoversDay(after[i], day) <==>
                CoversDay(rows[i], day) && (day < added.validFrom || rows[i].validFrom >= added.validFrom)
    {
      TruncatedCovers(rows[i], added.validFrom, day);
    }
  }

  // Days before the new start keep their schedule.
  lemma HistoryIsKept(rows: seq<Assignment>, added: Assignment, day: int)
    requires WellDated(added) && day < added.validFrom
    ensures EffectiveSchedules(Assign(rows, added), day) == EffectiveSchedules(rows, day)
  {
    var after := Assign(rows, added);
    EffectiveAfter(rows, added, day);
    assert forall i :: 0 <= i < |rows| ==> after[i].schedule == rows[i].schedule;
    forall x | x in EffectiveSchedules(rows, day)
      ensures x in EffectiveSchedules(after, day)
    {
      var i :| 0 <= i < |rows| && MayBeEffective(rows, day, i) && rows[i].schedule == x;
      assert MayBeEffective(after, day, i);
    }
  }

  predicate Later(rows: seq<Assignment>, from: int, day: int) {
    exists j :: 0 <= j < |rows| && CoversDay(rows[j], day) && rows[j].validFrom > from
  }

  predicate SameStart(rows: seq<Assignment>, from: int, day: int) {
    exists j :: 0 <= j < |rows| && CoversDay(rows[j], day) && rows[j].validFrom == from
  }

  // Within its interval the new assignment is the only candidate unless another one with
  // an equal or later start covers the day; with a later start it is none.
  lemma TakesEffect(rows: seq<Assignment>, added: Assignment, day: int)
    requires WellDated(added) && CoversDay(added, day)
    ensures var after := Assign(rows, added);
            && (MayBeEffective(after, day, |rows|) <==> !Later(rows, added.validFrom, day))
            && ((forall i :: 0 <= i < |after| && MayBeEffective(after, day, i) ==> i == |rows|)
                <==> !Later(rows, added.validFrom, day) && !SameStart(rows, added.validFrom, day))
  {
    var after := Assign(rows, added);
    EffectiveAfter(rows, added, day);
    if Later(rows, added.validFrom, day) {
      var j :| 0 <= j < |rows| && CoversDay(rows[j], day) && rows[j].validFrom > added.validFrom;
      var m := LatestCovering(rows, day, j);
      assert MayBeEffective(after, day, m);
    } else if SameStart(rows, added.validFrom, day) {
      var j :| 0 <= j < |rows| && CoversDay(rows[j], day) && rows[j].validFrom == added.validFrom;
      assert MayBeEffective(rows, day, j);
      assert MayBeEffective(after, day, j);
    }
  }

  lemma {:induction false} LatestCovering(rows: seq<Assignment>, day: int, j: nat) returns (m: nat)
    requires j < |rows| && CoversDay(rows[j], day)
    ensures m < |rows| && MayBeEffective(rows, day, m) && rows[m].validFrom >= rows[j].validFrom
  {
    m := j;
    for k := 0 to |rows|
      invariant m < |rows| && CoversDay(rows[m], day) && rows[m].validFrom >= rows[j].validFrom
      invariant forall i :: 0 <= i < k && CoversDay(rows[i], day) ==> rows[i].validFrom <= rows[m].validFrom
    {
      if CoversDay(rows[k], day) && rows[k].validFrom > rows[m].validFrom {
        m := k;
      }
    }
  }

  // A dated end does not bring the earlier schedule back: after it, only assignments that
  // start no earlier than the new one are left.
  lemma NothingResumes(rows: seq<Assignment>, added: Assignment, day: int)
    requires WellDated(added) && added.validTo.Some? && day > added.validTo.value
    ensures EffectiveSchedules(Assign(rows, added), day) != {} <==>
              exists j :: 0 <= j < |rows| && CoversDay(rows[j], day) && rows[j].validFrom >= added.validFrom
  {
    var after := Assign(rows, added);
    EffectiveAfter(rows, added, day);
    if EffectiveSchedules(after, day) != {} {
      var x :| x in EffectiveSchedules(after, day);
      var i :| 0 <= i < |after| && MayBeEffective(after, day, i) && after[i].schedule == x;
      assert i < |rows| && CoversDay(rows[i], day) && rows[i].validFrom >= added.validFrom;
    }
    if j :| 0 <= j < |rows| && CoversDay(rows[j], day) && rows[j].validFrom >= added.validFrom {
      var m := LatestCovering(rows, day, j);
      assert MayBeEffective(after, day, m);
      assert after[m].schedule in EffectiveSchedules(after, day);
    }
  }

  // --- Disjoint intervals -----------------------------------------------------------------------

  predicate Overlap(a: Assignment, b: Assignment) {
    (a.validTo.None? || b.validFrom <= a.validTo.value) && (b.validTo.None? || a.validFrom <= b.validTo.value)
  }

  lemma OverlapMeansSharedDay(a: Assignment, b: Assignment)
    requires WellDated(a) && WellDated(b)
    ensures Overlap(a, b) <==> exists day :: CoversDay(a, day) && CoversDay(b, day)
  {
    var day := Max(a.validFrom, b.validFrom);
    if Overlap(a, b) {
      assert CoversDay(a, day) && CoversDay(b, day);
    }
  }

  ghost predicate PairwiseDisjoint(rows: seq<Assignment>) {
    forall i, j :: 0 <= i < j < |rows| ==> !Overlap(rows[i], rows[j])
  }

  ghost predicate AllDated(rows: seq<Assignment>) {
    forall i :: 0 <= i < |rows| ==> WellDated(rows[i])
  }

  // An assignment keeps the intervals disjoint exactly when it meets no assignment that
  // starts at or after it; earlier ones are cut off in time.
  lemma DisjointExactly(rows: seq<Assignment>, added: Assignment)
    requires AllDated(rows) && WellDated(added) && PairwiseDisjoint(rows)
    ensures PairwiseDisjoint(Assign(rows, added)) <==>
              forall i :: 0 <= i < |rows| && rows[i].validFrom >= added.validFrom ==> !Overlap(rows[i], added)
  {
    var after := Assign(rows, added);
    var n := |rows|;
    forall i, j | 0 <= i < j < n
      ensures !Overlap(after[i], after[j])
    {
      assert !Overlap(rows[i], rows[j]);
    }
    forall i | 0 <= i < n
      ensures Overlap(after[i], after[n]) <==> rows[i].validFrom >= added.validFrom && Overlap(rows[i], added)
    {
    }
    if PairwiseDisjoint(after) {
      forall i | 0 <= i < n && rows[i].validFrom >= added.validFrom
        ensures !Overlap(rows[i], added)
      {
        assert !Overlap(after[i], after[n]);
      }
    }
  }

  // The rows of one employee after a series of assignments.
  function History(series: seq<Assignment>): seq<Assignment> {
    if series == [] then [] else Assign(History(series[..|series| - 1]), series[|series| - 1])
  }

  lemma {:induction false} HistoryStarts(series: seq<Assignment>)
    ensures |History(series)| == |series|
    ensures forall i :: 0 <= i < |series| ==> History(series)[i].validFrom == series[i].validFrom
  {
    if series != [] {
      HistoryStarts(series[..|series| - 1]);
    }
  }

  // Assigning in the order of the starts keeps an employee's intervals disjoint.
  lemma {:induction false} IncreasingStartsStayDisjoint(series: seq<Assignment>)
    requires AllDated(series)
    requires forall i, j :: 0 <= i < j < |series| ==> series[i].validFrom < series[j].validFrom
    ensures AllDated(History(series)) && PairwiseDisjoint(History(series))
  {
    if series != [] {
      var n := |series| - 1;
      IncreasingStartsStayDisjoint(series[..n]);
      HistoryStarts(series[..n]);
      AssignKeepsDates(History(series[..n]), series[n]);
      DisjointExactly(History(series[..n]), series[n]);
    }
  }
}
