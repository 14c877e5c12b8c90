/** The Attendance tab: one student's present and absent days, and the cohort's monthly
    attendance rate. */
module Presence {
  import opened Seqs
  import opened Tables

  function IsPresent(x: Record<Attendance>): bool
  {
    x.fields.present
  }

  function IsAbsent(x: Record<Attendance>): bool
  {
    !x.fields.present
  }

  datatype DayCounts = DayCounts(present: nat, absent: nat)

  /** Lines 273-278: one student's attendance rows; None where the student has none (the
      "No attendance data" warning).  Present days are the rows marked present, absent days
      the rest, which are exactly the rows marked absent. */
  function StudentAttendance(attendance: seq<Record<Attendance>>, id: StudentId): (r: Option<DayCounts>)
    ensures r.None? <==> forall x :: x in attendance ==> x.id != id
    ensures r.Some? ==> r.value.present == Count(ForStudent(attendance, id), IsPresent)
    ensures r.Some? ==> r.value.absent == Count(ForStudent(attendance, id), IsAbsent)
    ensures r.Some? ==> r.value.present + r.value.absent == |ForStudent(attendance, id)|
  {
    var rows := ForStudent(attendance, id);
    if rows == [] then
      None
    else
      var present := Count(rows, IsPresent);
      CountComplement(rows, IsPresent, IsAbsent);
      Some(DayCounts(present, |rows| - present))
  }

  /** The month a row falls in; rows without a date have none and drop out of the grouping. */
  predicate InMonth(x: Record<Attendance>, m: Month)
  {
    x.fields.date.Some? && MonthOf(x.fields.date.value) == m
  }

  /** The rows of one month of `groupby(['Month', ...])`, in row order. */
  function MonthRows(rows: seq<Record<Attendance>>, m: Month): (r: seq<Record<Attendance>>)
    ensures forall x :: x in r <==> x in rows && InMonth(x, m)
  {
    Where(rows, (x: Record<Attendance>) => InMonth(x, m))
  }

  /** The months in which some row is dated. */
  function Months(rows: seq<Record<Attendance>>): (r: set<Month>)
    ensures forall m :: m in r <==> exists x :: x in rows && InMonth(x, m)
  {
    set x | x in rows && x.fields.date.Some? :: MonthOf(x.fields.date.value)
  }

  /** Present days of one month (the month's `True` column after `unstack().fillna(0)`). */
  function PresentIn(rows: seq<Record<Attendance>>, m: Month): nat
  {
    Count(MonthRows(rows, m), IsPresent)
  }

  /** Absent days of one month (the month's `False` column). */
  function AbsentIn(rows: seq<Record<Attendance>>, m: Month): nat
  {
    Count(MonthRows(rows, m), IsAbsent)
  }

  /** Every dated row of a month is counted once, as present or as absent. */
  lemma MonthCount(rows: seq<Record<Attendance>>, m: Month)
    requires m in Months(rows)
    ensures PresentIn(rows, m) + AbsentIn(rows, m) == |MonthRows(rows, m)| > 0
  {
    var x :| x in rows && InMonth(x, m);
    assert x in MonthRows(rows, m);
    CountComplement(MonthRows(rows, m), IsPresent, IsAbsent);
  }

  /** The share of a month's rows marked present: the month's `True` column over the sum of
      its `True` and `False` columns. */
  function MonthRate(rows: seq<Record<Attendance>>, m: Month): (r: real)
    requires m in Months(rows)
    ensures PresentIn(rows, m) + AbsentIn(rows, m) == |MonthRows(rows, m)| > 0
    ensures r == Fraction(PresentIn(rows, m), PresentIn(rows, m) + AbsentIn(rows, m))
  {
    MonthCount(rows, m);
    Fraction(PresentIn(rows, m), PresentIn(rows, m) + AbsentIn(rows, m))
  }

  /** Lines 252-254, as intended: one entry per month in which some row of the cohort is dated,
      the share of that month's rows marked present. */
  function MonthlyAttendance(rows: seq<Record<Attendance>>): (trend: map<Month, real>)
    ensures forall m :: m in trend <==> exists x :: x in rows && InMonth(x, m)
    ensures forall m :: m in trend ==>
      PresentIn(rows, m) + AbsentIn(rows, m) == |MonthRows(rows, m)| > 0
      && trend[m] == Fraction(PresentIn(rows, m), PresentIn(rows, m) + AbsentIn(rows, m))
    ensures forall m :: m in trend ==> 0.0 <= trend[m] <= 1.0
  {
    map m | m in Months(rows) :: MonthRate(rows, m)
  }

  /** A missing column of the unstacked month-by-present table: `KeyError(True)` or
      `KeyError(False)`. */
  datatype KeyError = KeyError(column: bool)

  /** Lines 251-254 as written.  An empty merge skips the trend (nothing is drawn, nothing
      raised), shown here as the empty trend.  Otherwise, after `unstack()` the table has a
      column `True` only if some dated row is marked present and a column `False` only if
      some dated row is marked absent; the rate reads `True` first, then `False`, and a
      missing one raises KeyError. */
  function MonthlyAttendanceAsWritten(rows: seq<Record<Attendance>>): (r: Result<map<Month, real>, KeyError>)
    ensures rows == [] ==> r == Ok(map[])
    ensures r == Err(KeyError(true)) <==>
      rows != [] && forall x :: x in rows && x.fields.date.Some? ==> !x.fields.present
    ensures r == Err(KeyError(false)) <==>
      (exists x :: x in rows && x.fields.date.Some? && x.fields.present)
      && (forall x :: x in rows && x.fields.date.Some? ==> x.fields.present)
    ensures r.Ok? ==> r.value == MonthlyAttendance(rows)
  {
    if rows == [] then
      Ok(map[])
    else if !exists x :: x in rows && x.fields.date.Some? && x.fields.present then
      Err(KeyError(true))
    else if !exists x :: x in rows && x.fields.date.Some? && !x.fields.present then
      Err(KeyError(false))
    else
      Ok(MonthlyAttendance(rows))
  }

  /** A cohort whose only attendance row is one present day: the code raises KeyError(False),
      while the intended trend shows that month at a rate of 1. */
  lemma PerfectAttendanceRaises(id: StudentId, d: Date)
    ensures var rows := [Record(id, Attendance(Some(d), true))];
      && MonthlyAttendanceAsWritten(rows) == Err(KeyError(false))
      && MonthlyAttendance(rows) == map[MonthOf(d) := 1.0]
  {
    var rows := [Record(id, Attendance(Some(d), true))];
    var trend := MonthlyAttendance(rows);
    var m := MonthOf(d);
    assert rows[0] in rows && InMonth(rows[0], m);
    assert MonthRows(rows, m) == rows;
    assert PresentIn(rows, m) == 1 && AbsentIn(rows, m) == 0;
    assert trend.Keys == {m};
  }
}
