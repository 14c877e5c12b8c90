/** The six tables the dashboard loads, as rows, and the two ways it selects detail rows:
    one student's rows (`table[table['ID'] == id]`) and the inner join with the cohort's IDs. */
module Tables {
  import opened Seqs

  type StudentId = string

  /** A calendar date as pandas parses it from the CSV files. */
  datatype Date = Date(year: int, month: int, day: int)

  /** A row of the summary table, the one the filters act on. */
  datatype Student = Student(
    id: StudentId, name: string, cls: string, section: string, gender: string,
    avgScore: real, attendanceRate: real, submissionRate: real)

  /** A row of a detail table: the student ID plus the table's own columns. */
  datatype Record<T> = Record(id: StudentId, fields: T)

  datatype Score = Score(subject: string, term: string, score: real)

  /** `deadline` is None where the date could not be parsed (pandas' NaT). */
  datatype Assignment = Assignment(
    title: string, subject: string, deadline: Option<Date>, submitted: bool, marks: Option<real>)

  datatype Attendance = Attendance(date: Option<Date>, present: bool)

  datatype Remark = Remark(date: Option<Date>, teacher: string, remark: string)

  /** A calendar month, the value of `strftime('%Y-%m')`. */
  datatype Month = Month(year: int, month: int)

  /** The month of a date, `strftime('%Y-%m')`. */
  function MonthOf(d: Date): Month
  {
    Month(d.year, d.month)
  }

  predicate WellFormed(d: Date)
  {
    1 <= d.month <= 12 && 1 <= d.day <= 31
  }

  /** Calendar order: year first, then month, then day. */
  predicate Before(a: Date, b: Date)
  {
    a.year < b.year || (a.year == b.year && (a.month < b.month || (a.month == b.month && a.day < b.day)))
  }

  /** A number that orders dates as `sort_values('Date')` does. */
  function DateKey(d: Date): real
  {
    ((d.year * 13 + d.month) * 32 + d.day) as real
  }

  /** On well-formed dates the key follows calendar order. */
  lemma DateKeyOrders(a: Date, b: Date)
    requires WellFormed(a) && WellFormed(b)
    ensures DateKey(a) < DateKey(b) <==> Before(a, b)
    ensures DateKey(a) == DateKey(b) <==> a == b
  {
  }

  /** `cohort['ID']`, in row order. */
  function Ids(rows: seq<Student>): (r: seq<StudentId>)
    ensures |r| == |rows|
    ensures forall i :: 0 <= i < |rows| ==> r[i] == rows[i].id
  {
    seq(|rows|, i requires 0 <= i < |rows| => rows[i].id)
  }

  /** `table[table['ID'] == id]`: all of one student's rows, in table order. */
  function ForStudent<T(==, !new)>(table: seq<Record<T>>, id: StudentId): (r: seq<Record<T>>)
    ensures forall x :: x in r <==> x in table && x.id == id
    ensures forall x: Record<T> :: x.id == id ==> multiset(r)[x] == multiset(table)[x]
    ensures Subsequence(r, table)
  {
    Where(table, (x: Record<T>) => x.id == id)
  }

  function Repeat<T>(x: T, n: nat): (r: seq<T>)
    ensures |r| == n
    ensures forall y :: y in r ==> y == x
  {
    if n == 0 then [] else Repeat(x, n - 1) + [x]
  }

  lemma {:induction false} RepeatCount<T>(x: T, n: nat, y: T)
    ensures multiset(Repeat(x, n))[y] == if y == x then n else 0
  {
    if n > 0 {
      RepeatCount(x, n - 1, y);
    }
  }

  /** `pd.merge(table, cohort[['ID']], on='ID', how='inner')`: each detail row once for every
      cohort row carrying its ID, in detail-table order. */
  function Join<T(==, !new)>(table: seq<Record<T>>, ids: seq<StudentId>): (r: seq<Record<T>>)
    ensures forall x: Record<T> {:trigger multiset(r)[x]} :: multiset(r)[x] == multiset(table)[x] * multiset(ids)[x.id]
  {
    if table == [] then []
    else
      var front, x := table[..|table| - 1], table[|table| - 1];
      var j := Join(front, ids);
      assert table == front + [x];
      JoinStep(front, x, ids, j);
      j + Repeat(x, multiset(ids)[x.id])
  }

  lemma JoinStep<T(!new)>(front: seq<Record<T>>, x: Record<T>, ids: seq<StudentId>, j: seq<Record<T>>)
    requires forall y: Record<T> {:trigger multiset(j)[y]} :: multiset(j)[y] == multiset(front)[y] * multiset(ids)[y.id]
    ensures forall y: Record<T> {:trigger multiset(j + Repeat(x, multiset(ids)[x.id]))[y]} :: multiset(j + Repeat(x, multiset(ids)[x.id]))[y]
                                     == multiset(front + [x])[y] * multiset(ids)[y.id]
  {
    forall y: Record<T>
      ensures multiset(j + Repeat(x, multiset(ids)[x.id]))[y] == multiset(front + [x])[y] * multiset(ids)[y.id]
    {
      JoinStepAt(front, x, ids, j, y);
    }
  }

  lemma JoinStepAt<T>(front: seq<Record<T>>, x: Record<T>, ids: seq<StudentId>, j: seq<Record<T>>, y: Record<T>)
    requires multiset(j)[y] == multiset(front)[y] * multiset(ids)[y.id]
    ensures multiset(j + Repeat(x, multiset(ids)[x.id]))[y] == multiset(front + [x])[y] * multiset(ids)[y.id]
  {
    var rep := Repeat(x, multiset(ids)[x.id]);
    RepeatCount(x, multiset(ids)[x.id], y);
    SnocCount(front, x, y);
    MulSucc(multiset(front)[y], multiset(ids)[y.id]);
    assert multiset(j + rep)[y] == multiset(j)[y] + multiset(rep)[y];
  }

  lemma SnocCount<T>(s: seq<T>, x: T, y: T)
    ensures multiset(s + [x])[y] == multiset(s)[y] + (if y == x then 1 else 0)
  {
  }

  lemma MulSucc(a: int, c: int)
    ensures a * c + c == (a + 1) * c
  {
  }

  /** The joined rows are exactly the detail rows whose ID belongs to the cohort. */
  lemma JoinMembers<T(!new)>(table: seq<Record<T>>, ids: seq<StudentId>)
    ensures forall x :: x in Join(table, ids) <==> x in table && x.id in ids
  {
    forall x: Record<T>
      ensures x in Join(table, ids) <==> x in table && x.id in ids
    {
      assert multiset(Join(table, ids))[x] == multiset(table)[x] * multiset(ids)[x.id];
      assert x in table <==> multiset(table)[x] > 0;
      assert x.id in ids <==> multiset(ids)[x.id] > 0;
    }
  }

  /** Some cohort row has the ID. */
  predicate InCohort(cohort: seq<Student>, id: StudentId)
  {
    exists s :: s in cohort && s.id == id
  }

  lemma IdsOfCohort(cohort: seq<Student>)
    ensures forall id :: id in Ids(cohort) <==> InCohort(cohort, id)
  {
    forall id
      ensures id in Ids(cohort) <==> InCohort(cohort, id)
    {
      if id in Ids(cohort) {
        var i :| 0 <= i < |cohort| && Ids(cohort)[i] == id;
        assert cohort[i] in cohort;
      }
      if InCohort(cohort, id) {
        var s :| s in cohort && s.id == id;
        var i :| 0 <= i < |cohort| && cohort[i] == s;
        assert Ids(cohort)[i] == id;
      }
    }
  }

  /** `pd.merge(table, cohort[['ID']], on='ID', how='inner')`: each detail row once per cohort
      row with its ID; the detail rows that appear are exactly those of cohort students. */
  function CohortRows<T(==, !new)>(table: seq<Record<T>>, cohort: seq<Student>): (r: seq<Record<T>>)
    ensures forall x: Record<T> {:trigger multiset(r)[x]} ::
      multiset(r)[x] == multiset(table)[x] * multiset(Ids(cohort))[x.id]
    ensures forall x :: x in r <==> x in table && InCohort(cohort, x.id)
  {
    JoinMembers(table, Ids(cohort));
    IdsOfCohort(cohort);
    Join(table, Ids(cohort))
  }

  /** With unique IDs among the cohort (one summary row per student) the join is a filter:
      the detail rows whose ID belongs to the cohort, each once, in table order. */
  lemma {:induction false} JoinUniqueIsFilter<T(!new)>(table: seq<Record<T>>, ids: seq<StudentId>)
    requires NoDup(ids)
    ensures Join(table, ids) == Where(table, (x: Record<T>) => x.id in ids)
  {
    if table != [] {
      var front, x := table[..|table| - 1], table[|table| - 1];
      JoinUniqueIsFilter(front, ids);
      NoDupCount(ids, x.id);
      if x.id in ids {
        assert Repeat(x, 1) == [x];
      } else {
        assert Repeat(x, 0) == [];
      }
    }
  }

  lemma {:induction false} NoDupCount<T>(s: seq<T>, v: T)
    requires NoDup(s)
    ensures multiset(s)[v] == if v in s then 1 else 0
  {
    if s != [] {
      var front := s[..|s| - 1];
      assert s == front + [s[|s| - 1]];
      NoDupCount(front, v);
    }
  }
}
