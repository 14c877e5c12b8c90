/** The Assignments tab: completion per subject, the upcoming deadlines, and one student's
    submitted and outstanding assignments. */
module Coursework {
  import opened Seqs
  import opened Tables

  function IsSubmitted(x: Record<Assignment>): bool
  {
    x.fields.submitted
  }

  function IsOutstanding(x: Record<Assignment>): bool
  {
    !x.fields.submitted
  }

  datatype SubmissionCounts = SubmissionCounts(submitted: nat, notSubmitted: nat)

  /** Lines 340-345: one student's assignment rows; None where the student has none (the
      "No assignment data" warning).  Submitted are the rows marked submitted, not submitted the
      rest, which are exactly the rows not marked submitted. */
  function StudentSubmissions(assignments: seq<Record<Assignment>>, id: StudentId): (r: Option<SubmissionCounts>)
    ensures r.None? <==> forall x :: x in assignments ==> x.id != id
    ensures r.Some? ==> r.value.submitted == Count(ForStudent(assignments, id), IsSubmitted)
    ensures r.Some? ==> r.value.notSubmitted == Count(ForStudent(assignments, id), IsOutstanding)
    ensures r.Some? ==> r.value.submitted + r.value.notSubmitted == |ForStudent(assignments, id)|
  {
    var rows := ForStudent(assignments, id);
    if rows == [] then
      None
    else
      var submitted := Count(rows, IsSubmitted);
      CountComplement(rows, IsSubmitted, IsOutstanding);
      Some(SubmissionCounts(submitted, |rows| - submitted))
  }

  /** Line 361: the student's submitted rows, whose marks the histogram shows. */
  function SubmittedRows(rows: seq<Record<Assignment>>): (r: seq<Record<Assignment>>)
    ensures forall x :: x in r <==> x in rows && x.fields.submitted
    ensures forall x: Record<Assignment> :: x.fields.submitted ==> multiset(r)[x] == multiset(rows)[x]
    ensures Subsequence(r, rows)
  {
    Where(rows, IsSubmitted)
  }

  /** The marks histogram covers exactly as many assignments as the pie counts as submitted. */
  lemma HistogramMatchesPie(assignments: seq<Record<Assignment>>, id: StudentId)
    requires StudentSubmissions(assignments, id).Some?
    ensures |SubmittedRows(ForStudent(assignments, id))| == StudentSubmissions(assignments, id).value.submitted
  {
    CountIsWhereLength(ForStudent(assignments, id), IsSubmitted);
  }

  predicate InSubject(x: Record<Assignment>, subject: string)
  {
    x.fields.subject == subject
  }

  /** The rows of one subject, in row order. */
  function SubjectRows(rows: seq<Record<Assignment>>, subject: string): (r: seq<Record<Assignment>>)
    ensures forall x :: x in r <==> x in rows && InSubject(x, subject)
  {
    Where(rows, (x: Record<Assignment>) => InSubject(x, subject))
  }

  /** The subjects some row belongs to. */
  function Subjects(rows: seq<Record<Assignment>>): (r: set<string>)
    ensures forall k :: k in r <==> exists x :: x in rows && InSubject(x, k)
  {
    set x | x in rows :: x.fields.subject
  }

  /** `groupby('Subject').size()` of the submitted rows, for one subject. */
  function SubmittedIn(rows: seq<Record<Assignment>>, subject: string): nat
  {
    Count(SubjectRows(rows, subject), IsSubmitted)
  }

  /** `groupby('Subject').size()` of all rows, for one subject. */
  function TotalIn(rows: seq<Record<Assignment>>, subject: string): nat
  {
    |SubjectRows(rows, subject)|
  }

  lemma SubjectsHaveRows(rows: seq<Record<Assignment>>)
    ensures forall k :: k in Subjects(rows) ==> 0 < TotalIn(rows, k) && SubmittedIn(rows, k) <= TotalIn(rows, k)
  {
    forall k | k in Subjects(rows)
      ensures 0 < TotalIn(rows, k) && SubmittedIn(rows, k) <= TotalIn(rows, k)
    {
      var x :| x in rows && InSubject(x, k);
      assert x in SubjectRows(rows, k);
    }
  }

  /** Lines 302-304: one entry per subject with an assignment of the cohort.  Dividing the
      submitted counts by the totals aligns the two on subject, so a subject without any
      submission has no numerator and gets NaN (None); every other subject gets
      100 * submitted / total. */
  function CompletionRates(rows: seq<Record<Assignment>>): (rates: map<string, Option<real>>)
    ensures forall k :: k in rates <==> exists x :: x in rows && InSubject(x, k)
    ensures forall k :: k in rates ==> (rates[k].None? <==> SubmittedIn(rows, k) == 0)
    ensures forall k :: k in rates && rates[k].Some? ==>
      0 < TotalIn(rows, k) && SubmittedIn(rows, k) <= TotalIn(rows, k)
      && rates[k].value == 100.0 * Fraction(SubmittedIn(rows, k), TotalIn(rows, k))
  {
    SubjectsHaveRows(rows);
    map k | k in Subjects(rows) ::
      if SubmittedIn(rows, k) == 0 then None
      else Some(100.0 * Fraction(SubmittedIn(rows, k), TotalIn(rows, k)))
  }

  /** A completion rate shown is a percentage in (0, 100], and exactly 100 when every
      assignment of the subject was submitted. */
  lemma CompletionRateBounds(rows: seq<Record<Assignment>>, k: string)
    requires k in CompletionRates(rows) && CompletionRates(rows)[k].Some?
    ensures 0.0 < CompletionRates(rows)[k].value <= 100.0
    ensures CompletionRates(rows)[k].value == 100.0 <==> SubmittedIn(rows, k) == TotalIn(rows, k)
  {
    var s, t := SubmittedIn(rows, k), TotalIn(rows, k);
    assert CompletionRates(rows)[k].value == 100.0 * Fraction(s, t);
  }

  /** The current time (`datetime.now()`): a date and the microseconds elapsed since its
      midnight. */
  datatype Instant = Instant(date: Date, micros: nat)

  /** `Deadline >= now` for a deadline parsed from a date (midnight); a missing deadline (NaT)
      compares false. */
  predicate Upcoming(x: Record<Assignment>, now: Instant)
  {
    match x.fields.deadline
    case None => false
    case Some(d) => Before(now.date, d) || (d == now.date && now.micros == 0)
  }

  function DeadlineKey(x: Record<Assignment>): real
  {
    match x.fields.deadline
    case None => 0.0
    case Some(d) => DateKey(d)
  }

  /** Line 319: the rows whose deadline is still to come, in row order. */
  function UpcomingRows(rows: seq<Record<Assignment>>, now: Instant): (r: seq<Record<Assignment>>)
    ensures forall x :: x in r <==> x in rows && Upcoming(x, now)
    ensures forall x :: Upcoming(x, now) ==> multiset(r)[x] == multiset(rows)[x]
    ensures Subsequence(r, rows)
  {
    Where(rows, (x: Record<Assignment>) => Upcoming(x, now))
  }

  /** Lines 319-324: the upcoming rows, earliest deadline first, at most 10, each shown at
      most as often as it is upcoming.  Every upcoming row left out has a deadline no earlier
      than every row shown; which of several rows with the same deadline is shown is left open. */
  function UpcomingDeadlines(rows: seq<Record<Assignment>>, now: Instant): (r: seq<Record<Assignment>>)
    ensures |r| == if |UpcomingRows(rows, now)| < 10 then |UpcomingRows(rows, now)| else 10
    ensures multiset(r) <= multiset(UpcomingRows(rows, now))
    ensures forall x :: x in r ==> x in rows && Upcoming(x, now)
    ensures forall i, j :: 0 <= i < j < |r| ==> DeadlineKey(r[i]) <= DeadlineKey(r[j])
    ensures forall x, y :: x in multiset(UpcomingRows(rows, now)) - multiset(r) && y in r ==>
      DeadlineKey(y) <= DeadlineKey(x)
  {
    UpcomingCount(rows, now);
    UpcomingShown(rows, now);
    UpcomingSorted(rows, now);
    UpcomingEarliest(rows, now);
    Rank(UpcomingRows(rows, now), DeadlineKey, 10)
  }

  lemma UpcomingCount(rows: seq<Record<Assignment>>, now: Instant)
    ensures var n := |UpcomingRows(rows, now)|;
      |Rank(UpcomingRows(rows, now), DeadlineKey, 10)| == if n < 10 then n else 10
  {
  }

  lemma UpcomingShown(rows: seq<Record<Assignment>>, now: Instant)
    ensures forall x :: x in Rank(UpcomingRows(rows, now), DeadlineKey, 10) ==> x in rows && Upcoming(x, now)
  {
    var r := Rank(UpcomingRows(rows, now), DeadlineKey, 10);
    forall x | x in r
      ensures x in rows && Upcoming(x, now)
    {
      assert x in multiset(r);
      assert x in UpcomingRows(rows, now);
    }
  }

  lemma UpcomingSorted(rows: seq<Record<Assignment>>, now: Instant)
    ensures var r := Rank(UpcomingRows(rows, now), DeadlineKey, 10);
      forall i, j :: 0 <= i < j < |r| ==> DeadlineKey(r[i]) <= DeadlineKey(r[j])
  {
  }

  lemma UpcomingEarliest(rows: seq<Record<Assignment>>, now: Instant)
    ensures var r := Rank(UpcomingRows(rows, now), DeadlineKey, 10);
      forall x, y :: x in multiset(UpcomingRows(rows, now)) - multiset(r) && y in r ==>
        DeadlineKey(y) <= DeadlineKey(x)
  {
  }

  /** With well-formed deadlines the list is in calendar order. */
  lemma UpcomingInCalendarOrder(rows: seq<Record<Assignment>>, now: Instant)
    requires forall x :: x in rows && x.fields.deadline.Some? ==> WellFormed(x.fields.deadline.value)
    ensures var r := UpcomingDeadlines(rows, now);
      forall i, j :: 0 <= i < j < |r| ==>
        r[i].fields.deadline.Some? && r[j].fields.deadline.Some?
        && !Before(r[j].fields.deadline.value, r[i].fields.deadline.value)
  {
    var r := UpcomingDeadlines(rows, now);
    forall x | x in r
      ensures x.fields.deadline.Some? && WellFormed(x.fields.deadline.value)
    {
      assert Upcoming(x, now);
    }
    CalendarOrder(r);
  }

  /** Rows with well-formed deadlines, in `DeadlineKey` order, are in calendar order. */
  lemma CalendarOrder(r: seq<Record<Assignment>>)
    requires forall x :: x in r ==> x.fields.deadline.Some? && WellFormed(x.fields.deadline.value)
    requires forall i, j :: 0 <= i < j < |r| ==> DeadlineKey(r[i]) <= DeadlineKey(r[j])
    ensures forall i, j :: 0 <= i < j < |r| ==>
      r[i].fields.deadline.Some? && r[j].fields.deadline.Some?
      && !Before(r[j].fields.deadline.value, r[i].fields.deadline.value)
  {
    forall i, j | 0 <= i < j < |r|
      ensures r[i].fields.deadline.Some? && r[j].fields.deadline.Some?
      ensures !Before(r[j].fields.deadline.value, r[i].fields.deadline.value)
    {
      assert r[i] in r && r[j] in r;
      DateKeyOrders(r[j].fields.deadline.value, r[i].fields.deadline.value);
    }
  }

  /** Every upcoming row shown is an assignment of a cohort student. */
  lemma UpcomingBelongsToCohort(assignments: seq<Record<Assignment>>, cohort: seq<Student>, now: Instant)
    ensures forall x :: x in UpcomingDeadlines(CohortRows(assignments, cohort), now) ==>
      x in assignments && InCohort(cohort, x.id) && Upcoming(x, now)
  {
  }
}
