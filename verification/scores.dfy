/** The overview metrics over the cohort and the Performance tab's subject and term averages over
    the cohort's score rows.  A mean is a ratio of exact rationals here; None stands for the
    "N/A" shown for an empty cohort. */
module Scores {
  import opened Seqs
  import opened Tables

  /** `rows[column]` for a numeric column, in row order. */
  function Reals<T>(rows: seq<T>, value: T -> real): (r: seq<real>)
    ensures |r| == |rows|
    ensures forall i :: 0 <= i < |rows| ==> r[i] == value(rows[i])
  {
    seq(|rows|, i requires 0 <= i < |rows| => value(rows[i]))
  }

  /** The four overview metrics. */
  datatype Overview = Overview(
    total: nat,
    avgScore: Option<real>,
    avgAttendance: Option<real>,
    avgSubmission: Option<real>)

  /** Lines 91-94: the number of cohort students and, unless the cohort is empty, the means of
      the three summary columns (attendance and submission as rates; the percentage is display). */
  function OverviewOf(cohort: seq<Student>): (o: Overview)
    ensures o.total == |cohort|
    ensures o.avgScore.None? <==> cohort == []
    ensures o.avgAttendance.None? <==> cohort == []
    ensures o.avgSubmission.None? <==> cohort == []
    ensures o.avgScore.Some? ==>
      o.avgScore.value * |cohort| as real == Sum(Reals(cohort, (s: Student) => s.avgScore))
    ensures o.avgAttendance.Some? ==>
      o.avgAttendance.value * |cohort| as real == Sum(Reals(cohort, (s: Student) => s.attendanceRate))
    ensures o.avgSubmission.Some? ==>
      o.avgSubmission.value * |cohort| as real == Sum(Reals(cohort, (s: Student) => s.submissionRate))
  {
    Overview(|cohort|,
             Mean(Reals(cohort, (s: Student) => s.avgScore)),
             Mean(Reals(cohort, (s: Student) => s.attendanceRate)),
             Mean(Reals(cohort, (s: Student) => s.submissionRate)))
  }

  /** Attendance and submission rates that lie in [0, 1] for every student have averages in
      [0, 1]; scores in [lo, hi] have an average in [lo, hi]. */
  lemma OverviewBounds(cohort: seq<Student>, lo: real, hi: real)
    requires cohort != []
    requires forall s :: s in cohort ==> 0.0 <= s.attendanceRate <= 1.0 && 0.0 <= s.submissionRate <= 1.0
    requires forall s :: s in cohort ==> lo <= s.avgScore <= hi
    ensures 0.0 <= OverviewOf(cohort).avgAttendance.value <= 1.0
    ensures 0.0 <= OverviewOf(cohort).avgSubmission.value <= 1.0
    ensures lo <= OverviewOf(cohort).avgScore.value <= hi
  {
    var att := Reals(cohort, (s: Student) => s.attendanceRate);
    var sub := Reals(cohort, (s: Student) => s.submissionRate);
    var sco := Reals(cohort, (s: Student) => s.avgScore);
    assert forall i :: 0 <= i < |cohort| ==> cohort[i] in cohort;
    MeanBounds(att, 0.0, 1.0);
    MeanBounds(sub, 0.0, 1.0);
    MeanBounds(sco, lo, hi);
  }

  /** The keys that occur in `rows`. */
  function KeysOf<T(==), K(!new)>(rows: seq<T>, key: T -> K): (r: set<K>)
    ensures forall k :: k in r <==> exists x :: x in rows && key(x) == k
  {
    set x | x in rows :: key(x)
  }

  /** The rows of one group of `groupby(key)`, in row order. */
  function Group<T(==, !new), K(==)>(rows: seq<T>, key: T -> K, k: K): (r: seq<T>)
    ensures forall x :: x in r <==> x in rows && key(x) == k
  {
    Where(rows, (x: T) => key(x) == k)
  }

  /** The mean of `value` over the rows of group `k`, which has a row. */
  function GroupMean<T(==, !new), K(==)>(rows: seq<T>, key: T -> K, value: T -> real, k: K): (r: real)
    requires exists x :: x in rows && key(x) == k
    ensures Mean(Reals(Group(rows, key, k), value)) == Some(r)
  {
    GroupHasRow(rows, key, k);
    var m := Mean(Reals(Group(rows, key, k), value));
    m.value
  }

  lemma GroupHasRow<T(!new), K>(rows: seq<T>, key: T -> K, k: K)
    requires exists x :: x in rows && key(x) == k
    ensures Group(rows, key, k) != []
  {
    var x :| x in rows && key(x) == k;
    assert x in Group(rows, key, k);
  }

  /** A group mean lies between bounds that hold for every value. */
  lemma GroupMeanBounds<T(!new), K>(rows: seq<T>, key: T -> K, value: T -> real, k: K, lo: real, hi: real)
    requires exists x :: x in rows && key(x) == k
    requires forall x :: x in rows ==> lo <= value(x) <= hi
    ensures lo <= GroupMean(rows, key, value, k) <= hi
  {
    var g := Group(rows, key, k);
    var x :| x in rows && key(x) == k;
    assert x in g;
    assert forall i :: 0 <= i < |g| ==> g[i] in g;
    MeanBounds(Reals(g, value), lo, hi);
  }

  /** `groupby(key)[value].mean()`: one entry per key occurring in `rows`, holding the mean of
      `value` over that key's rows. */
  function GroupMeans<T(==, !new), K(==, !new)>(rows: seq<T>, key: T -> K, value: T -> real): (m: map<K, real>)
    ensures forall k :: k in m <==> exists x :: x in rows && key(x) == k
    ensures forall k :: k in m ==> Mean(Reals(Group(rows, key, k), value)) == Some(m[k])
  {
    map k | k in KeysOf(rows, key) :: GroupMean(rows, key, value, k)
  }

  /** Every group mean lies between bounds that hold for every value. */
  lemma GroupMeansBounds<T(!new), K(!new)>(rows: seq<T>, key: T -> K, value: T -> real, lo: real, hi: real)
    requires forall x :: x in rows ==> lo <= value(x) <= hi
    ensures forall k :: k in GroupMeans(rows, key, value) ==> lo <= GroupMeans(rows, key, value)[k] <= hi
  {
    forall k | k in GroupMeans(rows, key, value)
      ensures lo <= GroupMeans(rows, key, value)[k] <= hi
    {
      GroupMeanBounds(rows, key, value, k, lo, hi);
    }
  }

  function SubjectOf(x: Record<Score>): string
  {
    x.fields.subject
  }

  function SubjectTermOf(x: Record<Score>): (string, string)
  {
    (x.fields.subject, x.fields.term)
  }

  function ScoreOf(x: Record<Score>): real
  {
    x.fields.score
  }

  /** The keys of a grouping of the cohort's score rows are the keys of the score rows of
      cohort students. */
  lemma GroupKeys<K(!new)>(scores: seq<Record<Score>>, cohort: seq<Student>, key: Record<Score> -> K)
    ensures forall k :: k in GroupMeans(CohortRows(scores, cohort), key, ScoreOf) <==>
      exists x :: x in scores && InCohort(cohort, x.id) && key(x) == k
  {
    var rows := CohortRows(scores, cohort);
    assert forall x :: x in rows <==> x in scores && InCohort(cohort, x.id);
  }

  /** Lines 164-166: per subject taken by some cohort student, the mean of that subject's
      cohort score rows. */
  function SubjectMeans(scores: seq<Record<Score>>, cohort: seq<Student>): (m: map<string, real>)
    ensures forall subject :: subject in m <==>
      exists x :: x in scores && InCohort(cohort, x.id) && x.fields.subject == subject
    ensures forall subject :: subject in m ==>
      Mean(Reals(Group(CohortRows(scores, cohort), SubjectOf, subject), ScoreOf)) == Some(m[subject])
  {
    GroupKeys(scores, cohort, SubjectOf);
    GroupMeans(CohortRows(scores, cohort), SubjectOf, ScoreOf)
  }

  /** Line 179: the same per (subject, term) pair. */
  function SubjectTermMeans(scores: seq<Record<Score>>, cohort: seq<Student>): (m: map<(string, string), real>)
    ensures forall k :: k in m <==>
      exists x :: x in scores && InCohort(cohort, x.id) && (x.fields.subject, x.fields.term) == k
    ensures forall k :: k in m ==>
      Mean(Reals(Group(CohortRows(scores, cohort), SubjectTermOf, k), ScoreOf)) == Some(m[k])
  {
    GroupKeys(scores, cohort, SubjectTermOf);
    GroupMeans(CohortRows(scores, cohort), SubjectTermOf, ScoreOf)
  }

  /** A subject has a subject bar exactly when it has a bar for some term. */
  lemma TermsRefineSubjects(scores: seq<Record<Score>>, cohort: seq<Student>)
    ensures forall subject :: subject in SubjectMeans(scores, cohort) <==>
      exists term :: (subject, term) in SubjectTermMeans(scores, cohort)
  {
    var rows := CohortRows(scores, cohort);
    CoarserKeys(rows, SubjectTermOf, SubjectOf, (k: (string, string)) => k.0, ScoreOf);
  }

  /** Grouping by a coarser key (one computed from the finer key) yields exactly the
      projections of the finer keys. */
  lemma CoarserKeys<T(!new), F(!new), C(!new)>(rows: seq<T>, fine: T -> F, coarse: T -> C, project: F -> C, value: T -> real)
    requires forall x :: coarse(x) == project(fine(x))
    ensures forall c :: c in GroupMeans(rows, coarse, value) <==>
      exists f :: f in GroupMeans(rows, fine, value) && project(f) == c
  {
    forall c
      ensures c in GroupMeans(rows, coarse, value) <==>
        exists f :: f in GroupMeans(rows, fine, value) && project(f) == c
    {
      if c in GroupMeans(rows, coarse, value) {
        var x :| x in rows && coarse(x) == c;
        assert fine(x) in GroupMeans(rows, fine, value);
      }
      if exists f :: f in GroupMeans(rows, fine, value) && project(f) == c {
        var f :| f in GroupMeans(rows, fine, value) && project(f) == c;
        var x :| x in rows && fine(x) == f;
        assert coarse(x) == c;
      }
    }
  }

  /** Scores in [lo, hi] (0 to 100 for percentages) give subject and term means in [lo, hi]. */
  lemma SubjectMeansBounds(scores: seq<Record<Score>>, cohort: seq<Student>, lo: real, hi: real)
    requires forall x :: x in scores ==> lo <= x.fields.score <= hi
    ensures forall k :: k in SubjectMeans(scores, cohort) ==> lo <= SubjectMeans(scores, cohort)[k] <= hi
    ensures forall k :: k in SubjectTermMeans(scores, cohort) ==> lo <= SubjectTermMeans(scores, cohort)[k] <= hi
  {
    var rows := CohortRows(scores, cohort);
    GroupMeansBounds(rows, SubjectOf, ScoreOf, lo, hi);
    GroupMeansBounds(rows, SubjectTermOf, ScoreOf, lo, hi);
  }
}
