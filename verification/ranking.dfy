/** The "Top Scholars" and "Students Needing Support" tables of the Summary tab. */
module Ranking {
  import opened Seqs
  import opened Tables

  function AverageScore(s: Student): real
  {
    s.avgScore
  }

  function NegatedScore(s: Student): real
  {
    -s.avgScore
  }

  /** Line 109, `sort_values('Average Score', ascending=False).head(5)`: five cohort rows (fewer
      if the cohort is smaller) in non-increasing score order, scoring at least as high as every
      cohort row left out.  Which of several tied rows is shown is left open. */
  function TopPerformers(cohort: seq<Student>): (r: seq<Student>)
    ensures |r| == if |cohort| < 5 then |cohort| else 5
    ensures forall i, j :: 0 <= i < j < |r| ==> r[i].avgScore >= r[j].avgScore
    ensures multiset(r) <= multiset(cohort)
    ensures forall x, y :: x in multiset(cohort) - multiset(r) && y in r ==> x.avgScore <= y.avgScore
  {
    Rank(cohort, NegatedScore, 5)
  }

  /** Line 119, `sort_values('Average Score').head(5)`: the same with the lowest scores, in
      non-decreasing order. */
  function BottomPerformers(cohort: seq<Student>): (r: seq<Student>)
    ensures |r| == if |cohort| < 5 then |cohort| else 5
    ensures forall i, j :: 0 <= i < j < |r| ==> r[i].avgScore <= r[j].avgScore
    ensures multiset(r) <= multiset(cohort)
    ensures forall x, y :: x in multiset(cohort) - multiset(r) && y in r ==> x.avgScore >= y.avgScore
  {
    Rank(cohort, AverageScore, 5)
  }

  ghost predicate DistinctScores(cohort: seq<Student>)
  {
    forall i, j :: 0 <= i < j < |cohort| ==> cohort[i].avgScore != cohort[j].avgScore
  }

  /** A sub-multiset has no more elements than the multiset containing it. */
  lemma SubMultisetSize<T>(a: multiset<T>, b: multiset<T>)
    requires a <= b
    ensures |a| <= |b|
  {
    assert b == a + (b - a);
  }

  lemma SameScoreSameRow(cohort: seq<Student>, x: Student, y: Student)
    requires DistinctScores(cohort) && x in cohort && y in cohort && x.avgScore == y.avgScore
    ensures x == y
  {
    var i :| 0 <= i < |cohort| && cohort[i] == x;
    var j :| 0 <= j < |cohort| && cohort[j] == y;
    assert i == j;
  }

  /** A cohort row missing from a sub-multiset `r` of the cohort is among the rows left out,
      and `r` is then shorter than the cohort. */
  lemma LeftOut(cohort: seq<Student>, r: seq<Student>, x: Student)
    requires multiset(r) <= multiset(cohort) && x in cohort && x !in r
    ensures x in multiset(cohort) - multiset(r)
    ensures |r| < |cohort|
  {
    var with := multiset(r) + multiset{x};
    assert with <= multiset(cohort);
    SubMultisetSize(with, multiset(cohort));
  }

  /** Three pairwise disjoint parts of the cohort's multiset cannot hold more rows than it. */
  lemma DisjointParts(c: multiset<Student>, a: multiset<Student>, b: multiset<Student>, x: Student)
    requires a <= c && b <= c && x in c && x !in a && x !in b
    requires forall e :: e in a ==> e !in b
    ensures |a| + |b| + 1 <= |c|
  {
    var all := a + b + multiset{x};
    forall e
      ensures all[e] <= c[e]
    {
      if e in a {
        assert e !in b;
      }
    }
    assert all <= c;
    SubMultisetSize(all, c);
  }

  /** A cohort row outside the top list scores strictly below every row in it (distinct scores). */
  lemma BelowTop(cohort: seq<Student>, x: Student)
    requires DistinctScores(cohort) && x in cohort && x !in TopPerformers(cohort)
    ensures forall y :: y in TopPerformers(cohort) ==> x.avgScore < y.avgScore
  {
    var top := TopPerformers(cohort);
    LeftOut(cohort, top, x);
    forall y | y in top
      ensures x.avgScore < y.avgScore
    {
      assert y in multiset(top);
      if x.avgScore == y.avgScore {
        SameScoreSameRow(cohort, x, y);
      }
    }
  }

  /** A cohort row outside the bottom list scores strictly above every row in it (distinct scores). */
  lemma AboveBottom(cohort: seq<Student>, x: Student)
    requires DistinctScores(cohort) && x in cohort && x !in BottomPerformers(cohort)
    ensures forall y :: y in BottomPerformers(cohort) ==> y.avgScore < x.avgScore
  {
    var bottom := BottomPerformers(cohort);
    LeftOut(cohort, bottom, x);
    forall y | y in bottom
      ensures y.avgScore < x.avgScore
    {
      assert y in multiset(bottom);
      if x.avgScore == y.avgScore {
        SameScoreSameRow(cohort, x, y);
      }
    }
  }

  /** A row outside two sub-multisets of the cohort, scoring strictly below every row of the
      first and strictly above every row of the second, leaves room for both and itself. */
  lemma CoverCount(cohort: seq<Student>, top: seq<Student>, bottom: seq<Student>, x: Student)
    requires multiset(top) <= multiset(cohort) && multiset(bottom) <= multiset(cohort)
    requires x in cohort && x !in top && x !in bottom
    requires forall y :: y in top ==> x.avgScore < y.avgScore
    requires forall y :: y in bottom ==> y.avgScore < x.avgScore
    ensures |top| + |bottom| + 1 <= |cohort|
  {
    forall e | e in multiset(top)
      ensures e !in multiset(bottom)
    {
      assert e in top;
    }
    DisjointParts(multiset(cohort), multiset(top), multiset(bottom), x);
  }

  /** With distinct scores and at most ten students, every student is in the top list or in
      the bottom list. */
  lemma SmallCohortIsCovered(cohort: seq<Student>, x: Student)
    requires |cohort| <= 10 && DistinctScores(cohort) && x in cohort
    ensures x in TopPerformers(cohort) || x in BottomPerformers(cohort)
  {
    var top, bottom := TopPerformers(cohort), BottomPerformers(cohort);
    if x !in top && x !in bottom {
      BelowTop(cohort, x);
      AboveBottom(cohort, x);
      CoverCount(cohort, top, bottom, x);
    }
  }
}
