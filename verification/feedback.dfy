/** The Remarks tab: how often each remark occurs in the cohort, and one student's remarks,
    newest first. */
module Feedback {
  import opened Seqs
  import opened Tables

  /** `rows['Remark']`, in row order. */
  function RemarkTexts(rows: seq<Record<Remark>>): (r: seq<string>)
    ensures |r| == |rows|
    ensures forall i :: 0 <= i < |rows| ==> r[i] == rows[i].fields.remark
  {
    seq(|rows|, i requires 0 <= i < |rows| => rows[i].fields.remark)
  }

  /** The number of rows carrying the remark. */
  function Occurrences(rows: seq<Record<Remark>>, v: string): nat
  {
    Count(rows, (x: Record<Remark>) => x.fields.remark == v)
  }

  /** Counting the rows with a remark gives its multiplicity in the remark column. */
  lemma {:induction false} OccurrencesAreMultiplicity(rows: seq<Record<Remark>>, v: string)
    ensures Occurrences(rows, v) == multiset(RemarkTexts(rows))[v]
  {
    if rows != [] {
      var front := rows[..|rows| - 1];
      OccurrencesAreMultiplicity(front, v);
      assert RemarkTexts(rows) == RemarkTexts(front) + [rows[|rows| - 1].fields.remark];
    }
  }

  /** The remarks occurring in some row. */
  function RemarkSet(rows: seq<Record<Remark>>): (r: set<string>)
    ensures forall v :: v in r <==> exists x :: x in rows && x.fields.remark == v
  {
    set x | x in rows :: x.fields.remark
  }

  lemma OccurringRemarks(rows: seq<Record<Remark>>)
    ensures forall v :: v in RemarkSet(rows) ==> Occurrences(rows, v) == multiset(RemarkTexts(rows))[v] > 0
  {
    forall v | v in RemarkSet(rows)
      ensures Occurrences(rows, v) == multiset(RemarkTexts(rows))[v] > 0
    {
      var x :| x in rows && x.fields.remark == v;
      var i :| 0 <= i < |rows| && rows[i] == x;
      assert RemarkTexts(rows)[i] == v;
      OccurrencesAreMultiplicity(rows, v);
    }
  }

  /** Line 386, `value_counts()`: each remark of the cohort's rows with the number of rows
      carrying it, which is its multiplicity in the remark column; so the counts add up to the
      number of rows. */
  function RemarkFrequency(rows: seq<Record<Remark>>): (freq: map<string, nat>)
    ensures forall v :: v in freq <==> exists x :: x in rows && x.fields.remark == v
    ensures forall v :: v in freq ==> freq[v] > 0 && freq[v] == multiset(RemarkTexts(rows))[v]
    ensures forall v :: v !in freq ==> multiset(RemarkTexts(rows))[v] == 0
  {
    OccurringRemarks(rows);
    map v | v in RemarkSet(rows) :: Occurrences(rows, v)
  }

  function IsDated(x: Record<Remark>): bool
  {
    x.fields.date.Some?
  }

  function IsUndated(x: Record<Remark>): bool
  {
    x.fields.date.None?
  }

  /** Sorting key for newest first. */
  function NewestFirst(x: Record<Remark>): real
  {
    match x.fields.date
    case None => 0.0
    case Some(d) => -DateKey(d)
  }

  /** Line 406, `sort_values('Date', ascending=False)` of one student's remarks: the same rows,
      the dated ones first from newest to oldest, then the undated ones (NaT) in table order.
      The order among remarks of the same date is left open. */
  function StudentRemarks(remarks: seq<Record<Remark>>, id: StudentId): (r: seq<Record<Remark>>)
    ensures multiset(r) == multiset(ForStudent(remarks, id))
    ensures forall i, j :: 0 <= i < j < |r| && r[j].fields.date.Some? ==> r[i].fields.date.Some?
    ensures forall i, j :: 0 <= i < j < |r| && r[j].fields.date.Some? ==>
      DateKey(r[j].fields.date.value) <= DateKey(r[i].fields.date.value)
    ensures var undated := Where(ForStudent(remarks, id), IsUndated);
      |undated| <= |r| && r[|r| - |undated|..] == undated
  {
    var rows := ForStudent(remarks, id);
    NewestFirstParts(rows);
    SortBy(Where(rows, IsDated), NewestFirst) + Where(rows, IsUndated)
  }

  lemma NewestFirstParts(rows: seq<Record<Remark>>)
    ensures var undated := Where(rows, IsUndated);
      var r := SortBy(Where(rows, IsDated), NewestFirst) + undated;
      && multiset(r) == multiset(rows)
      && (forall i, j :: 0 <= i < j < |r| && r[j].fields.date.Some? ==> r[i].fields.date.Some?)
      && (forall i, j :: 0 <= i < j < |r| && r[j].fields.date.Some? ==>
            DateKey(r[j].fields.date.value) <= DateKey(r[i].fields.date.value))
      && r[|r| - |undated|..] == undated
  {
    var dated, undated := Where(rows, IsDated), Where(rows, IsUndated);
    var sorted := SortBy(dated, NewestFirst);
    WherePartition(rows, IsDated, IsUndated);
    forall x | x in sorted
      ensures IsDated(x)
    {
      assert x in multiset(dated);
    }
    DatedFirst(sorted, undated);
    var r := sorted + undated;
    assert r[|r| - |undated|..] == undated;
  }

  lemma DatedFirst(sorted: seq<Record<Remark>>, undated: seq<Record<Remark>>)
    requires forall x :: x in sorted ==> IsDated(x)
    requires forall x :: x in undated ==> IsUndated(x)
    requires SortedBy(sorted, NewestFirst)
    ensures var r := sorted + undated;
      && (forall i, j :: 0 <= i < j < |r| && r[j].fields.date.Some? ==> r[i].fields.date.Some?)
      && (forall i, j :: 0 <= i < j < |r| && r[j].fields.date.Some? ==>
            DateKey(r[j].fields.date.value) <= DateKey(r[i].fields.date.value))
  {
    var r := sorted + undated;
    forall k | |sorted| <= k < |r|
      ensures IsUndated(r[k])
    {
      assert r[k] == undated[k - |sorted|];
    }
    forall i, j | 0 <= i < j < |r| && r[j].fields.date.Some?
      ensures r[i].fields.date.Some?
      ensures DateKey(r[j].fields.date.value) <= DateKey(r[i].fields.date.value)
    {
      assert r[i] == sorted[i] && r[j] == sorted[j];
      assert sorted[i] in sorted && sorted[j] in sorted;
      assert NewestFirst(sorted[i]) <= NewestFirst(sorted[j]);
    }
  }

  /** With well-formed dates no remark is listed before an earlier-dated one. */
  lemma NewestFirstInCalendarOrder(remarks: seq<Record<Remark>>, id: StudentId)
    requires forall x :: x in remarks && x.fields.date.Some? ==> WellFormed(x.fields.date.value)
    ensures var r := StudentRemarks(remarks, id);
      forall i, j :: 0 <= i < j < |r| && r[j].fields.date.Some? ==>
        !Before(r[i].fields.date.value, r[j].fields.date.value)
  {
    var r := StudentRemarks(remarks, id);
    forall i, j | 0 <= i < j < |r| && r[j].fields.date.Some?
      ensures !Before(r[i].fields.date.value, r[j].fields.date.value)
    {
      assert r[i] in multiset(r) && r[j] in multiset(r);
      DateKeyOrders(r[i].fields.date.value, r[j].fields.date.value);
    }
  }
}
