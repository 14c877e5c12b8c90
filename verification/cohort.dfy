/** The sidebar filters: the class, section and gender selectors (each "All" or a value), the
    option lists of their drop-downs, and the cohort they select from the summary table. */
module Cohort {
  import opened Seqs
  import opened Tables
  import TextOrder

  /** The selector value that admits every row. */
  const ALL := "All"

  /** The summary columns the sidebar filters on. */
  datatype Column = ClassColumn | SectionColumn | GenderColumn

  function ValueAt(s: Student, c: Column): string
  {
    match c
    case ClassColumn => s.cls
    case SectionColumn => s.section
    case GenderColumn => s.gender
  }

  /** `rows[c]`, in row order. */
  function Values(rows: seq<Student>, c: Column): (r: seq<string>)
    ensures |r| == |rows|
    ensures forall i :: 0 <= i < |rows| ==> r[i] == ValueAt(rows[i], c)
  {
    seq(|rows|, i requires 0 <= i < |rows| => ValueAt(rows[i], c))
  }

  /** `rows[rows[c] == v]`: the rows whose column `c` holds exactly `v`, in row order. */
  function Narrow(rows: seq<Student>, c: Column, v: string): (r: seq<Student>)
    ensures forall x :: x in r <==> x in rows && ValueAt(x, c) == v
    ensures forall x :: ValueAt(x, c) == v ==> multiset(r)[x] == multiset(rows)[x]
    ensures Subsequence(r, rows)
  {
    Where(rows, (x: Student) => ValueAt(x, c) == v)
  }

  /** One of the three guarded narrowings: nothing happens while the selector is "All". */
  function Step(rows: seq<Student>, c: Column, selector: string): seq<Student>
  {
    if selector == ALL then rows else Narrow(rows, c, selector)
  }

  datatype Selection = Selection(cls: string, section: string, gender: string)

  predicate Admits(selector: string, value: string)
  {
    selector == ALL || value == selector
  }

  predicate Matches(s: Student, sel: Selection)
  {
    Admits(sel.cls, s.cls) && Admits(sel.section, s.section) && Admits(sel.gender, s.gender)
  }

  /** The cohort: the summary rows that every selector admits, in summary order, each as
      often as it occurs in the summary. */
  function CohortOf(summary: seq<Student>, sel: Selection): (r: seq<Student>)
    ensures forall x :: x in r <==> x in summary && Matches(x, sel)
    ensures forall x :: Matches(x, sel) ==> multiset(r)[x] == multiset(summary)[x]
    ensures Subsequence(r, summary)
  {
    Where(summary, (x: Student) => Matches(x, sel))
  }

  /** With every selector at "All" the cohort is the whole summary table. */
  lemma AllSelectsEverything(summary: seq<Student>)
    ensures CohortOf(summary, Selection(ALL, ALL, ALL)) == summary
  {
    WhereAll(summary, (x: Student) => Matches(x, Selection(ALL, ALL, ALL)));
  }

  lemma StepIsWhere(rows: seq<Student>, c: Column, selector: string)
    ensures Step(rows, c, selector) == Where(rows, (x: Student) => Admits(selector, ValueAt(x, c)))
  {
    if selector == ALL {
      WhereAll(rows, (x: Student) => Admits(selector, ValueAt(x, c)));
    } else {
      WhereSame(rows, (x: Student) => ValueAt(x, c) == selector,
                (x: Student) => Admits(selector, ValueAt(x, c)));
    }
  }

  /** The three successive narrowings select exactly the cohort. */
  lemma {:induction false} StepsMakeCohort(summary: seq<Student>, sel: Selection)
    ensures Step(Step(Step(summary, ClassColumn, sel.cls), SectionColumn, sel.section), GenderColumn, sel.gender)
            == CohortOf(summary, sel)
  {
    var a1 := (x: Student) => Admits(sel.cls, ValueAt(x, ClassColumn));
    var a2 := (x: Student) => Admits(sel.section, ValueAt(x, SectionColumn));
    var a3 := (x: Student) => Admits(sel.gender, ValueAt(x, GenderColumn));
    var a12 := (x: Student) => a1(x) && a2(x);
    var m := (x: Student) => Matches(x, sel);
    var s1 := Step(summary, ClassColumn, sel.cls);
    StepIsWhere(summary, ClassColumn, sel.cls);
    var s2 := Step(s1, SectionColumn, sel.section);
    StepIsWhere(s1, SectionColumn, sel.section);
    WhereWhere(summary, a1, a2, a12);
    StepIsWhere(s2, GenderColumn, sel.gender);
    WhereWhere(summary, a12, a3, m);
  }

  /** `["All"] + sorted(values.unique())`: the options of a filter drop-down. */
  function Options(values: seq<string>): (r: seq<string>)
    ensures |r| >= 1 && r[0] == ALL
    ensures TextOrder.StrictlyIncreasing(r[1..])
    ensures forall v :: v in r[1..] <==> v in values
  {
    [ALL] + TextOrder.SortedDistinct(values)
  }

  /** The values of column `c` are the values some row holds there. */
  lemma ValuesMembers(rows: seq<Student>, c: Column)
    ensures forall v :: v in Values(rows, c) <==> exists s :: s in rows && ValueAt(s, c) == v
  {
    var vs := Values(rows, c);
    forall v
      ensures v in vs <==> exists s :: s in rows && ValueAt(s, c) == v
    {
      if v in vs {
        var i :| 0 <= i < |vs| && vs[i] == v;
        assert rows[i] in rows;
      }
      if exists s :: s in rows && ValueAt(s, c) == v {
        var s :| s in rows && ValueAt(s, c) == v;
        var i :| 0 <= i < |rows| && rows[i] == s;
        assert vs[i] == v;
      }
    }
  }

  /** The class drop-down. */
  function ClassOptions(summary: seq<Student>): (r: seq<string>)
    ensures |r| >= 1 && r[0] == ALL
    ensures TextOrder.StrictlyIncreasing(r[1..])
    ensures forall v :: v in r[1..] <==> exists s :: s in summary && s.cls == v
  {
    ValuesMembers(summary, ClassColumn);
    Options(Values(summary, ClassColumn))
  }

  /** The gender drop-down. */
  function GenderOptions(summary: seq<Student>): (r: seq<string>)
    ensures |r| >= 1 && r[0] == ALL
    ensures TextOrder.StrictlyIncreasing(r[1..])
    ensures forall v :: v in r[1..] <==> exists s :: s in summary && s.gender == v
  {
    ValuesMembers(summary, GenderColumn);
    Options(Values(summary, GenderColumn))
  }

  /** The section drop-down, which depends on the selected class: only "All" while the class
      is "All", else "All" followed by the sorted sections that occur in that class. */
  function SectionOptions(summary: seq<Student>, cls: string): (r: seq<string>)
    ensures |r| >= 1 && r[0] == ALL
    ensures cls == ALL ==> r == [ALL]
    ensures TextOrder.StrictlyIncreasing(r[1..])
    ensures cls != ALL ==>
      forall v :: v in r[1..] <==> exists s :: s in summary && s.cls == cls && s.section == v
  {
    if cls == ALL then [ALL]
    else
      var rows := Narrow(summary, ClassColumn, cls);
      SectionsOfClass(summary, cls);
      Options(Values(rows, SectionColumn))
  }

  lemma SectionsOfClass(summary: seq<Student>, cls: string)
    ensures forall v :: v in Values(Narrow(summary, ClassColumn, cls), SectionColumn)
                    <==> exists s :: s in summary && s.cls == cls && s.section == v
  {
    ValuesMembers(Narrow(summary, ClassColumn, cls), SectionColumn);
  }

  /** Behind "All" the section list is THE sorted, duplicate-free list of the class's sections:
      any strictly increasing list of exactly those sections equals it. */
  lemma SectionOptionsAreCanonical(summary: seq<Student>, cls: string, other: seq<string>)
    requires cls != ALL
    requires TextOrder.StrictlyIncreasing(other)
    requires forall v :: v in other <==> exists s :: s in summary && s.cls == cls && s.section == v
    ensures SectionOptions(summary, cls) == [ALL] + other
  {
    var r := SectionOptions(summary, cls);
    TextOrder.IncreasingIsUnique(r[1..], other);
    assert r == [r[0]] + r[1..];
  }

  /** The index a drop-down opens at: where the stored choice stands among the options, or 0
      (the leading "All") when the stored choice is no longer offered. */
  function PreselectIndex(options: seq<string>, stored: string): (i: nat)
    requires options != []
    ensures i < |options|
    ensures stored in options ==> options[i] == stored
    ensures stored !in options ==> i == 0
  {
    match IndexOf(options, stored)
    case Some(k) => k
    case None => 0
  }

  /** The session's filter state (Streamlit's `session_state`). */
  class FilterState {
    var cls: string
    var section: string
    var gender: string

    /** Every selector offers its current value. */
    ghost predicate Valid(summary: seq<Student>)
      reads this
    {
      cls in ClassOptions(summary) && section in SectionOptions(summary, cls) && gender in GenderOptions(summary)
    }

    /** A new session starts with every selector at "All". */
    constructor ()
      ensures cls == ALL && section == ALL && gender == ALL
    {
      cls, section, gender := ALL, ALL, ALL;
    }

    /** The user picks a class; a section not offered for the new class falls back to "All". */
    method SelectClass(summary: seq<Student>, c: string)
      requires c in ClassOptions(summary)
      modifies this
      ensures cls == c && gender == old(gender)
      ensures section == if old(section) in SectionOptions(summary, c) then old(section) else ALL
      ensures section in SectionOptions(summary, cls)
      ensures old(gender in GenderOptions(summary)) ==> Valid(summary)
    {
      var options := SectionOptions(summary, c);
      cls := c;
      section := options[PreselectIndex(options, section)];
    }

    /** The user picks a section among those offered for the current class. */
    method SelectSection(summary: seq<Student>, s: string)
      requires s in SectionOptions(summary, cls)
      modifies this
      ensures section == s && cls == old(cls) && gender == old(gender)
      ensures old(Valid(summary)) ==> Valid(summary)
    {
      section := s;
    }

    /** The user picks a gender among those offered. */
    method SelectGender(summary: seq<Student>, g: string)
      requires g in GenderOptions(summary)
      modifies this
      ensures gender == g && cls == old(cls) && section == old(section)
      ensures old(Valid(summary)) ==> Valid(summary)
    {
      gender := g;
    }

    /** `filtered_summary`: start from the whole summary and narrow by each selector that is
        not "All", in the order class, section, gender. */
    method ApplyFilters(summary: seq<Student>) returns (cohort: seq<Student>)
      ensures cohort == CohortOf(summary, Selection(cls, section, gender))
    {
      cohort := summary;
      if cls != ALL {
        cohort := Narrow(cohort, ClassColumn, cls);
      }
      if section != ALL {
        cohort := Narrow(cohort, SectionColumn, section);
      }
      if gender != ALL {
        cohort := Narrow(cohort, GenderColumn, gender);
      }
      StepsMakeCohort(summary, Selection(cls, section, gender));
    }
  }
}
