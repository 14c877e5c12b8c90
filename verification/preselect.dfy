/** The index each sidebar drop-down is told to open at (student.py lines 59, 70 and 76), as
    the code computes it, next to the discrepancies that computation has with the options it
    indexes.  The corrected rule is `Cohort.PreselectIndex`, used by `Cohort.FilterState`. */
module Preselect {
  import opened Seqs
  import opened Tables
  import opened Cohort
  import TextOrder

  /** Lines 59 and 76, as written: 0 for "All", else the stored value's position in
      `unique()` (first-occurrence) order plus one.  None: `list.index` raises ValueError. */
  function IndexAsWritten(summary: seq<Student>, c: Column, stored: string): (r: Option<nat>)
    ensures stored == ALL ==> r == Some(0)
    ensures stored != ALL ==> (r.None? <==> stored !in Values(summary, c))
    ensures stored != ALL && r.Some? ==>
      1 <= r.value <= |Distinct(Values(summary, c))| && Distinct(Values(summary, c))[r.value - 1] == stored
  {
    if stored == ALL then Some(0)
    else
      match IndexOf(Distinct(Values(summary, c)), stored)
      case None => None
      case Some(k) => Some(k + 1)
  }

  /** Line 70, as written: 0 for "All", else the stored section's position among the
      sections now offered.  None: `list.index` raises ValueError. */
  function SectionIndexAsWritten(options: seq<string>, stored: string): (r: Option<nat>)
    ensures stored == ALL ==> r == Some(0)
    ensures stored != ALL ==> (r.None? <==> stored !in options)
    ensures stored != ALL && r.Some? ==> r.value < |options| && options[r.value] == stored
  {
    if stored == ALL then Some(0) else IndexOf(options, stored)
  }

  function Pupil(id: StudentId, cls: string, section: string): Student
  {
    Student(id, "Pupil " + id, cls, section, "F", 50.0, 1.0, 1.0)
  }

  lemma OptionsAB(summary: seq<Student>)
    requires summary == [Pupil("1", "B", "X"), Pupil("2", "A", "X")]
    ensures ClassOptions(summary) == [ALL, "A", "B"]
  {
    var r := ClassOptions(summary);
    assert summary[1] in summary && summary[0] in summary;
    assert TextOrder.Less("A", "B");
    TextOrder.IncreasingIsUnique(r[1..], ["A", "B"]);
    assert r == [r[0]] + r[1..];
  }

  /** Classes listed "B" before "A" in the summary, stored class "B": the index as written is
      1, which is "A" in the sorted options; the corrected index opens at "B". */
  lemma StoredClassShowsAnother()
    ensures var summary := [Pupil("1", "B", "X"), Pupil("2", "A", "X")];
      && IndexAsWritten(summary, ClassColumn, "B") == Some(1)
      && ClassOptions(summary)[1] == "A"
      && ClassOptions(summary)[PreselectIndex(ClassOptions(summary), "B")] == "B"
  {
    var summary := [Pupil("1", "B", "X"), Pupil("2", "A", "X")];
    OptionsAB(summary);
    var vs := Values(summary, ClassColumn);
    assert vs == ["B", "A"];
    UniqueBA(vs);
  }

  /** `unique()` of the class column "B", "A" keeps that order. */
  lemma UniqueBA(vs: seq<string>)
    requires vs == ["B", "A"]
    ensures Distinct(vs) == ["B", "A"]
  {
    assert vs[..1] == ["B"];
    assert Distinct(vs[..1]) == ["B"];
  }

  /** Section "A" chosen under class "10", then class "11" (sections: "B") selected: the
      index as written raises ValueError; the corrected index falls back to "All". */
  lemma StaleSectionRaises()
    ensures var summary := [Pupil("1", "10", "A"), Pupil("2", "11", "B")];
      && SectionIndexAsWritten(SectionOptions(summary, "11"), "A").None?
      && PreselectIndex(SectionOptions(summary, "11"), "A") == 0
  {
    var summary := [Pupil("1", "10", "A"), Pupil("2", "11", "B")];
    NotOffered(summary, "11", "A");
  }

  lemma NotOffered(summary: seq<Student>, cls: string, section: string)
    requires cls != ALL && section != ALL
    requires forall s :: s in summary ==> s.cls != cls || s.section != section
    ensures section !in SectionOptions(summary, cls)
  {
    var options := SectionOptions(summary, cls);
    assert section !in options[1..];
    assert options == [options[0]] + options[1..];
  }
}
