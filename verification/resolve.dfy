/** Turning the name picked in a tab's student drop-down into a student ID.  The Performance
    tab asks the user to choose when several cohort rows share the name; the Attendance,
    Assignments and Remarks tabs silently take the first matching row. */
module Resolve {
  import opened Seqs
  import opened Tables

  function Names(cohort: seq<Student>): (r: seq<string>)
    ensures |r| == |cohort|
    ensures forall i :: 0 <= i < |cohort| ==> r[i] == cohort[i].name
  {
    seq(|cohort|, i requires 0 <= i < |cohort| => cohort[i].name)
  }

  /** `cohort['Name'].unique()`: the names a student drop-down offers, each once. */
  function NameOptions(cohort: seq<Student>): (r: seq<string>)
    ensures NoDup(r)
    ensures forall n :: n in r <==> exists s :: s in cohort && s.name == n
  {
    var names := Names(cohort);
    assert forall s :: s in cohort ==> s.name in names by {
      forall s | s in cohort
        ensures s.name in names
      {
        var i :| 0 <= i < |cohort| && cohort[i] == s;
        assert names[i] == s.name;
      }
    }
    Distinct(names)
  }

  /** `cohort[cohort['Name'] == name]`. */
  function Named(cohort: seq<Student>, name: string): (r: seq<Student>)
    ensures forall x :: x in r <==> x in cohort && x.name == name
  {
    Where(cohort, (x: Student) => x.name == name)
  }

  /** The first row of a filter is the first row of the input that passes it. */
  lemma {:induction false} WhereFirst<T(!new)>(s: seq<T>, p: T -> bool, i: nat)
    requires i < |s| && p(s[i])
    requires forall j :: 0 <= j < i ==> !p(s[j])
    ensures Where(s, p) != [] && Where(s, p)[0] == s[i]
  {
    var front := s[..|s| - 1];
    if i == |s| - 1 {
      forall y | y in front
        ensures !p(y)
      {
        var j :| 0 <= j < |front| && front[j] == y;
        assert s[j] == y;
      }
      assert forall y :: y !in Where(front, p);
    } else {
      WhereFirst(front, p, i);
    }
  }

  /** The outcome of the Performance tab's lookup. */
  datatype Resolution =
    | NotFound                             // the warning "No student found with the name ..."
    | Resolved(id: StudentId)              // exactly one row has the name
    | Ambiguous(choices: seq<StudentId>)   // the user must pick one of these IDs

  /** Lines 198-210: no row with the name is "not found"; exactly one row gives its ID; several
      rows give the choice of exactly their IDs, in cohort order. */
  function ResolveByName(cohort: seq<Student>, name: string): (r: Resolution)
    ensures r.NotFound? <==> forall s :: s in cohort ==> s.name != name
    ensures r.Resolved? <==> |Named(cohort, name)| == 1
    ensures r.Resolved? ==> forall s :: s in cohort && s.name == name ==> s.id == r.id
    ensures r.Ambiguous? <==> |Named(cohort, name)| >= 2
    ensures r.Ambiguous? ==> r.choices == Ids(Named(cohort, name))
    ensures r.Ambiguous? ==>
      forall id :: id in r.choices <==> exists s :: s in cohort && s.name == name && s.id == id
    ensures r.Ambiguous? ==> |r.choices| >= 2
  {
    var matching := Named(cohort, name);
    if matching == [] then
      assert forall s :: s in cohort ==> s.name != name;
      NotFound
    else if |matching| > 1 then
      IdsMembers(matching);
      Ambiguous(Ids(matching))
    else
      assert matching[0] in matching;
      assert forall s :: s in matching ==> s == matching[0];
      Resolved(matching[0].id)
  }

  lemma IdsMembers(rows: seq<Student>)
    ensures forall id :: id in Ids(rows) <==> exists s :: s in rows && s.id == id
  {
    forall id
      ensures id in Ids(rows) <==> exists s :: s in rows && s.id == id
    {
      if id in Ids(rows) {
        var i :| 0 <= i < |rows| && Ids(rows)[i] == id;
        assert rows[i] in rows;
      }
      if exists s :: s in rows && s.id == id {
        var s :| s in rows && s.id == id;
        var i :| 0 <= i < |rows| && rows[i] == s;
        assert Ids(rows)[i] == id;
      }
    }
  }

  /** Lines 272, 339 and 405, `cohort[cohort['Name'] == name]['ID'].values[0]`: the ID of the
      first cohort row with the name.  None: no row has it and the code raises IndexError. */
  function FirstMatchId(cohort: seq<Student>, name: string): (r: Option<StudentId>)
    ensures r.None? <==> forall s :: s in cohort ==> s.name != name
    ensures r.Some? ==> exists i :: 0 <= i < |cohort| && cohort[i].name == name && cohort[i].id == r.value
                                      && forall j :: 0 <= j < i ==> cohort[j].name != name
  {
    var matching := Named(cohort, name);
    if matching == [] then
      assert forall s :: s in cohort ==> s.name != name;
      None
    else
      assert matching[0] in matching;
      var i := FirstIndex(cohort, name);
      WhereFirst(cohort, (x: Student) => x.name == name, i);
      Some(matching[0].id)
  }

  /** Position of the first row with the name. */
  function FirstIndex(cohort: seq<Student>, name: string): (i: nat)
    requires exists s :: s in cohort && s.name == name
    ensures i < |cohort| && cohort[i].name == name
    ensures forall j :: 0 <= j < i ==> cohort[j].name != name
  {
    if cohort[0].name == name then 0
    else
      var s :| s in cohort && s.name == name;
      assert s in cohort[1..];
      FirstIndex(cohort[1..], name) + 1
  }

  /** The two lookups agree except where several rows share the name: there the Performance
      tab asks for a choice and the other tabs take the first candidate without asking. */
  lemma OtherTabsTakeFirst(cohort: seq<Student>, name: string)
    ensures ResolveByName(cohort, name).NotFound? <==> FirstMatchId(cohort, name).None?
    ensures ResolveByName(cohort, name).Resolved? ==>
      FirstMatchId(cohort, name) == Some(ResolveByName(cohort, name).id)
    ensures ResolveByName(cohort, name).Ambiguous? ==>
      FirstMatchId(cohort, name) == Some(ResolveByName(cohort, name).choices[0])
  {
  }

  /** A name offered by the drop-down always has a row: neither the "not found" warning nor
      the IndexError can follow from picking it. */
  lemma OfferedNamesResolve(cohort: seq<Student>, name: string)
    requires name in NameOptions(cohort)
    ensures !ResolveByName(cohort, name).NotFound?
    ensures FirstMatchId(cohort, name).Some?
  {
  }
}
