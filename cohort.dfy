/** The students table as a sequence of records, the query that selects one
    (semester, subject) cohort, and the re-grading of that cohort against a
    snapshot of its marks. */
module Cohort {
  import opened Grading
  import opened Seqs

  /** One row of the students table. Its id is its position in the table. */
  datatype Record = Record(
    rollNumber: string,
    name: string,
    semester: string,
    subject: string,
    marks: real,
    grade: Grade,
    gradePoint: int,
    branch: string)

  /** The rows re-grading selects: same semester and subject, marks not below 0. */
  predicate InCohort(r: Record, semester: string, subject: string) {
    r.semester == semester && r.subject == subject && r.marks >= 0.0
  }

  /** One (id, marks) pair of the query result. */
  datatype Entry = Entry(id: nat, marks: real)

  /** The query result from position `from` on, in table order. */
  function SelectFrom(rs: seq<Record>, semester: string, subject: string, from: nat): (sel: seq<Entry>)
    requires from <= |rs|
    ensures forall k :: 0 <= k < |sel| ==>
      from <= sel[k].id < |rs| && InCohort(rs[sel[k].id], semester, subject) && sel[k].marks == rs[sel[k].id].marks
    decreases |rs| - from
  {
    if from == |rs| then []
    else
      var rest := SelectFrom(rs, semester, subject, from + 1);
      if InCohort(rs[from], semester, subject) then
        var sel := [Entry(from, rs[from].marks)] + rest;
        assert forall k :: 0 < k < |sel| ==> sel[k] == rest[k - 1];
        sel
      else rest
  }

  /** The query result lists ids in strictly increasing order, so each at most once. */
  lemma {:induction false} SelectFromOrdered(rs: seq<Record>, semester: string, subject: string, from: nat)
    requires from <= |rs|
    ensures forall k, l :: 0 <= k < l < |SelectFrom(rs, semester, subject, from)| ==>
      SelectFrom(rs, semester, subject, from)[k].id < SelectFrom(rs, semester, subject, from)[l].id
    decreases |rs| - from
  {
    if from < |rs| {
      SelectFromOrdered(rs, semester, subject, from + 1);
      var rest := SelectFrom(rs, semester, subject, from + 1);
      if InCohort(rs[from], semester, subject) {
        var head: seq<Entry> := [Entry(from, rs[from].marks)];
        assert SelectFrom(rs, semester, subject, from) == head + rest;
        forall k, l | 0 <= k < l < |head + rest| ensures (head + rest)[k].id < (head + rest)[l].id {
          ConcatIndex(head, rest, k);
          ConcatIndex(head, rest, l);
          assert (head + rest)[l] == rest[l - 1];
          if k == 0 {
            assert from + 1 <= rest[l - 1].id;
          } else {
            assert (head + rest)[k] == rest[k - 1];
          }
        }
      } else {
        assert SelectFrom(rs, semester, subject, from) == rest;
      }
    }
  }

  /** The query result holds every cohort member from `from` on, with its marks. */
  lemma {:induction false} SelectFromComplete(rs: seq<Record>, semester: string, subject: string, from: nat)
    requires from <= |rs|
    ensures forall j :: from <= j < |rs| && InCohort(rs[j], semester, subject) ==>
      Entry(j, rs[j].marks) in SelectFrom(rs, semester, subject, from)
    decreases |rs| - from
  {
    if from < |rs| {
      SelectFromComplete(rs, semester, subject, from + 1);
      var rest := SelectFrom(rs, semester, subject, from + 1);
      if InCohort(rs[from], semester, subject) {
        var head: seq<Entry> := [Entry(from, rs[from].marks)];
        assert SelectFrom(rs, semester, subject, from) == head + rest;
      } else {
        assert SelectFrom(rs, semester, subject, from) == rest;
      }
    }
  }

  /** The snapshot `SELECT id, marks ... WHERE semester = .. AND subject = .. AND marks >= 0`. */
  function Select(rs: seq<Record>, semester: string, subject: string): seq<Entry> {
    SelectFrom(rs, semester, subject, 0)
  }

  /** The marks column of a query result. */
  function MarksOf(sel: seq<Entry>): (ms: seq<real>)
    ensures |ms| == |sel|
    ensures forall k :: 0 <= k < |sel| ==> ms[k] == sel[k].marks
  {
    seq(|sel|, k requires 0 <= k < |sel| => sel[k].marks)
  }

  /** The marks list every member of the cohort is ranked against. */
  function CohortMarks(rs: seq<Record>, semester: string, subject: string): seq<real> {
    MarksOf(Select(rs, semester, subject))
  }

  /** One record with its grade fields recomputed against `marksList`. */
  function Regrade(r: Record, marksList: seq<real>): Record {
    var g := RelativeGrade(marksList, r.marks);
    r.(grade := g.grade, gradePoint := g.point)
  }

  /** The table after the cohort has been re-graded against its own snapshot. */
  function Regraded(rs: seq<Record>, semester: string, subject: string): seq<Record> {
    var marksList := CohortMarks(rs, semester, subject);
    seq(|rs|, j requires 0 <= j < |rs| =>
      if InCohort(rs[j], semester, subject) then Regrade(rs[j], marksList) else rs[j])
  }

  /** The ids of the first `n` entries of a query result. */
  function SelectedIds(sel: seq<Entry>, n: nat): set<nat>
    requires n <= |sel|
  {
    set l | 0 <= l < n :: sel[l].id
  }

  /** In an ordered query result, entry `k` is new to the ids before it. */
  lemma SelectedIdsStep(sel: seq<Entry>, k: nat)
    requires k < |sel|
    requires forall i, l :: 0 <= i < l < |sel| ==> sel[i].id < sel[l].id
    ensures sel[k].id !in SelectedIds(sel, k)
    ensures SelectedIds(sel, k + 1) == SelectedIds(sel, k) + {sel[k].id}
  {
  }

  /** A table that differs from `rs` exactly by re-grading the selected rows is
      the re-graded table. */
  lemma RegradedBySelection(rs: seq<Record>, semester: string, subject: string, ts: seq<Record>)
    requires |ts| == |rs|
    requires forall j :: 0 <= j < |rs| ==>
      ts[j] == if j in SelectedIds(Select(rs, semester, subject), |Select(rs, semester, subject)|)
               then Regrade(rs[j], CohortMarks(rs, semester, subject)) else rs[j]
    ensures ts == Regraded(rs, semester, subject)
  {
    var sel := Select(rs, semester, subject);
    SelectFromComplete(rs, semester, subject, 0);
    forall j | 0 <= j < |rs| && InCohort(rs[j], semester, subject)
      ensures j in SelectedIds(sel, |sel|)
    {
      var l :| 0 <= l < |sel| && sel[l] == Entry(j, rs[j].marks);
      assert sel[l].id == j;
    }
  }

  /** Every cohort member's grade is its relative grade against the current cohort. */
  ghost predicate Consistent(rs: seq<Record>, semester: string, subject: string) {
    forall j :: 0 <= j < |rs| && InCohort(rs[j], semester, subject) ==>
      GradeResult(rs[j].grade, rs[j].gradePoint) == RelativeGrade(CohortMarks(rs, semester, subject), rs[j].marks)
  }

  // ---------------------------------------------------------------------
  // The query
  // ---------------------------------------------------------------------

  /** A mark is in the cohort list exactly when some cohort member has it. */
  lemma CohortMarksMembers(rs: seq<Record>, semester: string, subject: string)
    ensures forall x :: x in CohortMarks(rs, semester, subject) <==>
      exists j :: 0 <= j < |rs| && InCohort(rs[j], semester, subject) && rs[j].marks == x
  {
    var sel := Select(rs, semester, subject);
    var ms := CohortMarks(rs, semester, subject);
    SelectFromComplete(rs, semester, subject, 0);
    forall x | x in ms
      ensures exists j :: 0 <= j < |rs| && InCohort(rs[j], semester, subject) && rs[j].marks == x
    {
      var k :| 0 <= k < |ms| && ms[k] == x;
      assert InCohort(rs[sel[k].id], semester, subject) && rs[sel[k].id].marks == x;
    }
    forall x | exists j :: 0 <= j < |rs| && InCohort(rs[j], semester, subject) && rs[j].marks == x
      ensures x in ms
    {
      var j :| 0 <= j < |rs| && InCohort(rs[j], semester, subject) && rs[j].marks == x;
      var k :| 0 <= k < |sel| && sel[k].id == j;
      assert ms[k] == x;
    }
  }

  /** The query only looks at semester, subject and marks. */
  lemma {:induction false} SelectFromSameKeys(rs: seq<Record>, ts: seq<Record>, semester: string, subject: string, from: nat)
    requires from <= |rs| == |ts|
    requires forall j :: 0 <= j < |rs| ==>
      rs[j].semester == ts[j].semester && rs[j].subject == ts[j].subject && rs[j].marks == ts[j].marks
    ensures SelectFrom(rs, semester, subject, from) == SelectFrom(ts, semester, subject, from)
    decreases |rs| - from
  {
    if from < |rs| {
      SelectFromSameKeys(rs, ts, semester, subject, from + 1);
    }
  }

  // ---------------------------------------------------------------------
  // Re-grading
  // ---------------------------------------------------------------------

  /** Re-grading rewrites the grade fields of cohort members only, each with the
      relative grade against the snapshot; every other field and every other
      record stays as it was. */
  lemma RegradedFrame(rs: seq<Record>, semester: string, subject: string)
    ensures |Regraded(rs, semester, subject)| == |rs|
    ensures forall j :: 0 <= j < |rs| ==>
      var r, t := rs[j], Regraded(rs, semester, subject)[j];
      && t.rollNumber == r.rollNumber && t.name == r.name && t.semester == r.semester
      && t.subject == r.subject && t.marks == r.marks && t.branch == r.branch
      && (!InCohort(r, semester, subject) ==> t == r)
      && (InCohort(r, semester, subject) ==>
            GradeResult(t.grade, t.gradePoint) == RelativeGrade(CohortMarks(rs, semester, subject), r.marks))
  {
  }

  /** With no selected record, re-grading changes nothing. */
  lemma EmptyCohortUnchanged(rs: seq<Record>, semester: string, subject: string)
    requires |Select(rs, semester, subject)| == 0
    ensures Regraded(rs, semester, subject) == rs
  {
    SelectFromComplete(rs, semester, subject, 0);
  }

  /** Re-grading keeps the cohort and its marks, so the snapshot is the same afterwards. */
  lemma RegradedSameCohort(rs: seq<Record>, semester: string, subject: string)
    ensures Select(Regraded(rs, semester, subject), semester, subject) == Select(rs, semester, subject)
    ensures CohortMarks(Regraded(rs, semester, subject), semester, subject) == CohortMarks(rs, semester, subject)
  {
    SelectFromSameKeys(Regraded(rs, semester, subject), rs, semester, subject, 0);
  }

  /** After re-grading, the cohort is consistent with its own current population. */
  lemma RegradedConsistent(rs: seq<Record>, semester: string, subject: string)
    ensures Consistent(Regraded(rs, semester, subject), semester, subject)
  {
    RegradedSameCohort(rs, semester, subject);
  }

  /** Re-grading leaves a table unchanged exactly when the cohort is already consistent. */
  lemma RegradedFixpoint(rs: seq<Record>, semester: string, subject: string)
    ensures Regraded(rs, semester, subject) == rs <==> Consistent(rs, semester, subject)
  {
    RegradedConsistent(rs, semester, subject);
    var t := Regraded(rs, semester, subject);
    if Consistent(rs, semester, subject) {
      forall j | 0 <= j < |rs| ensures t[j] == rs[j] {
      }
    }
  }

  /** Re-grading twice with no insert in between gives the same table as once. */
  lemma RegradeIdempotent(rs: seq<Record>, semester: string, subject: string)
    ensures Regraded(Regraded(rs, semester, subject), semester, subject) == Regraded(rs, semester, subject)
  {
    RegradedConsistent(rs, semester, subject);
    RegradedFixpoint(Regraded(rs, semester, subject), semester, subject);
  }

  /** After re-grading, a cohort member with at least the marks of another never
      has fewer grade points, and members with equal marks get the same grade. */
  lemma RegradedMonotone(rs: seq<Record>, semester: string, subject: string, j: nat, k: nat)
    requires j < |rs| && k < |rs|
    requires InCohort(rs[j], semester, subject) && InCohort(rs[k], semester, subject)
    requires rs[j].marks <= rs[k].marks
    ensures Regraded(rs, semester, subject)[j].gradePoint <= Regraded(rs, semester, subject)[k].gradePoint
    ensures rs[j].marks == rs[k].marks ==>
      Regraded(rs, semester, subject)[j].grade == Regraded(rs, semester, subject)[k].grade
  {
    var ms := CohortMarks(rs, semester, subject);
    CohortMarksMembers(rs, semester, subject);
    assert rs[k].marks in ms;
    RelativeMonotone(ms, rs[j].marks, rs[k].marks);
  }
}
