/** The students table as an object, and the three operations that change it:
    single-record entry, bulk upload and re-grading of one cohort. */
module Store {
  import opened Grading
  import opened Cohort
  import opened Ingest
  import opened Seqs

  /** The fields of the single-entry form. `parsedMarks` is float() of the
      `marks` text, None when the conversion fails. */
  datatype Form = Form(
    rollNumber: string,
    name: string,
    semester: string,
    subject: string,
    marks: string,
    parsedMarks: Option<real>,
    branch: string,
    gradingType: string)

  /** Why single entry refused a form. */
  datatype EntryError = MissingField | MarksNotNumeric | MarksOutOfRange

  /** The result of single entry: stored with a grade, or refused. */
  datatype Submission = Saved(result: GradeResult) | Refused(error: EntryError)

  /** The counters of a bulk upload. */
  datatype Report = Report(succeeded: nat, failed: nat)

  /** Single entry demands every text field. */
  predicate AnyFieldEmpty(form: Form) {
    form.rollNumber == "" || form.name == "" || form.semester == "" || form.subject == ""
    || form.marks == "" || form.branch == ""
  }

  class StudentTable {
    /** The rows of the table; a row's id is its position. */
    var records: seq<Record>

    /** Every stored mark passed the range check on its way in. */
    ghost predicate Valid()
      reads this
    {
      forall j :: 0 <= j < |records| ==> InRange(records[j].marks)
    }

    constructor ()
      ensures Valid() && records == []
    {
      records := [];
    }

    /** Single entry: validate, grade by the chosen policy, insert one row.
        Under relative grading the candidate's mark is appended to the
        cohort's marks before it is ranked. */
    method AddStudent(form: Form) returns (s: Submission)
      requires Valid()
      modifies this
      ensures Valid()
      ensures AnyFieldEmpty(form) ==> s == Refused(MissingField)
      ensures !AnyFieldEmpty(form) && form.parsedMarks.None? ==> s == Refused(MarksNotNumeric)
      ensures !AnyFieldEmpty(form) && form.parsedMarks.Some? && !InRange(form.parsedMarks.value) ==>
        s == Refused(MarksOutOfRange)
      ensures !AnyFieldEmpty(form) && form.parsedMarks.Some? && InRange(form.parsedMarks.value) ==> s.Saved?
      ensures s.Refused? ==> records == old(records)
      ensures s.Saved? ==>
        && !AnyFieldEmpty(form) && form.parsedMarks.Some? && InRange(form.parsedMarks.value)
        && var m := form.parsedMarks.value;
           && s.result == (if PolicyOf(form.gradingType) == Relative
                           then RelativeGrade(CohortMarks(old(records), form.semester, form.subject) + [m], m)
                           else AbsoluteGrade(m))
           && records == old(records) + [Record(form.rollNumber, form.name, form.semester, form.subject,
                                                m, s.result.grade, s.result.point, form.branch)]
    {
      if AnyFieldEmpty(form) {
        return Refused(MissingField);
      }
      if form.parsedMarks.None? {
        return Refused(MarksNotNumeric);
      }
      var marks := form.parsedMarks.value;
      if marks < -1.0 || marks > 100.0 {
        return Refused(MarksOutOfRange);
      }
      var g: GradeResult;
      if PolicyOf(form.gradingType) == Relative {
        var existingMarks := CohortMarks(records, form.semester, form.subject);
        existingMarks := existingMarks + [marks];
        g := RelativeGrade(existingMarks, marks);
      } else {
        g := AbsoluteGrade(marks);
      }
      records := records + [Record(form.rollNumber, form.name, form.semester, form.subject,
                                   marks, g.grade, g.point, form.branch)];
      s := Saved(g);
    }

    /** Re-grades one (semester, subject) cohort against a snapshot of its
        marks, overwriting grade and grade point row by row, and returns the
        number of rows updated. */
    method ApplyRelativeGrading(semester: string, subject: string) returns (updated: nat)
      requires Valid()
      modifies this
      ensures Valid()
      ensures updated == |Select(old(records), semester, subject)|
      ensures records == Regraded(old(records), semester, subject)
      ensures updated == 0 ==> records == old(records)
      ensures Consistent(records, semester, subject)
    {
      ghost var before := records;
      RegradedConsistent(before, semester, subject);
      var selected := Select(records, semester, subject);
      if |selected| == 0 {
        EmptyCohortUnchanged(records, semester, subject);
        return 0;
      }
      SelectFromOrdered(records, semester, subject, 0);
      var marksList := MarksOf(selected);
      updated := 0;
      var k := 0;
      while k < |selected|
        invariant 0 <= k <= |selected|
        invariant updated == k
        invariant |records| == |before|
        invariant forall j :: 0 <= j < |before| ==>
          records[j] == if j in SelectedIds(selected, k) then Regrade(before[j], marksList) else before[j]
      {
        var entry := selected[k];
        var g := RelativeGrade(marksList, entry.marks);
        SelectedIdsStep(selected, k);
        records := records[entry.id := records[entry.id].(grade := g.grade, gradePoint := g.point)];
        updated := updated + 1;
        k := k + 1;
      }
      RegradedBySelection(before, semester, subject, records);
      RegradedFrame(before, semester, subject);
    }

    /** One group of a relative bulk upload: every row is ranked against the
        group's raw marks column, in group order. Returns the number of rows
        inserted and the number counted as errors. */
    method UploadGroup(group: seq<Row>) returns (successCount: nat, errorCount: nat)
      requires Valid()
      modifies this
      ensures Valid()
      ensures records == old(records) + Inserted(GroupOutcomes(group))
      ensures successCount == |Inserted(GroupOutcomes(group))|
      ensures errorCount == CountRejected(GroupOutcomes(group))
    {
      var marksList := GroupMarks(group);
      successCount, errorCount := 0, 0;
      ghost var done: seq<Outcome> := [];
      var gi := 0;
      while gi < |group|
        invariant 0 <= gi <= |group|
        invariant done == GroupOutcomes(group)[..gi]
        invariant records == old(records) + Inserted(done)
        invariant successCount == |Inserted(done)| && errorCount == CountRejected(done)
        invariant Valid()
      {
        var row := group[gi];
        var parsed := ToFloat(row.marks);
        if parsed.None? {
          errorCount := errorCount + 1;
        } else if parsed.value < -1.0 || parsed.value > 100.0 {
          errorCount := errorCount + 1;
        } else {
          var marks := parsed.value;
          var g := RelativeGradeCells(marksList, marks);
          records := records + [RecordOf(row, marks, g)];
          successCount := successCount + 1;
        }
        assert (done + [RelativeRow(row, marksList)])[..|done|] == done;
        PrefixSnoc(GroupOutcomes(group), gi);
        done := done + [RelativeRow(row, marksList)];
        gi := gi + 1;
      }
      assert GroupOutcomes(group)[..gi] == GroupOutcomes(group);
    }

    /** Relative bulk upload: the rows are processed group by group, in the
        order the groups' keys first appear. */
    method UploadRelative(rows: seq<Row>) returns (successCount: nat, errorCount: nat)
      requires Valid()
      modifies this
      ensures Valid()
      ensures records == old(records) + Inserted(RelativeOutcomes(rows))
      ensures successCount == |Inserted(RelativeOutcomes(rows))|
      ensures errorCount == CountRejected(RelativeOutcomes(rows))
    {
      successCount, errorCount := 0, 0;
      ghost var done: seq<Outcome> := [];
      var keys := Keys(rows);
      var ki := 0;
      while ki < |keys|
        invariant 0 <= ki <= |keys|
        invariant done == RelativeOutcomesFor(rows, keys[..ki])
        invariant records == old(records) + Inserted(done)
        invariant successCount == |Inserted(done)| && errorCount == CountRejected(done)
        invariant Valid()
      {
        var group := Group(rows, keys[ki]);
        ghost var os := GroupOutcomes(group);
        var groupSuccess, groupError := UploadGroup(group);
        InsertedAppend(done, os);
        ConcatAssoc(old(records), Inserted(done), Inserted(os));
        RelativeOutcomesForSnoc(rows, keys, ki);
        done := done + os;
        successCount, errorCount := successCount + groupSuccess, errorCount + groupError;
        ki := ki + 1;
      }
      assert keys[..ki] == keys;
    }

    /** Absolute bulk upload: the rows are processed one by one in upload order. */
    method UploadAbsolute(rows: seq<Row>) returns (successCount: nat, errorCount: nat)
      requires Valid()
      modifies this
      ensures Valid()
      ensures records == old(records) + Inserted(AbsoluteOutcomes(rows))
      ensures successCount == |Inserted(AbsoluteOutcomes(rows))|
      ensures errorCount == CountRejected(AbsoluteOutcomes(rows))
    {
      successCount, errorCount := 0, 0;
      ghost var done: seq<Outcome> := [];
      var i := 0;
      while i < |rows|
        invariant 0 <= i <= |rows|
        invariant done == AbsoluteOutcomes(rows)[..i]
        invariant records == old(records) + Inserted(done)
        invariant successCount == |Inserted(done)| && errorCount == CountRejected(done)
        invariant Valid()
      {
        var row := rows[i];
        var parsed := ToFloat(row.marks);
        if parsed.None? {
          errorCount := errorCount + 1;
        } else if parsed.value < -1.0 || parsed.value > 100.0 {
          errorCount := errorCount + 1;
        } else {
          var marks := parsed.value;
          var g := AbsoluteGrade(marks);
          records := records + [RecordOf(row, marks, g)];
          successCount := successCount + 1;
        }
        assert (done + [AbsoluteRow(row)])[..|done|] == done;
        PrefixSnoc(AbsoluteOutcomes(rows), i);
        done := done + [AbsoluteRow(row)];
        i := i + 1;
      }
      assert AbsoluteOutcomes(rows)[..i] == AbsoluteOutcomes(rows);
    }

    /** Bulk upload of already parsed rows, by the chosen policy. A row whose
        mark does not parse or fails the range check is counted as an error;
        every other row is inserted and counted as a success. */
    method UploadResults(rows: seq<Row>, gradingType: string) returns (report: Report)
      requires Valid()
      modifies this
      ensures Valid()
      ensures records == old(records) + Inserted(Outcomes(rows, PolicyOf(gradingType)))
      ensures report.succeeded == |Inserted(Outcomes(rows, PolicyOf(gradingType)))| == CountAcceptable(rows)
      ensures report.failed == CountRejected(Outcomes(rows, PolicyOf(gradingType)))
      ensures report.succeeded + report.failed == |rows|
    {
      var successCount, errorCount;
      if PolicyOf(gradingType) == Relative {
        successCount, errorCount := UploadRelative(rows);
      } else {
        successCount, errorCount := UploadAbsolute(rows);
      }
      UploadCounts(rows, PolicyOf(gradingType));
      report := Report(successCount, errorCount);
    }
  }
}
