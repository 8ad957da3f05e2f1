/** The ingestion rules of single entry and bulk upload: parsing and range
    validation of a mark, grouping uploaded rows by (semester, subject), the
    outcome of every row under each policy, and the counters. */
module Ingest {
  import opened Grading
  import opened Cohort
  import opened Seqs

  datatype Option<T> = None | Some(value: T)

  /** A mark as it reaches float(): a number, or text that float() parses to
      `parsed` (None when it cannot be parsed). */
  datatype Cell = Num(value: real) | Text(parsed: Option<real>)

  /** float(cell). */
  function ToFloat(c: Cell): Option<real> {
    match c
    case Num(v) => Some(v)
    case Text(p) => p
  }

  /** The range check of both entry paths: marks below -1 or above 100 are refused. */
  predicate InRange(marks: real) {
    !(marks < -1.0 || marks > 100.0)
  }

  /** The `grading_type` form field: "relative" selects relative grading, any other value absolute. */
  datatype Policy = Absolute | Relative

  function PolicyOf(gradingType: string): Policy {
    if gradingType == "relative" then Relative else Absolute
  }

  /** One uploaded row, already parsed from the file. */
  datatype Row = Row(rollNumber: string, name: string, semester: string, subject: string, marks: Cell, branch: string)

  /** The cohort key a row is grouped by. */
  function KeyOf(row: Row): (string, string) {
    (row.semester, row.subject)
  }

  /** What happens to one row: inserted as `record`, or counted as an error. */
  datatype Outcome = Added(record: Record) | NotNumeric | OutOfRange

  /** The table row inserted for an uploaded row with marks `marks` and grade `g`. */
  function RecordOf(row: Row, marks: real, g: GradeResult): Record {
    Record(row.rollNumber, row.name, row.semester, row.subject, marks, g.grade, g.point, row.branch)
  }

  /** A row is inserted exactly when its mark parses and passes the range check. */
  predicate Acceptable(row: Row) {
    ToFloat(row.marks).Some? && InRange(ToFloat(row.marks).value)
  }

  // ---------------------------------------------------------------------
  // Relative grading against a raw cell list
  // ---------------------------------------------------------------------

  /** The numbers of a cell list that holds no text. */
  function Numbers(cells: seq<Cell>): (ms: seq<real>)
    requires forall k :: 0 <= k < |cells| ==> cells[k].Num?
    ensures |ms| == |cells|
    ensures forall k :: 0 <= k < |cells| ==> ms[k] == cells[k].value
  {
    seq(|cells|, k requires 0 <= k < |cells| => cells[k].value)
  }

  /** Relative grading against an uploaded column. A text element makes the
      comparison `m >= 0` raise, and the raised error is turned into Invalid/0;
      an absent candidate is decided before the list is looked at. */
  function RelativeGradeCells(cells: seq<Cell>, marks: real): (r: GradeResult)
    ensures r.point == PointOf(r.grade)
    ensures marks == -1.0 ==> r == GradeResult(AB, 0)
    ensures marks != -1.0 && (exists k :: 0 <= k < |cells| && cells[k].Text?) ==> r == GradeResult(Invalid, 0)
    ensures (forall k :: 0 <= k < |cells| ==> cells[k].Num?) ==> r == RelativeGrade(Numbers(cells), marks)
  {
    if marks == -1.0 then GradeResult(AB, 0)
    else if exists k :: 0 <= k < |cells| && cells[k].Text? then GradeResult(Invalid, 0)
    else RelativeGrade(Numbers(cells), marks)
  }

  // ---------------------------------------------------------------------
  // One row
  // ---------------------------------------------------------------------

  /** The absolute upload path for one row. */
  function AbsoluteRow(row: Row): (o: Outcome)
    ensures o.Added? <==> Acceptable(row)
    ensures ToFloat(row.marks).None? ==> o == NotNumeric
    ensures o.Added? ==>
      && InRange(o.record.marks) && Some(o.record.marks) == ToFloat(row.marks)
      && o.record == RecordOf(row, o.record.marks, AbsoluteGrade(o.record.marks))
  {
    match ToFloat(row.marks)
    case None => NotNumeric
    case Some(m) => if m < -1.0 || m > 100.0 then OutOfRange else Added(RecordOf(row, m, AbsoluteGrade(m)))
  }

  /** The relative upload path for one row, ranked against its group's raw column. */
  function RelativeRow(row: Row, population: seq<Cell>): (o: Outcome)
    ensures o.Added? <==> Acceptable(row)
    ensures ToFloat(row.marks).None? ==> o == NotNumeric
    ensures o.Added? ==>
      && InRange(o.record.marks) && Some(o.record.marks) == ToFloat(row.marks)
      && o.record == RecordOf(row, o.record.marks, RelativeGradeCells(population, o.record.marks))
  {
    match ToFloat(row.marks)
    case None => NotNumeric
    case Some(m) => if m < -1.0 || m > 100.0 then OutOfRange else Added(RecordOf(row, m, RelativeGradeCells(population, m)))
  }

  // ---------------------------------------------------------------------
  // Counters
  // ---------------------------------------------------------------------

  /** The records a sequence of outcomes inserts, in order. */
  function Inserted(os: seq<Outcome>): (rs: seq<Record>)
    ensures |rs| <= |os|
  {
    if os == [] then []
    else Inserted(os[..|os| - 1]) + (if os[|os| - 1].Added? then [os[|os| - 1].record] else [])
  }

  /** How many outcomes are errors. */
  function CountRejected(os: seq<Outcome>): nat {
    if os == [] then 0
    else CountRejected(os[..|os| - 1]) + (if os[|os| - 1].Added? then 0 else 1)
  }

  /** Processing two runs of outcomes one after the other inserts and rejects
      what the two runs do separately. */
  lemma {:induction false} InsertedAppend(a: seq<Outcome>, b: seq<Outcome>)
    ensures Inserted(a + b) == Inserted(a) + Inserted(b)
    ensures CountRejected(a + b) == CountRejected(a) + CountRejected(b)
    decreases |b|
  {
    if b == [] {
      assert a + b == a;
    } else {
      var init := b[..|b| - 1];
      assert (a + b)[..|a + b| - 1] == a + init;
      assert (a + b)[|a + b| - 1] == b[|b| - 1];
      InsertedAppend(a, init);
    }
  }

  /** How many rows are acceptable. */
  function CountAcceptable(rows: seq<Row>): (n: nat)
    ensures n <= |rows|
  {
    if rows == [] then 0
    else CountAcceptable(rows[..|rows| - 1]) + (if Acceptable(rows[|rows| - 1]) then 1 else 0)
  }

  /** Every outcome is counted once: as a success or as an error. */
  lemma {:induction false} CountsAddUp(os: seq<Outcome>)
    ensures |Inserted(os)| + CountRejected(os) == |os|
  {
    if os != [] {
      CountsAddUp(os[..|os| - 1]);
    }
  }

  /** Every outcome that adds a record adds one whose marks pass the range check. */
  ghost predicate AddsInRange(os: seq<Outcome>) {
    forall i :: 0 <= i < |os| && os[i].Added? ==> InRange(os[i].record.marks)
  }

  lemma {:induction false} InsertedInRange(os: seq<Outcome>)
    requires AddsInRange(os)
    ensures forall j :: 0 <= j < |Inserted(os)| ==> InRange(Inserted(os)[j].marks)
  {
    if os != [] {
      var init := os[..|os| - 1];
      assert AddsInRange(init) by {
        forall i | 0 <= i < |init| && init[i].Added? ensures InRange(init[i].record.marks) {
          assert init[i] == os[i];
        }
      }
      InsertedInRange(init);
    }
  }

  lemma {:induction false} InsertedCountsAcceptable(os: seq<Outcome>, rows: seq<Row>)
    requires |os| == |rows|
    requires forall i :: 0 <= i < |os| ==> (os[i].Added? <==> Acceptable(rows[i]))
    ensures |Inserted(os)| == CountAcceptable(rows)
  {
    if os != [] {
      InsertedCountsAcceptable(os[..|os| - 1], rows[..|rows| - 1]);
    }
  }

  lemma {:induction false} CountAcceptableAppend(s: seq<Row>, t: seq<Row>)
    ensures CountAcceptable(s + t) == CountAcceptable(s) + CountAcceptable(t)
  {
    if t == [] {
      assert s + t == s;
    } else {
      assert (s + t)[..|s + t| - 1] == s + t[..|t| - 1];
      CountAcceptableAppend(s, t[..|t| - 1]);
    }
  }

  lemma CountAcceptableSingle(row: Row)
    ensures CountAcceptable([row]) == if Acceptable(row) then 1 else 0
  {
    assert [row][..0] == [];
  }

  lemma CountAcceptableRemove(s: seq<Row>, i: nat)
    requires i < |s|
    ensures CountAcceptable(s) == CountAcceptable(s[..i] + s[i+1..]) + (if Acceptable(s[i]) then 1 else 0)
  {
    assert s[..i] + s[i..] == s;
    CountAcceptableAppend(s[..i], s[i..]);
    assert [s[i]] + s[i+1..] == s[i..];
    CountAcceptableAppend([s[i]], s[i+1..]);
    CountAcceptableAppend(s[..i], s[i+1..]);
    CountAcceptableSingle(s[i]);
  }

  /** The number of acceptable rows depends only on the multiset of rows. */
  lemma {:induction false} CountAcceptablePermutation(p1: seq<Row>, p2: seq<Row>)
    requires multiset(p1) == multiset(p2)
    ensures CountAcceptable(p1) == CountAcceptable(p2)
    decreases |p1|
  {
    if p1 == [] {
      assert |p2| == |multiset(p2)| == 0;
    } else {
      var n := |p1| - 1;
      assert p1 == p1[..n] + [p1[n]];
      assert p1[n] in multiset(p2);
      var i :| 0 <= i < |p2| && p2[i] == p1[n];
      CountAcceptablePermutation(p1[..n], RemoveAt(p2, i));
      CountAcceptableRemove(p2, i);
      CountAcceptableRemove(p1, n);
      assert RemoveAt(p1, n) == p1[..n];
    }
  }

  // ---------------------------------------------------------------------
  // Grouping
  // ---------------------------------------------------------------------

  /** The rows with key `key`, in upload order. */
  function Group(rows: seq<Row>, key: (string, string)): (g: seq<Row>)
    ensures forall i :: 0 <= i < |g| ==> KeyOf(g[i]) == key
  {
    if rows == [] then []
    else
      var last := rows[|rows| - 1];
      Group(rows[..|rows| - 1], key) + (if KeyOf(last) == key then [last] else [])
  }

  /** The distinct keys of the rows, in order of first appearance. */
  function Keys(rows: seq<Row>): (ks: seq<(string, string)>)
    ensures forall i, j :: 0 <= i < j < |ks| ==> ks[i] != ks[j]
    ensures forall k :: k in ks <==> exists i :: 0 <= i < |rows| && KeyOf(rows[i]) == k
  {
    if rows == [] then []
    else
      var init := Keys(rows[..|rows| - 1]);
      var k := KeyOf(rows[|rows| - 1]);
      assert forall i :: 0 <= i < |rows| - 1 ==> rows[..|rows| - 1][i] == rows[i];
      if k in init then init else init + [k]
  }

  /** A group's raw marks column, as `group['Marks'].tolist()` gives it. */
  function GroupMarks(g: seq<Row>): (cells: seq<Cell>)
    ensures |cells| == |g|
    ensures forall i :: 0 <= i < |g| ==> cells[i] == g[i].marks
  {
    seq(|g|, i requires 0 <= i < |g| => g[i].marks)
  }

  /** The rows in the order the relative upload visits them: group by group. */
  function Flatten(rows: seq<Row>, ks: seq<(string, string)>): seq<Row> {
    if ks == [] then []
    else Flatten(rows, ks[..|ks| - 1]) + Group(rows, ks[|ks| - 1])
  }

  /** The outcomes of one group, every row ranked against the group's raw column. */
  function GroupOutcomes(g: seq<Row>): (os: seq<Outcome>)
    ensures |os| == |g|
    ensures forall i :: 0 <= i < |g| ==> os[i] == RelativeRow(g[i], GroupMarks(g))
  {
    var cells := GroupMarks(g);
    seq(|g|, i requires 0 <= i < |g| => RelativeRow(g[i], cells))
  }

  function RelativeOutcomesFor(rows: seq<Row>, ks: seq<(string, string)>): seq<Outcome> {
    if ks == [] then []
    else RelativeOutcomesFor(rows, ks[..|ks| - 1]) + GroupOutcomes(Group(rows, ks[|ks| - 1]))
  }

  /** Taking one more key appends that key's group outcomes. */
  lemma RelativeOutcomesForSnoc(rows: seq<Row>, ks: seq<(string, string)>, i: nat)
    requires i < |ks|
    ensures RelativeOutcomesFor(rows, ks[..i + 1]) ==
      RelativeOutcomesFor(rows, ks[..i]) + GroupOutcomes(Group(rows, ks[i]))
  {
    assert ks[..i + 1][..i] == ks[..i];
  }

  /** The outcomes of a relative upload, in the order the rows are processed. */
  function RelativeOutcomes(rows: seq<Row>): seq<Outcome> {
    RelativeOutcomesFor(rows, Keys(rows))
  }

  /** The outcomes of an absolute upload, row by row in upload order. */
  function AbsoluteOutcomes(rows: seq<Row>): (os: seq<Outcome>)
    ensures |os| == |rows|
    ensures forall i :: 0 <= i < |rows| ==> os[i] == AbsoluteRow(rows[i])
  {
    seq(|rows|, i requires 0 <= i < |rows| => AbsoluteRow(rows[i]))
  }

  function Outcomes(rows: seq<Row>, policy: Policy): seq<Outcome> {
    match policy
    case Absolute => AbsoluteOutcomes(rows)
    case Relative => RelativeOutcomes(rows)
  }

  // Partition: every uploaded row is processed exactly once.

  /** Every row with the key is in its group. */
  lemma {:induction false} GroupComplete(rows: seq<Row>, key: (string, string))
    ensures forall i :: 0 <= i < |rows| && KeyOf(rows[i]) == key ==> rows[i] in Group(rows, key)
  {
    if rows != [] {
      var init := rows[..|rows| - 1];
      GroupComplete(init, key);
      forall i | 0 <= i < |rows| - 1 && KeyOf(rows[i]) == key
        ensures rows[i] in Group(rows, key)
      {
        assert init[i] == rows[i];
      }
    }
  }

  /** A key no row carries has an empty group. */
  lemma GroupEmpty(rows: seq<Row>, key: (string, string))
    requires forall i :: 0 <= i < |rows| ==> KeyOf(rows[i]) != key
    ensures Group(rows, key) == []
  {
  }

  lemma GroupAppend(rows: seq<Row>, r: Row, key: (string, string))
    ensures Group(rows + [r], key) == Group(rows, key) + (if KeyOf(r) == key then [r] else [])
  {
    assert (rows + [r])[..|rows|] == rows;
  }

  lemma {:induction false} FlattenAppendOther(rows: seq<Row>, r: Row, ks: seq<(string, string)>)
    requires KeyOf(r) !in ks
    ensures Flatten(rows + [r], ks) == Flatten(rows, ks)
  {
    if ks != [] {
      FlattenAppendOther(rows, r, ks[..|ks| - 1]);
      GroupAppend(rows, r, ks[|ks| - 1]);
    }
  }

  /** A row whose key is listed, appended at the end of the upload, joins
      the flattened groups exactly once. */
  lemma {:induction false} FlattenAppendMember(rows: seq<Row>, r: Row, ks: seq<(string, string)>)
    requires KeyOf(r) in ks
    requires forall i, j :: 0 <= i < j < |ks| ==> ks[i] != ks[j]
    ensures multiset(Flatten(rows + [r], ks)) == multiset(Flatten(rows, ks)) + multiset{r}
    decreases |ks|
  {
    var n := |ks| - 1;
    if KeyOf(r) == ks[n] {
      FlattenAppendLast(rows, r, ks);
    } else {
      var init := ks[..n];
      InitMember(ks, KeyOf(r));
      assert forall i, j :: 0 <= i < j < |init| ==> init[i] != init[j] by {
        forall i, j | 0 <= i < j < |init| ensures init[i] != init[j] {
          assert init[i] == ks[i] && init[j] == ks[j];
        }
      }
      FlattenAppendMember(rows, r, init);
      GroupAppend(rows, r, ks[n]);
      MultisetConcat(Flatten(rows, init), Group(rows, ks[n]));
      MultisetConcat(Flatten(rows + [r], init), Group(rows + [r], ks[n]));
    }
  }

  /** The case where the appended row's key is the last listed one. */
  lemma FlattenAppendLast(rows: seq<Row>, r: Row, ks: seq<(string, string)>)
    requires ks != [] && KeyOf(r) == ks[|ks| - 1]
    requires forall i, j :: 0 <= i < j < |ks| ==> ks[i] != ks[j]
    ensures multiset(Flatten(rows + [r], ks)) == multiset(Flatten(rows, ks)) + multiset{r}
  {
    var n := |ks| - 1;
    var init, k := ks[..n], ks[n];
    assert KeyOf(r) !in init by {
      forall i | 0 <= i < n ensures init[i] != k {
        assert init[i] == ks[i];
      }
    }
    FlattenAppendOther(rows, r, init);
    GroupAppend(rows, r, k);
    MultisetConcat(Flatten(rows, init), Group(rows, k));
    MultisetConcat(Flatten(rows, init), Group(rows, k) + [r]);
    MultisetConcat(Group(rows, k), [r]);
  }

  /** Grouping loses no row and duplicates none. */
  lemma {:induction false} FlattenPermutation(rows: seq<Row>)
    ensures multiset(Flatten(rows, Keys(rows))) == multiset(rows)
  {
    if rows != [] {
      var init := rows[..|rows| - 1];
      var r := rows[|rows| - 1];
      InitLast(rows);
      FlattenPermutation(init);
      var ks := Keys(init);
      MultisetConcat(init, [r]);
      if KeyOf(r) in ks {
        assert Keys(rows) == ks;
        FlattenAppendMember(init, r, ks);
      } else {
        var k := KeyOf(r);
        assert Keys(rows) == ks + [k];
        FlattenAppendOther(init, r, ks);
        GroupAppend(init, r, k);
        GroupEmpty(init, k);
        assert Flatten(rows, ks + [k]) == Flatten(rows, ks) + Group(rows, k) by {
          assert (ks + [k])[..|ks|] == ks;
        }
        MultisetConcat(Flatten(rows, ks), Group(rows, k));
      }
    }
  }

  /** What a relative upload does with one row: rank it against the raw marks
      column of the row's own group. */
  function RowOutcome(rows: seq<Row>, r: Row): Outcome {
    RelativeRow(r, GroupMarks(Group(rows, KeyOf(r))))
  }

  /** Every row of a group is ranked against that group's column. */
  lemma GroupOutcomesAt(rows: seq<Row>, key: (string, string))
    ensures forall j :: 0 <= j < |Group(rows, key)| ==>
      GroupOutcomes(Group(rows, key))[j] == RowOutcome(rows, Group(rows, key)[j])
  {
  }

  /** The relative outcomes, position by position, are the rows of the
      flattened groups each ranked against its own group. */
  lemma {:induction false} RelativeOutcomesForAt(rows: seq<Row>, ks: seq<(string, string)>)
    ensures |RelativeOutcomesFor(rows, ks)| == |Flatten(rows, ks)|
    ensures forall i :: 0 <= i < |Flatten(rows, ks)| ==>
      RelativeOutcomesFor(rows, ks)[i] == RowOutcome(rows, Flatten(rows, ks)[i])
  {
    if ks != [] {
      var init := ks[..|ks| - 1];
      RelativeOutcomesForAt(rows, init);
      var g := Group(rows, ks[|ks| - 1]);
      GroupOutcomesAt(rows, ks[|ks| - 1]);
      var f, os, gs := Flatten(rows, init), RelativeOutcomesFor(rows, init), GroupOutcomes(g);
      assert Flatten(rows, ks) == f + g;
      assert RelativeOutcomesFor(rows, ks) == os + gs;
      ConcatMap(r => RowOutcome(rows, r), f, g, os, gs);
    }
  }

  // ---------------------------------------------------------------------
  // Properties of an upload
  // ---------------------------------------------------------------------

  /** The counters add up to the number of rows, successes are exactly the
      acceptable rows, and errors exactly the others. */
  lemma UploadCounts(rows: seq<Row>, policy: Policy)
    ensures |Inserted(Outcomes(rows, policy))| == CountAcceptable(rows)
    ensures CountRejected(Outcomes(rows, policy)) == |rows| - CountAcceptable(rows)
    ensures |Inserted(Outcomes(rows, policy))| + CountRejected(Outcomes(rows, policy)) == |rows|
  {
    var os := Outcomes(rows, policy);
    if policy == Relative {
      var f := Flatten(rows, Keys(rows));
      RelativeOutcomesForAt(rows, Keys(rows));
      FlattenPermutation(rows);
      assert |f| == |multiset(f)| == |multiset(rows)| == |rows|;
      InsertedCountsAcceptable(os, f);
      CountAcceptablePermutation(f, rows);
    } else {
      InsertedCountsAcceptable(os, rows);
    }
    CountsAddUp(os);
  }

  /** No upload inserts a record whose marks fail the range check. */
  lemma UploadInsertsInRange(rows: seq<Row>, policy: Policy)
    ensures forall j :: 0 <= j < |Inserted(Outcomes(rows, policy))| ==>
      InRange(Inserted(Outcomes(rows, policy))[j].marks)
  {
    var os := Outcomes(rows, policy);
    assert AddsInRange(os) by {
      if policy == Relative {
        RelativeOutcomesForAt(rows, Keys(rows));
      }
    }
    InsertedInRange(os);
  }

  /** In a relative upload, one text cell in a group's column turns every present
      student of that group into Invalid/0, and those rows are still inserted. */
  lemma TextCellInvalidatesGroup(rows: seq<Row>, i: nat, j: nat)
    requires i < |Flatten(rows, Keys(rows))| && j < |rows|
    requires rows[j].marks.Text? && KeyOf(rows[j]) == KeyOf(Flatten(rows, Keys(rows))[i])
    requires Acceptable(Flatten(rows, Keys(rows))[i])
    requires ToFloat(Flatten(rows, Keys(rows))[i].marks).value != -1.0
    ensures i < |RelativeOutcomes(rows)| && RelativeOutcomes(rows)[i].Added?
    ensures RelativeOutcomes(rows)[i].record.grade == Invalid
    ensures RelativeOutcomes(rows)[i].record.gradePoint == 0
  {
    var row := Flatten(rows, Keys(rows))[i];
    RelativeOutcomesForAt(rows, Keys(rows));
    var g := Group(rows, KeyOf(row));
    GroupComplete(rows, KeyOf(row));
    assert rows[j] in g;
    var k :| 0 <= k < |g| && g[k] == rows[j];
    assert GroupMarks(g)[k].Text?;
  }

  /** A mark strictly between -1 and 0 passes the range check of the upload
      and is stored, with the grade Invalid/0 that absolute grading gives it. */
  lemma NegativeFractionStored(row: Row, m: real)
    requires row.marks == Num(m) && -1.0 < m < 0.0
    ensures AbsoluteRow(row) == Added(RecordOf(row, m, GradeResult(Invalid, 0)))
    ensures |Inserted(AbsoluteOutcomes([row]))| == 1 && CountRejected(AbsoluteOutcomes([row])) == 0
  {
    assert AbsoluteOutcomes([row]) == [AbsoluteRow(row)];
    assert [AbsoluteRow(row)][..0] == [];
  }

  /** Two rows with one key form one group, processed in upload order. */
  lemma OneGroupOfTwo(r1: Row, r2: Row)
    requires KeyOf(r1) == KeyOf(r2)
    ensures RelativeOutcomes([r1, r2]) == GroupOutcomes([r1, r2])
  {
    var rows, k := [r1, r2], KeyOf(r1);
    assert rows[..1] == [r1];
    assert [r1][..0] == [];
    assert Keys([r1]) == [k];
    assert Keys(rows) == [k];
    assert Group([r1], k) == [r1];
    assert Group(rows, k) == rows;
    assert [k][..0] == [];
    assert RelativeOutcomes(rows) == RelativeOutcomesFor(rows, []) + GroupOutcomes(Group(rows, k));
  }

  lemma RankedAgainst150()
    ensures RelativeGradeCells([Num(85.0), Num(150.0)], 85.0) == GradeResult(F, 0)
  {
    var cells := [Num(85.0), Num(150.0)];
    assert Numbers(cells) == [85.0, 150.0];
    assert ValidMarks([85.0, 150.0]) == [85.0, 150.0];
    assert CountBelow([85.0, 150.0], 85.0) == 0;
  }

  /** An out-of-range mark still counts in its group's population: next to a
      150, an 85 is at the 0th percentile and gets F/0 (absolute grading gives A/9). */
  lemma RawPopulationExample(r1: Row, r2: Row)
    requires r1.marks == Num(85.0) && r2.marks == Num(150.0) && KeyOf(r1) == KeyOf(r2)
    ensures RelativeOutcomes([r1, r2]) == [Added(RecordOf(r1, 85.0, GradeResult(F, 0))), OutOfRange]
    ensures AbsoluteOutcomes([r1, r2]) == [Added(RecordOf(r1, 85.0, GradeResult(A, 9))), OutOfRange]
  {
    OneGroupOfTwo(r1, r2);
    RankedAgainst150();
    var cells := [Num(85.0), Num(150.0)];
    assert GroupMarks([r1, r2]) == cells;
  }

  /** Under absolute grading, rows 85 and 150 of one cohort give one success (A/9)
      and one out-of-range error. */
  lemma AbsoluteUploadExample(r1: Row, r2: Row)
    requires r1.marks == Num(85.0) && r2.marks == Num(150.0)
    ensures Inserted(AbsoluteOutcomes([r1, r2])) == [RecordOf(r1, 85.0, GradeResult(A, 9))]
    ensures CountRejected(AbsoluteOutcomes([r1, r2])) == 1
  {
    var os := AbsoluteOutcomes([r1, r2]);
    assert os == [Added(RecordOf(r1, 85.0, GradeResult(A, 9))), OutOfRange];
    assert os[..1][..0] == [];
    assert Inserted(os[..1]) == [RecordOf(r1, 85.0, GradeResult(A, 9))];
    assert CountRejected(os[..1]) == 0;
  }
}
