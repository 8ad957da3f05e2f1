# SRAS grading engine in Dafny

The Student Result Analysis System keeps a table of student marks. Each row
holds a roll number, a name, a semester, a subject, the marks, a branch, and a
letter grade with its grade point. This project models how that table is
graded and proves properties of the model:

- **Absolute grading.** A mark is mapped to S/A/B/C/D/E/F by fixed
  thresholds. -1 means the student was absent (AB). Other marks outside
  [0, 100] are Invalid.
- **Relative grading.** A mark is ranked by its percentile: 100 times the
  number of non-negative marks of the cohort list that lie strictly below
  it, divided by the number of non-negative marks. A (semester, subject)
  pair is a cohort. The percentile is bucketed at 90/75/50/25/10/5.
- **Re-grading one cohort.** A snapshot is taken of the cohort's
  `(id, marks)` pairs with marks >= 0. Every selected row's grade is then
  overwritten with its relative grade against that snapshot, and the number
  of rows updated is returned.
- **Single entry.** The form is validated. Under relative grading the
  candidate's mark is appended to the cohort's current marks before ranking.
  One row is inserted.
- **Bulk upload.** Every row of a parsed file is handled in one of two ways:
  - relative: rows are grouped by (semester, subject), and each row is ranked
    against its group's raw marks column;
  - absolute: rows are graded one by one.

  A row whose mark does not parse or fails the range check is counted as an
  error. Every other row is inserted and counted as a success.

Modules:

- `Grading` (grading.dfy): the two classifiers, as pure functions. It also
  has reference band tables and lemmas for bands, monotonicity and
  independence from list order.
- `Cohort` (cohort.dfy): the table as a sequence of records, the cohort
  query, and re-grading as a function on tables, with its lemmas (frame,
  consistency, fixpoint, idempotence).
- `Ingest` (ingest.dfy): parsing of a mark cell, the range check, the
  outcome of each uploaded row under each policy, grouping, and the counters.
  It proves that grouping is a permutation of the rows and that the counters
  add up.
- `Store` (store.dfy): the table as a class `StudentTable` with a `records`
  field. Its methods mirror the source's loops. Each method is proved
  against the functions of the other modules.
- `Seqs` (seqs.dfy): generic lemmas about sequence concatenation.

Behaviour of app.py that the model makes explicit:

- Ranking `71` among `[95, 82, 71, 60, 40, 20, 71]` gives percentile 3/7,
  about 42.9. That is the `>= 25` branch at app.py:78-79, so the grade is
  C/7. See `Grading.SingleEntryExample`.
- Re-grading selects the cohort's rows with `marks >= 0` (app.py:95-98). A
  row whose stored grade is Invalid is selected like any other.
- In a relative upload a group's population is its raw marks column
  (app.py:273). It includes marks that fail the range check. See
  `Ingest.RawPopulationExample`.
- The bulk upload reports two counters, successes and errors (app.py:266-267).
- A bad row does not stop the upload: it is counted as an error and the rest
  of the rows are still processed (app.py:282-283, 292-294, 307-308,
  317-319). The inserted rows are committed together once, after the loop
  (app.py:321).
- A mark strictly between -1 and 0 passes the range check `marks < -1 or
  marks > 100`. It gets Invalid/0 from absolute grading and is stored. See
  `Ingest.NegativeFractionStored`.

## Model

| member | source | states |
|---|---|---|
| Grading.PointOf | OneDrive/Desktop/DBMS/SRAS/app.py:32-49 | the grade point of each label lies in 0..10 and is positive only for a letter grade |
| Grading.AbsoluteGrade | OneDrive/Desktop/DBMS/SRAS/app.py:28-51 | AB exactly for -1; Invalid exactly for other marks outside [0,100]; a letter exactly for marks in [0,100]; the point is always the label's point |
| Grading.AbsoluteBands | OneDrive/Desktop/DBMS/SRAS/app.py:36-49 | an in-range mark gets the highest band of the threshold table whose inclusive floor it reaches: it is at least its band's floor and below the floor of every higher band |
| Grading.AbsoluteMonotone | OneDrive/Desktop/DBMS/SRAS/app.py:32-49 | up to 100, a higher mark never earns fewer grade points |
| Grading.AbsoluteExamples | OneDrive/Desktop/DBMS/SRAS/app.py:32-49 | band edges are inclusive (40 gives E/5, 39.9 gives F/0, 90 gives S/10); -1 gives AB/0; -0.5 and 150 give Invalid/0 |
| Grading.ValidMarks | OneDrive/Desktop/DBMS/SRAS/app.py:63-64 | the population holds exactly the list's marks that are >= 0 and is no longer than the list |
| Grading.CountBelow | OneDrive/Desktop/DBMS/SRAS/app.py:69 | the number of population marks strictly below the mark is at most the population size |
| Grading.PercentileGrade | OneDrive/Desktop/DBMS/SRAS/app.py:71-85 | bucketing a non-empty population's percentile always gives a letter grade with its own point |
| Grading.RelativeGrade | OneDrive/Desktop/DBMS/SRAS/app.py:53-87 | AB exactly for -1; with no mark >= 0 in the list the result is the absolute grade; Invalid only in that fallback; the point is always the label's point |
| Grading.PercentileBands | OneDrive/Desktop/DBMS/SRAS/app.py:69-85 | the bucket is the highest band of the percentile table whose inclusive floor 100*below/size reaches, tested by cross-multiplication |
| Grading.RelativeBands | OneDrive/Desktop/DBMS/SRAS/app.py:58-85 | for a present student and a non-empty population, the grade is a letter whose percentile floor is reached by 100*#below/#valid, while every higher band's floor is not |
| Grading.ValidMarksMultiset | OneDrive/Desktop/DBMS/SRAS/app.py:64 | filtering keeps the multiplicity of each non-negative mark and drops every negative one |
| Grading.CountBelowAppend | OneDrive/Desktop/DBMS/SRAS/app.py:69 | the count below is additive over concatenation |
| Grading.CountBelowRemove | OneDrive/Desktop/DBMS/SRAS/app.py:69 | removing one mark lowers the count below by exactly that mark's contribution |
| Grading.CountBelowPermutation | OneDrive/Desktop/DBMS/SRAS/app.py:69 | the count below depends only on the multiset of the population |
| Grading.RelativePermutation | OneDrive/Desktop/DBMS/SRAS/app.py:53-87 | the relative grade depends only on the multiset of the cohort list, not its order |
| Grading.CountBelowMonotone | OneDrive/Desktop/DBMS/SRAS/app.py:69 | a higher mark has at least as many population marks below it |
| Grading.CountBelowNone | OneDrive/Desktop/DBMS/SRAS/app.py:69 | a mark no larger than every population mark has nothing below it |
| Grading.PercentileMonotone | OneDrive/Desktop/DBMS/SRAS/app.py:71-85 | a larger count below never gives fewer grade points |
| Grading.RelativeMonotone | OneDrive/Desktop/DBMS/SRAS/app.py:58-85 | for a fixed cohort list a higher mark never earns fewer grade points, when either the population is non-empty or both marks are at most 100 |
| Grading.ValidMarksAppend | OneDrive/Desktop/DBMS/SRAS/app.py:64 | filtering distributes over concatenation |
| Grading.OwnPopulation | OneDrive/Desktop/DBMS/SRAS/app.py:208-210 | once a non-negative candidate is appended to the cohort's marks, the population is non-empty and the candidate's percentile is below 100 |
| Grading.SingleEntryExample | OneDrive/Desktop/DBMS/SRAS/app.py:208-210 | cohort [95,82,71,60,40,20] with candidate 71 appended gives C/7 |
| Cohort.SelectFrom | OneDrive/Desktop/DBMS/SRAS/app.py:95-100 | every entry of the query result names a row of the table in the cohort (same semester and subject, marks >= 0) and carries that row's marks |
| Cohort.SelectFromOrdered | OneDrive/Desktop/DBMS/SRAS/app.py:95-100 | the query result lists ids in strictly increasing order, so no row twice |
| Cohort.SelectFromComplete | OneDrive/Desktop/DBMS/SRAS/app.py:95-100 | every cohort row appears in the query result with its id and marks |
| Cohort.InCohort | OneDrive/Desktop/DBMS/SRAS/app.py:95-98 | a row is in the cohort exactly when its semester and subject are equal, as exact strings, to the given ones and its marks are >= 0, the WHERE clause of the query with an exact string comparison in place of the collation (see "## Left out") |
| Cohort.Select | OneDrive/Desktop/DBMS/SRAS/app.py:95-100 | the query result over the whole table, in table order; `SelectFrom` at position 0 states what it holds |
| Cohort.MarksOf | OneDrive/Desktop/DBMS/SRAS/app.py:104 | the snapshot marks list has one entry per selected row, in query order |
| Cohort.CohortMarks | OneDrive/Desktop/DBMS/SRAS/app.py:204-208 | the cohort's marks, >= 0, in table order; the same query narrowed to its marks column also gives the re-grading snapshot at app.py:104, and `CohortMarksMembers` states its members |
| Cohort.CohortMarksMembers | OneDrive/Desktop/DBMS/SRAS/app.py:95-104 | a mark is in the snapshot list exactly when some cohort row has it |
| Cohort.SelectFromSameKeys | OneDrive/Desktop/DBMS/SRAS/app.py:95-98 | the query depends only on semester, subject and marks of each row |
| Cohort.RegradedBySelection | OneDrive/Desktop/DBMS/SRAS/app.py:106-116 | a table that re-grades exactly the selected ids, against the snapshot, and keeps every other row is the re-graded table |
| Cohort.Regrade | OneDrive/Desktop/DBMS/SRAS/app.py:109-114 | one row with its grade and grade point overwritten by its relative grade against the marks list, every other field kept |
| Cohort.Regraded | OneDrive/Desktop/DBMS/SRAS/app.py:104-116 | the table after every cohort row is re-graded against the cohort's own snapshot; the other rows are kept, and `RegradedFrame`, `RegradedConsistent`, `RegradedFixpoint` and `RegradeIdempotent` state its properties |
| Cohort.RegradedFrame | OneDrive/Desktop/DBMS/SRAS/app.py:106-116 | re-grading keeps the length and all non-grade fields; rows outside the cohort are unchanged; each cohort row gets its relative grade against the snapshot |
| Cohort.EmptyCohortUnchanged | OneDrive/Desktop/DBMS/SRAS/app.py:100-102 | with an empty snapshot, re-grading changes nothing |
| Cohort.RegradedSameCohort | OneDrive/Desktop/DBMS/SRAS/app.py:94-116 | re-grading leaves the query result and the snapshot marks as they were |
| Cohort.RegradedConsistent | OneDrive/Desktop/DBMS/SRAS/app.py:89-119 | after re-grading, every cohort row's grade is its relative grade against the cohort's current marks |
| Cohort.RegradedFixpoint | OneDrive/Desktop/DBMS/SRAS/app.py:89-119 | re-grading leaves a table unchanged if and only if its cohort is already consistent |
| Cohort.RegradeIdempotent | OneDrive/Desktop/DBMS/SRAS/app.py:89-119 | re-grading twice gives the same table as re-grading once |
| Cohort.RegradedMonotone | OneDrive/Desktop/DBMS/SRAS/app.py:104-115 | after re-grading, a cohort row with at least the marks of another has at least its grade points, and equal marks get equal grades |
| Ingest.RelativeGradeCells | OneDrive/Desktop/DBMS/SRAS/app.py:53-87 | an absent candidate (-1) gets AB/0 whatever the column holds, because app.py:60-61 decides it first; otherwise one text cell in the column gives Invalid/0; a column of numbers only gives the relative grade of those numbers; the point is always the label's point |
| Ingest.ToFloat | OneDrive/Desktop/DBMS/SRAS/app.py:278 | `float()` of a marks cell: a numeric cell is its value, and a text cell is the number it parses to, or nothing when `float()` raises; the same cast as app.py:303 |
| Ingest.KeyOf | OneDrive/Desktop/DBMS/SRAS/app.py:271 | the `groupby(['Semester', 'Subject'])` key of a row: its semester and its subject |
| Ingest.RecordOf | OneDrive/Desktop/DBMS/SRAS/app.py:287-290 | the VALUES tuple of the INSERT: the row's roll number, name, semester, subject and branch, the parsed marks and the grade with its point, as at app.py:312-315; the relative branch inserts the group key `sem, subj`, which equals the row's own semester and subject because every row of a group has the group's key (`Ingest.Group`) |
| Ingest.Acceptable | OneDrive/Desktop/DBMS/SRAS/app.py:278-283 | a row is inserted exactly when `float()` of its marks succeeds and the result passes the range check, as at app.py:303-308 |
| Ingest.InRange | OneDrive/Desktop/DBMS/SRAS/app.py:281-283 | the range check: a mark passes exactly when it is neither below -1 nor above 100, the same test as app.py:196 and 306 |
| Ingest.PolicyOf | OneDrive/Desktop/DBMS/SRAS/app.py:270 | grading is relative exactly when the `grading_type` field is the text "relative"; any other value, including the default "absolute", grades absolutely, as at app.py:201 and 189 |
| Ingest.AbsoluteRow | OneDrive/Desktop/DBMS/SRAS/app.py:297-319 | a row is inserted exactly when its mark parses and passes the range check, with its own fields, its mark and the absolute grade; an unparsable mark is an error |
| Ingest.RelativeRow | OneDrive/Desktop/DBMS/SRAS/app.py:274-294 | a row is inserted exactly when its mark parses and passes the range check, with its own fields, its mark and its grade against the group column; an unparsable mark is an error |
| Ingest.InsertedAppend | OneDrive/Desktop/DBMS/SRAS/app.py:266-319 | records inserted and errors counted over two runs of rows are those of each run, in order |
| Ingest.Inserted | OneDrive/Desktop/DBMS/SRAS/app.py:287-291 | the records inserted by a run of outcomes, one per inserting outcome, in order; `InsertedAppend` and `CountsAddUp` state how it relates to the counters |
| Ingest.CountRejected | OneDrive/Desktop/DBMS/SRAS/app.py:281-294 | the number of outcomes counted in `error_count`: each unparsable or out-of-range row counts one |
| Ingest.CountsAddUp | OneDrive/Desktop/DBMS/SRAS/app.py:281-293 | every row is counted once, as a success or as an error |
| Ingest.InsertedInRange | OneDrive/Desktop/DBMS/SRAS/app.py:281-291 | when every inserting outcome passed the range check, so does every inserted record |
| Ingest.InsertedCountsAcceptable | OneDrive/Desktop/DBMS/SRAS/app.py:281-291 | when outcomes insert exactly for acceptable rows, the number inserted is the number of acceptable rows |
| Ingest.CountAcceptableAppend | OneDrive/Desktop/DBMS/SRAS/app.py:278-283 | the number of acceptable rows is additive over concatenation |
| Ingest.CountAcceptablePermutation | OneDrive/Desktop/DBMS/SRAS/app.py:271-283 | the number of acceptable rows depends only on the multiset of rows, so regrouping does not change it |
| Ingest.Group | OneDrive/Desktop/DBMS/SRAS/app.py:271-272 | every row of a group has the group's key |
| Ingest.Keys | OneDrive/Desktop/DBMS/SRAS/app.py:271-272 | the group keys are distinct and are exactly the keys of the uploaded rows |
| Ingest.GroupMarks | OneDrive/Desktop/DBMS/SRAS/app.py:273 | a group's marks column holds each row's raw mark cell, in group order |
| Ingest.GroupOutcomes | OneDrive/Desktop/DBMS/SRAS/app.py:273-294 | each row of a group is handled against that group's raw column |
| Ingest.AbsoluteOutcomes | OneDrive/Desktop/DBMS/SRAS/app.py:297-319 | the absolute upload handles each row on its own, in upload order |
| Ingest.GroupComplete | OneDrive/Desktop/DBMS/SRAS/app.py:271-272 | every row with a key is in that key's group |
| Ingest.GroupEmpty | OneDrive/Desktop/DBMS/SRAS/app.py:271-272 | a key no row has has an empty group |
| Ingest.GroupAppend | OneDrive/Desktop/DBMS/SRAS/app.py:271-274 | appending a row to the upload appends it to its own key's group only, preserving order within the group |
| Ingest.Flatten | OneDrive/Desktop/DBMS/SRAS/app.py:271-274 | the rows of the groups of the given keys, group after group, each group in upload order; `FlattenPermutation` states that the groups of all keys visit every row exactly once |
| Ingest.RelativeOutcomesFor | OneDrive/Desktop/DBMS/SRAS/app.py:271-294 | the outcomes of the groups of the given keys, group after group; `RelativeOutcomesForAt` states them position by position |
| Ingest.RelativeOutcomes | OneDrive/Desktop/DBMS/SRAS/app.py:270-294 | the outcomes of a relative upload: every group, visited in order of first appearance of its key |
| Ingest.Outcomes | OneDrive/Desktop/DBMS/SRAS/app.py:270-319 | the outcomes under the chosen policy: the grouped relative upload or the row-by-row absolute upload; `UploadCounts` states its counters |
| Ingest.FlattenPermutation | OneDrive/Desktop/DBMS/SRAS/app.py:271-274 | visiting the groups one after the other visits every uploaded row exactly once |
| Ingest.RelativeOutcomesForAt | OneDrive/Desktop/DBMS/SRAS/app.py:271-294 | position by position, the relative upload handles the rows of the visited groups, each against its own group's column |
| Ingest.UploadCounts | OneDrive/Desktop/DBMS/SRAS/app.py:266-319 | under either policy, successes are the acceptable rows, errors the others, and the two add up to the number of rows |
| Ingest.UploadInsertsInRange | OneDrive/Desktop/DBMS/SRAS/app.py:281-283 | no upload inserts a record whose marks fail the range check |
| Ingest.TextCellInvalidatesGroup | OneDrive/Desktop/DBMS/SRAS/app.py:273-291 | one text cell in a group's column makes every present, acceptable row of that group be inserted with Invalid/0 |
| Ingest.NegativeFractionStored | OneDrive/Desktop/DBMS/SRAS/app.py:303-316 | a mark strictly between -1 and 0 is inserted with Invalid/0 and counted as a success |
| Ingest.OneGroupOfTwo | OneDrive/Desktop/DBMS/SRAS/app.py:271-274 | two rows with one key form one group, handled in upload order |
| Ingest.RankedAgainst150 | OneDrive/Desktop/DBMS/SRAS/app.py:273-285 | 85 ranked against the column [85, 150] is at percentile 0 and gets F/0 |
| Ingest.RawPopulationExample | OneDrive/Desktop/DBMS/SRAS/app.py:270-319 | rows 85 and 150 of one cohort: relative upload inserts 85 as F/0 and rejects 150; absolute upload inserts 85 as A/9 and rejects 150 |
| Ingest.AbsoluteUploadExample | OneDrive/Desktop/DBMS/SRAS/app.py:296-319 | rows 85 and 150 under absolute grading insert one A/9 record and count one error |
| Store.AnyFieldEmpty | OneDrive/Desktop/DBMS/SRAS/app.py:191-193 | single entry needs every text field; the form is refused when any of roll number, name, semester, subject, marks or branch is empty |
| Store.StudentTable.AddStudent | OneDrive/Desktop/DBMS/SRAS/app.py:183-221 | an empty field, an unparsable mark or a mark out of range is refused and the table is unchanged; a form with every field and a parsable mark in [-1, 100] is saved, and a saved form appends exactly one record, graded against the cohort's marks plus the candidate (relative) or by thresholds (absolute) |
| Store.StudentTable.ApplyRelativeGrading | OneDrive/Desktop/DBMS/SRAS/app.py:89-122 | the new table is the re-graded table, the count returned is the snapshot's size, an empty cohort leaves the table unchanged, and the cohort ends consistent |
| Store.StudentTable.UploadGroup | OneDrive/Desktop/DBMS/SRAS/app.py:273-294 | the table grows by exactly the records the group's outcomes insert, and the two counters are that group's successes and errors |
| Store.StudentTable.UploadRelative | OneDrive/Desktop/DBMS/SRAS/app.py:270-294 | the table grows by the records of the relative outcomes, group by group, and the counters match them |
| Store.StudentTable.UploadAbsolute | OneDrive/Desktop/DBMS/SRAS/app.py:295-319 | the table grows by the records of the absolute outcomes, row by row, and the counters match them |
| Store.StudentTable.UploadResults | OneDrive/Desktop/DBMS/SRAS/app.py:265-325 | the table grows by exactly the records the chosen policy inserts; successes equal the acceptable rows, errors the rest, and they add up to the number of rows |

## Left out

- HTTP routes, sessions, the admin check, templates and flash messages are not modelled. The operations return their outcome (`Submission`, `Report`, the count) instead.
- The MySQL database is not modelled. The table is an in-memory sequence and a row's id is its position. Commits and cursors are not modelled.
- Database failures are not modelled. In the source a failure makes re-grading return 0 and makes single entry flash an error. In the upload a failure outside the row loop (opening the cursor, the commit) flashes an error.
- A failing INSERT of one uploaded row is counted in `error_count` in the source, because the INSERT sits inside the per-row `try` (app.py:287-294, 312-319). The model's inserts cannot fail, so an acceptable row is always a success.
- File handling is not modelled: the presence and extension checks, saving, CSV/Excel decoding, the required-columns check and deleting the file. The upload takes rows that are already parsed.
- The `.strip()` and `str()` normalisation of text fields is not modelled. Fields are taken as given strings.
- pandas reads a Semester such as `3` as a number. It is modelled as text throughout.
- `float()` is modelled as data, not code. For single entry it is `Form.parsedMarks`. For uploads it is the `Cell` datatype: a number, or text with the value `float()` would give (None when it raises). In a CSV column that holds any text, pandas reads every cell as text.
- Floating point is not modelled: marks are exact reals. NaN from blank cells, infinities and the rounding of `(count / len) * 100` are left out. The percentile bands are tested by exact cross-multiplication.
- Store.StudentTable.UploadRelative: visits the groups in order of first appearance, while pandas `groupby` visits them in sorted key order. Only the order in which records are appended differs. Rows within a group keep upload order as in the source, and the counts are the same.
- Store.StudentTable.UploadResults: gives every row a semester and a subject. By default pandas `groupby` drops rows whose key is missing, and the source then neither inserts nor counts them.
- Exceptions inside the classifiers are modelled only where they can arise from modelled data. That is a text cell in a group's column, which makes `m >= 0` raise and gives Invalid/0.
- Cohort.InCohort: compares semester and subject with exact string equality. MySQL's `=` in the queries at app.py:97 and app.py:206 compares under the column's collation, which is case-insensitive by default, so in the source `Math` and `math` form one cohort for re-grading and single entry (while the upload's pandas `groupby` at app.py:271 keeps them apart). Collations are not modelled.
- Concurrent requests on one cohort are not modelled. The operations run one at a time.
