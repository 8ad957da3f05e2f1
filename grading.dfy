/** The two classifiers of the grading engine: absolute grading (fixed mark
    thresholds) and relative grading (percentile rank within a cohort).
    Marks are real numbers; -1 is the sentinel for an absent student. */
module Grading {
  import opened Seqs

  datatype Grade = S | A | B | C | D | E | F | AB | Invalid

  /** The (grade, grade_point) pair both classifiers return. */
  datatype GradeResult = GradeResult(grade: Grade, point: int)

  /** The seven letter grades: every label except AB and Invalid. */
  predicate IsLetter(g: Grade) {
    !g.AB? && !g.Invalid?
  }

  /** The grade point that goes with each label; AB and Invalid carry 0. */
  function PointOf(g: Grade): (p: int)
    ensures 0 <= p <= 10
    ensures p > 0 ==> IsLetter(g)
  {
    match g
    case S => 10
    case A => 9
    case B => 8
    case C => 7
    case D => 6
    case E => 5
    case F => 0
    case AB => 0
    case Invalid => 0
  }

  /** Position of a letter grade in the order F < E < D < C < B < A < S. */
  function Rank(g: Grade): nat
    requires IsLetter(g)
  {
    match g
    case S => 6
    case A => 5
    case B => 4
    case C => 3
    case D => 2
    case E => 1
    case F => 0
  }

  /** Reference table for absolute grading: the inclusive lowest mark of each band. */
  function AbsoluteFloor(g: Grade): real
    requires IsLetter(g)
  {
    match g
    case S => 90.0
    case A => 80.0
    case B => 70.0
    case C => 60.0
    case D => 50.0
    case E => 40.0
    case F => 0.0
  }

  /** Reference table for relative grading: the inclusive lowest percentile of each band. */
  function PercentileFloor(g: Grade): int
    requires IsLetter(g)
  {
    match g
    case S => 90
    case A => 75
    case B => 50
    case C => 25
    case D => 10
    case E => 5
    case F => 0
  }

  // ---------------------------------------------------------------------
  // Absolute grading
  // ---------------------------------------------------------------------

  /** Absolute grading of one mark by fixed thresholds. */
  function AbsoluteGrade(marks: real): (r: GradeResult)
    ensures r.point == PointOf(r.grade)
    ensures r.grade == AB <==> marks == -1.0
    ensures r.grade == Invalid <==> marks != -1.0 && (marks < 0.0 || marks > 100.0)
    ensures IsLetter(r.grade) <==> 0.0 <= marks <= 100.0
  {
    if marks == -1.0 then GradeResult(AB, 0)
    else if marks < 0.0 || marks > 100.0 then GradeResult(Invalid, 0)
    else if marks >= 90.0 then GradeResult(S, 10)
    else if marks >= 80.0 then GradeResult(A, 9)
    else if marks >= 70.0 then GradeResult(B, 8)
    else if marks >= 60.0 then GradeResult(C, 7)
    else if marks >= 50.0 then GradeResult(D, 6)
    else if marks >= 40.0 then GradeResult(E, 5)
    else GradeResult(F, 0)
  }

  /** A mark in range lands in the highest band whose inclusive floor it reaches. */
  lemma AbsoluteBands(marks: real)
    requires 0.0 <= marks <= 100.0
    ensures IsLetter(AbsoluteGrade(marks).grade)
    ensures AbsoluteFloor(AbsoluteGrade(marks).grade) <= marks
    ensures forall h :: IsLetter(h) && Rank(h) > Rank(AbsoluteGrade(marks).grade) ==> marks < AbsoluteFloor(h)
  {
  }

  /** Up to 100, a higher mark never earns fewer grade points. */
  lemma AbsoluteMonotone(m1: real, m2: real)
    requires m1 <= m2 <= 100.0
    ensures AbsoluteGrade(m1).point <= AbsoluteGrade(m2).point
  {
  }

  /** The band edges are inclusive lower bounds; absence and out-of-range marks. */
  lemma AbsoluteExamples()
    ensures AbsoluteGrade(39.9) == GradeResult(F, 0)
    ensures AbsoluteGrade(40.0) == GradeResult(E, 5)
    ensures AbsoluteGrade(90.0) == GradeResult(S, 10)
    ensures AbsoluteGrade(-1.0) == GradeResult(AB, 0)
    ensures AbsoluteGrade(-0.5) == GradeResult(Invalid, 0)
    ensures AbsoluteGrade(150.0) == GradeResult(Invalid, 0)
  {
  }

  // ---------------------------------------------------------------------
  // Relative grading
  // ---------------------------------------------------------------------

  /** The comparison population: the marks of the list that are not below 0, in order. */
  function ValidMarks(marksList: seq<real>): (v: seq<real>)
    ensures |v| <= |marksList|
    ensures forall x :: x in v <==> x in marksList && x >= 0.0
  {
    if marksList == [] then []
    else (if marksList[0] >= 0.0 then [marksList[0]] else []) + ValidMarks(marksList[1..])
  }

  /** How many marks of the population are strictly below `marks`. */
  function CountBelow(population: seq<real>, marks: real): (n: nat)
    ensures n <= |population|
  {
    if population == [] then 0
    else (if population[0] < marks then 1 else 0) + CountBelow(population[1..], marks)
  }

  /** Buckets the percentile 100 * below / size, without division. */
  function PercentileGrade(below: nat, size: nat): (r: GradeResult)
    requires size > 0
    ensures r.point == PointOf(r.grade)
    ensures IsLetter(r.grade)
  {
    if 100 * below >= 90 * size then GradeResult(S, 10)
    else if 100 * below >= 75 * size then GradeResult(A, 9)
    else if 100 * below >= 50 * size then GradeResult(B, 8)
    else if 100 * below >= 25 * size then GradeResult(C, 7)
    else if 100 * below >= 10 * size then GradeResult(D, 6)
    else if 100 * below >= 5 * size then GradeResult(E, 5)
    else GradeResult(F, 0)
  }

  /** Relative grading of `marks` against the cohort list `marksList`. */
  function RelativeGrade(marksList: seq<real>, marks: real): (r: GradeResult)
    ensures r.point == PointOf(r.grade)
    ensures r.grade == AB <==> marks == -1.0
    ensures (forall x :: x in marksList ==> x < 0.0) ==> r == AbsoluteGrade(marks)
    ensures r.grade == Invalid ==> forall x :: x in marksList ==> x < 0.0
  {
    if marks == -1.0 then GradeResult(AB, 0)
    else
      var valid := ValidMarks(marksList);
      if valid == [] then AbsoluteGrade(marks)
      else
        assert valid[0] in valid;
        PercentileGrade(CountBelow(valid, marks), |valid|)
  }

  /** The percentile buckets are the highest band whose inclusive floor is reached. */
  lemma PercentileBands(below: nat, size: nat)
    requires size > 0
    ensures PercentileFloor(PercentileGrade(below, size).grade) * size <= 100 * below
    ensures forall h :: IsLetter(h) && Rank(h) > Rank(PercentileGrade(below, size).grade) ==>
      100 * below < PercentileFloor(h) * size
  {
    var g := PercentileGrade(below, size).grade;
    if 100 * below >= 90 * size {
      assert g == S && PercentileFloor(g) * size == 90 * size;
    } else if 100 * below >= 75 * size {
      assert g == A && PercentileFloor(g) * size == 75 * size;
    } else if 100 * below >= 50 * size {
      assert g == B && PercentileFloor(g) * size == 50 * size;
    } else if 100 * below >= 25 * size {
      assert g == C && PercentileFloor(g) * size == 25 * size;
    } else if 100 * below >= 10 * size {
      assert g == D && PercentileFloor(g) * size == 10 * size;
    } else if 100 * below >= 5 * size {
      assert g == E && PercentileFloor(g) * size == 5 * size;
    } else {
      assert g == F && PercentileFloor(g) * size == 0 * size;
    }
    forall h | IsLetter(h) && Rank(h) > Rank(g)
      ensures 100 * below < PercentileFloor(h) * size
    {
      match h
      case S =>
      case A =>
      case B =>
      case C =>
      case D =>
      case E =>
    }
  }

  /** With a non-empty population, a present student is graded by the percentile
      100 * #{valid marks below} / #valid, each band an inclusive lower bound. */
  lemma RelativeBands(marksList: seq<real>, marks: real)
    requires marks != -1.0
    requires exists x :: x in marksList && x >= 0.0
    ensures IsLetter(RelativeGrade(marksList, marks).grade)
    ensures PercentileFloor(RelativeGrade(marksList, marks).grade) * |ValidMarks(marksList)|
      <= 100 * CountBelow(ValidMarks(marksList), marks)
    ensures forall h :: IsLetter(h) && Rank(h) > Rank(RelativeGrade(marksList, marks).grade) ==>
      100 * CountBelow(ValidMarks(marksList), marks) < PercentileFloor(h) * |ValidMarks(marksList)|
  {
    var valid := ValidMarks(marksList);
    var x :| x in marksList && x >= 0.0;
    assert x in valid;
    PercentileBands(CountBelow(valid, marks), |valid|);
  }

  // Permutation invariance

  /** Filtering keeps exactly the multiplicity of every non-negative mark. */
  lemma {:induction false} ValidMarksMultiset(marksList: seq<real>, y: real)
    ensures multiset(ValidMarks(marksList))[y] == if y >= 0.0 then multiset(marksList)[y] else 0
  {
    if marksList != [] {
      var head := if marksList[0] >= 0.0 then [marksList[0]] else [];
      ValidMarksMultiset(marksList[1..], y);
      assert ValidMarks(marksList) == head + ValidMarks(marksList[1..]);
      MultisetConcat(head, ValidMarks(marksList[1..]));
      assert marksList == [marksList[0]] + marksList[1..];
      MultisetConcat([marksList[0]], marksList[1..]);
    }
  }

  lemma {:induction false} CountBelowAppend(s: seq<real>, t: seq<real>, marks: real)
    ensures CountBelow(s + t, marks) == CountBelow(s, marks) + CountBelow(t, marks)
  {
    if s == [] {
      assert s + t == t;
    } else {
      assert (s + t)[0] == s[0];
      assert (s + t)[1..] == s[1..] + t;
      CountBelowAppend(s[1..], t, marks);
    }
  }

  /** Removing one element lowers the count by exactly that element's contribution. */
  lemma CountBelowRemove(s: seq<real>, i: nat, marks: real)
    requires i < |s|
    ensures CountBelow(s, marks) == CountBelow(RemoveAt(s, i), marks) + (if s[i] < marks then 1 else 0)
  {
    assert s == (s[..i] + [s[i]]) + s[i+1..];
    CountBelowAppend(s[..i] + [s[i]], s[i+1..], marks);
    CountBelowAppend(s[..i], [s[i]], marks);
    CountBelowAppend(s[..i], s[i+1..], marks);
  }

  /** The count of marks below a value depends only on the multiset of the population. */
  lemma {:induction false} CountBelowPermutation(p1: seq<real>, p2: seq<real>, marks: real)
    requires multiset(p1) == multiset(p2)
    ensures CountBelow(p1, marks) == CountBelow(p2, marks)
  {
    if p1 == [] {
      assert |p2| == |multiset(p2)| == 0;
    } else {
      assert p1 == [p1[0]] + p1[1..];
      assert p1[0] in multiset(p2);
      var i :| 0 <= i < |p2| && p2[i] == p1[0];
      CountBelowPermutation(p1[1..], RemoveAt(p2, i), marks);
      CountBelowRemove(p2, i, marks);
    }
  }

  /** The relative grade depends only on the multiset of the cohort list. */
  lemma RelativePermutation(l1: seq<real>, l2: seq<real>, marks: real)
    requires multiset(l1) == multiset(l2)
    ensures RelativeGrade(l1, marks) == RelativeGrade(l2, marks)
  {
    var v1, v2 := ValidMarks(l1), ValidMarks(l2);
    forall y ensures multiset(v1)[y] == multiset(v2)[y] {
      ValidMarksMultiset(l1, y);
      ValidMarksMultiset(l2, y);
    }
    assert multiset(v1) == multiset(v2);
    assert |v1| == |multiset(v1)| == |multiset(v2)| == |v2|;
    CountBelowPermutation(v1, v2, marks);
  }

  // Monotonicity

  lemma {:induction false} CountBelowMonotone(population: seq<real>, m1: real, m2: real)
    requires m1 <= m2
    ensures CountBelow(population, m1) <= CountBelow(population, m2)
  {
    if population != [] {
      CountBelowMonotone(population[1..], m1, m2);
    }
  }

  /** Nothing in the population is below a mark that every member reaches. */
  lemma {:induction false} CountBelowNone(population: seq<real>, marks: real)
    requires forall x :: x in population ==> marks <= x
    ensures CountBelow(population, marks) == 0
  {
    if population != [] {
      assert population[0] in population;
      assert forall x :: x in population[1..] ==> x in population;
      CountBelowNone(population[1..], marks);
    }
  }

  /** A larger count below never gives fewer grade points. */
  lemma PercentileMonotone(b1: nat, b2: nat, size: nat)
    requires size > 0 && b1 <= b2
    ensures PercentileGrade(b1, size).point <= PercentileGrade(b2, size).point
  {
  }

  /** For a fixed cohort list a higher mark never earns fewer grade points
      (above 100 only when the population is non-empty, since otherwise
      absolute grading rejects the mark). */
  lemma RelativeMonotone(marksList: seq<real>, m1: real, m2: real)
    requires m1 <= m2
    requires m2 <= 100.0 || exists x :: x in marksList && x >= 0.0
    ensures RelativeGrade(marksList, m1).point <= RelativeGrade(marksList, m2).point
  {
    var valid := ValidMarks(marksList);
    if valid == [] {
      AbsoluteMonotone(m1, m2);
    } else if m2 == -1.0 || m1 == -1.0 {
      if m1 != -1.0 {
        CountBelowNone(valid, m1);
      }
    } else {
      CountBelowMonotone(valid, m1, m2);
      PercentileMonotone(CountBelow(valid, m1), CountBelow(valid, m2), |valid|);
    }
  }

  // A candidate ranked within its own population

  lemma {:induction false} ValidMarksAppend(s: seq<real>, t: seq<real>)
    ensures ValidMarks(s + t) == ValidMarks(s) + ValidMarks(t)
  {
    if s == [] {
      assert s + t == t;
    } else {
      var head := if s[0] >= 0.0 then [s[0]] else [];
      calc {
        ValidMarks(s + t);
        { assert (s + t)[0] == s[0]; assert (s + t)[1..] == s[1..] + t; }
        head + ValidMarks(s[1..] + t);
        { ValidMarksAppend(s[1..], t); }
        head + (ValidMarks(s[1..]) + ValidMarks(t));
        (head + ValidMarks(s[1..])) + ValidMarks(t);
        ValidMarks(s) + ValidMarks(t);
      }
    }
  }

  /** When the candidate mark is appended to the cohort before ranking, the
      population is non-empty and the candidate is not below itself, so its
      percentile is strictly below 100. */
  lemma OwnPopulation(existing: seq<real>, marks: real)
    requires marks >= 0.0
    ensures |ValidMarks(existing + [marks])| > 0
    ensures CountBelow(ValidMarks(existing + [marks]), marks) < |ValidMarks(existing + [marks])|
  {
    var valid := ValidMarks(existing + [marks]);
    ValidMarksAppend(existing, [marks]);
    assert ValidMarks([marks]) == [marks];
    CountBelowAppend(ValidMarks(existing), [marks], marks);
  }

  /** Six existing marks plus a candidate 71: three of seven are below, 42.9%, band C. */
  lemma SingleEntryExample()
    ensures RelativeGrade([95.0, 82.0, 71.0, 60.0, 40.0, 20.0] + [71.0], 71.0) == GradeResult(C, 7)
  {
    var l := [95.0, 82.0, 71.0, 60.0, 40.0, 20.0, 71.0];
    assert [95.0, 82.0, 71.0, 60.0, 40.0, 20.0] + [71.0] == l;
    assert ValidMarks(l) == l;
    assert CountBelow(l, 71.0) == 3;
  }
}
