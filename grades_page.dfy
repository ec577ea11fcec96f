/**
 * The grades page: recording a grade from the form, the coarse letter it gets, and the
 * searchable, filterable list (src/components/pages/Grades.jsx).
 */
module GradesPage {

  import opened Js
  import Arrays
  import opened Domain
  import CsvUtils

  // ---------------------------------------------------------------------------
  // Letters

  /** `calculateLetterGrade`: five letters with cut-offs 90, 80, 70 and 60. */
  function CoarseLetter(percentage: real): (r: string)
    ensures r in ["A", "B", "C", "D", "F"]
    ensures r == "A" <==> percentage >= 90.0
    ensures r == "F" <==> percentage < 60.0
  {
    if percentage >= 90.0 then "A"
    else if percentage >= 80.0 then "B"
    else if percentage >= 70.0 then "C"
    else if percentage >= 60.0 then "D"
    else "F"
  }

  /** The position of a coarse letter from worst (F) to best (A). */
  function Rank(letter: string): nat
  {
    if letter == "A" then 4 else if letter == "B" then 3 else if letter == "C" then 2 else if letter == "D" then 1 else 0
  }

  /** A higher percentage never earns a worse letter. */
  lemma CoarseLetterMonotone(p: real, q: real)
    requires p <= q
    ensures Rank(CoarseLetter(p)) <= Rank(CoarseLetter(q))
  {
  }

  /**
   * The coarse scale is the import's thirteen-step scale without its plus and minus: on a whole
   * percentage, the letter here is the first character of the letter there.
   */
  lemma CoarseAgreesWithImportScale(p: int)
    ensures CoarseLetter(p as real) == CsvUtils.LetterGrade(p)[..1]
  {
  }

  // ---------------------------------------------------------------------------
  // Recording a grade

  /** The form's fields, all text as the inputs hold them. */
  datatype GradeForm = GradeForm(
    studentId: string, courseId: string, assignmentName: string, category: string,
    points: string, maxPoints: string, semester: string)

  /** The form after opening or after a save (`resetForm`). */
  const EmptyForm := GradeForm("", "", "", "Assignment", "", "", "Fall 2024")

  /** A JavaScript number as the percentage computation can produce it. */
  datatype Number = Finite(value: real) | NotANumber | PlusInfinity | MinusInfinity

  /**
   * `(points / maxPoints) * 100`, with `None` for a NaN operand and the IEEE results of dividing
   * by zero: `maxNegative` says the maximum was written with a minus sign, so that a zero
   * maximum is -0 and flips the sign of the infinity.
   */
  function Percentage(points: Option<real>, maxPoints: Option<real>, maxNegative: bool): Number
  {
    if points.None? || maxPoints.None? then NotANumber
    else if maxPoints.value == 0.0 then
      (if points.value == 0.0 then NotANumber
       else if (points.value > 0.0) != maxNegative then PlusInfinity
       else MinusInfinity)
    else Finite(points.value / maxPoints.value * 100.0)
  }

  /** `calculateLetterGrade` on any number: NaN and minus infinity fail every `>=`. */
  function LetterOf(percentage: Number): string
  {
    match percentage
    case Finite(x) => CoarseLetter(x)
    case PlusInfinity => "A"
    case _ => "F"
  }

  /** `Math.round(percentage * 100) / 100`: two decimals, infinities and NaN unchanged. */
  function TwoDecimals(percentage: Number): Number
  {
    match percentage
    case Finite(x) => Finite(Round(x * 100.0) as real / 100.0)
    case _ => percentage
  }

  /** The object `handleSubmit` passes to `gradeService.create`. */
  datatype GradeSubmission = GradeSubmission(
    form: GradeForm, points: Option<real>, maxPoints: Option<real>, percentage: Number,
    letterGrade: string, dateRecorded: string)

  /**
   * `handleSubmit`: `None` when the points exceed the maximum (the "Points cannot exceed maximum
   * points" toast), otherwise the grade to create, dated `today`.
   */
  function Submit(form: GradeForm, today: string): Option<GradeSubmission>
  {
    var points := ParseFloatString(form.points);
    var maxPoints := ParseFloatString(form.maxPoints);
    if points.Some? && maxPoints.Some? && points.value > maxPoints.value then None
    else
      var percentage := Percentage(points, maxPoints, MinusSign(form.maxPoints));
      Some(GradeSubmission(form, points, maxPoints, TwoDecimals(percentage), LetterOf(percentage), today))
  }

  /**
   * A grade is refused exactly when both numbers read and the points exceed the maximum (-0 and 0
   * compare equal). Otherwise: the letter comes from the unrounded percentage, the stored
   * percentage is within half a hundredth of it, it is plus infinity (with an A) exactly for
   * negative points over a maximum written "-0", and with a positive maximum and non-negative
   * points it lies between 0 and 100.
   */
  lemma SubmitSpec(form: GradeForm, today: string)
    ensures var p, m := ParseFloatString(form.points), ParseFloatString(form.maxPoints);
      Submit(form, today).None? <==> p.Some? && m.Some? && p.value > m.value
    ensures Submit(form, today).Some? ==>
      var g := Submit(form, today).value;
      var q := Percentage(g.points, g.maxPoints, MinusSign(form.maxPoints));
      g.letterGrade == LetterOf(q) && g.dateRecorded == today && g.form == form
      && (q.Finite? ==> g.percentage.Finite? && q.value - 0.005 < g.percentage.value <= q.value + 0.005)
    ensures Submit(form, today).Some? ==>
      var g := Submit(form, today).value;
      (g.percentage == PlusInfinity <==>
         g.points.Some? && g.points.value < 0.0 && g.maxPoints == Some(0.0) && MinusSign(form.maxPoints))
      && (g.percentage == PlusInfinity ==> g.letterGrade == "A")
    ensures Submit(form, today).Some? ==>
      var g := Submit(form, today).value;
      g.points.Some? && g.maxPoints.Some? && g.maxPoints.value > 0.0 && g.points.value >= 0.0 ==>
        g.percentage.Finite? && 0.0 <= g.percentage.value <= 100.0
  {
    var p, m := ParseFloatString(form.points), ParseFloatString(form.maxPoints);
    var neg := MinusSign(form.maxPoints);
    if !(p.Some? && m.Some? && p.value > m.value) {
      var q := Percentage(p, m, neg);
      assert Submit(form, today) == Some(GradeSubmission(form, p, m, TwoDecimals(q), LetterOf(q), today));
      StoredPercentage(p, m, neg);
    }
  }

  /** The rounded percentage of an accepted grade: near the exact one, in range, and when it is plus infinity. */
  lemma StoredPercentage(p: Option<real>, m: Option<real>, neg: bool)
    requires !(p.Some? && m.Some? && p.value > m.value)
    ensures TwoDecimals(Percentage(p, m, neg)) == PlusInfinity
      <==> p.Some? && p.value < 0.0 && m == Some(0.0) && neg
    ensures TwoDecimals(Percentage(p, m, neg)) == PlusInfinity ==> LetterOf(Percentage(p, m, neg)) == "A"
    ensures Percentage(p, m, neg).Finite? ==>
      TwoDecimals(Percentage(p, m, neg)).Finite?
      && Percentage(p, m, neg).value - 0.005 < TwoDecimals(Percentage(p, m, neg)).value <= Percentage(p, m, neg).value + 0.005
    ensures p.Some? && m.Some? && m.value > 0.0 && p.value >= 0.0 ==>
      TwoDecimals(Percentage(p, m, neg)).Finite? && 0.0 <= TwoDecimals(Percentage(p, m, neg)).value <= 100.0
  {
    var q := Percentage(p, m, neg);
    if q.Finite? {
      RoundBounds(q.value);
    }
    if p.Some? && m.Some? && m.value > 0.0 && p.value >= 0.0 {
      DivideAtMostOne(p.value, m.value);
      TwoDecimalsInRange(q.value);
    }
  }

  /**
   * The inputs' `min="0"` is not checked by the handler: "-5" points over a maximum of "-0" pass
   * the comparison (-5 > -0 is false) and divide to plus infinity, which gets an A.
   */
  lemma NegativeZeroMaximum(today: string)
    ensures var form := EmptyForm.(points := "-5", maxPoints := "-0");
      Submit(form, today).Some?
      && Submit(form, today).value.percentage == PlusInfinity
      && Submit(form, today).value.letterGrade == "A"
  {
    var form := EmptyForm.(points := "-5", maxPoints := "-0");
    assert TrimStart("-5") == "-5" && TrimStart("-0") == "-0";
    assert Unsigned("-5") == "5" && Unsigned("-0") == "0";
    assert DigitRun("5") == 1 && DigitRun("0") == 1;
    assert ParseFloatString(form.points) == Some(-5.0);
    assert ParseFloatString(form.maxPoints) == Some(0.0);
    assert MinusSign(form.maxPoints);
  }

  lemma RoundBounds(x: real)
    ensures x - 0.005 < Round(x * 100.0) as real / 100.0 <= x + 0.005
  {
    var r := Round(x * 100.0);
    assert x * 100.0 - 0.5 < r as real <= x * 100.0 + 0.5;
  }

  lemma DivideAtMostOne(p: real, m: real)
    requires 0.0 <= p <= m && m > 0.0
    ensures 0.0 <= p / m * 100.0 <= 100.0
  {
    assert p / m <= 1.0 by {
      assert p / m * m == p;
    }
  }

  lemma TwoDecimalsInRange(x: real)
    requires 0.0 <= x <= 100.0
    ensures 0.0 <= Round(x * 100.0) as real / 100.0 <= 100.0
  {
    var r := Round(x * 100.0);
    assert x * 100.0 - 0.5 < r as real <= x * 100.0 + 0.5;
    assert 0 <= r <= 10000;
  }

  /**
   * The letter is taken before rounding, so 89.996 out of 100 is stored as 90 per cent and
   * still gets a B, while 90 out of 100 gets an A.
   */
  lemma LetterBeforeRounding()
    ensures TwoDecimals(Percentage(Some(89.996), Some(100.0), false)) == Finite(90.0)
    ensures LetterOf(Percentage(Some(89.996), Some(100.0), false)) == "B"
    ensures TwoDecimals(Percentage(Some(90.0), Some(100.0), false)) == Finite(90.0)
    ensures LetterOf(Percentage(Some(90.0), Some(100.0), false)) == "A"
  {
    assert Round(8999.6) == 9000;
    assert Round(9000.0) == 9000;
  }

  /** An empty points field reads as NaN, is not refused, and records an F with a NaN percentage. */
  lemma EmptyPointsRecordedAsF(form: GradeForm, today: string)
    requires form.points == ""
    ensures Submit(form, today).Some?
    ensures Submit(form, today).value.letterGrade == "F" && Submit(form, today).value.percentage == NotANumber
  {
    assert ParseFloatString("") == None;
  }

  // ---------------------------------------------------------------------------
  // Names and the list

  /** `getStudentName`: the first student whose `Id` reads as the same text, or "Unknown Student". */
  function StudentName(students: seq<Student>, studentId: int): (r: string)
  {
    match Arrays.Find(students, (s: Student) => IntToString(s.id) == IntToString(studentId))
    case Some(s) => s.firstName + " " + s.lastName
    case None => "Unknown Student"
  }

  /** `getCourseName`: the first course whose `Id` reads as the same text, or "Unknown Course". */
  function CourseName(courses: seq<Course>, courseId: int): (r: string)
  {
    match Arrays.Find(courses, (c: Course) => IntToString(c.id) == IntToString(courseId))
    case Some(c) => c.courseName
    case None => "Unknown Course"
  }

  /**
   * The name shown is that of the first student with the grade's id, and "Unknown Student"
   * when there is none.
   */
  lemma StudentNameSpec(students: seq<Student>, studentId: int)
    ensures (forall i :: 0 <= i < |students| ==> students[i].id != studentId) ==>
      StudentName(students, studentId) == "Unknown Student"
    ensures forall i :: FirstWithId(students, studentId, i) ==>
      StudentName(students, studentId) == students[i].firstName + " " + students[i].lastName
  {
    var pred := (s: Student) => IntToString(s.id) == IntToString(studentId);
    forall i | 0 <= i < |students| ensures pred(students[i]) <==> students[i].id == studentId {
      IntToStringInjective(students[i].id, studentId);
    }
  }

  /** Student i is the first with the id. */
  predicate FirstWithId(students: seq<Student>, studentId: int, i: int)
  {
    0 <= i < |students| && students[i].id == studentId && forall j :: 0 <= j < i ==> students[j].id != studentId
  }

  /** `filteredGrades`' test of one grade. */
  predicate Listed(g: Grade, students: seq<Student>, courses: seq<Course>,
                   searchTerm: string, courseFilter: string, gradeFilter: string)
  {
    var term := ToLower(searchTerm);
    (searchTerm == ""
     || Includes(ToLower(StudentName(students, g.studentId)), term)
     || Includes(ToLower(CourseName(courses, g.courseId)), term)
     || Includes(ToLower(g.assignmentName), term))
    && (courseFilter == "" || IntToString(g.courseId) == courseFilter)
    && (gradeFilter == "" || g.letterGrade == gradeFilter)
  }

  function ListedBy(students: seq<Student>, courses: seq<Course>,
                    searchTerm: string, courseFilter: string, gradeFilter: string): Grade -> bool
  {
    g => Listed(g, students, courses, searchTerm, courseFilter, gradeFilter)
  }

  /** `filteredGrades`: the grades passing the search, the course filter and the letter filter. */
  function FilteredGrades(grades: seq<Grade>, students: seq<Student>, courses: seq<Course>,
                          searchTerm: string, courseFilter: string, gradeFilter: string): seq<Grade>
  {
    Arrays.Filter(grades, ListedBy(students, courses, searchTerm, courseFilter, gradeFilter))
  }

  /**
   * Choosing a course in the filter (its option value is the course's `Id` as text) lists
   * exactly that course's grades; with no search and no letter filter, all of them.
   */
  lemma CourseFilterSelectsCourse(grades: seq<Grade>, students: seq<Student>, courses: seq<Course>, courseId: int)
    ensures var r := FilteredGrades(grades, students, courses, "", IntToString(courseId), "");
      (forall g :: g in r ==> g.courseId == courseId)
      && (forall i :: 0 <= i < |grades| && grades[i].courseId == courseId ==> grades[i] in r)
  {
    var r := FilteredGrades(grades, students, courses, "", IntToString(courseId), "");
    var p := ListedBy(students, courses, "", IntToString(courseId), "");
    forall g | g in r ensures g.courseId == courseId {
      var k :| 0 <= k < |r| && r[k] == g;
      assert p(r[k]);
      IntToStringInjective(g.courseId, courseId);
    }
    forall i | 0 <= i < |grades| && grades[i].courseId == courseId ensures grades[i] in r {
      assert p(grades[i]);
    }
  }

  /** With every box empty, the list is the whole store, in order. */
  lemma NoFilterListsAll(grades: seq<Grade>, students: seq<Student>, courses: seq<Course>)
    ensures FilteredGrades(grades, students, courses, "", "", "") == grades
  {
    Arrays.FilterAll(grades, ListedBy(students, courses, "", "", ""));
  }

  /**
   * A grade whose student is not in the list is shown as "Unknown Student", so searching for
   * "unknown" finds it.
   */
  lemma SearchFindsUnknownStudents(g: Grade, students: seq<Student>, courses: seq<Course>)
    requires forall i :: 0 <= i < |students| ==> students[i].id != g.studentId
    ensures Listed(g, students, courses, "unknown", "", "")
  {
    StudentNameSpec(students, g.studentId);
    UnknownStudentMatches();
  }

  /** The text "Unknown Student" contains "unknown" once both are lower-cased. */
  lemma UnknownStudentMatches()
    ensures Includes(ToLower("Unknown Student"), ToLower("unknown"))
  {
    var name := ToLower("Unknown Student");
    assert name == "unknown student";
    assert ToLower("unknown") == "unknown";
    assert OccursAt(name, "unknown", 0);
    IncludesIff(name, "unknown");
  }
}
