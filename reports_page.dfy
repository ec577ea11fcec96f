/**
 * The reports page: the school overview, the report on one student and the report on one
 * course, with their grade-point averages, attendance rates and letter distributions
 * (src/components/pages/Reports.jsx). Figures are kept as exact numbers; the page formats
 * averages with `toFixed`.
 */
module ReportsPage {

  import opened Js
  import Arrays
  import opened Domain
  import GradesPage

  // ---------------------------------------------------------------------------
  // Grade points and averages

  /** `convertToGPA`: 4, 3, 2, 1 or 0 points with cut-offs 90, 80, 70 and 60. */
  function ConvertToGPA(percentage: real): (r: real)
    ensures 0.0 <= r <= 4.0
  {
    if percentage >= 90.0 then 4.0
    else if percentage >= 80.0 then 3.0
    else if percentage >= 70.0 then 2.0
    else if percentage >= 60.0 then 1.0
    else 0.0
  }

  /** The points are the coarse letter's rank: A is 4, F is 0. */
  lemma GpaIsLetterRank(percentage: real)
    ensures ConvertToGPA(percentage) == GradesPage.Rank(GradesPage.CoarseLetter(percentage)) as real
  {
  }

  /** A higher percentage never earns fewer points. */
  lemma GpaMonotone(p: real, q: real)
    requires p <= q
    ensures ConvertToGPA(p) <= ConvertToGPA(q)
  {
  }

  /** `reduce((sum, x) => sum + x, 0)`. */
  function Sum(xs: seq<real>): real
  {
    if xs == [] then 0.0 else Sum(xs[..|xs| - 1]) + xs[|xs| - 1]
  }

  /** The sum divided by the count, or 0 for an empty list (the pages' `length > 0` guard). */
  function MeanOrZero(xs: seq<real>): real
  {
    if |xs| > 0 then Sum(xs) / |xs| as real else 0.0
  }

  lemma {:induction false} SumBounds(xs: seq<real>, lo: real, hi: real)
    requires forall i :: 0 <= i < |xs| ==> lo <= xs[i] <= hi
    ensures |xs| as real * lo <= Sum(xs) <= |xs| as real * hi
  {
    if xs != [] {
      SumBounds(xs[..|xs| - 1], lo, hi);
    }
  }

  /** The mean of values between two bounds lies between them. */
  lemma MeanBounds(xs: seq<real>, lo: real, hi: real)
    requires forall i :: 0 <= i < |xs| ==> lo <= xs[i] <= hi
    requires lo <= 0.0 <= hi
    ensures lo <= MeanOrZero(xs) <= hi
  {
    if |xs| > 0 {
      SumBounds(xs, lo, hi);
      var n := |xs| as real;
      assert Sum(xs) / n * n == Sum(xs);
    }
  }

  /** `count > 0 ? Math.round((part / count) * 100) : 0`. */
  function Rate(part: nat, count: nat): int
  {
    if count > 0 then Round(part as real / count as real * 100.0) else 0
  }

  /** A part of a whole is a whole percentage between 0 and 100, and all of it is 100. */
  lemma RateBounds(part: nat, count: nat)
    requires part <= count
    ensures 0 <= Rate(part, count) <= 100
    ensures 0 < count == part ==> Rate(part, count) == 100
  {
    if count > 0 {
      var c := count as real;
      GradesPage.DivideAtMostOne(part as real, c);
      if part == count {
        assert part as real / c == 1.0;
        assert Round(100.0) == 100;
      }
    }
  }

  // ---------------------------------------------------------------------------
  // Letter distribution

  /** `grades.reduce((acc, g) => { acc[g.letterGrade] = (acc[g.letterGrade] || 0) + 1 }, {})`. */
  function Distribution(grades: seq<Grade>): map<string, nat>
  {
    if grades == [] then map[]
    else
      var d := Distribution(grades[..|grades| - 1]);
      var letter := grades[|grades| - 1].letterGrade;
      d[letter := CountIn(d, letter) + 1]
  }

  /** A letter's count in a distribution; a letter without a key counts 0. */
  function CountIn(d: map<string, nat>, letter: string): nat
  {
    if letter in d then d[letter] else 0
  }

  function HasLetter(letter: string): Grade -> bool
  {
    (g: Grade) => g.letterGrade == letter
  }

  /** Each letter is counted as often as it occurs, and only letters that occur are keys. */
  lemma {:induction false} DistributionCounts(grades: seq<Grade>, letter: string)
    ensures CountIn(Distribution(grades), letter) == Arrays.Count(grades, HasLetter(letter))
    ensures letter in Distribution(grades) ==> Distribution(grades)[letter] > 0
  {
    if grades != [] {
      var init, last := grades[..|grades| - 1], grades[|grades| - 1];
      DistributionCounts(init, letter);
      assert init + [last] == grades;
      Arrays.CountSnoc(init, last, HasLetter(letter));
    }
  }

  // ---------------------------------------------------------------------------
  // Overview

  /** The distinct student ids of the grades, in order of first appearance. */
  function StudentIds(grades: seq<Grade>): (ids: seq<int>)
    ensures forall i, j :: 0 <= i < j < |ids| ==> ids[i] != ids[j]
    ensures forall x :: x in ids <==> exists k :: 0 <= k < |grades| && grades[k].studentId == x
  {
    if grades == [] then []
    else
      var ids := StudentIds(grades[..|grades| - 1]);
      var id := grades[|grades| - 1].studentId;
      assert forall k :: 0 <= k < |grades| - 1 ==> grades[..|grades| - 1][k] == grades[k];
      if id in ids then ids else ids + [id]
  }

  function OfStudent(id: int): Grade -> bool
  {
    (g: Grade) => g.studentId == id
  }

  function Percentages(grades: seq<Grade>): (r: seq<real>)
    ensures |r| == |grades| && forall i :: 0 <= i < |grades| ==> r[i] == grades[i].percentage
  {
    seq(|grades|, i requires 0 <= i < |grades| => grades[i].percentage)
  }

  /** `gpas`: for each student with grades, the points of their average percentage. */
  function StudentGpas(grades: seq<Grade>): (r: seq<real>)
    ensures |r| == |StudentIds(grades)|
    ensures forall i :: 0 <= i < |r| ==> 0.0 <= r[i] <= 4.0
  {
    var ids := StudentIds(grades);
    seq(|ids|, i requires 0 <= i < |ids| =>
      ConvertToGPA(MeanOrZero(Percentages(Arrays.Filter(grades, OfStudent(ids[i]))))))
  }

  datatype Overview = Overview(
    totalStudents: nat, activeStudents: nat, totalCourses: nat, averageGpa: real,
    attendanceRate: int, totalGrades: nat, gradeDistribution: map<string, nat>)

  function IsActive(s: Student): bool { s.enrollmentStatus == "Active" }

  function IsPresent(m: Mark): bool { m.status == "Present" }

  /** `generateOverviewReport`. */
  function OverviewReport(students: seq<Student>, grades: seq<Grade>, marks: seq<Mark>, courses: seq<Course>): Overview
  {
    Overview(|students|, Arrays.Count(students, IsActive), |courses|, MeanOrZero(StudentGpas(grades)),
      Rate(Arrays.Count(marks, IsPresent), |marks|), |grades|, Distribution(grades))
  }

  /**
   * The overview counts the active students among all students, averages one figure per
   * student (so a student with many grades weighs no more than one with few), keeps that
   * average and the attendance rate within their ranges, and counts every letter.
   */
  lemma OverviewSpec(students: seq<Student>, grades: seq<Grade>, marks: seq<Mark>, courses: seq<Course>)
    ensures var o := OverviewReport(students, grades, marks, courses);
      o.activeStudents <= o.totalStudents
      && 0.0 <= o.averageGpa <= 4.0
      && 0 <= o.attendanceRate <= 100
      && (grades == [] ==> o.averageGpa == 0.0)
      && (forall l :: CountIn(o.gradeDistribution, l) == Arrays.Count(grades, HasLetter(l)))
  {
    MeanBounds(StudentGpas(grades), 0.0, 4.0);
    RateBounds(Arrays.Count(marks, IsPresent), |marks|);
    forall l ensures CountIn(Distribution(grades), l) == Arrays.Count(grades, HasLetter(l)) {
      DistributionCounts(grades, l);
    }
  }

  // ---------------------------------------------------------------------------
  // Student report

  /** `g.studentId.toString() === studentId`, the select's value being an `Id` as text. */
  function GradeOfStudent(studentId: string): Grade -> bool
  {
    (g: Grade) => IntToString(g.studentId) == studentId
  }

  function MarkOfStudent(studentId: string): Mark -> bool
  {
    (m: Mark) => IntToString(m.studentId) == studentId
  }

  /** `reduce` into an object of arrays: the items grouped under their key, each group in order. */
  function GroupBy<T>(xs: seq<T>, key: T -> string): (r: map<string, seq<T>>)
    ensures |r.Keys| <= |xs|
    ensures forall k :: k in r ==> r[k] != []
  {
    if xs == [] then map[]
    else
      var r := GroupBy(xs[..|xs| - 1], key);
      var x := xs[|xs| - 1];
      r[key(x) := (if key(x) in r then r[key(x)] else []) + [x]]
  }

  /** Every item is in its key's group, and each group holds only items with that key. */
  lemma {:induction false} GroupBySpec<T>(xs: seq<T>, key: T -> string)
    ensures forall i :: 0 <= i < |xs| ==> key(xs[i]) in GroupBy(xs, key) && xs[i] in GroupBy(xs, key)[key(xs[i])]
    ensures forall k, x :: k in GroupBy(xs, key) && x in GroupBy(xs, key)[k] ==> x in xs && key(x) == k
  {
    if xs != [] {
      var init, last := xs[..|xs| - 1], xs[|xs| - 1];
      GroupBySpec(init, key);
      var r0 := GroupBy(init, key);
      var r := GroupBy(xs, key);
      forall i | 0 <= i < |xs| ensures key(xs[i]) in r && xs[i] in r[key(xs[i])] {
        if i < |xs| - 1 {
          assert xs[i] == init[i];
        }
      }
      forall k, x | k in r && x in r[k] ensures x in xs && key(x) == k {
        if k == key(last) && (k !in r0 || x !in r0[k]) {
          assert x == last;
        } else {
          assert x in init;
        }
      }
    }
  }

  /** The name a grade is grouped under: its course's, or "Unknown Course". */
  function CourseNameOf(courses: seq<Course>): Grade -> string
  {
    (g: Grade) => GradesPage.CourseName(courses, g.courseId)
  }

  datatype StudentReport = StudentReport(
    student: Student, gpa: real, attendanceRate: int, totalGrades: nat, coursesEnrolled: nat,
    gradesByCourse: map<string, seq<Grade>>, attendanceHistory: seq<Mark>)

  /**
   * `generateStudentReport(studentId)`: `None` for "Student not found". The grade-point average
   * here is the mean of each grade's points.
   */
  function StudentReportFor(studentId: string, students: seq<Student>, grades: seq<Grade>,
                            marks: seq<Mark>, courses: seq<Course>): Option<StudentReport>
  {
    match Arrays.Find(students, (s: Student) => IntToString(s.id) == studentId)
    case None => None
    case Some(student) => Some(StudentReportOf(student, studentId, grades, marks, courses))
  }

  /** Each grade's points. */
  function GradePoints(grades: seq<Grade>): (r: seq<real>)
    ensures |r| == |grades| && forall i :: 0 <= i < |r| ==> 0.0 <= r[i] <= 4.0
  {
    seq(|grades|, i requires 0 <= i < |grades| => ConvertToGPA(grades[i].percentage))
  }

  /** The report on a found student. */
  function StudentReportOf(student: Student, studentId: string, grades: seq<Grade>,
                           marks: seq<Mark>, courses: seq<Course>): StudentReport
  {
    var own := Arrays.Filter(grades, GradeOfStudent(studentId));
    var history := Arrays.Filter(marks, MarkOfStudent(studentId));
    var groups := GroupBy(own, CourseNameOf(courses));
    StudentReport(student, MeanOrZero(GradePoints(own)), Rate(Arrays.Count(history, IsPresent), |history|),
      |own|, |groups.Keys|, groups, history)
  }

  /** A report is made exactly when a student has the id, and it is that student's. */
  lemma StudentReportFound(studentId: int, students: seq<Student>, grades: seq<Grade>,
                           marks: seq<Mark>, courses: seq<Course>)
    ensures StudentReportFor(IntToString(studentId), students, grades, marks, courses).Some?
      <==> exists i :: 0 <= i < |students| && students[i].id == studentId
    ensures StudentReportFor(IntToString(studentId), students, grades, marks, courses).Some? ==>
      StudentReportFor(IntToString(studentId), students, grades, marks, courses).value.student.id == studentId
  {
    var key := IntToString(studentId);
    var p := (s: Student) => IntToString(s.id) == key;
    forall i | 0 <= i < |students| ensures p(students[i]) <==> students[i].id == studentId {
      IntToStringInjective(students[i].id, studentId);
    }
    var found := Arrays.Find(students, p);
    if found.Some? {
      IntToStringInjective(found.value.id, studentId);
    }
  }

  /** The report's attendance history is exactly the student's marks. */
  lemma StudentReportHistory(student: Student, studentId: int, grades: seq<Grade>,
                             marks: seq<Mark>, courses: seq<Course>)
    ensures var r := StudentReportOf(student, IntToString(studentId), grades, marks, courses);
      (forall m :: m in r.attendanceHistory ==> m in marks && m.studentId == studentId)
      && (forall k :: 0 <= k < |marks| && marks[k].studentId == studentId ==> marks[k] in r.attendanceHistory)
  {
    var key := IntToString(studentId);
    var history := Arrays.Filter(marks, MarkOfStudent(key));
    forall m | m in history ensures m.studentId == studentId {
      var k :| 0 <= k < |history| && history[k] == m;
      assert MarkOfStudent(key)(history[k]);
      IntToStringInjective(m.studentId, studentId);
    }
    forall k | 0 <= k < |marks| && marks[k].studentId == studentId ensures marks[k] in history {
      assert MarkOfStudent(key)(marks[k]);
    }
  }

  /** The report's groups hold only the student's grades, and it names no more courses than grades. */
  lemma StudentReportGrades(student: Student, studentId: int, grades: seq<Grade>,
                            marks: seq<Mark>, courses: seq<Course>)
    ensures var r := StudentReportOf(student, IntToString(studentId), grades, marks, courses);
      (forall name, g :: name in r.gradesByCourse && g in r.gradesByCourse[name] ==> g in grades && g.studentId == studentId)
      && r.coursesEnrolled <= r.totalGrades
  {
    var key := IntToString(studentId);
    var own := Arrays.Filter(grades, GradeOfStudent(key));
    var groups := GroupBy(own, CourseNameOf(courses));
    var r := StudentReportOf(student, key, grades, marks, courses);
    assert r.gradesByCourse == groups && r.coursesEnrolled == |groups.Keys| && r.totalGrades == |own|;
    GroupsHoldOwnGrades(grades, studentId, courses);
  }

  lemma GroupsHoldOwnGrades(grades: seq<Grade>, studentId: int, courses: seq<Course>)
    ensures var own := Arrays.Filter(grades, GradeOfStudent(IntToString(studentId)));
      var groups := GroupBy(own, CourseNameOf(courses));
      (forall name, g :: name in groups && g in groups[name] ==> g in grades && g.studentId == studentId)
      && |groups.Keys| <= |own|
  {
    var own := Arrays.Filter(grades, GradeOfStudent(IntToString(studentId)));
    forall i | 0 <= i < |own| ensures IsOwn(grades, studentId)(own[i]) {
      OwnGrade(grades, studentId, own[i]);
    }
    var groups := GroupBy(own, CourseNameOf(courses));
    GroupsHoldOnly(own, CourseNameOf(courses), IsOwn(grades, studentId));
    forall name, g | name in groups && g in groups[name] ensures g in grades && g.studentId == studentId {
      assert IsOwn(grades, studentId)(g);
    }
  }

  /** One of the student's grades. */
  function IsOwn(grades: seq<Grade>, studentId: int): Grade -> bool
  {
    (g: Grade) => g in grades && g.studentId == studentId
  }

  /** Grouping puts into the groups only items of the list, so what holds of each item holds of each grouped one. */
  lemma GroupsHoldOnly<T>(xs: seq<T>, key: T -> string, p: T -> bool)
    requires forall i :: 0 <= i < |xs| ==> p(xs[i])
    ensures forall k, x :: k in GroupBy(xs, key) && x in GroupBy(xs, key)[k] ==> p(x)
  {
    GroupBySpec(xs, key);
  }

  /** A grade the report keeps for a student is one of that student's grades. */
  lemma OwnGrade(grades: seq<Grade>, studentId: int, g: Grade)
    requires g in Arrays.Filter(grades, GradeOfStudent(IntToString(studentId)))
    ensures g in grades && g.studentId == studentId
  {
    Arrays.FilterMember(grades, GradeOfStudent(IntToString(studentId)), g);
    IntToStringInjective(g.studentId, studentId);
  }

  /** The report's grade-point average lies within 0 and 4 and its attendance rate within 0 and 100. */
  lemma StudentReportRanges(student: Student, studentId: string, grades: seq<Grade>,
                            marks: seq<Mark>, courses: seq<Course>)
    ensures var r := StudentReportOf(student, studentId, grades, marks, courses);
      0.0 <= r.gpa <= 4.0 && 0 <= r.attendanceRate <= 100
  {
    var own := Arrays.Filter(grades, GradeOfStudent(studentId));
    var history := Arrays.Filter(marks, MarkOfStudent(studentId));
    MeanBounds(GradePoints(own), 0.0, 4.0);
    Arrays.FilterSubMultiset(history, IsPresent);
    RateBounds(Arrays.Count(history, IsPresent), |history|);
  }

  /**
   * The overview and the student report average differently: for one student with 95 and 65
   * per cent, the overview's figure is the points of the 80 per cent average, 3.0 ...
   */
  lemma OverviewAverageExample(st: Student)
    ensures OverviewReport([st], TwoGrades(), [], []).averageGpa == 3.0
  {
    var gs := TwoGrades();
    assert gs[..1] == [gs[0]];
    assert StudentIds(gs) == [7];
    Arrays.FilterAll(gs, OfStudent(7));
    assert Percentages(gs) == [95.0, 65.0];
    assert Sum([95.0, 65.0]) == 160.0 by {
      assert [95.0, 65.0][..1] == [95.0];
    }
    assert StudentGpas(gs) == [3.0];
    assert Sum([3.0]) == 3.0 by {
      assert [3.0][..0] == [];
    }
  }

  /** ... and the student report's is the mean of 4 and 1 points, 2.5. */
  lemma StudentAverageExample(st: Student)
    ensures StudentReportOf(st, "7", TwoGrades(), [], []).gpa == 2.5
  {
    var gs := TwoGrades();
    assert IntToString(7) == "7";
    assert GradeOfStudent("7")(gs[0]) && GradeOfStudent("7")(gs[1]);
    Arrays.FilterAll(gs, GradeOfStudent("7"));
    assert GradePoints(gs) == [4.0, 1.0];
    assert Sum([4.0, 1.0]) == 5.0 by {
      assert [4.0, 1.0][..1] == [4.0];
    }
  }

  /** Two grades of student 7, at 95 and at 65 per cent. */
  function TwoGrades(): seq<Grade>
  {
    [Grade(1, 7, 1, "Essay", 95.0, "A"), Grade(2, 7, 1, "Quiz", 65.0, "D")]
  }

  // ---------------------------------------------------------------------------
  // Course report

  datatype Performance = Performance(student: Student, averageGrade: real, totalAssignments: nat)

  datatype CourseReport = CourseReport(
    course: Course, enrolledStudents: nat, averageGrade: real, attendanceRate: int,
    totalAssignments: nat, passRate: int, gradeDistribution: map<string, nat>,
    studentPerformance: seq<Performance>)

  function GradeOfCourse(courseId: string): Grade -> bool
  {
    (g: Grade) => IntToString(g.courseId) == courseId
  }

  function MarkOfCourse(courseId: string): Mark -> bool
  {
    (m: Mark) => IntToString(m.courseId) == courseId
  }

  function Passing(g: Grade): bool { g.percentage >= 60.0 }

  /** A student counts as enrolled with a grade in the course or a place on its roster. */
  function InCourse(course: Course, courseGrades: seq<Grade>): Student -> bool
  {
    (s: Student) => s.id in (set g | g in courseGrades :: g.studentId) || s.id in course.enrolledStudents
  }

  function PerformanceOf(s: Student, courseGrades: seq<Grade>): Performance
  {
    var own := Arrays.Filter(courseGrades, OfStudent(s.id));
    Performance(s, MeanOrZero(Percentages(own)), |own|)
  }

  /** `generateCourseReport(courseId)`: `None` for "Course not found". */
  function CourseReportFor(courseId: string, students: seq<Student>, grades: seq<Grade>,
                           marks: seq<Mark>, courses: seq<Course>): Option<CourseReport>
  {
    match Arrays.Find(courses, (c: Course) => IntToString(c.id) == courseId)
    case None => None
    case Some(course) => Some(CourseReportOf(course, courseId, students, grades, marks))
  }

  /** The report on a found course. */
  function CourseReportOf(course: Course, courseId: string, students: seq<Student>, grades: seq<Grade>,
                          marks: seq<Mark>): CourseReport
  {
    var courseGrades := Arrays.Filter(grades, GradeOfCourse(courseId));
    var courseMarks := Arrays.Filter(marks, MarkOfCourse(courseId));
    var enrolled := Arrays.Filter(students, InCourse(course, courseGrades));
    CourseReport(course, |enrolled|, MeanOrZero(Percentages(courseGrades)),
      Rate(Arrays.Count(courseMarks, IsPresent), |courseMarks|), |courseGrades|,
      Rate(Arrays.Count(courseGrades, Passing), |courseGrades|), Distribution(courseGrades),
      Performances(enrolled, courseGrades))
  }

  /** `studentPerformance`: one line per enrolled student, in store order. */
  function Performances(enrolled: seq<Student>, courseGrades: seq<Grade>): (r: seq<Performance>)
    ensures |r| == |enrolled| && forall i :: 0 <= i < |r| ==> r[i] == PerformanceOf(enrolled[i], courseGrades)
  {
    seq(|enrolled|, i requires 0 <= i < |enrolled| => PerformanceOf(enrolled[i], courseGrades))
  }

  /** A report is made exactly when a course has the id, and it is that course's. */
  lemma CourseReportFound(courseId: int, students: seq<Student>, grades: seq<Grade>,
                          marks: seq<Mark>, courses: seq<Course>)
    ensures CourseReportFor(IntToString(courseId), students, grades, marks, courses).Some?
      <==> exists i :: 0 <= i < |courses| && courses[i].id == courseId
    ensures CourseReportFor(IntToString(courseId), students, grades, marks, courses).Some? ==>
      var c := CourseReportFor(IntToString(courseId), students, grades, marks, courses).value.course;
      c in courses && c.id == courseId
  {
    var key := IntToString(courseId);
    var p := (c: Course) => IntToString(c.id) == key;
    forall i | 0 <= i < |courses| ensures p(courses[i]) <==> courses[i].id == courseId {
      IntToStringInjective(courses[i].id, courseId);
    }
    var found := Arrays.Find(courses, p);
    if found.Some? {
      IntToStringInjective(found.value.id, courseId);
    }
  }

  /**
   * The course report lists exactly the students with a grade in the course or on its roster,
   * each with the number of their own grades in the course.
   */
  lemma CourseReportRoster(course: Course, courseId: string, students: seq<Student>, grades: seq<Grade>,
                           marks: seq<Mark>)
    ensures var r := CourseReportOf(course, courseId, students, grades, marks);
      var courseGrades := Arrays.Filter(grades, GradeOfCourse(courseId));
      |r.studentPerformance| == r.enrolledStudents
      && (forall k :: 0 <= k < |students| && InCourse(course, courseGrades)(students[k]) ==>
            exists p :: p in r.studentPerformance && p.student == students[k])
      && (forall p :: p in r.studentPerformance ==> Performs(p, students, course, courseGrades))
  {
    var courseGrades := Arrays.Filter(grades, GradeOfCourse(courseId));
    var enrolled := Arrays.Filter(students, InCourse(course, courseGrades));
    var lines := Performances(enrolled, courseGrades);
    forall k | 0 <= k < |students| && InCourse(course, courseGrades)(students[k])
      ensures exists p :: p in lines && p.student == students[k]
    {
      var j :| 0 <= j < |enrolled| && enrolled[j] == students[k];
      assert lines[j].student == students[k];
    }
    forall p | p in lines ensures Performs(p, students, course, courseGrades) {
      var j :| 0 <= j < |lines| && lines[j] == p;
      assert p.student == enrolled[j];
    }
  }

  /**
   * Both rates lie within 0 and 100; with no grades the pass rate (`Math.round(NaN) || 0`) is
   * 0; and the average grade lies within 0 and 100 when the percentages do.
   */
  lemma CourseReportRanges(course: Course, courseId: string, students: seq<Student>, grades: seq<Grade>,
                           marks: seq<Mark>)
    ensures var r := CourseReportOf(course, courseId, students, grades, marks);
      0 <= r.passRate <= 100 && 0 <= r.attendanceRate <= 100
      && (r.totalAssignments == 0 ==> r.passRate == 0)
      && ((forall k :: 0 <= k < |grades| ==> 0.0 <= grades[k].percentage <= 100.0) ==> 0.0 <= r.averageGrade <= 100.0)
  {
    var courseGrades := Arrays.Filter(grades, GradeOfCourse(courseId));
    var courseMarks := Arrays.Filter(marks, MarkOfCourse(courseId));
    Arrays.FilterSubMultiset(courseGrades, Passing);
    Arrays.FilterSubMultiset(courseMarks, IsPresent);
    RateBounds(Arrays.Count(courseGrades, Passing), |courseGrades|);
    RateBounds(Arrays.Count(courseMarks, IsPresent), |courseMarks|);
    if forall k :: 0 <= k < |grades| ==> 0.0 <= grades[k].percentage <= 100.0 {
      MeanBounds(Percentages(courseGrades), 0.0, 100.0);
    }
  }

  /** A performance line: an enrolled student and the number of their grades in the course. */
  predicate Performs(p: Performance, students: seq<Student>, course: Course, courseGrades: seq<Grade>)
  {
    p.student in students && InCourse(course, courseGrades)(p.student)
    && p.totalAssignments == Arrays.Count(courseGrades, OfStudent(p.student.id))
  }
}
