/**
 * The courses page: the course form and its schedule checkboxes, the schedule line, the
 * enrolment count, the search, and saving a course (src/components/pages/Courses.jsx).
 */
module CoursesPage {

  import opened Js
  import opened Tables
  import Arrays
  import opened Domain
  import opened Courses

  // ---------------------------------------------------------------------------
  // The form

  /** A course's weekly schedule. */
  datatype Schedule = Schedule(days: seq<string>, startTime: string, endTime: string, room: string)

  /** The course form, all fields as the inputs hold them. */
  datatype CourseForm = CourseForm(
    courseName: string, courseCode: string, teacher: string, creditHours: string, semester: string,
    schedule: Schedule)

  /** The form on opening and after a save or a cancel (`resetForm`). */
  const EmptyCourseForm := CourseForm("", "", "", "", "Fall 2024", Schedule([], "", "", ""))

  /** `handleScheduleDayChange(day, checked)`: a ticked day is appended, an unticked one removed everywhere. */
  function HandleScheduleDayChange(form: CourseForm, day: string, checked: bool): (r: CourseForm)
    ensures r == form.(schedule := r.schedule)
    ensures r.schedule == form.schedule.(days := r.schedule.days)
  {
    var days := form.schedule.days;
    form.(schedule := form.schedule.(days := if checked then days + [day] else Arrays.Filter(days, (d: string) => d != day)))
  }

  /**
   * Ticking a day puts it last on the list and keeps the others in order; unticking removes
   * every occurrence of it and keeps every other day.
   */
  lemma ScheduleDaySpec(form: CourseForm, day: string)
    ensures HandleScheduleDayChange(form, day, true).schedule.days == form.schedule.days + [day]
    ensures day !in HandleScheduleDayChange(form, day, false).schedule.days
    ensures forall i :: 0 <= i < |form.schedule.days| && form.schedule.days[i] != day ==>
      form.schedule.days[i] in HandleScheduleDayChange(form, day, false).schedule.days
  {
    var r := HandleScheduleDayChange(form, day, false).schedule.days;
    assert r == Arrays.Filter(form.schedule.days, (d: string) => d != day);
  }

  /** Ticking a day that was not ticked and unticking it again gives back the form. */
  lemma TickThenUntick(form: CourseForm, day: string)
    requires day !in form.schedule.days
    ensures HandleScheduleDayChange(HandleScheduleDayChange(form, day, true), day, false) == form
  {
    var days := form.schedule.days;
    var p := (d: string) => d != day;
    Arrays.FilterAppend(days, [day], p);
    assert Arrays.Filter([day], p) == [] by {
      assert [day][1..] == [];
    }
    Arrays.FilterAll(days, p);
  }

  // ---------------------------------------------------------------------------
  // The course card

  /** `getScheduleDisplay(schedule)`. */
  function ScheduleDisplay(schedule: Option<Schedule>): string
  {
    if schedule.None? || |schedule.value.days| == 0 then "Not scheduled"
    else
      var s := schedule.value;
      var time := if s.startTime != "" && s.endTime != "" then s.startTime + " - " + s.endTime else "";
      var room := if s.room != "" then "Room " + s.room else "";
      Trim(Join(s.days, ", ") + " " + time + " " + room)
  }

  /** With days, both times and a room, the line is the days, the time span and the room. */
  lemma ScheduleDisplayFull(s: Schedule)
    requires s.days != [] && s.startTime != "" && s.endTime != ""
    requires Join(s.days, ", ") != [] && !IsSpace(Join(s.days, ", ")[0])
    requires s.room != [] && !IsSpace(s.room[|s.room| - 1])
    ensures ScheduleDisplay(Some(s)) == Join(s.days, ", ") + " " + s.startTime + " - " + s.endTime + " Room " + s.room
  {
    var line := Join(s.days, ", ") + " " + (s.startTime + " - " + s.endTime) + " " + ("Room " + s.room);
    assert line[0] == Join(s.days, ", ")[0];
    assert line[|line| - 1] == s.room[|s.room| - 1];
    TrimTrimmed(line);
  }

  /**
   * A missing time is left as an empty piece between two spaces, so a schedule with a room but
   * no times reads "Mon  Room 101", with two spaces.
   */
  lemma ScheduleDisplayDoubleSpace()
    ensures ScheduleDisplay(Some(Schedule(["Mon"], "", "09:00", "101"))) == "Mon  Room 101"
  {
    var s := Schedule(["Mon"], "", "09:00", "101");
    assert Join(s.days, ", ") == "Mon";
    assert "Room " + s.room == "Room 101";
    var line := "Mon" + " " + "" + " " + "Room 101";
    assert line == "Mon  Room 101";
    TrimTrimmed(line);
  }

  /** A schedule without days is "Not scheduled", whatever its times and room. */
  lemma NoDaysNotScheduled(s: Schedule)
    requires s.days == []
    ensures ScheduleDisplay(Some(s)) == "Not scheduled"
  {
  }

  /**
   * `getEnrollmentCount(course)`: the length of `enrolledStudents` when it is truthy, else 0.
   * `None` stands for a truthy value without a length, which the page would show as empty.
   */
  function EnrollmentCount(course: Fields): Option<nat>
  {
    var list := Get(course, "enrolledStudents");
    if !Truthy(list) then Some(0)
    else match list
      case List(items) => Some(|items|)
      case Str(s) => Some(|s|)
      case _ => None
  }

  /**
   * After an enrolment the card counts one more student, or the same number if already enrolled;
   * a string list, the one other list that can succeed, is left as it was.
   */
  lemma EnrollRaisesCount(rows: seq<Row>, courseId: Value, id: Option<int>)
    requires ChangeList(rows, courseId, Enroll(id)).Ok?
    ensures var i := IndexOfId(rows, ParseInt(courseId)).value;
      var list := Get(rows[i].fields, "enrolledStudents");
      var after := ChangeList(rows, courseId, Enroll(id)).value;
      && (list.List? ==>
            EnrollmentCount(Record(after[i]))
              == Some(if IntValue(id) in list.items then |list.items| else |list.items| + 1))
      && (!list.List? ==> list.Str? && Includes(list.s, IdText(id)) && after == rows)
  {
  }

  /**
   * After an unenrolment the card counts no more students than before, and fewer when the
   * student, by a readable id, was on the list.
   */
  lemma UnenrollLowersCount(rows: seq<Row>, courseId: Value, id: Option<int>)
    requires ChangeList(rows, courseId, Unenroll(id)).Ok?
    ensures var i := IndexOfId(rows, ParseInt(courseId)).value;
      var items := Get(rows[i].fields, "enrolledStudents").items;
      var after := EnrollmentCount(Record(ChangeList(rows, courseId, Unenroll(id)).value[i]));
      after.Some? && after.value <= |items| && (id.Some? && IntValue(id) in items ==> after.value < |items|)
  {
    var i := IndexOfId(rows, ParseInt(courseId)).value;
    var items := Get(rows[i].fields, "enrolledStudents").items;
    var v := IntValue(id);
    ChangedListHeld(rows, courseId, Unenroll(id));
    if v.Num? && v in items {
      var k :| 0 <= k < |items| && items[k] == v;
      Arrays.FilterDrops(items, Differs(v), k);
    }
  }

  // ---------------------------------------------------------------------------
  // Search

  /** The search box matches the course name, the course code or the teacher, ignoring case. */
  predicate MatchesCourse(c: Course, term: string)
  {
    Includes(ToLower(c.courseName), ToLower(term))
    || Includes(ToLower(c.courseCode), ToLower(term))
    || Includes(ToLower(c.teacher), ToLower(term))
  }

  /** `filteredCourses`. */
  function FilteredCourses(courses: seq<Course>, term: string): (r: seq<Course>)
    ensures forall c :: c in r ==> c in courses && MatchesCourse(c, term)
    ensures forall i :: 0 <= i < |courses| && MatchesCourse(courses[i], term) ==> courses[i] in r
  {
    Arrays.Filter(courses, (c: Course) => MatchesCourse(c, term))
  }

  /** An empty search lists every course, in order. */
  lemma EmptySearchListsAll(courses: seq<Course>)
    ensures FilteredCourses(courses, "") == courses
  {
    forall i | 0 <= i < |courses| ensures MatchesCourse(courses[i], "") {
      IncludesEmpty(ToLower(courses[i].courseName));
    }
    Arrays.FilterAll(courses, (c: Course) => MatchesCourse(c, ""));
  }

  // ---------------------------------------------------------------------------
  // Saving

  /** The schedule as the object the form holds. */
  function ScheduleValue(s: Schedule): Value
  {
    Obj(map["days" := List(seq(|s.days|, i requires 0 <= i < |s.days| => Str(s.days[i]))),
            "startTime" := Str(s.startTime), "endTime" := Str(s.endTime), "room" := Str(s.room)])
  }

  /**
   * `courseData` in `handleSubmit`: the form, `creditHours` through `parseInt`, and the edited
   * course's enrolment list, or an empty one for a new course.
   */
  function CourseData(form: CourseForm, editing: Option<Fields>): (d: Fields)
    ensures "Id" !in d && "enrolledStudents" in d && "creditHours" in d
    ensures d["creditHours"] == IntValue(ParseIntString(form.creditHours))
    ensures d["enrolledStudents"] == if editing.Some? then Get(editing.value, "enrolledStudents") else List([])
  {
    map["courseName" := Str(form.courseName), "courseCode" := Str(form.courseCode), "teacher" := Str(form.teacher),
        "creditHours" := IntValue(ParseIntString(form.creditHours)), "semester" := Str(form.semester),
        "schedule" := ScheduleValue(form.schedule),
        "enrolledStudents" := if editing.Some? then Get(editing.value, "enrolledStudents") else List([])]
  }

  /** `handleSubmit`: updates the edited course through its `Id`, or creates a new one. */
  method HandleSubmit(svc: CourseService, form: CourseForm, editing: Option<Fields>)
    modifies svc
    ensures editing.None? ==> svc.courses == Created(old(svc.courses), NewCourseFields(CourseData(form, editing)))
    ensures editing.Some? ==>
      var index := IndexOfId(old(svc.courses), ParseInt(Get(editing.value, "Id")));
      (index.None? ==> svc.courses == old(svc.courses))
      && (index.Some? ==> svc.courses == Replaced(old(svc.courses), index.value,
            old(svc.courses)[index.value].fields + WithoutId(CourseData(form, editing))))
    ensures old(svc.Valid()) ==> svc.Valid()
  {
    var data := CourseData(form, editing);
    if editing.Some? {
      var _ := svc.Update(Get(editing.value, "Id"), data);
    } else {
      var _ := svc.Create(data);
    }
  }

  /**
   * Saving an edited course keeps the enrolment list it was opened with; a new course starts
   * with nobody enrolled.
   */
  lemma SaveKeepsEnrolment(rows: seq<Row>, form: CourseForm, editing: Fields)
    requires IndexOfId(rows, ParseInt(Get(editing, "Id"))).Some?
    ensures var i := IndexOfId(rows, ParseInt(Get(editing, "Id"))).value;
      var data := CourseData(form, Some(editing));
      Get((rows[i].fields + WithoutId(data)), "enrolledStudents") == Get(editing, "enrolledStudents")
    ensures Get(NewCourseFields(CourseData(form, None)), "enrolledStudents") == List([])
  {
  }
}
