/** The course store and its enrolment lists (src/services/api/courseService.js). */
module Courses {

  import opened Js
  import opened Tables
  import Arrays

  const NotFoundMessage := "Course not found"

  /** The properties `create` stores: the data, with `enrolledStudents` defaulting to `[]`. */
  function NewCourseFields(data: Fields): (f: Fields)
    ensures "Id" !in f && "enrolledStudents" in f && Truthy(f["enrolledStudents"])
    ensures Truthy(Get(data, "enrolledStudents")) ==> f["enrolledStudents"] == data["enrolledStudents"]
    ensures !Truthy(Get(data, "enrolledStudents")) ==> f["enrolledStudents"] == List([])
    ensures forall k :: k in data && k != "Id" && k != "enrolledStudents" ==> k in f && f[k] == data[k]
  {
    WithoutId(data)["enrolledStudents" := Or(Get(data, "enrolledStudents"), List([]))]
  }

  // ---------------------------------------------------------------------------
  // Enrolment lists

  /** `if (!list.includes(v)) list.push(v)`; `includes` finds NaN, so it is plain membership. */
  function WithStudent(list: seq<Value>, v: Value): seq<Value>
  {
    if v in list then list else list + [v]
  }

  /** `id => id !== v`. */
  function Differs(v: Value): Value -> bool
  {
    x => !StrictEquals(x, v)
  }

  /** `list.filter(id => id !== v)`. */
  function WithoutStudent(list: seq<Value>, v: Value): seq<Value>
  {
    Arrays.Filter(list, Differs(v))
  }

  /** No value occurs twice. */
  predicate Distinct(list: seq<Value>)
  {
    forall i, j :: 0 <= i < j < |list| ==> list[i] != list[j]
  }

  /**
   * Enrolling adds the student once: afterwards the student is on the list, everyone who was
   * stays, in order, a second enrolment changes nothing, and a list without repeats keeps none.
   */
  lemma WithStudentSpec(list: seq<Value>, v: Value)
    ensures v in WithStudent(list, v)
    ensures list <= WithStudent(list, v)
    ensures |WithStudent(list, v)| <= |list| + 1
    ensures WithStudent(WithStudent(list, v), v) == WithStudent(list, v)
    ensures Distinct(list) ==> Distinct(WithStudent(list, v))
  {
  }

  /**
   * Unenrolling keeps, in order, exactly the entries not strictly equal to the student: for a
   * number other than NaN every occurrence goes and nothing else does.
   */
  lemma WithoutStudentSpec(list: seq<Value>, v: Value)
    ensures forall i :: 0 <= i < |list| && !StrictEquals(list[i], v) ==> list[i] in WithoutStudent(list, v)
    ensures forall x :: x in WithoutStudent(list, v) ==> x in list && !StrictEquals(x, v)
    ensures v.Num? ==> v !in WithoutStudent(list, v)
    ensures multiset(WithoutStudent(list, v)) <= multiset(list)
  {
    Arrays.FilterSubMultiset(list, Differs(v));
    forall i | 0 <= i < |list| && !StrictEquals(list[i], v) ensures list[i] in WithoutStudent(list, v) {
      assert Differs(v)(list[i]);
    }
    if v.Num? {
      assert !Differs(v)(v);
    }
  }

  /** Enrolling a student by a readable id who was not enrolled, then unenrolling them, restores the list. */
  lemma EnrollThenUnenroll(list: seq<Value>, id: int)
    requires Num(id as real) !in list
    ensures WithoutStudent(WithStudent(list, Num(id as real)), Num(id as real)) == list
  {
    var v := Num(id as real);
    Arrays.FilterAppend(list, [v], Differs(v));
    forall i | 0 <= i < |list| ensures Differs(v)(list[i]) {
      assert list[i] != v;
    }
    Arrays.FilterAll(list, Differs(v));
  }

  /**
   * An unreadable student id is enrolled as NaN, and since NaN is never strictly equal to
   * anything, unenrolling the same id leaves it on the list.
   */
  lemma UnreadableIdSticks(list: seq<Value>)
    ensures NaN in WithStudent(list, NaN)
    ensures NaN in WithoutStudent(WithStudent(list, NaN), NaN)
  {
    var l := WithStudent(list, NaN);
    var i :| 0 <= i < |l| && l[i] == NaN;
    WithoutStudentSpec(l, NaN);
  }

  // ---------------------------------------------------------------------------
  // The service

  /** The two enrolment calls, each with the id `parseInt(studentId)` reads (None for NaN). */
  datatype Change = Enroll(id: Option<int>) | Unenroll(id: Option<int>)
  {
    /** The value the call compares and stores: `parseInt(studentId)`. */
    function Student(): Value
    {
      IntValue(id)
    }

    /** What the call makes of an array: the student pushed once, or filtered out. */
    function Applied(items: seq<Value>): seq<Value>
    {
      match this
      case Enroll(_) => WithStudent(items, Student())
      case Unenroll(_) => WithoutStudent(items, Student())
    }
  }

  /** `String(parseInt(studentId))`, the text `includes` looks for in a string: digits or "NaN". */
  function IdText(id: Option<int>): string
  {
    if id.Some? then IntToString(id.value) else "NaN"
  }

  /**
   * The store after `enrollStudent`/`unenrollStudent` change the course's list in place, or the
   * error: "Course not found", or a TypeError when the list has no `includes`/`push` or no
   * `filter`. A string list has `includes` but no `push`: enrolling succeeds, and changes
   * nothing, when the string already contains the id's text.
   */
  function ChangeList(rows: seq<Row>, courseId: Value, change: Change): Result<seq<Row>>
  {
    match IndexOfId(rows, ParseInt(courseId))
    case None => Err(NotFound(NotFoundMessage))
    case Some(i) =>
      var list := Get(rows[i].fields, "enrolledStudents");
      if list.List? then Ok(Replaced(rows, i, rows[i].fields["enrolledStudents" := List(change.Applied(list.items))]))
      else if change.Enroll? && list.Str? && Includes(list.s, IdText(change.id)) then Ok(rows)
      else Err(TypeError)
  }

  /** A change that succeeds on an array leaves the course's record holding the changed array. */
  lemma ChangedListHeld(rows: seq<Row>, courseId: Value, change: Change)
    requires ChangeList(rows, courseId, change).Ok?
    requires IndexOfId(rows, ParseInt(courseId)).Some?
    requires Get(rows[IndexOfId(rows, ParseInt(courseId)).value].fields, "enrolledStudents").List?
    ensures var i := IndexOfId(rows, ParseInt(courseId)).value;
      var items := Get(rows[i].fields, "enrolledStudents").items;
      Get(Record(ChangeList(rows, courseId, change).value[i]), "enrolledStudents") == List(change.Applied(items))
  {
    var i := IndexOfId(rows, ParseInt(courseId)).value;
    var items := Get(rows[i].fields, "enrolledStudents").items;
    var fields := rows[i].fields["enrolledStudents" := List(change.Applied(items))];
    assert ChangeList(rows, courseId, change).value[i] == Row(rows[i].id, fields);
  }

  /**
   * A course stored with the string "12" as its list: enrolling student 1 finds "1" in it and
   * succeeds without a change, while enrolling student 3 reaches `push` and fails, and so does
   * any unenrolment, for want of `filter`.
   */
  lemma TextListEnrolment()
    ensures var rows := [Row(1, map["enrolledStudents" := Str("12")])];
      && ChangeList(rows, Num(1.0), Enroll(Some(1))) == Ok(rows)
      && ChangeList(rows, Num(1.0), Enroll(Some(3))) == Err(TypeError)
      && ChangeList(rows, Num(1.0), Unenroll(Some(1))) == Err(TypeError)
  {
    var rows := [Row(1, map["enrolledStudents" := Str("12")])];
    assert IndexOfId(rows, ParseInt(Num(1.0))) == Some(0) by {
      assert Trunc(1.0) == 1;
    }
    assert IdText(Some(1)) == "1" by {
      assert NatToString(1) == "1";
    }
    assert IdText(Some(3)) == "3" by {
      assert NatToString(3) == "3";
    }
    assert IsPrefix("1", "12");
    assert !Includes("12", "3") by {
      assert "12"[1..] == "2";
      assert "2"[1..] == "";
    }
  }

  class CourseService {
    var courses: seq<Row>

    /** Every course has its own `Id`. */
    ghost predicate Valid()
      reads this
    {
      UniqueIds(courses)
    }

    constructor(initial: seq<Row>)
      ensures courses == initial
    {
      courses := initial;
    }

    /** `getAll()`: the stored courses, in store order. */
    method GetAll() returns (r: seq<Fields>)
      ensures |r| == |courses|
      ensures forall i :: 0 <= i < |courses| ==> r[i] == Record(courses[i])
    {
      r := Records(courses);
    }

    /** `getById(id)`. */
    method GetById(id: Value) returns (r: Result<Fields>)
      ensures r == Lookup(courses, ParseInt(id), NotFoundMessage)
    {
      r := Lookup(courses, ParseInt(id), NotFoundMessage);
    }

    /** `create(courseData)`: appends a course with the next `Id` and returns a copy of it. */
    method Create(data: Fields) returns (r: Fields)
      modifies this
      ensures courses == Created(old(courses), NewCourseFields(data))
      ensures r == Record(Row(NextId(old(courses)), NewCourseFields(data)))
      ensures old(Valid()) ==> Valid()
    {
      var maxId := MaxId(courses);
      var course := Row(maxId + 1, NewCourseFields(data));
      courses := courses + [course];
      r := Record(course);
    }

    /** `update(id, courseData)`: the first course with that `Id` gets the data spread over it. */
    method Update(id: Value, data: Fields) returns (r: Result<Fields>)
      modifies this
      ensures IndexOfId(old(courses), ParseInt(id)).None? ==>
        r == Err(NotFound(NotFoundMessage)) && courses == old(courses)
      ensures IndexOfId(old(courses), ParseInt(id)).Some? ==>
        var i := IndexOfId(old(courses), ParseInt(id)).value;
        courses == Replaced(old(courses), i, old(courses)[i].fields + WithoutId(data))
        && r == Ok(Record(courses[i]))
      ensures old(Valid()) ==> Valid()
    {
      var index := IndexOfId(courses, ParseInt(id));
      if index.None? {
        return Err(NotFound(NotFoundMessage));
      }
      var i := index.value;
      ReplacedKeepsIds(courses, i, courses[i].fields + WithoutId(data), None);
      courses := Replaced(courses, i, courses[i].fields + WithoutId(data));
      r := Ok(Record(courses[i]));
    }

    /** `delete(id)`: removes the first course with that `Id`. */
    method Delete(id: Value) returns (r: Result<bool>)
      modifies this
      ensures IndexOfId(old(courses), ParseInt(id)).None? ==>
        r == Err(NotFound(NotFoundMessage)) && courses == old(courses)
      ensures IndexOfId(old(courses), ParseInt(id)).Some? ==>
        courses == Removed(old(courses), IndexOfId(old(courses), ParseInt(id)).value) && r == Ok(true)
      ensures old(Valid()) ==> Valid()
      ensures old(Valid()) ==> Lookup(courses, ParseInt(id), NotFoundMessage).Err?
    {
      var index := IndexOfId(courses, ParseInt(id));
      if index.None? {
        return Err(NotFound(NotFoundMessage));
      }
      RemovedGone(courses, index.value);
      courses := Removed(courses, index.value);
      r := Ok(true);
    }

    /**
     * `enrollStudent(courseId, studentId)`: puts `parseInt(studentId)` on the course's list unless
     * `includes` finds it there already, and returns a copy of the course.
     */
    method EnrollStudent(courseId: Value, studentId: Value) returns (r: Result<Fields>)
      modifies this
      ensures ChangeList(old(courses), courseId, Enroll(ParseInt(studentId))).Err? ==>
        courses == old(courses) && r.Err?
        && r.failure == ChangeList(old(courses), courseId, Enroll(ParseInt(studentId))).failure
      ensures ChangeList(old(courses), courseId, Enroll(ParseInt(studentId))).Ok? ==>
        courses == ChangeList(old(courses), courseId, Enroll(ParseInt(studentId))).value
        && r == Ok(Record(courses[IndexOfId(old(courses), ParseInt(courseId)).value]))
      ensures old(Valid()) ==> Valid()
    {
      var index := IndexOfId(courses, ParseInt(courseId));
      if index.None? {
        return Err(NotFound(NotFoundMessage));
      }
      var i := index.value;
      var list := Get(courses[i].fields, "enrolledStudents");
      if list.Str? && Includes(list.s, IdText(ParseInt(studentId))) {
        return Ok(Record(courses[i]));
      } else if !list.List? {
        return Err(TypeError);
      }
      var v := IntValue(ParseInt(studentId));
      var items := list.items;
      if v !in items {
        items := items + [v];
      }
      var fields := courses[i].fields["enrolledStudents" := List(items)];
      ReplacedKeepsIds(courses, i, fields, None);
      courses := Replaced(courses, i, fields);
      r := Ok(Record(courses[i]));
    }

    /**
     * `unenrollStudent(courseId, studentId)`: replaces the course's list by the entries not
     * strictly equal to `parseInt(studentId)`, and returns a copy of the course.
     */
    method UnenrollStudent(courseId: Value, studentId: Value) returns (r: Result<Fields>)
      modifies this
      ensures ChangeList(old(courses), courseId, Unenroll(ParseInt(studentId))).Err? ==>
        courses == old(courses) && r.Err?
        && r.failure == ChangeList(old(courses), courseId, Unenroll(ParseInt(studentId))).failure
      ensures ChangeList(old(courses), courseId, Unenroll(ParseInt(studentId))).Ok? ==>
        courses == ChangeList(old(courses), courseId, Unenroll(ParseInt(studentId))).value
        && r == Ok(Record(courses[IndexOfId(old(courses), ParseInt(courseId)).value]))
      ensures old(Valid()) ==> Valid()
    {
      var index := IndexOfId(courses, ParseInt(courseId));
      if index.None? {
        return Err(NotFound(NotFoundMessage));
      }
      var i := index.value;
      var list := Get(courses[i].fields, "enrolledStudents");
      if !list.List? {
        return Err(TypeError);
      }
      var items := WithoutStudent(list.items, IntValue(ParseInt(studentId)));
      var fields := courses[i].fields["enrolledStudents" := List(items)];
      ReplacedKeepsIds(courses, i, fields, None);
      courses := Replaced(courses, i, fields);
      r := Ok(Record(courses[i]));
    }
  }
}
