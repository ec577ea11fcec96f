/**
 * The attendance page: the status shown for a student on a day, marking a student, the
 * roster of active students and the per-status counts (src/components/pages/Attendance.jsx).
 */
module AttendancePage {

  import opened Js
  import opened Tables
  import Arrays
  import opened Domain
  import opened Attendance

  /** The statuses a mark can take, in the order of the buttons and the counters. */
  const StatusOptions: seq<string> := ["Present", "Absent", "Late", "Excused"]

  /** The page lists only students whose `enrollmentStatus` is "Active". */
  function Roster(students: seq<Student>): (r: seq<Student>)
    ensures forall s :: s in r ==> s in students && s.enrollmentStatus == "Active"
    ensures forall i :: 0 <= i < |students| && students[i].enrollmentStatus == "Active" ==> students[i] in r
  {
    Arrays.Filter(students, (s: Student) => s.enrollmentStatus == "Active")
  }

  // ---------------------------------------------------------------------------
  // Finding a student's mark

  /**
   * `v.toString() === t` for the values an id field holds: a string, NaN (whose text is
   * "NaN") or an integer number, written in decimal.
   */
  predicate TextIs(v: Value, t: string)
  {
    match v
    case Str(s) => s == t
    case NaN => t == "NaN"
    case Num(n) => n == n.Floor as real && IntToString(n.Floor) == t
    case _ => false
  }

  /** For a parsed id, comparing its text with a student's id text compares the numbers. */
  lemma TextIsId(v: Value, id: int)
    requires IsIntOrNaN(v)
    ensures TextIs(v, IntToString(id)) <==> v == Num(id as real)
  {
    if v.Num? && TextIs(v, IntToString(id)) {
      IntToStringInjective(v.n.Floor, id);
    }
    if v.NaN? {
      assert IntToString(id) != "NaN" by {
        if id >= 0 {
          assert IsDigit(IntToString(id)[0]);
        }
      }
    }
  }

  /**
   * The mark the page looks for: the student's (`studentId.toString()`), on the day, and in
   * the selected course unless the course filter is empty.
   */
  function Marks(studentId: int, date: string, selectedCourse: string): Row -> bool
  {
    (r: Row) => TextIs(Get(r.fields, "studentId"), IntToString(studentId))
      && Get(r.fields, "date") == Str(date)
      && (selectedCourse == "" || TextIs(Get(r.fields, "courseId"), selectedCourse))
  }

  /** `getAttendanceStatus(studentId, date)`: the first matching mark's status, or "Present". */
  function AttendanceStatus(rows: seq<Row>, studentId: int, date: string, selectedCourse: string): Value
  {
    match Arrays.Find(rows, Marks(studentId, date, selectedCourse))
    case Some(r) => Get(r.fields, "status")
    case None => Str("Present")
  }

  // ---------------------------------------------------------------------------
  // Marking a student

  /** The record `handleAttendanceChange` creates when the student has no mark yet. */
  function NewMarkData(studentId: int, date: string, status: string, selectedCourse: string): Fields
  {
    map["studentId" := Num(studentId as real), "date" := Str(date), "status" := Str(status),
        "courseId" := (if selectedCourse != "" then IntValue(ParseIntString(selectedCourse)) else Num(1.0)),
        "notes" := Str(""), "recordedBy" := Str("System")]
  }

  /** The data passed to `update`: the found record with the new status. */
  function UpdateData(r: Row, status: string): Fields
  {
    Record(r)["status" := Str(status)]
  }

  /**
   * The store after `handleAttendanceChange`: the first matching mark is updated through its
   * `Id`, or a new mark is created.
   */
  function ChangedAttendance(rows: seq<Row>, studentId: int, date: string, status: string, selectedCourse: string): seq<Row>
  {
    match Arrays.FindIndex(rows, Marks(studentId, date, selectedCourse))
    case Some(i) =>
      (match IndexOfId(rows, Some(rows[i].id))
       case Some(j) => Replaced(rows, j, MergedWithIds(rows[j].fields, UpdateData(rows[i], status)))
       case None => rows)
    case None => Created(rows, NewAttendanceFields(NewMarkData(studentId, date, status, selectedCourse)))
  }

  /** `handleAttendanceChange(studentId, date, status)`, with the page's list being the store's records. */
  method HandleAttendanceChange(svc: AttendanceService, studentId: int, date: string, status: string, selectedCourse: string)
    modifies svc
    ensures svc.attendance == ChangedAttendance(old(svc.attendance), studentId, date, status, selectedCourse)
    ensures old(svc.Valid()) ==> svc.Valid()
  {
    var index := Arrays.FindIndex(svc.attendance, Marks(studentId, date, selectedCourse));
    if index.Some? {
      var existing := svc.attendance[index.value];
      assert Trunc(existing.id as real) == existing.id;
      var _ := svc.Update(Record(existing)["Id"], UpdateData(existing, status));
    } else {
      var _ := svc.Create(NewMarkData(studentId, date, status, selectedCourse));
    }
  }

  // ---------------------------------------------------------------------------
  // What a change does

  /** Every stored record carries ids as `parseInt` returns them, as the store writes them. */
  predicate IdsParsed(rows: seq<Row>)
  {
    forall i :: 0 <= i < |rows| ==> NumericIds(rows[i].fields)
  }

  /** An option of the course filter: the text of an integer, as `course.Id.toString()` gives it. */
  predicate CourseOption(t: string)
  {
    ParseIntString(t).Some? && IntToString(ParseIntString(t).value) == t
  }

  /** Re-parsing a parsed id leaves it as it is. */
  lemma ReparsedUnchanged(v: Value)
    requires IsIntOrNaN(v)
    ensures IntValue(ParseInt(v)) == v
  {
    if v.Num? {
      assert Trunc(v.n) == v.n.Floor;
    }
  }

  /** The found record's `Id` leads `update` back to it when ids are unique. */
  lemma IdLeadsBack(rows: seq<Row>, i: nat)
    requires UniqueIds(rows) && i < |rows|
    ensures IndexOfId(rows, Some(rows[i].id)) == Some(i)
  {
  }

  /** The fields that decide which marks match. */
  predicate SameKeys(f: Fields, g: Fields)
  {
    Get(f, "studentId") == Get(g, "studentId") && Get(f, "date") == Get(g, "date") && Get(f, "courseId") == Get(g, "courseId")
  }

  /** Updating a parsed record with its own copy and a new status keeps what it matches and sets the status. */
  lemma UpdateKeepsKeys(r: Row, status: string)
    requires NumericIds(r.fields)
    ensures var f := MergedWithIds(r.fields, UpdateData(r, status));
      SameKeys(f, r.fields) && Get(f, "status") == Str(status) && NumericIds(f)
  {
    var data := UpdateData(r, status);
    MergedWithIdsShape(r.fields, data);
    ReparsedUnchanged(r.fields["studentId"]);
    ReparsedUnchanged(r.fields["courseId"]);
    assert Get(data, "studentId") == r.fields["studentId"];
    assert Get(data, "courseId") == r.fields["courseId"];
    if "date" in r.fields {
      assert "date" in data && data["date"] == r.fields["date"];
    }
  }

  /**
   * A created mark is the student's, on the day, in the selected course or course 1 when none
   * is selected, with the chosen status, no notes and recorder "System"; the page then finds it
   * for that student and day and for no other.
   */
  lemma NewMarkMatches(studentId: int, date: string, status: string, selectedCourse: string, s: int, d: string)
    requires selectedCourse == "" || CourseOption(selectedCourse)
    ensures var f := NewAttendanceFields(NewMarkData(studentId, date, status, selectedCourse));
      && Get(f, "status") == Str(status) && NumericIds(f)
      && f["courseId"] == (if selectedCourse == "" then Num(1.0) else Num(ParseIntString(selectedCourse).value as real))
      && Get(f, "notes") == Str("") && Get(f, "recordedBy") == Str("System")
      && (Marks(s, d, selectedCourse)(Row(0, f)) <==> s == studentId && d == date)
  {
    var f := NewAttendanceFields(NewMarkData(studentId, date, status, selectedCourse));
    NewMarkFields(studentId, date, status, selectedCourse);
    TextIsId(f["studentId"], s);
  }

  /** The page finds a created mark, under whatever Id, for its own student and day. */
  lemma NewMarkFound(studentId: int, date: string, status: string, selectedCourse: string, id: int)
    requires selectedCourse == "" || CourseOption(selectedCourse)
    ensures var f := NewAttendanceFields(NewMarkData(studentId, date, status, selectedCourse));
      Marks(studentId, date, selectedCourse)(Row(id, f)) && Get(f, "status") == Str(status) && NumericIds(f)
  {
    NewMarkMatches(studentId, date, status, selectedCourse, studentId, date);
  }

  /** The fields of a created mark: the ids as numbers, the day and the status as given, no notes, recorder "System". */
  lemma NewMarkFields(studentId: int, date: string, status: string, selectedCourse: string)
    requires selectedCourse == "" || CourseOption(selectedCourse)
    ensures var f := NewAttendanceFields(NewMarkData(studentId, date, status, selectedCourse));
      NumericIds(f) && f["studentId"] == Num(studentId as real)
      && Get(f, "date") == Str(date) && Get(f, "status") == Str(status)
      && Get(f, "notes") == Str("") && Get(f, "recordedBy") == Str("System")
      && (selectedCourse == "" ==> f["courseId"] == Num(1.0))
      && (selectedCourse != "" ==> f["courseId"] == Num(ParseIntString(selectedCourse).value as real)
                                   && TextIs(f["courseId"], selectedCourse))
  {
    var data := NewMarkData(studentId, date, status, selectedCourse);
    NewAttendanceShape(data);
    assert Trunc(studentId as real) == studentId;
    if selectedCourse != "" {
      var k := ParseIntString(selectedCourse).value;
      assert Trunc(k as real) == k;
    }
  }

  /** Two lists that agree on which entries match, and on the matching entries, have the same first match. */
  lemma FindSame(a: seq<Row>, b: seq<Row>, p: Row -> bool, q: Row -> bool)
    requires |a| <= |b|
    requires forall k :: 0 <= k < |a| ==> (p(a[k]) <==> q(b[k])) && (p(a[k]) ==> a[k] == b[k])
    requires forall k :: |a| <= k < |b| ==> !q(b[k])
    ensures Arrays.Find(a, p) == Arrays.Find(b, q)
  {
    var i := Arrays.FindIndex(a, p);
    var j := Arrays.FindIndex(b, q);
    if i.Some? {
      assert q(b[i.value]);
      assert forall k :: 0 <= k < i.value ==> !q(b[k]);
      assert j == i;
    } else {
      assert forall k :: 0 <= k < |b| ==> !q(b[k]);
    }
  }

  /** An entry that matches, after entries that do not, is the first match. */
  lemma FindFirst(xs: seq<Row>, p: Row -> bool, i: nat)
    requires i < |xs| && p(xs[i])
    requires forall k :: 0 <= k < i ==> !p(xs[k])
    ensures Arrays.Find(xs, p) == Some(xs[i])
  {
    assert Arrays.FindIndex(xs, p) == Some(i);
  }

  /**
   * After marking a student, the page shows the chosen status for that student on that day,
   * and the store keeps unique, parsed ids.
   */
  lemma ChangeShowsStatus(rows: seq<Row>, studentId: int, date: string, status: string, selectedCourse: string)
    requires UniqueIds(rows) && IdsParsed(rows)
    requires selectedCourse == "" || CourseOption(selectedCourse)
    ensures var after := ChangedAttendance(rows, studentId, date, status, selectedCourse);
      AttendanceStatus(after, studentId, date, selectedCourse) == Str(status)
      && UniqueIds(after) && IdsParsed(after)
  {
    match Arrays.FindIndex(rows, Marks(studentId, date, selectedCourse))
    case Some(i) => ShowsStatusOnUpdate(rows, studentId, date, status, selectedCourse, i);
    case None => ShowsStatusOnCreate(rows, studentId, date, status, selectedCourse);
  }

  lemma ShowsStatusOnUpdate(rows: seq<Row>, studentId: int, date: string, status: string, selectedCourse: string, i: nat)
    requires UniqueIds(rows) && IdsParsed(rows)
    requires Arrays.FindIndex(rows, Marks(studentId, date, selectedCourse)) == Some(i)
    ensures var after := ChangedAttendance(rows, studentId, date, status, selectedCourse);
      AttendanceStatus(after, studentId, date, selectedCourse) == Str(status)
      && UniqueIds(after) && IdsParsed(after)
  {
    var p := Marks(studentId, date, selectedCourse);
    var after := ChangedAttendance(rows, studentId, date, status, selectedCourse);
    IdLeadsBack(rows, i);
    var f := MergedWithIds(rows[i].fields, UpdateData(rows[i], status));
    UpdateKeepsKeys(rows[i], status);
    ReplacedKeepsIds(rows, i, f, None);
    assert after == rows[i := Row(rows[i].id, f)];
    assert p(after[i]);
    FindFirst(after, p, i);
  }

  lemma ShowsStatusOnCreate(rows: seq<Row>, studentId: int, date: string, status: string, selectedCourse: string)
    requires UniqueIds(rows) && IdsParsed(rows)
    requires selectedCourse == "" || CourseOption(selectedCourse)
    requires Arrays.FindIndex(rows, Marks(studentId, date, selectedCourse)).None?
    ensures var after := ChangedAttendance(rows, studentId, date, status, selectedCourse);
      AttendanceStatus(after, studentId, date, selectedCourse) == Str(status)
      && UniqueIds(after) && IdsParsed(after)
  {
    var p := Marks(studentId, date, selectedCourse);
    var after := ChangedAttendance(rows, studentId, date, status, selectedCourse);
    var f := NewAttendanceFields(NewMarkData(studentId, date, status, selectedCourse));
    NewMarkFound(studentId, date, status, selectedCourse, NextId(rows));
    CreatedUnique(rows, f);
    assert after == rows + [Row(NextId(rows), f)];
    assert p(after[|rows|]);
    FindFirst(after, p, |rows|);
  }

  /** Marking one student on one day changes what the page shows for no other student or day. */
  lemma ChangeKeepsOthers(rows: seq<Row>, studentId: int, date: string, status: string, selectedCourse: string,
                          s: int, d: string)
    requires UniqueIds(rows) && IdsParsed(rows)
    requires selectedCourse == "" || CourseOption(selectedCourse)
    requires s != studentId || d != date
    ensures AttendanceStatus(ChangedAttendance(rows, studentId, date, status, selectedCourse), s, d, selectedCourse)
      == AttendanceStatus(rows, s, d, selectedCourse)
  {
    match Arrays.FindIndex(rows, Marks(studentId, date, selectedCourse))
    case Some(i) => KeepsOthersOnUpdate(rows, studentId, date, status, selectedCourse, s, d, i);
    case None => KeepsOthersOnCreate(rows, studentId, date, status, selectedCourse, s, d);
  }

  lemma KeepsOthersOnUpdate(rows: seq<Row>, studentId: int, date: string, status: string, selectedCourse: string,
                            s: int, d: string, i: nat)
    requires UniqueIds(rows) && IdsParsed(rows)
    requires s != studentId || d != date
    requires Arrays.FindIndex(rows, Marks(studentId, date, selectedCourse)) == Some(i)
    ensures AttendanceStatus(ChangedAttendance(rows, studentId, date, status, selectedCourse), s, d, selectedCourse)
      == AttendanceStatus(rows, s, d, selectedCourse)
  {
    var q := Marks(s, d, selectedCourse);
    var after := ChangedAttendance(rows, studentId, date, status, selectedCourse);
    IdLeadsBack(rows, i);
    var f := MergedWithIds(rows[i].fields, UpdateData(rows[i], status));
    UpdateKeepsKeys(rows[i], status);
    assert after == rows[i := Row(rows[i].id, f)];
    assert !q(rows[i]) && !q(after[i]) by {
      TextIsId(Get(rows[i].fields, "studentId"), studentId);
      TextIsId(Get(rows[i].fields, "studentId"), s);
    }
    FindSame(rows, after, q, q);
  }

  lemma KeepsOthersOnCreate(rows: seq<Row>, studentId: int, date: string, status: string, selectedCourse: string,
                            s: int, d: string)
    requires selectedCourse == "" || CourseOption(selectedCourse)
    requires s != studentId || d != date
    requires Arrays.FindIndex(rows, Marks(studentId, date, selectedCourse)).None?
    ensures AttendanceStatus(ChangedAttendance(rows, studentId, date, status, selectedCourse), s, d, selectedCourse)
      == AttendanceStatus(rows, s, d, selectedCourse)
  {
    var q := Marks(s, d, selectedCourse);
    var after := ChangedAttendance(rows, studentId, date, status, selectedCourse);
    var f := NewAttendanceFields(NewMarkData(studentId, date, status, selectedCourse));
    NewMarkMatches(studentId, date, status, selectedCourse, s, d);
    assert after == rows + [Row(NextId(rows), f)];
    assert !q(after[|rows|]);
    FindSame(rows, after, q, q);
  }

  // ---------------------------------------------------------------------------
  // Counters

  /** The status the page shows for each student on the day. */
  function Shown(rows: seq<Row>, date: string, selectedCourse: string): Student -> Value
  {
    (s: Student) => AttendanceStatus(rows, s.id, date, selectedCourse)
  }

  /** A counter: the number of roster students whose shown status is `status`. */
  function StatusCount(roster: seq<Student>, shown: Student -> Value, status: string): nat
  {
    Arrays.Count(roster, Has(shown, status))
  }

  /** The test a counter applies to each student. */
  function Has(shown: Student -> Value, status: string): Student -> bool
  {
    (s: Student) => shown(s) == Str(status)
  }

  /** A student with no mark on the day is counted as present. */
  lemma UnmarkedCountsPresent(rows: seq<Row>, studentId: int, date: string, selectedCourse: string)
    requires forall k :: 0 <= k < |rows| ==> !Marks(studentId, date, selectedCourse)(rows[k])
    ensures AttendanceStatus(rows, studentId, date, selectedCourse) == Str("Present")
  {
  }

  /** When every mark holds one of the four statuses, so does every shown status. */
  lemma ShownStatusIsOption(rows: seq<Row>, studentId: int, date: string, selectedCourse: string)
    requires forall k :: 0 <= k < |rows| ==> Get(rows[k].fields, "status") in StatusValues
    ensures AttendanceStatus(rows, studentId, date, selectedCourse) in StatusValues
  {
    var found := Arrays.Find(rows, Marks(studentId, date, selectedCourse));
    if found.Some? {
      var k :| 0 <= k < |rows| && rows[k] == found.value;
    }
  }

  /** The four statuses as stored values. */
  const StatusValues: seq<Value> := [Str("Present"), Str("Absent"), Str("Late"), Str("Excused")]

  /** The four counters added up. */
  function Counters(roster: seq<Student>, shown: Student -> Value): nat
  {
    StatusCount(roster, shown, "Present") + StatusCount(roster, shown, "Absent")
    + StatusCount(roster, shown, "Late") + StatusCount(roster, shown, "Excused")
  }

  /** How much one shown status adds to the counter for `status`. */
  function Hit(v: Value, status: string): nat
  {
    if v == Str(status) then 1 else 0
  }

  /** How much one shown status adds to the four counters together. */
  function Hits(v: Value): nat
  {
    Hit(v, "Present") + Hit(v, "Absent") + Hit(v, "Late") + Hit(v, "Excused")
  }

  /** A shown status adds one to at most one counter, and to exactly one if it is one of the four. */
  lemma HitsAtMostOne(v: Value)
    ensures Hits(v) <= 1
    ensures v in StatusValues ==> Hits(v) == 1
  {
  }

  lemma StatusCountSnoc(init: seq<Student>, last: Student, shown: Student -> Value, status: string)
    ensures StatusCount(init + [last], shown, status) == StatusCount(init, shown, status) + Hit(shown(last), status)
  {
    Arrays.CountSnoc(init, last, Has(shown, status));
  }

  lemma CountersSnoc(init: seq<Student>, last: Student, shown: Student -> Value)
    ensures Counters(init + [last], shown) == Counters(init, shown) + Hits(shown(last))
  {
    StatusCountSnoc(init, last, shown, "Present");
    StatusCountSnoc(init, last, shown, "Absent");
    StatusCountSnoc(init, last, shown, "Late");
    StatusCountSnoc(init, last, shown, "Excused");
  }

  /**
   * Each student shows one status, so the counters add up to at most the roster, and to
   * exactly the roster when every shown status is one of the four.
   */
  lemma {:induction false} CountersCover(roster: seq<Student>, shown: Student -> Value)
    ensures Counters(roster, shown) <= |roster|
    ensures (forall i :: 0 <= i < |roster| ==> shown(roster[i]) in StatusValues) ==> Counters(roster, shown) == |roster|
  {
    if roster != [] {
      var init, last := roster[..|roster| - 1], roster[|roster| - 1];
      assert roster == init + [last];
      CountersCover(init, shown);
      CountersSnoc(init, last, shown);
      HitsAtMostOne(shown(last));
      if forall i :: 0 <= i < |roster| ==> shown(roster[i]) in StatusValues {
        forall i | 0 <= i < |init| ensures shown(init[i]) in StatusValues {
          assert init[i] == roster[i];
        }
      }
    }
  }

  /**
   * On the page: the four counters never add up to more than the active students, and when
   * every mark holds one of the four statuses they add up to exactly that number.
   */
  lemma CountsCoverRoster(rows: seq<Row>, roster: seq<Student>, date: string, selectedCourse: string)
    ensures Counters(roster, Shown(rows, date, selectedCourse)) <= |roster|
    ensures (forall k :: 0 <= k < |rows| ==> Get(rows[k].fields, "status") in StatusValues) ==>
      Counters(roster, Shown(rows, date, selectedCourse)) == |roster|
  {
    var shown := Shown(rows, date, selectedCourse);
    CountersCover(roster, shown);
    if forall k :: 0 <= k < |rows| ==> Get(rows[k].fields, "status") in StatusValues {
      forall i | 0 <= i < |roster| ensures shown(roster[i]) in StatusValues {
        ShownStatusIsOption(rows, roster[i].id, date, selectedCourse);
      }
    }
  }
}
