/** The attendance store (src/services/api/attendanceService.js). */
module Attendance {

  import opened Js
  import opened Tables

  const NotFoundMessage := "Attendance record not found"

  /** The properties `create` stores: the data with parsed ids and `recordedBy` defaulting to "System". */
  function NewAttendanceFields(data: Fields): Fields
  {
    ReparsedIds(WithoutId(data), data)["recordedBy" := Or(Get(data, "recordedBy"), Str("System"))]
  }

  /**
   * A created record carries `parseInt` of the data's ids, the data's truthy `recordedBy` or
   * else "System"; it is the data's otherwise.
   */
  lemma NewAttendanceShape(data: Fields)
    ensures NumericIds(NewAttendanceFields(data))
    ensures IdParsedFrom(NewAttendanceFields(data), data, "studentId")
    ensures IdParsedFrom(NewAttendanceFields(data), data, "courseId")
    ensures "recordedBy" in NewAttendanceFields(data) && Truthy(NewAttendanceFields(data)["recordedBy"])
    ensures Truthy(Get(data, "recordedBy")) ==> NewAttendanceFields(data)["recordedBy"] == data["recordedBy"]
    ensures !Truthy(Get(data, "recordedBy")) ==> NewAttendanceFields(data)["recordedBy"] == Str("System")
    ensures forall k :: k in data && k !in {"Id", "studentId", "courseId", "recordedBy"} ==>
      k in NewAttendanceFields(data) && NewAttendanceFields(data)[k] == data[k]
  {
  }

  class AttendanceService {
    var attendance: seq<Row>

    /** Every record has its own `Id`. */
    ghost predicate Valid()
      reads this
    {
      UniqueIds(attendance)
    }

    constructor(initial: seq<Row>)
      ensures attendance == initial
    {
      attendance := initial;
    }

    /** `getAll()`: the stored marks, in store order. */
    method GetAll() returns (r: seq<Fields>)
      ensures |r| == |attendance|
      ensures forall i :: 0 <= i < |attendance| ==> r[i] == Record(attendance[i])
    {
      r := Records(attendance);
    }

    /** `getById(id)`. */
    method GetById(id: Value) returns (r: Result<Fields>)
      ensures r == Lookup(attendance, ParseInt(id), NotFoundMessage)
    {
      r := Lookup(attendance, ParseInt(id), NotFoundMessage);
    }

    /**
     * `getByStudentId(studentId)`: the attendance whose `studentId` is `parseInt(studentId)`, in
     * store order; an unreadable id selects none.
     */
    method GetByStudentId(studentId: Value) returns (r: seq<Fields>)
      ensures r == RowsWhere(attendance, "studentId", IntValue(ParseInt(studentId)))
      ensures forall i :: 0 <= i < |attendance| && FieldIs("studentId", IntValue(ParseInt(studentId)))(attendance[i]) ==> Record(attendance[i]) in r
      ensures forall m :: m in r ==> StrictEquals(Get(m, "studentId"), IntValue(ParseInt(studentId)))
      ensures ParseInt(studentId).None? ==> r == []
    {
      RowsWhereIff(attendance, "studentId", IntValue(ParseInt(studentId)));
      r := RowsWhere(attendance, "studentId", IntValue(ParseInt(studentId)));
    }

    /** `getByDate(date)`: the records whose `date` is strictly equal to `date`, in store order. */
    method GetByDate(date: Value) returns (r: seq<Fields>)
      ensures r == RowsWhere(attendance, "date", date)
      ensures forall i :: 0 <= i < |attendance| && FieldIs("date", date)(attendance[i]) ==> Record(attendance[i]) in r
      ensures forall m :: m in r ==> StrictEquals(Get(m, "date"), date)
    {
      RowsWhereIff(attendance, "date", date);
      r := RowsWhere(attendance, "date", date);
    }

    /** `create(attendanceData)`: appends a record with the next `Id` and returns a copy of it. */
    method Create(data: Fields) returns (r: Fields)
      modifies this
      ensures attendance == Created(old(attendance), NewAttendanceFields(data))
      ensures r == Record(Row(NextId(old(attendance)), NewAttendanceFields(data)))
      ensures old(Valid()) ==> Valid()
    {
      var maxId := MaxId(attendance);
      var record := Row(maxId + 1, NewAttendanceFields(data));
      attendance := attendance + [record];
      r := Record(record);
    }

    /** `update(id, attendanceData)`: the first record with that `Id` gets the data and re-parsed ids. */
    method Update(id: Value, data: Fields) returns (r: Result<Fields>)
      modifies this
      ensures IndexOfId(old(attendance), ParseInt(id)).None? ==>
        r == Err(NotFound(NotFoundMessage)) && attendance == old(attendance)
      ensures IndexOfId(old(attendance), ParseInt(id)).Some? ==>
        var i := IndexOfId(old(attendance), ParseInt(id)).value;
        attendance == Replaced(old(attendance), i, MergedWithIds(old(attendance)[i].fields, data))
        && r == Ok(Record(attendance[i]))
      ensures old(Valid()) ==> Valid()
    {
      var index := IndexOfId(attendance, ParseInt(id));
      if index.None? {
        return Err(NotFound(NotFoundMessage));
      }
      var i := index.value;
      var fields := MergedWithIds(attendance[i].fields, data);
      ReplacedKeepsIds(attendance, i, fields, None);
      attendance := Replaced(attendance, i, fields);
      r := Ok(Record(attendance[i]));
    }

    /** `delete(id)`: removes the first record with that `Id`. */
    method Delete(id: Value) returns (r: Result<bool>)
      modifies this
      ensures IndexOfId(old(attendance), ParseInt(id)).None? ==>
        r == Err(NotFound(NotFoundMessage)) && attendance == old(attendance)
      ensures IndexOfId(old(attendance), ParseInt(id)).Some? ==>
        attendance == Removed(old(attendance), IndexOfId(old(attendance), ParseInt(id)).value) && r == Ok(true)
      ensures old(Valid()) ==> Valid()
      ensures old(Valid()) ==> Lookup(attendance, ParseInt(id), NotFoundMessage).Err?
    {
      var index := IndexOfId(attendance, ParseInt(id));
      if index.None? {
        return Err(NotFound(NotFoundMessage));
      }
      RemovedGone(attendance, index.value);
      attendance := Removed(attendance, index.value);
      r := Ok(true);
    }
  }
}
