/** The grade store (src/services/api/gradeService.js). */
module Grades {

  import opened Js
  import opened Tables

  const NotFoundMessage := "Grade not found"

  /** The properties `create` stores: the data with parsed ids and `dateRecorded` defaulting to today. */
  function NewGradeFields(data: Fields, today: string): Fields
  {
    ReparsedIds(WithoutId(data), data)["dateRecorded" := Or(Get(data, "dateRecorded"), Str(today))]
  }

  /**
   * A created grade carries `parseInt` of the data's ids, the data's truthy `dateRecorded` or
   * else today; it is the data's otherwise.
   */
  lemma NewGradeShape(data: Fields, today: string)
    ensures NumericIds(NewGradeFields(data, today))
    ensures IdParsedFrom(NewGradeFields(data, today), data, "studentId")
    ensures IdParsedFrom(NewGradeFields(data, today), data, "courseId")
    ensures "dateRecorded" in NewGradeFields(data, today)
    ensures Truthy(Get(data, "dateRecorded")) ==> NewGradeFields(data, today)["dateRecorded"] == data["dateRecorded"]
    ensures !Truthy(Get(data, "dateRecorded")) ==> NewGradeFields(data, today)["dateRecorded"] == Str(today)
    ensures forall k :: k in data && k !in {"Id", "studentId", "courseId", "dateRecorded"} ==>
      k in NewGradeFields(data, today) && NewGradeFields(data, today)[k] == data[k]
  {
  }

  class GradeService {
    var grades: seq<Row>

    /** Every grade has its own `Id`. */
    ghost predicate Valid()
      reads this
    {
      UniqueIds(grades)
    }

    constructor(initial: seq<Row>)
      ensures grades == initial
    {
      grades := initial;
    }

    /** `getAll()`: the stored grades, in store order. */
    method GetAll() returns (r: seq<Fields>)
      ensures |r| == |grades|
      ensures forall i :: 0 <= i < |grades| ==> r[i] == Record(grades[i])
    {
      r := Records(grades);
    }

    /** `getById(id)`. */
    method GetById(id: Value) returns (r: Result<Fields>)
      ensures r == Lookup(grades, ParseInt(id), NotFoundMessage)
    {
      r := Lookup(grades, ParseInt(id), NotFoundMessage);
    }

    /**
     * `getByStudentId(studentId)`: the grades whose `studentId` is `parseInt(studentId)`, in
     * store order; an unreadable id selects none.
     */
    method GetByStudentId(studentId: Value) returns (r: seq<Fields>)
      ensures r == RowsWhere(grades, "studentId", IntValue(ParseInt(studentId)))
      ensures forall i :: 0 <= i < |grades| && FieldIs("studentId", IntValue(ParseInt(studentId)))(grades[i]) ==> Record(grades[i]) in r
      ensures forall m :: m in r ==> StrictEquals(Get(m, "studentId"), IntValue(ParseInt(studentId)))
      ensures ParseInt(studentId).None? ==> r == []
    {
      RowsWhereIff(grades, "studentId", IntValue(ParseInt(studentId)));
      r := RowsWhere(grades, "studentId", IntValue(ParseInt(studentId)));
    }

    /** `getByCourseId(courseId)`: as `getByStudentId`, over `courseId`: the grades whose `courseId` is `parseInt(courseId)`. */
    method GetByCourseId(courseId: Value) returns (r: seq<Fields>)
      ensures r == RowsWhere(grades, "courseId", IntValue(ParseInt(courseId)))
      ensures forall i :: 0 <= i < |grades| && FieldIs("courseId", IntValue(ParseInt(courseId)))(grades[i]) ==> Record(grades[i]) in r
      ensures forall m :: m in r ==> StrictEquals(Get(m, "courseId"), IntValue(ParseInt(courseId)))
      ensures ParseInt(courseId).None? ==> r == []
    {
      RowsWhereIff(grades, "courseId", IntValue(ParseInt(courseId)));
      r := RowsWhere(grades, "courseId", IntValue(ParseInt(courseId)));
    }

    /** `create(gradeData)`: appends a grade with the next `Id` and returns a copy of it. */
    method Create(data: Fields, today: string) returns (r: Fields)
      modifies this
      ensures grades == Created(old(grades), NewGradeFields(data, today))
      ensures r == Record(Row(NextId(old(grades)), NewGradeFields(data, today)))
      ensures old(Valid()) ==> Valid()
    {
      var maxId := MaxId(grades);
      var grade := Row(maxId + 1, NewGradeFields(data, today));
      grades := grades + [grade];
      r := Record(grade);
    }

    /** `update(id, gradeData)`: the first grade with that `Id` gets the data and re-parsed ids. */
    method Update(id: Value, data: Fields) returns (r: Result<Fields>)
      modifies this
      ensures IndexOfId(old(grades), ParseInt(id)).None? ==>
        r == Err(NotFound(NotFoundMessage)) && grades == old(grades)
      ensures IndexOfId(old(grades), ParseInt(id)).Some? ==>
        var i := IndexOfId(old(grades), ParseInt(id)).value;
        grades == Replaced(old(grades), i, MergedWithIds(old(grades)[i].fields, data))
        && r == Ok(Record(grades[i]))
      ensures old(Valid()) ==> Valid()
    {
      var index := IndexOfId(grades, ParseInt(id));
      if index.None? {
        return Err(NotFound(NotFoundMessage));
      }
      var i := index.value;
      var fields := MergedWithIds(grades[i].fields, data);
      ReplacedKeepsIds(grades, i, fields, None);
      grades := Replaced(grades, i, fields);
      r := Ok(Record(grades[i]));
    }

    /** `delete(id)`: removes the first grade with that `Id`. */
    method Delete(id: Value) returns (r: Result<bool>)
      modifies this
      ensures IndexOfId(old(grades), ParseInt(id)).None? ==>
        r == Err(NotFound(NotFoundMessage)) && grades == old(grades)
      ensures IndexOfId(old(grades), ParseInt(id)).Some? ==>
        grades == Removed(old(grades), IndexOfId(old(grades), ParseInt(id)).value) && r == Ok(true)
      ensures old(Valid()) ==> Valid()
      ensures old(Valid()) ==> Lookup(grades, ParseInt(id), NotFoundMessage).Err?
    {
      var index := IndexOfId(grades, ParseInt(id));
      if index.None? {
        return Err(NotFound(NotFoundMessage));
      }
      RemovedGone(grades, index.value);
      grades := Removed(grades, index.value);
      r := Ok(true);
    }
  }
}
