/** The student store (src/services/api/studentService.js). */
module Students {

  import opened Js
  import opened Tables

  const NotFoundMessage := "Student not found"

  /** The properties `create` stores: the data, with `enrollmentDate` defaulting to `today`. */
  function NewStudentFields(data: Fields, today: string): (f: Fields)
    ensures "Id" !in f && "enrollmentDate" in f
    ensures forall k :: k in data && k != "Id" && k != "enrollmentDate" ==> k in f && f[k] == data[k]
    ensures Truthy(Get(data, "enrollmentDate")) ==> f["enrollmentDate"] == data["enrollmentDate"]
    ensures !Truthy(Get(data, "enrollmentDate")) ==> f["enrollmentDate"] == Str(today)
  {
    WithoutId(data)["enrollmentDate" := Or(Get(data, "enrollmentDate"), Str(today))]
  }

  class StudentService {
    var students: seq<Row>

    /** Every student has its own `Id`. */
    ghost predicate Valid()
      reads this
    {
      UniqueIds(students)
    }

    constructor(initial: seq<Row>)
      ensures students == initial
    {
      students := initial;
    }

    /** `getAll()`: the stored students, in store order. */
    method GetAll() returns (r: seq<Fields>)
      ensures |r| == |students|
      ensures forall i :: 0 <= i < |students| ==> r[i] == Record(students[i])
    {
      r := Records(students);
    }

    /** `getById(id)`. */
    method GetById(id: Value) returns (r: Result<Fields>)
      ensures r == Lookup(students, ParseInt(id), NotFoundMessage)
    {
      r := Lookup(students, ParseInt(id), NotFoundMessage);
    }

    /** `create(studentData)`: appends a student with the next `Id` and returns a copy of it. */
    method Create(data: Fields, today: string) returns (r: Fields)
      modifies this
      ensures students == Created(old(students), NewStudentFields(data, today))
      ensures r == Record(Row(NextId(old(students)), NewStudentFields(data, today)))
      ensures old(Valid()) ==> Valid()
    {
      var maxId := MaxId(students);
      var student := Row(maxId + 1, NewStudentFields(data, today));
      students := students + [student];
      r := Record(student);
    }

    /**
     * `update(id, studentData)`: the first student with that `Id` gets the data spread over its
     * properties. The `Id` written back, `parseInt(id)`, is the one that matched, so it is
     * unchanged.
     */
    method Update(id: Value, data: Fields) returns (r: Result<Fields>)
      modifies this
      ensures IndexOfId(old(students), ParseInt(id)).None? ==>
        r == Err(NotFound(NotFoundMessage)) && students == old(students)
      ensures IndexOfId(old(students), ParseInt(id)).Some? ==>
        var i := IndexOfId(old(students), ParseInt(id)).value;
        students == Replaced(old(students), i, old(students)[i].fields + WithoutId(data))
        && r == Ok(Record(students[i]))
      ensures old(Valid()) ==> Valid()
    {
      var index := IndexOfId(students, ParseInt(id));
      if index.None? {
        return Err(NotFound(NotFoundMessage));
      }
      var i := index.value;
      ReplacedKeepsIds(students, i, students[i].fields + WithoutId(data), None);
      students := Replaced(students, i, students[i].fields + WithoutId(data));
      r := Ok(Record(students[i]));
    }

    /** `delete(id)`: removes the first student with that `Id`. */
    method Delete(id: Value) returns (r: Result<bool>)
      modifies this
      ensures IndexOfId(old(students), ParseInt(id)).None? ==>
        r == Err(NotFound(NotFoundMessage)) && students == old(students)
      ensures IndexOfId(old(students), ParseInt(id)).Some? ==>
        students == Removed(old(students), IndexOfId(old(students), ParseInt(id)).value) && r == Ok(true)
      ensures old(Valid()) ==> Valid()
      ensures old(Valid()) ==> Lookup(students, ParseInt(id), NotFoundMessage).Err?
    {
      var index := IndexOfId(students, ParseInt(id));
      if index.None? {
        return Err(NotFound(NotFoundMessage));
      }
      RemovedGone(students, index.value);
      students := Removed(students, index.value);
      r := Ok(true);
    }
  }
}
