/**
 * What the five services under src/services/api share: an in-memory array of records keyed by a
 * numeric `Id`, looked up with `find`/`findIndex` on `Id === parseInt(id)`, given the next id
 * `Math.max(...ids, 0) + 1` on creation, merged with spread on update and spliced out on delete.
 * A thrown `Error` is an `Err` result.
 */
module Tables {

  import opened Js
  import Arrays

  /** A stored record: its `Id` and its other properties. */
  datatype Row = Row(id: int, fields: Fields)

  /**
   * The record as a service hands it out: its properties and its `Id`. Records are values here,
   * so the stored object and a shallow copy of it are the same thing.
   */
  function Record(r: Row): (m: Fields)
    ensures "Id" in m && m["Id"] == Num(r.id as real)
    ensures m.Keys == r.fields.Keys + {"Id"}
    ensures forall k :: k in r.fields && k != "Id" ==> m[k] == r.fields[k]
  {
    r.fields["Id" := Num(r.id as real)]
  }

  /** `[...rows]`: the stored records, in store order. */
  function Records(rows: seq<Row>): (r: seq<Fields>)
    ensures |r| == |rows|
    ensures forall i :: 0 <= i < |rows| ==> r[i] == Record(rows[i])
  {
    seq(|rows|, i requires 0 <= i < |rows| => Record(rows[i]))
  }

  /** Incoming data without its `Id`: every service writes its own `Id` after the spread. */
  function WithoutId(data: Fields): Fields
  {
    data - {"Id"}
  }

  /** What a service call throws. */
  datatype Failure = NotFound(message: string) | TypeError

  datatype Result<T> = Ok(value: T) | Err(failure: Failure)

  /** `Math.max(...rows.map(r => r.Id), 0)`. */
  function MaxId(rows: seq<Row>): (m: int)
    ensures 0 <= m
    ensures forall i :: 0 <= i < |rows| ==> rows[i].id <= m
    ensures m == 0 || exists i :: 0 <= i < |rows| && rows[i].id == m
  {
    if rows == [] then 0
    else
      var m := MaxId(rows[1..]);
      assert forall i :: 1 <= i < |rows| ==> rows[i] == rows[1..][i - 1];
      if rows[0].id > m then rows[0].id else m
  }

  /** The `Id` the next created record gets. */
  function NextId(rows: seq<Row>): (n: int)
    ensures 0 < n
    ensures forall i :: 0 <= i < |rows| ==> rows[i].id < n
  {
    MaxId(rows) + 1
  }

  /** No two records share an `Id`. */
  ghost predicate UniqueIds(rows: seq<Row>)
  {
    forall i, j :: 0 <= i < j < |rows| ==> rows[i].id != rows[j].id
  }

  /** The index of the first record with `Id` `id`. */
  function FindId(rows: seq<Row>, id: int): (r: Option<nat>)
    ensures r.Some? ==> r.value < |rows| && rows[r.value].id == id
    ensures r.Some? ==> forall j :: 0 <= j < r.value ==> rows[j].id != id
    ensures r.None? ==> forall j :: 0 <= j < |rows| ==> rows[j].id != id
  {
    if rows == [] then None
    else if rows[0].id == id then Some(0)
    else
      var r := FindId(rows[1..], id);
      if r.None? then None else Some(r.value + 1)
  }

  /**
   * `rows.findIndex(r => r.Id === parseInt(id))`, given `parseInt(id)`: a NaN key (`None`)
   * matches nothing.
   */
  function IndexOfId(rows: seq<Row>, key: Option<int>): Option<nat>
  {
    if key.None? then None else FindId(rows, key.value)
  }

  /** `find` by `Id`, then a shallow copy of the found record, or the service's "not found" error. */
  function Lookup(rows: seq<Row>, key: Option<int>, notFound: string): (r: Result<Fields>)
    ensures r.Ok? <==> key.Some? && exists i :: 0 <= i < |rows| && rows[i].id == key.value
    ensures r.Ok? ==> "Id" in r.value && r.value["Id"] == Num(key.value as real)
    ensures r.Ok? ==> IndexOfId(rows, key).Some? && r.value == Record(rows[IndexOfId(rows, key).value])
    ensures r.Err? ==> r.failure == NotFound(notFound)
  {
    match IndexOfId(rows, key)
    case None => Err(NotFound(notFound))
    case Some(i) => Ok(Record(rows[i]))
  }

  /** The array after `push` of a new record with the next `Id`. */
  function Created(rows: seq<Row>, fields: Fields): seq<Row>
  {
    rows + [Row(NextId(rows), fields)]
  }

  /** The array after `rows[i] = {...}`: the record keeps its `Id` and gets `fields`. */
  function Replaced(rows: seq<Row>, i: nat, fields: Fields): seq<Row>
    requires i < |rows|
  {
    rows[i := Row(rows[i].id, fields)]
  }

  /** The array after `splice(i, 1)`. */
  function Removed(rows: seq<Row>, i: nat): seq<Row>
    requires i < |rows|
  {
    rows[..i] + rows[i + 1..]
  }

  /** A created record gets an `Id` no other record has, so the ids stay unique. */
  lemma CreatedUnique(rows: seq<Row>, fields: Fields)
    requires UniqueIds(rows)
    ensures UniqueIds(Created(rows, fields))
    ensures FindId(rows, NextId(rows)).None?
  {
  }

  /** A created record can be found again by its new `Id`, at the end of the array. */
  lemma {:induction false} CreatedFound(rows: seq<Row>, fields: Fields)
    ensures FindId(Created(rows, fields), NextId(rows)) == Some(|rows|)
    ensures Lookup(Created(rows, fields), Some(NextId(rows)), "").value == Record(Row(NextId(rows), fields))
  {
    FindAppended(rows, Row(NextId(rows), fields));
  }

  lemma {:induction false} FindAppended(rows: seq<Row>, r: Row)
    requires forall j :: 0 <= j < |rows| ==> rows[j].id != r.id
    ensures FindId(rows + [r], r.id) == Some(|rows|)
  {
    if rows != [] {
      assert (rows + [r])[1..] == rows[1..] + [r];
      FindAppended(rows[1..], r);
    }
  }

  /** Replacing a record keeps every `Id`, so the ids stay unique and lookups find the same index. */
  lemma ReplacedKeepsIds(rows: seq<Row>, i: nat, fields: Fields, key: Option<int>)
    requires i < |rows|
    ensures forall j :: 0 <= j < |rows| ==> Replaced(rows, i, fields)[j].id == rows[j].id
    ensures UniqueIds(rows) ==> UniqueIds(Replaced(rows, i, fields))
    ensures IndexOfId(Replaced(rows, i, fields), key) == IndexOfId(rows, key)
  {
    if key.Some? {
      FindSameIds(rows, Replaced(rows, i, fields), key.value);
    }
  }

  lemma {:induction false} FindSameIds(xs: seq<Row>, ys: seq<Row>, id: int)
    requires |xs| == |ys|
    requires forall j :: 0 <= j < |xs| ==> xs[j].id == ys[j].id
    ensures FindId(xs, id) == FindId(ys, id)
  {
    if xs != [] {
      FindSameIds(xs[1..], ys[1..], id);
    }
  }

  /** After an update, looking the record up returns the new properties under the same `Id`. */
  lemma UpdateThenLookup(rows: seq<Row>, key: Option<int>, fields: Fields, notFound: string)
    requires IndexOfId(rows, key).Some?
    ensures Lookup(Replaced(rows, IndexOfId(rows, key).value, fields), key, notFound)
      == Ok(Record(Row(key.value, fields)))
  {
    ReplacedKeepsIds(rows, IndexOfId(rows, key).value, fields, key);
  }

  /**
   * Removing a record keeps the others in order; with unique ids its `Id` is then gone, so a
   * second delete or a lookup of it fails.
   */
  lemma RemovedGone(rows: seq<Row>, i: nat)
    requires i < |rows|
    ensures |Removed(rows, i)| == |rows| - 1
    ensures forall j :: 0 <= j < i ==> Removed(rows, i)[j] == rows[j]
    ensures forall j :: i < j < |rows| ==> Removed(rows, i)[j - 1] == rows[j]
    ensures UniqueIds(rows) ==> UniqueIds(Removed(rows, i))
    ensures UniqueIds(rows) ==> FindId(Removed(rows, i), rows[i].id).None?
  {
  }

  /** `parseInt(data[key])` as a stored value: an integer, or NaN. */
  function ParsedId(data: Fields, key: string): Value
  {
    IntValue(ParseInt(Get(data, key)))
  }

  /** The value is what `parseInt` can return: an integral number or NaN. */
  predicate IsIntOrNaN(v: Value)
  {
    v == NaN || (v.Num? && v.n == v.n.Floor as real)
  }

  /**
   * The id stored under `key` is `parseInt(data[key])`: the integer read from the data's value,
   * or NaN when nothing can be read (an absent key included).
   */
  predicate IdParsedFrom(f: Fields, data: Fields, key: string)
  {
    key in f
    && (ParseInt(Get(data, key)).Some? ==> f[key] == Num(ParseInt(Get(data, key)).value as real))
    && (ParseInt(Get(data, key)).None? ==> f[key] == NaN)
  }

  /** Both ids of a grade or attendance record are what `parseInt` returns. */
  predicate NumericIds(f: Fields)
  {
    "studentId" in f && "courseId" in f && IsIntOrNaN(f["studentId"]) && IsIntOrNaN(f["courseId"])
  }

  /** `{...fields, studentId: parseInt(data.studentId), courseId: parseInt(data.courseId)}`. */
  function ReparsedIds(fields: Fields, data: Fields): Fields
  {
    fields["studentId" := ParsedId(data, "studentId")]["courseId" := ParsedId(data, "courseId")]
  }

  /** The update of the grade and attendance stores: the data spread over the record, ids re-parsed. */
  function MergedWithIds(current: Fields, data: Fields): Fields
  {
    ReparsedIds(current + WithoutId(data), data)
  }

  /**
   * Whatever the data holds, an updated grade or attendance record carries as ids the values
   * `parseInt` gives for the data's ids, integers or NaN; its other properties come from the
   * data where the data has them and from the stored record elsewhere.
   */
  lemma MergedWithIdsShape(current: Fields, data: Fields)
    ensures NumericIds(MergedWithIds(current, data))
    ensures IdParsedFrom(MergedWithIds(current, data), data, "studentId")
    ensures IdParsedFrom(MergedWithIds(current, data), data, "courseId")
    ensures forall k :: k in data && k !in {"Id", "studentId", "courseId"} ==>
      k in MergedWithIds(current, data) && MergedWithIds(current, data)[k] == data[k]
    ensures forall k :: k in current && k !in data && k !in {"studentId", "courseId"} ==>
      k in MergedWithIds(current, data) && MergedWithIds(current, data)[k] == current[k]
  {
  }

  /**
   * An update whose data has no `studentId` stores NaN as the student id: the ids are re-parsed
   * from the data alone, not from the stored record.
   */
  lemma PartialUpdateLosesStudentId(current: Fields, data: Fields)
    requires "studentId" !in data
    ensures MergedWithIds(current, data)["studentId"] == NaN
  {
  }

  /** `r => r[key] === v` over the record as handed out. */
  function FieldIs(key: string, v: Value): Row -> bool
  {
    r => StrictEquals(Get(Record(r), key), v)
  }

  /** `rows.filter(r => r[key] === v)`: the stored records that match, in store order. */
  function RowsWhere(rows: seq<Row>, key: string, v: Value): (r: seq<Fields>)
    ensures |r| <= |rows|
  {
    Records(Arrays.Filter(rows, FieldIs(key, v)))
  }

  /**
   * A filter on a property keeps exactly the records whose property is strictly equal to the
   * value; one on NaN keeps none.
   */
  lemma RowsWhereIff(rows: seq<Row>, key: string, v: Value)
    ensures forall i :: 0 <= i < |rows| && StrictEquals(Get(Record(rows[i]), key), v) ==>
      Record(rows[i]) in RowsWhere(rows, key, v)
    ensures forall m :: m in RowsWhere(rows, key, v) ==> StrictEquals(Get(m, key), v)
    ensures v == NaN ==> RowsWhere(rows, key, v) == []
  {
    var kept := Arrays.Filter(rows, FieldIs(key, v));
    forall i | 0 <= i < |rows| && StrictEquals(Get(Record(rows[i]), key), v)
      ensures Record(rows[i]) in RowsWhere(rows, key, v)
    {
      assert FieldIs(key, v)(rows[i]);
      var k :| 0 <= k < |kept| && kept[k] == rows[i];
      assert RowsWhere(rows, key, v)[k] == Record(rows[i]);
    }
    forall m | m in RowsWhere(rows, key, v) ensures StrictEquals(Get(m, key), v) {
      var k :| 0 <= k < |kept| && Record(kept[k]) == m;
      assert FieldIs(key, v)(kept[k]);
    }
    if v == NaN {
      Arrays.FilterNone(rows, FieldIs(key, v));
    }
  }
}
