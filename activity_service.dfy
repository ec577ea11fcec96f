/**
 * The activity log behind the dashboard's recent-activity list
 * (src/services/api/activityService.js).
 */
module Activities {

  import opened Js
  import opened Tables
  import Arrays

  const NotFoundMessage := "Activity not found"

  /** The properties `create` stores: the data, with `timestamp` defaulting to `now`. */
  function NewActivityFields(data: Fields, now: string): (f: Fields)
    ensures "Id" !in f && "timestamp" in f
    ensures Truthy(Get(data, "timestamp")) ==> f["timestamp"] == data["timestamp"]
    ensures !Truthy(Get(data, "timestamp")) ==> f["timestamp"] == Str(now)
    ensures forall k :: k in data && k != "Id" && k != "timestamp" ==> k in f && f[k] == data[k]
  {
    WithoutId(data)["timestamp" := Or(Get(data, "timestamp"), Str(now))]
  }

  /**
   * The instant of an activity: `new Date(a.timestamp)`. Date parsing is not modelled; `instant`
   * gives the millisecond count each timestamp value reads as.
   */
  function When(a: Row, instant: Value -> int): int
  {
    instant(Get(a.fields, "timestamp"))
  }

  /**
   * The comparator `(a, b) => new Date(b.timestamp) - new Date(a.timestamp)` puts a before b
   * exactly when a is later.
   */
  function Later(instant: Value -> int): (Row, Row) -> bool
  {
    (a, b) => When(a, instant) > When(b, instant)
  }

  lemma LaterIsStrictWeakOrder(instant: Value -> int)
    ensures Arrays.IsStrictWeakOrder(Later(instant))
  {
  }

  /** `[...activities].sort(...)`: newest first, ties in store order. */
  function NewestFirst(rows: seq<Row>, instant: Value -> int): seq<Row>
  {
    Arrays.SortBy(rows, Later(instant))
  }

  /** The sorted log holds the same activities, each no older than the ones after it. */
  lemma NewestFirstSpec(rows: seq<Row>, instant: Value -> int)
    ensures multiset(NewestFirst(rows, instant)) == multiset(rows)
    ensures |NewestFirst(rows, instant)| == |rows|
    ensures forall i, j :: 0 <= i < j < |NewestFirst(rows, instant)| ==>
      When(NewestFirst(rows, instant)[i], instant) >= When(NewestFirst(rows, instant)[j], instant)
  {
    Arrays.SortByPermutation(rows, Later(instant));
    LaterIsStrictWeakOrder(instant);
    Arrays.SortBySorted(rows, Later(instant));
    var s := NewestFirst(rows, instant);
    forall i, j | 0 <= i < j < |s| ensures When(s[i], instant) >= When(s[j], instant) {
      assert !Later(instant)(s[j], s[i]);
    }
  }

  /** `getRecent(limit)`: the sorted log cut with `slice(0, limit)`. */
  function Recent(rows: seq<Row>, instant: Value -> int, limit: int): seq<Row>
  {
    Arrays.Slice(NewestFirst(rows, instant), 0, limit)
  }

  /**
   * With a non-negative limit the recent list is the newest min(limit, n) activities: a prefix
   * of the sorted log, no entry of which is older than an activity left out.
   */
  lemma RecentSpec(rows: seq<Row>, instant: Value -> int, limit: int)
    requires 0 <= limit
    ensures |Recent(rows, instant, limit)| == if limit <= |rows| then limit else |rows|
    ensures Recent(rows, instant, limit) <= NewestFirst(rows, instant)
    ensures forall i, j :: 0 <= i < |Recent(rows, instant, limit)| <= j < |rows| ==>
      When(Recent(rows, instant, limit)[i], instant) >= When(NewestFirst(rows, instant)[j], instant)
  {
    NewestFirstSpec(rows, instant);
    Arrays.SlicePrefix(NewestFirst(rows, instant), limit);
  }

  /** A negative limit counts from the end: `slice(0, -k)` drops the k oldest activities. */
  lemma RecentNegativeLimit(rows: seq<Row>, instant: Value -> int, k: nat)
    requires 0 < k <= |rows|
    ensures Recent(rows, instant, -(k as int)) == NewestFirst(rows, instant)[..|rows| - k]
  {
    NewestFirstSpec(rows, instant);
  }

  class ActivityService {
    var activities: seq<Row>

    /** Every activity has its own `Id`. */
    ghost predicate Valid()
      reads this
    {
      UniqueIds(activities)
    }

    constructor(initial: seq<Row>)
      ensures activities == initial
    {
      activities := initial;
    }

    /** `getAll()`: the stored activities, newest first. */
    method GetAll(instant: Value -> int) returns (r: seq<Fields>)
      ensures r == Records(NewestFirst(activities, instant))
      ensures |r| == |activities|
    {
      NewestFirstSpec(activities, instant);
      r := Records(NewestFirst(activities, instant));
    }

    /** `getById(id)`. */
    method GetById(id: Value) returns (r: Result<Fields>)
      ensures r == Lookup(activities, ParseInt(id), NotFoundMessage)
    {
      r := Lookup(activities, ParseInt(id), NotFoundMessage);
    }

    /** `create(activityData)`: appends an activity with the next `Id` and returns a copy of it. */
    method Create(data: Fields, now: string) returns (r: Fields)
      modifies this
      ensures activities == Created(old(activities), NewActivityFields(data, now))
      ensures r == Record(Row(NextId(old(activities)), NewActivityFields(data, now)))
      ensures old(Valid()) ==> Valid()
    {
      var maxId := MaxId(activities);
      var activity := Row(maxId + 1, NewActivityFields(data, now));
      activities := activities + [activity];
      r := Record(activity);
    }

    /** `getRecent(limit = 10)`: the newest `limit` stored activities. */
    method GetRecent(instant: Value -> int, limit: int := 10) returns (r: seq<Fields>)
      ensures r == Records(Recent(activities, instant, limit))
      ensures 0 <= limit ==> |r| == if limit <= |activities| then limit else |activities|
    {
      if 0 <= limit {
        RecentSpec(activities, instant, limit);
      }
      r := Records(Recent(activities, instant, limit));
    }
  }
}
