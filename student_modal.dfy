/**
 * The student modal's form data: the defaults it opens with, `handleChange` with its dotted
 * field names, and adding, editing and removing communication-history entries
 * (src/components/organisms/StudentModal.jsx).
 */
module StudentModal {

  import opened Js

  // ---------------------------------------------------------------------------
  // Opening the modal

  /** The text fields, which open as "" when the student has no truthy value for them. */
  const TextKeys: seq<string> := ["firstName", "lastName", "email", "phone", "dateOfBirth", "gradeLevel", "studentId"]

  /** The fields with a fallback of their own. */
  const StructuredKeys: seq<string> := ["enrollmentStatus", "address", "emergencyContact", "parentGuardian", "communicationHistory"]

  /** Every field of the form data. */
  const FormKeys: seq<string> := TextKeys + StructuredKeys

  const EmptyAddress := Obj(map["street" := Str(""), "city" := Str(""), "state" := Str(""), "zipCode" := Str("")])

  const EmptyEmergencyContact := Obj(map["name" := Str(""), "relationship" := Str(""), "phone" := Str("")])

  const EmptyParentGuardian := Obj(map[
    "name" := Str(""), "relationship" := Str(""), "primaryPhone" := Str(""), "secondaryPhone" := Str(""),
    "primaryEmail" := Str(""), "secondaryEmail" := Str(""), "address" := EmptyAddress])

  /** The value a field opens with when the student has no truthy value for it. */
  function Default(key: string): Value
  {
    if key == "enrollmentStatus" then Str("Active")
    else if key == "address" then EmptyAddress
    else if key == "emergencyContact" then EmptyEmergencyContact
    else if key == "parentGuardian" then EmptyParentGuardian
    else if key == "communicationHistory" then List([])
    else Str("")
  }

  /** Status "Active", an empty history, and "" for every text field. */
  lemma DefaultValues()
    ensures Default("enrollmentStatus") == Str("Active") && Default("communicationHistory") == List([])
    ensures forall k :: k in TextKeys ==> Default(k) == Str("")
  {
    TextKeysFirst();
    TextKeysSecond();
  }

  lemma TextKeysFirst()
    ensures forall i :: 0 <= i < 4 ==> Default(TextKeys[i]) == Str("")
  {
  }

  lemma TextKeysSecond()
    ensures forall i :: 4 <= i < 7 ==> Default(TextKeys[i]) == Str("")
  {
  }

  /** The form data set when the modal opens on an existing student: `student.key || default`, key by key. */
  function Filled(student: Fields): (r: Fields)
    ensures forall k :: k in r <==> k in FormKeys
    ensures forall k :: k in FormKeys && Truthy(Get(student, k)) ==> r[k] == student[k]
    ensures forall k :: k in FormKeys && !Truthy(Get(student, k)) ==> r[k] == Default(k)
  {
    map k | k in FormKeys :: Or(Get(student, k), Default(k))
  }

  /** The form data before the modal is first opened: every field at its default. */
  const InitialForm: Fields := map k | k in FormKeys :: Default(k)

  /** The two fields a new student's form fills in are fields of the form. */
  lemma NewStudentKeys()
    ensures "gradeLevel" in FormKeys && "studentId" in FormKeys
  {
    assert FormKeys[5] == "gradeLevel" && FormKeys[6] == "studentId";
  }

  /** The form data for a new student; `now` stands for `Date.now()`. */
  function CreateForm(now: nat): (r: Fields)
    ensures forall k :: k in r <==> k in FormKeys
    ensures "gradeLevel" in r && "studentId" in r
    ensures r["gradeLevel"] == Str("9") && r["studentId"] == Str("STU" + NatToString(now))
  {
    NewStudentKeys();
    InitialForm["gradeLevel" := Str("9")]["studentId" := Str("STU" + NatToString(now))]
  }

  /** Every other field of a new student's form is at its default. */
  lemma CreateFormDefaults(now: nat)
    ensures forall k :: k in FormKeys && k != "gradeLevel" && k != "studentId" ==> CreateForm(now)[k] == Default(k)
  {
  }

  /**
   * The effect run when `student`, `isOpen` or `mode` change: an open modal with a student
   * shows that student, an open modal in "create" mode a new one; otherwise the form is kept.
   */
  function Open(prev: Fields, student: Option<Fields>, isOpen: bool, mode: string, now: nat): (r: Fields)
    ensures !isOpen ==> r == prev
    ensures isOpen && student.Some? ==> r == Filled(student.value)
    ensures isOpen && student.None? && mode == "create" ==> r == CreateForm(now)
    ensures isOpen && student.None? && mode != "create" ==> r == prev
  {
    if student.Some? && isOpen then Filled(student.value)
    else if mode == "create" && isOpen then CreateForm(now)
    else prev
  }

  /** The form before the first opening is what opening on a student with no fields shows. */
  lemma InitialIsBlankStudent()
    ensures InitialForm == Filled(map[])
  {
  }

  /** Reopening the modal on the data it was showing changes nothing. */
  lemma FilledIdempotent(student: Fields)
    ensures Filled(Filled(student)) == Filled(student)
  {
  }

  /** A new student's form is shown unchanged when reopened as an existing student. */
  lemma CreateFormIsFilled(now: nat)
    ensures Filled(CreateForm(now)) == CreateForm(now)
  {
  }

  // ---------------------------------------------------------------------------
  // handleChange

  /**
   * `handleChange(field, value)` as written: a dotted name sets the second segment inside the
   * object named by the first; any further segments are ignored.
   */
  function HandleChangeAsWritten(form: Fields, field: string, value: Value): (r: Fields)
    ensures '.' !in field ==> field in r && r[field] == value
    ensures forall k :: k in form && k != Split(field, '.')[0] ==> k in r && r[k] == form[k]
  {
    if '.' in field then
      var parts := Split(field, '.');
      assert |parts| >= 2;
      var parent, child := parts[0], parts[1];
      form[parent := Obj(Spread(Get(form, parent))[child := value])]
    else
      form[field := value]
  }

  /** A name without a dot: a field name that `handleChange` treats as one top-level key. */
  predicate NoDot(s: string)
  {
    forall i :: 0 <= i < |s| ==> s[i] != '.'
  }

  /** A name without a dot is a top-level key, in both readings of `handleChange`. */
  lemma TopLevelChange(form: Fields, field: string, value: Value)
    requires NoDot(field)
    ensures HandleChangeAsWritten(form, field, value) == form[field := value]
    ensures HandleChange(form, field, value) == form[field := value]
  {
    assert Split(field, '.') == [field];
  }

  /** `path.join(".")` for segments without dots splits back into the same segments. */
  lemma PathSplits(path: seq<string>)
    requires path != []
    requires forall i :: 0 <= i < |path| ==> NoDot(path[i])
    ensures Split(Join(path, "."), '.') == path
    ensures |path| >= 2 ==> '.' in Join(path, ".")
  {
    SplitJoin(path, '.');
    if |path| >= 2 {
      assert Join(path, ".") == path[0] + "." + Join(path[1..], ".");
      assert Join(path, ".")[|path[0]|] == '.';
    }
  }

  /** "a.b" sets key `b` of the object under `a`, keeping its other keys and every other top-level key. */
  lemma TwoSegmentChange(form: Fields, a: string, b: string, value: Value)
    requires NoDot(a) && NoDot(b)
    ensures var r := HandleChangeAsWritten(form, a + "." + b, value);
      a in r && r[a].Obj? && b in r[a].fields && r[a].fields[b] == value
      && (forall k :: k in Spread(Get(form, a)) && k != b ==> k in r[a].fields && r[a].fields[k] == Spread(Get(form, a))[k])
      && (forall k :: k in form && k != a ==> k in r && r[k] == form[k])
  {
    assert Join([a, b], ".") == a + "." + b;
    PathSplits([a, b]);
  }

  /**
   * "a.b.c" loses its last segment: the key `b` of `a` is replaced by the value itself, so the
   * object that stood there is gone, and with it every key it held.
   */
  lemma ThreeSegmentClobbers(form: Fields, a: string, b: string, c: string, value: Value)
    requires NoDot(a) && NoDot(b) && NoDot(c)
    ensures var r := HandleChangeAsWritten(form, a + "." + b + "." + c, value);
      GetPath(r, [a, b]) == Some(value)
      && (!value.Obj? ==> forall d :: GetPath(r, [a, b, d]).None?)
  {
    ThreeSegmentsSplit(a, b, c);
    var inner := Spread(Get(form, a))[b := value];
    assert HandleChangeAsWritten(form, a + "." + b + "." + c, value) == form[a := Obj(inner)];
    NestedPaths(form, a, b, inner);
  }

  lemma ThreeSegmentsSplit(a: string, b: string, c: string)
    requires NoDot(a) && NoDot(b) && NoDot(c)
    ensures '.' in a + "." + b + "." + c
    ensures Split(a + "." + b + "." + c, '.') == [a, b, c]
  {
    JoinThree(a, b, c);
    var path := [a, b, c];
    assert forall i :: 0 <= i < |path| ==> NoDot(path[i]);
    PathSplits(path);
  }

  lemma JoinThree(a: string, b: string, c: string)
    ensures Join([a, b, c], ".") == a + "." + b + "." + c
  {
    assert [a, b, c][1..] == [b, c] && [b, c][1..] == [c];
    assert Join([b, c], ".") == b + "." + c;
    assert a + "." + (b + "." + c) == a + "." + b + "." + c;
  }

  /** Reading through an object just written under `a`. */
  lemma NestedPaths(form: Fields, a: string, b: string, inner: Fields)
    requires b in inner
    ensures GetPath(form[a := Obj(inner)], [a, b]) == Some(inner[b])
    ensures !inner[b].Obj? ==> forall d :: GetPath(form[a := Obj(inner)], [a, b, d]).None?
  {
    assert [a, b][1..] == [b];
    forall d ensures !inner[b].Obj? ==> GetPath(form[a := Obj(inner)], [a, b, d]).None? {
      assert [a, b, d][1..] == [b, d] && [b, d][1..] == [d];
    }
  }

  /** The parent or guardian's street address field, the first of four named with three segments. */
  const GuardianStreet: seq<string> := ["parentGuardian", "address", "street"]

  const GuardianCity: seq<string> := ["parentGuardian", "address", "city"]

  lemma GuardianPathPlain()
    ensures NoDot(GuardianStreet[0]) && NoDot(GuardianStreet[1]) && NoDot(GuardianStreet[2])
    ensures GuardianCity == GuardianStreet[..2] + ["city"]
  {
  }

  /**
   * The parent's street field: after typing a street, the parent's address is that string, and
   * its city is no longer there to read.
   */
  lemma GuardianStreetClobbersAddress(form: Fields, street: string)
    ensures var r := HandleChangeAsWritten(form, Join(GuardianStreet, "."), Str(street));
      GetPath(r, GuardianStreet[..2]) == Some(Str(street)) && GetPath(r, GuardianCity).None?
  {
    var a, b, c := GuardianStreet[0], GuardianStreet[1], GuardianStreet[2];
    GuardianPathPlain();
    assert GuardianStreet == [a, b, c] && GuardianStreet[..2] == [a, b] && GuardianCity == [a, b, "city"];
    assert [a, b, c][1..] == [b, c] && [b, c][1..] == [c];
    assert Join(GuardianStreet, ".") == a + "." + b + "." + c;
    ThreeSegmentClobbers(form, a, b, c, Str(street));
  }

  /** The value at a path of nested objects, if every step is an object holding the next key. */
  function GetPath(form: Fields, path: seq<string>): Option<Value>
    decreases |path|
  {
    if path == [] || path[0] !in form then None
    else if |path| == 1 then Some(form[path[0]])
    else if form[path[0]].Obj? then GetPath(form[path[0]].fields, path[1..])
    else None
  }

  /** Sets the value at a path, spreading each object on the way as the update does for one level. */
  function SetPath(form: Fields, path: seq<string>, value: Value): Fields
    requires path != []
    decreases |path|
  {
    if |path| == 1 then form[path[0] := value]
    else form[path[0] := Obj(SetPath(Spread(Get(form, path[0])), path[1..], value))]
  }

  /** `handleChange` following every segment of the dotted name. */
  function HandleChange(form: Fields, field: string, value: Value): (r: Fields)
    ensures '.' !in field ==> field in r && r[field] == value
  {
    SetPath(form, Split(field, '.'), value)
  }

  /** After setting a path, reading it gives the value set. */
  lemma {:induction false} SetPathReadsBack(form: Fields, path: seq<string>, value: Value)
    requires path != []
    ensures GetPath(SetPath(form, path, value), path) == Some(value)
    decreases |path|
  {
    if |path| > 1 {
      SetPathReadsBack(Spread(Get(form, path[0])), path[1..], value);
    }
  }

  /** Setting a path leaves every path that branches off it where it was. */
  lemma {:induction false} SetPathKeepsOthers(form: Fields, path: seq<string>, value: Value, other: seq<string>, i: nat)
    requires path != [] && i < |path| && i < |other|
    requires path[..i] == other[..i] && path[i] != other[i]
    ensures GetPath(SetPath(form, path, value), other) == GetPath(form, other)
    decreases i
  {
    if i > 0 {
      assert path[0] == other[0] by { assert path[..i][0] == other[..i][0]; }
      assert path[1..][..i - 1] == other[1..][..i - 1] by {
        assert path[1..][..i - 1] == path[..i][1..];
        assert other[1..][..i - 1] == other[..i][1..];
      }
      SetPathKeepsOthers(Spread(Get(form, path[0])), path[1..], value, other[1..], i - 1);
    }
  }

  /**
   * The parent's street field, with every segment followed: the street reads back and the
   * city, which the address held before, is kept.
   */
  lemma GuardianStreetKeepsCity(form: Fields, street: string)
    ensures var r := HandleChange(form, Join(GuardianStreet, "."), Str(street));
      GetPath(r, GuardianStreet) == Some(Str(street)) && GetPath(r, GuardianCity) == GetPath(form, GuardianCity)
  {
    GuardianPathPlain();
    PathSplits(GuardianStreet);
    SetPathReadsBack(form, GuardianStreet, Str(street));
    SetPathKeepsOthers(form, GuardianStreet, Str(street), GuardianCity, 2);
  }

  /** On names of one or two segments, which are all the other fields use, both readings agree. */
  lemma ChangeAgreesOnShortNames(form: Fields, field: string, value: Value)
    requires |Split(field, '.')| <= 2
    ensures HandleChange(form, field, value) == HandleChangeAsWritten(form, field, value)
  {
    var parts := Split(field, '.');
    if '.' in field {
      assert |parts| == 2;
      assert parts[1..] == [parts[1]];
      var inner := Spread(Get(form, parts[0]));
      assert SetPath(inner, parts[1..], value) == inner[parts[1] := value];
    } else {
      assert parts == [field];
    }
  }

  // ---------------------------------------------------------------------------
  // Communication history

  /** The field holding the communication entries. */
  const HistoryKey := "communicationHistory"

  lemma HistoryKeyPlain()
    ensures NoDot(HistoryKey)
  {
  }

  /** The form's communication entries, an array when the stored value was an array or absent on opening. */
  predicate HasHistory(form: Fields)
  {
    HistoryKey in form && form[HistoryKey].List?
  }

  function History(form: Fields): seq<Value>
    requires HasHistory(form)
  {
    form[HistoryKey].items
  }

  /** `handleChange("communicationHistory", entries)`: the new entries replace the old, nothing else changes. */
  function SetHistory(form: Fields, entries: seq<Value>): (r: Fields)
    ensures r == form[HistoryKey := List(entries)]
  {
    HistoryKeyPlain();
    TopLevelChange(form, HistoryKey, List(entries));
    HandleChange(form, HistoryKey, List(entries))
  }

  /** The entry "Add Communication" appends; `now` and `today` stand for the clock. */
  function NewEntry(now: int, today: string): Value
  {
    Obj(map["id" := Num(now as real), "date" := Str(today), "type" := Str("Phone Call"),
            "notes" := Str(""), "staffMember" := Str("Current User")])
  }

  /** "Add Communication": the history with one new entry at the end. */
  function AddCommunication(form: Fields, now: int, today: string): (r: Fields)
    requires HasHistory(form)
    ensures HasHistory(r) && History(r) == History(form) + [NewEntry(now, today)]
    ensures forall k :: k in form && k != HistoryKey ==> k in r && r[k] == form[k]
  {
    SetHistory(form, History(form) + [NewEntry(now, today)])
  }

  /** The new entry is a phone call with no notes, recorded by the current user, dated today. */
  lemma NewEntryFields(now: int, today: string)
    ensures var e := NewEntry(now, today).fields;
      e["type"] == Str("Phone Call") && e["notes"] == Str("") && e["staffMember"] == Str("Current User")
      && e["date"] == Str(today) && e["id"] == Num(now as real)
  {
  }

  /** `{ ...entry, [key]: value }`: the entry with one field set and its other fields kept. */
  function EditedEntry(entry: Value, key: string, value: Value): (e: Value)
    ensures e.Obj? && key in e.fields && e.fields[key] == value
    ensures forall k :: k in Spread(entry) && k != key ==> k in e.fields && e.fields[k] == Spread(entry)[k]
  {
    Obj(Spread(entry)[key := value])
  }

  /** An edit of one field of the entry at `index` (date, type, staff member or notes). */
  function EditCommunication(form: Fields, index: nat, key: string, value: Value): (r: Fields)
    requires HasHistory(form) && index < |History(form)|
    ensures HasHistory(r) && |History(r)| == |History(form)|
    ensures forall i :: 0 <= i < |History(form)| && i != index ==> History(r)[i] == History(form)[i]
    ensures History(r)[index] == EditedEntry(History(form)[index], key, value)
    ensures forall k :: k in form && k != HistoryKey ==> k in r && r[k] == form[k]
  {
    var updated := History(form)[index := EditedEntry(History(form)[index], key, value)];
    SetHistory(form, updated)
  }

  /** `filter((_, i) => i !== index)`: every element whose position is not `index`, in order. */
  function WithoutIndex<T>(xs: seq<T>, index: int): (r: seq<T>)
    ensures |r| <= |xs|
  {
    if xs == [] then []
    else (if index == 0 then [] else [xs[0]]) + WithoutIndex(xs[1..], index - 1)
  }

  /** Filtering out a position in range drops exactly that element; any other position drops nothing. */
  lemma {:induction false} WithoutIndexSpec<T>(xs: seq<T>, index: int)
    ensures 0 <= index < |xs| ==> WithoutIndex(xs, index) == xs[..index] + xs[index + 1..]
    ensures !(0 <= index < |xs|) ==> WithoutIndex(xs, index) == xs
  {
    if xs != [] {
      WithoutIndexSpec(xs[1..], index - 1);
      if 0 < index < |xs| {
        assert xs[1..][..index - 1] == xs[1..index];
        assert [xs[0]] + xs[1..index] == xs[..index];
      }
    }
  }

  /** "Remove": the history without the entry at `index`. */
  function RemoveCommunication(form: Fields, index: nat): (r: Fields)
    requires HasHistory(form) && index < |History(form)|
    ensures HasHistory(r) && History(r) == History(form)[..index] + History(form)[index + 1..]
    ensures forall k :: k in form && k != HistoryKey ==> k in r && r[k] == form[k]
  {
    WithoutIndexSpec(History(form), index);
    SetHistory(form, WithoutIndex(History(form), index))
  }

  /** Adding an entry and removing it again leaves the history as it was. */
  lemma AddThenRemove(form: Fields, now: int, today: string)
    requires HasHistory(form)
    ensures var added := AddCommunication(form, now, today);
      History(RemoveCommunication(added, |History(form)|)) == History(form)
  {
    var h := History(form);
    assert (h + [NewEntry(now, today)])[..|h|] == h;
  }

  // ---------------------------------------------------------------------------
  // The form as the component holds it

  /** The modal's `formData` state and the handlers that replace it. */
  class StudentForm {
    var formData: Fields

    constructor ()
      ensures formData == InitialForm
    {
      formData := InitialForm;
    }

    method Reopen(student: Option<Fields>, isOpen: bool, mode: string, now: nat)
      modifies this
      ensures formData == Open(old(formData), student, isOpen, mode, now)
    {
      formData := Open(formData, student, isOpen, mode, now);
    }

    method Change(field: string, value: Value)
      modifies this
      ensures formData == HandleChange(old(formData), field, value)
    {
      formData := HandleChange(formData, field, value);
    }

    method AddEntry(now: int, today: string)
      requires HasHistory(formData)
      modifies this
      ensures HasHistory(formData) && History(formData) == History(old(formData)) + [NewEntry(now, today)]
      ensures formData == AddCommunication(old(formData), now, today)
    {
      formData := AddCommunication(formData, now, today);
    }

    method EditEntry(index: nat, key: string, value: Value)
      requires HasHistory(formData) && index < |History(formData)|
      modifies this
      ensures formData == EditCommunication(old(formData), index, key, value)
    {
      formData := EditCommunication(formData, index, key, value);
    }

    method RemoveEntry(index: nat)
      requires HasHistory(formData) && index < |History(formData)|
      modifies this
      ensures HasHistory(formData) && History(formData) == History(old(formData))[..index] + History(old(formData))[index + 1..]
      ensures formData == RemoveCommunication(old(formData), index)
    {
      formData := RemoveCommunication(formData, index);
    }
  }
}
