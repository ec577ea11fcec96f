/**
 * Validation and normalisation of parsed CSV rows before a bulk import (src/utils/csvUtils.js).
 * A parsed row maps each header to the text of its cell; a header absent from the map reads as
 * `undefined`.
 */
module CsvUtils {

  import opened Js

  type RawRow = map<string, string>

  /**
   * A validation message. `Text` gives the words the import dialog shows; keeping the messages
   * as values lets the proofs reason about which checks fired rather than about text.
   */
  datatype Message =
    | MissingField(field: string)
    | InvalidEmail
    | InvalidDate
    | NotPositiveInt(field: string)
    | NegativePoints
    | NonPositiveMaxPoints
    | PointsExceedMax

  function Text(m: Message): string
  {
    match m
    case MissingField(field) => "Missing required field: " + field
    case InvalidEmail => "Invalid email format"
    case InvalidDate => "Invalid date format for dateOfBirth"
    case NotPositiveInt(field) => field + " must be a positive integer"
    case NegativePoints => "points must be a non-negative number"
    case NonPositiveMaxPoints => "maxPoints must be a positive number"
    case PointsExceedMax => "points cannot exceed maxPoints"
  }

  /** One entry of a validation report: the 1-based row number, its messages and the row itself. */
  datatype RowError = RowError(row: nat, errors: seq<Message>, data: RawRow)

  const StudentRequired: seq<string> := ["firstName", "lastName", "email", "dateOfBirth"]
  const GradeRequired: seq<string> := ["studentId", "courseId", "assignmentName", "points", "maxPoints"]

  /** `row[field]` is truthy: present and not the empty string. */
  predicate Present(row: RawRow, field: string)
  {
    field in row && row[field] != ""
  }

  /** `!row[field] || row[field].toString().trim() === ''`. */
  predicate IsMissing(row: RawRow, field: string)
  {
    field !in row || Trim(row[field]) == ""
  }

  /** The missing-field messages for `fields`, in the order the fields are listed. */
  function MissingMessages(row: RawRow, fields: seq<string>): (r: seq<Message>)
    ensures |r| <= |fields|
    ensures r == [] <==> forall i :: 0 <= i < |fields| ==> !IsMissing(row, fields[i])
    ensures forall i :: 0 <= i < |fields| && IsMissing(row, fields[i]) ==> MissingField(fields[i]) in r
    ensures forall m :: m in r ==> m.MissingField? && m.field in fields && IsMissing(row, m.field)
  {
    if fields == [] then []
    else
      var init := fields[..|fields| - 1];
      var last := fields[|fields| - 1];
      var rest := MissingMessages(row, init);
      assert forall i :: 0 <= i < |init| ==> init[i] == fields[i];
      if IsMissing(row, last) then rest + [MissingField(last)] else rest
  }

  // ---------------------------------------------------------------------------
  // The e-mail pattern /^[^\s@]+@[^\s@]+\.[^\s@]+$/

  /** A character of the class `[^\s@]`. */
  predicate EmailChar(c: char)
  {
    !IsSpace(c) && c != '@'
  }

  predicate AllEmailChars(s: string)
  {
    forall i :: 0 <= i < |s| ==> EmailChar(s[i])
  }

  /**
   * The pattern matches exactly when the text is a non-empty local part, one `@`, and a domain
   * with a dot that is neither its first nor its last character; no part holds white space or
   * another `@`.
   */
  predicate IsEmail(s: string)
  {
    exists a, d | 0 < a < |s| && 0 < d < |s| ::
      a + 1 < d && d + 1 < |s| && s[a] == '@' && s[d] == '.'
      && AllEmailChars(s[..a]) && AllEmailChars(s[a + 1..])
  }

  /** A matching address holds exactly one `@`. */
  lemma EmailHasOneAt(s: string, i: int, j: int)
    requires IsEmail(s)
    requires 0 <= i < j < |s| && s[i] == '@'
    ensures s[j] != '@'
  {
    var a, d :| 0 < a < |s| && 0 < d < |s| && a + 1 < d && d + 1 < |s| && s[a] == '@' && s[d] == '.'
      && AllEmailChars(s[..a]) && AllEmailChars(s[a + 1..]);
    forall k | 0 <= k < a ensures s[k] != '@' {
      assert s[..a][k] == s[k];
    }
    forall k | a < k < |s| ensures s[k] != '@' {
      assert s[a + 1..][k - a - 1] == s[k];
    }
  }

  /** Text that starts with white space never matches the pattern. */
  lemma LeadingSpaceNotEmail(s: string)
    requires s != [] && IsSpace(s[0])
    ensures !IsEmail(s)
  {
    forall a | 0 < a < |s| ensures !AllEmailChars(s[..a]) {
      assert s[..a][0] == s[0];
    }
  }

  // ---------------------------------------------------------------------------
  // Row checks

  predicate BadEmail(row: RawRow)
  {
    Present(row, "email") && !IsEmail(row["email"])
  }

  predicate BadDate(row: RawRow, isDate: string -> bool)
  {
    Present(row, "dateOfBirth") && !isDate(row["dateOfBirth"])
  }

  /** The messages `validateStudentData` produces for one row, in the order it pushes them. */
  function StudentMessages(row: RawRow, isDate: string -> bool): seq<Message>
  {
    MissingMessages(row, StudentRequired)
    + (if BadEmail(row) then [InvalidEmail] else [])
    + (if BadDate(row, isDate) then [InvalidDate] else [])
  }

  /** `row.f && (isNaN(parseInt(row.f)) || parseInt(row.f) <= 0)`. */
  predicate BadPositiveInt(row: RawRow, field: string)
  {
    Present(row, field) && (ParseIntString(row[field]).None? || ParseIntString(row[field]).value <= 0)
  }

  /** `row.points && (isNaN(parseFloat(row.points)) || parseFloat(row.points) < 0)`. */
  predicate BadPoints(row: RawRow)
  {
    Present(row, "points") && (ParseFloatString(row["points"]).None? || ParseFloatString(row["points"]).value < 0.0)
  }

  /** `row.maxPoints && (isNaN(parseFloat(row.maxPoints)) || parseFloat(row.maxPoints) <= 0)`. */
  predicate BadMaxPoints(row: RawRow)
  {
    Present(row, "maxPoints")
    && (ParseFloatString(row["maxPoints"]).None? || ParseFloatString(row["maxPoints"]).value <= 0.0)
  }

  /**
   * `row.points && row.maxPoints && parseFloat(row.points) > parseFloat(row.maxPoints)`;
   * a comparison with NaN is false.
   */
  predicate PointsExceed(row: RawRow)
  {
    Present(row, "points") && Present(row, "maxPoints")
    && ParseFloatString(row["points"]).Some? && ParseFloatString(row["maxPoints"]).Some?
    && ParseFloatString(row["points"]).value > ParseFloatString(row["maxPoints"]).value
  }

  /** The messages `validateGradeData` produces for one row, in the order it pushes them. */
  function GradeMessages(row: RawRow): seq<Message>
  {
    MissingMessages(row, GradeRequired)
    + (if BadPositiveInt(row, "studentId") then [NotPositiveInt("studentId")] else [])
    + (if BadPositiveInt(row, "courseId") then [NotPositiveInt("courseId")] else [])
    + (if BadPoints(row) then [NegativePoints] else [])
    + (if BadMaxPoints(row) then [NonPositiveMaxPoints] else [])
    + (if PointsExceed(row) then [PointsExceedMax] else [])
  }

  /**
   * The per-row check of `validateStudentData`. `Date.parse` is not modelled: `isDate` says which
   * texts it accepts.
   */
  function StudentCheck(isDate: string -> bool): RawRow -> seq<Message>
  {
    row => StudentMessages(row, isDate)
  }

  /** The report for `data`: one entry per row with messages, numbered from 1, in row order. */
  function ReportOf(check: RawRow -> seq<Message>, data: seq<RawRow>): (r: seq<RowError>)
    ensures |r| <= |data|
  {
    if data == [] then []
    else
      var rest := ReportOf(check, data[..|data| - 1]);
      var row := data[|data| - 1];
      var msgs := check(row);
      if msgs == [] then rest else rest + [RowError(|data|, msgs, row)]
  }

  // ---------------------------------------------------------------------------
  // The validators

  /** The missing-field loop over `required` for one row. */
  method CheckRequired(row: RawRow, required: seq<string>) returns (rowErrors: seq<Message>)
    ensures rowErrors == MissingMessages(row, required)
  {
    rowErrors := [];
    for k := 0 to |required|
      invariant rowErrors == MissingMessages(row, required[..k])
    {
      var field := required[k];
      assert required[..k + 1][..k] == required[..k];
      if IsMissing(row, field) {
        rowErrors := rowErrors + [MissingField(field)];
      }
    }
    assert required[..|required|] == required;
  }

  /** The body of `validateStudentData`'s row callback: the messages for one row. */
  method CheckStudentRow(row: RawRow, isDate: string -> bool) returns (rowErrors: seq<Message>)
    ensures rowErrors == StudentMessages(row, isDate)
  {
    rowErrors := CheckRequired(row, StudentRequired);
    if BadEmail(row) {
      rowErrors := rowErrors + [InvalidEmail];
    }
    if BadDate(row, isDate) {
      rowErrors := rowErrors + [InvalidDate];
    }
  }

  /** The body of `validateGradeData`'s row callback: the messages for one row. */
  method CheckGradeRow(row: RawRow) returns (rowErrors: seq<Message>)
    ensures rowErrors == GradeMessages(row)
  {
    rowErrors := CheckRequired(row, GradeRequired);
    if BadPositiveInt(row, "studentId") {
      rowErrors := rowErrors + [NotPositiveInt("studentId")];
    }
    ghost var sofar := MissingMessages(row, GradeRequired)
      + (if BadPositiveInt(row, "studentId") then [NotPositiveInt("studentId")] else []);
    assert rowErrors == sofar;
    if BadPositiveInt(row, "courseId") {
      rowErrors := rowErrors + [NotPositiveInt("courseId")];
    }
    sofar := sofar + (if BadPositiveInt(row, "courseId") then [NotPositiveInt("courseId")] else []);
    assert rowErrors == sofar;
    if BadPoints(row) {
      rowErrors := rowErrors + [NegativePoints];
    }
    sofar := sofar + (if BadPoints(row) then [NegativePoints] else []);
    assert rowErrors == sofar;
    if BadMaxPoints(row) {
      rowErrors := rowErrors + [NonPositiveMaxPoints];
    }
    sofar := sofar + (if BadMaxPoints(row) then [NonPositiveMaxPoints] else []);
    assert rowErrors == sofar;
    if PointsExceed(row) {
      rowErrors := rowErrors + [PointsExceedMax];
    }
    sofar := sofar + (if PointsExceed(row) then [PointsExceedMax] else []);
    assert rowErrors == sofar;
  }

  /** `validateStudentData(data)`. */
  method ValidateStudentData(data: seq<RawRow>, isDate: string -> bool) returns (errors: seq<RowError>)
    ensures errors == ReportOf(StudentCheck(isDate), data)
  {
    errors := [];
    for index := 0 to |data|
      invariant errors == ReportOf(StudentCheck(isDate), data[..index])
    {
      var row := data[index];
      var rowErrors := CheckStudentRow(row, isDate);
      assert data[..index + 1][..index] == data[..index];
      if |rowErrors| > 0 {
        errors := errors + [RowError(index + 1, rowErrors, row)];
      }
    }
    assert data[..|data|] == data;
  }

  /** `validateGradeData(data)`. */
  method ValidateGradeData(data: seq<RawRow>) returns (errors: seq<RowError>)
    ensures errors == ReportOf(GradeMessages, data)
  {
    errors := [];
    for index := 0 to |data|
      invariant errors == ReportOf(GradeMessages, data[..index])
    {
      var row := data[index];
      var rowErrors := CheckGradeRow(row);
      assert data[..index + 1][..index] == data[..index];
      if |rowErrors| > 0 {
        errors := errors + [RowError(index + 1, rowErrors, row)];
      }
    }
    assert data[..|data|] == data;
  }

  // ---------------------------------------------------------------------------
  // What a report says

  /** Every entry names a row by its 1-based number, holds that row and its (non-empty) messages. */
  lemma {:induction false} ReportEntries(check: RawRow -> seq<Message>, data: seq<RawRow>)
    ensures forall k :: 0 <= k < |ReportOf(check, data)| ==>
      1 <= ReportOf(check, data)[k].row <= |data|
      && ReportOf(check, data)[k].data == data[ReportOf(check, data)[k].row - 1]
      && ReportOf(check, data)[k].errors == check(data[ReportOf(check, data)[k].row - 1])
      && ReportOf(check, data)[k].errors != []
  {
    if data != [] {
      var init := data[..|data| - 1];
      ReportEntries(check, init);
      var r0 := ReportOf(check, init);
      var r := ReportOf(check, data);
      forall k | 0 <= k < |r|
        ensures 1 <= r[k].row <= |data| && r[k].data == data[r[k].row - 1]
          && r[k].errors == check(data[r[k].row - 1]) && r[k].errors != []
      {
        if k < |r0| {
          assert r[k] == r0[k];
          assert init[r0[k].row - 1] == data[r0[k].row - 1];
        }
      }
    }
  }

  /** Entries appear in increasing row order, so no row is reported twice. */
  lemma {:induction false} ReportOrdered(check: RawRow -> seq<Message>, data: seq<RawRow>)
    ensures forall i, j :: 0 <= i < j < |ReportOf(check, data)| ==>
      ReportOf(check, data)[i].row < ReportOf(check, data)[j].row
  {
    if data != [] {
      ReportOrdered(check, data[..|data| - 1]);
      ReportEntries(check, data[..|data| - 1]);
    }
  }

  /** Some entry of `report` is about row number `n`. */
  predicate Reported(report: seq<RowError>, n: nat)
  {
    exists k :: 0 <= k < |report| && report[k].row == n
  }

  /** Every row with a message is reported. */
  lemma {:induction false} ReportComplete(check: RawRow -> seq<Message>, data: seq<RawRow>)
    ensures forall i :: 0 <= i < |data| && check(data[i]) != [] ==> Reported(ReportOf(check, data), i + 1)
  {
    if data != [] {
      var init := data[..|data| - 1];
      ReportComplete(check, init);
      var r0 := ReportOf(check, init);
      var r := ReportOf(check, data);
      forall i | 0 <= i < |data| && check(data[i]) != []
        ensures Reported(r, i + 1)
      {
        if i < |init| {
          assert init[i] == data[i];
          assert Reported(r0, i + 1);
          var k :| 0 <= k < |r0| && r0[k].row == i + 1;
          assert r[k] == r0[k];
        } else {
          assert r[|r| - 1].row == i + 1;
        }
      }
    }
  }

  /** A report is empty exactly when no row draws a message: the import may go ahead. */
  lemma ReportEmptyIff(check: RawRow -> seq<Message>, data: seq<RawRow>)
    ensures ReportOf(check, data) == [] <==> forall i :: 0 <= i < |data| ==> check(data[i]) == []
  {
    ReportEntries(check, data);
    ReportComplete(check, data);
  }

  /** A student row passes exactly when its four required fields are filled in and well formed. */
  lemma StudentRowAccepted(row: RawRow, isDate: string -> bool)
    ensures StudentMessages(row, isDate) == [] <==>
      (forall i :: 0 <= i < |StudentRequired| ==> !IsMissing(row, StudentRequired[i]))
      && "email" in row && IsEmail(row["email"])
      && "dateOfBirth" in row && isDate(row["dateOfBirth"])
  {
    if StudentMessages(row, isDate) == [] {
      assert !IsMissing(row, StudentRequired[2]) && !IsMissing(row, StudentRequired[3]);
    }
  }

  /** An e-mail cell holding only white space draws two messages: it is missing and malformed. */
  lemma BlankEmailTwoMessages(row: RawRow, isDate: string -> bool)
    requires "email" in row && row["email"] != []
    requires forall i :: 0 <= i < |row["email"]| ==> IsSpace(row["email"][i])
    ensures MissingField("email") in StudentMessages(row, isDate)
    ensures InvalidEmail in StudentMessages(row, isDate)
  {
    TrimEmptyIffBlank(row["email"]);
    assert IsMissing(row, StudentRequired[2]);
    LeadingSpaceNotEmail(row["email"]);
  }

  /**
   * A grade id cell holding only white space is truthy and blank: it draws the missing-field
   * message and the positive-integer message.
   */
  lemma BlankIdTwoMessages(row: RawRow, field: string)
    requires field == "studentId" || field == "courseId"
    requires field in row && row[field] != []
    requires forall i :: 0 <= i < |row[field]| ==> IsSpace(row[field][i])
    ensures MissingField(field) in GradeMessages(row)
    ensures NotPositiveInt(field) in GradeMessages(row)
  {
    var s := row[field];
    TrimEmptyIffBlank(s);
    TrimStartIsSuffix(s);
    assert field == GradeRequired[0] || field == GradeRequired[1];
    assert BadPositiveInt(row, field);
  }

  /** The positive-integer message for a field is drawn only by that field's own check. */
  lemma PositiveIntMessageOnlyIfBad(row: RawRow, field: string)
    ensures NotPositiveInt(field) in GradeMessages(row) ==> BadPositiveInt(row, field)
  {
    assert NotPositiveInt(field) !in MissingMessages(row, GradeRequired);
  }

  /** An absent or empty grade id cell is falsy: it draws the missing-field message alone. */
  lemma EmptyIdOneMessage(row: RawRow, field: string)
    requires field == "studentId" || field == "courseId"
    requires field !in row || row[field] == []
    ensures MissingField(field) in GradeMessages(row)
    ensures NotPositiveInt(field) !in GradeMessages(row)
  {
    assert field == GradeRequired[0] || field == GradeRequired[1];
    PositiveIntMessageOnlyIfBad(row, field);
  }

  /**
   * A grade row passes exactly when its five required fields are filled in, both ids are positive
   * integers, the points are a non-negative number, the maximum is a positive number and the
   * points do not exceed it.
   */
  lemma GradeRowAccepted(row: RawRow)
    ensures GradeMessages(row) == [] <==>
      (forall i :: 0 <= i < |GradeRequired| ==> !IsMissing(row, GradeRequired[i]))
      && "studentId" in row && "courseId" in row && "points" in row && "maxPoints" in row
      && ParseIntString(row["studentId"]).Some? && ParseIntString(row["studentId"]).value > 0
      && ParseIntString(row["courseId"]).Some? && ParseIntString(row["courseId"]).value > 0
      && ParseFloatString(row["points"]).Some? && ParseFloatString(row["maxPoints"]).Some?
      && 0.0 <= ParseFloatString(row["points"]).value <= ParseFloatString(row["maxPoints"]).value
      && ParseFloatString(row["maxPoints"]).value > 0.0
  {
    if GradeMessages(row) == [] {
      assert !IsMissing(row, GradeRequired[0]) && !IsMissing(row, GradeRequired[1]);
      assert !IsMissing(row, GradeRequired[3]) && !IsMissing(row, GradeRequired[4]);
    }
  }

  // ---------------------------------------------------------------------------
  // Normalisation

  /** `row.f?.toString().trim() || dflt`. */
  function TrimmedOr(row: RawRow, field: string, dflt: string): string
  {
    if field in row && Trim(row[field]) != "" then Trim(row[field]) else dflt
  }

  /** `row.f?.toString().toLowerCase().trim() || dflt`. */
  function LowerTrimmedOr(row: RawRow, field: string, dflt: string): string
  {
    if field in row && Trim(ToLower(row[field])) != "" then Trim(ToLower(row[field])) else dflt
  }

  /** `row.f || dflt`: the cell as it stands when it is not empty. */
  function CellOr(row: RawRow, field: string, dflt: string): string
  {
    if Present(row, field) then row[field] else dflt
  }

  datatype PgAddress = PgAddress(street: string, city: string, state: string, zipCode: string)

  datatype ParentGuardian = ParentGuardian(
    name: string, relationship: string, primaryPhone: string, secondaryPhone: string,
    primaryEmail: string, secondaryEmail: string, address: PgAddress)

  /** A student as `normalizeStudentData` shapes it; the communication history always starts empty. */
  datatype StudentRecord = StudentRecord(
    firstName: string, lastName: string, email: string, phone: string, dateOfBirth: string,
    address: string, emergencyContact: string, grade: string, status: string, enrollmentDate: string,
    parentGuardian: ParentGuardian, communicationHistory: seq<Fields>)

  /** One row of `normalizeStudentData`; `today` is the ISO date of the import. */
  function NormalizeStudent(row: RawRow, today: string): StudentRecord
  {
    StudentRecord(
      TrimmedOr(row, "firstName", ""), TrimmedOr(row, "lastName", ""),
      LowerTrimmedOr(row, "email", ""), TrimmedOr(row, "phone", ""),
      CellOr(row, "dateOfBirth", ""), TrimmedOr(row, "address", ""),
      TrimmedOr(row, "emergencyContact", ""), TrimmedOr(row, "grade", ""),
      LowerTrimmedOr(row, "status", "active"), CellOr(row, "enrollmentDate", today),
      ParentGuardian(
        TrimmedOr(row, "parentGuardianName", ""),
        TrimmedOr(row, "parentGuardianRelationship", "Parent"),
        TrimmedOr(row, "parentGuardianPhone", ""),
        TrimmedOr(row, "parentGuardianSecondaryPhone", ""),
        LowerTrimmedOr(row, "parentGuardianEmail", ""),
        LowerTrimmedOr(row, "parentGuardianSecondaryEmail", ""),
        PgAddress(
          TrimmedOr(row, "parentGuardianAddressStreet", ""),
          TrimmedOr(row, "parentGuardianAddressCity", ""),
          TrimmedOr(row, "parentGuardianAddressState", ""),
          TrimmedOr(row, "parentGuardianAddressZipCode", ""))),
      [])
  }

  /** `normalizeStudentData(data)`: one record per row, in row order. */
  function NormalizeStudentData(data: seq<RawRow>, today: string): (r: seq<StudentRecord>)
    ensures |r| == |data|
    ensures forall i :: 0 <= i < |data| ==> r[i] == NormalizeStudent(data[i], today)
  {
    seq(|data|, i requires 0 <= i < |data| => NormalizeStudent(data[i], today))
  }

  lemma TrimmedOrTrimmed(row: RawRow, field: string, dflt: string)
    requires IsTrimmed(dflt)
    ensures IsTrimmed(TrimmedOr(row, field, dflt))
  {
  }

  lemma {:induction false} LowerTrimmedOrLower(row: RawRow, field: string, dflt: string)
    requires IsTrimmed(dflt) && HasNoUpper(dflt)
    ensures IsTrimmed(LowerTrimmedOr(row, field, dflt)) && HasNoUpper(LowerTrimmedOr(row, field, dflt))
  {
    if field in row {
      var lower := ToLower(row[field]);
      assert HasNoUpper(lower);
      TrimKeepsNoUpper(lower);
    }
  }

  /** A normalised student's e-mail addresses are in lower case with no surrounding white space. */
  lemma NormalizedStudentEmails(row: RawRow, today: string)
    ensures var s := NormalizeStudent(row, today);
      && HasNoUpper(s.email) && IsTrimmed(s.email)
      && HasNoUpper(s.parentGuardian.primaryEmail) && IsTrimmed(s.parentGuardian.primaryEmail)
      && HasNoUpper(s.parentGuardian.secondaryEmail) && IsTrimmed(s.parentGuardian.secondaryEmail)
  {
    LowerTrimmedOrLower(row, "email", "");
    LowerTrimmedOrLower(row, "parentGuardianEmail", "");
    LowerTrimmedOrLower(row, "parentGuardianSecondaryEmail", "");
  }

  /**
   * A normalised student's status is a non-empty lower-case word: "active" when the cell is
   * missing or blank, the cell lower-cased and trimmed otherwise. The guardian's relationship is
   * "Parent" when its cell is missing or blank, the trimmed cell otherwise.
   */
  lemma NormalizedStudentDefaults(row: RawRow, today: string)
    ensures var s := NormalizeStudent(row, today);
      && HasNoUpper(s.status) && IsTrimmed(s.status) && s.status != ""
      && s.parentGuardian.relationship != ""
      && s.communicationHistory == []
      && (!Present(row, "enrollmentDate") ==> s.enrollmentDate == today)
    ensures var s := NormalizeStudent(row, today);
      && (("status" !in row || Trim(ToLower(row["status"])) == "") ==> s.status == "active")
      && ("status" in row && Trim(ToLower(row["status"])) != "" ==> s.status == Trim(ToLower(row["status"])))
    ensures var s := NormalizeStudent(row, today);
      && (("parentGuardianRelationship" !in row || Trim(row["parentGuardianRelationship"]) == "") ==>
            s.parentGuardian.relationship == "Parent")
      && ("parentGuardianRelationship" in row && Trim(row["parentGuardianRelationship"]) != "" ==>
            s.parentGuardian.relationship == Trim(row["parentGuardianRelationship"]))
  {
    LowerTrimmedOrLower(row, "status", "active");
  }

  /**
   * The text fields of a normalised student are trimmed, except the date of birth, which is
   * copied as it stands.
   */
  lemma NormalizedStudentTrimmed(row: RawRow, today: string)
    ensures var s := NormalizeStudent(row, today);
      && IsTrimmed(s.firstName) && IsTrimmed(s.lastName) && IsTrimmed(s.phone)
      && IsTrimmed(s.address) && IsTrimmed(s.grade) && IsTrimmed(s.emergencyContact)
      && ("dateOfBirth" in row ==> s.dateOfBirth == row["dateOfBirth"])
  {
  }

  /** A grade as `normalizeGradeData` shapes it; `None` in an id stands for NaN. */
  datatype GradeRecord = GradeRecord(
    studentId: Option<int>, courseId: Option<int>, assignmentName: string, category: string,
    points: real, maxPoints: real, percentage: int, letterGrade: string,
    dateRecorded: string, comments: string)

  /** `parseFloat(text) || dflt`: NaN and zero both fall back. */
  function FloatOr(row: RawRow, field: string, dflt: real): real
  {
    if field in row && ParseFloatString(row[field]).Some? && ParseFloatString(row[field]).value != 0.0
    then ParseFloatString(row[field]).value else dflt
  }

  /** `parseInt(row.f)` where an absent cell is NaN. */
  function IntCell(row: RawRow, field: string): Option<int>
  {
    if field in row then ParseIntString(row[field]) else None
  }

  /** The thirteen-step letter scale applied to a rounded percentage. */
  function LetterGrade(percentage: int): string
  {
    if percentage >= 97 then "A+"
    else if percentage >= 93 then "A"
    else if percentage >= 90 then "A-"
    else if percentage >= 87 then "B+"
    else if percentage >= 83 then "B"
    else if percentage >= 80 then "B-"
    else if percentage >= 77 then "C+"
    else if percentage >= 73 then "C"
    else if percentage >= 70 then "C-"
    else if percentage >= 67 then "D+"
    else if percentage >= 63 then "D"
    else if percentage >= 60 then "D-"
    else "F"
  }

  /** The letters from worst to best. */
  const Letters: seq<string> := ["F", "D-", "D", "D+", "C-", "C", "C+", "B-", "B", "B+", "A-", "A", "A+"]

  /** The lowest percentage that earns each letter of `Letters` above F. */
  const Thresholds: seq<int> := [60, 63, 67, 70, 73, 77, 80, 83, 87, 90, 93, 97]

  /** The number of thresholds a percentage reaches: the position of its letter in `Letters`. */
  function Reached(percentage: int, ts: seq<int>): (n: nat)
    ensures n <= |ts|
  {
    if ts == [] then 0 else (if percentage >= ts[0] then 1 else 0) + Reached(percentage, ts[1..])
  }

  /** In an increasing table, a percentage reaches exactly the thresholds below the first it misses. */
  lemma {:induction false} ReachedAt(percentage: int, ts: seq<int>, k: nat)
    requires forall i, j :: 0 <= i < j < |ts| ==> ts[i] < ts[j]
    requires k <= |ts|
    requires k == 0 || ts[k - 1] <= percentage
    requires k == |ts| || percentage < ts[k]
    ensures Reached(percentage, ts) == k
  {
    if ts != [] {
      if k == 0 {
        ReachedAt(percentage, ts[1..], 0);
      } else {
        assert ts[0] <= ts[k - 1];
        ReachedAt(percentage, ts[1..], k - 1);
      }
    }
  }

  /** The scale is the threshold table: the letter is the one whose band holds the percentage. */
  lemma LetterGradeByThresholds(percentage: int)
    ensures LetterGrade(percentage) == Letters[Reached(percentage, Thresholds)]
  {
    var p := percentage;
    var k: nat :=
      if p >= 97 then 12 else if p >= 93 then 11 else if p >= 90 then 10 else if p >= 87 then 9
      else if p >= 83 then 8 else if p >= 80 then 7 else if p >= 77 then 6 else if p >= 73 then 5
      else if p >= 70 then 4 else if p >= 67 then 3 else if p >= 63 then 2 else if p >= 60 then 1
      else 0;
    ReachedAt(p, Thresholds, k);
  }

  /** A higher percentage never earns a worse letter. */
  lemma {:induction false} ReachedMonotone(p: int, q: int, ts: seq<int>)
    requires p <= q
    ensures Reached(p, ts) <= Reached(q, ts)
  {
    if ts != [] {
      ReachedMonotone(p, q, ts[1..]);
    }
  }

  /** One row of `normalizeGradeData`. */
  function NormalizeGrade(row: RawRow, today: string): GradeRecord
  {
    var points := FloatOr(row, "points", 0.0);
    var maxPoints := FloatOr(row, "maxPoints", 100.0);
    var percentage := if maxPoints > 0.0 then Round(points / maxPoints * 100.0) else 0;
    GradeRecord(
      IntCell(row, "studentId"), IntCell(row, "courseId"),
      TrimmedOr(row, "assignmentName", ""), TrimmedOr(row, "category", "Assignment"),
      points, maxPoints, percentage, LetterGrade(percentage),
      CellOr(row, "dateRecorded", today), TrimmedOr(row, "comments", ""))
  }

  /** `normalizeGradeData(data)`: one record per row, in row order. */
  function NormalizeGradeData(data: seq<RawRow>, today: string): (r: seq<GradeRecord>)
    ensures |r| == |data|
    ensures forall i :: 0 <= i < |data| ==> r[i] == NormalizeGrade(data[i], today)
  {
    seq(|data|, i requires 0 <= i < |data| => NormalizeGrade(data[i], today))
  }

  /**
   * `parseFloat(cell) || default` for the points (default 0) and the maximum (default 100): a
   * cell that reads as a non-zero number is stored as that number, and an absent, unreadable or
   * zero cell as the default; so the stored maximum is never zero. A positive maximum gives the
   * rounded share of the stored numbers, a negative one percentage 0, and the letter always
   * agrees with the stored percentage.
   */
  lemma NormalizedGradeShape(row: RawRow, today: string)
    ensures var g := NormalizeGrade(row, today);
      && g.maxPoints != 0.0
      && (("maxPoints" !in row || ParseFloatString(row["maxPoints"]) in {None, Some(0.0)}) ==> g.maxPoints == 100.0)
      && ("maxPoints" in row && ParseFloatString(row["maxPoints"]).Some? ==>
            g.maxPoints == if ParseFloatString(row["maxPoints"]).value != 0.0 then ParseFloatString(row["maxPoints"]).value else 100.0)
      && (("points" !in row || ParseFloatString(row["points"]).None?) ==> g.points == 0.0)
      && ("points" in row && ParseFloatString(row["points"]).Some? ==> g.points == ParseFloatString(row["points"]).value)
      && (g.maxPoints > 0.0 ==> g.percentage == Round(g.points / g.maxPoints * 100.0))
      && (g.maxPoints < 0.0 ==> g.percentage == 0)
      && g.letterGrade == Letters[Reached(g.percentage, Thresholds)]
  {
    LetterGradeByThresholds(NormalizeGrade(row, today).percentage);
  }

  lemma PercentageInRange(points: real, maxPoints: real)
    requires 0.0 <= points <= maxPoints && maxPoints > 0.0
    ensures 0 <= Round(points / maxPoints * 100.0) <= 100
  {
    assert points / maxPoints <= 1.0 by {
      assert points / maxPoints * maxPoints == points;
    }
  }

  /**
   * A row that passes `validateGradeData` normalises to a grade with positive ids, the same
   * numbers it was checked against, and a percentage between 0 and 100.
   */
  lemma AcceptedGradeNormalizes(row: RawRow, today: string)
    requires GradeMessages(row) == []
    ensures var g := NormalizeGrade(row, today);
      && g.studentId.Some? && g.studentId.value > 0
      && g.courseId.Some? && g.courseId.value > 0
      && 0.0 <= g.points <= g.maxPoints
      && 0 <= g.percentage <= 100
  {
    GradeRowAccepted(row);
    var g := NormalizeGrade(row, today);
    PercentageInRange(g.points, g.maxPoints);
  }
}
