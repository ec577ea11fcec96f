/**
 * The import/export dialog: which files it accepts, what an import's outcome does to it, how the
 * validation errors are listed, and the template CSV it offers for download
 * (src/components/organisms/ImportExportModal.jsx).
 */
module ImportExport {

  import opened Js
  import CsvUtils
  import opened CsvCells

  // ---------------------------------------------------------------------------
  // Choosing a file

  /** A chosen file: its name, its MIME type and its size in bytes. */
  datatype File = File(name: string, mimeType: string, size: nat)

  const AllowedTypes: seq<string> := [
    "text/csv",
    "application/vnd.ms-excel",
    "application/vnd.openxmlformats-officedocument.spreadsheetml.sheet"
  ]

  /** Ten mebibytes. */
  const MaxSize: nat := 10 * 1024 * 1024

  /** `name` ends with `suffix`, a lower-case text, ignoring the case of ASCII letters. */
  predicate EndsWithIgnoringCase(name: string, suffix: string)
  {
    |name| >= |suffix| && ToLower(name[|name| - |suffix|..]) == suffix
  }

  /** The pattern `/\.(csv|xlsx|xls)$/i`. */
  predicate SpreadsheetName(name: string)
  {
    EndsWithIgnoringCase(name, ".csv") || EndsWithIgnoringCase(name, ".xlsx") || EndsWithIgnoringCase(name, ".xls")
  }

  /** The file is a spreadsheet by its type or by its name, and at most ten mebibytes. */
  predicate Acceptable(file: File)
  {
    (file.mimeType in AllowedTypes || SpreadsheetName(file.name)) && file.size <= MaxSize
  }

  datatype ToastKind = ErrorToast | WarningToast | SuccessToast

  /** A notification the dialog raises. */
  datatype Toast = Toast(kind: ToastKind, text: string)

  /** The dialog's state. */
  datatype Modal = Modal(importFile: Option<File>, dragOver: bool, validationErrors: seq<CsvUtils.RowError>)

  /** The state `handleClose` leaves behind. */
  const Cleared := Modal(None, false, [])

  /** What a handler leaves: the new state, the notification raised, and whether `onClose` was called. */
  datatype Step = Step(modal: Modal, toast: Option<Toast>, closes: bool)

  const WrongTypeText := "Please select a valid CSV or Excel file"
  const TooLargeText := "File size must be less than 10MB"

  /** `handleFileSelect(file)`: the type test first, then the size test. */
  function HandleFileSelect(m: Modal, file: Option<File>): (s: Step)
    ensures !s.closes
  {
    if file.None? then Step(m, None, false)
    else
      var f := file.value;
      if f.mimeType !in AllowedTypes && !SpreadsheetName(f.name) then Step(m, Some(Toast(ErrorToast, WrongTypeText)), false)
      else if f.size > MaxSize then Step(m, Some(Toast(ErrorToast, TooLargeText)), false)
      else Step(m.(importFile := file, validationErrors := []), None, false)
  }

  /**
   * An acceptable file becomes the import file and clears the previous errors, silently; any
   * other file leaves the dialog as it was and raises an error naming the first test it fails;
   * no file does nothing.
   */
  lemma FileSelectSpec(m: Modal, file: Option<File>)
    ensures file.None? ==> HandleFileSelect(m, file) == Step(m, None, false)
    ensures file.Some? && Acceptable(file.value) ==>
      HandleFileSelect(m, file) == Step(Modal(file, m.dragOver, []), None, false)
    ensures file.Some? && !Acceptable(file.value) ==>
      var s := HandleFileSelect(m, file);
      s.modal == m && s.toast.Some? && s.toast.value.kind == ErrorToast
      && (s.toast.value.text == TooLargeText <==> file.value.mimeType in AllowedTypes || SpreadsheetName(file.value.name))
  {
  }

  /** The limit is inclusive: a CSV file of exactly ten mebibytes is accepted, one byte more is not. */
  lemma SizeLimitInclusive(name: string)
    ensures Acceptable(File(name, "text/csv", 10485760))
    ensures HandleFileSelect(Cleared, Some(File(name, "text/csv", 10485761))).toast == Some(Toast(ErrorToast, TooLargeText))
  {
  }

  /** The name test ignores case and stands in for an unknown MIME type. */
  lemma UpperCaseExtensionAccepted()
    ensures Acceptable(File("GRADES.XLSX", "", 2048))
  {
    var upper := "GRADES.XLSX";
    assert upper[|upper| - 5..] == ".XLSX";
    assert ToLower(".XLSX") == ".xlsx";
  }

  /** A text file of another type is refused, small as it is. */
  lemma TextFileRefused()
    ensures !Acceptable(File("grades.txt", "text/plain", 2048))
  {
    var txt := "grades.txt";
    assert txt[|txt| - 4..] == ".txt";
    assert txt[|txt| - 5..] == "s.txt";
    assert ToLower(".txt") != ".csv" by {
      assert ToLower(".txt")[1] == 't';
    }
    assert ToLower(".txt") != ".xls" by {
      assert ToLower(".txt")[1] == 't';
    }
    assert ToLower("s.txt") != ".xlsx" by {
      assert ToLower("s.txt")[0] == 's';
    }
  }

  // ---------------------------------------------------------------------------
  // Importing

  /** What the page's `onImport` resolved with. */
  datatype ImportResult = ImportResult(errors: Option<seq<CsvUtils.RowError>>, successCount: nat)

  /** `onImport(importFile)` either resolves or throws an error carrying a message. */
  datatype Outcome = Resolved(result: ImportResult) | Failed(message: string)

  /** `handleImport`, given how the page's import turns out. */
  function HandleImport(m: Modal, kind: string, outcome: Outcome): (s: Step)
  {
    if m.importFile.None? then Step(m, Some(Toast(ErrorToast, "Please select a file to import")), false)
    else match outcome
      case Failed(message) => Step(m, Some(Toast(ErrorToast, if message != "" then message else "Import failed")), false)
      case Resolved(result) =>
        if result.errors.Some? && |result.errors.value| > 0 then
          var n := |result.errors.value|;
          Step(m.(validationErrors := result.errors.value),
               Some(Toast(WarningToast, "Import completed with " + NatToString(n) + " validation errors")), false)
        else
          Step(Cleared, Some(Toast(SuccessToast, "Successfully imported " + NatToString(result.successCount) + " " + kind)), true)
  }

  /** The import succeeded: a file was chosen and the page reported no validation errors. */
  predicate Succeeded(m: Modal, outcome: Outcome)
  {
    m.importFile.Some? && outcome.Resolved? && (outcome.result.errors.None? || outcome.result.errors.value == [])
  }

  /**
   * The dialog closes, cleared, exactly when the import succeeded; validation errors are kept for
   * display with the file still chosen; in every other case the state is untouched. A
   * notification is always raised, a success one only on success.
   */
  lemma ImportSpec(m: Modal, kind: string, outcome: Outcome)
    ensures var s := HandleImport(m, kind, outcome);
      (s.closes <==> Succeeded(m, outcome))
      && (s.closes ==> s.modal == Cleared)
      && (!s.closes ==> s.modal.importFile == m.importFile && s.modal.dragOver == m.dragOver)
      && s.toast.Some? && (s.toast.value.kind == SuccessToast <==> s.closes)
    ensures var s := HandleImport(m, kind, outcome);
      m.importFile.Some? && outcome.Resolved? && outcome.result.errors.Some? && outcome.result.errors.value != [] ==>
        s.modal.validationErrors == outcome.result.errors.value && s.toast.value.kind == WarningToast
    ensures var s := HandleImport(m, kind, outcome);
      !(m.importFile.Some? && outcome.Resolved? && outcome.result.errors.Some?) && !s.closes ==> s.modal == m
  {
  }

  /** An error without a message is reported as "Import failed". */
  lemma SilentFailure(m: Modal, kind: string)
    requires m.importFile.Some?
    ensures HandleImport(m, kind, Failed("")).toast == Some(Toast(ErrorToast, "Import failed"))
  {
  }

  // ---------------------------------------------------------------------------
  // The error list

  /** How many errors are listed one by one. */
  const Shown := 10

  /** The messages of a list, as the dialog writes them. */
  function Texts(messages: seq<CsvUtils.Message>): (r: seq<string>)
    ensures |r| == |messages|
  {
    seq(|messages|, i requires 0 <= i < |messages| => CsvUtils.Text(messages[i]))
  }

  /** "Row {row}: {messages joined by ", "}". */
  function ErrorLine(e: CsvUtils.RowError): string
  {
    "Row " + NatToString(e.row) + ": " + Join(Texts(e.errors), ", ")
  }

  /** The line that closes a long list. */
  function MoreLine(hidden: nat): string
  {
    "... and " + NatToString(hidden) + " more errors"
  }

  /** The list under "Validation Errors (N)": the first ten errors, then a count of the rest. */
  function ErrorLines(errors: seq<CsvUtils.RowError>): (lines: seq<string>)
    ensures |lines| == if |errors| > Shown then Shown + 1 else |errors|
  {
    var listed := if |errors| > Shown then errors[..Shown] else errors;
    seq(|listed|, i requires 0 <= i < |listed| => ErrorLine(listed[i]))
      + (if |errors| > Shown then [MoreLine(|errors| - Shown)] else [])
  }

  /**
   * Error i is listed on line i exactly when i is below ten; the others are counted on the last
   * line, whose number together with the ten listed gives back the number of errors.
   */
  lemma ErrorLinesSpec(errors: seq<CsvUtils.RowError>)
    ensures forall i :: 0 <= i < |errors| && i < Shown ==> ErrorLines(errors)[i] == ErrorLine(errors[i])
    ensures |errors| > Shown ==> ErrorLines(errors)[Shown] == MoreLine(|errors| - Shown)
    ensures |errors| <= Shown ==> forall line :: line in ErrorLines(errors) ==> |line| >= 4 && line[..4] == "Row "
  {
    var lines := ErrorLines(errors);
    if |errors| <= Shown {
      forall line | line in lines ensures |line| >= 4 && line[..4] == "Row " {
        var i :| 0 <= i < |lines| && lines[i] == line;
        assert line == ErrorLine(errors[i]);
      }
    }
  }

  /** Two error lists drawn the same have the same length: the count of hidden errors is exact. */
  lemma ErrorCountRecoverable(a: seq<CsvUtils.RowError>, b: seq<CsvUtils.RowError>)
    requires ErrorLines(a) == ErrorLines(b)
    ensures |a| == |b|
  {
    ErrorLinesSpec(a);
    ErrorLinesSpec(b);
    if |a| > Shown {
      assert |b| > Shown;
      MoreLineInjective(|a| - Shown, |b| - Shown);
    }
  }

  lemma MoreLineInjective(x: nat, y: nat)
    requires MoreLine(x) == MoreLine(y)
    ensures x == y
  {
    var prefix := "... and ";
    var sx, sy := NatToString(x), NatToString(y);
    assert |sx| == |sy| by {
      assert |MoreLine(x)| == |prefix| + |sx| + |" more errors"|;
    }
    assert sx == MoreLine(x)[|prefix|..|prefix| + |sx|];
    assert sy == MoreLine(y)[|prefix|..|prefix| + |sy|];
    NatToStringInjective(x, y);
  }

  // ---------------------------------------------------------------------------
  // The template

  /** A template record as `Object.keys` and `Object.values` list it: keys in order, each value as the text it joins as. */
  datatype TemplateRow = TemplateRow(keys: seq<string>, values: seq<string>)

  /** `getStudentTemplate()`. */
  const StudentTemplate: seq<TemplateRow> := [TemplateRow(
    ["firstName", "lastName", "email", "phone", "dateOfBirth", "address", "emergencyContact", "grade", "status",
     "enrollmentDate", "parentGuardianName", "parentGuardianRelationship", "parentGuardianPhone", "parentGuardianEmail"],
    ["John", "Doe", "john.doe@email.com", "(555) 123-4567", "2005-01-15", "123 Main St, City, State 12345",
     "Jane Doe - (555) 987-6543", "10", "active", "2024-01-15", "Jane Doe", "Mother", "(555) 987-6543",
     "jane.doe@email.com"])]

  /** `getGradeTemplate()`; the numbers 1, 1, 85 and 100 join as their decimal digits. */
  const GradeTemplate: seq<TemplateRow> := [TemplateRow(
    ["studentId", "courseId", "assignmentName", "category", "points", "maxPoints", "dateRecorded", "comments"],
    ["1", "1", "Math Test 1", "Test", "85", "100", "2024-01-15", "Good work"])]

  /** The header line: the first record's keys joined by commas, or nothing for no records. */
  function HeaderLines(data: seq<TemplateRow>): (r: seq<string>)
    ensures |r| <= 1
  {
    if data == [] then [] else [Join(data[0].keys, ",")]
  }

  /** `downloadTemplate`'s text: the header line, a newline, then one line of values per record. */
  function TemplateCsv(data: seq<TemplateRow>): string
  {
    Join(HeaderLines(data), "\n") + "\n" + Join(seq(|data|, i requires 0 <= i < |data| => Join(data[i].values, ",")), "\n")
  }

  /** Neither a quote nor a line break. */
  predicate PlainText(s: string)
  {
    '"' !in s && '\n' !in s
  }

  /** A one-record template is two lines: the keys and the values, each joined by commas. */
  lemma TemplateLines(row: TemplateRow)
    requires forall k :: 0 <= k < |row.keys| ==> PlainText(row.keys[k])
    requires forall k :: 0 <= k < |row.values| ==> PlainText(row.values[k])
    ensures Split(TemplateCsv([row]), '\n') == [Join(row.keys, ","), Join(row.values, ",")]
  {
    var header, line := Join(row.keys, ","), Join(row.values, ",");
    JoinAvoids(row.keys, ",", '\n');
    JoinAvoids(row.values, ",", '\n');
    assert TemplateCsv([row]) == Join([header, line], "\n");
    SplitJoin([header, line], '\n');
  }

  // ---------------------------------------------------------------------------
  // Reading the template back

  /** The cells the template's address reads back as. */
  const AddressCells: seq<string> := ["123 Main St", " City", " State 12345"]

  /** The address is its three cells joined by commas, and none of them needs quoting. */
  lemma AddressIsThreeCells()
    ensures StudentTemplate[0].values[5] == Join(AddressCells, ",")
    ensures forall k :: 0 <= k < |AddressCells| ==> Plain(AddressCells[k])
  {
    assert Join(AddressCells, ",") == "123 Main St" + "," + (" City" + "," + " State 12345");
  }

  /**
   * The student template as written: the address "123 Main St, City, State 12345" is written
   * unquoted, so the value line reads back with the address fallen apart into three cells. That
   * makes sixteen cells under fourteen headers, every value after the address two columns to
   * the right of its header: the downloaded template cannot be imported as it stands.
   */
  lemma StudentTemplateMisaligned()
    ensures var values := StudentTemplate[0].values;
      Cells(Join(values, ",")) == values[..5] + AddressCells + values[6..]
    ensures |StudentTemplate[0].keys| == |StudentTemplate[0].values| == 14 && |AddressCells| == 3
  {
    AddressIsThreeCells();
    StudentValuesPlainFirst();
    StudentValuesPlainSecond();
    StudentValuesPlainThird();
    UnquotedCommaSplits(StudentTemplate[0].values, 5, AddressCells);
  }

  lemma StudentValuesPlainFirst()
    ensures forall k :: 0 <= k < 5 ==> Plain(StudentTemplate[0].values[k])
  {
  }

  lemma StudentValuesPlainSecond()
    ensures forall k :: 6 <= k < 10 ==> Plain(StudentTemplate[0].values[k])
  {
  }

  lemma StudentValuesPlainThird()
    ensures forall k :: 10 <= k < 14 ==> Plain(StudentTemplate[0].values[k])
  {
  }

  /** The template text with quoted values; the header line is unchanged. */
  function QuotedTemplateCsv(data: seq<TemplateRow>): string
  {
    Join(HeaderLines(data), "\n") + "\n"
      + Join(seq(|data|, i requires 0 <= i < |data| => Join(Quoted(data[i].values), ",")), "\n")
  }

  /**
   * The student template with quoting: its value line reads back as the fourteen values, one
   * under each of the fourteen headers.
   */
  lemma QuotedTemplateReadsBack()
    ensures Cells(Join(Quoted(StudentTemplate[0].values), ",")) == StudentTemplate[0].values
    ensures |StudentTemplate[0].values| == |StudentTemplate[0].keys|
  {
    var values := StudentTemplate[0].values;
    StudentValuesPlainFirst();
    StudentValuesPlainSecond();
    StudentValuesPlainThird();
    assert Unquoted(values[5]);
    assert forall k :: 0 <= k < |values| ==> Unquoted(values[k]);
    QuotedReadsBack(values);
  }
}
