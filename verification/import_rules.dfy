/**
 * The pure parts of the bulk import: choosing a reader by file extension,
 * the header checks, blank-row detection, mapping cells to attributes by
 * column position, the per-row validation and the course-code pattern.
 */
module ImportRules {
  import opened Wrappers
  import opened Php

  /** One parsed row: its cells in column order. */
  type Row = seq<string>

  /**
   * What the two readers make of the uploaded bytes: the rows the CSV reader
   * returns, and either the rows of the first worksheet or the spreadsheet
   * library's parse error.
   */
  datatype FileContent = FileContent(csvRows: seq<Row>, sheet: Result<seq<Row>, string>)

  /**
   * `parseFile`: the extension is lower-cased; "csv" selects the CSV reader,
   * "xlsx" and "xls" the spreadsheet reader, anything else is refused.
   */
  function ParseFile(extension: string, content: FileContent): (r: Result<seq<Row>, string>)
    ensures ToLower(extension) == "csv" ==> r == Success(content.csvRows)
    ensures ToLower(extension) in {"xlsx", "xls"} ==>
              r == (match content.sheet
                    case Success(rows) => Success(rows)
                    case Failure(e) => Failure("Error parsing Excel file: " + e))
    ensures ToLower(extension) !in {"csv", "xlsx", "xls"} ==> r == Failure("Unsupported file format")
  {
    var ext := ToLower(extension);
    if ext == "csv" then Success(content.csvRows)
    else if ext == "xlsx" || ext == "xls" then
      match content.sheet
      case Success(rows) => Success(rows)
      case Failure(e) => Failure("Error parsing Excel file: " + e)
    else Failure("Unsupported file format")
  }

  /** The extension test is case-insensitive: "CSV", "Csv" and "csv" pick the same reader. */
  lemma ExtensionCaseInsensitive(extension: string, content: FileContent)
    requires ToLower(extension) == "csv"
    ensures ParseFile(extension, content) == ParseFile("csv", content)
  {
    assert ToLower("csv") == "csv";
  }

  const StudentColumns: seq<string> :=
    ["student_name", "university_id", "campus", "school", "major", "semester", "year"]

  const CourseColumns: seq<string> :=
    ["course_code", "course_name", "instructor", "section", "credits", "room", "schedule", "days", "time", "school"]

  /** `array_slice($s, 0, $n)`. */
  function Take(s: seq<string>, n: nat): (r: seq<string>)
    ensures |r| <= n && |r| <= |s| && r == s[..|r|]
    ensures |s| >= n ==> |r| == n
  {
    if |s| <= n then s else s[..n]
  }

  /** `array_diff($expected, $present)`: the expected names that are not present, in order. */
  function Missing(expected: seq<string>, present: seq<string>): (r: seq<string>)
    ensures forall x :: x in r <==> x in expected && x !in present
    ensures |r| <= |expected|
    ensures (forall x :: x in expected ==> x !in present) ==> r == expected
  {
    if expected == [] then []
    else (if expected[0] in present then [] else [expected[0]]) + Missing(expected[1..], present)
  }

  /**
   * The missing names of a concatenation are those of its parts, one after the other:
   * `Missing` keeps the order of `expected`.
   */
  lemma {:induction false} MissingAppend(a: seq<string>, b: seq<string>, present: seq<string>)
    ensures Missing(a + b, present) == Missing(a, present) + Missing(b, present)
    decreases |a|
  {
    if a == [] {
      assert a + b == b;
    } else {
      assert (a + b)[0] == a[0];
      assert (a + b)[1..] == a[1..] + b;
      MissingAppend(a[1..], b, present);
    }
  }

  /** A single name is missing exactly when it is not present. */
  lemma MissingSingle(x: string, present: seq<string>)
    ensures Missing([x], present) == if x in present then [] else [x]
  {
    assert [x][1..] == [];
  }

  /** The student header must name all seven columns among its first seven cells, in any order. */
  function MissingStudentColumns(header: Row): (r: seq<string>)
    ensures r == [] <==> forall x :: x in StudentColumns ==> x in Take(header, 7)
  {
    var r := Missing(StudentColumns, Take(header, |StudentColumns|));
    assert r != [] ==> r[0] in r;
    r
  }

  /** The course header is only checked for "course_code" and "course_name" among its first two cells. */
  function MissingCourseColumns(header: Row): (r: seq<string>)
    ensures r == [] <==> "course_code" in Take(header, 2) && "course_name" in Take(header, 2)
  {
    assert CourseColumns[..2] == ["course_code", "course_name"];
    var r := Missing(CourseColumns[..2], Take(header, 2));
    assert r != [] ==> r[0] in r;
    r
  }

  /** The message of the exception a failed header check raises. */
  function MissingColumnsMessage(missing: seq<string>): string {
    "Missing required columns in CSV: " + Join(missing, ", ")
  }

  /** `empty(array_filter($row))`: every cell is "" or "0" (cells are not trimmed first). */
  predicate IsBlankRow(row: Row) {
    forall i :: 0 <= i < |row| ==> IsEmptyString(row[i])
  }

  /** `$row[$i] ?? ''`. */
  function Cell(row: Row, i: nat): string {
    if i < |row| then row[i] else ""
  }

  /** `is_numeric($cell) ? intval($cell) : null`, applied to the untrimmed cell. */
  function NumericOrNull(cell: string): (r: Option<int>)
    ensures r.Some? <==> IsNumeric(cell)
    ensures r.Some? ==> PhpIntMin <= r.value <= PhpIntMax
    ensures r.Some? && PhpIntMin <= NumericValue(cell) <= PhpIntMax ==> r.value == NumericValue(cell)
  {
    if IsNumeric(cell) then Some(IntVal(cell)) else None
  }

  /** The array_filter callback: an attribute is written only when it is not null and not "". */
  function Supplied(s: string): (r: Option<string>)
    ensures r.None? <==> s == ""
    ensures r.Some? ==> r.value == s
  {
    if s == "" then None else Some(s)
  }

  /** A student row after column mapping (cells 0-5 trimmed, cell 6 converted). */
  datatype StudentFields = StudentFields(
    name: string, universityId: string, campus: string, school: string,
    major: string, semester: string, year: Option<int>)

  function MapStudentRow(row: Row): StudentFields {
    StudentFields(
      Trim(Cell(row, 0)), Trim(Cell(row, 1)), Trim(Cell(row, 2)), Trim(Cell(row, 3)),
      Trim(Cell(row, 4)), Trim(Cell(row, 5)), NumericOrNull(Cell(row, 6)))
  }

  /**
   * A student's attributes as the table stores them and as one import row
   * supplies them: None is an attribute the row did not supply.
   */
  datatype StudentRecord = StudentRecord(
    name: string, universityId: int, campus: Option<string>, school: Option<string>,
    major: Option<string>, semester: Option<string>, year: Option<int>)

  /** Why a row was reported. Only `CourseCodeWarning` leaves the row successful. */
  datatype Issue =
    | MissingStudentFields
    | NonNumericUniversityId
    | MissingCourseFields
    | CourseCodeWarning(code: string)
    | DatabaseError(cause: string)
  {
    predicate IsWarning() {
      CourseCodeWarning?
    }

    function Text(): string {
      match this
      case MissingStudentFields => "Missing required fields (student_name, university_id)"
      case NonNumericUniversityId => "University ID must be numeric"
      case MissingCourseFields => "Missing required fields (course_code, course_name)"
      case CourseCodeWarning(code) => "Warning - Course code format may be invalid: " + code
      case DatabaseError(cause) => "Database error - " + cause
    }
  }

  /** One entry of the `errors` list; `row` is the 1-based file line (the header is row 1). */
  datatype RowMessage = RowMessage(row: nat, issue: Issue)

  function Render(m: RowMessage): string {
    "Row " + NatToString(m.row) + ": " + m.issue.Text()
  }

  /**
   * Required-field and numeric checks of one mapped student row; on success,
   * the attributes that will be written.
   */
  function ValidateStudent(f: StudentFields): (r: Result<StudentRecord, Issue>)
    ensures r.Failure? <==> IsEmptyString(f.name) || IsEmptyString(f.universityId) || !IsNumeric(f.universityId)
    ensures r.Failure? ==> r.error == (if IsEmptyString(f.name) || IsEmptyString(f.universityId)
                                      then MissingStudentFields else NonNumericUniversityId)
    ensures r.Success? ==> r.value.name == f.name && r.value.universityId == IntVal(f.universityId)
                           && r.value.year == f.year
                           && (r.value.campus.None? <==> f.campus == "")
                           && (r.value.major.None? <==> f.major == "")
    ensures r.Success? ==> r.value.campus == Supplied(f.campus) && r.value.school == Supplied(f.school)
                           && r.value.major == Supplied(f.major) && r.value.semester == Supplied(f.semester)
  {
    if IsEmptyString(f.name) || IsEmptyString(f.universityId) then Failure(MissingStudentFields)
    else if !IsNumeric(f.universityId) then Failure(NonNumericUniversityId)
    else Success(StudentRecord(
      f.name, IntVal(f.universityId), Supplied(f.campus), Supplied(f.school),
      Supplied(f.major), Supplied(f.semester), f.year))
  }

  /** A course row after column mapping (cell 4 converted, the others trimmed). */
  datatype CourseFields = CourseFields(
    code: string, name: string, instructor: string, section: string, credits: Option<int>,
    room: string, schedule: string, days: string, time: string, school: string)

  function MapCourseRow(row: Row): CourseFields {
    CourseFields(
      Trim(Cell(row, 0)), Trim(Cell(row, 1)), Trim(Cell(row, 2)), Trim(Cell(row, 3)),
      NumericOrNull(Cell(row, 4)), Trim(Cell(row, 5)), Trim(Cell(row, 6)), Trim(Cell(row, 7)),
      Trim(Cell(row, 8)), Trim(Cell(row, 9)))
  }

  /** A course's attributes as stored and as supplied by one import row. */
  datatype CourseRecord = CourseRecord(
    code: string, name: string, instructor: Option<string>, section: Option<string>,
    credits: Option<int>, room: Option<string>, schedule: Option<string>, days: Option<string>,
    time: Option<string>, school: Option<string>)

  /** Required-field check of one mapped course row; on success, the attributes that will be written. */
  function ValidateCourse(f: CourseFields): (r: Result<CourseRecord, Issue>)
    ensures r.Failure? <==> IsEmptyString(f.code) || IsEmptyString(f.name)
    ensures r.Failure? ==> r.error == MissingCourseFields
    ensures r.Success? ==> r.value.code == f.code && r.value.name == f.name
                           && r.value.credits == f.credits
                           && (r.value.section.None? <==> f.section == "")
    ensures r.Success? ==> r.value.instructor == Supplied(f.instructor) && r.value.section == Supplied(f.section)
                           && r.value.room == Supplied(f.room) && r.value.schedule == Supplied(f.schedule)
                           && r.value.days == Supplied(f.days) && r.value.time == Supplied(f.time)
                           && r.value.school == Supplied(f.school)
  {
    if IsEmptyString(f.code) || IsEmptyString(f.name) then Failure(MissingCourseFields)
    else Success(CourseRecord(
      f.code, f.name, Supplied(f.instructor), Supplied(f.section), f.credits, Supplied(f.room),
      Supplied(f.schedule), Supplied(f.days), Supplied(f.time), Supplied(f.school)))
  }

  /** `[A-Z]` under the case-insensitive flag. */
  predicate IsAsciiLetter(c: char) {
    'A' <= c <= 'Z' || 'a' <= c <= 'z'
  }

  predicate AllLetters(s: string) {
    forall i :: 0 <= i < |s| ==> IsAsciiLetter(s[i])
  }

  /** Length of the leading run of letters. */
  function LetterRun(s: string): (n: nat)
    ensures n <= |s| && forall i :: 0 <= i < n ==> IsAsciiLetter(s[i])
    ensures n < |s| ==> !IsAsciiLetter(s[n])
  {
    if s != [] && IsAsciiLetter(s[0]) then 1 + LetterRun(s[1..]) else 0
  }

  /** Length of the leading run of decimal digits. */
  function DigitRun(s: string): (n: nat)
    ensures n <= |s| && forall i :: 0 <= i < n ==> IsDigit(s[i])
    ensures n < |s| ==> !IsDigit(s[n])
  {
    if s != [] && IsDigit(s[0]) then 1 + DigitRun(s[1..]) else 0
  }

  /**
   * The course-code pattern `^[A-Z]{2,4}\d{3,4}[A-Z]?$` (case-insensitive),
   * matched the way the regular expression engine does: letters and digits
   * are disjoint, so each quantifier takes the whole run in front of it.
   */
  predicate CourseCodeLooksValid(code: string) {
    var a := LetterRun(code);
    var rest := code[a..];
    var d := DigitRun(rest);
    var tail := rest[d..];
    2 <= a <= 4 && 3 <= d <= 4 && (tail == [] || (|tail| == 1 && IsAsciiLetter(tail[0])))
  }

  /** One way of reading `code` as a letters part of length `a`, a digits part of length `d` and an optional letter. */
  ghost predicate SplitMatches(code: string, a: nat, d: nat) {
    2 <= a <= 4 && 3 <= d <= 4 && a + d <= |code| &&
    AllLetters(code[..a]) && AllDigits(code[a..a + d]) &&
    (|code| == a + d || (|code| == a + d + 1 && IsAsciiLetter(code[a + d])))
  }

  /** The pattern stated directly: some split into 2-4 letters, 3-4 digits and at most one letter. */
  ghost predicate MatchesCoursePattern(code: string) {
    exists a: nat, d: nat :: SplitMatches(code, a, d)
  }

  /** The run-based matcher accepts exactly the strings the pattern describes. */
  lemma CourseCodeMatcherCorrect(code: string)
    ensures CourseCodeLooksValid(code) <==> MatchesCoursePattern(code)
  {
    if CourseCodeLooksValid(code) {
      MatcherSound(code);
    }
    if MatchesCoursePattern(code) {
      var a, d :| SplitMatches(code, a, d);
      MatcherComplete(code, a, d);
    }
  }

  lemma MatcherSound(code: string)
    requires CourseCodeLooksValid(code)
    ensures SplitMatches(code, LetterRun(code), DigitRun(code[LetterRun(code)..]))
  {
    var a := LetterRun(code);
    var rest := code[a..];
    var d := DigitRun(rest);
    assert rest[..d] == code[a..a + d];
    if rest[d..] != [] {
      assert code[a + d] == rest[d..][0];
    }
  }

  lemma MatcherComplete(code: string, a: nat, d: nat)
    requires SplitMatches(code, a, d)
    ensures CourseCodeLooksValid(code)
  {
    assert IsDigit(code[a..a + d][0]);
    LetterRunIs(code, a);
    var rest := code[a..];
    assert rest[..d] == code[a..a + d];
    DigitRunIs(rest, d, |code| - a - d);
    assert rest[d..] == code[a + d..];
  }
  lemma {:induction false} LetterRunIs(s: string, k: nat)
    requires k < |s| && AllLetters(s[..k]) && !IsAsciiLetter(s[k])
    ensures LetterRun(s) == k
  {
    if k > 0 {
      assert IsAsciiLetter(s[..k][0]);
      assert s[1..][..k - 1] == s[..k][1..];
      LetterRunIs(s[1..], k - 1);
    }
  }

  lemma {:induction false} DigitRunIs(s: string, k: nat, extra: nat)
    requires k <= |s| && AllDigits(s[..k]) && |s| == k + extra && extra <= 1
    requires extra == 1 ==> IsAsciiLetter(s[k])
    ensures DigitRun(s) == k
  {
    if k > 0 {
      assert IsDigit(s[..k][0]);
      assert s[1..][..k - 1] == s[..k][1..];
      DigitRunIs(s[1..], k - 1, extra);
    } else if extra == 1 {
      assert !IsDigit(s[0]);
    }
  }
}
