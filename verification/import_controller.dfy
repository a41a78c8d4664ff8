/**
 * The bulk import endpoints: `importStudents` and `importCourses` with their
 * row loops. The database is a pair of in-memory tables; a transaction is a
 * snapshot of the table that a rollback restores. What the database does
 * that the model cannot see (a write that raises, a lookup that raises) is
 * an input: a map from data-row index to the fault raised there.
 */
module ImportController {
  import opened Wrappers
  import opened Php
  import opened ImportRules

  /** A persistence fault raised while one data row is handled. */
  datatype Fault =
    | WriteError(cause: string)  // the create or update raises; the row is counted as failed
    | QueryError(cause: string)  // the existence lookup raises; the whole import rolls back

  /** The loop's accumulators together with the table the loop writes to. */
  datatype Progress<R> = Progress(table: seq<R>, successful: nat, failed: nat, messages: seq<RowMessage>)

  /** The `data` part of a successful import response. */
  datatype ImportResult = ImportResult(
    successful: nat, failed: nat, errors: seq<string>, totalProcessed: nat, semester: Option<string>)

  datatype Response = Response(status: nat, success: bool, message: string, data: Option<ImportResult>)

  /** The table after an import call, and the JSON response. */
  datatype Outcome<R> = Outcome(table: seq<R>, response: Response)

  function Fail(status: nat, message: string): Response {
    Response(status, false, message, None)
  }

  function RenderAll(messages: seq<RowMessage>): (r: seq<string>)
    ensures |r| == |messages|
    ensures forall k :: 0 <= k < |messages| ==> r[k] == Render(messages[k])
  {
    seq(|messages|, k requires 0 <= k < |messages| => Render(messages[k]))
  }

  function Summary<R>(p: Progress<R>, semester: Option<string>): ImportResult {
    ImportResult(p.successful, p.failed, RenderAll(p.messages), p.successful + p.failed, semester)
  }

  function FaultAt(faults: map<nat, Fault>, i: nat): Option<Fault> {
    if i in faults then Some(faults[i]) else None
  }

  /** An attribute the row supplies replaces the stored one; an unsupplied one is kept. */
  function Or<T>(supplied: Option<T>, stored: Option<T>): Option<T> {
    if supplied.Some? then supplied else stored
  }

  // ----- students -----

  function StudentIds(table: seq<StudentRecord>): set<int> {
    set r | r in table :: r.universityId
  }

  /** No two rows share a university id. */
  predicate UniqueStudentIds(table: seq<StudentRecord>) {
    forall i, j :: 0 <= i < j < |table| ==> table[i].universityId != table[j].universityId
  }

  /** `Student::where('university_id', $id)->first()`: the index of the first row with that id. */
  function FindStudent(table: seq<StudentRecord>, id: int): (r: Option<nat>)
    ensures r.Some? ==> r.value < |table| && table[r.value].universityId == id
    ensures r.Some? ==> forall j :: 0 <= j < r.value ==> table[j].universityId != id
    ensures r.None? <==> id !in StudentIds(table)
    ensures r.None? ==> forall j :: 0 <= j < |table| ==> table[j].universityId != id
  {
    if table == [] then None
    else if table[0].universityId == id then Some(0)
    else
      var r := FindStudent(table[1..], id);
      assert StudentIds(table) == {table[0].universityId} + StudentIds(table[1..]);
      if r.None? then None else Some(r.value + 1)
  }

  /** `$existingStudent->update(array_filter(...))`: supplied attributes overwrite, unsupplied ones are kept. */
  function MergeStudent(stored: StudentRecord, patch: StudentRecord): (r: StudentRecord)
    ensures r.universityId == patch.universityId && r.name == patch.name
    ensures patch.campus.Some? ==> r.campus == patch.campus
    ensures patch.school.Some? ==> r.school == patch.school
    ensures patch.major.Some? ==> r.major == patch.major
    ensures patch.semester.Some? ==> r.semester == patch.semester
    ensures patch.year.Some? ==> r.year == patch.year
    ensures patch.campus.None? ==> r.campus == stored.campus
    ensures patch.school.None? ==> r.school == stored.school
    ensures patch.major.None? ==> r.major == stored.major
    ensures patch.semester.None? ==> r.semester == stored.semester
    ensures patch.year.None? ==> r.year == stored.year
  {
    StudentRecord(
      patch.name, patch.universityId, Or(patch.campus, stored.campus), Or(patch.school, stored.school),
      Or(patch.major, stored.major), Or(patch.semester, stored.semester), Or(patch.year, stored.year))
  }

  /** Row `k` is the first row with university id `id`, the one `first()` returns. */
  predicate FirstStudentWith(table: seq<StudentRecord>, k: nat, id: int) {
    k < |table| && table[k].universityId == id && forall j :: 0 <= j < k ==> table[j].universityId != id
  }

  /** Update the first row with the patch's university id, or create a row from the patch. */
  function UpsertStudent(table: seq<StudentRecord>, patch: StudentRecord): (r: seq<StudentRecord>)
    ensures forall k: nat :: FirstStudentWith(table, k, patch.universityId) ==>
              r == table[k := MergeStudent(table[k], patch)]
    ensures patch.universityId !in StudentIds(table) ==> r == table + [patch]
    ensures StudentIds(r) == StudentIds(table) + {patch.universityId}
    ensures |r| == |table| + (if patch.universityId in StudentIds(table) then 0 else 1)
    ensures forall j :: 0 <= j < |table| && table[j].universityId != patch.universityId ==> r[j] == table[j]
    ensures UniqueStudentIds(table) ==> UniqueStudentIds(r)
  {
    match FindStudent(table, patch.universityId)
    case Some(k) =>
      ReplaceKeepsIds(table, k, MergeStudent(table[k], patch));
      assert forall k': nat :: FirstStudentWith(table, k', patch.universityId) ==> k' == k;
      table[k := MergeStudent(table[k], patch)]
    case None => table + [patch]
  }

  /** Replacing a row by one with the same university id keeps the ids and their uniqueness. */
  lemma ReplaceKeepsIds(table: seq<StudentRecord>, k: nat, m: StudentRecord)
    requires k < |table| && m.universityId == table[k].universityId
    ensures StudentIds(table[k := m]) == StudentIds(table)
    ensures UniqueStudentIds(table) ==> UniqueStudentIds(table[k := m])
  {
    var r := table[k := m];
    forall x | x in StudentIds(r) ensures x in StudentIds(table) {
      var y :| y in r && y.universityId == x;
      var j :| 0 <= j < |r| && r[j] == y;
      assert table[j].universityId == x;
    }
    forall x | x in StudentIds(table) ensures x in StudentIds(r) {
      var y :| y in table && y.universityId == x;
      var j :| 0 <= j < |table| && table[j] == y;
      assert r[j].universityId == x;
    }
  }

  /** What the loop makes of one data row before it touches the database. */
  datatype RowCheck<R> =
    | Blank                    // skipped without being counted
    | Rejected(issue: Issue)   // counted as failed, with this message
    | Accepted(record: R)      // goes on to the lookup and the write

  /** The student loop up to the lookup: skip a blank row, map the cells, check the required and numeric fields. */
  function CheckStudentRow(row: Row): (r: RowCheck<StudentRecord>)
    ensures r.Blank? <==> IsBlankRow(row)
    ensures r.Rejected? ==> r.issue in {MissingStudentFields, NonNumericUniversityId}
  {
    if IsBlankRow(row) then Blank
    else match ValidateStudent(MapStudentRow(row))
      case Failure(issue) => Rejected(issue)
      case Success(record) => Accepted(record)
  }

  /** Every data row checked, in file order. */
  function CheckStudentRows(rows: seq<Row>): (r: seq<RowCheck<StudentRecord>>)
    ensures |r| == |rows|
    decreases |rows|
  {
    if rows == [] then [] else CheckStudentRows(rows[..|rows| - 1]) + [CheckStudentRow(rows[|rows| - 1])]
  }

  lemma {:induction false} CheckStudentRowsPrefix(rows: seq<Row>, n: nat)
    requires n <= |rows|
    ensures CheckStudentRows(rows[..n]) == CheckStudentRows(rows)[..n]
    decreases |rows|
  {
    if n < |rows| {
      var init := rows[..|rows| - 1];
      CheckStudentRowsPrefix(init, n);
      assert init[..n] == rows[..n];
    } else {
      assert rows[..n] == rows;
    }
  }

  /** One iteration of the student loop, for the data row at `index` (file row `index + 2`). */
  function StudentStep(p: Progress<StudentRecord>, index: nat, check: RowCheck<StudentRecord>, faults: map<nat, Fault>)
    : Result<Progress<StudentRecord>, string>
  {
    match check
    case Blank => Success(p)
    case Rejected(issue) =>
      Success(p.(failed := p.failed + 1, messages := p.messages + [RowMessage(index + 2, issue)]))
    case Accepted(record) =>
      match FaultAt(faults, index)
      case Some(QueryError(cause)) => Failure(cause)
      case Some(WriteError(cause)) =>
        Success(p.(failed := p.failed + 1, messages := p.messages + [RowMessage(index + 2, DatabaseError(cause))]))
      case None =>
        Success(p.(table := UpsertStudent(p.table, record), successful := p.successful + 1))
  }

  /** The student loop over the checked data rows, or the message of the exception that aborts it. */
  function RunStudents(table: seq<StudentRecord>, checks: seq<RowCheck<StudentRecord>>, faults: map<nat, Fault>)
    : Result<Progress<StudentRecord>, string>
    decreases |checks|
  {
    if checks == [] then Success(Progress(table, 0, 0, []))
    else match RunStudents(table, checks[..|checks| - 1], faults)
      case Failure(e) => Failure(e)
      case Success(p) => StudentStep(p, |checks| - 1, checks[|checks| - 1], faults)
  }

  /** `importStudents`: parse, the row-count guard, the header check, then the transactional loop. */
  function StudentsImport(table: seq<StudentRecord>, extension: string, content: FileContent, faults: map<nat, Fault>)
    : Outcome<StudentRecord>
  {
    match ParseFile(extension, content)
    case Failure(e) => Outcome(table, Fail(500, "Import failed: " + e))
    case Success(data) =>
      if |data| < 2 then Outcome(table, Fail(400, "File is empty or invalid"))
      else if MissingStudentColumns(data[0]) != [] then
        Outcome(table, Fail(500, "Import failed: " + MissingColumnsMessage(MissingStudentColumns(data[0]))))
      else match RunStudents(table, CheckStudentRows(data[1..]), faults)
        case Failure(e) => Outcome(table, Fail(500, "Import failed: " + e))
        case Success(p) =>
          Outcome(p.table, Response(200, true, "Students imported successfully", Some(Summary(p, None))))
  }

  lemma {:induction false} RunStudentsFailurePersists(
    table: seq<StudentRecord>, rows: seq<RowCheck<StudentRecord>>, n: nat, faults: map<nat, Fault>)
    requires n <= |rows| && RunStudents(table, rows[..n], faults).Failure?
    ensures RunStudents(table, rows, faults) == RunStudents(table, rows[..n], faults)
    decreases |rows| - n
  {
    if n < |rows| {
      assert rows[..n + 1][..n] == rows[..n];
      RunStudentsFailurePersists(table, rows, n + 1, faults);
    } else {
      assert rows[..n] == rows;
    }
  }

  // ----- courses -----

  /** A stored section as the lookup sees it: a missing section reads as "". */
  function SectionKey(section: Option<string>): string {
    if section.Some? then section.value else ""
  }

  /** The natural key of a course: its code and its section. */
  function CourseKey(c: CourseRecord): (string, string) {
    (c.code, SectionKey(c.section))
  }

  function CourseKeys(table: seq<CourseRecord>): set<(string, string)> {
    set c | c in table :: CourseKey(c)
  }

  /** No two rows share a (code, section) key. */
  predicate UniqueCourseKeys(table: seq<CourseRecord>) {
    forall i, j :: 0 <= i < j < |table| ==> CourseKey(table[i]) != CourseKey(table[j])
  }

  /** Row `k` is the first row with this (code, section) key. */
  predicate FirstCourseWith(table: seq<CourseRecord>, k: nat, key: (string, string)) {
    k < |table| && CourseKey(table[k]) == key && forall j :: 0 <= j < k ==> CourseKey(table[j]) != key
  }

  /** The first course with this code and section; the corrected form of the lookup. */
  function FindCourse(table: seq<CourseRecord>, code: string, section: string): (r: Option<nat>)
    ensures r.Some? ==> r.value < |table| && CourseKey(table[r.value]) == (code, section)
    ensures r.Some? ==> forall j :: 0 <= j < r.value ==> CourseKey(table[j]) != (code, section)
    ensures r.None? <==> (code, section) !in CourseKeys(table)
    ensures r.None? ==> forall j :: 0 <= j < |table| ==> CourseKey(table[j]) != (code, section)
  {
    if table == [] then None
    else if CourseKey(table[0]) == (code, section) then Some(0)
    else
      var r := FindCourse(table[1..], code, section);
      assert CourseKeys(table) == {CourseKey(table[0])} + CourseKeys(table[1..]);
      if r.None? then None else Some(r.value + 1)
  }

  /** `$section ?: ''`: a falsy section, "" or "0", is looked up as "". */
  function LookedUpSection(section: string): (r: string)
    ensures section == "0" ==> r == ""
    ensures !IsEmptyString(section) ==> r == section
  {
    if IsEmptyString(section) then "" else section
  }

  /** A stored course the lookup as written selects: same code, and stored section equal to the looked-up one. */
  predicate MatchesAsWritten(c: CourseRecord, code: string, section: string) {
    c.code == code && c.section == Some(LookedUpSection(section))
  }

  /** Row `k` is the first row the lookup as written selects. */
  predicate FirstMatchAsWritten(table: seq<CourseRecord>, k: nat, code: string, section: string) {
    k < |table| && MatchesAsWritten(table[k], code, section)
    && forall j :: 0 <= j < k ==> !MatchesAsWritten(table[j], code, section)
  }

  /**
   * The lookup as written: `where('course_code', $code)->where('section', $section ?: '')`.
   * A section of "0" is falsy, so it is looked up as "", while the row is written with "0".
   */
  function FindCourseAsWritten(table: seq<CourseRecord>, code: string, section: string): (r: Option<nat>)
    ensures r.Some? ==> FirstMatchAsWritten(table, r.value, code, section)
    ensures r.None? <==> forall j :: 0 <= j < |table| ==> !MatchesAsWritten(table[j], code, section)
  {
    if table == [] then None
    else if MatchesAsWritten(table[0], code, section) then Some(0)
    else
      var r := FindCourseAsWritten(table[1..], code, section);
      if r.None? then None else Some(r.value + 1)
  }

  /** `$existingCourse->update(array_filter(...))`: supplied attributes overwrite, unsupplied ones are kept. */
  function MergeCourse(stored: CourseRecord, patch: CourseRecord): (r: CourseRecord)
    ensures r.code == patch.code && r.name == patch.name
    ensures patch.instructor.Some? ==> r.instructor == patch.instructor
    ensures patch.section.Some? ==> r.section == patch.section
    ensures patch.credits.Some? ==> r.credits == patch.credits
    ensures patch.room.Some? ==> r.room == patch.room
    ensures patch.schedule.Some? ==> r.schedule == patch.schedule
    ensures patch.days.Some? ==> r.days == patch.days
    ensures patch.time.Some? ==> r.time == patch.time
    ensures patch.school.Some? ==> r.school == patch.school
    ensures patch.instructor.None? ==> r.instructor == stored.instructor
    ensures patch.section.None? ==> r.section == stored.section
    ensures patch.credits.None? ==> r.credits == stored.credits
    ensures patch.room.None? ==> r.room == stored.room
    ensures patch.schedule.None? ==> r.schedule == stored.schedule
    ensures patch.days.None? ==> r.days == stored.days
    ensures patch.time.None? ==> r.time == stored.time
    ensures patch.school.None? ==> r.school == stored.school
  {
    CourseRecord(
      patch.code, patch.name, Or(patch.instructor, stored.instructor), Or(patch.section, stored.section),
      Or(patch.credits, stored.credits), Or(patch.room, stored.room), Or(patch.schedule, stored.schedule),
      Or(patch.days, stored.days), Or(patch.time, stored.time), Or(patch.school, stored.school))
  }

  /** The corrected upsert: update the first course with the patch's key, or create it. */
  function UpsertCourse(table: seq<CourseRecord>, patch: CourseRecord): (r: seq<CourseRecord>)
    ensures forall k: nat :: FirstCourseWith(table, k, CourseKey(patch)) ==> r == table[k := MergeCourse(table[k], patch)]
    ensures CourseKey(patch) !in CourseKeys(table) ==> r == table + [patch]
    ensures CourseKeys(r) == CourseKeys(table) + {CourseKey(patch)}
    ensures |r| == |table| + (if CourseKey(patch) in CourseKeys(table) then 0 else 1)
    ensures forall j :: 0 <= j < |table| && CourseKey(table[j]) != CourseKey(patch) ==> r[j] == table[j]
    ensures UniqueCourseKeys(table) ==> UniqueCourseKeys(r)
  {
    match FindCourse(table, patch.code, SectionKey(patch.section))
    case Some(k) =>
      ReplaceKeepsKeys(table, k, MergeCourse(table[k], patch));
      assert forall k': nat :: FirstCourseWith(table, k', CourseKey(patch)) ==> k' == k;
      table[k := MergeCourse(table[k], patch)]
    case None => table + [patch]
  }

  /** Replacing a course by one with the same key keeps the keys and their uniqueness. */
  lemma ReplaceKeepsKeys(table: seq<CourseRecord>, k: nat, m: CourseRecord)
    requires k < |table| && CourseKey(m) == CourseKey(table[k])
    ensures CourseKeys(table[k := m]) == CourseKeys(table)
    ensures UniqueCourseKeys(table) ==> UniqueCourseKeys(table[k := m])
  {
    var r := table[k := m];
    forall x | x in CourseKeys(r) ensures x in CourseKeys(table) {
      var y :| y in r && CourseKey(y) == x;
      var j :| 0 <= j < |r| && r[j] == y;
      assert CourseKey(table[j]) == x;
    }
    forall x | x in CourseKeys(table) ensures x in CourseKeys(r) {
      var y :| y in table && CourseKey(y) == x;
      var j :| 0 <= j < |table| && table[j] == y;
      assert CourseKey(r[j]) == x;
    }
  }

  /**
   * The upsert as written, with the falsy-section lookup: the first row the
   * lookup selects is updated, otherwise the patch is created; no row is
   * removed and every other row is kept.
   */
  function UpsertCourseAsWritten(table: seq<CourseRecord>, patch: CourseRecord): (r: seq<CourseRecord>)
    ensures forall k: nat :: FirstMatchAsWritten(table, k, patch.code, SectionKey(patch.section)) ==>
              r == table[k := MergeCourse(table[k], patch)]
    ensures (forall j :: 0 <= j < |table| ==> !MatchesAsWritten(table[j], patch.code, SectionKey(patch.section))) ==>
              r == table + [patch]
    ensures |table| <= |r| <= |table| + 1
  {
    match FindCourseAsWritten(table, patch.code, SectionKey(patch.section))
    case Some(k) =>
      assert forall k': nat :: FirstMatchAsWritten(table, k', patch.code, SectionKey(patch.section)) ==> k' == k;
      table[k := MergeCourse(table[k], patch)]
    case None => table + [patch]
  }

  /** Which lookup the course loop runs with: the controller's own, or the corrected one. */
  datatype CourseLookup = AsWritten | ByStoredSection

  /** The upsert of one accepted course row under the given lookup. */
  function UpsertCourseWith(lookup: CourseLookup, table: seq<CourseRecord>, patch: CourseRecord): seq<CourseRecord> {
    match lookup
    case AsWritten => UpsertCourseAsWritten(table, patch)
    case ByStoredSection => UpsertCourse(table, patch)
  }

  /** The warning a well-formed row with an unusual course code adds; it does not fail the row. */
  function CodeWarnings(index: nat, code: string): seq<RowMessage> {
    if CourseCodeLooksValid(code) then [] else [RowMessage(index + 2, CourseCodeWarning(code))]
  }

  /** The course loop up to the lookup: skip a blank row, map the cells, check the required fields. */
  function CheckCourseRow(row: Row): (r: RowCheck<CourseRecord>)
    ensures r.Blank? <==> IsBlankRow(row)
    ensures r.Rejected? ==> r.issue == MissingCourseFields
  {
    if IsBlankRow(row) then Blank
    else match ValidateCourse(MapCourseRow(row))
      case Failure(issue) => Rejected(issue)
      case Success(record) => Accepted(record)
  }

  /** Every data row checked, in file order. */
  function CheckCourseRows(rows: seq<Row>): (r: seq<RowCheck<CourseRecord>>)
    ensures |r| == |rows|
    decreases |rows|
  {
    if rows == [] then [] else CheckCourseRows(rows[..|rows| - 1]) + [CheckCourseRow(rows[|rows| - 1])]
  }

  lemma {:induction false} CheckCourseRowsPrefix(rows: seq<Row>, n: nat)
    requires n <= |rows|
    ensures CheckCourseRows(rows[..n]) == CheckCourseRows(rows)[..n]
    decreases |rows|
  {
    if n < |rows| {
      var init := rows[..|rows| - 1];
      CheckCourseRowsPrefix(init, n);
      assert init[..n] == rows[..n];
    } else {
      assert rows[..n] == rows;
    }
  }

  /** One iteration of the course loop, for the data row at `index`. */
  function CourseStep(lookup: CourseLookup, p: Progress<CourseRecord>, index: nat, check: RowCheck<CourseRecord>,
                      faults: map<nat, Fault>)
    : Result<Progress<CourseRecord>, string>
  {
    match check
    case Blank => Success(p)
    case Rejected(issue) =>
      Success(p.(failed := p.failed + 1, messages := p.messages + [RowMessage(index + 2, issue)]))
    case Accepted(record) =>
      var warned := p.messages + CodeWarnings(index, record.code);
      match FaultAt(faults, index)
      case Some(QueryError(cause)) => Failure(cause)
      case Some(WriteError(cause)) =>
        Success(p.(failed := p.failed + 1, messages := warned + [RowMessage(index + 2, DatabaseError(cause))]))
      case None =>
        Success(p.(table := UpsertCourseWith(lookup, p.table, record), successful := p.successful + 1, messages := warned))
  }

  /** The course loop over the checked data rows, or the message of the exception that aborts it. */
  function RunCourses(lookup: CourseLookup, table: seq<CourseRecord>, checks: seq<RowCheck<CourseRecord>>,
                      faults: map<nat, Fault>)
    : Result<Progress<CourseRecord>, string>
    decreases |checks|
  {
    if checks == [] then Success(Progress(table, 0, 0, []))
    else match RunCourses(lookup, table, checks[..|checks| - 1], faults)
      case Failure(e) => Failure(e)
      case Success(p) => CourseStep(lookup, p, |checks| - 1, checks[|checks| - 1], faults)
  }

  /** `importCourses`: as `importStudents`, with the course loop and the semester echoed back. */
  function CoursesImport(
    lookup: CourseLookup, table: seq<CourseRecord>, extension: string, content: FileContent, semester: string, faults: map<nat, Fault>)
    : Outcome<CourseRecord>
  {
    match ParseFile(extension, content)
    case Failure(e) => Outcome(table, Fail(500, "Import failed: " + e))
    case Success(data) =>
      if |data| < 2 then Outcome(table, Fail(400, "File is empty or invalid"))
      else if MissingCourseColumns(data[0]) != [] then
        Outcome(table, Fail(500, "Import failed: " + MissingColumnsMessage(MissingCourseColumns(data[0]))))
      else match RunCourses(lookup, table, CheckCourseRows(data[1..]), faults)
        case Failure(e) => Outcome(table, Fail(500, "Import failed: " + e))
        case Success(p) =>
          Outcome(p.table, Response(200, true, "Courses imported successfully", Some(Summary(p, Some(semester)))))
  }

  lemma {:induction false} RunCoursesFailurePersists(
    lookup: CourseLookup, table: seq<CourseRecord>, rows: seq<RowCheck<CourseRecord>>, n: nat, faults: map<nat, Fault>)
    requires n <= |rows| && RunCourses(lookup, table, rows[..n], faults).Failure?
    ensures RunCourses(lookup, table, rows, faults) == RunCourses(lookup, table, rows[..n], faults)
    decreases |rows| - n
  {
    if n < |rows| {
      assert rows[..n + 1][..n] == rows[..n];
      RunCoursesFailurePersists(lookup, table, rows, n + 1, faults);
    } else {
      assert rows[..n] == rows;
    }
  }

  /** The two tables the import writes to. */
  class Database {
    var students: seq<StudentRecord>
    var courses: seq<CourseRecord>

    constructor (students: seq<StudentRecord>, courses: seq<CourseRecord>)
      ensures this.students == students && this.courses == courses
    {
      this.students := students;
      this.courses := courses;
    }

    /**
     * The body of the student loop for the data row at `index`, once the row is checked: the
     * counters come in and go out; `abort` carries the message of an exception that escapes the
     * per-row handler.
     */
    method ProcessStudentRow(index: nat, check: RowCheck<StudentRecord>, faults: map<nat, Fault>,
                             successful: nat, failed: nat, messages: seq<RowMessage>)
      returns (abort: Option<string>, successful': nat, failed': nat, messages': seq<RowMessage>)
      modifies this
      ensures var expected := StudentStep(Progress(old(students), successful, failed, messages), index, check, faults);
        if abort.None? then expected == Success(Progress(students, successful', failed', messages'))
        else expected == Failure(abort.value) && students == old(students)
      ensures courses == old(courses)
    {
      abort, successful', failed', messages' := None, successful, failed, messages;
      if check.Blank? {
        return;
      }
      if check.Rejected? {
        failed' := failed + 1;
        messages' := messages + [RowMessage(index + 2, check.issue)];
        return;
      }
      var record := check.record;
      var fault := FaultAt(faults, index);
      if fault.Some? && fault.value.QueryError? {
        // the lookup raises outside the per-row handler
        return Some(fault.value.cause), successful, failed, messages;
      }
      var existing := FindStudent(students, record.universityId);
      if fault.Some? {
        failed' := failed + 1;
        messages' := messages + [RowMessage(index + 2, DatabaseError(fault.value.cause))];
      } else {
        if existing.Some? {
          students := students[existing.value := MergeStudent(students[existing.value], record)];
        } else {
          students := students + [record];
        }
        successful' := successful + 1;
      }
    }

    /**
     * The transactional loop of `processStudentsData` over the checked data rows: on success the
     * table holds the committed writes; when an exception escapes a row the snapshot is restored.
     */
    method ProcessStudents(checks: seq<RowCheck<StudentRecord>>, faults: map<nat, Fault>)
      returns (result: Result<Progress<StudentRecord>, string>)
      modifies this
      ensures result == RunStudents(old(students), checks, faults)
      ensures students == (if result.Success? then result.value.table else old(students))
      ensures courses == old(courses)
    {
      var snapshot := students;  // DB::beginTransaction()
      var successful, failed, messages := 0, 0, [];
      var i := 0;
      while i < |checks|
        invariant 0 <= i <= |checks|
        invariant courses == old(courses)
        invariant RunStudents(snapshot, checks[..i], faults) == Success(Progress(students, successful, failed, messages))
      {
        assert checks[..i + 1][..i] == checks[..i];
        var abort;
        abort, successful, failed, messages := ProcessStudentRow(i, checks[i], faults, successful, failed, messages);
        if abort.Some? {
          students := snapshot;  // DB::rollback(), then the exception is rethrown
          RunStudentsFailurePersists(snapshot, checks, i + 1, faults);
          return Failure(abort.value);
        }
        i := i + 1;
      }
      assert checks[..|checks|] == checks;
      // DB::commit()
      return Success(Progress(students, successful, failed, messages));
    }

    /** `importStudents`: the guards in front of the loop, and the response. */
    method ImportStudents(extension: string, content: FileContent, faults: map<nat, Fault>)
      returns (response: Response)
      modifies this
      ensures Outcome(students, response) == StudentsImport(old(students), extension, content, faults)
      ensures courses == old(courses)
    {
      var parsed := ParseFile(extension, content);
      if parsed.Failure? {
        return Fail(500, "Import failed: " + parsed.error);
      }
      var data := parsed.value;
      if |data| < 2 {
        return Fail(400, "File is empty or invalid");
      }
      var missing := MissingStudentColumns(data[0]);
      if missing != [] {
        return Fail(500, "Import failed: " + MissingColumnsMessage(missing));
      }
      var checks := CheckStudentRows(data[1..]);
      var result := ProcessStudents(checks, faults);
      if result.Failure? {
        return Fail(500, "Import failed: " + result.error);
      }
      return Response(200, true, "Students imported successfully", Some(Summary(result.value, None)));
    }

    /** The body of the course loop for the data row at `index`, once the row is checked. */
    method ProcessCourseRow(index: nat, check: RowCheck<CourseRecord>, faults: map<nat, Fault>,
                            successful: nat, failed: nat, messages: seq<RowMessage>)
      returns (abort: Option<string>, successful': nat, failed': nat, messages': seq<RowMessage>)
      modifies this
      ensures var expected :=
        CourseStep(AsWritten, Progress(old(courses), successful, failed, messages), index, check, faults);
        if abort.None? then expected == Success(Progress(courses, successful', failed', messages'))
        else expected == Failure(abort.value) && courses == old(courses)
      ensures students == old(students)
    {
      abort, successful', failed', messages' := None, successful, failed, messages;
      if check.Blank? {
        return;
      }
      if check.Rejected? {
        failed' := failed + 1;
        messages' := messages + [RowMessage(index + 2, check.issue)];
        return;
      }
      var record := check.record;
      messages' := messages + CodeWarnings(index, record.code);  // a warning only; the row goes on
      var fault := FaultAt(faults, index);
      if fault.Some? && fault.value.QueryError? {
        return Some(fault.value.cause), successful, failed, messages;
      }
      var existing := FindCourseAsWritten(courses, record.code, SectionKey(record.section));
      if fault.Some? {
        failed' := failed + 1;
        messages' := messages' + [RowMessage(index + 2, DatabaseError(fault.value.cause))];
      } else {
        if existing.Some? {
          courses := courses[existing.value := MergeCourse(courses[existing.value], record)];
        } else {
          courses := courses + [record];
        }
        successful' := successful + 1;
      }
    }

    /** The transactional loop of `processCoursesData`. */
    method ProcessCourses(checks: seq<RowCheck<CourseRecord>>, faults: map<nat, Fault>)
      returns (result: Result<Progress<CourseRecord>, string>)
      modifies this
      ensures result == RunCourses(AsWritten, old(courses), checks, faults)
      ensures courses == (if result.Success? then result.value.table else old(courses))
      ensures students == old(students)
    {
      var snapshot := courses;  // DB::beginTransaction()
      var successful, failed, messages := 0, 0, [];
      var i := 0;
      while i < |checks|
        invariant 0 <= i <= |checks|
        invariant students == old(students)
        invariant RunCourses(AsWritten, snapshot, checks[..i], faults)
                  == Success(Progress(courses, successful, failed, messages))
      {
        assert checks[..i + 1][..i] == checks[..i];
        var abort;
        abort, successful, failed, messages := ProcessCourseRow(i, checks[i], faults, successful, failed, messages);
        if abort.Some? {
          courses := snapshot;  // DB::rollback(), then the exception is rethrown
          RunCoursesFailurePersists(AsWritten, snapshot, checks, i + 1, faults);
          return Failure(abort.value);
        }
        i := i + 1;
      }
      assert checks[..|checks|] == checks;
      // DB::commit()
      return Success(Progress(courses, successful, failed, messages));
    }

    /** `importCourses`: the guards in front of the loop, and the response echoing the semester. */
    method ImportCourses(extension: string, content: FileContent, semester: string, faults: map<nat, Fault>)
      returns (response: Response)
      modifies this
      ensures Outcome(courses, response) == CoursesImport(AsWritten, old(courses), extension, content, semester, faults)
      ensures students == old(students)
    {
      var parsed := ParseFile(extension, content);
      if parsed.Failure? {
        return Fail(500, "Import failed: " + parsed.error);
      }
      var data := parsed.value;
      if |data| < 2 {
        return Fail(400, "File is empty or invalid");
      }
      var missing := MissingCourseColumns(data[0]);
      if missing != [] {
        return Fail(500, "Import failed: " + MissingColumnsMessage(missing));
      }
      var checks := CheckCourseRows(data[1..]);
      var result := ProcessCourses(checks, faults);
      if result.Failure? {
        return Fail(500, "Import failed: " + result.error);
      }
      return Response(200, true, "Courses imported successfully", Some(Summary(result.value, Some(semester))));
    }
  }
}
