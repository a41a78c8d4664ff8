/**
 * The two upload form requests in front of the bulk import: which uploads
 * and which semester names they let through, and the messages they give.
 *
 * Each field is validated rule by rule in the order the request lists its
 * rules; every failing rule adds its message, except that a failing
 * `required` stops the field's remaining rules.
 */
module UploadRequests {
  import opened Php

  /**
   * An uploaded file as the validator sees it: the extension guessed from its
   * content, the MIME type detected from its content and its size in bytes.
   */
  datatype UploadedFile = UploadedFile(guessedExtension: string, mimeType: string, size: nat)

  /**
   * The `file` input: nothing usable (absent, null or blank), a value that is
   * not an uploaded file (with the measure the size rules take of it), or an
   * uploaded file.
   */
  datatype FileInput = NoFile | NotAFile(measure: nat) | Uploaded(file: UploadedFile)

  /**
   * The `semester` input: absent or null, a string, or a value of another kind
   * (an array, say, with the measure the size rules take of it).
   */
  datatype TextInput = NoText | Text(s: string) | NotText(measure: nat)

  /** `max:10240` on a file is in kilobytes of 1024 bytes. */
  const MaxKilobytes: nat := 10240
  const MaxBytes: nat := MaxKilobytes * 1024

  const FileRequiredMessage := "Please select a file to upload."
  const FileInvalidMessage := "The uploaded file is not valid."
  const FileTypeMessage := "The file must be a CSV, XLS, or XLSX file."
  const FileSizeMessage := "The file size must not exceed 10MB."

  const SemesterRequiredMessage := "Semester is required."
  const SemesterStringMessage := "Semester must be a valid string."
  const SemesterMaxMessage := "Semester must not exceed 50 characters."
  const SemesterRegexMessage := "Semester contains invalid characters."

  const CourseExtensions: set<string> := {"csv", "xlsx", "xls"}

  const StudentMimeTypes: set<string> := {
    "text/csv", "text/plain", "application/csv", "application/excel",
    "application/vnd.ms-excel", "application/vnd.msexcel",
    "application/vnd.openxmlformats-officedocument.spreadsheetml.sheet"
  }

  /** `mimes:csv,xlsx,xls`: judged by the extension guessed from the content. */
  predicate CourseTypeAccepted(u: UploadedFile) {
    u.guessedExtension in CourseExtensions
  }

  /** The `mimetypes:` list of the student upload: judged by the detected MIME type. */
  predicate StudentTypeAccepted(u: UploadedFile) {
    u.mimeType in StudentMimeTypes
  }

  /** `max:10240` on an uploaded file: its size in kilobytes is at most 10240. */
  predicate SizeAccepted(u: UploadedFile) {
    u.size <= MaxBytes
  }

  /**
   * The rules `required`, `file`, the type rule and `max:10240` on the `file`
   * input, with the type rule given by `typeAccepted`.
   */
  function FileErrors(input: FileInput, typeAccepted: UploadedFile -> bool): (r: seq<string>)
    ensures input.NoFile? ==> r == [FileRequiredMessage]
    ensures r == [] <==> input.Uploaded? && typeAccepted(input.file) && SizeAccepted(input.file)
    ensures FileInvalidMessage in r <==> input.NotAFile?
    ensures input.Uploaded? ==>
              (FileTypeMessage in r <==> !typeAccepted(input.file))
              && (FileSizeMessage in r <==> !SizeAccepted(input.file))
  {
    match input
    case NoFile => [FileRequiredMessage]
    case NotAFile(m) =>
      // `file` and the type rule both refuse a value that is not a file.
      [FileInvalidMessage, FileTypeMessage] + (if m <= MaxKilobytes then [] else [FileSizeMessage])
    case Uploaded(u) =>
      (if typeAccepted(u) then [] else [FileTypeMessage])
      + (if SizeAccepted(u) then [] else [FileSizeMessage])
  }

  /** A character of the class `[a-zA-Z0-9\s\-_]`; `\s` is space, \t, \n, \v, \f and \r. */
  predicate IsSemesterChar(c: char) {
    ('a' <= c <= 'z') || ('A' <= c <= 'Z') || ('0' <= c <= '9')
    || c == ' ' || c == '\t' || c == '\n' || c == '\U{0B}' || c == '\U{0C}' || c == '\r'
    || c == '-' || c == '_'
  }

  /** `regex:/^[a-zA-Z0-9\s\-_]+$/`: one or more characters, all of the class. */
  predicate MatchesSemesterPattern(s: string) {
    s != [] && forall i :: 0 <= i < |s| ==> IsSemesterChar(s[i])
  }

  /** The rules `required`, `string`, `max:50` and the pattern on `semester`. */
  function SemesterErrors(input: TextInput): (r: seq<string>)
    ensures r == [] <==>
              input.Text? && Trim(input.s) != "" && |input.s| <= 50 && MatchesSemesterPattern(input.s)
    ensures SemesterRequiredMessage in r ==> r == [SemesterRequiredMessage]
    ensures input.Text? && Trim(input.s) != "" ==>
              (SemesterMaxMessage in r <==> |input.s| > 50)
              && (SemesterRegexMessage in r <==> !MatchesSemesterPattern(input.s))
  {
    match input
    case NoText => [SemesterRequiredMessage]
    case Text(s) =>
      if Trim(s) == "" then [SemesterRequiredMessage]
      else
        (if |s| <= 50 then [] else [SemesterMaxMessage])
        + (if MatchesSemesterPattern(s) then [] else [SemesterRegexMessage])
    case NotText(m) =>
      // `string` and the pattern both refuse a value that is not a string.
      [SemesterStringMessage] + (if m <= 50 then [] else [SemesterMaxMessage]) + [SemesterRegexMessage]
  }

  /** The messages of a failed validation, field by field. */
  datatype CourseUploadErrors = CourseUploadErrors(file: seq<string>, semester: seq<string>)

  /** `ImportCoursesRequest`: every user is authorised; the two fields are validated independently. */
  function ValidateCourseUpload(file: FileInput, semester: TextInput): (r: CourseUploadErrors)
    ensures r.file == [] <==>
              file.Uploaded? && file.file.guessedExtension in {"csv", "xlsx", "xls"}
              && file.file.size <= 10485760
    ensures r.semester == [] <==>
              semester.Text? && Trim(semester.s) != "" && |semester.s| <= 50
              && MatchesSemesterPattern(semester.s)
  {
    CourseUploadErrors(FileErrors(file, CourseTypeAccepted), SemesterErrors(semester))
  }

  /** `ImportStudentsRequest`: every user is authorised; only the file is validated. */
  function ValidateStudentUpload(file: FileInput): (r: seq<string>)
    ensures r == [] <==> file.Uploaded? && file.file.mimeType in StudentMimeTypes && file.file.size <= 10485760
    ensures file.NoFile? ==> r == [FileRequiredMessage]
  {
    FileErrors(file, StudentTypeAccepted)
  }

  /** A semester name with a character outside the class is refused with the pattern message only. */
  lemma InvalidSemesterRefused()
    ensures SemesterErrors(Text("Fall@2025!")) == [SemesterRegexMessage]
  {
    var s := "Fall@2025!";
    assert !IsSemesterChar(s[4]);
    assert !IsTrimChar(s[0]) && !IsTrimChar(s[|s| - 1]);
    TrimLeftOfClean(s);
    TrimRightOfClean(s);
  }

  /** A plain semester name such as "Fall 2025" passes. */
  lemma PlainSemesterAccepted()
    ensures SemesterErrors(Text("Fall 2025")) == []
  {
    var s := "Fall 2025";
    TrimLeftOfClean(s);
    TrimRightOfClean(s);
  }

  /** A semester of spaces only counts as missing, so the other rules are not reported. */
  lemma BlankSemesterIsMissing(n: nat)
    requires n > 0
    ensures SemesterErrors(Text(Repeat(' ', n))) == [SemesterRequiredMessage]
  {
    BlankTrims(n);
  }

  lemma {:induction false} BlankTrims(n: nat)
    ensures TrimLeft(Repeat(' ', n)) == ""
  {
    if n > 0 {
      BlankTrims(n - 1);
      assert Repeat(' ', n)[1..] == Repeat(' ', n - 1);
    }
  }
}
