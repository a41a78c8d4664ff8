# EDUadmin back end — a verified model of its core

EDUadmin is a Laravel back end for a university's academic administration.
This project models in Dafny the parts of it that make decisions, and proves
what those decisions promise:

- **Bulk import of students and courses** (`ImportController`):
  - picking a reader by file extension;
  - the header checks and skipping blank rows;
  - mapping cells to columns by position;
  - the per-row checks;
  - the upsert by natural key: the university number for students, code and section for courses. The course lookup is modelled as written, with `section ?: ''`, beside a corrected lookup by the stored section (see Findings);
  - the counters and the ordered `Row N: …` messages;
  - the transaction around the loop.
- **The two upload requests** in front of the import: file type, size and the semester pattern.
- **The register/drop course form**:
  - its lifecycle: pending, then approved or rejected, and final;
  - its register and drop views;
  - the store and update requests, which normalise the input, then check the rules, the "at least one course" rule and duplicates;
  - the controller's transactional `store`, the `update` and `destroy` guards, and the listing filters.
- **Per-user additional e-mail addresses**: at most five, no duplicates.
- **Change-of-grade forms**:
  - the `CGF-000042` report id;
  - the documents list;
  - the submitter fallbacks;
  - the fan-out of a report to several addresses;
  - the swap of the university number for the internal student id;
  - the report mail's subject, attachment, notes and template data.
- **Access control**: the three middlewares and the base controller's error response.
- **The data migration** that folds `admin_users` into `users`, and its rollback.

## How the model is organised

- `wrappers.dfy`: `Option` and `Result`.
- `php.dfy`: the PHP string functions the core relies on:
  - `trim`;
  - `empty` on a string, where "0" counts as empty;
  - `is_numeric` and `intval` on integer literals, `intval` saturating at the 64-bit bounds;
  - decimal printing, `strtolower` and `str_pad`.
- `values.dfy`: a request or JSON value (`Value`), plus:
  - `??`, `isset` and PHP truthiness;
  - loose `==`;
  - `pluck` and `array_unique`.
- `validation.dfy`: the part of Laravel's validator the requests use. Rules run in order, a failing implicit rule (`required`, `required_with`) stops the field, and `sometimes` skips an absent field. The failures come in Laravel's order: fields named outright first, then each wildcard rule expanded over the entries.
- Import:
  - `import_rules.dfy` holds the pure parts;
  - `import_controller.dfy` holds the loops, as functions and as methods of a `Database` class that the methods update in place;
  - `import_properties.dfy` holds what the import promises.
- `upload_requests.dfy`: the two upload requests.
- `register_drop_course.dfy`: the form model, a class whose `approve` and `reject` change it in place.
- `register_drop_requests.dfy`: the store and update requests.
- `register_drop_controller.dfy`: the controller, with the form tables as a class.
- `user_emails.dfy`: the user-email table and its `store`.
- `grade_reports.dfy` and `grade_report_mail.dfy`: the change-of-grade helpers and the report mail.
- `access.dfy`: the middlewares and the base controller.
- `admin_migration.dfy`: the admin-user migration, over a `users` table class.

What the database, the mailer or the clock would do is an input:

- Database failures are a map from the position of a row or insert to the message of the exception raised there. The import tells apart a failing write, caught per row, from a failing lookup, which aborts and rolls back.
- A mail failure is a map from the position of an address to its exception message.
- "now" is a number passed in.
- The verdict of Laravel's `email` rule is a predicate passed in.

A transaction is modelled as a snapshot that a rollback restores.

## Model

| member | source | states |
|---|---|---|
| ImportRules.ParseFile | app/Http/Controllers/ImportController.php:91-104 | the extension is lower-cased; "csv" gives the CSV reader's rows, "xlsx"/"xls" the spreadsheet reader's rows or its error, anything else fails with "Unsupported file format" |
| ImportRules.ExtensionCaseInsensitive | app/Http/Controllers/ImportController.php:95 | any capitalisation of "csv" selects the same reader as "csv" |
| ImportRules.Missing | app/Http/Controllers/ImportController.php:148 | `array_diff`: exactly the expected names absent from the present ones, all of them when none is present |
| ImportRules.MissingAppend | app/Http/Controllers/ImportController.php:148 | the missing names of a concatenation are those of each part, one after the other, so `expected`'s order is kept |
| ImportRules.MissingSingle | app/Http/Controllers/ImportController.php:148 | one name is reported exactly when it is not present |
| ImportRules.MissingStudentColumns | app/Http/Controllers/ImportController.php:147-152 | nothing is missing exactly when all seven student columns occur among the first seven header cells, in any order |
| ImportRules.MissingCourseColumns | app/Http/Controllers/ImportController.php:239-244 | only "course_code" and "course_name" are required, among the first two header cells |
| ImportRules.NumericOrNull | app/Http/Controllers/ImportController.php:171 | the year (and credits) is set exactly when the untrimmed cell is numeric, otherwise null; when set it lies within PHP's 64-bit integer range and is the number the cell denotes whenever that range holds it |
| ImportRules.Supplied | app/Http/Controllers/ImportController.php:196-203 | the `array_filter` callback drops exactly the empty string and keeps everything else unchanged |
| ImportRules.ValidateStudent | app/Http/Controllers/ImportController.php:174-188 | a row fails exactly when the name or id is PHP-empty or the id is not numeric, with the message of the first check that fails; otherwise the id is `intval` of the trimmed cell, name and year are kept, and campus, school, major and semester are stored as given or null when blank |
| ImportRules.ValidateCourse | app/Http/Controllers/ImportController.php:269-274 | a row fails exactly when code or name is PHP-empty; otherwise code, name and credits are kept, and instructor, section, room, schedule, days, time and school are stored as given or null when blank |
| ImportRules.LetterRun | app/Http/Controllers/ImportController.php:277 | the leading run of ASCII letters is maximal |
| ImportRules.DigitRun | app/Http/Controllers/ImportController.php:277 | the leading run of decimal digits is maximal |
| ImportRules.CourseCodeMatcherCorrect | app/Http/Controllers/ImportController.php:277 | the run-based matcher accepts exactly the codes `^[A-Z]{2,4}\d{3,4}[A-Z]?$/i` describes |
| ImportRules.MatcherSound | app/Http/Controllers/ImportController.php:277 | an accepted code splits into 2-4 letters, 3-4 digits and at most one letter |
| ImportRules.MatcherComplete | app/Http/Controllers/ImportController.php:277 | every such split is accepted |
| ImportController.FindStudent | app/Http/Controllers/ImportController.php:191 | the first row with the university id, or none exactly when no row has it |
| ImportController.MergeStudent | app/Http/Controllers/ImportController.php:194-198 | name and id come from the row; each of campus, school, major, semester and year is the row's value when the row supplies it and the stored value otherwise |
| ImportController.UpsertStudent | app/Http/Controllers/ImportController.php:190-204 | the first row with the id becomes its merge with the row and nothing else changes; a new id is appended; the id set grows by exactly the row's id and unique ids stay unique |
| ImportController.CheckStudentRow | app/Http/Controllers/ImportController.php:157-188 | a row is skipped exactly when it is blank (every cell "" or "0", untrimmed); a rejection is one of the two student issues |
| ImportController.CheckStudentRows | app/Http/Controllers/ImportController.php:157 | one check per data row |
| ImportController.CheckStudentRowsPrefix | app/Http/Controllers/ImportController.php:157 | checking a prefix of the rows gives the prefix of the checks |
| ImportController.RunStudentsFailurePersists | app/Http/Controllers/ImportController.php:222-225 | once an exception escapes a row, later rows change nothing: the loop's outcome is that failure |
| ImportController.FindCourse | app/Http/Controllers/ImportController.php:281-284 | the corrected lookup: the first course with this code and stored section, or none exactly when the key is absent |
| ImportController.LookedUpSection | app/Http/Controllers/ImportController.php:283 | the section the lookup compares: "" for "0" and for "", the section itself otherwise |
| ImportController.FindCourseAsWritten | app/Http/Controllers/ImportController.php:281-284 | the lookup as written: the first course with the code whose stored section equals the row's section read through `?: ''`; none exactly when no course matches that way |
| ImportController.MergeCourse | app/Http/Controllers/ImportController.php:287-291 | code and name come from the row; each of instructor, section, credits, room, schedule, days, time and school is the row's value when supplied and the stored value otherwise |
| ImportController.UpsertCourse | app/Http/Controllers/ImportController.php:281-297 | the corrected upsert: the first course with the row's code and section becomes its merge with the row; a new key is appended; the key set grows by exactly the row's key, other rows are untouched, unique keys stay unique |
| ImportController.UpsertCourseAsWritten | app/Http/Controllers/ImportController.php:281-297 | the upsert as written: the first course the `?: ''` lookup selects becomes its merge with the row; when none matches the row is appended; no row is ever removed |
| ImportController.CheckCourseRow | app/Http/Controllers/ImportController.php:249-274 | a row is skipped exactly when blank; a rejection is the missing-fields issue |
| ImportController.CheckCourseRows | app/Http/Controllers/ImportController.php:249 | one check per data row |
| ImportController.CheckCourseRowsPrefix | app/Http/Controllers/ImportController.php:249 | checking a prefix of the rows gives the prefix of the checks |
| ImportController.RunCoursesFailurePersists | app/Http/Controllers/ImportController.php:316-319 | once an exception escapes a course row, the loop's outcome is that failure |
| ImportController.Database.ProcessStudentRow | app/Http/Controllers/ImportController.php:157-210 | one iteration updates the counters, the messages and the student table as the step function says, and leaves the courses alone |
| ImportController.Database.ProcessStudents | app/Http/Controllers/ImportController.php:154-225 | the loop's result is the specification's; the table holds the committed writes on success and the snapshot after a rollback |
| ImportController.Database.ImportStudents | app/Http/Controllers/ImportController.php:18-49 | the table and response after `importStudents` are those of the specification, covering the parse error, the fewer-than-two-rows 400, the header exception and the loop |
| ImportController.Database.ProcessCourseRow | app/Http/Controllers/ImportController.php:249-303 | one course iteration with the lookup as written, including the non-fatal code warning, as the step function says |
| ImportController.Database.ProcessCourses | app/Http/Controllers/ImportController.php:246-319 | the course loop's result is the specification's with the lookup as written, with commit or rollback |
| ImportController.Database.ImportCourses | app/Http/Controllers/ImportController.php:54-86 | the table and response after `importCourses` are those of the specification with the lookup as written, the semester echoed back |
| ImportProperties.CountedStudentRows | app/Http/Controllers/ImportController.php:159-161 | the rows the student loop counts are exactly the non-blank data rows |
| ImportProperties.CountedCourseRows | app/Http/Controllers/ImportController.php:251-253 | the rows the course loop counts are exactly the non-blank data rows |
| ImportProperties.FailureCountAppend | app/Http/Controllers/ImportController.php:271-302 | failure messages of a concatenation add up |
| ImportProperties.CodeWarningsShape | app/Http/Controllers/ImportController.php:277-279 | the code message is only a warning, about this row, for a code the pattern rejects |
| ImportProperties.AppendRowMessages | app/Http/Controllers/ImportController.php:177 | messages about the newest row keep every message pointing at a non-blank data row (row = index + 2), in file order |
| ImportProperties.StudentChecksRejectFailures | app/Http/Controllers/ImportController.php:175-186 | a rejected student row is a failure, never a warning |
| ImportProperties.CourseChecksRejectFailures | app/Http/Controllers/ImportController.php:270-274 | a rejected course row is a failure, never a warning |
| ImportProperties.StudentRunCounts | app/Http/Controllers/ImportController.php:206-219 | successful + failed equals the non-blank rows, and failed equals the number of messages, none a warning |
| ImportProperties.StudentRunMessages | app/Http/Controllers/ImportController.php:177-209 | every message names a non-blank row, at most one per row, in file order |
| ImportProperties.StudentStepMessages | app/Http/Controllers/ImportController.php:175-210 | one student row adds at most one message, naming that row, so messages stay one per non-blank row in file order |
| ImportProperties.CourseStepCounts | app/Http/Controllers/ImportController.php:270-302 | one course row moves the counters by one unless blank, keeping failed equal to the non-warning messages |
| ImportProperties.CourseRunCounts | app/Http/Controllers/ImportController.php:299-313 | successful + failed equals the non-blank rows; failed equals the non-warning messages, so messages may outnumber failures |
| ImportProperties.CourseRunMessages | app/Http/Controllers/ImportController.php:272-302 | messages name non-blank rows, in file order |
| ImportProperties.CourseStepMessages | app/Http/Controllers/ImportController.php:272-302 | one course row's messages all name that row, so the list keeps pointing at non-blank rows in file order |
| ImportProperties.CourseRunWarnings | app/Http/Controllers/ImportController.php:270-279 | every code warning after the loop names a course code the pattern rejects |
| ImportProperties.CourseStepWarnings | app/Http/Controllers/ImportController.php:270-279 | one course row adds a code warning only for a code the pattern rejects |
| ImportProperties.StudentRunReports | app/Http/Controllers/ImportController.php:175-209 | after the student loop, every rejected row j has `Row j+2: issue` and every row whose write failed `Row j+2: Database error - cause`; every message is such a row's; the successes are exactly the accepted rows written without fault |
| ImportProperties.StudentStepReports | app/Http/Controllers/ImportController.php:175-210 | one student row adds exactly the message it earns, if any, and counts a success exactly when accepted and written |
| ImportProperties.CourseRunReports | app/Http/Controllers/ImportController.php:270-302 | after the course loop, every failure is reported as for students, every accepted row with an unusual code has its code warning, every message is a failure or warning of the row it names, and a warned row written without fault still counts as a success |
| ImportProperties.CourseStepReports | app/Http/Controllers/ImportController.php:270-302 | one course row adds exactly its code warning, if any, then its failure message, if any |
| ImportProperties.ReportFailures | app/Http/Controllers/ImportController.php:177 | messages about the newest row keep every earlier failure reported |
| ImportProperties.ExplainFailures | app/Http/Controllers/ImportController.php:177 | messages the newest row earns keep every message explained by the row it names |
| ImportProperties.ExplainCourseMessages | app/Http/Controllers/ImportController.php:272-302 | the same for course rows, whose messages may be code warnings |
| ImportProperties.StudentRunAbortsOnlyOnQueryError | app/Http/Controllers/ImportController.php:191-225 | the student loop aborts only with an escaping lookup error's message, and always completes without one |
| ImportProperties.CourseRunAbortsOnlyOnQueryError | app/Http/Controllers/ImportController.php:282-319 | the same for the course loop |
| ImportProperties.StudentRunIds | app/Http/Controllers/ImportController.php:190-204 | the loop never removes an id, adds only ids of accepted rows (all of them without faults) and keeps ids unique |
| ImportProperties.StudentRunOfKnownIds | app/Http/Controllers/ImportController.php:194-198 | a file whose accepted ids all exist changes neither the row count nor the ids |
| ImportProperties.StudentReimportCreatesNothing | app/Http/Controllers/ImportController.php:190-204 | importing the same student file a second time creates no student |
| ImportProperties.CourseRunKeys | app/Http/Controllers/ImportController.php:281-297 | with the corrected lookup, the course loop never removes a key, adds only accepted keys, keeps keys unique |
| ImportProperties.CourseRunOfKnownKeys | app/Http/Controllers/ImportController.php:287-291 | with the corrected lookup, a file whose accepted keys all exist changes neither the count nor the keys |
| ImportProperties.CourseReimportCreatesNothing | app/Http/Controllers/ImportController.php:281-297 | with the corrected lookup, importing the same course file twice creates nothing new |
| ImportProperties.CourseRunRowCount | app/Http/Controllers/ImportController.php:281-297 | under either lookup the table never shrinks and grows by at most one row per data row |
| ImportProperties.CleanCourseRowAccepted | app/Http/Controllers/ImportController.php:256-274 | a course row whose code, name and section need no trimming and are not PHP-empty passes its checks with exactly those code and section |
| ImportProperties.SectionZeroRowAccepted | app/Http/Controllers/ImportController.php:256-274 | a course row with section "0" passes its checks with section "0" |
| ImportProperties.SectionZeroDuplicatesAsWritten | app/Http/Controllers/ImportController.php:282-284 | as written, the loop run twice on a complete row with section "0" leaves two courses with the same key |
| ImportProperties.SectionZeroOverwritesBlankAsWritten | app/Http/Controllers/ImportController.php:282-297 | as written, that row overwrites a stored CS101 course with section "", which is then gone |
| ImportProperties.SectionZeroImportedOnce | app/Http/Controllers/ImportController.php:282-284 | with the corrected lookup, the same row imported twice leaves one row |
| ImportProperties.SectionZeroKeepsBlank | app/Http/Controllers/ImportController.php:282-297 | with the corrected lookup, that row is added beside the stored CS101 course with section "", which is kept |
| ImportProperties.StudentsImportResponse | app/Http/Controllers/ImportController.php:18-49 | a non-200 answer leaves the table unchanged; a 200 reports every non-blank row once and one message per failure |
| ImportProperties.CoursesImportResponse | app/Http/Controllers/ImportController.php:54-86 | non-200 leaves the table unchanged; 400 exactly for fewer than two rows; a 200 counts every non-blank row, lists every row message (failures and code warnings), has `failed` equal to the non-warning messages, and echoes the semester |
| UploadRequests.FileErrors | app/Http/Requests/ImportCoursesRequest.php:25-30 | no file gives only the required message; no errors exactly when an uploaded file of an accepted type within 10240 KB; "not valid" exactly when the value is not a file |
| UploadRequests.SemesterErrors | app/Http/Requests/ImportCoursesRequest.php:31-36 | no errors exactly for a non-blank string of at most 50 characters all in `[a-zA-Z0-9\s\-_]`; a missing semester reports only that |
| UploadRequests.ValidateCourseUpload | app/Http/Requests/ImportCoursesRequest.php:22-38 | the course upload passes exactly when file and semester both pass their rules |
| UploadRequests.ValidateStudentUpload | app/Http/Requests/ImportStudentsRequest.php:22-32 | the student upload passes exactly for an uploaded file whose detected MIME type is listed and whose size is at most 10240 KB |
| UploadRequests.InvalidSemesterRefused | app/Http/Requests/ImportCoursesRequest.php:35 | "Fall@2025!" is refused with the pattern message only |
| UploadRequests.PlainSemesterAccepted | app/Http/Requests/ImportCoursesRequest.php:31-36 | "Fall 2025" passes |
| UploadRequests.BlankSemesterIsMissing | app/Http/Requests/ImportCoursesRequest.php:32 | a semester of spaces only is reported as missing and nothing else |
| RegisterDrop.FilterAction | app/Models/RegisterDropCourse.php:66-68 | the filter keeps exactly the entries with that action |
| RegisterDrop.FilterActionAppend | app/Models/RegisterDropCourse.php:66-68 | the filter distributes over concatenation, so it keeps the input order |
| RegisterDrop.FilterActionsBounded | app/Models/RegisterDropCourse.php:88-99 | register and drop views together hold at most the whole list |
| RegisterDrop.CoursesWithAction | app/Models/RegisterDropCourse.php:60-83 | nothing when `courses` is PHP-empty; for a list, exactly the entries with that action, in list order (an object: see Left out) |
| RegisterDrop.TotalsBounded | app/Models/RegisterDropCourse.php:88-99 | total_register + total_drop never exceeds the number of courses |
| RegisterDrop.Form.constructor | app/Models/RegisterDropCourse.php:32-34 | a new form is pending and unprocessed |
| RegisterDrop.Form.RegisterCourses | app/Models/RegisterDropCourse.php:60-69 | nothing when `courses` is PHP-empty; for a list, exactly the entries with action register, in list order |
| RegisterDrop.Form.DropCourses | app/Models/RegisterDropCourse.php:74-83 | nothing when `courses` is PHP-empty; for a list, exactly the entries with action drop, in list order |
| RegisterDrop.Form.TotalRegisterCourses | app/Models/RegisterDropCourse.php:88-91 | the total is the size of the register view |
| RegisterDrop.Form.TotalDropCourses | app/Models/RegisterDropCourse.php:96-99 | the total is the size of the drop view |
| RegisterDrop.Form.Approve | app/Models/RegisterDropCourse.php:152-165 | succeeds exactly on a pending form, recording approver and time; otherwise nothing changes; other fields never change; the form can then no longer be edited or deleted |
| RegisterDrop.Form.Reject | app/Models/RegisterDropCourse.php:170-183 | the same transition into rejected |
| RegisterDrop.DecisionsAreFinal | app/Models/RegisterDropCourse.php:152-183 | after a successful approve or reject, a second decision of either kind is refused and changes nothing |
| RegisterDropRequests.CourseData | app/Http/Requests/StoreRegisterDropCourseRequest.php:34-41 | an entry has exactly the six keys; course_id from courseId, then course_id, then null; text fields default to TBD, credits to 3 |
| RegisterDropRequests.EntriesAppend | app/Http/Requests/StoreRegisterDropCourseRequest.php:33-48 | the entries of a concatenation are the entries of each part, in order |
| RegisterDropRequests.EntriesMembers | app/Http/Requests/StoreRegisterDropCourseRequest.php:43-47 | every course with the action yields its entry, and every entry comes from such a course |
| RegisterDropRequests.PartitionBounded | app/Http/Requests/StoreRegisterDropCourseRequest.php:43-47 | the two lists together hold at most one entry per course; other actions are dropped |
| RegisterDropRequests.MoveStudentId | app/Http/Requests/StoreRegisterDropCourseRequest.php:23-26 | a set studentId becomes university_id and studentId is removed; other keys are kept |
| RegisterDropRequests.SplitCourses | app/Http/Requests/StoreRegisterDropCourseRequest.php:29-58 | a courses list is replaced by its register and drop lists; other input passes through (an object: see Left out) |
| RegisterDropRequests.SetCourseLists | app/Http/Requests/StoreRegisterDropCourseRequest.php:50-57 | each list is stored only when non-empty, and courses is always removed |
| RegisterDropRequests.WithDefaults | app/Http/Requests/StoreRegisterDropCourseRequest.php:61-66 | semester and academic_year default to "Fall 2025" and "2025-2026" only when not set; nothing else changes |
| RegisterDropRequests.PartitionCourses | app/Http/Requests/StoreRegisterDropCourseRequest.php:30-48 | the loop builds exactly the register and drop entry lists, in input order |
| RegisterDropRequests.PrepareForValidation | app/Http/Requests/StoreRegisterDropCourseRequest.php:17-69 | the request after normalisation is `Normalized` of the input |
| RegisterDropRequests.NotFound | app/Http/Requests/StoreRegisterDropCourseRequest.php:135-190 | at most one error per entry, each "Course not found." |
| RegisterDropRequests.NotFoundExactly | app/Http/Requests/StoreRegisterDropCourseRequest.php:135-190 | entry j gets "Course not found." under `list.j.course_id` exactly when its course id names no known course, and every error is for some entry |
| RegisterDropRequests.StoreAfterErrors | app/Http/Requests/StoreRegisterDropCourseRequest.php:120-133 | the "at least one course" error exactly when both lists are empty; the duplicate error exactly when the gathered ids shrink under `array_unique` |
| RegisterDropRequests.StoreDuplicateIffRepeat | app/Http/Requests/StoreRegisterDropCourseRequest.php:217-236 | the duplicate error is raised exactly when two gathered course ids have the same string form |
| RegisterDropRequests.NoCourseErrorIffNoAction | app/Http/Requests/StoreRegisterDropCourseRequest.php:124-126 | for a sent courses list, "at least one course" is raised exactly when no course is register or drop |
| RegisterDropRequests.UniversityIdRule | app/Http/Requests/StoreRegisterDropCourseRequest.php:74 | the university id passes exactly when it is an integer or string of exactly eight digits naming a known student |
| RegisterDropRequests.ReasonRule | app/Http/Requests/StoreRegisterDropCourseRequest.php:77 | the reason passes exactly when it is a non-blank string of 10 to 1000 characters |
| RegisterDropRequests.StoreRulesPass | app/Http/Requests/StoreRegisterDropCourseRequest.php:73-97 | the store rules pass exactly when the university id is eight digits of a known student, semester and academic_year are at most 50 and 20 characters when given, the reason is 10 to 1000 characters, both lists are arrays when given, and every entry of either list has a course id naming a known course |
| RegisterDropRequests.UpdateRulesPass | app/Http/Requests/UpdateRegisterDropCourseRequest.php:20-25 | the update rules pass exactly when semester and academic_year are at most 50 and 20 characters, courses is an array with at least one entry, every entry has an id naming a known course and an action register or drop, and the reason is 10 to 1000 characters; each only when given |
| RegisterDropRequests.OptionalTextRule | app/Http/Requests/UpdateRegisterDropCourseRequest.php:20-25 | the rules sometimes, string, max (and min) pass exactly for an absent or blank field or a string within the bounds |
| RegisterDropRequests.OptionalArrayRule | app/Http/Requests/StoreRegisterDropCourseRequest.php:80 | the rules sometimes, array pass exactly for an absent or blank field, a list or an object |
| RegisterDropRequests.OptionalCoursesRule | app/Http/Requests/UpdateRegisterDropCourseRequest.php:22 | the rules sometimes, array, min:1 pass exactly for an absent or blank field or a list or object with an entry |
| RegisterDropRequests.ScalarInFailures | app/Http/Requests/UpdateRegisterDropCourseRequest.php:23-24 | a wildcard rule list required_with, exists or required_with, in expanded over the entries reports nothing exactly when every entry holds a filled scalar in the known set, and each failure is under one entry's key |
| RegisterDropRequests.EntryRule | app/Http/Requests/StoreRegisterDropCourseRequest.php:81 | one entry's required_with, exists (or in) passes exactly when its key holds a filled scalar naming a known value |
| RegisterDropRequests.UpdateAfterErrors | app/Http/Requests/UpdateRegisterDropCourseRequest.php:46-57 | no after-errors without courses; otherwise only the duplicate error (duplicates found pairwise; see Left out) |
| RegisterDropRequests.UpdateDuplicateIffRepeat | app/Http/Requests/UpdateRegisterDropCourseRequest.php:77-88 | the update's duplicate error exactly when courses are sent and two ids are loosely equal, compared pairwise (see Left out) |
| Validation.RunRules | app/Http/Requests/StoreRegisterDropCourseRequest.php:73-96 | a rule list reports nothing exactly when every rule accepts the value; each failure names its field |
| Validation.FieldFailures | app/Http/Requests/UpdateRegisterDropCourseRequest.php:20-25 | `sometimes` skips an absent field; a field passes exactly when present-and-accepted by every rule, or absent or blank with no implicit rule |
| Validation.AbsentFailures | app/Http/Requests/UpdateRegisterDropCourseRequest.php:23-24 | an absent or blank value fails only its first implicit rule, and passes when it has none |
| RegisterDropController.FirstMissing | app/Http/Controllers/API/V1/RegisterDropCourseController.php:85-90 | the key named by "Undefined array key" is missing from the entry, and there is none exactly when all six keys read without default are present |
| RegisterDropController.ChildRow | app/Http/Controllers/API/V1/RegisterDropCourseController.php:84-96 | a row is read exactly when the entry has the six keys read without default, under the form's id and the entry's course id |
| RegisterDropController.InsertRow | app/Http/Controllers/API/V1/RegisterDropCourseController.php:84-96 | an insert succeeds exactly when the entry is readable and the insert does not raise; a raising insert fails with its message |
| RegisterDropController.ChildrenSucceedIff | app/Http/Controllers/API/V1/RegisterDropCourseController.php:82-98 | a course list is written exactly when every entry is readable and no insert raises |
| RegisterDropController.ChildrenRows | app/Http/Controllers/API/V1/RegisterDropCourseController.php:83-97 | written children are one row per entry, in entry order, each that entry's row |
| RegisterDropController.ChildrenFailurePersists | app/Http/Controllers/API/V1/RegisterDropCourseController.php:126-131 | after the first failure nothing further is written |
| RegisterDropController.StoreOutcome | app/Http/Controllers/API/V1/RegisterDropCourseController.php:65-133 | a failing form insert fails the store; a success has one registered child per registered entry and one dropped child per dropped entry |
| RegisterDropController.StoreSucceedsIff | app/Http/Controllers/API/V1/RegisterDropCourseController.php:67-131 | store succeeds exactly when all entries are readable and none of the 1 + registered + dropped inserts raises |
| RegisterDropController.StoreRows | app/Http/Controllers/API/V1/RegisterDropCourseController.php:82-117 | a successful store writes each entry's row under the new form's id |
| RegisterDropController.Without | app/Http/Controllers/API/V1/RegisterDropCourseController.php:203 | deleting removes exactly that form and keeps every other |
| RegisterDropController.Update | app/Http/Controllers/API/V1/RegisterDropCourseController.php:159-187 | a non-pending form: 403 "Only pending forms can be updated." and unchanged; a failing write: 500 and unchanged; else 200 with the given fields written; status, ids and timestamps kept; the lifecycle invariant kept |
| RegisterDropController.FormTables.constructor | app/Http/Controllers/API/V1/RegisterDropCourseController.php:65-72 | empty tables whose first form id is 1 |
| RegisterDropController.FormTables.WriteChildren | app/Http/Controllers/API/V1/RegisterDropCourseController.php:82-117 | the loop writes exactly the children the specification gives, into one table only, or reports the first failure |
| RegisterDropController.FormTables.Store | app/Http/Controllers/API/V1/RegisterDropCourseController.php:65-133 | on failure 500 "Error creating form: …" and all tables as before; on success 201 "Form submitted successfully", one new pending form and its children appended |
| RegisterDropController.FormTables.Destroy | app/Http/Controllers/API/V1/RegisterDropCourseController.php:193-215 | a non-pending form: 403 and still stored; a failing delete: 500 and still stored; else 200 and the form is gone, others kept |
| RegisterDropController.Param | app/Http/Controllers/API/V1/RegisterDropCourseController.php:26-37 | a filter is present exactly when its parameter is |
| RegisterDropController.IndexQuery | app/Http/Controllers/API/V1/RegisterDropCourseController.php:20-46 | defaults created_at, desc and 15; a student filter exactly when university_id is given |
| RegisterDropController.ByStudentQuery | app/Http/Controllers/API/V1/RegisterDropCourseController.php:221-245 | the student filter is always the route's university number |
| RegisterDropController.Listed | app/Http/Controllers/API/V1/RegisterDropCourseController.php:23-37 | a listing holds exactly the stored forms passing every filter |
| RegisterDropController.ByStudentIsIndex | app/Http/Controllers/API/V1/RegisterDropCourseController.php:221-245 | `byStudent` is `index` with the route's number as university_id |
| UserEmails.CountFor | app/Http/Controllers/UserEmailController.php:25 | a user's count never exceeds the table size |
| UserEmails.Refusal | app/Http/Controllers/UserEmailController.php:20-32 | store is refused exactly when the address is missing, invalid, the user has five already, or has this address; at the cap the cap message wins over the duplicate |
| UserEmails.CountForAppend | app/Http/Controllers/UserEmailController.php:34-37 | appending adds one to its user's count only |
| UserEmails.AcceptedKeepsValid | app/Http/Controllers/UserEmailController.php:25-37 | an accepted entry keeps every user at most five addresses and no address twice per user |
| UserEmails.ValidBoundsEveryUser | app/Http/Controllers/UserEmailController.php:25-27 | under the invariant no user has more than five entries |
| UserEmails.Select | app/Http/Controllers/UserEmailController.php:12-15 | exactly the user's entries, as many as its count |
| UserEmails.EmailTable.constructor | app/Http/Controllers/UserEmailController.php:34 | an empty table is valid |
| UserEmails.EmailTable.EmailsOf | app/Http/Controllers/UserEmailController.php:12-15 | `index` lists exactly the user's entries |
| UserEmails.EmailTable.Store | app/Http/Controllers/UserEmailController.php:18-40 | a refusal answers 422 and changes nothing; otherwise exactly one unlocked entry is appended with the next id; the invariant is kept |
| GradeReports.ReportId | app/Http/Controllers/ChangeGradeFormController.php:115 | "CGF-" then the route id as given, left-padded with zeros to six characters and never truncated |
| GradeReports.LeadingZerosValue | app/Http/Controllers/ChangeGradeFormController.php:295 | zero padding keeps a digit string's value |
| GradeReports.ReportIdKeepsValue | app/Http/Controllers/ChangeGradeFormController.php:238 | for a route id of digits, the digits after "CGF-" denote the same number |
| GradeReports.ReportIdRoundTrip | app/Http/Controllers/ChangeGradeFormController.php:153 | for an id written in decimal, the digits after "CGF-" read back as the form id |
| GradeReports.ReportIdInjective | app/Http/Controllers/ChangeGradeFormController.php:238 | distinct forms requested by their decimal ids never share a report id |
| GradeReports.ReportIdExample | app/Http/Controllers/ChangeGradeFormController.php:295 | "42" gives "CGF-000042", "00000042" gives "CGF-00000042", and "042" the same as "42" |
| GradeReports.EntryIf | app/Http/Controllers/ChangeGradeFormController.php:428-434 | a document contributes its single "Provided" entry exactly when its column is PHP-truthy, and nothing otherwise |
| GradeReports.GetDocumentsList | app/Http/Controllers/ChangeGradeFormController.php:424-461 | the appending method builds exactly the list of truthy documents in the fixed order |
| GradeReports.DocumentsListAgrees | app/Http/Controllers/ChangeGradeFormController.php:410-461 | at most four documents, all provided PDFs, some exactly when `hasDocuments`, and each document listed exactly when its column is truthy |
| GradeReports.ZeroDocumentNotProvided | app/Http/Controllers/ChangeGradeFormController.php:412 | a column holding "0" counts as absent |
| GradeReports.AuthUserData | app/Http/Controllers/ChangeGradeFormController.php:340-349 | the system fallbacks without a user; "Administrator" exactly for a set, truthy is_admin; otherwise the user's name and email |
| GradeReports.SendOutcome | app/Http/Controllers/ChangeGradeFormController.php:304-314 | every address lands in one of the two lists |
| GradeReports.SendOutcomeRebuilds | app/Http/Controllers/ChangeGradeFormController.php:304-314 | reading the two lists back by position gives the input: each address in exactly one list, in input order |
| GradeReports.SendSucceedsIff | app/Http/Controllers/ChangeGradeFormController.php:317 | success exactly when no send failed |
| GradeReports.SendToEach | app/Http/Controllers/ChangeGradeFormController.php:301-314 | the appending loop gives exactly the specification's two lists |
| GradeReports.Addresses | app/Http/Controllers/ChangeGradeFormController.php:300 | one address per item, its string form |
| GradeReports.SendReportToMultiple | app/Http/Controllers/ChangeGradeFormController.php:272-333 | an invalid list gives 422, a missing form 500, else one send per address with success exactly when none failed and the count of sent ones in the message |
| GradeReports.FirstStudent | app/Http/Controllers/ChangeGradeFormController.php:48 | the first student with that university number, or none when none matches |
| GradeReports.StoreAttributes | app/Http/Controllers/ChangeGradeFormController.php:47-54 | 404 exactly when no student matches; otherwise university_id removed, student_id set, everything else kept |
| GradeReports.UpdateAttributes | app/Http/Controllers/ChangeGradeFormController.php:83-90 | without a set university_id the input passes unchanged; with one, the store replacement |
| GradeReportMail.Subject | app/Mail/ChangeGradeFormReport.php:42 | the fixed prefix followed by the report id |
| GradeReportMail.AttachmentNameInjective | app/Mail/ChangeGradeFormReport.php:72 | distinct forms give different attachment names |
| GradeReportMail.Attachments | app/Mail/ChangeGradeFormReport.php:60-77 | none without attachPdf; otherwise exactly one PDF named after the form |
| GradeReportMail.AdditionalNotes | app/Mail/ChangeGradeFormReport.php:145 | the message, or the fixed sentence when the message is PHP-empty; never empty |
| GradeReportMail.ZeroMessageReplaced | app/Mail/ChangeGradeFormReport.php:145 | a message "0" is replaced like an empty one |
| GradeReportMail.MailSubmitter | app/Mail/ChangeGradeFormReport.php:97-99 | system fallbacks without a user; "Administrator" exactly for a truthy is_admin |
| GradeReportMail.SubmitterAgreesWithController | app/Mail/ChangeGradeFormReport.php:97-99 | the mail's submitter equals the controller's `getAuthUserData` for every user |
| GradeReportMail.MailTemplateData | app/Mail/ChangeGradeFormReport.php:141-145 | the template holds the report id, the submitter as the mail computes it, the form's documents list (at most four, documents_available exactly when non-empty) and the custom message or the fixed sentence, never empty |
| Access.AdminAndVerified | app/Http/Middleware/EnsureAdminAndVerified.php:16-55 | 401 without a user, then 403 admin, then 403 verification; passes exactly for a truthy admin and verified user |
| Access.UserIsAdmin | app/Http/Middleware/EnsureUserIsAdmin.php:16-34 | 401 without a user; passes exactly for a truthy is_admin or the special address; otherwise 403 |
| Access.UserIsVerified | app/Http/Middleware/EnsureUserIsVerified.php:16-26 | passes exactly for a present, verified user; every refusal is the same 403, never 401 |
| Access.AdminVerificationError | app/Http/Controllers/Controller.php:30-63 | always a refusal; 500 exactly for a present, admin, verified user |
| Access.ErrorResponseMatchesMiddleware | app/Http/Controllers/Controller.php:34-62 | the base controller refuses like the combined middleware, and answers 500 exactly when the middleware passes |
| Access.AdminCheckComesFirst | app/Http/Middleware/EnsureAdminAndVerified.php:30-52 | a user neither admin nor verified always gets the admin 403 |
| Access.CombinedIsStricter | app/Http/Middleware/EnsureAdminAndVerified.php:54 | what the combined middleware passes, both single ones pass |
| Access.SpecialAddressOnlyOpensAdminCheck | app/Http/Middleware/EnsureUserIsAdmin.php:26 | the special address passes the admin middleware without the flag, but not the combined one |
| AdminMigration.FindEmail | database/migrations/2025_08_10_162549_migrate_admin_users_to_users.php:29 | the first user with the address, or none exactly when nobody has it |
| AdminMigration.NewUser | database/migrations/2025_08_10_162549_migrate_admin_users_to_users.php:33-45 | a new user is a verified admin with the admin's address, name and password, timestamps falling back to now |
| AdminMigration.Promote | database/migrations/2025_08_10_162549_migrate_admin_users_to_users.php:48-56 | no row added; exactly the users with the address become admin with the admin's profile, the others are untouched |
| AdminMigration.MigrateOneAdmins | database/migrations/2025_08_10_162549_migrate_admin_users_to_users.php:29-57 | one step makes the admin's address an admin address and keeps earlier ones |
| AdminMigration.MigrateAllAdmins | database/migrations/2025_08_10_162549_migrate_admin_users_to_users.php:27-58 | after the loop every admin's address has a user, and all its users are admins |
| AdminMigration.MigrateAllDistinct | database/migrations/2025_08_10_162549_migrate_admin_users_to_users.php:27-58 | distinct addresses stay distinct, so each admin address ends with exactly one user |
| AdminMigration.MigrateAllKeepsUsers | database/migrations/2025_08_10_162549_migrate_admin_users_to_users.php:46-56 | an existing user keeps its place, id, name, address, password and verification, and an admin stays admin |
| AdminMigration.WithoutAdmins | database/migrations/2025_08_10_162549_migrate_admin_users_to_users.php:68 | exactly the non-admin users remain |
| AdminMigration.Users.constructor | database/migrations/2025_08_10_162549_migrate_admin_users_to_users.php:14 | the table as given |
| AdminMigration.Users.Up | database/migrations/2025_08_10_162549_migrate_admin_users_to_users.php:24-59 | no `admin_users` table: no row changes; otherwise the table is the loop's specification over the admin rows |
| AdminMigration.Users.Down | database/migrations/2025_08_10_162549_migrate_admin_users_to_users.php:65-69 | every admin user is deleted, the rest kept |
| AdminMigration.PromotedUserLostByRollback | database/migrations/2025_08_10_162549_migrate_admin_users_to_users.php:46-68 | a user who existed under an admin's address is gone after up then down |
| Php.TrimIdempotent | app/Http/Controllers/ImportController.php:165-170 | trimming twice is trimming once |
| Php.IntVal | app/Http/Controllers/ImportController.php:188 | `intval` of a numeric string lies within PHP's 64-bit range, is the number the string denotes when that range holds it, and saturates at the bound otherwise |
| Php.IntValOfRendered | app/Http/Controllers/ImportController.php:188 | a number printed in decimal is numeric and reads back through `intval` as itself when it fits, as `PHP_INT_MAX` otherwise |
| Php.NatToStringRoundTrip | app/Http/Controllers/ChangeGradeFormController.php:115 | the decimal form of an id reads back as the id |
| Php.PadLeft | app/Http/Controllers/ChangeGradeFormController.php:115 | `str_pad(..., STR_PAD_LEFT)`: the string kept whole at the end, preceded by pad characters up to the width |
| Values.UniqueByShrinksIffRepeat | app/Http/Requests/StoreRegisterDropCourseRequest.php:234 | `count != count(array_unique)` exactly when some value repeats |

## Left out

- File bytes: the CSV and spreadsheet readers are I/O and a foreign library. The parsed rows, or the library's error, are given.
- Mail, PDF and HTML rendering are foreign calls. A send is an opaque success or failure given per address, and a PDF is only its name and MIME type.
- Clocks: `now()` is a number given to each operation, and `generated_at`/`sent_at` strings are not produced.
- Database and ORM:
  - Tables are sequences in memory. Eloquent, pagination and `orderBy` are not modelled, so a listing is the filtered forms in stored order, unsorted and unpaged.
  - SQL comparison of a column with a request value is approximated by equality of values, or of their string forms.
  - The ids a rolled-back insert consumes are not modelled.
- Database exceptions are an oracle: the model says what happens when a given insert or write raises, not why.
- `Course::find` and the `exists:` rules are approximated by membership in a given set of known ids, and only a scalar id can be a member. An id sent as an array of known ids passes Laravel's `exists` rule, and `Course::find` returns a non-empty collection for it, so no "Course not found." is added; the model reports both as failures.
- Mass assignment and schema drift:
  - `RegisterDropCourse` lists neither `university_id` nor `submitted_at` as fillable.
  - The model has no `registeredCourses`/`droppedCourses` relations.
  - In the model, `store` therefore writes the form as the controller asks. Neither the silently dropped attributes nor the exception a missing relation raises is modelled.
  - Child rows on `destroy` (foreign-key cascades) are not modelled.
- RegisterDropRequests.StoreRuleFailures: the `sometimes|string` rules on the entry text fields and `integer|min:1` on credits are not modelled. A list sent directly as a JSON object has its entries left unchecked, for the reason given under Values.Items.
- Values.Items: `collect()` of a JSON object iterates the object's values in key order; the model keeps the object as one item, because its objects are maps without key order.
- RegisterDrop.CoursesWithAction: a `courses` held as a JSON object is filtered as one item rather than value by value, for the reason given under Values.Items. The same holds for Form.RegisterCourses and Form.DropCourses.
- RegisterDropRequests.SplitCourses: `is_array` also accepts a JSON object for `courses`, and PHP partitions its values. The model partitions only a list and passes an object through unchanged, for the reason given under Values.Items.
- RegisterDropRequests.UpdateRulesPass: for a `courses` sent as a JSON object, only `array|min:1` is checked; the `courses.*` rules are not expanded over its keys.
- RegisterDropRequests.UpdateCourseIds: a `courses` held as a JSON object yields one id (null) rather than one per value, for the reason given under Values.Items.
- RegisterDropRequests.UpdateAfterErrors: `duplicates()` is modelled as a pairwise loose-equality repeat. PHP finds repeats with `array_unique(SORT_REGULAR)`, which sorts and compares neighbours. Loose `==` is not transitive once null, booleans and numeric strings mix, so PHP may see no repeat where the model sees one: for ids -5, "0" and true, for example.
- RegisterDropRequests.UpdateDuplicateIffRepeat: it relates the error to the pairwise repeat, for the reason given under RegisterDropRequests.UpdateAfterErrors.
- The rule failures name the field and the rule; the request classes' custom messages are not attached to them.
- PHP runtime warnings and `TypeError`s are not modelled: `$course['action']` on a non-array entry, and `intval` on floats or exponents. `is_numeric` and `intval` cover integer literals with optional white space and sign only.
- `Values.LooseEquals` approximates PHP 8 `==` for the value kinds modelled: null, booleans, integers, strings, lists and objects. Floats are not among them.
- The request's `TrimStrings` and `ConvertEmptyStringsToNull` middleware are not modelled; request values arrive as given.
- GradeReports.SendReportToMultiple: the `attach_pdf` and `message` rules are not modelled, a send's exception message is given rather than produced by a mailer, and the `email` rule's verdict is a predicate given as a parameter. Laravel's `array` rule also accepts a JSON object for `emails`; the model accepts only a list, because its objects are maps without key order and that order would fix the order of the sends.
- UserEmails.Refusal: the `email` rule's verdict is a predicate given as a parameter.
- UserEmails.EmailTable.Store: one call is one atomic step. The controller counts, checks for a duplicate and then inserts with no lock or transaction, so two concurrent requests could both pass the checks; concurrency is not modelled.
- The controller's own `getTemplateData` (the notes and fields other than the submitter) is not modelled; the mail's is.
- `app/Models/User.php` is not part of this model:
  - `isAdmin()` and `isVerified()` are taken as the truthiness of `is_admin` and `is_verified`;
  - `canPerformAdminActions()` and `getVerificationStatus()` are given with the user.
- `users` has no creation migration in the repository, so a unique index on `users.email` is not assumed. `AdminMigration.MigrateAllDistinct` takes distinct addresses as its premise; `AdminMigration.MigrateAllAdmins` holds without it.
- ImportProperties.CourseRunKeys: stated for the corrected course lookup only. With the lookup as written, a section "0" row can duplicate a key or overwrite the course with section "" (see Findings).
- ImportProperties.CourseRunOfKnownKeys: stated for the corrected course lookup only, for the same reason.
- ImportProperties.CourseReimportCreatesNothing: stated for the corrected course lookup only; as written, a re-import of a section "0" row creates a second course.
- Access.CanPerformAdminActions and Access.UserVerificationStatus only forward the answer of the user model, which is not part of this model, so nothing is stated about them.
- The schema changes of the admin migration (adding and dropping `campus`, `school` and `profile`) are not modelled; only its data steps are.
- The `sometimes|nullable` field rules of the change-of-grade `store`/`update` validation are not modelled; the validated input is given.

## Findings

| source | as written | input that shows it | evidently intended | confidence | as-written member | corrected member |
|---|---|---|---|---|---|---|
| app/Http/Controllers/ImportController.php:282-284 | the existing-course lookup uses `section ?: ''`, so a section "0" is looked up as "" while the row is written with section "0" | importing the complete row `CS101, Programming, Dr. Smith, 0, 3, B-201, Lecture, MWF, 10:00, Engineering` twice into an empty table leaves two CS101 section "0" courses | the lookup uses the stored section, so a re-import updates the course | not executed | ImportProperties.SectionZeroDuplicatesAsWritten | ImportProperties.SectionZeroImportedOnce |
| app/Http/Controllers/ImportController.php:282-291 | the same lookup selects a stored course with section "" for a row with section "0", and the update writes section "0" over it | importing that row when CS101 with section "" is stored leaves one course, CS101 section "0" | the row is a different course and is added beside the stored one | not executed | ImportProperties.SectionZeroOverwritesBlankAsWritten | ImportProperties.SectionZeroKeepsBlank |
