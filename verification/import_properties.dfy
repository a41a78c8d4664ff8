/**
 * What the bulk import promises about its result and about the tables:
 * every non-blank data row is counted once, each row gets exactly the messages
 * it earns, in file order, an import aborts only on an exception that escapes
 * the per-row handler, and an import never deletes a row. Unique student ids
 * stay unique and a second import of the same file creates nothing; for courses
 * that holds with the corrected lookup, while the lookup as written duplicates
 * or overwrites courses whose section is "0".
 */
module ImportProperties {
  import opened Wrappers
  import opened Php
  import opened ImportRules
  import opened ImportController

  /** The number of data rows that are not blank. */
  function NonBlankRows(rows: seq<Row>): (n: nat)
    ensures n <= |rows|
    decreases |rows|
  {
    if rows == [] then 0
    else NonBlankRows(rows[..|rows| - 1]) + (if IsBlankRow(rows[|rows| - 1]) then 0 else 1)
  }

  /** The number of checked rows that are not blank. */
  function Counted<R>(checks: seq<RowCheck<R>>): (n: nat)
    ensures n <= |checks|
    decreases |checks|
  {
    if checks == [] then 0
    else Counted(checks[..|checks| - 1]) + (if checks[|checks| - 1].Blank? then 0 else 1)
  }

  lemma {:induction false} CountedStudentRows(rows: seq<Row>)
    ensures Counted(CheckStudentRows(rows)) == NonBlankRows(rows)
    decreases |rows|
  {
    if rows != [] {
      var init := rows[..|rows| - 1];
      CountedStudentRows(init);
      assert CheckStudentRows(rows)[..|rows| - 1] == CheckStudentRows(init);
    }
  }

  lemma {:induction false} CountedCourseRows(rows: seq<Row>)
    ensures Counted(CheckCourseRows(rows)) == NonBlankRows(rows)
    decreases |rows|
  {
    if rows != [] {
      var init := rows[..|rows| - 1];
      CountedCourseRows(init);
      assert CheckCourseRows(rows)[..|rows| - 1] == CheckCourseRows(init);
    }
  }

  /** The number of messages that report a failed row (every issue but the code warning). */
  function FailureCount(messages: seq<RowMessage>): (n: nat)
    ensures n <= |messages|
    decreases |messages|
  {
    if messages == [] then 0
    else FailureCount(messages[..|messages| - 1]) + (if messages[|messages| - 1].issue.IsWarning() then 0 else 1)
  }

  lemma {:induction false} FailureCountAppend(a: seq<RowMessage>, b: seq<RowMessage>)
    ensures FailureCount(a + b) == FailureCount(a) + FailureCount(b)
    decreases |b|
  {
    if b != [] {
      assert (a + b)[..|a + b| - 1] == a + b[..|b| - 1];
      FailureCountAppend(a, b[..|b| - 1]);
    } else {
      assert a + b == a;
    }
  }

  lemma FailureCountSingle(m: RowMessage)
    ensures FailureCount([m]) == if m.issue.IsWarning() then 0 else 1
  {
    assert [m][..0] == [];
  }

  /** The code-format message is only ever a warning, about the row at hand, for a code the pattern rejects. */
  lemma CodeWarningsShape(index: nat, code: string)
    ensures FailureCount(CodeWarnings(index, code)) == 0
    ensures forall m :: m in CodeWarnings(index, code) ==>
      m.row == index + 2 && m.issue.CourseCodeWarning? && !CourseCodeLooksValid(m.issue.code)
  {
    if !CourseCodeLooksValid(code) {
      FailureCountSingle(RowMessage(index + 2, CourseCodeWarning(code)));
    }
  }

  /** Each message names the file row of a non-blank data row (the header is row 1). */
  predicate MessagesPointAtRows<R>(messages: seq<RowMessage>, checks: seq<RowCheck<R>>) {
    forall k :: 0 <= k < |messages| ==>
      2 <= messages[k].row <= |checks| + 1 && !checks[messages[k].row - 2].Blank?
  }

  /** Messages appear in file order. */
  predicate InRowOrder(messages: seq<RowMessage>) {
    forall k, l :: 0 <= k < l < |messages| ==> messages[k].row <= messages[l].row
  }

  /** At most one message per row, in file order. */
  predicate OnePerRow(messages: seq<RowMessage>) {
    forall k, l :: 0 <= k < l < |messages| ==> messages[k].row < messages[l].row
  }

  /** Messages about the newest row keep the list pointing at non-blank rows, in file order. */
  lemma AppendRowMessages<R>(messages: seq<RowMessage>, extra: seq<RowMessage>, checks: seq<RowCheck<R>>)
    requires checks != [] && !checks[|checks| - 1].Blank?
    requires MessagesPointAtRows(messages, checks[..|checks| - 1]) && InRowOrder(messages)
    requires forall m :: m in extra ==> m.row == |checks| + 1
    ensures MessagesPointAtRows(messages + extra, checks) && InRowOrder(messages + extra)
  {
    var all := messages + extra;
    forall k | 0 <= k < |all|
      ensures 2 <= all[k].row <= |checks| + 1 && !checks[all[k].row - 2].Blank?
    {
      if k < |messages| {
        assert checks[..|checks| - 1][messages[k].row - 2] == checks[messages[k].row - 2];
      } else {
        assert all[k] in extra;
      }
    }
    forall k, l | 0 <= k < l < |all| ensures all[k].row <= all[l].row {
      if l >= |messages| {
        assert all[l] in extra;
        if k >= |messages| {
          assert all[k] in extra;
        }
      }
    }
  }

  // ----- accounting -----

  /** A row rejected by its checks is a failed row, never a mere warning. */
  predicate RejectionsAreFailures<R>(checks: seq<RowCheck<R>>) {
    forall j :: 0 <= j < |checks| && checks[j].Rejected? ==> !checks[j].issue.IsWarning()
  }

  lemma {:induction false} StudentChecksRejectFailures(rows: seq<Row>)
    ensures RejectionsAreFailures(CheckStudentRows(rows))
    decreases |rows|
  {
    if rows != [] {
      StudentChecksRejectFailures(rows[..|rows| - 1]);
    }
  }

  lemma {:induction false} CourseChecksRejectFailures(rows: seq<Row>)
    ensures RejectionsAreFailures(CheckCourseRows(rows))
    decreases |rows|
  {
    if rows != [] {
      CourseChecksRejectFailures(rows[..|rows| - 1]);
    }
  }

  /**
   * After the student loop: every non-blank row counted once as a success or a failure,
   * and one message per failed row, none of them a warning.
   */
  lemma {:induction false} StudentRunCounts(
    table: seq<StudentRecord>, checks: seq<RowCheck<StudentRecord>>, faults: map<nat, Fault>)
    requires RejectionsAreFailures(checks)
    requires RunStudents(table, checks, faults).Success?
    ensures var p := RunStudents(table, checks, faults).value;
      p.successful + p.failed == Counted(checks)
      && |p.messages| == p.failed
      && forall k :: 0 <= k < |p.messages| ==> !p.messages[k].issue.IsWarning()
    decreases |checks|
  {
    if checks != [] {
      var init := checks[..|checks| - 1];
      StudentRunCounts(table, init, faults);
    }
  }

  /** After the student loop, messages name non-blank rows, at most one per row, in file order. */
  lemma {:induction false} StudentRunMessages(
    table: seq<StudentRecord>, checks: seq<RowCheck<StudentRecord>>, faults: map<nat, Fault>)
    requires RunStudents(table, checks, faults).Success?
    ensures var p := RunStudents(table, checks, faults).value;
      MessagesPointAtRows(p.messages, checks) && OnePerRow(p.messages)
    decreases |checks|
  {
    if checks != [] {
      var init := checks[..|checks| - 1];
      StudentRunMessages(table, init, faults);
      StudentStepMessages(RunStudents(table, init, faults).value, checks, faults);
    }
  }

  /** The step for the newest row adds at most one message, about that row. */
  lemma StudentStepMessages(p: Progress<StudentRecord>, checks: seq<RowCheck<StudentRecord>>, faults: map<nat, Fault>)
    requires checks != []
    requires MessagesPointAtRows(p.messages, checks[..|checks| - 1]) && OnePerRow(p.messages)
    requires StudentStep(p, |checks| - 1, checks[|checks| - 1], faults).Success?
    ensures var q := StudentStep(p, |checks| - 1, checks[|checks| - 1], faults).value;
      MessagesPointAtRows(q.messages, checks) && OnePerRow(q.messages)
  {
    var i := |checks| - 1;
    match checks[i]
    case Blank =>
      assert forall j :: 0 <= j < i ==> checks[..i][j] == checks[j];
    case Rejected(issue) =>
      AppendOneRowMessage(p.messages, RowMessage(i + 2, issue), checks);
    case Accepted(record) =>
      if FaultAt(faults, i).Some? && FaultAt(faults, i).value.WriteError? {
        AppendOneRowMessage(p.messages, RowMessage(i + 2, DatabaseError(FaultAt(faults, i).value.cause)), checks);
      } else {
        assert forall j :: 0 <= j < i ==> checks[..i][j] == checks[j];
      }
  }

  /** One message about the newest, non-blank row keeps the messages pointing at rows, one per row. */
  lemma AppendOneRowMessage<R>(messages: seq<RowMessage>, m: RowMessage, checks: seq<RowCheck<R>>)
    requires checks != [] && !checks[|checks| - 1].Blank?
    requires MessagesPointAtRows(messages, checks[..|checks| - 1]) && OnePerRow(messages)
    requires m.row == |checks| + 1
    ensures MessagesPointAtRows(messages + [m], checks) && OnePerRow(messages + [m])
  {
    var all := messages + [m];
    forall k | 0 <= k < |all|
      ensures 2 <= all[k].row <= |checks| + 1 && !checks[all[k].row - 2].Blank?
    {
      if k < |messages| {
        assert checks[..|checks| - 1][messages[k].row - 2] == checks[messages[k].row - 2];
      }
    }
  }

  /** One course row moves the counters by one unless it is blank, and keeps `failed` equal to the failure messages. */
  lemma CourseStepCounts(lookup: CourseLookup, p: Progress<CourseRecord>, i: nat, c: RowCheck<CourseRecord>, faults: map<nat, Fault>)
    requires c.Rejected? ==> !c.issue.IsWarning()
    requires FailureCount(p.messages) == p.failed
    requires CourseStep(lookup, p, i, c, faults).Success?
    ensures var q := CourseStep(lookup, p, i, c, faults).value;
      q.successful + q.failed == p.successful + p.failed + (if c.Blank? then 0 else 1)
      && FailureCount(q.messages) == q.failed
  {
    match c
    case Blank =>
    case Rejected(issue) =>
      FailureCountAppend(p.messages, [RowMessage(i + 2, issue)]);
      FailureCountSingle(RowMessage(i + 2, issue));
    case Accepted(record) =>
      var warned := p.messages + CodeWarnings(i, record.code);
      CodeWarningsShape(i, record.code);
      FailureCountAppend(p.messages, CodeWarnings(i, record.code));
      if FaultAt(faults, i).Some? && FaultAt(faults, i).value.WriteError? {
        var m := RowMessage(i + 2, DatabaseError(FaultAt(faults, i).value.cause));
        FailureCountAppend(warned, [m]);
        FailureCountSingle(m);
      }
  }

  /**
   * After the course loop: every non-blank row counted once, and `failed` equal to the
   * number of non-warning messages.
   */
  lemma {:induction false} CourseRunCounts(
    lookup: CourseLookup, table: seq<CourseRecord>, checks: seq<RowCheck<CourseRecord>>, faults: map<nat, Fault>)
    requires RejectionsAreFailures(checks)
    requires RunCourses(lookup, table, checks, faults).Success?
    ensures var p := RunCourses(lookup, table, checks, faults).value;
      p.successful + p.failed == Counted(checks) && FailureCount(p.messages) == p.failed
    decreases |checks|
  {
    if checks != [] {
      var init := checks[..|checks| - 1];
      var i := |checks| - 1;
      assert checks[i] == checks[|checks| - 1];
      CourseRunCounts(lookup, table, init, faults);
      CourseStepCounts(lookup, RunCourses(lookup, table, init, faults).value, i, checks[i], faults);
    }
  }

  /** After the course loop, messages name non-blank rows, in file order. */
  lemma {:induction false} CourseRunMessages(
    lookup: CourseLookup, table: seq<CourseRecord>, checks: seq<RowCheck<CourseRecord>>, faults: map<nat, Fault>)
    requires RunCourses(lookup, table, checks, faults).Success?
    ensures var p := RunCourses(lookup, table, checks, faults).value;
      MessagesPointAtRows(p.messages, checks) && InRowOrder(p.messages)
    decreases |checks|
  {
    if checks != [] {
      var init := checks[..|checks| - 1];
      CourseRunMessages(lookup, table, init, faults);
      CourseStepMessages(lookup, RunCourses(lookup, table, init, faults).value, checks, faults);
    }
  }

  /** The step for the newest row keeps the messages pointing at non-blank rows, in file order. */
  lemma CourseStepMessages(lookup: CourseLookup, p: Progress<CourseRecord>, checks: seq<RowCheck<CourseRecord>>, faults: map<nat, Fault>)
    requires checks != []
    requires MessagesPointAtRows(p.messages, checks[..|checks| - 1]) && InRowOrder(p.messages)
    requires CourseStep(lookup, p, |checks| - 1, checks[|checks| - 1], faults).Success?
    ensures var q := CourseStep(lookup, p, |checks| - 1, checks[|checks| - 1], faults).value;
      MessagesPointAtRows(q.messages, checks) && InRowOrder(q.messages)
  {
    var i := |checks| - 1;
    match checks[i]
    case Blank =>
      assert forall j :: 0 <= j < i ==> checks[..i][j] == checks[j];
    case Rejected(issue) =>
      AppendRowMessages(p.messages, [RowMessage(i + 2, issue)], checks);
    case Accepted(record) =>
      CodeWarningsShape(i, record.code);
      if FaultAt(faults, i).Some? && FaultAt(faults, i).value.WriteError? {
        var m := RowMessage(i + 2, DatabaseError(FaultAt(faults, i).value.cause));
        AppendRowMessages(p.messages, CodeWarnings(i, record.code) + [m], checks);
        assert p.messages + CodeWarnings(i, record.code) + [m] == p.messages + (CodeWarnings(i, record.code) + [m]);
      } else {
        AppendRowMessages(p.messages, CodeWarnings(i, record.code), checks);
      }
  }

  /** After the course loop, every code warning names a code the pattern rejects. */
  lemma {:induction false} CourseRunWarnings(
    lookup: CourseLookup, table: seq<CourseRecord>, checks: seq<RowCheck<CourseRecord>>, faults: map<nat, Fault>)
    requires RejectionsAreFailures(checks)
    requires RunCourses(lookup, table, checks, faults).Success?
    ensures WarningsNameBadCodes(RunCourses(lookup, table, checks, faults).value.messages)
    decreases |checks|
  {
    if checks != [] {
      var init := checks[..|checks| - 1];
      var i := |checks| - 1;
      assert checks[i] == checks[|checks| - 1];
      CourseRunWarnings(lookup, table, init, faults);
      CourseStepWarnings(lookup, RunCourses(lookup, table, init, faults).value, i, checks[i], faults);
    }
  }

  /** Code warnings name rejected codes. */
  predicate WarningsNameBadCodes(messages: seq<RowMessage>) {
    forall k :: 0 <= k < |messages| && messages[k].issue.CourseCodeWarning? ==>
      !CourseCodeLooksValid(messages[k].issue.code)
  }

  /** One course row adds only warnings about codes the pattern rejects. */
  lemma CourseStepWarnings(lookup: CourseLookup, p: Progress<CourseRecord>, i: nat, c: RowCheck<CourseRecord>, faults: map<nat, Fault>)
    requires c.Rejected? ==> !c.issue.IsWarning()
    requires WarningsNameBadCodes(p.messages)
    requires CourseStep(lookup, p, i, c, faults).Success?
    ensures WarningsNameBadCodes(CourseStep(lookup, p, i, c, faults).value.messages)
  {
    var q := CourseStep(lookup, p, i, c, faults).value;
    if c.Accepted? {
      CodeWarningsShape(i, c.record.code);
    }
    forall k | 0 <= k < |q.messages| && q.messages[k].issue.CourseCodeWarning?
      ensures !CourseCodeLooksValid(q.messages[k].issue.code)
    {
      if k >= |p.messages| {
        assert q.messages[k] in q.messages[|p.messages|..];
      }
    }
  }

  // ----- which message each row earns -----

  /**
   * The failure message the data row at `j` earns: its rejection, or the error its write
   * raised. A blank row and a row written without fault earn none.
   */
  function RowFailure<R>(j: nat, c: RowCheck<R>, faults: map<nat, Fault>): Option<RowMessage> {
    match c
    case Blank => None
    case Rejected(issue) => Some(RowMessage(j + 2, issue))
    case Accepted(_) =>
      if FaultAt(faults, j).Some? && FaultAt(faults, j).value.WriteError? then
        Some(RowMessage(j + 2, DatabaseError(FaultAt(faults, j).value.cause)))
      else None
  }

  /** The warning an accepted course row at `j` earns when its code does not look like a course code. */
  function RowWarning(j: nat, c: RowCheck<CourseRecord>): Option<RowMessage> {
    if c.Accepted? && !CourseCodeLooksValid(c.record.code) then
      Some(RowMessage(j + 2, CourseCodeWarning(c.record.code)))
    else None
  }

  /** A row succeeds when it passed its checks and its write raised nothing, whatever its warnings. */
  predicate RowSucceeds<R>(j: nat, c: RowCheck<R>, faults: map<nat, Fault>) {
    c.Accepted? && FaultAt(faults, j).None?
  }

  /** The number of rows that succeed. */
  function Successes<R>(checks: seq<RowCheck<R>>, faults: map<nat, Fault>): (n: nat)
    ensures n <= |checks|
    decreases |checks|
  {
    if checks == [] then 0
    else
      var j := |checks| - 1;
      Successes(checks[..j], faults) + (if RowSucceeds(j, checks[j], faults) then 1 else 0)
  }

  /** Every row that earns a failure message has it in the list. */
  predicate FailuresReported<R>(messages: seq<RowMessage>, checks: seq<RowCheck<R>>, faults: map<nat, Fault>) {
    forall j :: 0 <= j < |checks| && RowFailure(j, checks[j], faults).Some? ==>
      RowFailure(j, checks[j], faults).value in messages
  }

  /** Every course row that earns a code warning has it in the list. */
  predicate WarningsReported(messages: seq<RowMessage>, checks: seq<RowCheck<CourseRecord>>) {
    forall j :: 0 <= j < |checks| && RowWarning(j, checks[j]).Some? ==> RowWarning(j, checks[j]).value in messages
  }

  /** Every message is the failure message of the row it names. */
  predicate FailuresExplain<R>(messages: seq<RowMessage>, checks: seq<RowCheck<R>>, faults: map<nat, Fault>) {
    forall k :: 0 <= k < |messages| ==>
      2 <= messages[k].row <= |checks| + 1
      && RowFailure(messages[k].row - 2, checks[messages[k].row - 2], faults) == Some(messages[k])
  }

  /** Every message is the failure message or the code warning of the row it names. */
  predicate CourseMessagesExplain(messages: seq<RowMessage>, checks: seq<RowCheck<CourseRecord>>, faults: map<nat, Fault>) {
    forall k :: 0 <= k < |messages| ==>
      2 <= messages[k].row <= |checks| + 1
      && (RowFailure(messages[k].row - 2, checks[messages[k].row - 2], faults) == Some(messages[k])
          || RowWarning(messages[k].row - 2, checks[messages[k].row - 2]) == Some(messages[k]))
  }

  /** The messages of the newest row keep every earlier failure reported and add the newest row's. */
  lemma ReportFailures<R>(messages: seq<RowMessage>, extra: seq<RowMessage>, checks: seq<RowCheck<R>>, faults: map<nat, Fault>)
    requires checks != []
    requires FailuresReported(messages, checks[..|checks| - 1], faults)
    requires var f := RowFailure(|checks| - 1, checks[|checks| - 1], faults); f.Some? ==> f.value in extra
    ensures FailuresReported(messages + extra, checks, faults)
  {
    var i := |checks| - 1;
    forall j | 0 <= j < |checks| && RowFailure(j, checks[j], faults).Some?
      ensures RowFailure(j, checks[j], faults).value in messages + extra
    {
      if j < i {
        assert checks[..i][j] == checks[j];
      }
    }
  }

  /** As `ReportFailures`, for code warnings. */
  lemma ReportWarnings(messages: seq<RowMessage>, extra: seq<RowMessage>, checks: seq<RowCheck<CourseRecord>>)
    requires checks != []
    requires WarningsReported(messages, checks[..|checks| - 1])
    requires var w := RowWarning(|checks| - 1, checks[|checks| - 1]); w.Some? ==> w.value in extra
    ensures WarningsReported(messages + extra, checks)
  {
    var i := |checks| - 1;
    forall j | 0 <= j < |checks| && RowWarning(j, checks[j]).Some?
      ensures RowWarning(j, checks[j]).value in messages + extra
    {
      if j < i {
        assert checks[..i][j] == checks[j];
      }
    }
  }

  /** Messages the newest row earns keep every message explained. */
  lemma ExplainFailures<R>(messages: seq<RowMessage>, extra: seq<RowMessage>, checks: seq<RowCheck<R>>, faults: map<nat, Fault>)
    requires checks != []
    requires FailuresExplain(messages, checks[..|checks| - 1], faults)
    requires forall m :: m in extra ==> RowFailure(|checks| - 1, checks[|checks| - 1], faults) == Some(m)
    ensures FailuresExplain(messages + extra, checks, faults)
  {
    var i := |checks| - 1;
    var all := messages + extra;
    forall k | 0 <= k < |all|
      ensures 2 <= all[k].row <= |checks| + 1 && RowFailure(all[k].row - 2, checks[all[k].row - 2], faults) == Some(all[k])
    {
      if k < |messages| {
        assert checks[..i][messages[k].row - 2] == checks[messages[k].row - 2];
      } else {
        assert all[k] in extra;
      }
    }
  }

  /** As `ExplainFailures`, for course rows, whose messages may also be code warnings. */
  lemma ExplainCourseMessages(
    messages: seq<RowMessage>, extra: seq<RowMessage>, checks: seq<RowCheck<CourseRecord>>, faults: map<nat, Fault>)
    requires checks != []
    requires CourseMessagesExplain(messages, checks[..|checks| - 1], faults)
    requires forall m :: m in extra ==>
      RowFailure(|checks| - 1, checks[|checks| - 1], faults) == Some(m) || RowWarning(|checks| - 1, checks[|checks| - 1]) == Some(m)
    ensures CourseMessagesExplain(messages + extra, checks, faults)
  {
    var i := |checks| - 1;
    var all := messages + extra;
    forall k | 0 <= k < |all|
      ensures 2 <= all[k].row <= |checks| + 1
        && (RowFailure(all[k].row - 2, checks[all[k].row - 2], faults) == Some(all[k])
            || RowWarning(all[k].row - 2, checks[all[k].row - 2]) == Some(all[k]))
    {
      if k < |messages| {
        assert checks[..i][messages[k].row - 2] == checks[messages[k].row - 2];
      } else {
        assert all[k] in extra;
      }
    }
  }

  /** The list of the message an optional message holds. */
  function Listed(m: Option<RowMessage>): (r: seq<RowMessage>)
    ensures forall x :: x in r <==> m == Some(x)
  {
    if m.Some? then [m.value] else []
  }

  /**
   * After the student loop: every row that was rejected or whose write failed has its message,
   * `RowMessage(j + 2, issue)` or `RowMessage(j + 2, DatabaseError(cause))`; every message is
   * such a row's; and the successes are the accepted rows written without fault.
   */
  lemma {:induction false} StudentRunReports(
    table: seq<StudentRecord>, checks: seq<RowCheck<StudentRecord>>, faults: map<nat, Fault>)
    requires RunStudents(table, checks, faults).Success?
    ensures var p := RunStudents(table, checks, faults).value;
      FailuresReported(p.messages, checks, faults) && FailuresExplain(p.messages, checks, faults)
      && p.successful == Successes(checks, faults)
    decreases |checks|
  {
    if checks != [] {
      var init := checks[..|checks| - 1];
      StudentRunReports(table, init, faults);
      StudentStepReports(RunStudents(table, init, faults).value, checks, faults);
    }
  }

  lemma StudentStepReports(p: Progress<StudentRecord>, checks: seq<RowCheck<StudentRecord>>, faults: map<nat, Fault>)
    requires checks != []
    requires FailuresReported(p.messages, checks[..|checks| - 1], faults)
    requires FailuresExplain(p.messages, checks[..|checks| - 1], faults)
    requires p.successful == Successes(checks[..|checks| - 1], faults)
    requires StudentStep(p, |checks| - 1, checks[|checks| - 1], faults).Success?
    ensures var q := StudentStep(p, |checks| - 1, checks[|checks| - 1], faults).value;
      FailuresReported(q.messages, checks, faults) && FailuresExplain(q.messages, checks, faults)
      && q.successful == Successes(checks, faults)
  {
    var i := |checks| - 1;
    var extra := Listed(RowFailure(i, checks[i], faults));
    assert StudentStep(p, i, checks[i], faults).value.messages == p.messages + extra;
    ReportFailures(p.messages, extra, checks, faults);
    ExplainFailures(p.messages, extra, checks, faults);
  }

  /**
   * After the course loop: every failure reported as for students, every accepted row with an
   * unusual code warned about, with `RowMessage(j + 2, CourseCodeWarning(code))`, every message
   * a failure or warning of the row it names, and the successes the accepted rows written
   * without fault, warned or not.
   */
  lemma {:induction false} CourseRunReports(
    lookup: CourseLookup, table: seq<CourseRecord>, checks: seq<RowCheck<CourseRecord>>, faults: map<nat, Fault>)
    requires RunCourses(lookup, table, checks, faults).Success?
    ensures var p := RunCourses(lookup, table, checks, faults).value;
      FailuresReported(p.messages, checks, faults) && WarningsReported(p.messages, checks)
      && CourseMessagesExplain(p.messages, checks, faults)
      && p.successful == Successes(checks, faults)
    decreases |checks|
  {
    if checks != [] {
      var init := checks[..|checks| - 1];
      CourseRunReports(lookup, table, init, faults);
      CourseStepReports(lookup, RunCourses(lookup, table, init, faults).value, checks, faults);
    }
  }

  lemma CourseStepReports(lookup: CourseLookup, p: Progress<CourseRecord>, checks: seq<RowCheck<CourseRecord>>, faults: map<nat, Fault>)
    requires checks != []
    requires FailuresReported(p.messages, checks[..|checks| - 1], faults)
    requires WarningsReported(p.messages, checks[..|checks| - 1])
    requires CourseMessagesExplain(p.messages, checks[..|checks| - 1], faults)
    requires p.successful == Successes(checks[..|checks| - 1], faults)
    requires CourseStep(lookup, p, |checks| - 1, checks[|checks| - 1], faults).Success?
    ensures var q := CourseStep(lookup, p, |checks| - 1, checks[|checks| - 1], faults).value;
      FailuresReported(q.messages, checks, faults) && WarningsReported(q.messages, checks)
      && CourseMessagesExplain(q.messages, checks, faults)
      && q.successful == Successes(checks, faults)
  {
    var i := |checks| - 1;
    var warned := Listed(RowWarning(i, checks[i]));
    var extra := warned + Listed(RowFailure(i, checks[i], faults));
    assert CourseStep(lookup, p, i, checks[i], faults).value.messages == p.messages + extra by {
      if checks[i].Accepted? {
        assert CodeWarnings(i, checks[i].record.code) == warned;
      }
    }
    ReportFailures(p.messages, extra, checks, faults);
    ReportWarnings(p.messages, extra, checks);
    ExplainCourseMessages(p.messages, extra, checks, faults);
  }

  // ----- aborting -----

  /**
   * The student loop aborts only on an escaping query error, and then with that error's
   * message; with no query error among the faults it always completes.
   */
  lemma {:induction false} StudentRunAbortsOnlyOnQueryError(
    table: seq<StudentRecord>, checks: seq<RowCheck<StudentRecord>>, faults: map<nat, Fault>)
    ensures RunStudents(table, checks, faults).Failure? ==>
      exists i :: 0 <= i < |checks| && i in faults && faults[i] == QueryError(RunStudents(table, checks, faults).error)
    ensures (forall i :: 0 <= i < |checks| && i in faults ==> faults[i].WriteError?) ==>
      RunStudents(table, checks, faults).Success?
    decreases |checks|
  {
    if checks != [] {
      StudentRunAbortsOnlyOnQueryError(table, checks[..|checks| - 1], faults);
    }
  }

  lemma {:induction false} CourseRunAbortsOnlyOnQueryError(
    lookup: CourseLookup, table: seq<CourseRecord>, checks: seq<RowCheck<CourseRecord>>, faults: map<nat, Fault>)
    ensures RunCourses(lookup, table, checks, faults).Failure? ==>
      exists i :: 0 <= i < |checks| && i in faults && faults[i] == QueryError(RunCourses(lookup, table, checks, faults).error)
    ensures (forall i :: 0 <= i < |checks| && i in faults ==> faults[i].WriteError?) ==>
      RunCourses(lookup, table, checks, faults).Success?
    decreases |checks|
  {
    if checks != [] {
      CourseRunAbortsOnlyOnQueryError(lookup, table, checks[..|checks| - 1], faults);
    }
  }

  // ----- what the tables hold -----

  /** The university ids of the rows that passed their checks. */
  function AcceptedIds(checks: seq<RowCheck<StudentRecord>>): set<int>
    decreases |checks|
  {
    if checks == [] then {}
    else
      var c := checks[|checks| - 1];
      AcceptedIds(checks[..|checks| - 1]) + (if c.Accepted? then {c.record.universityId} else {})
  }

  /**
   * The student loop never removes an id, adds only ids of accepted rows (all of them
   * when nothing faults), and keeps ids unique.
   */
  lemma {:induction false} StudentRunIds(
    table: seq<StudentRecord>, checks: seq<RowCheck<StudentRecord>>, faults: map<nat, Fault>)
    requires RunStudents(table, checks, faults).Success?
    ensures var t := RunStudents(table, checks, faults).value.table;
      StudentIds(table) <= StudentIds(t) <= StudentIds(table) + AcceptedIds(checks)
      && (faults == map[] ==> StudentIds(t) == StudentIds(table) + AcceptedIds(checks))
      && (UniqueStudentIds(table) ==> UniqueStudentIds(t))
    decreases |checks|
  {
    if checks != [] {
      StudentRunIds(table, checks[..|checks| - 1], faults);
    }
  }

  /** A file whose accepted rows all name existing students changes no row count and no id. */
  lemma {:induction false} StudentRunOfKnownIds(table: seq<StudentRecord>, checks: seq<RowCheck<StudentRecord>>)
    requires AcceptedIds(checks) <= StudentIds(table)
    ensures RunStudents(table, checks, map[]).Success?
    ensures |RunStudents(table, checks, map[]).value.table| == |table|
    ensures StudentIds(RunStudents(table, checks, map[]).value.table) == StudentIds(table)
    decreases |checks|
  {
    if checks != [] {
      StudentRunOfKnownIds(table, checks[..|checks| - 1]);
    }
  }

  /** Importing the same student file a second time creates no student. */
  lemma StudentReimportCreatesNothing(table: seq<StudentRecord>, checks: seq<RowCheck<StudentRecord>>)
    ensures RunStudents(table, checks, map[]).Success?
    ensures var once := RunStudents(table, checks, map[]).value.table;
      RunStudents(once, checks, map[]).Success?
      && |RunStudents(once, checks, map[]).value.table| == |once|
  {
    StudentRunAbortsOnlyOnQueryError(table, checks, map[]);
    StudentRunIds(table, checks, map[]);
    StudentRunOfKnownIds(RunStudents(table, checks, map[]).value.table, checks);
  }

  /** The (code, section) keys of the rows that passed their checks. */
  function AcceptedKeys(checks: seq<RowCheck<CourseRecord>>): set<(string, string)>
    decreases |checks|
  {
    if checks == [] then {}
    else
      var c := checks[|checks| - 1];
      AcceptedKeys(checks[..|checks| - 1]) + (if c.Accepted? then {CourseKey(c.record)} else {})
  }

  /**
   * With the lookup by stored section, the course loop never removes a key, adds only keys
   * of accepted rows, and keeps keys unique.
   */
  lemma {:induction false} CourseRunKeys(
    table: seq<CourseRecord>, checks: seq<RowCheck<CourseRecord>>, faults: map<nat, Fault>)
    requires RunCourses(ByStoredSection, table, checks, faults).Success?
    ensures var t := RunCourses(ByStoredSection, table, checks, faults).value.table;
      CourseKeys(table) <= CourseKeys(t) <= CourseKeys(table) + AcceptedKeys(checks)
      && (faults == map[] ==> CourseKeys(t) == CourseKeys(table) + AcceptedKeys(checks))
      && (UniqueCourseKeys(table) ==> UniqueCourseKeys(t))
    decreases |checks|
  {
    if checks != [] {
      CourseRunKeys(table, checks[..|checks| - 1], faults);
    }
  }

  /** With the lookup by stored section, rows whose keys are all stored create nothing. */
  lemma {:induction false} CourseRunOfKnownKeys(table: seq<CourseRecord>, checks: seq<RowCheck<CourseRecord>>)
    requires AcceptedKeys(checks) <= CourseKeys(table)
    ensures RunCourses(ByStoredSection, table, checks, map[]).Success?
    ensures |RunCourses(ByStoredSection, table, checks, map[]).value.table| == |table|
    ensures CourseKeys(RunCourses(ByStoredSection, table, checks, map[]).value.table) == CourseKeys(table)
    decreases |checks|
  {
    if checks != [] {
      CourseRunOfKnownKeys(table, checks[..|checks| - 1]);
    }
  }

  /**
   * With the lookup by stored section, importing the same course file a second time creates
   * no course, whatever its sections.
   */
  lemma CourseReimportCreatesNothing(table: seq<CourseRecord>, checks: seq<RowCheck<CourseRecord>>)
    ensures RunCourses(ByStoredSection, table, checks, map[]).Success?
    ensures var once := RunCourses(ByStoredSection, table, checks, map[]).value.table;
      RunCourses(ByStoredSection, once, checks, map[]).Success?
      && |RunCourses(ByStoredSection, once, checks, map[]).value.table| == |once|
  {
    CourseRunAbortsOnlyOnQueryError(ByStoredSection, table, checks, map[]);
    CourseRunKeys(table, checks, map[]);
    CourseRunOfKnownKeys(RunCourses(ByStoredSection, table, checks, map[]).value.table, checks);
  }

  /** Under either lookup the loop removes no row and adds at most one per row. */
  lemma {:induction false} CourseRunRowCount(
    lookup: CourseLookup, table: seq<CourseRecord>, checks: seq<RowCheck<CourseRecord>>, faults: map<nat, Fault>)
    requires RunCourses(lookup, table, checks, faults).Success?
    ensures |table| <= |RunCourses(lookup, table, checks, faults).value.table| <= |table| + |checks|
    decreases |checks|
  {
    if checks != [] {
      CourseRunRowCount(lookup, table, checks[..|checks| - 1], faults);
    }
  }

  // ----- the section "0" lookup -----

  /** A complete course file row whose section cell is "0". */
  const SectionZeroRow: Row :=
    ["CS101", "Programming", "Dr. Smith", "0", "3", "B-201", "Lecture", "MWF", "10:00", "Engineering"]

  lemma TrimOfClean(s: string)
    requires s == [] || (!IsTrimChar(s[0]) && !IsTrimChar(s[|s| - 1]))
    ensures Trim(s) == s
  {
    TrimLeftOfClean(s);
    TrimRightOfClean(s);
  }

  /** A string `trim()` leaves alone and PHP does not count as empty. */
  predicate CleanValue(s: string) {
    s != [] && !IsTrimChar(s[0]) && !IsTrimChar(s[|s| - 1]) && !IsEmptyString(s)
  }

  /** A row whose code, name and section cells are clean passes its checks with them. */
  lemma CleanCourseRowAccepted(row: Row)
    requires |row| >= 4 && CleanValue(row[0]) && CleanValue(row[1]) && row[3] != []
    requires !IsTrimChar(row[3][0]) && !IsTrimChar(row[3][|row[3]| - 1])
    ensures CheckCourseRow(row).Accepted?
    ensures CheckCourseRow(row).record.code == row[0]
    ensures CheckCourseRow(row).record.section == Some(row[3])
  {
    var f := MapCourseRow(row);
    TrimOfClean(row[0]);
    TrimOfClean(row[1]);
    TrimOfClean(row[3]);
    assert !IsBlankRow(row) by { assert !IsEmptyString(row[0]); }
  }

  /** The row passes its checks, with section "0". */
  lemma SectionZeroRowAccepted()
    ensures CheckCourseRow(SectionZeroRow).Accepted?
    ensures CheckCourseRow(SectionZeroRow).record.code == "CS101"
    ensures CheckCourseRow(SectionZeroRow).record.section == Some("0")
  {
    CleanCourseRowAccepted(SectionZeroRow);
  }

  /** One accepted row run through the loop on a table, with no fault. */
  lemma OneRowRun(lookup: CourseLookup, table: seq<CourseRecord>, c: RowCheck<CourseRecord>)
    requires c.Accepted?
    ensures RunCourses(lookup, table, [c], map[]).Success?
    ensures RunCourses(lookup, table, [c], map[]).value.table == UpsertCourseWith(lookup, table, c.record)
  {
    assert [c][..0] == [];
  }

  /** An accepted row for course CS101 with section "0". */
  predicate IsSectionZeroCheck(c: RowCheck<CourseRecord>) {
    c.Accepted? && c.record.code == "CS101" && c.record.section == Some("0")
  }

  lemma SectionZeroCheck()
    ensures IsSectionZeroCheck(CheckCourseRow(SectionZeroRow))
  {
    SectionZeroRowAccepted();
  }

  lemma DuplicatesAsWritten(c: RowCheck<CourseRecord>)
    requires IsSectionZeroCheck(c)
    ensures var once := RunCourses(AsWritten, [], [c], map[]);
      once.Success? && |once.value.table| == 1
      && var twice := RunCourses(AsWritten, once.value.table, [c], map[]);
         twice.Success? && |twice.value.table| == 2
         && CourseKey(twice.value.table[0]) == CourseKey(twice.value.table[1])
  {
    OneRowRun(AsWritten, [], c);
    var once := UpsertCourseAsWritten([], c.record);
    OneRowRun(AsWritten, once, c);
  }

  /**
   * As written, the lookup reads section "0" as "", finds nothing, and creates the
   * course again: the same file imported twice leaves two rows with one key.
   */
  lemma SectionZeroDuplicatesAsWritten()
    ensures var checks := [CheckCourseRow(SectionZeroRow)];
      var once := RunCourses(AsWritten, [], checks, map[]);
      once.Success? && |once.value.table| == 1
      && var twice := RunCourses(AsWritten, once.value.table, checks, map[]);
         twice.Success? && |twice.value.table| == 2
         && CourseKey(twice.value.table[0]) == CourseKey(twice.value.table[1])
  {
    SectionZeroCheck();
    DuplicatesAsWritten(CheckCourseRow(SectionZeroRow));
  }

  lemma OverwritesBlankAsWritten(blank: CourseRecord, c: RowCheck<CourseRecord>)
    requires blank.code == "CS101" && blank.section == Some("") && IsSectionZeroCheck(c)
    ensures var t := RunCourses(AsWritten, [blank], [c], map[]);
      t.Success? && |t.value.table| == 1 && CourseKey(t.value.table[0]) == ("CS101", "0")
  {
    OneRowRun(AsWritten, [blank], c);
  }

  /**
   * As written, a row with section "0" finds the stored course of the same code whose section
   * is "" and overwrites its section with "0": the course without a section is gone.
   */
  lemma SectionZeroOverwritesBlankAsWritten(blank: CourseRecord)
    requires blank.code == "CS101" && blank.section == Some("")
    ensures var t := RunCourses(AsWritten, [blank], [CheckCourseRow(SectionZeroRow)], map[]);
      t.Success? && |t.value.table| == 1 && CourseKey(t.value.table[0]) == ("CS101", "0")
  {
    SectionZeroCheck();
    OverwritesBlankAsWritten(blank, CheckCourseRow(SectionZeroRow));
  }

  /** With the lookup by stored section, the same row imported twice leaves one row. */
  lemma SectionZeroImportedOnce()
    ensures var checks := [CheckCourseRow(SectionZeroRow)];
      var once := RunCourses(ByStoredSection, [], checks, map[]);
      once.Success? && |once.value.table| == 1
      && RunCourses(ByStoredSection, once.value.table, checks, map[]).Success?
      && |RunCourses(ByStoredSection, once.value.table, checks, map[]).value.table| == 1
  {
    SectionZeroRowAccepted();
    var checks := [CheckCourseRow(SectionZeroRow)];
    assert checks[..0] == [];
    CourseReimportCreatesNothing([], checks);
  }

  lemma KeepsBlank(blank: CourseRecord, c: RowCheck<CourseRecord>)
    requires blank.code == "CS101" && blank.section == Some("") && IsSectionZeroCheck(c)
    ensures var t := RunCourses(ByStoredSection, [blank], [c], map[]);
      t.Success? && |t.value.table| == 2 && t.value.table[0] == blank
      && CourseKey(t.value.table[1]) == ("CS101", "0")
  {
    OneRowRun(ByStoredSection, [blank], c);
  }

  /** With the lookup by stored section, the row keeps the stored course with section "" apart. */
  lemma SectionZeroKeepsBlank(blank: CourseRecord)
    requires blank.code == "CS101" && blank.section == Some("")
    ensures var t := RunCourses(ByStoredSection, [blank], [CheckCourseRow(SectionZeroRow)], map[]);
      t.Success? && |t.value.table| == 2 && t.value.table[0] == blank
      && CourseKey(t.value.table[1]) == ("CS101", "0")
  {
    SectionZeroCheck();
    KeepsBlank(blank, CheckCourseRow(SectionZeroRow));
  }

  // ----- the endpoints -----

  /**
   * `importStudents`: a non-200 response is an error response and leaves the table as it
   * was; a 200 response reports every non-blank data row once and one message per failure.
   */
  lemma StudentsImportResponse(table: seq<StudentRecord>, extension: string, content: FileContent, faults: map<nat, Fault>)
    ensures var o := StudentsImport(table, extension, content, faults);
      o.response.status in {200, 400, 500}
      && (o.response.status != 200 ==> o.table == table && !o.response.success && o.response.data.None?)
      && (o.response.status == 400 <==> ParseFile(extension, content).Success? && |ParseFile(extension, content).value| < 2)
      && (o.response.status == 200 ==>
            o.response.success && o.response.data.Some?
            && var data := ParseFile(extension, content).value;
               |data| >= 2 && MissingStudentColumns(data[0]) == []
               && o.response.data.value.totalProcessed == NonBlankRows(data[1..])
               && |o.response.data.value.errors| == o.response.data.value.failed
               && o.response.data.value.semester.None?)
  {
    var parsed := ParseFile(extension, content);
    if parsed.Success? && |parsed.value| >= 2 && MissingStudentColumns(parsed.value[0]) == [] {
      var checks := CheckStudentRows(parsed.value[1..]);
      if RunStudents(table, checks, faults).Success? {
        StudentChecksRejectFailures(parsed.value[1..]);
        StudentRunCounts(table, checks, faults);
        CountedStudentRows(parsed.value[1..]);
      }
    }
  }

  /**
   * `importCourses`: as for students, except that a code warning is a message
   * without being a failure, so `failed` counts the non-warning messages; a
   * 200 response echoes the semester.
   */
  lemma CoursesImportResponse(
    lookup: CourseLookup, table: seq<CourseRecord>, extension: string, content: FileContent, semester: string, faults: map<nat, Fault>)
    ensures var o := CoursesImport(lookup, table, extension, content, semester, faults);
      o.response.status in {200, 400, 500}
      && (o.response.status != 200 ==> o.table == table && !o.response.success && o.response.data.None?)
      && (o.response.status == 400 <==> ParseFile(extension, content).Success? && |ParseFile(extension, content).value| < 2)
      && (o.response.status == 200 ==>
            o.response.success && o.response.data.Some?
            && var data := ParseFile(extension, content).value;
               |data| >= 2 && MissingCourseColumns(data[0]) == []
               && o.response.data.value.totalProcessed == NonBlankRows(data[1..])
               && o.response.data.value.failed <= |o.response.data.value.errors|
               && o.response.data.value.semester == Some(semester)
               && RunCourses(lookup, table, CheckCourseRows(data[1..]), faults).Success?
               && (var p := RunCourses(lookup, table, CheckCourseRows(data[1..]), faults).value;
                   o.response.data.value.errors == RenderAll(p.messages)
                   && o.response.data.value.failed == FailureCount(p.messages)))
  {
    var parsed := ParseFile(extension, content);
    if parsed.Success? && |parsed.value| >= 2 && MissingCourseColumns(parsed.value[0]) == [] {
      var checks := CheckCourseRows(parsed.value[1..]);
      if RunCourses(lookup, table, checks, faults).Success? {
        CourseChecksRejectFailures(parsed.value[1..]);
        CourseRunCounts(lookup, table, checks, faults);
        CountedCourseRows(parsed.value[1..]);
      }
    }
  }
}
