/**
 * The change-of-grade form helpers: the report id, the list of supporting
 * documents, the submitter shown on a report, the fan-out of a report to
 * several addresses, and the replacement of the public university number by
 * the internal student id before a form is written.
 */
module GradeReports {
  import opened Wrappers
  import opened Php
  import opened Values

  // ----- Report id -----

  const ReportPrefix := "CGF-"

  /**
   * `'CGF-' . str_pad($id, 6, '0', STR_PAD_LEFT)`, where `$id` is the route parameter as
   * the client wrote it: padded to six characters, never truncated, kept as it is after the prefix.
   */
  function ReportId(routeId: string): (r: string)
    ensures |r| == 4 + (if |routeId| >= 6 then |routeId| else 6)
    ensures r[..4] == ReportPrefix
    ensures r[|r| - |routeId|..] == routeId
    ensures forall i :: 4 <= i < |r| - |routeId| ==> r[i] == '0'
  {
    var padded := PadLeft(routeId, 6, '0');
    assert (ReportPrefix + padded)[4..] == padded;
    ReportPrefix + padded
  }

  /** Leading zeros do not change the value of a digit string. */
  lemma {:induction false} LeadingZerosValue(k: nat, s: string)
    requires AllDigits(s)
    ensures AllDigits(Repeat('0', k) + s)
    ensures DigitsValue(Repeat('0', k) + s) == DigitsValue(s)
    decreases |s|
  {
    var z := Repeat('0', k);
    if s == [] {
      assert z + s == z;
      ZerosValue(k);
    } else {
      var init := s[..|s| - 1];
      LeadingZerosValue(k, init);
      assert (z + s)[..|z + s| - 1] == z + init;
    }
  }

  lemma {:induction false} ZerosValue(k: nat)
    ensures AllDigits(Repeat('0', k))
    ensures DigitsValue(Repeat('0', k)) == 0
  {
    if k > 0 {
      ZerosValue(k - 1);
      assert Repeat('0', k)[..k - 1] == Repeat('0', k - 1);
    }
  }

  /** For a route id of digits, the digits after the prefix denote the same number. */
  lemma ReportIdKeepsValue(routeId: string)
    requires AllDigits(routeId)
    ensures AllDigits(ReportId(routeId)[4..])
    ensures DigitsValue(ReportId(routeId)[4..]) == DigitsValue(routeId)
  {
    assert ReportId(routeId)[4..] == PadLeft(routeId, 6, '0');
    if |routeId| < 6 {
      LeadingZerosValue(6 - |routeId|, routeId);
    }
  }

  /**
   * For the id written in decimal without leading zeros, the digits after the prefix read
   * back as the form's id, so distinct forms never share a report id.
   */
  lemma ReportIdRoundTrip(id: nat)
    ensures AllDigits(ReportId(NatToString(id))[4..])
    ensures DigitsValue(ReportId(NatToString(id))[4..]) == id
  {
    NatToStringRoundTrip(id);
    ReportIdKeepsValue(NatToString(id));
  }

  lemma ReportIdInjective(a: nat, b: nat)
    requires ReportId(NatToString(a)) == ReportId(NatToString(b))
    ensures a == b
  {
    ReportIdRoundTrip(a);
    ReportIdRoundTrip(b);
  }

  /**
   * Form 42 requested as "42" gets "CGF-000042"; requested as "00000042" it gets
   * "CGF-00000042", and as "042" the same id as "42".
   */
  lemma ReportIdExample()
    ensures ReportId("42") == "CGF-000042"
    ensures ReportId("00000042") == "CGF-00000042"
    ensures ReportId("042") == ReportId("42")
  {
  }

  // ----- Supporting documents -----

  /** The four document columns of a form (`nullable|string`). */
  datatype Documents = Documents(
    originalGradingReport: Value, gradedFinalExam: Value, tuitionReport: Value, finalReport: Value)

  /** One entry of the documents list. */
  datatype DocumentEntry = DocumentEntry(name: string, kind: string, status: string)

  const OriginalGradingReportName := "Copy of Original Grading Report"
  const GradedFinalExamName := "Copy of Graded Final Exam"
  const TuitionReportName := "Tuition Report"
  const FinalReportName := "Final Report (First 10 Pages)"

  /** `hasDocuments`: some document column is truthy. */
  predicate HasDocuments(d: Documents) {
    Truthy(d.originalGradingReport) || Truthy(d.gradedFinalExam) || Truthy(d.tuitionReport) || Truthy(d.finalReport)
  }

  function Provided(name: string): DocumentEntry {
    DocumentEntry(name, "PDF", "Provided")
  }

  /** The entry for one document: present exactly when its column is truthy. */
  function EntryIf(column: Value, name: string): (r: seq<DocumentEntry>)
    ensures r == [] <==> !Truthy(column)
    ensures r != [] ==> r == [Provided(name)]
  {
    if Truthy(column) then [Provided(name)] else []
  }

  /**
   * The documents list: one entry per truthy column, in the order original
   * grading report, graded final exam, tuition report, final report.
   */
  function DocumentsList(d: Documents): seq<DocumentEntry> {
    EntryIf(d.originalGradingReport, OriginalGradingReportName)
    + EntryIf(d.gradedFinalExam, GradedFinalExamName)
    + EntryIf(d.tuitionReport, TuitionReportName)
    + EntryIf(d.finalReport, FinalReportName)
  }

  /** `getDocumentsList`: the four tests, each appending its document's entry. */
  method GetDocumentsList(d: Documents) returns (documents: seq<DocumentEntry>)
    ensures documents == DocumentsList(d)
  {
    documents := [];
    if Truthy(d.originalGradingReport) {
      documents := documents + [Provided(OriginalGradingReportName)];
    }
    assert documents == EntryIf(d.originalGradingReport, OriginalGradingReportName);
    if Truthy(d.gradedFinalExam) {
      documents := documents + [Provided(GradedFinalExamName)];
    }
    assert documents == EntryIf(d.originalGradingReport, OriginalGradingReportName)
                        + EntryIf(d.gradedFinalExam, GradedFinalExamName);
    if Truthy(d.tuitionReport) {
      documents := documents + [Provided(TuitionReportName)];
    }
    assert documents == EntryIf(d.originalGradingReport, OriginalGradingReportName)
                        + EntryIf(d.gradedFinalExam, GradedFinalExamName)
                        + EntryIf(d.tuitionReport, TuitionReportName);
    if Truthy(d.finalReport) {
      documents := documents + [Provided(FinalReportName)];
    }
  }

  /**
   * At most four documents, some exactly when `hasDocuments` holds, each a
   * provided PDF, and each document listed exactly when its column is truthy.
   */
  lemma DocumentsListAgrees(d: Documents)
    ensures |DocumentsList(d)| <= 4
    ensures DocumentsList(d) != [] <==> HasDocuments(d)
    ensures forall e :: e in DocumentsList(d) ==> e.kind == "PDF" && e.status == "Provided"
    ensures Provided(OriginalGradingReportName) in DocumentsList(d) <==> Truthy(d.originalGradingReport)
    ensures Provided(GradedFinalExamName) in DocumentsList(d) <==> Truthy(d.gradedFinalExam)
    ensures Provided(TuitionReportName) in DocumentsList(d) <==> Truthy(d.tuitionReport)
    ensures Provided(FinalReportName) in DocumentsList(d) <==> Truthy(d.finalReport)
  {
  }

  /** A document column holding "0" counts as not provided. */
  lemma ZeroDocumentNotProvided(d: Documents)
    requires d.originalGradingReport == Str("0")
    ensures !Truthy(d.originalGradingReport)
    ensures HasDocuments(d) <==> Truthy(d.gradedFinalExam) || Truthy(d.tuitionReport) || Truthy(d.finalReport)
  {
  }

  // ----- Submitter -----

  /** The authenticated user as the report reads it. */
  datatype AuthUser = AuthUser(name: Value, email: Value, isAdmin: Value)

  /** The submitter shown on a report. */
  datatype Submitter = Submitter(name: Value, role: string, email: Value)

  const SystemName := Str("System User")
  const SystemEmail := Str("system@university.edu")

  /**
   * `getAuthUserData`: the user's name and email, or the system fallbacks
   * without a user; the role is "Administrator" only for a user whose
   * `is_admin` is set and truthy.
   */
  function AuthUserData(user: Option<AuthUser>): (r: Submitter)
    ensures user.None? ==> r == Submitter(SystemName, "User", SystemEmail)
    ensures r.role == "Administrator" <==> user.Some? && user.value.isAdmin != Null && Truthy(user.value.isAdmin)
    ensures r.role in {"Administrator", "User"}
    ensures user.Some? ==> r.name == user.value.name && r.email == user.value.email
  {
    match user
    case None => Submitter(SystemName, "User", SystemEmail)
    case Some(u) =>
      Submitter(u.name, if u.isAdmin != Null && Truthy(u.isAdmin) then "Administrator" else "User", u.email)
  }

  // ----- Sending to several addresses -----

  /** One failed send: the address and the exception's message. */
  datatype FailedSend = FailedSend(email: string, error: string)

  /**
   * The loop of `sendReportToMultiple`: each address is sent to in turn;
   * `failures` gives the message of the exception raised by the send to the
   * address at that position.
   */
  function SendOutcome(emails: seq<string>, failures: map<nat, string>): (r: (seq<string>, seq<FailedSend>))
    ensures |r.0| + |r.1| == |emails|
  {
    if emails == [] then ([], [])
    else
      var n := |emails| - 1;
      var (sent, failed) := SendOutcome(emails[..n], failures);
      if n in failures then (sent, failed + [FailedSend(emails[n], failures[n])]) else (sent + [emails[n]], failed)
  }

  /** Whether the send at each position fails. */
  function FailFlags(n: nat, failures: map<nat, string>): (r: seq<bool>)
    ensures |r| == n
  {
    if n == 0 then [] else FailFlags(n - 1, failures) + [n - 1 in failures]
  }

  /** Interleaves the two lists back by the flags: a failed position takes the next failed send. */
  function Rebuild(sent: seq<string>, failed: seq<FailedSend>, flags: seq<bool>): seq<string> {
    if flags == [] then []
    else
      var n := |flags| - 1;
      if flags[n] then
        if failed == [] then [] else Rebuild(sent, failed[..|failed| - 1], flags[..n]) + [failed[|failed| - 1].email]
      else
        if sent == [] then [] else Rebuild(sent[..|sent| - 1], failed, flags[..n]) + [sent[|sent| - 1]]
  }

  /**
   * Every address lands in exactly one of the two lists, in input order:
   * reading the lists back position by position gives the input.
   */
  lemma {:induction false} SendOutcomeRebuilds(emails: seq<string>, failures: map<nat, string>)
    ensures Rebuild(SendOutcome(emails, failures).0, SendOutcome(emails, failures).1, FailFlags(|emails|, failures))
            == emails
    decreases |emails|
  {
    if emails != [] {
      var n := |emails| - 1;
      var init := emails[..n];
      SendOutcomeRebuilds(init, failures);
      var (sent, failed) := SendOutcome(init, failures);
      var flags := FailFlags(|emails|, failures);
      assert flags[..n] == FailFlags(n, failures);
      if n in failures {
        assert (failed + [FailedSend(emails[n], failures[n])])[..|failed|] == failed;
      } else {
        assert (sent + [emails[n]])[..|sent|] == sent;
      }
      assert init + [emails[n]] == emails;
    }
  }

  /** The response's `success`: true exactly when no send failed. */
  lemma {:induction false} SendSucceedsIff(emails: seq<string>, failures: map<nat, string>)
    ensures SendOutcome(emails, failures).1 == [] <==> forall i :: 0 <= i < |emails| ==> i !in failures
    decreases |emails|
  {
    if emails != [] {
      SendSucceedsIff(emails[..|emails| - 1], failures);
    }
  }

  /** The sending loop, appending to the two lists as it goes. */
  method SendToEach(emails: seq<string>, failures: map<nat, string>)
    returns (sent: seq<string>, failed: seq<FailedSend>)
    ensures (sent, failed) == SendOutcome(emails, failures)
  {
    sent, failed := [], [];
    var i := 0;
    while i < |emails|
      invariant 0 <= i <= |emails|
      invariant (sent, failed) == SendOutcome(emails[..i], failures)
    {
      assert emails[..i + 1][..i] == emails[..i];
      if i in failures {
        failed := failed + [FailedSend(emails[i], failures[i])];
      } else {
        sent := sent + [emails[i]];
      }
      i := i + 1;
    }
    assert emails[..i] == emails;
  }

  /** The JSON answer of `sendReportToMultiple`. */
  datatype MultiSendResponse =
    | MultiSendInvalid                        // 422 "Validation failed"
    | MultiSendError                          // 500 "Failed to process email sending"
    | MultiSent(success: bool, message: string, sent: seq<string>, failed: seq<FailedSend>, reportId: string)

  /**
   * `emails` is `required|array|min:1|max:10` and each item passes the
   * `email` rule, whose verdict on a string `isEmailAddress` gives.
   */
  predicate EmailsValid(emails: Value, isEmailAddress: string -> bool) {
    emails.List? && 1 <= |emails.items| <= 10
    && forall i :: 0 <= i < |emails.items| ==> emails.items[i].Str? && isEmailAddress(emails.items[i].s)
  }

  function Addresses(items: seq<Value>): (r: seq<string>)
    ensures |r| == |items|
    ensures forall i :: 0 <= i < |items| ==> r[i] == StringOf(items[i])
  {
    if items == [] then [] else [StringOf(items[0])] + Addresses(items[1..])
  }

  /**
   * `sendReportToMultiple`: refused with 422 when the list is invalid, 500
   * when the form is not found, otherwise one send per address; `success` is
   * true exactly when no send failed, and the message counts the sent ones.
   */
  method SendReportToMultiple(routeId: string, formFound: bool, emails: Value, isEmailAddress: string -> bool,
                              failures: map<nat, string>)
    returns (response: MultiSendResponse)
    ensures !EmailsValid(emails, isEmailAddress) ==> response == MultiSendInvalid
    ensures EmailsValid(emails, isEmailAddress) && !formFound ==> response == MultiSendError
    ensures EmailsValid(emails, isEmailAddress) && formFound ==>
              var addresses := Addresses(emails.items);
              response.MultiSent?
              && (response.sent, response.failed) == SendOutcome(addresses, failures)
              && response.message == NatToString(|response.sent|) + " emails sent successfully"
              && response.reportId == ReportId(routeId)
              && (response.success <==> forall i :: 0 <= i < |addresses| ==> i !in failures)
  {
    if !EmailsValid(emails, isEmailAddress) {
      return MultiSendInvalid;
    }
    if !formFound {
      return MultiSendError;
    }
    var addresses := Addresses(emails.items);
    var sent, failed := SendToEach(addresses, failures);
    SendSucceedsIff(addresses, failures);
    response := MultiSent(|failed| == 0, NatToString(|sent|) + " emails sent successfully", sent, failed,
                          ReportId(routeId));
  }

  // ----- University number to student id -----

  /** A row of the students table: the internal id and the public university number. */
  datatype StudentRow = StudentRow(studentId: nat, universityId: Value)

  /** `where('university_id', $v)`: the column and the value compare as strings. */
  predicate SameNumber(column: Value, v: Value) {
    StringOf(column) == StringOf(v)
  }

  /** `->first()`: the position of the first student with that university number. */
  function FirstStudent(students: seq<StudentRow>, universityId: Value): (r: Option<nat>)
    ensures r.Some? ==> r.value < |students| && SameNumber(students[r.value].universityId, universityId)
    ensures r.Some? ==> forall j :: 0 <= j < r.value ==> !SameNumber(students[j].universityId, universityId)
    ensures r.None? ==> forall j :: 0 <= j < |students| ==> !SameNumber(students[j].universityId, universityId)
  {
    if students == [] then None
    else if SameNumber(students[0].universityId, universityId) then Some(0)
    else match FirstStudent(students[1..], universityId)
      case None => None
      case Some(k) => Some(k + 1)
  }

  /** `firstOrFail` without a match answers 404. */
  const NotFoundStatus: nat := 404

  /**
   * `store`: the validated input with `university_id` replaced by the
   * `student_id` of the first student with that number; every other field
   * is kept as validated.
   */
  function StoreAttributes(validated: map<string, Value>, students: seq<StudentRow>)
    : (r: Result<map<string, Value>, nat>)
    ensures FirstStudent(students, Get(validated, "university_id")).None? <==> r == Failure(NotFoundStatus)
    ensures r.Success? ==>
              "university_id" !in r.value && "student_id" in r.value
              && r.value["student_id"]
                 == Int(students[FirstStudent(students, Get(validated, "university_id")).value].studentId)
              && (forall k :: k in validated && k != "university_id" && k != "student_id" ==>
                    k in r.value && r.value[k] == validated[k])
              && (forall k :: k in r.value ==> k == "student_id" || k in validated)
  {
    match FirstStudent(students, Get(validated, "university_id"))
    case None => Failure(NotFoundStatus)
    case Some(i) => Success((validated - {"university_id"})["student_id" := Int(students[i].studentId)])
  }

  /**
   * `update`: the same replacement, but only when `university_id` is given
   * and not null; otherwise the validated input passes through unchanged.
   */
  function UpdateAttributes(validated: map<string, Value>, students: seq<StudentRow>)
    : (r: Result<map<string, Value>, nat>)
    ensures !IsSet(validated, "university_id") ==> r == Success(validated)
    ensures IsSet(validated, "university_id") ==> r == StoreAttributes(validated, students)
  {
    if IsSet(validated, "university_id") then StoreAttributes(validated, students) else Success(validated)
  }
}
