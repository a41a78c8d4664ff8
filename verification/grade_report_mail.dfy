/**
 * The change-of-grade report e-mail: its subject, its optional PDF
 * attachment, and the fallbacks of the template data it renders (the
 * submitter and the notes). The documents list is the controller's own list
 * (`GradeReports.DocumentsList`), which the mail builds the same way.
 */
module GradeReportMail {
  import opened Wrappers
  import opened Php
  import opened Values
  import opened GradeReports

  const SubjectPrefix := "Change of Grade Submission Report - "
  const NoNotes := "No additional notes provided."

  /** `envelope()`: the subject names the report. */
  function Subject(reportId: string): (r: string)
    ensures |r| == |SubjectPrefix| + |reportId|
    ensures r[..|SubjectPrefix|] == SubjectPrefix && r[|SubjectPrefix|..] == reportId
  {
    SubjectPrefix + reportId
  }

  /** An attachment: its file name and MIME type. */
  datatype Attachment = Attachment(name: string, mime: string)

  /** `'change-grade-form-' . $form->id . '.pdf'`. */
  function AttachmentName(formId: nat): string {
    "change-grade-form-" + NatToString(formId) + ".pdf"
  }

  /** Distinct forms give differently named attachments. */
  lemma AttachmentNameInjective(a: nat, b: nat)
    requires AttachmentName(a) == AttachmentName(b)
    ensures a == b
  {
    var p := "change-grade-form-";
    var sa, sb := NatToString(a), NatToString(b);
    assert |sa| == |sb|;
    assert sa == AttachmentName(a)[|p|..|p| + |sa|];
    assert sb == AttachmentName(b)[|p|..|p| + |sb|];
    NatToStringInjective(a, b);
  }

  /**
   * `attachments()`: nothing unless the PDF was asked for, and then exactly
   * one PDF named after the form.
   */
  method Attachments(attachPdf: bool, formId: nat) returns (attachments: seq<Attachment>)
    ensures !attachPdf ==> attachments == []
    ensures attachPdf ==> attachments == [Attachment(AttachmentName(formId), "application/pdf")]
  {
    attachments := [];
    if attachPdf {
      attachments := attachments + [Attachment(AttachmentName(formId), "application/pdf")];
    }
  }

  /**
   * `additional_notes`: the custom message, or the fixed sentence when the
   * message is PHP-empty ("" and also "0"); never an empty string.
   */
  function AdditionalNotes(customMessage: string): (r: string)
    ensures IsEmptyString(customMessage) ==> r == NoNotes
    ensures !IsEmptyString(customMessage) ==> r == customMessage
    ensures !IsEmptyString(r)
  {
    if IsEmptyString(customMessage) then NoNotes else customMessage
  }

  /** A message consisting of the digit zero is replaced like an empty one. */
  lemma ZeroMessageReplaced()
    ensures AdditionalNotes("0") == NoNotes
  {
  }

  /**
   * The submitter of the mail's template data: the user's name and email, or
   * the system fallbacks; "Administrator" only for a user with a truthy
   * `is_admin`.
   */
  function MailSubmitter(user: Option<AuthUser>): (r: Submitter)
    ensures user.None? ==> r == Submitter(SystemName, "User", SystemEmail)
    ensures r.role == "Administrator" <==> user.Some? && Truthy(user.value.isAdmin)
  {
    match user
    case None => Submitter(SystemName, "User", SystemEmail)
    case Some(u) => Submitter(u.name, if Truthy(u.isAdmin) then "Administrator" else "User", u.email)
  }

  /**
   * The mail's submitter and the controller's `getAuthUserData` agree for
   * every user: the controller's extra `isset` test changes nothing, since a
   * null flag is falsy anyway.
   */
  lemma SubmitterAgreesWithController(user: Option<AuthUser>)
    ensures MailSubmitter(user) == AuthUserData(user)
  {
    if user.Some? && user.value.isAdmin == Null {
      assert !Truthy(user.value.isAdmin);
    }
  }

  /** The part of the template data the model covers. */
  datatype TemplateData = TemplateData(
    reportId: string, submitter: Submitter, documentsAvailable: bool, documents: seq<DocumentEntry>,
    additionalNotes: string)

  /** `getTemplateData()` for a form's documents, the report id, the user and the custom message. */
  function MailTemplateData(reportId: string, d: Documents, user: Option<AuthUser>, customMessage: string)
    : (r: TemplateData)
    ensures r.documentsAvailable <==> r.documents != []
    ensures |r.documents| <= 4
    ensures r.additionalNotes != ""
    ensures r.reportId == reportId && r.submitter == MailSubmitter(user)
    ensures r.documents == DocumentsList(d) && r.additionalNotes == AdditionalNotes(customMessage)
  {
    DocumentsListAgrees(d);
    TemplateData(reportId, MailSubmitter(user), HasDocuments(d), DocumentsList(d), AdditionalNotes(customMessage))
  }
}
