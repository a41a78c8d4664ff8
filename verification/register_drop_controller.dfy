/**
 * The register/drop form endpoints: `store` writes the pending form and one
 * child row per registered or dropped course inside one transaction, so that
 * a failure anywhere leaves no trace; `update` and `destroy` refuse a form
 * that is no longer pending; the listings combine their filters with "and".
 *
 * Database failures are not computed: they are given as an oracle that maps
 * the number of an insert (0 for the form, then one per child row in the
 * order the controller writes them) to the message of the exception it
 * raises.
 */
module RegisterDropController {
  import opened Wrappers
  import opened Values
  import opened RegisterDrop

  /** A JSON response: its HTTP status, its `success` flag and its `message`. */
  datatype Response = Response(status: nat, success: bool, message: string)

  /** One row of the registered-course or dropped-course table of a form. */
  datatype ChildCourse = ChildCourse(
    formId: nat,
    courseId: Value, courseCode: Value, courseName: Value,
    section: Value, instructor: Value, credits: Value,
    room: Value, schedule: Value, days: Value, time: Value, school: Value)

  /** The validated input of `store`; each course entry is an array of its fields. */
  datatype ValidatedForm = ValidatedForm(
    universityId: Value, semester: Value, academicYear: Value, reason: Value,
    registered: seq<map<string, Value>>, dropped: seq<map<string, Value>>)

  /** The entry has every key the controller reads without a default. */
  predicate HasChildKeys(entry: map<string, Value>) {
    "course_id" in entry && "course_code" in entry && "course_name" in entry && "section" in entry && "instructor" in entry && "credits" in entry
  }

  /**
   * The first key the controller reads without a default that the entry
   * lacks, in the order it reads them.
   */
  function FirstMissing(entry: map<string, Value>): (r: Option<string>)
    ensures r.None? <==> HasChildKeys(entry)
    ensures r.Some? ==> r.value !in entry
  {
    if "course_id" !in entry then Some("course_id")
    else if "course_code" !in entry then Some("course_code")
    else if "course_name" !in entry then Some("course_name")
    else if "section" !in entry then Some("section")
    else if "instructor" !in entry then Some("instructor")
    else if "credits" !in entry then Some("credits")
    else None
  }

  /** The exception raised by reading the first of the keys the entry lacks. */
  function MissingKeyError(entry: map<string, Value>): string
    requires !HasChildKeys(entry)
  {
    "Undefined array key \"" + FirstMissing(entry).value + "\""
  }

  /**
   * The child row written for one course entry. Reading a key the entry does
   * not have raises "Undefined array key"; the five optional keys are read
   * with `?? null`.
   */
  function ChildRow(formId: nat, entry: map<string, Value>): (r: Result<ChildCourse, string>)
    ensures r.Success? <==> HasChildKeys(entry)
    ensures r.Success? ==> r.value.formId == formId && r.value.courseId == entry["course_id"]
  {
    if !HasChildKeys(entry) then Failure(MissingKeyError(entry))
    else
      Success(ChildCourse(
        formId,
        entry["course_id"], entry["course_code"], entry["course_name"],
        entry["section"], entry["instructor"], entry["credits"],
        Get(entry, "room"), Get(entry, "schedule"), Get(entry, "days"),
        Get(entry, "time"), Get(entry, "school")))
  }

  /** The row of an entry can be written as insert number `n`. */
  predicate Writable(entry: map<string, Value>, n: nat, faults: map<nat, string>) {
    HasChildKeys(entry) && n !in faults
  }

  /** Insert number `n`: the entry's row, unless reading it or the insert raises. */
  function InsertRow(formId: nat, entry: map<string, Value>, n: nat, faults: map<nat, string>)
    : (r: Result<ChildCourse, string>)
    ensures r.Success? <==> Writable(entry, n, faults)
    ensures r.Success? ==> ChildRow(formId, entry) == Success(r.value)
    ensures HasChildKeys(entry) && n in faults ==> r == Failure(faults[n])
  {
    match ChildRow(formId, entry)
    case Failure(e) => Failure(e)
    case Success(c) => if n in faults then Failure(faults[n]) else Success(c)
  }

  /**
   * The child rows of one course list, written in entry order as inserts
   * `first`, `first + 1`, ...; the first entry that cannot be read or whose
   * insert fails ends the list with that exception's message.
   */
  function Children(formId: nat, entries: seq<map<string, Value>>, first: nat, faults: map<nat, string>)
    : (r: Result<seq<ChildCourse>, string>)
    ensures r.Success? ==> |r.value| == |entries|
    decreases |entries|
  {
    if entries == [] then Success([])
    else
      var n := |entries| - 1;
      match Children(formId, entries[..n], first, faults)
      case Failure(e) => Failure(e)
      case Success(made) =>
        match InsertRow(formId, entries[n], first + n, faults)
        case Failure(e) => Failure(e)
        case Success(c) => Success(made + [c])
  }

  /** The children are written exactly when every entry can be read and no insert fails. */
  lemma {:induction false} ChildrenSucceedIff(formId: nat, entries: seq<map<string, Value>>, first: nat, faults: map<nat, string>)
    ensures Children(formId, entries, first, faults).Success? <==>
              forall i :: 0 <= i < |entries| ==> Writable(entries[i], first + i, faults)
    decreases |entries|
  {
    if entries != [] {
      var n := |entries| - 1;
      var init := entries[..n];
      ChildrenSucceedIff(formId, init, first, faults);
      assert forall i :: 0 <= i < n ==> init[i] == entries[i];
    }
  }

  /** Written children are one row per entry, in entry order, each that entry's row. */
  lemma {:induction false} ChildrenRows(formId: nat, entries: seq<map<string, Value>>, first: nat, faults: map<nat, string>)
    requires Children(formId, entries, first, faults).Success?
    ensures forall i :: 0 <= i < |entries| ==>
              ChildRow(formId, entries[i]) == Success(Children(formId, entries, first, faults).value[i])
    decreases |entries|
  {
    if entries != [] {
      var n := |entries| - 1;
      var init := entries[..n];
      ChildrenRows(formId, init, first, faults);
      assert forall i :: 0 <= i < n ==> init[i] == entries[i];
    }
  }

  /** Writing one more entry: the list so far extended by that entry's insert, or that insert's failure. */
  lemma ChildrenStep(formId: nat, entries: seq<map<string, Value>>, i: nat, first: nat, faults: map<nat, string>)
    requires i < |entries|
    requires Children(formId, entries[..i], first, faults).Success?
    ensures var row := InsertRow(formId, entries[i], first + i, faults);
      Children(formId, entries[..i + 1], first, faults)
        == if row.Failure? then Failure(row.error)
           else Success(Children(formId, entries[..i], first, faults).value + [row.value])
  {
    assert entries[..i + 1][..i] == entries[..i];
  }

  /** A failure in a prefix of the list is the failure of the whole list: nothing after it is written. */
  lemma {:induction false} ChildrenFailurePersists(formId: nat, entries: seq<map<string, Value>>, n: nat, first: nat,
                                                   faults: map<nat, string>)
    requires n <= |entries|
    requires Children(formId, entries[..n], first, faults).Failure?
    ensures Children(formId, entries, first, faults) == Children(formId, entries[..n], first, faults)
    decreases |entries|
  {
    if n == |entries| {
      assert entries[..n] == entries;
    } else {
      var init := entries[..|entries| - 1];
      assert init[..n] == entries[..n];
      ChildrenFailurePersists(formId, init, n, first, faults);
    }
  }

  /**
   * The outcome of `store` for a form that gets id `formId`: the form insert
   * (number 0), then the registered rows, then the dropped rows.
   */
  function StoreOutcome(formId: nat, v: ValidatedForm, faults: map<nat, string>)
    : (r: Result<(seq<ChildCourse>, seq<ChildCourse>), string>)
    ensures 0 in faults ==> r == Failure(faults[0])
    ensures r.Success? ==> |r.value.0| == |v.registered| && |r.value.1| == |v.dropped|
  {
    if 0 in faults then Failure(faults[0])
    else
      match Children(formId, v.registered, 1, faults)
      case Failure(e) => Failure(e)
      case Success(reg) =>
        match Children(formId, v.dropped, 1 + |v.registered|, faults)
        case Failure(e) => Failure(e)
        case Success(drop) => Success((reg, drop))
  }

  /**
   * `store` succeeds exactly when every course entry can be read and none of
   * the 1 + |registered| + |dropped| inserts fails.
   */
  lemma StoreSucceedsIff(formId: nat, v: ValidatedForm, faults: map<nat, string>)
    ensures StoreOutcome(formId, v, faults).Success? <==>
              0 !in faults
              && (forall i :: 0 <= i < |v.registered| ==> Writable(v.registered[i], 1 + i, faults))
              && (forall i :: 0 <= i < |v.dropped| ==> Writable(v.dropped[i], 1 + |v.registered| + i, faults))
  {
    ChildrenSucceedIff(formId, v.registered, 1, faults);
    ChildrenSucceedIff(formId, v.dropped, 1 + |v.registered|, faults);
  }

  /** A successful `store` writes one row per entry of each list, each the row of that entry, under the form's id. */
  lemma StoreRows(formId: nat, v: ValidatedForm, faults: map<nat, string>)
    requires StoreOutcome(formId, v, faults).Success?
    ensures forall i :: 0 <= i < |v.registered| ==>
              ChildRow(formId, v.registered[i]) == Success(StoreOutcome(formId, v, faults).value.0[i])
    ensures forall i :: 0 <= i < |v.dropped| ==>
              ChildRow(formId, v.dropped[i]) == Success(StoreOutcome(formId, v, faults).value.1[i])
    ensures forall c :: c in StoreOutcome(formId, v, faults).value.0 ==> c.formId == formId
    ensures forall c :: c in StoreOutcome(formId, v, faults).value.1 ==> c.formId == formId
  {
    ChildrenRows(formId, v.registered, 1, faults);
    ChildrenRows(formId, v.dropped, 1 + |v.registered|, faults);
  }

  /** `$form->delete()`: the stored forms without `form`, in their order. */
  function Without(forms: seq<Form>, form: Form): (r: seq<Form>)
    ensures |r| <= |forms|
    ensures forall i :: 0 <= i < |r| ==> r[i] in forms && r[i] != form
    ensures forall i :: 0 <= i < |forms| && forms[i] != form ==> forms[i] in r
  {
    if forms == [] then []
    else (if forms[0] == form then [] else [forms[0]]) + Without(forms[1..], form)
  }

  /** The changes `update` applies: the validated fields that were given. */
  datatype Changes = Changes(semester: Option<Value>, academicYear: Option<Value>, courses: Option<Value>, reason: Option<Value>)

  function Apply(change: Option<Value>, current: Value): Value {
    if change.Some? then change.value else current
  }

  /**
   * `update`: a form that is not pending is refused with 403 and left as it
   * is; otherwise the given fields are written, unless the write fails, which
   * rolls back and answers 500. The status is never changed.
   */
  method Update(form: Form, changes: Changes, fault: Option<string>) returns (response: Response)
    modifies form
    ensures !old(form.CanBeEdited()) ==>
              response == Response(403, false, "Only pending forms can be updated.") && unchanged(form)
    ensures old(form.CanBeEdited()) && fault.Some? ==>
              response == Response(500, false, "Error updating form: " + fault.value) && unchanged(form)
    ensures old(form.CanBeEdited()) && fault.None? ==>
              response == Response(200, true, "Form updated successfully")
              && form.semester == Apply(changes.semester, old(form.semester))
              && form.academicYear == Apply(changes.academicYear, old(form.academicYear))
              && form.courses == Apply(changes.courses, old(form.courses))
              && form.reason == Apply(changes.reason, old(form.reason))
    ensures form.id == old(form.id) && form.student == old(form.student)
    ensures form.status == old(form.status) && form.submittedAt == old(form.submittedAt)
    ensures form.processedAt == old(form.processedAt) && form.processedBy == old(form.processedBy)
    ensures old(form.Valid()) ==> form.Valid()
  {
    if !form.CanBeEdited() {
      return Response(403, false, "Only pending forms can be updated.");
    }
    if fault.Some? {
      return Response(500, false, "Error updating form: " + fault.value);
    }
    form.semester := Apply(changes.semester, form.semester);
    form.academicYear := Apply(changes.academicYear, form.academicYear);
    form.courses := Apply(changes.courses, form.courses);
    form.reason := Apply(changes.reason, form.reason);
    response := Response(200, true, "Form updated successfully");
  }

  /** The stored forms and their child tables. */
  class FormTables {
    var forms: seq<Form>
    var registered: seq<ChildCourse>
    var dropped: seq<ChildCourse>
    /** The id the next form gets. */
    var nextId: nat

    constructor ()
      ensures forms == [] && registered == [] && dropped == [] && nextId == 1
    {
      forms := [];
      registered := [];
      dropped := [];
      nextId := 1;
    }

    /** `RegisteredCourse::create` or `DroppedCourse::create`: one row appended to its table. */
    method AppendChild(row: ChildCourse, toDropped: bool)
      modifies this
      ensures forms == old(forms) && nextId == old(nextId)
      ensures toDropped ==> dropped == old(dropped) + [row] && registered == old(registered)
      ensures !toDropped ==> registered == old(registered) + [row] && dropped == old(dropped)
    {
      if toDropped {
        dropped := dropped + [row];
      } else {
        registered := registered + [row];
      }
    }

    /**
     * Writes the child rows of one course list into the registered table, or
     * into the dropped table when `toDropped`, stopping at the first failure;
     * the caller rolls back what was written before it.
     */
    method WriteChildren(formId: nat, entries: seq<map<string, Value>>, first: nat, faults: map<nat, string>,
                         toDropped: bool)
      returns (error: Option<string>)
      modifies this
      ensures forms == old(forms) && nextId == old(nextId)
      ensures toDropped ==> registered == old(registered)
      ensures !toDropped ==> dropped == old(dropped)
      ensures error.Some? <==> Children(formId, entries, first, faults).Failure?
      ensures error.Some? ==> Children(formId, entries, first, faults).error == error.value
      ensures error.None? && toDropped ==> dropped == old(dropped) + Children(formId, entries, first, faults).value
      ensures error.None? && !toDropped ==> registered == old(registered) + Children(formId, entries, first, faults).value
    {
      var made: seq<ChildCourse> := [];
      var i := 0;
      while i < |entries|
        invariant 0 <= i <= |entries|
        invariant forms == old(forms) && nextId == old(nextId)
        invariant Children(formId, entries[..i], first, faults) == Success(made)
        invariant toDropped ==> registered == old(registered) && dropped == old(dropped) + made
        invariant !toDropped ==> dropped == old(dropped) && registered == old(registered) + made
      {
        ChildrenStep(formId, entries, i, first, faults);
        var row := InsertRow(formId, entries[i], first + i, faults);
        if row.Failure? {
          ChildrenFailurePersists(formId, entries, i + 1, first, faults);
          return Some(row.error);
        }
        AppendChild(row.value, toDropped);
        made := made + [row.value];
        i := i + 1;
      }
      assert entries[..i] == entries;
      return None;
    }

    /**
     * `store`: inside one transaction, creates the pending form and then its
     * registered and dropped rows. On success it answers 201 with the new
     * form; on any exception it rolls back, so no form and no row persists,
     * and answers 500 with the exception's message.
     */
    method Store(v: ValidatedForm, faults: map<nat, string>, now: nat) returns (response: Response, form: Form?)
      modifies this
      ensures var outcome := StoreOutcome(old(nextId), v, faults);
        if outcome.Failure? then
          response == Response(500, false, "Error creating form: " + outcome.error)
          && form == null
          && forms == old(forms) && registered == old(registered) && dropped == old(dropped)
          && nextId == old(nextId)
        else
          response == Response(201, true, "Form submitted successfully")
          && form != null && fresh(form)
          && forms == old(forms) + [form]
          && form.id == old(nextId) && form.student == v.universityId && form.semester == v.semester
          && form.academicYear == v.academicYear && form.reason == v.reason && form.courses == Null
          && form.status == Pending && form.submittedAt == Some(now) && form.Valid()
          && registered == old(registered) + outcome.value.0
          && dropped == old(dropped) + outcome.value.1
          && nextId == old(nextId) + 1
    {
      var formsBefore, registeredBefore, droppedBefore, idBefore := forms, registered, dropped, nextId;
      if 0 in faults {
        return Response(500, false, "Error creating form: " + faults[0]), null;
      }
      var created := new Form(nextId, v.universityId, v.semester, v.academicYear, Null, v.reason, Some(now));
      forms := forms + [created];
      nextId := nextId + 1;
      var error := WriteChildren(created.id, v.registered, 1, faults, false);
      if error.Some? {
        forms, registered, dropped, nextId := formsBefore, registeredBefore, droppedBefore, idBefore;
        return Response(500, false, "Error creating form: " + error.value), null;
      }
      error := WriteChildren(created.id, v.dropped, 1 + |v.registered|, faults, true);
      if error.Some? {
        forms, registered, dropped, nextId := formsBefore, registeredBefore, droppedBefore, idBefore;
        return Response(500, false, "Error creating form: " + error.value), null;
      }
      return Response(201, true, "Form submitted successfully"), created;
    }

    /**
     * `destroy`: a form that is not pending is refused with 403 and stays
     * stored; otherwise it is deleted, unless the delete fails, which answers
     * 500 and leaves it stored.
     */
    method Destroy(form: Form, fault: Option<string>) returns (response: Response)
      modifies this
      ensures !form.CanBeDeleted() ==>
                response == Response(403, false, "Only pending forms can be deleted.") && forms == old(forms)
      ensures form.CanBeDeleted() && fault.Some? ==>
                response == Response(500, false, "Error deleting form: " + fault.value) && forms == old(forms)
      ensures form.CanBeDeleted() && fault.None? ==>
                response == Response(200, true, "Form deleted successfully.") && forms == Without(old(forms), form)
                && form !in forms
      ensures registered == old(registered) && dropped == old(dropped) && nextId == old(nextId)
    {
      if !form.CanBeDeleted() {
        return Response(403, false, "Only pending forms can be deleted.");
      }
      if fault.Some? {
        return Response(500, false, "Error deleting form: " + fault.value);
      }
      forms := Without(forms, form);
      response := Response(200, true, "Form deleted successfully.");
    }
  }

  /**
   * A listing's query: each filter is present when its parameter is (even
   * with a null value), and the sort column, direction and page size with
   * their defaults.
   */
  datatype ListQuery = ListQuery(
    status: Option<Value>, semester: Option<Value>, academicYear: Option<Value>, student: Option<Value>,
    sortBy: Value, sortOrder: Value, perPage: Value)

  /** `$request->has($key) ? $request->$key : (no filter)`. */
  function Param(params: map<string, Value>, key: string): (r: Option<Value>)
    ensures r.Some? <==> key in params
  {
    if key in params then Some(params[key]) else None
  }

  /** `$request->get($key, $default)`: the default only when the parameter is absent. */
  function ParamOr(params: map<string, Value>, key: string, default: Value): (r: Value)
    ensures key !in params ==> r == default
  {
    if key in params then params[key] else default
  }

  /** The query of `index`. */
  function IndexQuery(params: map<string, Value>): (q: ListQuery)
    ensures "sort_by" !in params ==> q.sortBy == Str("created_at")
    ensures "sort_order" !in params ==> q.sortOrder == Str("desc")
    ensures "per_page" !in params ==> q.perPage == Int(15)
    ensures q.student.Some? <==> "university_id" in params
  {
    ListQuery(
      Param(params, "status"), Param(params, "semester"), Param(params, "academic_year"),
      Param(params, "university_id"),
      ParamOr(params, "sort_by", Str("created_at")), ParamOr(params, "sort_order", Str("desc")),
      ParamOr(params, "per_page", Int(15)))
  }

  /** The query of `byStudent`: the student from the route, the other filters as in `index`. */
  function ByStudentQuery(universityId: Value, params: map<string, Value>): (q: ListQuery)
    ensures q.student == Some(universityId)
  {
    ListQuery(
      Param(params, "status"), Param(params, "semester"), Param(params, "academic_year"),
      Some(universityId),
      ParamOr(params, "sort_by", Str("created_at")), ParamOr(params, "sort_order", Str("desc")),
      ParamOr(params, "per_page", Int(15)))
  }

  predicate Matches(filter: Option<Value>, column: Value) {
    filter.None? || filter.value == column
  }

  /** Whether a form passes every filter of the query. */
  predicate Selects(q: ListQuery, form: Form)
    reads form
  {
    Matches(q.status, Str(form.status)) && Matches(q.semester, form.semester)
    && Matches(q.academicYear, form.academicYear) && Matches(q.student, form.student)
  }

  /** The forms a query selects, in stored order (before sorting and paging). */
  function Listed(q: ListQuery, forms: seq<Form>): (r: seq<Form>)
    reads forms
    ensures |r| <= |forms|
    ensures forall i :: 0 <= i < |r| ==> r[i] in forms && Selects(q, r[i])
    ensures forall i :: 0 <= i < |forms| && Selects(q, forms[i]) ==> forms[i] in r
  {
    if forms == [] then []
    else (if Selects(q, forms[0]) then [forms[0]] else []) + Listed(q, forms[1..])
  }

  /**
   * `byStudent` for a student selects the same forms, sorted and paged the
   * same way, as `index` given that student's number as `university_id`.
   */
  lemma ByStudentIsIndex(universityId: Value, params: map<string, Value>)
    ensures ByStudentQuery(universityId, params) == IndexQuery(params["university_id" := universityId])
  {
    var p := params["university_id" := universityId];
    assert forall k :: k != "university_id" ==> Param(p, k) == Param(params, k) && (k in p <==> k in params);
    assert Param(p, "status") == Param(params, "status");
    assert Param(p, "semester") == Param(params, "semester");
    assert Param(p, "academic_year") == Param(params, "academic_year");
    assert ParamOr(p, "sort_by", Str("created_at")) == ParamOr(params, "sort_by", Str("created_at"));
    assert ParamOr(p, "sort_order", Str("desc")) == ParamOr(params, "sort_order", Str("desc"));
    assert ParamOr(p, "per_page", Int(15)) == ParamOr(params, "per_page", Int(15));
  }
}
