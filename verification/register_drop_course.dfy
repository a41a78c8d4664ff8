/**
 * The register/drop course form: its lifecycle (pending, then approved or
 * rejected by a processor, after which it can be neither edited nor deleted)
 * and the register/drop views of its `courses` list.
 */
module RegisterDrop {
  import opened Wrappers
  import opened Values

  const Pending := "pending"
  const Approved := "approved"
  const Rejected := "rejected"

  /** `$course['action'] === $action`: the course entry is an array whose action is that string. */
  predicate HasAction(course: Value, action: string) {
    course.Object? && "action" in course.fields && course.fields["action"] == Str(action)
  }

  /** `collect($items)->filter(...)`: the entries with the given action, in their original order. */
  function FilterAction(items: seq<Value>, action: string): (r: seq<Value>)
    ensures |r| <= |items|
    ensures forall c :: c in r <==> c in items && HasAction(c, action)
  {
    if items == [] then []
    else (if HasAction(items[0], action) then [items[0]] else []) + FilterAction(items[1..], action)
  }

  /** Filtering a concatenation filters each part: the filter keeps the input order. */
  lemma {:induction false} FilterActionAppend(xs: seq<Value>, ys: seq<Value>, action: string)
    ensures FilterAction(xs + ys, action) == FilterAction(xs, action) + FilterAction(ys, action)
    decreases |xs|
  {
    if xs != [] {
      FilterActionAppend(xs[1..], ys, action);
      var head := if HasAction(xs[0], action) then [xs[0]] else [];
      assert (xs + ys)[0] == xs[0] && (xs + ys)[1..] == xs[1..] + ys;
      calc {
        FilterAction(xs + ys, action);
        head + FilterAction(xs[1..] + ys, action);
        head + (FilterAction(xs[1..], action) + FilterAction(ys, action));
        (head + FilterAction(xs[1..], action)) + FilterAction(ys, action);
      }
    } else {
      assert xs + ys == ys;
    }
  }

  /** A course has one action, so the register and drop views never hold more than the list. */
  lemma {:induction false} FilterActionsBounded(items: seq<Value>)
    ensures |FilterAction(items, "register")| + |FilterAction(items, "drop")| <= |items|
    decreases |items|
  {
    if items != [] {
      FilterActionsBounded(items[1..]);
    }
  }

  /**
   * `register_courses` / `drop_courses`: nothing when `courses` is PHP-empty
   * (null or an empty list), otherwise the entries with that action.
   */
  function CoursesWithAction(courses: Value, action: string): (r: seq<Value>)
    ensures IsEmptyValue(courses) ==> r == []
    ensures courses.List? ==> r == FilterAction(courses.items, action)
    ensures |r| <= |Items(courses)|
  {
    if IsEmptyValue(courses) then [] else FilterAction(Items(courses), action)
  }

  /** The totals appended to the form never exceed the number of courses. */
  lemma TotalsBounded(courses: Value)
    ensures |CoursesWithAction(courses, "register")| + |CoursesWithAction(courses, "drop")| <= |Items(courses)|
  {
    FilterActionsBounded(Items(courses));
  }

  /** One stored register/drop form. */
  class Form {
    var id: nat
    /** The owning student's number (`student_id` in the model's attribute list). */
    var student: Value
    var semester: Value
    var academicYear: Value
    /** The JSON `courses` column: entries carrying an `action`. */
    var courses: Value
    var reason: Value
    var status: string
    var submittedAt: Option<nat>
    var processedAt: Option<nat>
    var processedBy: Option<nat>

    /** The lifecycle invariant: a known status, and a processing time exactly once processed. */
    predicate Valid()
      reads this
    {
      status in {Pending, Approved, Rejected} && (status == Pending <==> processedAt.None?)
    }

    /** A new form; its status defaults to pending and it has not been processed. */
    constructor (id: nat, student: Value, semester: Value, academicYear: Value, courses: Value,
                 reason: Value, submittedAt: Option<nat>)
      ensures this.id == id && this.student == student && this.semester == semester
      ensures this.academicYear == academicYear && this.courses == courses && this.reason == reason
      ensures this.submittedAt == submittedAt
      ensures status == Pending && processedAt == None && processedBy == None
      ensures Valid()
    {
      this.id := id;
      this.student := student;
      this.semester := semester;
      this.academicYear := academicYear;
      this.courses := courses;
      this.reason := reason;
      this.submittedAt := submittedAt;
      status := Pending;
      processedAt := None;
      processedBy := None;
    }

    /** `canBeEdited`. */
    predicate CanBeEdited()
      reads this
    {
      status == Pending
    }

    /** `canBeDeleted`: the same condition as editing. */
    predicate CanBeDeleted()
      reads this
    {
      status == Pending
    }

    function RegisterCourses(): (r: seq<Value>)
      reads this
      ensures forall c :: c in r ==> HasAction(c, "register")
      ensures IsEmptyValue(courses) ==> r == []
      ensures courses.List? ==> r == FilterAction(courses.items, "register")
    {
      CoursesWithAction(courses, "register")
    }

    function DropCourses(): (r: seq<Value>)
      reads this
      ensures forall c :: c in r ==> HasAction(c, "drop")
      ensures IsEmptyValue(courses) ==> r == []
      ensures courses.List? ==> r == FilterAction(courses.items, "drop")
    {
      CoursesWithAction(courses, "drop")
    }

    function TotalRegisterCourses(): (n: nat)
      reads this
      ensures n == |RegisterCourses()|
    {
      |CoursesWithAction(courses, "register")|
    }

    function TotalDropCourses(): (n: nat)
      reads this
      ensures n == |DropCourses()|
    {
      |CoursesWithAction(courses, "drop")|
    }

    /**
     * `approve`: only a pending form is approved, recording who processed it
     * and when; any other form is left as it is and false is returned.
     */
    method Approve(processor: Option<nat>, now: nat) returns (ok: bool)
      modifies this
      ensures ok <==> old(status) == Pending
      ensures ok ==> status == Approved && processedAt == Some(now) && processedBy == processor
      ensures !ok ==> status == old(status) && processedAt == old(processedAt) && processedBy == old(processedBy)
      ensures id == old(id) && student == old(student) && semester == old(semester)
      ensures academicYear == old(academicYear) && courses == old(courses) && reason == old(reason)
      ensures submittedAt == old(submittedAt)
      ensures old(Valid()) ==> Valid()
      ensures !CanBeEdited() && !CanBeDeleted() <==> old(status) != Pending || ok
    {
      if status != Pending {
        return false;
      }
      status := Approved;
      processedAt := Some(now);
      processedBy := processor;
      return true;
    }

    /** `reject`: the same transition as `approve`, into the rejected status. */
    method Reject(processor: Option<nat>, now: nat) returns (ok: bool)
      modifies this
      ensures ok <==> old(status) == Pending
      ensures ok ==> status == Rejected && processedAt == Some(now) && processedBy == processor
      ensures !ok ==> status == old(status) && processedAt == old(processedAt) && processedBy == old(processedBy)
      ensures id == old(id) && student == old(student) && semester == old(semester)
      ensures academicYear == old(academicYear) && courses == old(courses) && reason == old(reason)
      ensures submittedAt == old(submittedAt)
      ensures old(Valid()) ==> Valid()
      ensures !CanBeEdited() && !CanBeDeleted() <==> old(status) != Pending || ok
    {
      if status != Pending {
        return false;
      }
      status := Rejected;
      processedAt := Some(now);
      processedBy := processor;
      return true;
    }
  }

  /** Approved and rejected forms are final: a second decision of either kind is refused and changes nothing. */
  method DecisionsAreFinal(form: Form, first: bool, second: bool, processor: Option<nat>, now: nat, later: nat)
    returns (firstOk: bool, secondOk: bool)
    modifies form
    ensures firstOk ==> !secondOk
    ensures firstOk ==> form.status == (if first then Approved else Rejected) && form.processedAt == Some(now)
  {
    if first {
      firstOk := form.Approve(processor, now);
    } else {
      firstOk := form.Reject(processor, now);
    }
    if second {
      secondOk := form.Approve(processor, later);
    } else {
      secondOk := form.Reject(processor, later);
    }
  }
}
