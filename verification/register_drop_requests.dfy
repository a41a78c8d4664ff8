/**
 * The two form requests of the register/drop endpoints. The store request
 * first rewrites the front end's input (`prepareForValidation`), then checks
 * its rules and, after them, that some course is registered or dropped and
 * that no course occurs twice. The update request is authorised only for a
 * pending form and checks duplicates only when courses are sent.
 */
module RegisterDropRequests {
  import opened Wrappers
  import opened Php
  import opened Values
  import opened Validation
  import RegisterDrop

  type Input = map<string, Value>

  const CourseDataKeys: set<string> :=
    {"course_id", "course_code", "course_name", "section", "instructor", "credits"}

  /** `$course[$key] ?? $default`, falling back to a second key for the course id. */
  function CourseData(course: Value): (r: Value)
    ensures r.Object? && r.fields.Keys == CourseDataKeys
    ensures r.fields["course_id"] ==
              if HasKey(course, "courseId") then course.fields["courseId"]
              else if HasKey(course, "course_id") then course.fields["course_id"]
              else Null
    ensures forall k :: k in {"course_code", "course_name", "section", "instructor"} ==>
              r.fields[k] == if HasKey(course, k) then course.fields[k] else Str("TBD")
    ensures r.fields["credits"] == if HasKey(course, "credits") then course.fields["credits"] else Int(3)
  {
    Object(map[
      "course_id" := Coalesce(course, "courseId", Coalesce(course, "course_id", Null)),
      "course_code" := Coalesce(course, "course_code", Str("TBD")),
      "course_name" := Coalesce(course, "course_name", Str("TBD")),
      "section" := Coalesce(course, "section", Str("TBD")),
      "instructor" := Coalesce(course, "instructor", Str("TBD")),
      "credits" := Coalesce(course, "credits", Int(3))
    ])
  }

  /** `($course['action'] ?? '') === $action`. */
  predicate ActionIs(course: Value, action: string) {
    Coalesce(course, "action", Str("")) == Str(action)
  }

  /** The entries `prepareForValidation` collects for one action, in input order. */
  function Entries(courses: seq<Value>, action: string): (r: seq<Value>)
    ensures |r| <= |courses|
  {
    if courses == [] then []
    else
      var last := courses[|courses| - 1];
      Entries(courses[..|courses| - 1], action) + (if ActionIs(last, action) then [CourseData(last)] else [])
  }

  /** The entries of a concatenation are the entries of each part, in order. */
  lemma {:induction false} EntriesAppend(xs: seq<Value>, ys: seq<Value>, action: string)
    ensures Entries(xs + ys, action) == Entries(xs, action) + Entries(ys, action)
    decreases |ys|
  {
    if ys == [] {
      assert xs + ys == xs;
    } else {
      var init := ys[..|ys| - 1];
      EntriesAppend(xs, init, action);
      assert (xs + ys)[..|xs + ys| - 1] == xs + init;
      assert (xs + ys)[|xs + ys| - 1] == ys[|ys| - 1];
    }
  }

  /** Every entry comes from a course with that action, and every such course yields one. */
  lemma {:induction false} EntriesMembers(courses: seq<Value>, action: string)
    ensures forall c :: c in courses && ActionIs(c, action) ==> CourseData(c) in Entries(courses, action)
    ensures forall d :: d in Entries(courses, action) ==>
              exists c :: c in courses && ActionIs(c, action) && d == CourseData(c)
    decreases |courses|
  {
    if courses != [] {
      var init := courses[..|courses| - 1];
      EntriesMembers(init, action);
      assert courses == init + [courses[|courses| - 1]];
    }
  }

  /** A course has one action: the two lists together hold at most one entry per course. */
  lemma {:induction false} PartitionBounded(courses: seq<Value>)
    ensures |Entries(courses, "register")| + |Entries(courses, "drop")| <= |courses|
    decreases |courses|
  {
    if courses != [] {
      PartitionBounded(courses[..|courses| - 1]);
    }
  }

  /** `studentId`, when set, is moved to `university_id`. */
  function MoveStudentId(data: Input): (r: Input)
    ensures IsSet(data, "studentId") ==>
              "studentId" !in r && "university_id" in r && r["university_id"] == data["studentId"]
    ensures !IsSet(data, "studentId") ==> r == data
    ensures forall k :: k in data && k !in {"studentId", "university_id"} ==> k in r && r[k] == data[k]
    ensures forall k :: k in r ==> k in data || k == "university_id"
  {
    if IsSet(data, "studentId") then (data - {"studentId"})["university_id" := data["studentId"]] else data
  }

  /** A `courses` list is replaced by its non-empty register and drop lists. */
  function SplitCourses(data: Input): (r: Input)
    ensures IsSet(data, "courses") && data["courses"].List? ==>
              var courses := data["courses"].items;
              "courses" !in r
              && ("registered_courses" in r <==>
                    Entries(courses, "register") != [] || "registered_courses" in data)
              && (Entries(courses, "register") != [] ==>
                    r["registered_courses"] == List(Entries(courses, "register")))
              && ("dropped_courses" in r <==> Entries(courses, "drop") != [] || "dropped_courses" in data)
              && (Entries(courses, "drop") != [] ==> r["dropped_courses"] == List(Entries(courses, "drop")))
    ensures !(IsSet(data, "courses") && data["courses"].List?) ==> r == data
    ensures forall k :: k in data && k !in {"courses", "registered_courses", "dropped_courses"} ==>
              k in r && r[k] == data[k]
  {
    if IsSet(data, "courses") && data["courses"].List? then
      var courses := data["courses"].items;
      var registered := Entries(courses, "register");
      var dropped := Entries(courses, "drop");
      SetCourseLists(data, registered, dropped)
    else data
  }

  /** Stores the two lists, each only when non-empty, and removes `courses`. */
  function SetCourseLists(data: Input, registered: seq<Value>, dropped: seq<Value>): (r: Input)
    ensures "courses" !in r
    ensures "registered_courses" in r <==> registered != [] || "registered_courses" in data
    ensures registered != [] ==> r["registered_courses"] == List(registered)
    ensures "dropped_courses" in r <==> dropped != [] || "dropped_courses" in data
    ensures dropped != [] ==> r["dropped_courses"] == List(dropped)
    ensures forall k :: k in data && k !in {"courses", "registered_courses", "dropped_courses"} ==>
              k in r && r[k] == data[k]
  {
    var withRegistered := if registered != [] then data["registered_courses" := List(registered)] else data;
    var withDropped :=
      if dropped != [] then withRegistered["dropped_courses" := List(dropped)] else withRegistered;
    withDropped - {"courses"}
  }

  const DefaultSemester := Str("Fall 2025")
  const DefaultAcademicYear := Str("2025-2026")

  /** `semester` and `academic_year` default when absent or null. */
  function WithDefaults(data: Input): (r: Input)
    ensures IsSet(r, "semester") && IsSet(r, "academic_year")
    ensures r["semester"] == if IsSet(data, "semester") then data["semester"] else DefaultSemester
    ensures r["academic_year"] == if IsSet(data, "academic_year") then data["academic_year"] else DefaultAcademicYear
    ensures forall k :: k in data && k !in {"semester", "academic_year"} ==> k in r && r[k] == data[k]
    ensures forall k :: k in r ==> k in data || k in {"semester", "academic_year"}
  {
    var withSemester := if IsSet(data, "semester") then data else data["semester" := DefaultSemester];
    if IsSet(withSemester, "academic_year") then withSemester
    else withSemester["academic_year" := DefaultAcademicYear]
  }

  /** What `prepareForValidation` leaves in the request. */
  function Normalized(data: Input): Input {
    WithDefaults(SplitCourses(MoveStudentId(data)))
  }

  /** The loop of `prepareForValidation`: each course goes to the list of its action, or nowhere. */
  method PartitionCourses(courses: seq<Value>) returns (registered: seq<Value>, dropped: seq<Value>)
    ensures registered == Entries(courses, "register")
    ensures dropped == Entries(courses, "drop")
  {
    registered := [];
    dropped := [];
    var i := 0;
    while i < |courses|
      invariant 0 <= i <= |courses|
      invariant registered == Entries(courses[..i], "register")
      invariant dropped == Entries(courses[..i], "drop")
    {
      var course := courses[i];
      var courseData := CourseData(course);
      assert courses[..i + 1][..i] == courses[..i];
      if Coalesce(course, "action", Str("")) == Str("register") {
        registered := registered + [courseData];
      } else if Coalesce(course, "action", Str("")) == Str("drop") {
        dropped := dropped + [courseData];
      }
      i := i + 1;
    }
    assert courses[..i] == courses;
  }

  /** `prepareForValidation`: the input rewrites around the partition loop. */
  method PrepareForValidation(data: Input) returns (r: Input)
    ensures r == Normalized(data)
  {
    r := MoveStudentId(data);
    if IsSet(r, "courses") && r["courses"].List? {
      var registered, dropped := PartitionCourses(r["courses"].items);
      r := SetCourseLists(r, registered, dropped);
    }
    r := WithDefaults(r);
  }

  /** A message added by an after-validation hook. */
  datatype Added = Added(field: string, message: string)

  const NoCourseMessage := "At least one course must be registered or dropped."
  const DuplicateMessage := "Duplicate courses are not allowed in the same form."

  /** `Course::find($id)`: a non-null scalar id naming a known course. */
  predicate CourseFound(id: Value, courses: set<string>) {
    IsScalar(id) && StringOf(id) in courses
  }

  /** `$course['course_id']`: the entry's course id, null when it has none. */
  function CourseIdOf(entry: Value): (r: Value)
    ensures r == Pluck([entry], "course_id")[0]
  {
    if entry.Object? && "course_id" in entry.fields then entry.fields["course_id"] else Null
  }

  /** The error `validateRegistrationRules` adds for entry j when its course is not found. */
  function NotFoundAt(list: string, entry: Value, courses: set<string>, j: nat): seq<Added> {
    if CourseFound(CourseIdOf(entry), courses) then []
    else [Added(EntryField(list, j, "course_id"), "Course not found.")]
  }

  /** `Course not found.` for each entry of a list whose course id names no course. */
  function NotFound(list: string, entries: seq<Value>, courses: set<string>, from: nat): (r: seq<Added>)
    ensures |r| <= |entries|
    ensures forall a :: a in r ==> a.message == "Course not found."
    decreases |entries|
  {
    if entries == [] then []
    else NotFoundAt(list, entries[0], courses, from) + NotFound(list, entries[1..], courses, from + 1)
  }

  /**
   * Entry j of the list gets "Course not found." under `list.j.course_id`
   * exactly when its course id names no course, and every error is one of these.
   */
  lemma {:induction false} NotFoundExactly(list: string, entries: seq<Value>, courses: set<string>, from: nat)
    ensures forall j :: 0 <= j < |entries| ==>
              (Added(EntryField(list, from + j, "course_id"), "Course not found.") in NotFound(list, entries, courses, from)
               <==> !CourseFound(CourseIdOf(entries[j]), courses))
    ensures forall a :: a in NotFound(list, entries, courses, from) ==>
              exists j: nat :: from <= j < from + |entries| && a.field == EntryField(list, j, "course_id")
    decreases |entries|
  {
    if entries != [] {
      var r := NotFound(list, entries, courses, from);
      var rest := NotFound(list, entries[1..], courses, from + 1);
      NotFoundExactly(list, entries[1..], courses, from + 1);
      var head := NotFoundAt(list, entries[0], courses, from);
      assert r == head + rest;
      forall j | 0 <= j < |entries|
        ensures Added(EntryField(list, from + j, "course_id"), "Course not found.") in r
                <==> !CourseFound(CourseIdOf(entries[j]), courses)
      {
        var a := Added(EntryField(list, from + j, "course_id"), "Course not found.");
        if j == 0 {
          if a in rest {
            var k: nat :| from + 1 <= k < from + 1 + |entries[1..]| && a.field == EntryField(list, k, "course_id");
            EntryFieldInjective(list, from, k, "course_id");
          }
        } else {
          assert entries[1..][j - 1] == entries[j];
          if a in head {
            EntryFieldInjective(list, from, from + j, "course_id");
          }
        }
      }
    }
  }

  /** Distinct entries have distinct keys. */
  lemma EntryFieldInjective(list: string, i: nat, j: nat, key: string)
    requires EntryField(list, i, key) == EntryField(list, j, key)
    ensures i == j
  {
    var a, b := NatToString(i), NatToString(j);
    var s := EntryField(list, i, key);
    assert s == list + "." + a + "." + key;
    assert s == list + "." + b + "." + key;
    assert |a| == |b|;
    assert s[|list| + 1..|list| + 1 + |a|] == a;
    assert s[|list| + 1..|list| + 1 + |b|] == b;
    NatToStringInjective(i, j);
  }

  /** The course ids `validateDuplicateCourses` gathers, registered ones first. */
  function StoreCourseIds(data: Input): seq<Value> {
    (if "registered_courses" in data then Pluck(Items(data["registered_courses"]), "course_id") else [])
    + (if "dropped_courses" in data then Pluck(Items(data["dropped_courses"]), "course_id") else [])
  }

  /** The store request's after-validation hook, in its order of checks. */
  function StoreAfterErrors(data: Input, courses: set<string>): (r: seq<Added>)
    ensures Added("courses", NoCourseMessage) in r <==>
              IsEmptyValue(Get(data, "registered_courses")) && IsEmptyValue(Get(data, "dropped_courses"))
    ensures Added("courses", DuplicateMessage) in r <==>
              |UniqueBy(StoreCourseIds(data), SameString)| != |StoreCourseIds(data)|
  {
    var ids := StoreCourseIds(data);
    var atLeastOne :=
      if IsEmptyValue(Get(data, "registered_courses")) && IsEmptyValue(Get(data, "dropped_courses"))
      then [Added("courses", NoCourseMessage)] else [];
    var registration :=
      if "registered_courses" in data then NotFound("registered_courses", Items(data["registered_courses"]), courses, 0)
      else [];
    var drop :=
      if "dropped_courses" in data then NotFound("dropped_courses", Items(data["dropped_courses"]), courses, 0)
      else [];
    var duplicates := if |UniqueBy(ids, SameString)| != |ids| then [Added("courses", DuplicateMessage)] else [];
    atLeastOne + registration + drop + duplicates
  }

  /** The duplicate error is raised exactly when two gathered ids have the same string form. */
  lemma StoreDuplicateIffRepeat(data: Input, courses: set<string>)
    ensures Added("courses", DuplicateMessage) in StoreAfterErrors(data, courses) <==>
              HasRepeat(StoreCourseIds(data), SameString)
  {
    UniqueByShrinksIffRepeat(StoreCourseIds(data), SameString);
  }

  /**
   * For input sent as a `courses` list, the "at least one course" error is
   * raised exactly when no course has the action register or drop.
   */
  lemma NoCourseErrorIffNoAction(data: Input, courses: set<string>)
    requires IsSet(data, "courses") && data["courses"].List?
    requires "registered_courses" !in data && "dropped_courses" !in data
    ensures var list := data["courses"].items;
      Added("courses", NoCourseMessage) in StoreAfterErrors(Normalized(data), courses) <==>
        forall c :: c in list ==> !ActionIs(c, "register") && !ActionIs(c, "drop")
  {
    var list := data["courses"].items;
    var moved := MoveStudentId(data);
    assert moved["courses"] == data["courses"];
    EntriesMembers(list, "register");
    EntriesMembers(list, "drop");
    var n := Normalized(data);
    if Entries(list, "register") != [] {
      assert Entries(list, "register")[0] in Entries(list, "register");
    }
    if Entries(list, "drop") != [] {
      assert Entries(list, "drop")[0] in Entries(list, "drop");
    }
  }

  /**
   * The store request's rules in the validator's order: the fields named
   * outright first, in declaration order, then each wildcard rule's
   * expansion, one key per entry.
   */
  function StoreRuleFailures(data: Input, students: set<string>, courses: set<string>): seq<Failure> {
    FieldFailures("university_id", "university_id" in data, Get(data, "university_id"),
                  [Required, NumericRule, DigitsRule(8), ExistsRule(students)], false)
    + FieldFailures("semester", "semester" in data, Get(data, "semester"), [StringRule, MaxRule(50)], true)
    + FieldFailures("academic_year", "academic_year" in data, Get(data, "academic_year"),
                    [StringRule, MaxRule(20)], true)
    + FieldFailures("reason", "reason" in data, Get(data, "reason"),
                    [Required, StringRule, MinRule(10), MaxRule(1000)], false)
    + FieldFailures("registered_courses", "registered_courses" in data, Get(data, "registered_courses"),
                    [ArrayRule], true)
    + FieldFailures("dropped_courses", "dropped_courses" in data, Get(data, "dropped_courses"), [ArrayRule], true)
    + ScalarInFailures("registered_courses", ListEntries(data, "registered_courses"), "course_id",
                       ExistsRule(courses), 0)
    + ScalarInFailures("dropped_courses", ListEntries(data, "dropped_courses"), "course_id", ExistsRule(courses), 0)
  }

  /**
   * The store request passes its rules exactly when the university id names
   * a student, the texts are within their lengths, the two lists are arrays
   * when given, and every entry of a list names a known course.
   */
  lemma StoreRulesPass(data: Input, students: set<string>, courses: set<string>)
    ensures StoreRuleFailures(data, students, courses) == [] <==>
              "university_id" in data && ValidUniversityId(data["university_id"], students)
              && OptionalText(data, "semester", 0, 50) && OptionalText(data, "academic_year", 0, 20)
              && "reason" in data && ValidReason(data["reason"])
              && OptionalArray(data, "registered_courses") && OptionalArray(data, "dropped_courses")
              && (forall j :: 0 <= j < |ListEntries(data, "registered_courses")| ==>
                    ScalarIn(ListEntries(data, "registered_courses")[j], "course_id", courses))
              && (forall j :: 0 <= j < |ListEntries(data, "dropped_courses")| ==>
                    ScalarIn(ListEntries(data, "dropped_courses")[j], "course_id", courses))
  {
    var university := FieldFailures("university_id", "university_id" in data, Get(data, "university_id"),
                                    [Required, NumericRule, DigitsRule(8), ExistsRule(students)], false);
    var semester := FieldFailures("semester", "semester" in data, Get(data, "semester"), [StringRule, MaxRule(50)], true);
    var year := FieldFailures("academic_year", "academic_year" in data, Get(data, "academic_year"),
                              [StringRule, MaxRule(20)], true);
    var reason := FieldFailures("reason", "reason" in data, Get(data, "reason"),
                                [Required, StringRule, MinRule(10), MaxRule(1000)], false);
    if "university_id" in data {
      UniversityIdRule(data["university_id"], students);
    } else {
      assert Implicit([Required, NumericRule, DigitsRule(8), ExistsRule(students)][0]);
    }
    if "reason" in data {
      ReasonRule(data["reason"]);
    } else {
      assert Implicit([Required, StringRule, MinRule(10), MaxRule(1000)][0]);
    }
    OptionalTextRule(data, "semester", semester, 0, 50, [StringRule, MaxRule(50)]);
    OptionalTextRule(data, "academic_year", year, 0, 20, [StringRule, MaxRule(20)]);
    OptionalArrayRule(data, "registered_courses");
    OptionalArrayRule(data, "dropped_courses");
  }

  /** The entries a wildcard `X.*` expands to: those of a list `X`, none otherwise. */
  function ListEntries(data: Input, list: string): (r: seq<Value>)
    ensures list in data && data[list].List? ==> r == data[list].items
    ensures !(list in data && data[list].List?) ==> r == []
  {
    if list in data && data[list].List? then data[list].items else []
  }

  /** A blank string: the validator treats it as absent. */
  predicate Blank(v: Value) {
    v.Str? && Trim(v.s) == ""
  }

  /** `sometimes|string[|min:lo]|max:hi`: absent, blank, or a string of lo to hi characters. */
  predicate OptionalText(data: Input, field: string, lo: nat, hi: nat) {
    field !in data || Blank(data[field]) || (data[field].Str? && lo <= |data[field].s| <= hi)
  }

  /** `sometimes|array`: absent, blank, a list or an object. */
  predicate OptionalArray(data: Input, field: string) {
    field !in data || Blank(data[field]) || data[field].List? || data[field].Object?
  }

  /** An entry whose `key` holds a filled scalar whose string form is in `known`. */
  predicate ScalarIn(e: Value, key: string, known: set<string>) {
    e.Object? && key in e.fields && IsFilled(e.fields[key]) && IsScalar(e.fields[key])
    && StringOf(e.fields[key]) in known
  }

  /** The rules `sometimes|string|...` accept a field exactly as `OptionalText` says. */
  lemma OptionalTextRule(data: Input, field: string, failures: seq<Failure>, lo: nat, hi: nat, rules: seq<Rule>)
    requires rules == [StringRule, MaxRule(hi)] || rules == [StringRule, MinRule(lo), MaxRule(hi)]
    requires rules == [StringRule, MaxRule(hi)] ==> lo == 0
    requires failures == FieldFailures(field, field in data, Get(data, field), rules, true)
    ensures failures == [] <==> OptionalText(data, field, lo, hi)
  {
    assert NumericRule !in rules;
    assert forall i :: 0 <= i < |rules| ==> !Implicit(rules[i]);
    if field in data && !Blank(data[field]) {
      var v := data[field];
      if failures == [] {
        assert Accepts(rules[0], v, false) && Accepts(rules[|rules| - 1], v, false);
        if |rules| == 3 {
          assert Accepts(rules[1], v, false);
        }
      }
    }
  }

  /** `sometimes|array` accepts a field exactly as `OptionalArray` says. */
  lemma OptionalArrayRule(data: Input, field: string)
    ensures FieldFailures(field, field in data, Get(data, field), [ArrayRule], true) == [] <==> OptionalArray(data, field)
  {
    var rules := [ArrayRule];
    assert !Implicit(rules[0]) && NumericRule !in rules;
  }

  /**
   * `P.*.key => required_with:P|R` for every entry of a list `P`, R an
   * `exists` or `in` rule: one key per entry, in entry order.
   */
  function ScalarInFailures(list: string, entries: seq<Value>, key: string, rule: Rule, from: nat): (r: seq<Failure>)
    requires rule.ExistsRule? || rule.InRule?
    ensures r == [] <==> forall j :: 0 <= j < |entries| ==> ScalarIn(entries[j], key, KnownOf(rule))
    ensures forall f :: f in r ==> exists j: nat :: from <= j < from + |entries| && f.field == EntryField(list, j, key)
    decreases |entries|
  {
    if entries == [] then []
    else
      var e := entries[0];
      var present := e.Object? && key in e.fields;
      var head := FieldFailures(EntryField(list, from, key), present, if present then e.fields[key] else Null,
                                [RequiredWith(list), rule], false);
      var rest := ScalarInFailures(list, entries[1..], key, rule, from + 1);
      EntryRule(e, key, EntryField(list, from, key), list, rule, head);
      assert forall j :: 0 <= j < |entries[1..]| ==> entries[1..][j] == entries[j + 1];
      head + rest
  }

  /** The set an `exists` or `in` rule compares with. */
  function KnownOf(rule: Rule): set<string>
    requires rule.ExistsRule? || rule.InRule?
  {
    if rule.ExistsRule? then rule.known else rule.allowed
  }

  /** The key of one entry's field, `P.j.key`. */
  function EntryField(list: string, j: nat, key: string): string {
    list + "." + NatToString(j) + "." + key
  }

  /** One entry's `required_with|exists` or `required_with|in` rules pass exactly when `ScalarIn` holds. */
  lemma EntryRule(e: Value, key: string, field: string, list: string, rule: Rule, failures: seq<Failure>)
    requires rule.ExistsRule? || rule.InRule?
    requires var present := e.Object? && key in e.fields;
      failures == FieldFailures(field, present, if present then e.fields[key] else Null,
                                [RequiredWith(list), rule], false)
    ensures failures == [] <==> ScalarIn(e, key, KnownOf(rule))
  {
    var rules := [RequiredWith(list), rule];
    assert Implicit(rules[0]) && NumericRule !in rules;
    var present := e.Object? && key in e.fields;
    if present && !Blank(e.fields[key]) {
      var v := e.fields[key];
      if failures == [] {
        assert Accepts(rules[0], v, false) && Accepts(rules[1], v, false);
      }
      if ScalarIn(e, key, KnownOf(rule)) {
        forall i | 0 <= i < |rules| ensures Accepts(rules[i], v, false) {
        }
      }
    }
  }

  /** A university id of exactly eight decimal digits naming a known student. */
  predicate ValidUniversityId(v: Value, students: set<string>) {
    (v.Int? || v.Str?) && |StringOf(v)| == 8 && AllDigits(StringOf(v)) && StringOf(v) in students
  }

  /** A non-blank reason of 10 to 1000 characters. */
  predicate ValidReason(v: Value) {
    v.Str? && Trim(v.s) != "" && 10 <= |v.s| <= 1000
  }

  /**
   * The university id passes its rules exactly when it is an integer or a
   * string, written with exactly eight decimal digits, of a known student.
   */
  lemma UniversityIdRule(v: Value, students: set<string>)
    ensures FieldFailures("university_id", true, v, [Required, NumericRule, DigitsRule(8), ExistsRule(students)], false) == []
            <==> (v.Int? || v.Str?) && |StringOf(v)| == 8 && AllDigits(StringOf(v)) && StringOf(v) in students
  {
    var rules := [Required, NumericRule, DigitsRule(8), ExistsRule(students)];
    assert Implicit(rules[0]) && NumericRule in rules;
    if FieldFailures("university_id", true, v, rules, false) == [] {
      assert Accepts(rules[2], v, true) && Accepts(rules[3], v, true);
      assert !v.Bool?;
    }
    if (v.Int? || v.Str?) && |StringOf(v)| == 8 && AllDigits(StringOf(v)) && StringOf(v) in students {
      DigitsAreNumeric(StringOf(v));
      DigitsAreFilled(StringOf(v));
      forall i | 0 <= i < |rules| ensures Accepts(rules[i], v, true) {
      }
    }
  }

  /** The reason passes exactly when it is a non-blank string of 10 to 1000 characters. */
  lemma ReasonRule(v: Value)
    ensures FieldFailures("reason", true, v, [Required, StringRule, MinRule(10), MaxRule(1000)], false) == []
            <==> v.Str? && Trim(v.s) != "" && 10 <= |v.s| <= 1000
  {
    var rules := [Required, StringRule, MinRule(10), MaxRule(1000)];
    assert Implicit(rules[0]) && NumericRule !in rules;
    if FieldFailures("reason", true, v, rules, false) == [] {
      assert Accepts(rules[1], v, false) && Accepts(rules[2], v, false) && Accepts(rules[3], v, false);
    }
    if v.Str? && Trim(v.s) != "" && 10 <= |v.s| <= 1000 {
      forall i | 0 <= i < |rules| ensures Accepts(rules[i], v, false) {
      }
    }
  }

  /** `authorize` of the update request: the routed form exists and is still pending. */
  predicate UpdateAuthorized(form: RegisterDrop.Form?)
    reads form
  {
    form != null && form.CanBeEdited()
  }

  /**
   * The update request's rules in the validator's order: the four fields
   * named outright, then every entry's `id`, then every entry's `action`.
   */
  function UpdateRuleFailures(data: Input, courses: set<string>): seq<Failure> {
    FieldFailures("semester", "semester" in data, Get(data, "semester"), [StringRule, MaxRule(50)], true)
    + FieldFailures("academic_year", "academic_year" in data, Get(data, "academic_year"),
                    [StringRule, MaxRule(20)], true)
    + FieldFailures("courses", "courses" in data, Get(data, "courses"), [ArrayRule, MinRule(1)], true)
    + FieldFailures("reason", "reason" in data, Get(data, "reason"), [StringRule, MinRule(10), MaxRule(1000)], true)
    + ScalarInFailures("courses", ListEntries(data, "courses"), "id", ExistsRule(courses), 0)
    + ScalarInFailures("courses", ListEntries(data, "courses"), "action", InRule(Actions), 0)
  }

  const Actions: set<string> := {"register", "drop"}

  /** `sometimes|array|min:1`: absent, blank, or a list or object with at least one entry. */
  predicate OptionalCourses(data: Input) {
    "courses" !in data || Blank(data["courses"])
    || ((data["courses"].List? || data["courses"].Object?) && !IsEmptyValue(data["courses"]))
  }

  /**
   * The update request passes its rules exactly when semester and
   * academic_year are strings of at most 50 and 20 characters, courses has
   * at least one entry, every entry names a known course and the action
   * register or drop, and the reason has 10 to 1000 characters; each only
   * when given.
   */
  lemma UpdateRulesPass(data: Input, courses: set<string>)
    ensures UpdateRuleFailures(data, courses) == [] <==>
              OptionalText(data, "semester", 0, 50) && OptionalText(data, "academic_year", 0, 20)
              && OptionalCourses(data) && OptionalText(data, "reason", 10, 1000)
              && (forall j :: 0 <= j < |ListEntries(data, "courses")| ==>
                    ScalarIn(ListEntries(data, "courses")[j], "id", courses)
                    && ScalarIn(ListEntries(data, "courses")[j], "action", Actions))
  {
    var semester := FieldFailures("semester", "semester" in data, Get(data, "semester"), [StringRule, MaxRule(50)], true);
    var year := FieldFailures("academic_year", "academic_year" in data, Get(data, "academic_year"),
                              [StringRule, MaxRule(20)], true);
    var reason := FieldFailures("reason", "reason" in data, Get(data, "reason"),
                                [StringRule, MinRule(10), MaxRule(1000)], true);
    OptionalTextRule(data, "semester", semester, 0, 50, [StringRule, MaxRule(50)]);
    OptionalTextRule(data, "academic_year", year, 0, 20, [StringRule, MaxRule(20)]);
    OptionalTextRule(data, "reason", reason, 10, 1000, [StringRule, MinRule(10), MaxRule(1000)]);
    OptionalCoursesRule(data);
  }

  /** `sometimes|array|min:1` accepts courses exactly as `OptionalCourses` says. */
  lemma OptionalCoursesRule(data: Input)
    ensures FieldFailures("courses", "courses" in data, Get(data, "courses"), [ArrayRule, MinRule(1)], true) == []
            <==> OptionalCourses(data)
  {
    var rules := [ArrayRule, MinRule(1)];
    assert !Implicit(rules[0]) && !Implicit(rules[1]) && NumericRule !in rules;
    if "courses" in data && !Blank(data["courses"]) {
      var v := data["courses"];
      if FieldFailures("courses", true, v, rules, true) == [] {
        assert Accepts(rules[0], v, false) && Accepts(rules[1], v, false);
      }
      if v.Object? && v.fields != map[] {
        var k :| k in v.fields;
        assert k in v.fields.Keys;
      }
    }
  }

  /** The ids the update request compares, by loose equality. */
  function UpdateCourseIds(data: Input): seq<Value> {
    Pluck(Items(Get(data, "courses")), "id")
  }

  /** The update request's after-validation hook: the duplicate check, only when courses are sent. */
  function UpdateAfterErrors(data: Input): (r: seq<Added>)
    ensures "courses" !in data ==> r == []
    ensures r != [] ==> r == [Added("courses", DuplicateMessage)]
  {
    if "courses" !in data then []
    else
      var ids := UpdateCourseIds(data);
      if |UniqueBy(ids, LooseEquals)| < |ids| then [Added("courses", DuplicateMessage)] else []
  }

  /** The update's duplicate error is raised exactly when two sent ids are loosely equal. */
  lemma UpdateDuplicateIffRepeat(data: Input)
    ensures UpdateAfterErrors(data) != [] <==> "courses" in data && HasRepeat(UpdateCourseIds(data), LooseEquals)
  {
    UniqueByShrinksIffRepeat(UpdateCourseIds(data), LooseEquals);
  }
}
