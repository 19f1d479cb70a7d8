/**
 The key and parameter builders of the registrar helper. Each builds the
 parameter dictionary of one DynamoDB request: a key condition
 (`Key(a).eq(v) & Key(b).eq(w)`), an update request, or a query merged with
 caller-supplied keyword arguments (`dict.update`, where a later key wins).
 The requests are the records of the fields the helper actually reads.
 */
module RegistrarHelper {
  import opened Decimal
  import opened Slug
  import opened Wrappers

  /** A value inside a request dictionary. */
  datatype Value =
    | Str(s: string)
    | Num(n: int)
    | Bool(b: bool)
    | Dict(entries: map<string, Value>)
    | Condition(condition: KeyCondition)

  /** A boto3 key condition: `Key(attribute).eq(operand)`, and `&` of two conditions. */
  datatype KeyCondition =
    | Equals(attribute: string, operand: Value)
    | And(left: KeyCondition, right: KeyCondition)

  type Params = map<string, Value>

  const KeyConditionExpression := "KeyConditionExpression"

  datatype EnrollmentPeriodRequest = EnrollmentPeriodRequest(semester: string, year: int, autoEnrollmentEnabled: bool)

  datatype CourseRequest = CourseRequest(departmentCode: string, courseNo: int)

  datatype ClassRequest = ClassRequest(semester: string, year: int, departmentCode: string, courseNo: int, sectionNo: int)

  /** The attribute values a key condition pins down. */
  function KeyFields(c: KeyCondition): map<string, Value> {
    match c
    case Equals(a, v) => map[a := v]
    case And(l, r) => KeyFields(l) + KeyFields(r)
  }

  /** The request's only key condition pins exactly these attribute values. */
  predicate KeyedBy(p: Params, fields: map<string, Value>) {
    KeyConditionExpression in p && p[KeyConditionExpression].Condition?
    && KeyFields(p[KeyConditionExpression].condition) == fields
  }

  /**
   The term key `{semester}-{year}`. For a dash-free semester the first dash
   ends the semester and the year's numeral is all that follows it.
   */
  function Term(semester: string, year: int): (t: string)
    ensures '-' !in semester ==>
              && '-' in t && IndexOf(t, '-') == |semester|
              && t[..|semester|] == semester && t[|semester| + 1..] == IntToString(year)
  {
    var t := semester + "-" + IntToString(year);
    assert t[..|semester|] == semester && t[|semester|] == '-' && t[|semester| + 1..] == IntToString(year);
    if '-' in semester then t else DashSplitsAtFirst(semester, IntToString(year)); t
  }

  /**
   The class key `{department_code}-{course_no}-{section_no}`. For a
   dash-free department the first dash ends the department, and with
   non-negative numbers the key holds exactly two dashes.
   */
  function ClassCode(departmentCode: string, courseNo: int, sectionNo: int): (c: string)
    ensures '-' !in departmentCode ==>
              '-' in c && IndexOf(c, '-') == |departmentCode| && c[..|departmentCode|] == departmentCode
    ensures '-' !in departmentCode && courseNo >= 0 && sectionNo >= 0 ==> Occurrences(c, '-') == 2
  {
    var cs, ss := IntToString(courseNo), IntToString(sectionNo);
    var c := departmentCode + "-" + (cs + "-" + ss);
    assert c == departmentCode + "-" + cs + "-" + ss;
    if '-' in departmentCode then c
    else
      DashSplitsAtFirst(departmentCode, cs + "-" + ss);
      assert c[..|departmentCode|] == departmentCode;
      if courseNo < 0 || sectionNo < 0 then c
      else
        assert '-' !in cs by { assert AllDigits(cs); }
        assert '-' !in ss by { assert AllDigits(ss); }
        TwoDashes(departmentCode, cs, ss);
        c
  }

  /** `a-b-c` of three dash-free parts holds exactly two dashes. */
  lemma TwoDashes(a: string, b: string, c: string)
    requires '-' !in a && '-' !in b && '-' !in c
    ensures Occurrences(a + "-" + b + "-" + c, '-') == 2
  {
    assert multiset(a + "-" + b + "-" + c) == multiset(a) + multiset{'-'} + multiset(b) + multiset{'-'} + multiset(c);
  }

  lemma DashSplitsAtFirst(a: string, rest: string)
    requires '-' !in a
    ensures IndexOf(a + "-" + rest, '-') == |a|
  {
    var s := a + "-" + rest;
    assert s[|a|] == '-';
    assert s[..|a|] == a;
  }

  /** `a-rest` determines a and rest when a holds no dash. */
  lemma DashJoinInjective(a1: string, r1: string, a2: string, r2: string)
    requires '-' !in a1 && '-' !in a2
    requires a1 + "-" + r1 == a2 + "-" + r2
    ensures a1 == a2 && r1 == r2
  {
    var s := a1 + "-" + r1;
    DashSplitsAtFirst(a1, r1);
    DashSplitsAtFirst(a2, r2);
    assert s[..|a1|] == a1;
    assert s[..|a2|] == a2;
    assert s[|a1| + 1..] == r1;
    assert s[|a2| + 1..] == r2;
  }

  /** Different (semester, year) pairs name different terms. */
  lemma TermInjective(semester1: string, year1: int, semester2: string, year2: int)
    requires '-' !in semester1 && '-' !in semester2
    ensures Term(semester1, year1) == Term(semester2, year2) <==> semester1 == semester2 && year1 == year2
  {
    if Term(semester1, year1) == Term(semester2, year2) {
      DashJoinInjective(semester1, IntToString(year1), semester2, IntToString(year2));
      IntToStringInjective(year1, year2);
    }
  }

  /** Different (department, course, section) triples name different classes. */
  lemma ClassCodeInjective(dept1: string, course1: nat, section1: nat, dept2: string, course2: nat, section2: nat)
    requires '-' !in dept1 && '-' !in dept2
    ensures ClassCode(dept1, course1, section1) == ClassCode(dept2, course2, section2)
            <==> dept1 == dept2 && course1 == course2 && section1 == section2
  {
    if ClassCode(dept1, course1, section1) == ClassCode(dept2, course2, section2) {
      var c1, c2 := IntToString(course1), IntToString(course2);
      var s1, s2 := IntToString(section1), IntToString(section2);
      assert ClassCode(dept1, course1, section1) == dept1 + "-" + (c1 + "-" + s1);
      assert ClassCode(dept2, course2, section2) == dept2 + "-" + (c2 + "-" + s2);
      DashJoinInjective(dept1, c1 + "-" + s1, dept2, c2 + "-" + s2);
      assert '-' !in c1 by { assert AllDigits(c1); }
      assert '-' !in c2 by { assert AllDigits(c2); }
      DashJoinInjective(c1, s1, c2, s2);
      IntToStringInjective(course1, course2);
      IntToStringInjective(section1, section2);
    }
  }

  /** `generate_get_enrollment_period_params`. */
  function GetEnrollmentPeriodParams(request: EnrollmentPeriodRequest): (p: Params)
    ensures p.Keys == {KeyConditionExpression}
    ensures KeyedBy(p, map["term" := Str(Term(request.semester, request.year))])
  {
    map[KeyConditionExpression := Condition(Equals("term", Str(Term(request.semester, request.year))))]
  }

  const AutoEnrollmentEnabled := "auto_enrollment_enabled"

  /** `generate_update_enrollment_period_params`. */
  function UpdateEnrollmentPeriodParams(request: EnrollmentPeriodRequest): (p: Params)
    ensures "Key" in p && "UpdateExpression" in p && KeyConditionExpression !in p
  {
    map[
      "Key" := Dict(map["term" := Str(Term(request.semester, request.year)), "year" := Num(request.year)]),
      "UpdateExpression" := Str(SetExpression("#auto_enrollment_enabled", ":i")),
      "ExpressionAttributeValues" := Dict(map[":i" := Bool(request.autoEnrollmentEnabled)]),
      "ExpressionAttributeNames" := Dict(map["#auto_enrollment_enabled" := Str(AutoEnrollmentEnabled)]),
      "ReturnValues" := Str("UPDATED_NEW")
    ]
  }

  /** The update expression `SET <name> = <value>` of one assignment. */
  function SetExpression(name: string, val: string): string {
    "SET " + name + " = " + val
  }

  /** The single `SET <name> = <value>` assignment of an update expression, as its two operands. */
  function ParseSetAssignment(e: string): Option<(string, string)> {
    if |e| >= 4 && e[..4] == "SET " then
      var parts := Split(e[4..], ' ');
      if |parts| == 3 && parts[1] == "=" then Some((parts[0], parts[2])) else None
    else None
  }

  /** `#name` placeholders are looked up in ExpressionAttributeNames; plain names stand for themselves. */
  function ResolveName(p: Params, ref: string): Option<string> {
    if |ref| > 0 && ref[0] == '#' then
      if "ExpressionAttributeNames" in p && p["ExpressionAttributeNames"].Dict?
         && ref in p["ExpressionAttributeNames"].entries
         && p["ExpressionAttributeNames"].entries[ref].Str?
      then Some(p["ExpressionAttributeNames"].entries[ref].s)
      else None
    else Some(ref)
  }

  /** `:value` placeholders are looked up in ExpressionAttributeValues. */
  function ResolveValue(p: Params, ref: string): Option<Value> {
    if "ExpressionAttributeValues" in p && p["ExpressionAttributeValues"].Dict?
       && ref in p["ExpressionAttributeValues"].entries
    then Some(p["ExpressionAttributeValues"].entries[ref])
    else None
  }

  /** The attributes an update request writes, and the values it writes to them. */
  function UpdatedAttributes(p: Params): Option<map<string, Value>> {
    if "UpdateExpression" in p && p["UpdateExpression"].Str? then
      match ParseSetAssignment(p["UpdateExpression"].s)
      case None => None
      case Some(assignment) =>
        match ResolveName(p, assignment.0)
        case None => None
        case Some(name) =>
          match ResolveValue(p, assignment.1)
          case None => None
          case Some(v) => Some(map[name := v])
    else None
  }

  /** The update request keys by term `{semester}-{year}` and year, and asks for the updated attributes back. */
  lemma UpdateEnrollmentPeriodKey(request: EnrollmentPeriodRequest)
    ensures UpdateEnrollmentPeriodParams(request)["Key"]
            == Dict(map["term" := Str(Term(request.semester, request.year)), "year" := Num(request.year)])
    ensures UpdateEnrollmentPeriodParams(request)["ReturnValues"] == Str("UPDATED_NEW")
  {
  }

  /** The update writes `auto_enrollment_enabled` and nothing else, to exactly the request's value. */
  lemma UpdateEnrollmentPeriodSetsOnlyFlag(request: EnrollmentPeriodRequest)
    ensures UpdatedAttributes(UpdateEnrollmentPeriodParams(request))
            == Some(map[AutoEnrollmentEnabled := Bool(request.autoEnrollmentEnabled)])
  {
    var p := UpdateEnrollmentPeriodParams(request);
    assert p["UpdateExpression"] == Str(SetExpression("#auto_enrollment_enabled", ":i"));
    assert ResolveName(p, "#auto_enrollment_enabled") == Some(AutoEnrollmentEnabled);
    assert ResolveValue(p, ":i") == Some(Bool(request.autoEnrollmentEnabled));
    SingleAssignmentWrites(p, "#auto_enrollment_enabled", ":i", AutoEnrollmentEnabled, Bool(request.autoEnrollmentEnabled));
  }

  /** An update whose expression is one `SET` of resolvable operands writes exactly that attribute. */
  lemma SingleAssignmentWrites(p: Params, nameRef: string, valRef: string, name: string, v: Value)
    requires ' ' !in nameRef && ' ' !in valRef
    requires "UpdateExpression" in p && p["UpdateExpression"] == Str(SetExpression(nameRef, valRef))
    requires ResolveName(p, nameRef) == Some(name)
    requires ResolveValue(p, valRef) == Some(v)
    ensures UpdatedAttributes(p) == Some(map[name := v])
  {
    SetAssignmentParses(nameRef, valRef);
  }

  lemma SetAssignmentParses(name: string, val: string)
    requires ' ' !in name && ' ' !in val
    ensures ParseSetAssignment(SetExpression(name, val)) == Some((name, val))
  {
    var b := name + " " + ("=" + " " + val);
    var e := SetExpression(name, val);
    assert e == "SET " + b;
    assert e[..4] == "SET ";
    assert e[4..] == b;
    var parts := [name, "=", val];
    assert parts[1..] == ["=", val];
    assert Join(parts[1..], ' ') == "=" + " " + val;
    assert Join(parts, ' ') == b;
    SplitJoin(parts, ' ');
  }

  /** Every entry of kwargs is an entry of p. */
  predicate Includes(p: Params, kwargs: Params) {
    forall k :: k in kwargs ==> k in p && p[k] == kwargs[k]
  }

  /** `query_params.update(kwargs)`, skipped when kwargs is empty: the kwargs win on shared keys. */
  function Merge(base: Params, kwargs: Params): (p: Params)
    ensures p.Keys == base.Keys + kwargs.Keys
    ensures Includes(p, kwargs)
    ensures forall k :: k in base && k !in kwargs ==> p[k] == base[k]
  {
    if |kwargs| == 0 then base else base + kwargs
  }

  /** `Key(a).eq(v) & Key(b).eq(w)` pins a to v and b to w. */
  lemma TwoKeyFields(a: string, v: Value, b: string, w: Value)
    ensures KeyFields(And(Equals(a, v), Equals(b, w))) == map[a := v, b := w]
  {
  }

  /** `generate_get_course_params`: the course key, then `query_params.update(kwargs)` when kwargs is non-empty. */
  function GetCourseParams(request: CourseRequest, kwargs: Params): (p: Params)
    ensures p.Keys == {KeyConditionExpression} + kwargs.Keys
    ensures Includes(p, kwargs)
    ensures KeyConditionExpression !in kwargs ==>
              KeyedBy(p, map["department_code" := Str(request.departmentCode), "course_no" := Num(request.courseNo)])
  {
    var base := map[KeyConditionExpression :=
      Condition(And(Equals("department_code", Str(request.departmentCode)), Equals("course_no", Num(request.courseNo))))];
    TwoKeyFields("department_code", Str(request.departmentCode), "course_no", Num(request.courseNo));
    Merge(base, kwargs)
  }

  /** `generate_get_class_params`: the (term, class) key, then `query_params.update(kwargs)` when kwargs is non-empty. */
  function GetClassParams(request: ClassRequest, kwargs: Params): (p: Params)
    ensures p.Keys == {KeyConditionExpression} + kwargs.Keys
    ensures Includes(p, kwargs)
    ensures KeyConditionExpression !in kwargs ==>
              KeyedBy(p, map["term" := Str(Term(request.semester, request.year)),
                             "class" := Str(ClassCode(request.departmentCode, request.courseNo, request.sectionNo))])
  {
    var base := map[KeyConditionExpression :=
      Condition(And(Equals("term", Str(Term(request.semester, request.year))),
                    Equals("class", Str(ClassCode(request.departmentCode, request.courseNo, request.sectionNo)))))];
    TwoKeyFields("term", Str(Term(request.semester, request.year)),
                 "class", Str(ClassCode(request.departmentCode, request.courseNo, request.sectionNo)));
    Merge(base, kwargs)
  }
}
