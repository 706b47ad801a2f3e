/** The auto-allocator of `autoAllocate`: faculty, courses and classes are
    grouped by department, and inside each department faculty members are
    handed (class, course) pairs round-robin. A pair is skipped only when the
    exact (faculty, class, course) triple is already allocated for the term;
    a created allocation is approved when the faculty member's expertise
    matches what the course requires, and pending otherwise. */
module Allocator {
  import opened Wrappers
  import opened Text
  import opened Entities

  // ---------------------------------------------------------------------
  // Grouping by department

  function FacultyDepartment(f: Faculty): Id { f.department_id }
  function CourseDepartment(c: Course): Id { c.department_id }
  function ClassDepartment(c: Class): Id { c.department_id }

  /** The bucket of department `d`: the items of that department, in the
      order of `items`. */
  function OfDepartment<T>(items: seq<T>, dept: T -> Id, d: Id): seq<T>
  {
    if items == [] then []
    else
      var init := OfDepartment(items[..|items| - 1], dept, d);
      if dept(items[|items| - 1]) == d then init + [items[|items| - 1]] else init
  }

  /** A bucket holds exactly the items of its department. */
  lemma {:induction false} OfDepartmentMembers<T>(items: seq<T>, dept: T -> Id, d: Id)
    ensures forall k :: 0 <= k < |OfDepartment(items, dept, d)| ==>
      dept(OfDepartment(items, dept, d)[k]) == d && OfDepartment(items, dept, d)[k] in items
    ensures forall k :: 0 <= k < |items| && dept(items[k]) == d ==> items[k] in OfDepartment(items, dept, d)
  {
    if items != [] {
      var init := items[..|items| - 1];
      OfDepartmentMembers(init, dept, d);
      assert forall k :: 0 <= k < |init| ==> items[k] == init[k];
    }
  }

  /** The `forEach` that fills `coursesByDept`, `classesByDept` and
      `facultyByDept`: a bucket is created on a department's first item and
      every item is pushed onto its department's bucket. */
  method GroupByDepartment<T>(items: seq<T>, dept: T -> Id) returns (buckets: map<Id, seq<T>>)
    ensures forall d :: d in buckets <==> OfDepartment(items, dept, d) != []
    ensures forall d :: d in buckets ==> buckets[d] == OfDepartment(items, dept, d)
  {
    buckets := map[];
    var i := 0;
    while i < |items|
      invariant 0 <= i <= |items|
      invariant forall d :: d in buckets <==> OfDepartment(items[..i], dept, d) != []
      invariant forall d :: d in buckets ==> buckets[d] == OfDepartment(items[..i], dept, d)
    {
      var x := items[i];
      assert items[..i + 1][..i] == items[..i];
      if dept(x) !in buckets {
        buckets := buckets[dept(x) := []];
      }
      buckets := buckets[dept(x) := buckets[dept(x)] + [x]];
      i := i + 1;
    }
    assert items[..i] == items;
  }

  /** The departments that have at least one course. */
  function CourseDepartments(courses: seq<Course>): (s: set<Id>)
    ensures forall d :: d in s <==> exists c :: c in courses && c.department_id == d
  {
    set c | c in courses :: c.department_id
  }

  /** A least element, found by taking out an arbitrary one and comparing it
      with the least of the rest. */
  lemma {:induction false} MinimumWitness(s: set<Id>) returns (m: Id)
    requires s != {}
    ensures m in s && forall y :: y in s ==> m <= y
  {
    var x :| x in s;
    if s == {x} {
      m := x;
    } else {
      var r := MinimumWitness(s - {x});
      m := if x < r then x else r;
      forall y | y in s ensures m <= y {
        if y != x { assert y in s - {x}; }
      }
    }
  }

  lemma MinimumExists(s: set<Id>)
    requires s != {}
    ensures exists m :: m in s && forall y :: y in s ==> m <= y
  {
    var m := MinimumWitness(s);
    assert m in s && forall y :: y in s ==> m <= y;
  }

  /** The least element of a non-empty set of ids. */
  function Minimum(s: set<Id>): (m: Id)
    requires s != {}
    ensures m in s && forall y :: y in s ==> m <= y
  {
    MinimumExists(s);
    var m :| m in s && forall y :: y in s ==> m <= y;
    m
  }

  /** `Object.keys` of an object whose keys are non-negative integers: every
      key once, in ascending numeric order. */
  function ObjectKeys(s: set<Id>): (r: seq<Id>)
    ensures forall i, j :: 0 <= i < j < |r| ==> r[i] < r[j]
    ensures forall d :: d in r <==> d in s
    decreases |s|
  {
    if s == {} then []
    else
      var m := Minimum(s);
      var rest := ObjectKeys(s - {m});
      assert forall k :: 0 <= k < |rest| ==> m < rest[k];
      [m] + rest
  }

  // ---------------------------------------------------------------------
  // Duplicate filter

  /** `allocatedKey(f, cl, co)`. With non-negative integer ids the string
      `${f}-${cl}-${co}` determines the triple, so the triple stands for it. */
  type Key = (Id, Id, Id)

  /** `existingKeys`: the keys of the term's pre-existing allocations. */
  function ExistingKeys(existing: seq<Allocation>): (keys: set<Key>)
    ensures forall f, cl, co :: (f, cl, co) in keys <==>
      exists a :: a in existing && a.faculty_id == f && a.class_id == cl && a.course_id == co
  {
    set a | a in existing :: (a.faculty_id, a.class_id, a.course_id)
  }

  /** `allocatedKey(f, cl, co)`: the ids joined by dashes. */
  function KeyString(f: Id, cl: Id, co: Id): string
  {
    NatToString(f) + "-" + NatToString(cl) + "-" + NatToString(co)
  }

  /** The dashed key tells the three ids apart, because the decimal
      renderings of ids hold no dash: equal keys mean equal triples. */
  lemma KeyStringInjective(f1: Id, cl1: Id, co1: Id, f2: Id, cl2: Id, co2: Id)
    ensures KeyString(f1, cl1, co1) == KeyString(f2, cl2, co2) <==> (f1, cl1, co1) == (f2, cl2, co2)
  {
    if KeyString(f1, cl1, co1) == KeyString(f2, cl2, co2) {
      SplitDashed(NatToString(f1), NatToString(cl1), NatToString(co1),
                  NatToString(f2), NatToString(cl2), NatToString(co2));
      NatToStringInjective(f1, f2);
      NatToStringInjective(cl1, cl2);
      NatToStringInjective(co1, co2);
    }
  }

  /** `new Set(existing.map(a => allocatedKey(...)))`. */
  function StringKeys(existing: seq<Allocation>): set<string>
  {
    set a | a in existing :: KeyString(a.faculty_id, a.class_id, a.course_id)
  }

  /** Looking a pair up by its dashed key in the set of dashed keys answers
      the same as looking its id triple up in the set of triples, so the
      model keeps the triples. */
  lemma ExistingKeysAsStrings(existing: seq<Allocation>, f: Id, cl: Id, co: Id)
    ensures KeyString(f, cl, co) in StringKeys(existing) <==> (f, cl, co) in ExistingKeys(existing)
  {
    if KeyString(f, cl, co) in StringKeys(existing) {
      var a :| a in existing && KeyString(a.faculty_id, a.class_id, a.course_id) == KeyString(f, cl, co);
      KeyStringInjective(a.faculty_id, a.class_id, a.course_id, f, cl, co);
    }
  }

  // ---------------------------------------------------------------------
  // Expertise match

  /** `exp.toLowerCase().includes(req.toLowerCase()) ||
      req.toLowerCase().includes(exp.toLowerCase())`. */
  predicate SkillsMatch(req: string, exp: string)
  {
    Includes(ToLower(exp), ToLower(req)) || Includes(ToLower(req), ToLower(exp))
  }

  /** The match ignores letter case: lower-casing either skill first does not
      change the answer. */
  lemma SkillsMatchIgnoresCase(req: string, exp: string)
    ensures SkillsMatch(ToLower(req), exp) == SkillsMatch(req, exp)
    ensures SkillsMatch(req, ToLower(exp)) == SkillsMatch(req, exp)
  {
    ToLowerFolds(req);
    ToLowerFolds(exp);
  }

  /** `expertise.some(exp => ...)` for one required skill. */
  function MatchesSomeExpertise(req: string, expertise: seq<string>): bool
  {
    if expertise == [] then false
    else SkillsMatch(req, expertise[0]) || MatchesSomeExpertise(req, expertise[1..])
  }

  /** `required.some(req => expertise.some(...))`. */
  function SomeRequirementMatches(required: seq<string>, expertise: seq<string>): bool
  {
    if required == [] then false
    else MatchesSomeExpertise(required[0], expertise) || SomeRequirementMatches(required[1..], expertise)
  }

  /** `hasExpertise` for a course and the faculty member offered to it. An
      absent expertise list (null) makes the conjunction falsy. */
  function HasExpertise(course: Course, f: Faculty): bool
  {
    match course.required_expertise
    case None => true
    case Some(required) =>
      required == [] || (f.expertise.Some? && SomeRequirementMatches(required, f.expertise.value))
  }

  /** The status an auto-created allocation gets. */
  function StatusFor(course: Course, f: Faculty): Status
  {
    if HasExpertise(course, f) then Approved else Pending
  }

  lemma {:induction false} MatchesSomeExpertiseSpec(req: string, expertise: seq<string>)
    ensures MatchesSomeExpertise(req, expertise) <==>
      exists j :: 0 <= j < |expertise| && SkillsMatch(req, expertise[j])
  {
    if expertise != [] {
      MatchesSomeExpertiseSpec(req, expertise[1..]);
      assert forall j :: 1 <= j < |expertise| ==> expertise[j] == expertise[1..][j - 1];
    }
  }

  lemma {:induction false} SomeRequirementMatchesSpec(required: seq<string>, expertise: seq<string>)
    ensures SomeRequirementMatches(required, expertise) <==>
      exists i, j :: 0 <= i < |required| && 0 <= j < |expertise| && SkillsMatch(required[i], expertise[j])
  {
    if required != [] {
      MatchesSomeExpertiseSpec(required[0], expertise);
      SomeRequirementMatchesSpec(required[1..], expertise);
      assert forall i :: 1 <= i < |required| ==> required[i] == required[1..][i - 1];
      if SomeRequirementMatches(required[1..], expertise) {
        var i, j :| 0 <= i < |required[1..]| && 0 <= j < |expertise| && SkillsMatch(required[1..][i], expertise[j]);
        assert SkillsMatch(required[i + 1], expertise[j]);
      }
    }
  }

  /** The status rule: approved exactly when the course requires nothing
      (null or empty) or some required skill and some skill of the faculty
      member match case-insensitively, either one containing the other;
      pending otherwise, in particular when the faculty member has no
      expertise list. */
  lemma StatusRule(course: Course, f: Faculty)
    ensures StatusFor(course, f) == Approved || StatusFor(course, f) == Pending
    ensures StatusFor(course, f) == Approved <==>
      || course.required_expertise == None
      || course.required_expertise == Some([])
      || (&& course.required_expertise.Some? && f.expertise.Some?
          && exists i, j :: 0 <= i < |course.required_expertise.value| && 0 <= j < |f.expertise.value|
               && SkillsMatch(course.required_expertise.value[i], f.expertise.value[j]))
  {
    if course.required_expertise.Some? && f.expertise.Some? {
      SomeRequirementMatchesSpec(course.required_expertise.value, f.expertise.value);
    }
  }

  // ---------------------------------------------------------------------
  // Round-robin visits

  /** One (class, course) pair of a department together with the faculty
      member the round-robin index picked for it. */
  datatype Visit = Visit(faculty: Faculty, cls: Class, course: Course)

  /** The faculty member whose turn the running index `k` is. */
  function Turn(fs: seq<Faculty>, k: nat): Faculty
    requires fs != []
  {
    fs[k % |fs|]
  }

  /** The inner loop for one class: course `j` is offered to faculty member
      `(base + j) % |fs|`, where `base` is the department's running index
      when the class starts. */
  function ClassVisits(fs: seq<Faculty>, cl: Class, cs: seq<Course>, base: nat): seq<Visit>
    requires fs != []
  {
    if cs == [] then []
    else ClassVisits(fs, cl, cs[..|cs| - 1], base) + [Visit(Turn(fs, base + |cs| - 1), cl, cs[|cs| - 1])]
  }

  /** `w` added `n` times: the running index after `n` classes of `w`
      courses each. */
  function Times(n: nat, w: nat): nat
  {
    if n == 0 then 0 else Times(n - 1, w) + w
  }

  lemma {:induction false} TimesIsProduct(n: nat, w: nat)
    ensures Times(n, w) == n * w
  {
    if n > 0 {
      TimesIsProduct(n - 1, w);
      assert (n - 1) * w + w == n * w;
    }
  }

  /** The nested loop of one department: classes outside, courses inside,
      the running index continuing across classes. */
  function DeptVisits(fs: seq<Faculty>, cls: seq<Class>, cs: seq<Course>): seq<Visit>
    requires fs != []
  {
    if cls == [] then []
    else DeptVisits(fs, cls[..|cls| - 1], cs) + ClassVisits(fs, cls[|cls| - 1], cs, Times(|cls| - 1, |cs|))
  }

  function KeyOf(v: Visit): Key
  {
    (v.faculty.id, v.cls.id, v.course.id)
  }

  function ToAllocation(v: Visit, term: Term): NewAllocation
  {
    NewAllocation(v.faculty.id, v.cls.id, v.course.id, term.academic_year, term.semester,
                  StatusFor(v.course, v.faculty))
  }

  /** The visits whose key is not already allocated, as allocations. Only the
      pre-existing keys are consulted: the batch is not checked against
      itself. */
  function Emit(vs: seq<Visit>, existing: set<Key>, term: Term): seq<NewAllocation>
  {
    if vs == [] then []
    else
      var v := vs[|vs| - 1];
      Emit(vs[..|vs| - 1], existing, term) + (if KeyOf(v) in existing then [] else [ToAllocation(v, term)])
  }

  lemma {:induction false} ClassVisitsAt(fs: seq<Faculty>, cl: Class, cs: seq<Course>, base: nat, j: nat)
    requires fs != [] && j < |cs|
    ensures |ClassVisits(fs, cl, cs, base)| == |cs|
    ensures ClassVisits(fs, cl, cs, base)[j] == Visit(Turn(fs, base + j), cl, cs[j])
  {
    ClassVisitsLength(fs, cl, cs[..|cs| - 1], base);
    if j < |cs| - 1 {
      ClassVisitsAt(fs, cl, cs[..|cs| - 1], base, j);
    }
  }

  lemma {:induction false} ClassVisitsLength(fs: seq<Faculty>, cl: Class, cs: seq<Course>, base: nat)
    requires fs != []
    ensures |ClassVisits(fs, cl, cs, base)| == |cs|
  {
    if cs != [] {
      ClassVisitsLength(fs, cl, cs[..|cs| - 1], base);
    }
  }

  lemma {:induction false} DeptVisitsLength(fs: seq<Faculty>, cls: seq<Class>, cs: seq<Course>)
    requires fs != []
    ensures |DeptVisits(fs, cls, cs)| == Times(|cls|, |cs|)
  {
    if cls != [] {
      DeptVisitsLength(fs, cls[..|cls| - 1], cs);
      ClassVisitsLength(fs, cls[|cls| - 1], cs, Times(|cls| - 1, |cs|));
    }
  }

  /** The running index of a class's course lies before the end. */
  lemma {:induction false} TimesBound(i: nat, n: nat, w: nat, j: nat)
    requires i < n && j < w
    ensures Times(i, w) + j < Times(n, w)
  {
    if i < n - 1 {
      TimesBound(i, n - 1, w, j);
    }
  }

  /** A department's visits are those of its earlier classes followed by the
      last class's. */
  lemma DeptVisitsSplit(fs: seq<Faculty>, cls: seq<Class>, cs: seq<Course>)
    requires fs != [] && cls != []
    ensures var m := |cls| - 1;
      DeptVisits(fs, cls, cs) == DeptVisits(fs, cls[..m], cs) + ClassVisits(fs, cls[m], cs, Times(m, |cs|))
      && |DeptVisits(fs, cls[..m], cs)| == Times(m, |cs|)
      && |ClassVisits(fs, cls[m], cs, Times(m, |cs|))| == |cs|
  {
    var m := |cls| - 1;
    DeptVisitsLength(fs, cls[..m], cs);
    ClassVisitsLength(fs, cls[m], cs, Times(m, |cs|));
  }

  /** Round-robin cadence, with the running index as `Times`. */
  lemma {:induction false} RoundRobinAt(fs: seq<Faculty>, cls: seq<Class>, cs: seq<Course>, i: nat, j: nat)
    requires fs != [] && i < |cls| && j < |cs|
    ensures |DeptVisits(fs, cls, cs)| == Times(|cls|, |cs|)
    ensures Times(i, |cs|) + j < Times(|cls|, |cs|)
    ensures DeptVisits(fs, cls, cs)[Times(i, |cs|) + j] == Visit(Turn(fs, Times(i, |cs|) + j), cls[i], cs[j])
  {
    DeptVisitsLength(fs, cls, cs);
    TimesBound(i, |cls|, |cs|, j);
    var m := |cls| - 1;
    DeptVisitsSplit(fs, cls, cs);
    var prefix := DeptVisits(fs, cls[..m], cs);
    var last := ClassVisits(fs, cls[m], cs, Times(m, |cs|));
    var k := Times(i, |cs|) + j;
    if i < m {
      RoundRobinAt(fs, cls[..m], cs, i, j);
      assert cls[..m][i] == cls[i];
      assert (prefix + last)[k] == prefix[k];
    } else {
      ClassVisitsAt(fs, cls[m], cs, Times(m, |cs|), j);
      assert (prefix + last)[k] == last[j];
    }
  }

  /** Round-robin cadence: the pair of class `i` and course `j` is visited
      `i * |cs| + j`-th (classes outside, courses inside) and is offered to
      faculty member `(i * |cs| + j) % |fs|`, whatever happened to the
      earlier pairs. */
  lemma RoundRobin(fs: seq<Faculty>, cls: seq<Class>, cs: seq<Course>, i: nat, j: nat)
    requires fs != [] && i < |cls| && j < |cs|
    ensures |DeptVisits(fs, cls, cs)| == |cls| * |cs|
    ensures i * |cs| + j < |cls| * |cs|
    ensures DeptVisits(fs, cls, cs)[i * |cs| + j] == Visit(fs[(i * |cs| + j) % |fs|], cls[i], cs[j])
  {
    RoundRobinAt(fs, cls, cs, i, j);
    TimesIsProduct(i, |cs|);
    TimesIsProduct(|cls|, |cs|);
  }

  /** Every visit position is the position of some (class, course) pair. */
  lemma {:induction false} DeptVisitsIndex(fs: seq<Faculty>, cls: seq<Class>, cs: seq<Course>, k: nat)
    returns (i: nat, j: nat)
    requires fs != [] && k < |DeptVisits(fs, cls, cs)|
    ensures i < |cls| && j < |cs| && k == i * |cs| + j
  {
    i, j := DeptVisitsPosition(fs, cls, cs, k);
    TimesIsProduct(i, |cs|);
  }

  lemma {:induction false} DeptVisitsPosition(fs: seq<Faculty>, cls: seq<Class>, cs: seq<Course>, k: nat)
    returns (i: nat, j: nat)
    requires fs != [] && k < |DeptVisits(fs, cls, cs)|
    ensures i < |cls| && j < |cs| && k == Times(i, |cs|) + j
  {
    var m := |cls| - 1;
    DeptVisitsLength(fs, cls[..m], cs);
    if k < |DeptVisits(fs, cls[..m], cs)| {
      i, j := DeptVisitsPosition(fs, cls[..m], cs, k);
    } else {
      ClassVisitsLength(fs, cls[m], cs, Times(m, |cs|));
      i, j := m, k - Times(m, |cs|);
    }
  }

  lemma {:induction false} EmitMembership(vs: seq<Visit>, existing: set<Key>, term: Term, x: NewAllocation)
    ensures x in Emit(vs, existing, term) <==>
      exists k :: 0 <= k < |vs| && KeyOf(vs[k]) !in existing && x == ToAllocation(vs[k], term)
  {
    if vs != [] {
      var init := vs[..|vs| - 1];
      EmitMembership(init, existing, term, x);
      assert forall k :: 0 <= k < |init| ==> init[k] == vs[k];
    }
  }

  lemma {:induction false} EmitAppend(a: seq<Visit>, b: seq<Visit>, existing: set<Key>, term: Term)
    ensures Emit(a + b, existing, term) == Emit(a, existing, term) + Emit(b, existing, term)
  {
    if b != [] {
      assert (a + b)[..|a + b| - 1] == a + b[..|b| - 1];
      EmitAppend(a, b[..|b| - 1], existing, term);
    } else {
      assert a + b == a;
    }
  }

  /** The visit of class `i` and course `j` of a department. */
  function PairVisit(fs: seq<Faculty>, cls: seq<Class>, cs: seq<Course>, i: nat, j: nat): Visit
    requires fs != [] && i < |cls| && j < |cs|
  {
    Visit(fs[(i * |cs| + j) % |fs|], cls[i], cs[j])
  }

  /** A pair visit, with the running index written as `Times`. */
  lemma PairVisitTurn(fs: seq<Faculty>, cls: seq<Class>, cs: seq<Course>, i: nat, j: nat)
    requires fs != [] && i < |cls| && j < |cs|
    ensures PairVisit(fs, cls, cs, i, j) == Visit(Turn(fs, Times(i, |cs|) + j), cls[i], cs[j])
  {
    TimesIsProduct(i, |cs|);
  }

  /** The faculty member a pair visit assigns is one of the department's. */
  lemma PairVisitFaculty(fs: seq<Faculty>, cls: seq<Class>, cs: seq<Course>, i: nat, j: nat) returns (n: nat)
    requires fs != [] && i < |cls| && j < |cs|
    ensures n < |fs| && PairVisit(fs, cls, cs, i, j) == Visit(fs[n], cls[i], cs[j])
  {
    n := (i * |cs| + j) % |fs|;
  }

  /** `Emit` keeps the visits whose key is not pre-existing, in their order:
      its result is the image of a strictly increasing list of visit
      positions, and that list holds every position whose key is new. */
  lemma {:induction false} EmitIndices(vs: seq<Visit>, existing: set<Key>, term: Term) returns (idx: seq<nat>)
    ensures |idx| == |Emit(vs, existing, term)|
    ensures forall a, b :: 0 <= a < b < |idx| ==> idx[a] < idx[b]
    ensures forall t :: 0 <= t < |idx| ==>
      idx[t] < |vs| && KeyOf(vs[idx[t]]) !in existing && Emit(vs, existing, term)[t] == ToAllocation(vs[idx[t]], term)
    ensures forall k :: 0 <= k < |vs| && KeyOf(vs[k]) !in existing ==> k in idx
  {
    if vs == [] {
      idx := [];
    } else {
      var init := vs[..|vs| - 1];
      var v := vs[|vs| - 1];
      idx := EmitIndices(init, existing, term);
      assert forall k :: 0 <= k < |init| ==> init[k] == vs[k];
      if KeyOf(v) !in existing {
        idx := idx + [|vs| - 1];
      }
    }
  }

  lemma EmittedPairSound(fs: seq<Faculty>, cls: seq<Class>, cs: seq<Course>, existing: set<Key>, term: Term,
                         x: NewAllocation) returns (i: nat, j: nat)
    requires fs != [] && x in Emit(DeptVisits(fs, cls, cs), existing, term)
    ensures i < |cls| && j < |cs| && KeyOf(PairVisit(fs, cls, cs, i, j)) !in existing
    ensures x == ToAllocation(PairVisit(fs, cls, cs, i, j), term)
  {
    var vs := DeptVisits(fs, cls, cs);
    var idx := EmitIndices(vs, existing, term);
    var t :| 0 <= t < |idx| && Emit(vs, existing, term)[t] == x;
    i, j := VisitIsPair(fs, cls, cs, idx[t]);
  }

  /** Every visit is the pair visit at its position. */
  lemma VisitIsPair(fs: seq<Faculty>, cls: seq<Class>, cs: seq<Course>, k: nat) returns (i: nat, j: nat)
    requires fs != [] && k < |DeptVisits(fs, cls, cs)|
    ensures i < |cls| && j < |cs| && k == Times(i, |cs|) + j
    ensures DeptVisits(fs, cls, cs)[k] == PairVisit(fs, cls, cs, i, j)
  {
    i, j := DeptVisitsPosition(fs, cls, cs, k);
    RoundRobinAt(fs, cls, cs, i, j);
    PairVisitTurn(fs, cls, cs, i, j);
  }

  lemma EmittedPairComplete(fs: seq<Faculty>, cls: seq<Class>, cs: seq<Course>, existing: set<Key>, term: Term,
                            i: nat, j: nat)
    requires fs != [] && i < |cls| && j < |cs| && KeyOf(PairVisit(fs, cls, cs, i, j)) !in existing
    ensures ToAllocation(PairVisit(fs, cls, cs, i, j), term) in Emit(DeptVisits(fs, cls, cs), existing, term)
  {
    var vs := DeptVisits(fs, cls, cs);
    var idx := EmitIndices(vs, existing, term);
    RoundRobinAt(fs, cls, cs, i, j);
    PairVisitTurn(fs, cls, cs, i, j);
    var k := Times(i, |cs|) + j;
    assert vs[k] == PairVisit(fs, cls, cs, i, j);
    assert KeyOf(vs[k]) !in existing;
    assert k in idx;
    var t :| 0 <= t < |idx| && idx[t] == k;
    assert Emit(vs, existing, term)[t] == ToAllocation(vs[k], term);
  }

  /** Exactly the (class, course) pairs whose round-robin triple is not
      pre-existing give an allocation, and each gives the allocation of the
      faculty member the round-robin index picked for it. */
  lemma EmittedPairs(fs: seq<Faculty>, cls: seq<Class>, cs: seq<Course>, existing: set<Key>, term: Term,
                     x: NewAllocation)
    requires fs != []
    ensures x in Emit(DeptVisits(fs, cls, cs), existing, term) <==>
      exists i, j :: 0 <= i < |cls| && 0 <= j < |cs| && KeyOf(PairVisit(fs, cls, cs, i, j)) !in existing
        && x == ToAllocation(PairVisit(fs, cls, cs, i, j), term)
  {
    if x in Emit(DeptVisits(fs, cls, cs), existing, term) {
      var i, j := EmittedPairSound(fs, cls, cs, existing, term, x);
    }
    forall i, j | 0 <= i < |cls| && 0 <= j < |cs| && KeyOf(PairVisit(fs, cls, cs, i, j)) !in existing
      ensures ToAllocation(PairVisit(fs, cls, cs, i, j), term) in Emit(DeptVisits(fs, cls, cs), existing, term)
    {
      EmittedPairComplete(fs, cls, cs, existing, term, i, j);
    }
  }

  /** A skipped pair is not retried with another faculty member: when the
      department's classes and courses have distinct ids and the pair's
      round-robin triple is pre-existing, no allocation of that department
      is for that class and course. */
  lemma SkippedPairNotRetried(fs: seq<Faculty>, cls: seq<Class>, cs: seq<Course>, existing: set<Key>,
                              term: Term, i: nat, j: nat)
    requires fs != [] && i < |cls| && j < |cs|
    requires forall a, b :: 0 <= a < b < |cls| ==> cls[a].id != cls[b].id
    requires forall a, b :: 0 <= a < b < |cs| ==> cs[a].id != cs[b].id
    requires KeyOf(PairVisit(fs, cls, cs, i, j)) in existing
    ensures forall x :: x in Emit(DeptVisits(fs, cls, cs), existing, term) ==>
      x.class_id != cls[i].id || x.course_id != cs[j].id
  {
    forall x | x in Emit(DeptVisits(fs, cls, cs), existing, term)
      ensures x.class_id != cls[i].id || x.course_id != cs[j].id
    {
      EmittedPairs(fs, cls, cs, existing, term, x);
      var i', j' :| 0 <= i' < |cls| && 0 <= j' < |cs| && KeyOf(PairVisit(fs, cls, cs, i', j')) !in existing
        && x == ToAllocation(PairVisit(fs, cls, cs, i', j'), term);
      assert (i', j') != (i, j);
      if i' != i {
        assert cls[i'].id != cls[i].id;
      } else {
        assert cs[j'].id != cs[j].id;
      }
    }
  }

  // ---------------------------------------------------------------------
  // The allocator as a function of its inputs

  /** What department `d` contributes: nothing when it has no faculty,
      otherwise its round-robin visits minus the pre-existing keys. */
  function DeptAllocations(d: Id, term: Term, faculty: seq<Faculty>, courses: seq<Course>,
                           classes: seq<Class>, existing: set<Key>): seq<NewAllocation>
  {
    var fs := OfDepartment(faculty, FacultyDepartment, d);
    if fs == [] then []
    else
      Emit(DeptVisits(fs, OfDepartment(classes, ClassDepartment, d), OfDepartment(courses, CourseDepartment, d)),
           existing, term)
  }

  function AllocateDepts(ds: seq<Id>, term: Term, faculty: seq<Faculty>, courses: seq<Course>,
                         classes: seq<Class>, existing: set<Key>): seq<NewAllocation>
  {
    if ds == [] then []
    else
      AllocateDepts(ds[..|ds| - 1], term, faculty, courses, classes, existing)
        + DeptAllocations(ds[|ds| - 1], term, faculty, courses, classes, existing)
  }

  /** The new allocations of one auto-allocation run: department by
      department in ascending id, each as built by `DeptAllocations`. */
  function Allocate(term: Term, faculty: seq<Faculty>, courses: seq<Course>, classes: seq<Class>,
                    existing: seq<Allocation>): seq<NewAllocation>
  {
    AllocateDepts(ObjectKeys(CourseDepartments(courses)), term, faculty, courses, classes, ExistingKeys(existing))
  }

  /** The callback run for one class: every course of the department in
      turn, offered to faculty member `facultyIndex % |fs|`, the index
      advancing on every pair, skipped or not. */
  method AllocateClass(fs: seq<Faculty>, cls: Class, cs: seq<Course>, facultyIndex: nat,
                       existingKeys: set<Key>, term: Term)
    returns (emitted: seq<NewAllocation>, nextIndex: nat)
    requires fs != []
    ensures nextIndex == facultyIndex + |cs|
    ensures emitted == Emit(ClassVisits(fs, cls, cs, facultyIndex), existingKeys, term)
  {
    emitted := [];
    nextIndex := facultyIndex;
    var cj := 0;
    while cj < |cs|
      invariant 0 <= cj <= |cs|
      invariant nextIndex == facultyIndex + cj
      invariant emitted == Emit(ClassVisits(fs, cls, cs[..cj], facultyIndex), existingKeys, term)
    {
      var course := cs[cj];
      var assignedFaculty := fs[nextIndex % |fs|];
      nextIndex := nextIndex + 1;
      ghost var vs := ClassVisits(fs, cls, cs[..cj + 1], facultyIndex);
      assert cs[..cj + 1][..cj] == cs[..cj];
      assert vs[..|vs| - 1] == ClassVisits(fs, cls, cs[..cj], facultyIndex);
      assert vs[|vs| - 1] == Visit(assignedFaculty, cls, course);
      var key := (assignedFaculty.id, cls.id, course.id);
      if key !in existingKeys {
        var status := if HasExpertise(course, assignedFaculty) then Approved else Pending;
        emitted := emitted + [NewAllocation(assignedFaculty.id, cls.id, course.id,
                                            term.academic_year, term.semester, status)];
      }
      cj := cj + 1;
    }
    assert cs[..cj] == cs;
  }

  /** The callback run for one department: nothing when it has no faculty,
      otherwise every class in turn with one running faculty index that
      starts at 0. */
  method AllocateDepartment(fs: seq<Faculty>, cls: seq<Class>, cs: seq<Course>,
                            existingKeys: set<Key>, term: Term)
    returns (emitted: seq<NewAllocation>)
    ensures fs == [] ==> emitted == []
    ensures fs != [] ==> emitted == Emit(DeptVisits(fs, cls, cs), existingKeys, term)
  {
    emitted := [];
    if |fs| == 0 {
      return;
    }
    var facultyIndex := 0;
    var ci := 0;
    while ci < |cls|
      invariant 0 <= ci <= |cls|
      invariant facultyIndex == Times(ci, |cs|)
      invariant emitted == Emit(DeptVisits(fs, cls[..ci], cs), existingKeys, term)
    {
      var fromClass;
      fromClass, facultyIndex := AllocateClass(fs, cls[ci], cs, facultyIndex, existingKeys, term);
      assert cls[..ci + 1][..ci] == cls[..ci];
      EmitAppend(DeptVisits(fs, cls[..ci], cs), ClassVisits(fs, cls[ci], cs, Times(ci, |cs|)), existingKeys, term);
      emitted := emitted + fromClass;
      ci := ci + 1;
    }
    assert cls[..ci] == cls;
  }

  /** The departments with a course bucket are the departments of the
      courses. */
  lemma BucketKeys(courses: seq<Course>, buckets: map<Id, seq<Course>>)
    requires forall d :: d in buckets <==> OfDepartment(courses, CourseDepartment, d) != []
    ensures buckets.Keys == CourseDepartments(courses)
  {
    forall d | d in CourseDepartments(courses) ensures d in buckets {
      var c :| c in courses && c.department_id == d;
      var k :| 0 <= k < |courses| && courses[k] == c;
      assert CourseDepartment(courses[k]) == d;
      OfDepartmentMembers(courses, CourseDepartment, d);
      assert courses[k] in OfDepartment(courses, CourseDepartment, d);
    }
    forall d | d in buckets ensures d in CourseDepartments(courses) {
      var r := OfDepartment(courses, CourseDepartment, d);
      OfDepartmentMembers(courses, CourseDepartment, d);
      assert CourseDepartment(r[0]) == d && r[0] in courses;
    }
  }

  /** One more department appends its contribution. */
  lemma AllocateDeptsStep(ds: seq<Id>, i: nat, term: Term, faculty: seq<Faculty>, courses: seq<Course>,
                          classes: seq<Class>, existing: set<Key>)
    requires i < |ds|
    ensures AllocateDepts(ds[..i + 1], term, faculty, courses, classes, existing)
      == AllocateDepts(ds[..i], term, faculty, courses, classes, existing) + DeptAllocations(ds[i], term, faculty, courses, classes, existing)
  {
    assert ds[..i + 1][..i] == ds[..i];
  }

  /** One turn of the department loop: the department's buckets, a missing
      class or faculty bucket read as empty, through `AllocateDepartment`. */
  method AllocateBuckets(d: Id, coursesByDept: map<Id, seq<Course>>,
                         classesByDept: map<Id, seq<Class>>, facultyByDept: map<Id, seq<Faculty>>,
                         existingKeys: set<Key>, term: Term,
                         ghost faculty: seq<Faculty>, ghost courses: seq<Course>, ghost classes: seq<Class>)
    returns (fromDept: seq<NewAllocation>)
    requires d in coursesByDept && coursesByDept[d] == OfDepartment(courses, CourseDepartment, d)
    requires d in classesByDept ==> classesByDept[d] == OfDepartment(classes, ClassDepartment, d)
    requires d !in classesByDept ==> OfDepartment(classes, ClassDepartment, d) == []
    requires d in facultyByDept ==> facultyByDept[d] == OfDepartment(faculty, FacultyDepartment, d)
    requires d !in facultyByDept ==> OfDepartment(faculty, FacultyDepartment, d) == []
    ensures fromDept == DeptAllocations(d, term, faculty, courses, classes, existingKeys)
  {
    var deptCourses := coursesByDept[d];
    var deptClasses := if d in classesByDept then classesByDept[d] else [];
    var deptFaculty := if d in facultyByDept then facultyByDept[d] else [];
    fromDept := AllocateDepartment(deptFaculty, deptClasses, deptCourses, existingKeys, term);
  }

  /** The department loop (`Object.keys(coursesByDept).forEach`), run
      over department buckets that agree with `OfDepartment`. */
  method AllocateDepartments(depts: seq<Id>, coursesByDept: map<Id, seq<Course>>,
                             classesByDept: map<Id, seq<Class>>, facultyByDept: map<Id, seq<Faculty>>,
                             existingKeys: set<Key>, term: Term,
                             ghost faculty: seq<Faculty>, ghost courses: seq<Course>, ghost classes: seq<Class>)
    returns (newAllocations: seq<NewAllocation>)
    requires forall k :: 0 <= k < |depts| ==> depts[k] in coursesByDept
    requires forall d :: d in coursesByDept ==> coursesByDept[d] == OfDepartment(courses, CourseDepartment, d)
    requires forall d :: d in classesByDept ==> classesByDept[d] == OfDepartment(classes, ClassDepartment, d)
    requires forall d :: d !in classesByDept ==> OfDepartment(classes, ClassDepartment, d) == []
    requires forall d :: d in facultyByDept ==> facultyByDept[d] == OfDepartment(faculty, FacultyDepartment, d)
    requires forall d :: d !in facultyByDept ==> OfDepartment(faculty, FacultyDepartment, d) == []
    ensures newAllocations == AllocateDepts(depts, term, faculty, courses, classes, existingKeys)
  {
    newAllocations := [];
    var di := 0;
    while di < |depts|
      invariant 0 <= di <= |depts|
      invariant newAllocations == AllocateDepts(depts[..di], term, faculty, courses, classes, existingKeys)
    {
      var fromDept := AllocateBuckets(depts[di], coursesByDept, classesByDept, facultyByDept, existingKeys, term,
                                      faculty, courses, classes);
      AllocateDeptsStep(depts, di, term, faculty, courses, classes, existingKeys);
      newAllocations := newAllocations + fromDept;
      di := di + 1;
    }
    assert depts[..di] == depts;
  }

  /** Every allocation of the batch comes from one listed department. */
  lemma {:induction false} AllocateDeptsSound(ds: seq<Id>, term: Term, faculty: seq<Faculty>,
                                              courses: seq<Course>, classes: seq<Class>,
                                              existing: set<Key>, x: NewAllocation) returns (k: nat)
    requires x in AllocateDepts(ds, term, faculty, courses, classes, existing)
    ensures k < |ds| && x in DeptAllocations(ds[k], term, faculty, courses, classes, existing)
  {
    var n := |ds| - 1;
    var init := ds[..n];
    var before := AllocateDepts(init, term, faculty, courses, classes, existing);
    var here := DeptAllocations(ds[n], term, faculty, courses, classes, existing);
    assert AllocateDepts(ds, term, faculty, courses, classes, existing) == before + here;
    if x in here {
      k := n;
    } else {
      assert x in before;
      k := AllocateDeptsSound(init, term, faculty, courses, classes, existing, x);
      assert init[k] == ds[k];
    }
  }

  /** Every allocation a listed department emits is in the batch. */
  lemma {:induction false} AllocateDeptsComplete(ds: seq<Id>, term: Term, faculty: seq<Faculty>,
                                                 courses: seq<Course>, classes: seq<Class>,
                                                 existing: set<Key>, k: nat, x: NewAllocation)
    requires k < |ds| && x in DeptAllocations(ds[k], term, faculty, courses, classes, existing)
    ensures x in AllocateDepts(ds, term, faculty, courses, classes, existing)
  {
    var n := |ds| - 1;
    var init := ds[..n];
    var before := AllocateDepts(init, term, faculty, courses, classes, existing);
    var here := DeptAllocations(ds[n], term, faculty, courses, classes, existing);
    assert AllocateDepts(ds, term, faculty, courses, classes, existing) == before + here;
    if k < n {
      assert init[k] == ds[k];
      AllocateDeptsComplete(init, term, faculty, courses, classes, existing, k, x);
      assert x in before;
    } else {
      assert x in here;
    }
  }

  /** Steps 2 to 6 of `autoAllocate`: the key set, the three department
      buckets, and the department loop in `Object.keys` order. */
  method AutoAllocate(term: Term, faculty: seq<Faculty>, courses: seq<Course>, classes: seq<Class>,
                      existing: seq<Allocation>) returns (newAllocations: seq<NewAllocation>)
    ensures newAllocations == Allocate(term, faculty, courses, classes, existing)
  {
    var existingKeys := ExistingKeys(existing);
    var coursesByDept := GroupByDepartment(courses, CourseDepartment);
    var classesByDept := GroupByDepartment(classes, ClassDepartment);
    var facultyByDept := GroupByDepartment(faculty, FacultyDepartment);
    BucketKeys(courses, coursesByDept);
    var depts := ObjectKeys(coursesByDept.Keys);
    newAllocations := AllocateDepartments(depts, coursesByDept, classesByDept, facultyByDept,
                                          existingKeys, term, faculty, courses, classes);
  }

  // ---------------------------------------------------------------------
  // Properties of the allocator

  lemma AllocateDeptsMembership(ds: seq<Id>, term: Term, faculty: seq<Faculty>,
                                courses: seq<Course>, classes: seq<Class>,
                                existing: set<Key>, x: NewAllocation)
    ensures x in AllocateDepts(ds, term, faculty, courses, classes, existing) <==>
      exists k :: 0 <= k < |ds| && x in DeptAllocations(ds[k], term, faculty, courses, classes, existing)
  {
    if x in AllocateDepts(ds, term, faculty, courses, classes, existing) {
      var k := AllocateDeptsSound(ds, term, faculty, courses, classes, existing, x);
    }
    forall k | 0 <= k < |ds| && x in DeptAllocations(ds[k], term, faculty, courses, classes, existing)
      ensures x in AllocateDepts(ds, term, faculty, courses, classes, existing)
    {
      AllocateDeptsComplete(ds, term, faculty, courses, classes, existing, k, x);
    }
  }

  /** One element of a bucket. */
  lemma OfDepartmentAt<T>(items: seq<T>, dept: T -> Id, d: Id, k: nat)
    requires k < |OfDepartment(items, dept, d)|
    ensures dept(OfDepartment(items, dept, d)[k]) == d && OfDepartment(items, dept, d)[k] in items
  {
    OfDepartmentMembers(items, dept, d);
  }

  /** The faculty member, class and course behind an allocation of
      department `d`. */
  lemma DeptProvenance(d: Id, term: Term, faculty: seq<Faculty>, courses: seq<Course>, classes: seq<Class>,
                       keys: set<Key>, x: NewAllocation) returns (f: Faculty, cl: Class, co: Course)
    requires x in DeptAllocations(d, term, faculty, courses, classes, keys)
    ensures f in faculty && cl in classes && co in courses
    ensures x.faculty_id == f.id && x.class_id == cl.id && x.course_id == co.id
    ensures f.department_id == d && cl.department_id == d && co.department_id == d
    ensures x.status == StatusFor(co, f)
    ensures (x.faculty_id, x.class_id, x.course_id) !in keys
    ensures x.academic_year == term.academic_year && x.semester == term.semester
  {
    var fs := OfDepartment(faculty, FacultyDepartment, d);
    var cls := OfDepartment(classes, ClassDepartment, d);
    var cs := OfDepartment(courses, CourseDepartment, d);
    assert fs != [];
    var i, j := EmittedPairSound(fs, cls, cs, keys, term, x);
    var n := PairVisitFaculty(fs, cls, cs, i, j);
    f, cl, co := fs[n], cls[i], cs[j];
    OfDepartmentAt(faculty, FacultyDepartment, d, n);
    OfDepartmentAt(classes, ClassDepartment, d, i);
    OfDepartmentAt(courses, CourseDepartment, d, j);
  }

  /** Where every new allocation comes from: a faculty member, a class and a
      course of one and the same department, a triple that is not among the
      term's pre-existing allocations, the term itself, and the status the
      expertise rule gives that course and faculty member. */
  lemma AllocationProvenance(term: Term, faculty: seq<Faculty>, courses: seq<Course>, classes: seq<Class>,
                             existing: seq<Allocation>, x: NewAllocation)
    requires x in Allocate(term, faculty, courses, classes, existing)
    ensures exists f, cl, co :: (f in faculty && cl in classes && co in courses
      && x.faculty_id == f.id && x.class_id == cl.id && x.course_id == co.id
      && f.department_id == co.department_id && cl.department_id == co.department_id
      && x.status == StatusFor(co, f))
    ensures forall a :: a in existing ==>
      (a.faculty_id, a.class_id, a.course_id) != (x.faculty_id, x.class_id, x.course_id)
    ensures x.academic_year == term.academic_year && x.semester == term.semester
  {
    var keys := ExistingKeys(existing);
    var ds := ObjectKeys(CourseDepartments(courses));
    AllocateDeptsMembership(ds, term, faculty, courses, classes, keys, x);
    var k :| 0 <= k < |ds| && x in DeptAllocations(ds[k], term, faculty, courses, classes, keys);
    var f, cl, co := DeptProvenance(ds[k], term, faculty, courses, classes, keys, x);
    assert f in faculty && cl in classes && co in courses
      && x.faculty_id == f.id && x.class_id == cl.id && x.course_id == co.id
      && f.department_id == co.department_id && cl.department_id == co.department_id
      && x.status == StatusFor(co, f);
  }

  /** The department buckets are complete: every (class, course) pair of a
      department that has courses and faculty is visited, and it yields an
      allocation exactly when its round-robin triple is not pre-existing. */
  lemma DepartmentEmitsNewPairs(term: Term, faculty: seq<Faculty>, courses: seq<Course>, classes: seq<Class>,
                                existing: seq<Allocation>, d: Id, i: nat, j: nat)
    requires d in CourseDepartments(courses)
    requires OfDepartment(faculty, FacultyDepartment, d) != []
    requires i < |OfDepartment(classes, ClassDepartment, d)| && j < |OfDepartment(courses, CourseDepartment, d)|
    ensures var v := PairVisit(OfDepartment(faculty, FacultyDepartment, d), OfDepartment(classes, ClassDepartment, d),
                               OfDepartment(courses, CourseDepartment, d), i, j);
      (KeyOf(v) !in ExistingKeys(existing)) <==> ToAllocation(v, term) in Allocate(term, faculty, courses, classes, existing)
  {
    var keys := ExistingKeys(existing);
    var ds := ObjectKeys(CourseDepartments(courses));
    var fs := OfDepartment(faculty, FacultyDepartment, d);
    var cls := OfDepartment(classes, ClassDepartment, d);
    var cs := OfDepartment(courses, CourseDepartment, d);
    var v := PairVisit(fs, cls, cs, i, j);
    var x := ToAllocation(v, term);
    var k :| 0 <= k < |ds| && ds[k] == d;
    AllocateDeptsMembership(ds, term, faculty, courses, classes, keys, x);
    EmittedPairs(fs, cls, cs, keys, term, x);
    if KeyOf(v) !in keys {
      assert x in DeptAllocations(d, term, faculty, courses, classes, keys);
    }
    if x in Allocate(term, faculty, courses, classes, existing) {
      AllocationProvenance(term, faculty, courses, classes, existing, x);
      assert KeyOf(v) == (x.faculty_id, x.class_id, x.course_id);
    }
  }

  // ---------------------------------------------------------------------
  // Batch order

  /** Visit number `k` of a department whose classes have `w` courses each,
      as (class index, course index). */
  function PositionOf(k: nat, w: nat): (nat, nat)
    decreases k
  {
    if w == 0 || k < w then (0, k)
    else var p := PositionOf(k - w, w); (p.0 + 1, p.1)
  }

  lemma {:induction false} PositionOfSpec(k: nat, w: nat)
    requires w > 0
    ensures PositionOf(k, w).1 < w && Times(PositionOf(k, w).0, w) + PositionOf(k, w).1 == k
  {
    if k >= w {
      PositionOfSpec(k - w, w);
      var p := PositionOf(k - w, w);
      assert Times(p.0 + 1, w) == Times(p.0, w) + w;
    }
  }

  /** Later visits are later (class, course) pairs: class first, then course. */
  lemma {:induction false} PositionOfOrder(k1: nat, k2: nat, w: nat)
    requires w > 0 && k1 < k2
    ensures var p1, p2 := PositionOf(k1, w), PositionOf(k2, w);
      p1.0 < p2.0 || (p1.0 == p2.0 && p1.1 < p2.1)
  {
    if k1 >= w {
      PositionOfOrder(k1 - w, k2 - w, w);
    }
  }

  /** One department's allocations in order: allocation `t` is the visit of
      class `pos[t].0` and course `pos[t].1`, and these pairs strictly
      increase, class first, then course. */
  lemma DeptOrder(fs: seq<Faculty>, cls: seq<Class>, cs: seq<Course>, existing: set<Key>, term: Term)
    returns (pos: seq<(nat, nat)>)
    requires fs != []
    ensures |pos| == |Emit(DeptVisits(fs, cls, cs), existing, term)|
    ensures forall t :: 0 <= t < |pos| ==>
      && pos[t].0 < |cls| && pos[t].1 < |cs|
      && Emit(DeptVisits(fs, cls, cs), existing, term)[t] == ToAllocation(PairVisit(fs, cls, cs, pos[t].0, pos[t].1), term)
    ensures forall a, b :: 0 <= a < b < |pos| ==> pos[a].0 < pos[b].0 || (pos[a].0 == pos[b].0 && pos[a].1 < pos[b].1)
  {
    var vs := DeptVisits(fs, cls, cs);
    var out := Emit(vs, existing, term);
    var idx := EmitIndices(vs, existing, term);
    var w := |cs|;
    pos := seq(|idx|, t requires 0 <= t < |idx| => PositionOf(idx[t], w));
    forall t | 0 <= t < |pos|
      ensures pos[t].0 < |cls| && pos[t].1 < |cs| && out[t] == ToAllocation(PairVisit(fs, cls, cs, pos[t].0, pos[t].1), term)
    {
      var k := idx[t];
      var i, j := VisitIsPair(fs, cls, cs, k);
      PositionOfSpec(k, w);
      PositionOfUnique(PositionOf(k, w).0, PositionOf(k, w).1, i, j, w);
    }
    forall a, b | 0 <= a < b < |pos| ensures pos[a].0 < pos[b].0 || (pos[a].0 == pos[b].0 && pos[a].1 < pos[b].1) {
      var k1 := idx[a];
      var i, j := DeptVisitsPosition(fs, cls, cs, k1);
      PositionOfOrder(k1, idx[b], w);
    }
  }

  /** A visit number has only one (class, course) reading. */
  lemma {:induction false} PositionOfUnique(i1: nat, j1: nat, i2: nat, j2: nat, w: nat)
    requires j1 < w && j2 < w && Times(i1, w) + j1 == Times(i2, w) + j2
    ensures i1 == i2 && j1 == j2
  {
    assert i1 > 0 ==> Times(i1, w) == Times(i1 - 1, w) + w;
    assert i2 > 0 ==> Times(i2, w) == Times(i2 - 1, w) + w;
    if i1 > 0 && i2 > 0 {
      PositionOfUnique(i1 - 1, j1, i2 - 1, j2, w);
    }
  }

  /** Allocation `x` is the round-robin visit of class `i` and course `j` of
      department `d`. */
  predicate FromPair(x: NewAllocation, term: Term, faculty: seq<Faculty>, courses: seq<Course>, classes: seq<Class>,
                     d: Id, i: nat, j: nat)
  {
    var fs := OfDepartment(faculty, FacultyDepartment, d);
    var cls := OfDepartment(classes, ClassDepartment, d);
    var cs := OfDepartment(courses, CourseDepartment, d);
    fs != [] && i < |cls| && j < |cs| && x == ToAllocation(PairVisit(fs, cls, cs, i, j), term)
  }

  /** `(d1, i1, j1)` comes before `(d2, i2, j2)`: department, then class, then
      course. */
  predicate OriginBefore(o1: (Id, nat, nat), o2: (Id, nat, nat))
  {
    o1.0 < o2.0 || (o1.0 == o2.0 && (o1.1 < o2.1 || (o1.1 == o2.1 && o1.2 < o2.2)))
  }

  /** The batch of an ascending department list in order: allocation `t`
      comes from the pair `origin[t]`, and the origins strictly increase. */
  lemma {:induction false} AllocateDeptsOrder(ds: seq<Id>, term: Term, faculty: seq<Faculty>, courses: seq<Course>,
                                              classes: seq<Class>, existing: set<Key>)
    returns (origin: seq<(Id, nat, nat)>)
    requires forall a, b :: 0 <= a < b < |ds| ==> ds[a] < ds[b]
    ensures |origin| == |AllocateDepts(ds, term, faculty, courses, classes, existing)|
    ensures forall t :: 0 <= t < |origin| ==>
      && origin[t].0 in ds
      && FromPair(AllocateDepts(ds, term, faculty, courses, classes, existing)[t], term, faculty, courses, classes,
                  origin[t].0, origin[t].1, origin[t].2)
    ensures forall a, b :: 0 <= a < b < |origin| ==> OriginBefore(origin[a], origin[b])
  {
    if ds == [] {
      origin := [];
    } else {
      var n := |ds| - 1;
      var d := ds[n];
      var init := ds[..n];
      var prev := AllocateDeptsOrder(init, term, faculty, courses, classes, existing);
      var before := AllocateDepts(init, term, faculty, courses, classes, existing);
      var here := DeptAllocations(d, term, faculty, courses, classes, existing);
      assert AllocateDepts(ds, term, faculty, courses, classes, existing) == before + here;
      var tail := DeptOrigins(d, term, faculty, courses, classes, existing);
      origin := prev + tail;
      assert forall t :: 0 <= t < |prev| ==> prev[t].0 in init && prev[t].0 < d && prev[t].0 in ds;
      AppendOrigins(ds, prev, tail, origin, before, here, AllocateDepts(ds, term, faculty, courses, classes, existing),
                    d, term, faculty, courses, classes);
    }
  }

  /** The allocations of department `d` in order, with their origins. */
  lemma DeptOrigins(d: Id, term: Term, faculty: seq<Faculty>, courses: seq<Course>, classes: seq<Class>,
                    existing: set<Key>) returns (tail: seq<(Id, nat, nat)>)
    ensures |tail| == |DeptAllocations(d, term, faculty, courses, classes, existing)|
    ensures forall t :: 0 <= t < |tail| ==>
      && tail[t].0 == d
      && FromPair(DeptAllocations(d, term, faculty, courses, classes, existing)[t], term, faculty, courses, classes,
                  tail[t].0, tail[t].1, tail[t].2)
    ensures forall a, b :: 0 <= a < b < |tail| ==> OriginBefore(tail[a], tail[b])
  {
    var fs := OfDepartment(faculty, FacultyDepartment, d);
    var cls := OfDepartment(classes, ClassDepartment, d);
    var cs := OfDepartment(courses, CourseDepartment, d);
    var here := DeptAllocations(d, term, faculty, courses, classes, existing);
    tail := [];
    if fs != [] {
      var pos := DeptOrder(fs, cls, cs, existing, term);
      tail := seq(|pos|, t requires 0 <= t < |pos| => (d, pos[t].0, pos[t].1));
      assert forall t :: 0 <= t < |tail| ==> FromPair(here[t], term, faculty, courses, classes, d, tail[t].1, tail[t].2);
    }
  }

  /** Gluing the origins of the earlier departments to those of a later
      one. */
  lemma AppendOrigins(ds: seq<Id>, prev: seq<(Id, nat, nat)>, tail: seq<(Id, nat, nat)>, o: seq<(Id, nat, nat)>,
                      before: seq<NewAllocation>, here: seq<NewAllocation>, x: seq<NewAllocation>, d: Id,
                      term: Term, faculty: seq<Faculty>, courses: seq<Course>, classes: seq<Class>)
    requires |prev| == |before| && |tail| == |here|
    requires o == prev + tail && x == before + here
    requires d in ds && forall t :: 0 <= t < |prev| ==> prev[t].0 in ds
    requires forall t :: 0 <= t < |prev| ==>
      && prev[t].0 < d
      && FromPair(before[t], term, faculty, courses, classes, prev[t].0, prev[t].1, prev[t].2)
    requires forall t :: 0 <= t < |tail| ==>
      && tail[t].0 == d
      && FromPair(here[t], term, faculty, courses, classes, tail[t].0, tail[t].1, tail[t].2)
    requires forall a, b :: 0 <= a < b < |prev| ==> OriginBefore(prev[a], prev[b])
    requires forall a, b :: 0 <= a < b < |tail| ==> OriginBefore(tail[a], tail[b])
    ensures forall t :: 0 <= t < |o| ==> o[t].0 in ds && FromPair(x[t], term, faculty, courses, classes, o[t].0, o[t].1, o[t].2)
    ensures forall a, b :: 0 <= a < b < |o| ==> OriginBefore(o[a], o[b])
  {
    forall t | 0 <= t < |o| ensures o[t].0 in ds && FromPair(x[t], term, faculty, courses, classes, o[t].0, o[t].1, o[t].2) {
      if t < |prev| {
        assert o[t] == prev[t] && x[t] == before[t];
      } else {
        assert o[t] == tail[t - |prev|] && x[t] == here[t - |prev|];
      }
    }
    forall a, b | 0 <= a < b < |o| ensures OriginBefore(o[a], o[b]) {
      if b < |prev| {
        assert o[a] == prev[a] && o[b] == prev[b];
      } else if a < |prev| {
        assert o[a] == prev[a] && o[b] == tail[b - |prev|];
      } else {
        assert o[a] == tail[a - |prev|] && o[b] == tail[b - |prev|];
      }
    }
  }

  /** The order of a run's batch, as the nested `forEach` loops produce it:
      allocation `t` is the round-robin visit of class `origin[t].1` and
      course `origin[t].2` of department `origin[t].0`, a department with
      courses, and the origins strictly increase: ascending department id,
      then class order, then course order. */
  lemma AllocationOrder(term: Term, faculty: seq<Faculty>, courses: seq<Course>, classes: seq<Class>,
                        existing: seq<Allocation>) returns (origin: seq<(Id, nat, nat)>)
    ensures |origin| == |Allocate(term, faculty, courses, classes, existing)|
    ensures forall t :: 0 <= t < |origin| ==>
      && origin[t].0 in CourseDepartments(courses)
      && FromPair(Allocate(term, faculty, courses, classes, existing)[t], term, faculty, courses, classes,
                  origin[t].0, origin[t].1, origin[t].2)
    ensures forall a, b :: 0 <= a < b < |origin| ==> OriginBefore(origin[a], origin[b])
  {
    origin := AllocateDeptsOrder(ObjectKeys(CourseDepartments(courses)), term, faculty, courses, classes,
                                 ExistingKeys(existing));
  }
}
