/** The `autoAllocate` request handler around the allocator and the timetable
    generator: it reads the term from the request, runs the allocator on the
    fetched rows, numbers the inserted rows, keeps only allocations of
    faculty-role members and schedules those. */
module Orchestration {
  import opened Wrappers
  import opened Entities
  import opened Allocator
  import opened Scheduler
  import opened Seqs

  /** The request body; a field may be absent. */
  datatype Request = Request(academic_year: Option<int>, semester: Option<int>)

  /** The handler's answers: status 400, the "nothing needed" message, or the
      completion summary. */
  datatype Response =
    | BadRequest
    | NothingNeeded
    | Completed(allocations_created: nat, timetable_entries_created: nat, allocations: seq<Allocation>)

  /** A number field is truthy when present and non-zero. */
  predicate Truthy(x: Option<int>)
  {
    x.Some? && x.value != 0
  }

  /** `if (!academic_year || !semester)` rejects the request; otherwise the
      term is the two fields. */
  function ReadTerm(req: Request): (r: Option<Term>)
    ensures r.None? <==> !Truthy(req.academic_year) || !Truthy(req.semester)
    ensures r.Some? ==> r.value.academic_year == req.academic_year.value && r.value.semester == req.semester.value
    ensures r.Some? ==> r.value.academic_year != 0 && r.value.semester != 0
  {
    if Truthy(req.academic_year) && Truthy(req.semester) then Some(Term(req.academic_year.value, req.semester.value))
    else None
  }

  /** The row the database returns for an inserted allocation, given the id it
      assigned. */
  function WithId(a: NewAllocation, id: int): Allocation
  {
    Allocation(id, a.faculty_id, a.class_id, a.course_id, a.academic_year, a.semester, a.status)
  }

  /** The inserted rows, numbered by a serial id starting at `firstId`: one
      row per new allocation, in the batch's order, with ids that strictly
      increase from `firstId` and every other column as in the batch. */
  function Inserted(batch: seq<NewAllocation>, firstId: int): (r: seq<Allocation>)
    ensures |r| == |batch|
    ensures forall i, j :: 0 <= i < j < |r| ==> r[i].id < r[j].id
    ensures forall i :: 0 <= i < |r| ==> firstId <= r[i].id < firstId + |batch|
    ensures forall i :: 0 <= i < |r| ==>
      && r[i].faculty_id == batch[i].faculty_id && r[i].class_id == batch[i].class_id
      && r[i].course_id == batch[i].course_id && r[i].academic_year == batch[i].academic_year
      && r[i].semester == batch[i].semester && r[i].status == batch[i].status
  {
    seq(|batch|, i requires 0 <= i < |batch| => WithId(batch[i], firstId + i))
  }

  /** `faculty.find(f => f.id === id)`, as the index of the first match. */
  function FindFacultyIndex(faculty: seq<Faculty>, id: Id): (r: Option<nat>)
    ensures r.Some? ==> (r.value < |faculty| && faculty[r.value].id == id
      && forall j :: 0 <= j < r.value ==> faculty[j].id != id)
    ensures r.None? ==> forall j :: 0 <= j < |faculty| ==> faculty[j].id != id
  {
    if faculty == [] then None
    else if faculty[0].id == id then Some(0)
    else match FindFacultyIndex(faculty[1..], id)
      case None => None
      case Some(i) => Some(i + 1)
  }

  /** The filter's test: the allocation's faculty member is found and has the
      faculty role. */
  predicate IsFacultyAllocation(a: Allocation, faculty: seq<Faculty>)
  {
    match FindFacultyIndex(faculty, a.faculty_id)
    case Some(i) => faculty[i].role == FacultyRole
    case None => false
  }

  /** `insertedAllocations.filter(...)`: the allocations that pass the test, in
      their order. */
  function FacultyAllocations(inserted: seq<Allocation>, faculty: seq<Faculty>): (r: seq<Allocation>)
    ensures |r| <= |inserted|
    ensures forall i :: 0 <= i < |r| ==> r[i] in inserted && IsFacultyAllocation(r[i], faculty)
    ensures forall i :: 0 <= i < |inserted| && IsFacultyAllocation(inserted[i], faculty) ==> inserted[i] in r
  {
    if inserted == [] then []
    else
      var init := inserted[..|inserted| - 1];
      var last := inserted[|inserted| - 1];
      var rest := FacultyAllocations(init, faculty);
      assert forall i :: 0 <= i < |init| ==> init[i] == inserted[i];
      if IsFacultyAllocation(last, faculty) then rest + [last] else rest
  }

  /** The filter is `Filter` with the faculty-role test. */
  lemma {:induction false} FacultyAllocationsIsFilter(inserted: seq<Allocation>, faculty: seq<Faculty>,
                                                     p: Allocation -> bool)
    requires forall a :: p(a) == IsFacultyAllocation(a, faculty)
    ensures FacultyAllocations(inserted, faculty) == Filter(inserted, p)
  {
    if inserted != [] {
      FacultyAllocationsIsFilter(inserted[..|inserted| - 1], faculty, p);
    }
  }

  /** The filter keeps exactly the passing allocations, in their order: the
      result is the subsequence of `inserted` at the strictly increasing
      indices `idx`, and every passing index is among them. */
  lemma FacultyAllocationsOrder(inserted: seq<Allocation>, faculty: seq<Faculty>) returns (idx: seq<nat>)
    ensures |idx| == |FacultyAllocations(inserted, faculty)|
    ensures forall t :: 0 <= t < |idx| ==> idx[t] < |inserted| && inserted[idx[t]] == FacultyAllocations(inserted, faculty)[t]
    ensures forall s, t :: 0 <= s < t < |idx| ==> idx[s] < idx[t]
    ensures forall k :: 0 <= k < |inserted| && IsFacultyAllocation(inserted[k], faculty) ==> k in idx
  {
    var p := (a: Allocation) => IsFacultyAllocation(a, faculty);
    FacultyAllocationsIsFilter(inserted, faculty, p);
    idx := FilterOrder(inserted, p);
  }

  /** When every fetched faculty member has the faculty role and every
      allocation names one of them, the filter removes nothing. */
  lemma {:induction false} FacultyFilterKeepsAll(inserted: seq<Allocation>, faculty: seq<Faculty>)
    requires forall j :: 0 <= j < |faculty| ==> faculty[j].role == FacultyRole
    requires forall i :: 0 <= i < |inserted| ==> exists j :: 0 <= j < |faculty| && faculty[j].id == inserted[i].faculty_id
    ensures FacultyAllocations(inserted, faculty) == inserted
  {
    if inserted != [] {
      var init := inserted[..|inserted| - 1];
      var last := inserted[|inserted| - 1];
      assert forall i :: 0 <= i < |init| ==> init[i] == inserted[i];
      FacultyFilterKeepsAll(init, faculty);
      var j :| 0 <= j < |faculty| && faculty[j].id == last.faculty_id;
      assert FindFacultyIndex(faculty, last.faculty_id).Some?;
      assert inserted == init + [last];
    }
  }

  /** The handler's answer for the fetched rows: `faculty` as fetched with role
      `faculty`, `courses` of the semester, `classes` of the term, `existing`
      the term's allocations; `firstId` is the first id the database assigns. */
  function Handle(req: Request, faculty: seq<Faculty>, courses: seq<Course>, classes: seq<Class>,
                  existing: seq<Allocation>, firstId: int): Response
  {
    match ReadTerm(req)
    case None => BadRequest
    case Some(term) =>
      var batch := Allocate(term, faculty, courses, classes, existing);
      if |batch| == 0 then NothingNeeded
      else
        var inserted := Inserted(batch, firstId);
        var entries := Timetable(FacultyAllocations(inserted, faculty), classes);
        Completed(|inserted|, |entries|, inserted)
  }

  /** The handler answers 400 exactly when the academic year or the semester
      is missing or zero; otherwise it answers "nothing needed" exactly when
      the allocator creates nothing for the term the request names. */
  lemma BadRequestIff(req: Request, faculty: seq<Faculty>, courses: seq<Course>, classes: seq<Class>,
                      existing: seq<Allocation>, firstId: int)
    ensures Handle(req, faculty, courses, classes, existing, firstId).BadRequest? <==>
      !Truthy(req.academic_year) || !Truthy(req.semester)
    ensures Truthy(req.academic_year) && Truthy(req.semester) ==>
      (Handle(req, faculty, courses, classes, existing, firstId).NothingNeeded? <==>
       Allocate(Term(req.academic_year.value, req.semester.value), faculty, courses, classes, existing) == [])
  {
  }

  /** `autoAllocate`, with the database reads and writes replaced by their
      results. */
  method AutoAllocateHandler(req: Request, faculty: seq<Faculty>, courses: seq<Course>, classes: seq<Class>,
                             existing: seq<Allocation>, firstId: int) returns (res: Response)
    ensures res == Handle(req, faculty, courses, classes, existing, firstId)
  {
    if !Truthy(req.academic_year) || !Truthy(req.semester) {
      return BadRequest;
    }
    var term := Term(req.academic_year.value, req.semester.value);
    var newAllocations := AutoAllocate(term, faculty, courses, classes, existing);
    if |newAllocations| > 0 {
      var insertedAllocations := Inserted(newAllocations, firstId);
      var facultyAllocations := FacultyAllocations(insertedAllocations, faculty);
      var timetableEntries := GenerateTimetable(facultyAllocations, classes);
      res := Completed(|insertedAllocations|, |timetableEntries|, insertedAllocations);
    } else {
      res := NothingNeeded;
    }
  }

  /** Every allocation the run creates names a fetched faculty member, so with
      faculty fetched by role the admin filter removes nothing and every
      inserted allocation is offered to the timetable generator. */
  lemma {:induction false} AdminFilterRemovesNothing(term: Term, faculty: seq<Faculty>, courses: seq<Course>, classes: seq<Class>,
                                                   existing: seq<Allocation>, firstId: int)
    requires forall j :: 0 <= j < |faculty| ==> faculty[j].role == FacultyRole
    ensures var inserted := Inserted(Allocate(term, faculty, courses, classes, existing), firstId);
      FacultyAllocations(inserted, faculty) == inserted
  {
    var batch := Allocate(term, faculty, courses, classes, existing);
    var inserted := Inserted(batch, firstId);
    forall i | 0 <= i < |inserted|
      ensures exists j :: 0 <= j < |faculty| && faculty[j].id == inserted[i].faculty_id
    {
      AllocationProvenance(term, faculty, courses, classes, existing, batch[i]);
      var f, cl, co :| f in faculty && cl in classes && co in courses
        && batch[i].faculty_id == f.id && batch[i].class_id == cl.id && batch[i].course_id == co.id
        && f.department_id == co.department_id && cl.department_id == co.department_id
        && batch[i].status == StatusFor(co, f);
      var j :| 0 <= j < |faculty| && faculty[j] == f;
      assert faculty[j].id == inserted[i].faculty_id;
    }
    assert forall i :: 0 <= i < |inserted| ==> exists j :: 0 <= j < |faculty| && faculty[j].id == inserted[i].faculty_id;
    FacultyFilterKeepsAll(inserted, faculty);
  }

  /** A completed run reports every created allocation, at most one timetable
      entry per allocation, and no more than it created. */
  lemma {:induction false} CompletedCounts(req: Request, faculty: seq<Faculty>, courses: seq<Course>, classes: seq<Class>,
                        existing: seq<Allocation>, firstId: int)
    requires Handle(req, faculty, courses, classes, existing, firstId).Completed?
    ensures var r := Handle(req, faculty, courses, classes, existing, firstId);
      r.allocations_created == |r.allocations| > 0 && r.timetable_entries_created <= r.allocations_created
  {
    var term := ReadTerm(req).value;
    var inserted := Inserted(Allocate(term, faculty, courses, classes, existing), firstId);
    var admitted := FacultyAllocations(inserted, faculty);
    EntriesBound(Run(admitted, classes).placed);
  }
}
