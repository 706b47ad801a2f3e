# Faculty allocation and timetable engine — a Dafny model

This project models the computational core of a faculty-allocation web
application:

- **the auto-allocator** of `autoAllocate`. It groups faculty, courses and
  classes by department. For each department that has courses, in ascending
  department id, it walks classes (outer loop) and courses (inner loop). It
  offers each (class, course) pair to the next faculty member round-robin.
  A pair is skipped when its (faculty, class, course) triple already exists
  for the term. Each emitted allocation is `approved` or `pending` according
  to a case-insensitive, two-way substring match between the course's
  required expertise and the faculty member's expertise;
- **the admin filter** that decides which inserted allocations reach the
  scheduler, and the request handler around both;
- **the timetable generator** `generateTimetable`. It is a greedy first-fit
  scheduler over a 5-day × 8-slot week. It tracks faculty and class
  occupancy per cell and keeps a per-cell room counter that yields labels
  `D<dept><100+k>` or `R<100+k>`;
- **the report computations**:
  - pairwise conflict detection followed by a stable sort by (day, slot);
  - the allocation statistics counters;
  - the faculty workload summary;
  - the course summary;
- **the timetable page's grid**: an 8 × 5 array with each entry stored at
  `[slot - 1][day - 1]`.

Modules:

- `Wrappers`: `Option`.
- `Text`: ASCII lower-casing, `includes`, decimal rendering.
- `Seqs`: first-occurrence de-duplication, the ordered contents of a JavaScript `Set`.
- `Entities`: the rows the allocator and generator work on.
- `Allocator`, `Scheduler`, `Orchestration`: the `autoAllocate` handler.
- `Reports`.
- `TimetableGrid`.

Structure of the model:

- Loops of the source are methods with loop invariants. Each method is proved
  equal to a recursive specification function:
  - `Allocator.AutoAllocate` equals `Allocator.Allocate`;
  - `Scheduler.GenerateTimetable` equals `Scheduler.Timetable`;
  - `Reports.GetTimetableConflicts` equals `SortByCell(Conflicts(...))`;
  - `Reports.GetAllocationStats` equals `Reports.StatsOf`.
- The properties are proved as lemmas about those functions.
- The grid is built in a real `array2`.
- Composite string keys (`${f}-${cl}-${co}`, `${id}-${day}-${slot}`) are
  tuples. For non-negative integers the dashed key is injective
  (`Allocator.KeyStringInjective`), so looking a key up by string or by
  tuple gives the same answer (`Allocator.ExistingKeysAsStrings`).
- Data the handlers fetch from the database are parameters.

Two facts about the code shape the model:

- **Cells are shared.** A cell blocks only its faculty member and its class,
  so any number of allocations can share a cell (`Scheduler.FirstFit`,
  `Scheduler.NoDoubleBooking`).
- **Department order.** `Object.keys` visits integer-like keys in ascending
  order, so departments are processed by ascending id
  (`Allocator.ObjectKeys`).

## Model

| member | source | states |
|---|---|---|
| Text.ToLowerFolds | backend/src/controllers/allocationController.js:370-371 | lower-casing leaves no ASCII capital, maps each capital to a lower-case letter, keeps every other character, and is idempotent |
| Text.Includes | backend/src/controllers/allocationController.js:370-371 | `s.includes(t)` is true exactly when `t` occurs in `s` at some index; the empty string is included in every string |
| Text.NatToString | backend/src/controllers/allocationController.js:45 | the decimal rendering is a non-empty digit string with no leading zero, parses back to the number, and has 1, 2 or 3 digits exactly below 10, 100 and 1000 |
| Text.NatToStringInjective | backend/src/controllers/allocationController.js:45 | distinct numbers render to distinct strings |
| Text.IntToString | backend/src/controllers/reportsController.js:51-52 | an integer's rendering is the decimal rendering of its absolute value, preceded by `-` exactly when it is negative |
| Text.IntToStringInjective | backend/src/controllers/reportsController.js:51-52 | distinct integers render to distinct keys |
| Seqs.Distinct | backend/src/controllers/reportsController.js:103 | `Array.from(new Set(s))` has no duplicates and the same elements as `s`, ordered by first occurrence |
| Seqs.DistinctSize | backend/src/controllers/reportsController.js:101 | the Set's size equals the number of distinct elements |
| Allocator.OfDepartmentMembers | backend/src/controllers/allocationController.js:306-330 | a department bucket holds exactly the items of that department |
| Allocator.GroupByDepartment | backend/src/controllers/allocationController.js:306-330 | the grouping loop creates a bucket exactly for each department with an item, holding its items in input order |
| Allocator.Minimum | backend/src/controllers/allocationController.js:336 | a non-empty set of ids has a least element |
| Allocator.ObjectKeys | backend/src/controllers/allocationController.js:336 | `Object.keys` lists the department ids strictly ascending, and each key exactly once |
| Allocator.KeyStringInjective | backend/src/controllers/allocationController.js:302 | two dashed keys `${f}-${cl}-${co}` are equal exactly when their id triples are equal |
| Allocator.ExistingKeysAsStrings | backend/src/controllers/allocationController.js:302-303 | a pair's dashed key is in the set of existing dashed keys exactly when its id triple is in the set of existing triples |
| Allocator.SkillsMatchIgnoresCase | backend/src/controllers/allocationController.js:370-371 | lower-casing either skill beforehand does not change whether they match |
| Allocator.MatchesSomeExpertiseSpec | backend/src/controllers/allocationController.js:369-372 | `expertise.some(...)` holds exactly when some expertise string and the requirement contain one another case-insensitively |
| Allocator.SomeRequirementMatchesSpec | backend/src/controllers/allocationController.js:368-372 | `required.some(...)` holds exactly when some requirement matches some expertise string |
| Allocator.StatusRule | backend/src/controllers/allocationController.js:365-381 | status is `approved` exactly when the requirements are absent or empty, or the faculty member has an expertise list and one entry matches; otherwise `pending` (including when expertise is absent) |
| Allocator.ClassVisitsAt | backend/src/controllers/allocationController.js:351-354 | in one class's inner loop, course j is offered to faculty `(base + j) mod n` |
| Allocator.DeptVisitsLength | backend/src/controllers/allocationController.js:349-354 | a department visits classes × courses pairs |
| Allocator.RoundRobin | backend/src/controllers/allocationController.js:346-354 | the pair of class i and course j is visit number i × (number of courses) + j, offered to the faculty member at that number mod n; the index advances on every visit |
| Allocator.DeptVisitsIndex | backend/src/controllers/allocationController.js:349-354 | every visit position belongs to exactly one (class, course) pair |
| Allocator.EmitMembership | backend/src/controllers/allocationController.js:356-382 | an allocation is emitted exactly when it comes from a visit whose triple is not pre-existing |
| Allocator.EmitAppend | backend/src/controllers/allocationController.js:356-382 | emitting consecutive runs of visits concatenates their outputs |
| Allocator.EmitIndices | backend/src/controllers/allocationController.js:356-382 | the emitted allocations are the non-skipped visits, in visit order, with none left out |
| Allocator.EmittedPairSound | backend/src/controllers/allocationController.js:346-382 | every emitted allocation is the round-robin visit of some (class, course) pair whose triple is not pre-existing |
| Allocator.EmittedPairComplete | backend/src/controllers/allocationController.js:346-382 | every pair whose round-robin triple is not pre-existing is emitted |
| Allocator.EmittedPairs | backend/src/controllers/allocationController.js:346-382 | both directions: emitted exactly for the pairs whose triple is not pre-existing; only pre-existing rows are checked, never the batch itself |
| Allocator.SkippedPairNotRetried | backend/src/controllers/allocationController.js:356-362 | when a pair's round-robin triple exists, no allocation for that class and course is emitted |
| Allocator.AllocateClass | backend/src/controllers/allocationController.js:351-383 | one class's loop advances the index by the number of courses and emits that class's non-skipped visits |
| Allocator.AllocateDepartment | backend/src/controllers/allocationController.js:336-384 | a department without faculty emits nothing; otherwise it emits its non-skipped visits |
| Allocator.BucketKeys | backend/src/controllers/allocationController.js:306-312 | the course buckets' keys are the course departments |
| Allocator.AllocateDepartments | backend/src/controllers/allocationController.js:336-385 | the department loop produces the department-by-department concatenation |
| Allocator.AutoAllocate | backend/src/controllers/allocationController.js:301-385 | steps 2 to 6 compute exactly `Allocate` of the fetched rows |
| Allocator.AllocateDeptsSound | backend/src/controllers/allocationController.js:336-385 | an allocation of the batch names the listed department that emitted it |
| Allocator.AllocateDeptsComplete | backend/src/controllers/allocationController.js:336-385 | every allocation a listed department emits is in the batch |
| Allocator.DeptProvenance | backend/src/controllers/allocationController.js:336-381 | an allocation emitted for a department uses a faculty member, class and course of that department, a triple not already allocated, the term, and the status rule |
| Allocator.AllocateDeptsMembership | backend/src/controllers/allocationController.js:336-385 | an allocation is in the batch exactly when some listed department emits it |
| Allocator.AllocationProvenance | backend/src/controllers/allocationController.js:336-381 | each new allocation names a fetched faculty member, class and course of one department, has the status rule's status and the request's term, and matches no pre-existing triple |
| Allocator.DepartmentEmitsNewPairs | backend/src/controllers/allocationController.js:336-362 | every class-course pair of a department with faculty, whose round-robin triple is new, is in the batch |
| Allocator.DeptOrder | backend/src/controllers/allocationController.js:349-383 | one department's allocations come from its (class, course) pairs in strictly increasing order, class first, then course |
| Allocator.AllocationOrder | backend/src/controllers/allocationController.js:336-385 | allocation t of the batch is the round-robin visit of a (department, class, course) origin, and the origins strictly increase: ascending department id, then class order, then course order |
| Scheduler.ScanFromFirstFit | backend/src/controllers/allocationController.js:22-33 | the scan from a cell returns the first free in-grid cell at or after it in day-major order, or nothing when none is free |
| Scheduler.FirstFreeFirstFit | backend/src/controllers/allocationController.js:21-34 | a found cell is in the grid and free, and every earlier cell is not free; no cell means no cell is free |
| Scheduler.FindAvailableSlot | backend/src/controllers/allocationController.js:21-34 | the nested loops return `FirstFree` |
| Scheduler.FindClassIndex | backend/src/controllers/allocationController.js:43 | `classes.find` returns the first class with the id, or nothing when none has it |
| Scheduler.GetRoomNumber | backend/src/controllers/allocationController.js:37-46 | increments the cell's counter (a missing key counts as 0) and returns the label for the new count |
| Scheduler.RoomNumberParts | backend/src/controllers/allocationController.js:44-45 | the label is `R` or `D<dept>` followed by the three digits of 100 + k |
| Scheduler.RoomNumberSamePrefix | backend/src/controllers/allocationController.js:41-45 | two bookings with the same prefix and different numbers get different labels, for any numbers |
| Scheduler.RoomNumberCollision | backend/src/controllers/allocationController.js:41-45 | the first booking of a department-11 class and the 1001st booking of a department-1 class are both labelled `D11101` |
| Scheduler.RoomNumberInjective | backend/src/controllers/allocationController.js:37-46 | distinct counts within a cell give distinct labels, whatever the classes |
| Scheduler.Run | backend/src/controllers/allocationController.js:49-69 | the allocation loop makes one placement decision per allocation |
| Scheduler.RunStep | backend/src/controllers/allocationController.js:49-69 | one more allocation extends the run by its placement |
| Scheduler.ScheduleOne | backend/src/controllers/allocationController.js:50-69 | one turn of the loop moves the generator state and yields the entry exactly as `Place` does |
| Scheduler.GenerateTimetable | backend/src/controllers/allocationController.js:8-72 | the generator returns exactly `Timetable` of its inputs |
| Scheduler.RunPrefix | backend/src/controllers/allocationController.js:49-69 | the decisions for a prefix of the allocations do not depend on later ones |
| Scheduler.PlacementAt | backend/src/controllers/allocationController.js:49-65 | allocation k is placed against the occupancy left by allocations 0..k-1 |
| Scheduler.FacultySlotsSpec | backend/src/controllers/allocationController.js:64 | a (faculty, day, slot) key is occupied exactly when an allocation of that faculty member was placed there |
| Scheduler.ClassSlotsSpec | backend/src/controllers/allocationController.js:65 | a (class, day, slot) key is occupied exactly when an allocation of that class was placed there |
| Scheduler.RoomCounterSpec | backend/src/controllers/allocationController.js:38-40 | a cell's room counter equals the number of placements in that cell |
| Scheduler.FreeIffUnblocked | backend/src/controllers/allocationController.js:24-28 | a cell is free for allocation k exactly when no earlier placement there shares its faculty or its class |
| Scheduler.FirstFit | backend/src/controllers/allocationController.js:21-34 | allocation k gets the first in-grid cell, in day-major order, not blocked by earlier placements; it gets nothing exactly when all 40 cells are blocked |
| Scheduler.EntryOfAllocation | backend/src/controllers/allocationController.js:56-61 | a placed entry carries its allocation's id |
| Scheduler.NoDoubleBooking | backend/src/controllers/allocationController.js:24-28 | two placements in the same cell have different faculty and different classes |
| Scheduler.RoomNumbering | backend/src/controllers/allocationController.js:37-46 | the k-th placement in a cell gets label 100 + k with its class's prefix |
| Scheduler.EntriesOrder | backend/src/controllers/allocationController.js:49-69 | the entries are the successful placements, in allocation order, each exactly once |
| Scheduler.EntriesBound | backend/src/controllers/allocationController.js:49-69 | there are no more entries than allocations |
| Scheduler.EntriesInGrid | backend/src/controllers/allocationController.js:17-23 | every entry has day in 1..5 and slot in 1..8 |
| Orchestration.BadRequestIff | backend/src/controllers/allocationController.js:273-277 | the handler answers 400 exactly when the year or the semester is missing or 0; otherwise it answers "nothing needed" exactly when the allocator creates nothing |
| Orchestration.Inserted | backend/src/controllers/allocationController.js:391-394 | one row per new allocation, in batch order; ids strictly increase from the first assigned id; every other column equals the batch's |
| Orchestration.FindFacultyIndex | backend/src/controllers/allocationController.js:406 | `faculty.find` returns the first member with the id, or nothing when none has it |
| Orchestration.FacultyAllocations | backend/src/controllers/allocationController.js:405-408 | the filter keeps exactly the allocations whose faculty member is found with role `faculty` |
| Orchestration.FacultyAllocationsOrder | backend/src/controllers/allocationController.js:405-408 | the kept allocations are the inserted rows at strictly increasing indices, and every passing index is among them, so the filter keeps input order |
| Orchestration.FacultyFilterKeepsAll | backend/src/controllers/allocationController.js:405-408 | when every member has role `faculty` and every allocation names one, the filter keeps everything |
| Orchestration.AutoAllocateHandler | backend/src/controllers/allocationController.js:271-439 | the handler answers exactly `Handle`: 400, the "nothing needed" reply, or the summary with the inserted rows and the generated entry count |
| Orchestration.AdminFilterRemovesNothing | backend/src/controllers/allocationController.js:405-408 | with faculty fetched by role `faculty`, every new allocation reaches the scheduler |
| Orchestration.CompletedCounts | backend/src/controllers/allocationController.js:428-433 | a completed run reports all its allocations, at least one, and no more timetable entries than allocations |
| Reports.RowPairs | backend/src/controllers/reportsController.js:248-270 | the inner loop for row i records, in order, one conflict per later clashing row j |
| Reports.PairsBelow | backend/src/controllers/reportsController.js:247-272 | the loop so far records one conflict per clashing pair with first index below i, in loop order |
| Reports.ConflictPairs | backend/src/controllers/reportsController.js:245-272 | each conflict comes from a clashing pair i < j, with `conflict_id`, cell and room taken from the earlier row; pairs come in loop order and every clashing pair is reported |
| Reports.ConflictRule | backend/src/controllers/reportsController.js:253-256 | a conflict is recorded exactly for pairs i < j with equal day and slot and equal room or equal faculty id |
| Reports.MissingFacultyConflict | backend/src/controllers/reportsController.js:256 | two rows in one cell with both faculty ids missing are reported as a conflict |
| Reports.InsertInCell | backend/src/controllers/reportsController.js:275-280 | inserting a conflict puts it after the conflicts of its own cell already in the sorted list |
| Reports.SortByCellSpec | backend/src/controllers/reportsController.js:275-280 | the sort orders by (day, slot), is a permutation, and is stable: each cell's conflicts keep their order |
| Reports.GetTimetableConflicts | backend/src/controllers/reportsController.js:245-280 | the nested loops and the sort return the sorted conflict list |
| Reports.SemesterKeyIdentifies | backend/src/controllers/reportsController.js:51-52 | two rows with non-zero semesters share a `by_semester` key exactly when their semesters are equal, and such a key is never `Unknown` |
| Reports.TallyCounts | backend/src/controllers/reportsController.js:41-57 | each bucket counts its key's occurrences; a bucket exists exactly for the keys that occur |
| Reports.TallyTotal | backend/src/controllers/reportsController.js:41-57 | the bucket counts sum to the number of rows |
| Reports.StatsSumToTotal | backend/src/controllers/reportsController.js:33-57 | `total_allocations` is the row count, and each of the four breakdowns sums to it |
| Reports.GetAllocationStats | backend/src/controllers/reportsController.js:33-57 | the counting loop produces `StatsOf` of the rows, with missing values under `Unknown` |
| Reports.CreditsReduceIsSum | backend/src/controllers/reportsController.js:94 | the `reduce` equals the sum of the credits, missing ones as 0 |
| Reports.FacultyWorkload | backend/src/controllers/reportsController.js:92-104 | `total_courses` is the length of `courses`, which lists each distinct course name once, in first-occurrence order; no allocations gives no courses and 0 credits |
| Reports.WorkloadTotals | backend/src/controllers/reportsController.js:93-102 | `total_courses` is the number of distinct course names and `total_credits` the credit sum |
| Reports.WorkloadReport | backend/src/controllers/reportsController.js:92-104 | one summary per faculty row, row i carrying member i's id, name, designation and department, and as many courses as `total_courses` says, none twice |
| Reports.WorkloadReportRow | backend/src/controllers/reportsController.js:92-104 | row i lists member i's distinct course names in first-occurrence order, counts them, and sums the credits with missing ones as 0 |
| Reports.FacultyNames | backend/src/controllers/reportsController.js:194 | the names kept by `filter(Boolean)` are non-empty |
| Reports.FacultyNamesSpec | backend/src/controllers/reportsController.js:194 | a name is kept exactly when some allocation has that truthy faculty name |
| Reports.CourseReport | backend/src/controllers/reportsController.js:192-206 | `faculty_assigned` has no duplicates or empty names; `total_allocations` is the allocation count, 0 when absent |
| Reports.CourseReportSpec | backend/src/controllers/reportsController.js:193-205 | `unique_faculty_count` is the number of distinct faculty ids; `faculty_assigned` holds each truthy name once, in first-occurrence order |
| Reports.CourseReportOf | backend/src/controllers/reportsController.js:192-206 | one summary per course row, row i carrying course i's id, code and name, its allocation count (0 when absent) and no name twice |
| Reports.CourseReportRow | backend/src/controllers/reportsController.js:192-206 | row i counts course i's allocations and distinct faculty ids and lists its distinct truthy faculty names in first-occurrence order |
| TimetableGrid.CellEntry | frontend/src/pages/Timetable.jsx:169-176 | a cell holds an entry that maps to it, and is null exactly when no entry maps to it |
| TimetableGrid.BuildTimetableGrid | frontend/src/pages/Timetable.jsx:166-179 | a fresh 8 × 5 array whose every cell is `CellEntry` of the entries |
| TimetableGrid.CellEntryIsLast | frontend/src/pages/Timetable.jsx:169-176 | the entry a cell shows is the last one in input order that maps to it |
| TimetableGrid.LastEntryIsShown | frontend/src/pages/Timetable.jsx:169-176 | the last entry that maps to a cell is the one shown there |
| TimetableGrid.InRange | frontend/src/pages/Timetable.jsx:173 | every entry kept is in range and is one of the input entries |
| TimetableGrid.InRangeOrder | frontend/src/pages/Timetable.jsx:173 | the kept entries are the input at strictly increasing indices, and every in-range entry is kept |
| TimetableGrid.OutOfRangeIgnored | frontend/src/pages/Timetable.jsx:173 | entries with a day or slot out of range leave every cell as it is without them |
| TimetableGrid.GeneratedEntriesShown | frontend/src/pages/Timetable.jsx:39-49 | the page's 5 days and 8 slots match the generator's grid, so every generated entry is in range and its cell is not empty |

## Left out

- Database access: every query, insert and the `fetchClasses` retry are left out. Fetched rows are parameters. Ids that the database assigns are modelled as a serial run starting at a given first id.
- Error paths of the database client are left out: fetch errors, the insert error, and the swallowed timetable-insert error.
- HTTP responses are modelled only as the `Response` datatype, without messages or status codes beyond the 400.
- Logging is left out.
- The race between reading existing allocations and inserting new ones is left out, because the model is sequential.
- `getWindows` is left out; it reads the clock.
- `getDepartmentReport` is left out: its float average uses `toFixed`/`parseFloat`.
- Authentication, Joi validation, routes and the rest of the UI are left out. Ids are non-negative integers, as validation and serial keys make them; negative or null department ids are not modelled.
- ToLowerFolds (Text.ToLowerFolds): lower-cases ASCII letters only; JavaScript's `toLowerCase` also maps non-ASCII letters.
- RoomNumberInjective (Scheduler.RoomNumberInjective): stated for counts below 900, where every label has three digits. Past 899 bookings in a cell, labels of classes from different departments can coincide: department 11 with count 1 and department 1 with count 1001 both give `D11101` (`Scheduler.RoomNumberCollision`). Labels with the same prefix stay distinct for any counts (`Scheduler.RoomNumberSamePrefix`).
- RoomNumberParts (Scheduler.RoomNumberParts): stated only for counts below 900, so for 100 + k having exactly three digits; labels for larger counts are not described.
- Integers are unbounded. Number rendering beyond 21 digits (exponent notation) and JavaScript numbers that are not integers are not modelled.
- SortByCell (Reports.SortByCell): the in-place `Array.prototype.sort` is modelled as a stable insertion sort on values. Only the resulting order is captured, not the in-place update.
- ObjectKeys (Allocator.ObjectKeys): JavaScript lists integer keys in ascending order only for array-index keys, up to 2^32 - 2. Larger ids come after them, in insertion order. The model sorts every id ascending.
- The statistics objects are `map<string, nat>`. JavaScript objects order integer-like keys first and treat `__proto__`-like keys specially; neither is modelled.
- `null` and `undefined` fields are both `None`.
- In the allocator and the generator, the timetable entry's database id and the page's joined display fields are not modelled.
- The round-robin fairness count (each member is offered ⌊N/F⌋ or ⌈N/F⌉ pairs) is not stated as a lemma. Allocator.RoundRobin gives the exact member for every position, and the count follows from it.
