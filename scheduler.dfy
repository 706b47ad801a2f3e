/** The greedy timetable generator run after auto-allocation: each allocation,
    in input order, takes the first (day, slot) of a 5-day by 8-slot week in
    which neither its faculty member nor its class is busy, and a room label
    numbered by how many bookings that cell already holds. */
module Scheduler {
  import opened Wrappers
  import opened Text
  import opened Entities

  const DAYS: int := 5
  const TIME_SLOTS: int := 8

  /** A cell of the weekly grid: a day (1 = Monday) and a time slot. */
  datatype Slot = Slot(day: int, slot: int)

  /** The occupancy sets: a (faculty or class id, day, slot) triple per booking. */
  type Occupancy = set<(Id, int, int)>

  /** The generator's mutable state: both occupancy sets and the per-cell room
      counter. */
  datatype Book = Book(facultySlots: Occupancy, classSlots: Occupancy, roomCounter: map<(int, int), nat>)

  predicate InGrid(day: int, slot: int)
  {
    1 <= day <= DAYS && 1 <= slot <= TIME_SLOTS
  }

  /** (d1, t1) comes before (d2, t2) in day-major, slot-minor order. */
  predicate Precedes(d1: int, t1: int, d2: int, t2: int)
  {
    d1 < d2 || (d1 == d2 && t1 < t2)
  }

  /** Neither the faculty member nor the class is booked at the cell. */
  predicate IsFree(facultySlots: Occupancy, classSlots: Occupancy, facultyId: Id, classId: Id, day: int, slot: int)
  {
    (facultyId, day, slot) !in facultySlots && (classId, day, slot) !in classSlots
  }

  /** The scan of `findAvailableSlot`, resumed at (day, slot). */
  function ScanFrom(facultySlots: Occupancy, classSlots: Occupancy, facultyId: Id, classId: Id,
                    day: int, slot: int): Option<Slot>
    requires 1 <= day <= DAYS + 1 && 1 <= slot <= TIME_SLOTS + 1
    decreases DAYS + 1 - day, TIME_SLOTS + 1 - slot
  {
    if day > DAYS then None
    else if slot > TIME_SLOTS then ScanFrom(facultySlots, classSlots, facultyId, classId, day + 1, 1)
    else if IsFree(facultySlots, classSlots, facultyId, classId, day, slot) then Some(Slot(day, slot))
    else ScanFrom(facultySlots, classSlots, facultyId, classId, day, slot + 1)
  }

  /** The scan from a cell finds a free in-grid cell at or after it, and every
      in-grid cell from the start up to the one found (or to the end of the
      week) is busy. */
  lemma {:induction false} ScanFromFirstFit(facultySlots: Occupancy, classSlots: Occupancy, facultyId: Id, classId: Id,
                                            day: int, slot: int)
    requires 1 <= day <= DAYS + 1 && 1 <= slot <= TIME_SLOTS + 1
    ensures var r := ScanFrom(facultySlots, classSlots, facultyId, classId, day, slot);
      r.Some? ==> (InGrid(r.value.day, r.value.slot)
        && IsFree(facultySlots, classSlots, facultyId, classId, r.value.day, r.value.slot)
        && !Precedes(r.value.day, r.value.slot, day, slot))
    ensures var r := ScanFrom(facultySlots, classSlots, facultyId, classId, day, slot);
      forall d, t :: (InGrid(d, t) && !Precedes(d, t, day, slot)
        && (r.Some? ==> Precedes(d, t, r.value.day, r.value.slot))
        ==> !IsFree(facultySlots, classSlots, facultyId, classId, d, t))
    decreases DAYS + 1 - day, TIME_SLOTS + 1 - slot
  {
    if day > DAYS {
    } else if slot > TIME_SLOTS {
      ScanFromFirstFit(facultySlots, classSlots, facultyId, classId, day + 1, 1);
    } else if IsFree(facultySlots, classSlots, facultyId, classId, day, slot) {
    } else {
      ScanFromFirstFit(facultySlots, classSlots, facultyId, classId, day, slot + 1);
    }
  }

  /** First fit: the earliest free cell of the week, or None when all 40 cells
      are blocked. */
  function FirstFree(facultySlots: Occupancy, classSlots: Occupancy, facultyId: Id, classId: Id): Option<Slot>
  {
    ScanFrom(facultySlots, classSlots, facultyId, classId, 1, 1)
  }

  /** A found cell is in the grid and free, and every earlier cell is not;
      no cell is found only when no cell is free. */
  lemma FirstFreeFirstFit(facultySlots: Occupancy, classSlots: Occupancy, facultyId: Id, classId: Id)
    ensures var r := FirstFree(facultySlots, classSlots, facultyId, classId);
      r.Some? ==> (InGrid(r.value.day, r.value.slot)
        && IsFree(facultySlots, classSlots, facultyId, classId, r.value.day, r.value.slot))
    ensures var r := FirstFree(facultySlots, classSlots, facultyId, classId);
      r.Some? ==> forall d, t :: (InGrid(d, t) && Precedes(d, t, r.value.day, r.value.slot)
        ==> !IsFree(facultySlots, classSlots, facultyId, classId, d, t))
    ensures var r := FirstFree(facultySlots, classSlots, facultyId, classId);
      r.None? ==> forall d, t :: InGrid(d, t) ==> !IsFree(facultySlots, classSlots, facultyId, classId, d, t)
  {
    ScanFromFirstFit(facultySlots, classSlots, facultyId, classId, 1, 1);
  }

  /** `findAvailableSlot`: day-major, slot-minor nested loops returning the
      first cell where both the faculty member and the class are free. */
  method FindAvailableSlot(facultySlots: Occupancy, classSlots: Occupancy, facultyId: Id, classId: Id)
    returns (r: Option<Slot>)
    ensures r == FirstFree(facultySlots, classSlots, facultyId, classId)
  {
    var day := 1;
    while day <= DAYS
      invariant 1 <= day <= DAYS + 1
      invariant ScanFrom(facultySlots, classSlots, facultyId, classId, day, 1)
        == ScanFrom(facultySlots, classSlots, facultyId, classId, 1, 1)
    {
      var slot := 1;
      while slot <= TIME_SLOTS
        invariant 1 <= slot <= TIME_SLOTS + 1
        invariant ScanFrom(facultySlots, classSlots, facultyId, classId, day, slot)
          == ScanFrom(facultySlots, classSlots, facultyId, classId, 1, 1)
      {
        if (facultyId, day, slot) !in facultySlots && (classId, day, slot) !in classSlots {
          return Some(Slot(day, slot));
        }
        slot := slot + 1;
      }
      day := day + 1;
    }
    return None;
  }

  // Room labels

  /** `classes.find(c => c.id === classId)`, as the index of the first match. */
  function FindClassIndex(classes: seq<Class>, classId: Id): (r: Option<nat>)
    ensures r.Some? ==> (r.value < |classes| && classes[r.value].id == classId
      && forall j :: 0 <= j < r.value ==> classes[j].id != classId)
    ensures r.None? ==> forall j :: 0 <= j < |classes| ==> classes[j].id != classId
  {
    if classes == [] then None
    else if classes[0].id == classId then Some(0)
    else match FindClassIndex(classes[1..], classId)
      case None => None
      case Some(i) => Some(i + 1)
  }

  /** `D{department_id}` when the first class with the id has a truthy (non-zero)
      department id, `R` otherwise. */
  function RoomPrefix(classes: seq<Class>, classId: Id): string
  {
    match FindClassIndex(classes, classId)
    case Some(i) => if classes[i].department_id != 0 then "D" + NatToString(classes[i].department_id) else "R"
    case None => "R"
  }

  /** The label of the k-th booking of a cell. */
  function RoomNumber(classes: seq<Class>, classId: Id, k: nat): string
  {
    RoomPrefix(classes, classId) + NatToString(100 + k)
  }

  /** `roomCounter[key]`, with a missing key read as 0. */
  function RoomCount(roomCounter: map<(int, int), nat>, day: int, slot: int): nat
  {
    if (day, slot) in roomCounter then roomCounter[(day, slot)] else 0
  }

  /** `getRoomNumber`: bumps the cell's counter and labels the booking with it. */
  method GetRoomNumber(roomCounter: map<(int, int), nat>, classes: seq<Class>, day: int, slot: int, classId: Id)
    returns (room: string, counter: map<(int, int), nat>)
    ensures counter == roomCounter[(day, slot) := RoomCount(roomCounter, day, slot) + 1]
    ensures room == RoomNumber(classes, classId, RoomCount(counter, day, slot))
  {
    var key := (day, slot);
    counter := roomCounter;
    if key !in counter {
      counter := counter[key := 0];
    }
    counter := counter[key := counter[key] + 1];
    var prefix := "R";
    var found := FindClassIndex(classes, classId);
    if found.Some? && classes[found.value].department_id != 0 {
      prefix := "D" + NatToString(classes[found.value].department_id);
    }
    room := prefix + NatToString(100 + counter[key]);
  }

  /** The room label shows the cell's booking number in its last three
      characters while that number stays below 900, and the department of the
      first class with the id, if truthy, after a leading `D`. */
  lemma RoomNumberParts(classes: seq<Class>, classId: Id, k: nat)
    requires k < 900
    ensures var r := RoomNumber(classes, classId, k);
      |r| >= 4 && DecimalValue(r[|r| - 3..]) == 100 + k
    ensures var r := RoomNumber(classes, classId, k);
      var i := FindClassIndex(classes, classId);
      if i.Some? && classes[i.value].department_id != 0
      then r[0] == 'D' && DecimalValue(r[1..|r| - 3]) == classes[i.value].department_id
      else r[..|r| - 3] == "R"
  {
    var p := RoomPrefix(classes, classId);
    var n := NatToString(100 + k);
    var r := p + n;
    assert |n| == 3;
    assert r[|r| - 3..] == n;
    assert r[..|r| - 3] == p;
    var i := FindClassIndex(classes, classId);
    if i.Some? && classes[i.value].department_id != 0 {
      assert r[1..|r| - 3] == NatToString(classes[i.value].department_id);
    }
  }

  /** Two bookings numbered below 900 with different numbers never share a
      label, whatever their classes. */
  lemma RoomNumberInjective(classes: seq<Class>, c1: Id, c2: Id, k1: nat, k2: nat)
    requires k1 < 900 && k2 < 900 && k1 != k2
    ensures RoomNumber(classes, c1, k1) != RoomNumber(classes, c2, k2)
  {
    var r1 := RoomNumber(classes, c1, k1);
    var r2 := RoomNumber(classes, c2, k2);
    RoomNumberParts(classes, c1, k1);
    RoomNumberParts(classes, c2, k2);
  }

  /** Two bookings whose classes get the same prefix and whose numbers
      differ never share a label, however large the numbers. */
  lemma RoomNumberSamePrefix(classes: seq<Class>, c1: Id, c2: Id, k1: nat, k2: nat)
    requires RoomPrefix(classes, c1) == RoomPrefix(classes, c2) && k1 != k2
    ensures RoomNumber(classes, c1, k1) != RoomNumber(classes, c2, k2)
  {
    var p := RoomPrefix(classes, c1);
    var n1 := NatToString(100 + k1);
    var n2 := NatToString(100 + k2);
    assert (p + n1)[|p|..] == n1 && (p + n2)[|p|..] == n2;
    assert DecimalValue(n1) != DecimalValue(n2);
  }

  /** Decimal renderings used by the collision below. */
  lemma RenderingsOfSmallIds()
    ensures NatToString(1) == "1" && NatToString(11) == "11" && NatToString(101) == "101"
  {
    assert NatToString(11) == NatToString(1) + "1";
    assert NatToString(10) == NatToString(1) + "0";
    assert NatToString(101) == NatToString(10) + "1";
  }

  /** The rendering of 100 + 1001. */
  lemma RenderingOfLargeCount()
    ensures NatToString(1101) == "1101"
  {
    assert NatToString(11) == NatToString(1) + "1";
    assert NatToString(110) == NatToString(11) + "0";
    assert NatToString(1101) == NatToString(110) + "1";
  }

  /** Past 899 bookings in a cell, labels of different departments can
      coincide: the first booking of a class of department 11 and the 1001st
      booking of a class of department 1 are both labelled `D11101`. */
  lemma RoomNumberCollision()
    ensures var classes := [Class(1, 11, 1, 2024), Class(2, 1, 1, 2024)];
      RoomNumber(classes, 1, 1) == RoomNumber(classes, 2, 1001) == "D11101"
  {
    var classes := [Class(1, 11, 1, 2024), Class(2, 1, 1, 2024)];
    RenderingsOfSmallIds();
    RenderingOfLargeCount();
    assert FindClassIndex(classes, 1) == Some(0);
    assert FindClassIndex(classes, 2) == Some(1);
    assert RoomPrefix(classes, 1) == "D11";
    assert RoomPrefix(classes, 2) == "D1";
  }

  // The generator as a function of its inputs

  /** What one allocation does to the state, and the entry it yields, if any. */
  function Place(book: Book, a: Allocation, classes: seq<Class>): (Book, Option<TimetableEntry>)
  {
    match FirstFree(book.facultySlots, book.classSlots, a.faculty_id, a.class_id)
    case None => (book, None)
    case Some(s) =>
      var k := RoomCount(book.roomCounter, s.day, s.slot) + 1;
      (Book(book.facultySlots + {(a.faculty_id, s.day, s.slot)},
            book.classSlots + {(a.class_id, s.day, s.slot)},
            book.roomCounter[(s.day, s.slot) := k]),
       Some(TimetableEntry(a.id, s.day, s.slot, RoomNumber(classes, a.class_id, k))))
  }

  /** The final state, and per allocation the entry it produced (None when no
      cell was free). */
  datatype Outcome = Outcome(book: Book, placed: seq<Option<TimetableEntry>>)

  function Run(allocations: seq<Allocation>, classes: seq<Class>): (o: Outcome)
    ensures |o.placed| == |allocations|
  {
    if allocations == [] then Outcome(Book({}, {}, map[]), [])
    else
      var prev := Run(allocations[..|allocations| - 1], classes);
      var step := Place(prev.book, allocations[|allocations| - 1], classes);
      Outcome(step.0, prev.placed + [step.1])
  }

  /** One more allocation runs one more placement step. */
  lemma RunStep(allocations: seq<Allocation>, classes: seq<Class>, i: nat)
    requires i < |allocations|
    ensures var prev := Run(allocations[..i], classes);
      var step := Place(prev.book, allocations[i], classes);
      Run(allocations[..i + 1], classes) == Outcome(step.0, prev.placed + [step.1])
  {
    assert allocations[..i + 1][..i] == allocations[..i];
  }

  /** The produced entries in allocation order. */
  function Entries(placed: seq<Option<TimetableEntry>>): seq<TimetableEntry>
  {
    if placed == [] then []
    else Entries(placed[..|placed| - 1]) + (match placed[|placed| - 1] case Some(e) => [e] case None => [])
  }

  /** The result of `generateTimetable(allocations, classes)`. */
  function Timetable(allocations: seq<Allocation>, classes: seq<Class>): seq<TimetableEntry>
  {
    Entries(Run(allocations, classes).placed)
  }

  /** One turn of `generateTimetable`'s loop: find the allocation's slot and,
      when there is one, take a room number and book the faculty member and
      the class there. */
  method ScheduleOne(facultySlots: Occupancy, classSlots: Occupancy, roomCounter: map<(int, int), nat>,
                     allocation: Allocation, classes: seq<Class>)
    returns (facultySlots': Occupancy, classSlots': Occupancy, roomCounter': map<(int, int), nat>,
             entry: Option<TimetableEntry>)
    ensures (Book(facultySlots', classSlots', roomCounter'), entry)
      == Place(Book(facultySlots, classSlots, roomCounter), allocation, classes)
  {
    facultySlots', classSlots', roomCounter', entry := facultySlots, classSlots, roomCounter, None;
    var slot := FindAvailableSlot(facultySlots, classSlots, allocation.faculty_id, allocation.class_id);
    if slot.Some? {
      var day, timeSlot := slot.value.day, slot.value.slot;
      var roomNumber;
      roomNumber, roomCounter' := GetRoomNumber(roomCounter, classes, day, timeSlot, allocation.class_id);
      entry := Some(TimetableEntry(allocation.id, day, timeSlot, roomNumber));
      facultySlots' := facultySlots + {(allocation.faculty_id, day, timeSlot)};
      classSlots' := classSlots + {(allocation.class_id, day, timeSlot)};
    }
  }

  /** `generateTimetable`. */
  method GenerateTimetable(allocations: seq<Allocation>, classes: seq<Class>)
    returns (timetableEntries: seq<TimetableEntry>)
    ensures timetableEntries == Timetable(allocations, classes)
  {
    timetableEntries := [];
    var facultySlots: Occupancy := {};
    var classSlots: Occupancy := {};
    var roomCounter: map<(int, int), nat> := map[];
    for i := 0 to |allocations|
      invariant Book(facultySlots, classSlots, roomCounter) == Run(allocations[..i], classes).book
      invariant timetableEntries == Entries(Run(allocations[..i], classes).placed)
    {
      RunStep(allocations, classes, i);
      ghost var prev := Run(allocations[..i], classes);
      var entry;
      facultySlots, classSlots, roomCounter, entry := ScheduleOne(facultySlots, classSlots, roomCounter, allocations[i], classes);
      if entry.Some? {
        timetableEntries := timetableEntries + [entry.value];
      }
      assert Entries(prev.placed + [entry]) == Entries(prev.placed) + (if entry.Some? then [entry.value] else []);
    }
    assert allocations[..|allocations|] == allocations;
  }

  // Properties of the generated timetable

  /** The entry, if any, sits at (day, slot). */
  predicate BookedAt(p: Option<TimetableEntry>, day: int, slot: int)
  {
    p.Some? && p.value.day_of_week == day && p.value.time_slot == slot
  }

  /** Some allocation before the k-th, sharing its faculty member or its class,
      was booked at (day, slot). */
  predicate Blocked(allocations: seq<Allocation>, placed: seq<Option<TimetableEntry>>, k: int, day: int, slot: int)
  {
    0 <= k < |allocations| && exists j :: (0 <= j < k && j < |placed| && BookedAt(placed[j], day, slot)
      && (allocations[j].faculty_id == allocations[k].faculty_id || allocations[j].class_id == allocations[k].class_id))
  }

  /** The number of entries booked at (day, slot). */
  function CountBooked(placed: seq<Option<TimetableEntry>>, day: int, slot: int): nat
  {
    if placed == [] then 0
    else CountBooked(placed[..|placed| - 1], day, slot) + (if BookedAt(placed[|placed| - 1], day, slot) then 1 else 0)
  }

  /** Running the generator on a prefix of the allocations gives a prefix of
      the per-allocation outcomes. */
  lemma {:induction false} RunPrefix(allocations: seq<Allocation>, classes: seq<Class>, n: nat)
    requires n <= |allocations|
    ensures Run(allocations[..n], classes).placed == Run(allocations, classes).placed[..n]
    decreases |allocations|
  {
    if n < |allocations| {
      var init := allocations[..|allocations| - 1];
      assert init[..n] == allocations[..n];
      var prev := Run(init, classes);
      RunPrefix(init, classes, n);
      var x := Place(prev.book, allocations[|allocations| - 1], classes).1;
      assert Run(allocations, classes).placed == prev.placed + [x];
      assert (prev.placed + [x])[..n] == prev.placed[..n];
    } else {
      assert allocations[..n] == allocations;
    }
  }

  /** The k-th allocation is placed against the state left by the ones before it. */
  lemma PlacementAt(allocations: seq<Allocation>, classes: seq<Class>, k: nat)
    requires k < |allocations|
    ensures Run(allocations, classes).placed[k] == Place(Run(allocations[..k], classes).book, allocations[k], classes).1
  {
    var p := allocations[..k + 1];
    var prev := Run(allocations[..k], classes);
    assert p[..|p| - 1] == allocations[..k];
    assert p[|p| - 1] == allocations[k];
    var x := Place(prev.book, allocations[k], classes).1;
    assert Run(p, classes).placed == prev.placed + [x];
    RunPrefix(allocations, classes, k + 1);
    var placed := Run(allocations, classes).placed;
    assert placed[..k + 1] == prev.placed + [x];
    assert placed[k] == placed[..k + 1][k] == x;
  }

  /** One placement adds the new entry's cell to both occupancy sets, under
      the allocation's faculty id and class id, and nothing else. */
  lemma PlaceOccupancy(book: Book, a: Allocation, classes: seq<Class>)
    ensures var step := Place(book, a, classes);
      step.0.facultySlots == book.facultySlots + (if step.1.Some? then {(a.faculty_id, step.1.value.day_of_week, step.1.value.time_slot)} else {})
      && step.0.classSlots == book.classSlots + (if step.1.Some? then {(a.class_id, step.1.value.day_of_week, step.1.value.time_slot)} else {})
  {
  }

  function FacultyOf(a: Allocation): Id { a.faculty_id }
  function ClassOf(a: Allocation): Id { a.class_id }

  /** One step of an occupancy set: if `before` records exactly the cells of
      the decisions for `init` under their `key`, then `after`, which adds the
      cell of the next decision, records exactly those of `init + [next]`. */
  lemma {:induction false} OccupancyStep(init: seq<Allocation>, prevPlaced: seq<Option<TimetableEntry>>,
                                        next: Allocation, p: Option<TimetableEntry>, key: Allocation -> Id,
                                        before: Occupancy, after: Occupancy, x: Id, day: int, slot: int)
    requires |init| == |prevPlaced|
    requires (x, day, slot) in before <==>
      exists j :: 0 <= j < |init| && key(init[j]) == x && BookedAt(prevPlaced[j], day, slot)
    requires after == before + (if p.Some? then {(key(next), p.value.day_of_week, p.value.time_slot)} else {})
    ensures (x, day, slot) in after <==>
      exists j :: 0 <= j < |init| + 1 && key((init + [next])[j]) == x && BookedAt((prevPlaced + [p])[j], day, slot)
  {
    var all := init + [next];
    var placed := prevPlaced + [p];
    if (x, day, slot) in after {
      if (x, day, slot) in before {
        var j :| 0 <= j < |init| && key(init[j]) == x && BookedAt(prevPlaced[j], day, slot);
        assert all[j] == init[j] && placed[j] == prevPlaced[j];
      } else {
        assert all[|init|] == next && placed[|init|] == p;
      }
    } else {
      forall j | 0 <= j < |init| + 1 && key(all[j]) == x ensures !BookedAt(placed[j], day, slot) {
        if j < |init| {
          assert all[j] == init[j] && placed[j] == prevPlaced[j];
        } else {
          assert all[j] == next && placed[j] == p;
        }
      }
    }
  }

  /** The faculty occupancy set holds exactly the cells of the entries produced,
      under their allocation's faculty id. */
  lemma {:induction false} FacultySlotsSpec(allocations: seq<Allocation>, classes: seq<Class>, f: Id, day: int, slot: int)
    ensures (f, day, slot) in Run(allocations, classes).book.facultySlots <==>
      exists j :: 0 <= j < |allocations| && allocations[j].faculty_id == f && BookedAt(Run(allocations, classes).placed[j], day, slot)
    decreases |allocations|
  {
    if allocations != [] {
      var n := |allocations| - 1;
      var init := allocations[..n];
      var next := allocations[n];
      assert allocations == init + [next];
      var prev := Run(init, classes);
      var step := Place(prev.book, next, classes);
      assert Run(allocations, classes) == Outcome(step.0, prev.placed + [step.1]);
      PlaceOccupancy(prev.book, next, classes);
      FacultySlotsSpec(init, classes, f, day, slot);
      OccupancyStep(init, prev.placed, next, step.1, FacultyOf, prev.book.facultySlots, step.0.facultySlots, f, day, slot);
    }
  }

  /** The class occupancy set holds exactly the cells of the entries produced,
      under their allocation's class id. */
  lemma {:induction false} ClassSlotsSpec(allocations: seq<Allocation>, classes: seq<Class>, c: Id, day: int, slot: int)
    ensures (c, day, slot) in Run(allocations, classes).book.classSlots <==>
      exists j :: 0 <= j < |allocations| && allocations[j].class_id == c && BookedAt(Run(allocations, classes).placed[j], day, slot)
    decreases |allocations|
  {
    if allocations != [] {
      var n := |allocations| - 1;
      var init := allocations[..n];
      var next := allocations[n];
      assert allocations == init + [next];
      var prev := Run(init, classes);
      var step := Place(prev.book, next, classes);
      assert Run(allocations, classes) == Outcome(step.0, prev.placed + [step.1]);
      PlaceOccupancy(prev.book, next, classes);
      ClassSlotsSpec(init, classes, c, day, slot);
      OccupancyStep(init, prev.placed, next, step.1, ClassOf, prev.book.classSlots, step.0.classSlots, c, day, slot);
    }
  }

  /** Each cell's room counter is the number of entries booked in that cell. */
  lemma {:induction false} RoomCounterSpec(allocations: seq<Allocation>, classes: seq<Class>, day: int, slot: int)
    ensures RoomCount(Run(allocations, classes).book.roomCounter, day, slot) == CountBooked(Run(allocations, classes).placed, day, slot)
    decreases |allocations|
  {
    if allocations != [] {
      var n := |allocations| - 1;
      var init := allocations[..n];
      RoomCounterSpec(init, classes, day, slot);
      assert Run(allocations, classes).placed[..n] == Run(init, classes).placed;
    }
  }

  /** Free cells for the k-th allocation are exactly those not blocked by an
      earlier entry of its faculty member or its class. */
  lemma FreeIffUnblocked(allocations: seq<Allocation>, classes: seq<Class>, k: nat, day: int, slot: int)
    requires k < |allocations|
    ensures var book := Run(allocations[..k], classes).book;
      IsFree(book.facultySlots, book.classSlots, allocations[k].faculty_id, allocations[k].class_id, day, slot)
      <==> !Blocked(allocations, Run(allocations, classes).placed, k, day, slot)
  {
    var prefix := allocations[..k];
    var placed := Run(allocations, classes).placed;
    RunPrefix(allocations, classes, k);
    FacultySlotsSpec(prefix, classes, allocations[k].faculty_id, day, slot);
    ClassSlotsSpec(prefix, classes, allocations[k].class_id, day, slot);
    assert forall j :: 0 <= j < k ==> prefix[j] == allocations[j] && Run(prefix, classes).placed[j] == placed[j];
  }

  /** First fit: an allocation that gets an entry gets one inside the grid, in
      a cell none of its earlier entries of the same faculty member or class
      holds, and every earlier cell of the week is so held; an allocation that
      gets none found all 40 cells held. */
  lemma FirstFit(allocations: seq<Allocation>, classes: seq<Class>, k: nat)
    requires k < |allocations|
    ensures var placed := Run(allocations, classes).placed;
      placed[k].Some? ==> (InGrid(placed[k].value.day_of_week, placed[k].value.time_slot)
        && !Blocked(allocations, placed, k, placed[k].value.day_of_week, placed[k].value.time_slot)
        && forall d, t :: (InGrid(d, t) && Precedes(d, t, placed[k].value.day_of_week, placed[k].value.time_slot)
          ==> Blocked(allocations, placed, k, d, t)))
    ensures var placed := Run(allocations, classes).placed;
      placed[k].None? ==> forall d, t :: InGrid(d, t) ==> Blocked(allocations, placed, k, d, t)
  {
    var book := Run(allocations[..k], classes).book;
    var a := allocations[k];
    var placed := Run(allocations, classes).placed;
    PlacementAt(allocations, classes, k);
    FirstFreeFirstFit(book.facultySlots, book.classSlots, a.faculty_id, a.class_id);
    var r := FirstFree(book.facultySlots, book.classSlots, a.faculty_id, a.class_id);
    assert placed[k].Some? <==> r.Some?;
    assert placed[k].Some? ==> placed[k].value.day_of_week == r.value.day && placed[k].value.time_slot == r.value.slot;
    forall d, t {
      FreeIffUnblocked(allocations, classes, k, d, t);
    }
  }

  /** Each produced entry carries its allocation's id. */
  lemma EntryOfAllocation(allocations: seq<Allocation>, classes: seq<Class>, k: nat)
    requires k < |allocations| && Run(allocations, classes).placed[k].Some?
    ensures Run(allocations, classes).placed[k].value.allocation_id == allocations[k].id
  {
    PlacementAt(allocations, classes, k);
  }

  /** No faculty member and no class is booked twice in one cell. */
  lemma NoDoubleBooking(allocations: seq<Allocation>, classes: seq<Class>, j: nat, k: nat)
    requires j < k < |allocations|
    requires var placed := Run(allocations, classes).placed;
      placed[j].Some? && BookedAt(placed[k], placed[j].value.day_of_week, placed[j].value.time_slot)
    ensures allocations[j].faculty_id != allocations[k].faculty_id
    ensures allocations[j].class_id != allocations[k].class_id
  {
    FirstFit(allocations, classes, k);
  }

  /** The k-th allocation's room label is numbered one past the entries already
      booked in its cell. */
  lemma RoomNumbering(allocations: seq<Allocation>, classes: seq<Class>, k: nat)
    requires k < |allocations| && Run(allocations, classes).placed[k].Some?
    ensures var placed := Run(allocations, classes).placed;
      var e := placed[k].value;
      e.room_number == RoomNumber(classes, allocations[k].class_id, CountBooked(placed[..k], e.day_of_week, e.time_slot) + 1)
  {
    PlacementAt(allocations, classes, k);
    RunPrefix(allocations, classes, k);
    var e := Run(allocations, classes).placed[k].value;
    RoomCounterSpec(allocations[..k], classes, e.day_of_week, e.time_slot);
  }

  /** The entries are those produced, in allocation order: index t of the output
      comes from allocation idx[t], and every allocation with an entry appears. */
  lemma {:induction false} EntriesOrder(placed: seq<Option<TimetableEntry>>) returns (idx: seq<nat>)
    ensures |idx| == |Entries(placed)|
    ensures forall t :: 0 <= t < |idx| ==> idx[t] < |placed| && placed[idx[t]] == Some(Entries(placed)[t])
    ensures forall s, t :: 0 <= s < t < |idx| ==> idx[s] < idx[t]
    ensures forall k :: 0 <= k < |placed| && placed[k].Some? ==> k in idx
  {
    if placed == [] {
      idx := [];
    } else {
      var n := |placed| - 1;
      var init := placed[..n];
      var prev := EntriesOrder(init);
      var before := Entries(init);
      var tail: seq<TimetableEntry> := if placed[n].Some? then [placed[n].value] else [];
      idx := prev + (if placed[n].Some? then [n] else []);
      assert Entries(placed) == before + tail;
      forall t | 0 <= t < |idx| ensures idx[t] < |placed| && placed[idx[t]] == Some(Entries(placed)[t]) {
        if t < |prev| {
          assert idx[t] == prev[t] && (before + tail)[t] == before[t];
          assert init[prev[t]] == placed[prev[t]];
        } else {
          assert idx[t] == n && (before + tail)[t] == placed[n].value;
        }
      }
      forall s, t | 0 <= s < t < |idx| ensures idx[s] < idx[t] {
        if t < |prev| {
          assert idx[s] == prev[s] && idx[t] == prev[t];
        } else {
          assert idx[s] == prev[s] && idx[t] == n;
        }
      }
      forall k | 0 <= k < |placed| && placed[k].Some? ensures k in idx {
        if k < n {
          assert init[k] == placed[k];
          assert k in prev;
        }
      }
    }
  }

  /** At most one entry per allocation. */
  lemma {:induction false} EntriesBound(placed: seq<Option<TimetableEntry>>)
    ensures |Entries(placed)| <= |placed|
  {
    if placed != [] {
      EntriesBound(placed[..|placed| - 1]);
    }
  }

  /** Every entry of the timetable lies inside the 5 by 8 week. */
  lemma EntriesInGrid(allocations: seq<Allocation>, classes: seq<Class>)
    ensures forall t :: 0 <= t < |Timetable(allocations, classes)| ==>
      InGrid(Timetable(allocations, classes)[t].day_of_week, Timetable(allocations, classes)[t].time_slot)
  {
    var placed := Run(allocations, classes).placed;
    var idx := EntriesOrder(placed);
    forall t | 0 <= t < |Timetable(allocations, classes)|
      ensures InGrid(Timetable(allocations, classes)[t].day_of_week, Timetable(allocations, classes)[t].time_slot)
    {
      FirstFit(allocations, classes, idx[t]);
    }
  }
}
