/** The report computations run on fetched rows: timetable conflicts,
    allocation statistics, faculty workload and the course report. A nested
    relation the query may leave null is an `Option`; so is a field the
    code reads through optional chaining. */
module Reports {
  import opened Wrappers
  import opened Text
  import opened Seqs

  // ---------------------------------------------------------------------
  // Timetable conflicts

  datatype FacultyRef = FacultyRef(id: int, name: Option<string>)

  /** The allocation joined to a timetable row: its faculty member, the
      course code and the class section. */
  datatype RowAllocation = RowAllocation(faculty: Option<FacultyRef>, course_code: Option<string>,
                                         class_section: Option<string>)

  datatype TimetableRow = TimetableRow(id: int, day_of_week: int, time_slot: int, room_number: string,
                                       allocation: Option<RowAllocation>)

  datatype Conflict = Conflict(conflict_id: int, day_of_week: int, time_slot: int, room_number: string,
                               faculty1_name: Option<string>, course1_code: Option<string>,
                               class1_section: Option<string>, faculty2_name: Option<string>,
                               course2_code: Option<string>, class2_section: Option<string>)

  /** `t.allocations?.faculty?.id`: None stands for `undefined`. */
  function FacultyIdOf(t: TimetableRow): Option<int>
  {
    match t.allocation
    case None => None
    case Some(a) => match a.faculty { case None => None case Some(f) => Some(f.id) }
  }

  function FacultyNameOf(t: TimetableRow): Option<string>
  {
    match t.allocation
    case None => None
    case Some(a) => match a.faculty { case None => None case Some(f) => f.name }
  }

  function CourseCodeOf(t: TimetableRow): Option<string>
  {
    match t.allocation { case None => None case Some(a) => a.course_code }
  }

  function ClassSectionOf(t: TimetableRow): Option<string>
  {
    match t.allocation { case None => None case Some(a) => a.class_section }
  }

  /** The conflict test: the same day and slot, and the same room or the same
      faculty id, where two missing ids are equal (`undefined === undefined`). */
  predicate Clash(t1: TimetableRow, t2: TimetableRow)
  {
    t1.day_of_week == t2.day_of_week && t1.time_slot == t2.time_slot
      && (t1.room_number == t2.room_number || FacultyIdOf(t1) == FacultyIdOf(t2))
  }

  /** The record pushed for a clashing pair; the cell and room come from t1. */
  function MakeConflict(t1: TimetableRow, t2: TimetableRow): Conflict
  {
    Conflict(t1.id, t1.day_of_week, t1.time_slot, t1.room_number,
             FacultyNameOf(t1), CourseCodeOf(t1), ClassSectionOf(t1),
             FacultyNameOf(t2), CourseCodeOf(t2), ClassSectionOf(t2))
  }

  /** The conflicts of row i with the rows i+1 .. j-1. */
  function RowConflicts(ts: seq<TimetableRow>, i: nat, j: nat): seq<Conflict>
    requires i < j <= |ts|
    decreases j
  {
    if j == i + 1 then []
    else RowConflicts(ts, i, j - 1) + (if Clash(ts[i], ts[j - 1]) then [MakeConflict(ts[i], ts[j - 1])] else [])
  }

  /** The conflicts found while the outer index runs below i. */
  function PairConflicts(ts: seq<TimetableRow>, i: nat): seq<Conflict>
    requires i <= |ts|
  {
    if i == 0 then [] else PairConflicts(ts, i - 1) + RowConflicts(ts, i - 1, |ts|)
  }

  /** The unsorted result of the pairwise loop. */
  function Conflicts(ts: seq<TimetableRow>): seq<Conflict>
  {
    PairConflicts(ts, |ts|)
  }

  /** Lexicographic order of index pairs: the order the nested loop visits them. */
  predicate PairBefore(p: (nat, nat), q: (nat, nat))
  {
    p.0 < q.0 || (p.0 == q.0 && p.1 < q.1)
  }

  /** The pairs behind `RowConflicts(ts, i, j)`. */
  lemma {:induction false} RowPairs(ts: seq<TimetableRow>, i: nat, j: nat) returns (ps: seq<(nat, nat)>)
    requires i < j <= |ts|
    ensures |ps| == |RowConflicts(ts, i, j)|
    ensures forall t :: 0 <= t < |ps| ==> (ps[t].0 == i && i < ps[t].1 < j && Clash(ts[i], ts[ps[t].1])
      && RowConflicts(ts, i, j)[t] == MakeConflict(ts[i], ts[ps[t].1]))
    ensures forall s, t :: 0 <= s < t < |ps| ==> ps[s].1 < ps[t].1
    ensures forall k :: i < k < j && Clash(ts[i], ts[k]) ==> (i, k) in ps
    decreases j
  {
    if j == i + 1 {
      ps := [];
    } else {
      var prev := RowPairs(ts, i, j - 1);
      var before := RowConflicts(ts, i, j - 1);
      if Clash(ts[i], ts[j - 1]) {
        ps := prev + [(i, j - 1)];
        assert RowConflicts(ts, i, j) == before + [MakeConflict(ts[i], ts[j - 1])];
      } else {
        ps := prev;
        assert RowConflicts(ts, i, j) == before;
      }
    }
  }

  /** Joining the pairs below row r with row r's pairs keeps each pair
      behind its conflict. */
  lemma PairsJoinWitness(ts: seq<TimetableRow>, r: nat, prev: seq<(nat, nat)>, row: seq<(nat, nat)>,
                         before: seq<Conflict>, rc: seq<Conflict>)
    requires |prev| == |before| && |row| == |rc|
    requires forall t :: 0 <= t < |prev| ==> (prev[t].0 < r && prev[t].0 < prev[t].1 < |ts|
      && Clash(ts[prev[t].0], ts[prev[t].1]) && before[t] == MakeConflict(ts[prev[t].0], ts[prev[t].1]))
    requires forall t :: 0 <= t < |row| ==> (row[t].0 == r && r < row[t].1 < |ts|
      && Clash(ts[r], ts[row[t].1]) && rc[t] == MakeConflict(ts[r], ts[row[t].1]))
    ensures var ps := prev + row;
      forall t :: 0 <= t < |ps| ==> (ps[t].0 < r + 1 && ps[t].0 < ps[t].1 < |ts|
        && Clash(ts[ps[t].0], ts[ps[t].1]) && (before + rc)[t] == MakeConflict(ts[ps[t].0], ts[ps[t].1]))
  {
    var ps := prev + row;
    forall t | 0 <= t < |ps|
      ensures ps[t].0 < r + 1 && ps[t].0 < ps[t].1 < |ts| && Clash(ts[ps[t].0], ts[ps[t].1])
        && (before + rc)[t] == MakeConflict(ts[ps[t].0], ts[ps[t].1])
    {
      if t < |prev| {
        assert ps[t] == prev[t] && (before + rc)[t] == before[t];
      } else {
        assert ps[t] == row[t - |prev|] && (before + rc)[t] == rc[t - |prev|];
      }
    }
  }

  /** Joining keeps the loop order. */
  lemma PairsJoinOrder(r: nat, prev: seq<(nat, nat)>, row: seq<(nat, nat)>)
    requires forall t :: 0 <= t < |prev| ==> prev[t].0 < r
    requires forall s, t :: 0 <= s < t < |prev| ==> PairBefore(prev[s], prev[t])
    requires forall t :: 0 <= t < |row| ==> row[t].0 == r
    requires forall s, t :: 0 <= s < t < |row| ==> row[s].1 < row[t].1
    ensures var ps := prev + row;
      forall s, t :: 0 <= s < t < |ps| ==> PairBefore(ps[s], ps[t])
  {
    var ps := prev + row;
    forall s, t | 0 <= s < t < |ps| ensures PairBefore(ps[s], ps[t]) {
      if t < |prev| {
        assert ps[s] == prev[s] && ps[t] == prev[t];
      } else if s < |prev| {
        assert ps[s] == prev[s] && ps[t] == row[t - |prev|];
      } else {
        assert ps[s] == row[s - |prev|] && ps[t] == row[t - |prev|];
      }
    }
  }

  /** Joining keeps every clashing pair. */
  lemma PairsJoinCover(ts: seq<TimetableRow>, r: nat, prev: seq<(nat, nat)>, row: seq<(nat, nat)>)
    requires forall a, b :: 0 <= a < r && a < b < |ts| && Clash(ts[a], ts[b]) ==> (a, b) in prev
    requires forall k :: r < k < |ts| && Clash(ts[r], ts[k]) ==> (r, k) in row
    ensures forall a, b :: 0 <= a < r + 1 && a < b < |ts| && Clash(ts[a], ts[b]) ==> (a, b) in prev + row
  {
    forall a, b | 0 <= a < r + 1 && a < b < |ts| && Clash(ts[a], ts[b]) ensures (a, b) in prev + row {
      if a < r {
        assert (a, b) in prev;
      } else {
        assert (a, b) in row;
      }
    }
  }

  /** The pairs behind `PairConflicts(ts, i)`. */
  lemma {:induction false} PairsBelow(ts: seq<TimetableRow>, i: nat) returns (ps: seq<(nat, nat)>)
    requires i <= |ts|
    ensures |ps| == |PairConflicts(ts, i)|
    ensures forall t :: 0 <= t < |ps| ==> (ps[t].0 < i && ps[t].0 < ps[t].1 < |ts|
      && Clash(ts[ps[t].0], ts[ps[t].1]) && PairConflicts(ts, i)[t] == MakeConflict(ts[ps[t].0], ts[ps[t].1]))
    ensures forall s, t :: 0 <= s < t < |ps| ==> PairBefore(ps[s], ps[t])
    ensures forall a, b :: 0 <= a < i && a < b < |ts| && Clash(ts[a], ts[b]) ==> (a, b) in ps
  {
    if i == 0 {
      ps := [];
    } else {
      var prev := PairsBelow(ts, i - 1);
      var row := RowPairs(ts, i - 1, |ts|);
      var before := PairConflicts(ts, i - 1);
      var rc := RowConflicts(ts, i - 1, |ts|);
      assert PairConflicts(ts, i) == before + rc;
      PairsJoinWitness(ts, i - 1, prev, row, before, rc);
      PairsJoinOrder(i - 1, prev, row);
      PairsJoinCover(ts, i - 1, prev, row);
      ps := prev + row;
    }
  }

  /** The conflict list, pair by pair: entry t comes from the clashing index
      pair ps[t] with the earlier row first, the pairs come in loop order, and
      every clashing pair is reported. */
  lemma ConflictPairs(ts: seq<TimetableRow>) returns (ps: seq<(nat, nat)>)
    ensures |ps| == |Conflicts(ts)|
    ensures forall t :: 0 <= t < |ps| ==> (ps[t].0 < ps[t].1 < |ts|
      && Clash(ts[ps[t].0], ts[ps[t].1]) && Conflicts(ts)[t] == MakeConflict(ts[ps[t].0], ts[ps[t].1]))
    ensures forall s, t :: 0 <= s < t < |ps| ==> PairBefore(ps[s], ps[t])
    ensures forall a, b :: 0 <= a < b < |ts| && Clash(ts[a], ts[b]) ==> (a, b) in ps
  {
    ps := PairsBelow(ts, |ts|);
  }

  /** A conflict is reported for exactly the clashing pairs i < j. */
  lemma ConflictRule(ts: seq<TimetableRow>, c: Conflict)
    ensures c in Conflicts(ts) <==>
      exists i, j :: 0 <= i < j < |ts| && Clash(ts[i], ts[j]) && c == MakeConflict(ts[i], ts[j])
  {
    var ps := ConflictPairs(ts);
    if c in Conflicts(ts) {
      var t :| 0 <= t < |ps| && Conflicts(ts)[t] == c;
      assert Clash(ts[ps[t].0], ts[ps[t].1]);
    }
    if exists i, j :: 0 <= i < j < |ts| && Clash(ts[i], ts[j]) && c == MakeConflict(ts[i], ts[j]) {
      var i, j :| 0 <= i < j < |ts| && Clash(ts[i], ts[j]) && c == MakeConflict(ts[i], ts[j]);
      var t :| 0 <= t < |ps| && ps[t] == (i, j);
    }
  }

  /** Two rows of one cell in different rooms whose faculty are both missing
      are still reported as a conflict. */
  lemma MissingFacultyConflict(ts: seq<TimetableRow>, i: nat, j: nat)
    requires i < j < |ts|
    requires ts[i].day_of_week == ts[j].day_of_week && ts[i].time_slot == ts[j].time_slot
    requires FacultyIdOf(ts[i]).None? && FacultyIdOf(ts[j]).None?
    ensures MakeConflict(ts[i], ts[j]) in Conflicts(ts)
  {
    var ps := ConflictPairs(ts);
    var t :| 0 <= t < |ps| && ps[t] == (i, j);
  }

  // The sort by (day, slot)

  /** The comparator's order: by day, then by slot. */
  predicate CellLeq(a: Conflict, b: Conflict)
  {
    a.day_of_week < b.day_of_week || (a.day_of_week == b.day_of_week && a.time_slot <= b.time_slot)
  }

  predicate SortedByCell(s: seq<Conflict>)
  {
    forall i, j :: 0 <= i < j < |s| ==> CellLeq(s[i], s[j])
  }

  /** Insert x before the first element not strictly before it. */
  function Insert(x: Conflict, ys: seq<Conflict>): seq<Conflict>
  {
    if ys == [] || CellLeq(x, ys[0]) then [x] + ys else [ys[0]] + Insert(x, ys[1..])
  }

  /** `conflicts.sort(...)`: a stable sort by (day, slot). */
  function SortByCell(cs: seq<Conflict>): seq<Conflict>
  {
    if cs == [] then [] else Insert(cs[0], SortByCell(cs[1..]))
  }

  /** The conflicts of one cell, in order. */
  function InCell(s: seq<Conflict>, day: int, slot: int): seq<Conflict>
  {
    if s == [] then []
    else (if s[0].day_of_week == day && s[0].time_slot == slot then [s[0]] else []) + InCell(s[1..], day, slot)
  }

  lemma SortedTail(ys: seq<Conflict>)
    requires SortedByCell(ys) && ys != []
    ensures SortedByCell(ys[1..])
  {
    forall i, j | 0 <= i < j < |ys[1..]| ensures CellLeq(ys[1..][i], ys[1..][j]) {
      assert ys[1..][i] == ys[i + 1] && ys[1..][j] == ys[j + 1];
    }
  }

  lemma {:induction false} InsertMultiset(x: Conflict, ys: seq<Conflict>)
    ensures multiset(Insert(x, ys)) == multiset{x} + multiset(ys)
  {
    if ys != [] && !CellLeq(x, ys[0]) {
      InsertMultiset(x, ys[1..]);
      assert ys == [ys[0]] + ys[1..];
    }
  }

  /** A lower bound of x and of every element of ys bounds the result. */
  lemma {:induction false} InsertLowerBound(z: Conflict, x: Conflict, ys: seq<Conflict>)
    requires CellLeq(z, x) && forall k :: 0 <= k < |ys| ==> CellLeq(z, ys[k])
    ensures forall k :: 0 <= k < |Insert(x, ys)| ==> CellLeq(z, Insert(x, ys)[k])
  {
    if ys != [] && !CellLeq(x, ys[0]) {
      InsertLowerBound(z, x, ys[1..]);
      var r := Insert(x, ys);
      assert r == [ys[0]] + Insert(x, ys[1..]);
      forall k | 0 <= k < |r| ensures CellLeq(z, r[k]) {
        if k > 0 {
          assert r[k] == Insert(x, ys[1..])[k - 1];
        }
      }
    }
  }

  lemma {:induction false} InsertSorted(x: Conflict, ys: seq<Conflict>)
    requires SortedByCell(ys)
    ensures SortedByCell(Insert(x, ys))
  {
    if ys == [] || CellLeq(x, ys[0]) {
      var r := [x] + ys;
      forall i, j | 0 <= i < j < |r| ensures CellLeq(r[i], r[j]) {
        if i > 0 {
          assert r[i] == ys[i - 1] && r[j] == ys[j - 1];
        } else if j > 1 {
          assert r[j] == ys[j - 1] && CellLeq(ys[0], ys[j - 1]);
        }
      }
    } else {
      var rest := Insert(x, ys[1..]);
      var r := [ys[0]] + rest;
      SortedTail(ys);
      InsertSorted(x, ys[1..]);
      InsertLowerBound(ys[0], x, ys[1..]);
      forall i, j | 0 <= i < j < |r| ensures CellLeq(r[i], r[j]) {
        if i > 0 {
          assert r[i] == rest[i - 1] && r[j] == rest[j - 1];
        } else {
          assert r[j] == rest[j - 1];
        }
      }
    }
  }

  /** Inserting x adds it in front of the conflicts of its own cell: those
      already in the list are never strictly before it. */
  lemma {:induction false} InsertInCell(x: Conflict, ys: seq<Conflict>, d: int, t: int)
    requires SortedByCell(ys)
    ensures InCell(Insert(x, ys), d, t) == (if x.day_of_week == d && x.time_slot == t then [x] else []) + InCell(ys, d, t)
  {
    if ys == [] || CellLeq(x, ys[0]) {
      assert ([x] + ys)[1..] == ys;
    } else {
      var rest := Insert(x, ys[1..]);
      SortedTail(ys);
      InsertInCell(x, ys[1..], d, t);
      assert ([ys[0]] + rest)[1..] == rest;
    }
  }

  /** The sort orders by cell, keeps every conflict, and keeps the
      generation order of the conflicts of each cell (stability). */
  lemma {:induction false} SortByCellSpec(cs: seq<Conflict>)
    ensures SortedByCell(SortByCell(cs))
    ensures multiset(SortByCell(cs)) == multiset(cs)
    ensures forall d, t :: InCell(SortByCell(cs), d, t) == InCell(cs, d, t)
  {
    if cs != [] {
      SortByCellSpec(cs[1..]);
      InsertSorted(cs[0], SortByCell(cs[1..]));
      InsertMultiset(cs[0], SortByCell(cs[1..]));
      forall d, t ensures InCell(SortByCell(cs), d, t) == InCell(cs, d, t) {
        InsertInCell(cs[0], SortByCell(cs[1..]), d, t);
      }
      assert cs == [cs[0]] + cs[1..];
    }
  }

  /** `getTimetableConflicts` after the fetch: the pairwise loop, then the sort. */
  method GetTimetableConflicts(timetable: seq<TimetableRow>) returns (conflicts: seq<Conflict>)
    ensures conflicts == SortByCell(Conflicts(timetable))
  {
    conflicts := [];
    for i := 0 to |timetable|
      invariant conflicts == PairConflicts(timetable, i)
    {
      for j := i + 1 to |timetable|
        invariant conflicts == PairConflicts(timetable, i) + RowConflicts(timetable, i, j)
      {
        var t1 := timetable[i];
        var t2 := timetable[j];
        if t1.day_of_week == t2.day_of_week && t1.time_slot == t2.time_slot
           && (t1.room_number == t2.room_number || FacultyIdOf(t1) == FacultyIdOf(t2))
        {
          conflicts := conflicts + [MakeConflict(t1, t2)];
        }
      }
    }
    conflicts := SortByCell(conflicts);
  }

  // ---------------------------------------------------------------------
  // Allocation statistics

  datatype StatsFaculty = StatsFaculty(name: Option<string>, department_name: Option<string>)

  /** An allocation row with its joined faculty member (and department name),
      course name and class semester. */
  datatype StatsRow = StatsRow(faculty: Option<StatsFaculty>, course_name: Option<string>,
                               class_semester: Option<int>)

  datatype Stats = Stats(total_allocations: nat, by_department: map<string, nat>, by_faculty: map<string, nat>,
                         by_semester: map<string, nat>, course_distribution: map<string, nat>)

  /** `s || 'Unknown'` for a string that may be missing or empty. */
  function OrUnknown(s: Option<string>): string
  {
    if s.Some? && s.value != "" then s.value else "Unknown"
  }

  function DepartmentKey(r: StatsRow): string
  {
    OrUnknown(match r.faculty { case None => None case Some(f) => f.department_name })
  }

  function FacultyKey(r: StatsRow): string
  {
    OrUnknown(match r.faculty { case None => None case Some(f) => f.name })
  }

  /** `semester || 'Unknown'` used as an object key: the decimal rendering of a
      non-zero semester. */
  function SemesterKey(r: StatsRow): string
  {
    if r.class_semester.Some? && r.class_semester.value != 0 then IntToString(r.class_semester.value) else "Unknown"
  }

  /** A `by_semester` bucket stands for one semester: two rows with non-zero
      semesters share a key exactly when their semesters are equal, and such a
      key is never the `Unknown` bucket. */
  lemma SemesterKeyIdentifies(r1: StatsRow, r2: StatsRow)
    requires r1.class_semester.Some? && r1.class_semester.value != 0
    requires r2.class_semester.Some? && r2.class_semester.value != 0
    ensures SemesterKey(r1) == SemesterKey(r2) <==> r1.class_semester.value == r2.class_semester.value
    ensures SemesterKey(r1) != "Unknown"
  {
    var v := r1.class_semester.value;
    if SemesterKey(r1) == SemesterKey(r2) {
      IntToStringInjective(v, r2.class_semester.value);
    }
    var k := IntToString(v);
    assert k[0] == '-' || k == NatToString(v);
    assert k[0] != 'U';
  }

  function CourseKey(r: StatsRow): string
  {
    OrUnknown(r.course_name)
  }

  /** `(m[k] || 0)`. */
  function Count(m: map<string, nat>, k: string): nat
  {
    if k in m then m[k] else 0
  }

  /** `obj[k] = (obj[k] || 0) + 1`. */
  function Bump(m: map<string, nat>, k: string): map<string, nat>
  {
    m[k := Count(m, k) + 1]
  }

  /** The counter object after incrementing once per key, in order. */
  function Tally(ks: seq<string>): map<string, nat>
  {
    if ks == [] then map[]
    else Bump(Tally(ks[..|ks| - 1]), ks[|ks| - 1])
  }

  function KeysOf(rows: seq<StatsRow>, key: StatsRow -> string): (ks: seq<string>)
    ensures |ks| == |rows| && forall i :: 0 <= i < |rows| ==> ks[i] == key(rows[i])
  {
    seq(|rows|, i requires 0 <= i < |rows| => key(rows[i]))
  }

  /** The statistics object. */
  function StatsOf(rows: seq<StatsRow>): Stats
  {
    Stats(|rows|, Tally(KeysOf(rows, DepartmentKey)), Tally(KeysOf(rows, FacultyKey)),
          Tally(KeysOf(rows, SemesterKey)), Tally(KeysOf(rows, CourseKey)))
  }

  /** The sum of a counter object's values. */
  ghost function SumValues(m: map<string, nat>): nat
    decreases |m|
  {
    if m == map[] then 0
    else
      var k :| k in m;
      assert |m - {k}| < |m| by {
        assert m.Keys == (m - {k}).Keys + {k};
      }
      m[k] + SumValues(m - {k})
  }

  /** Taking a key out makes the map smaller. */
  lemma RemoveShrinks(m: map<string, nat>, k: string)
    requires k in m
    ensures |m - {k}| < |m|
  {
    assert m.Keys == (m - {k}).Keys + {k};
  }

  /** Two keys can be taken out in either order. */
  lemma RemoveCommutes(m: map<string, nat>, k: string, k': string)
    ensures m - {k'} - {k} == m - {k} - {k'}
  {
  }

  /** The sum does not depend on which key is taken out first. */
  lemma {:induction false} SumValuesRemove(m: map<string, nat>, k: string)
    requires k in m
    ensures SumValues(m) == m[k] + SumValues(m - {k})
    decreases |m|
  {
    var k' :| k' in m && SumValues(m) == m[k'] + SumValues(m - {k'});
    if k' != k {
      RemoveShrinks(m, k');
      RemoveShrinks(m, k);
      var both := m - {k'} - {k};
      RemoveCommutes(m, k, k');
      SumValuesRemove(m - {k'}, k);
      assert SumValues(m - {k'}) == m[k] + SumValues(both);
      SumValuesRemove(m - {k}, k');
      assert SumValues(m - {k}) == m[k'] + SumValues(both);
    }
  }

  /** Each bucket counts the occurrences of its key, and only keys that occur
      have a bucket. */
  lemma {:induction false} TallyCounts(ks: seq<string>, k: string)
    ensures Count(Tally(ks), k) == multiset(ks)[k]
    ensures k in Tally(ks) <==> k in ks
  {
    if ks != [] {
      var init := ks[..|ks| - 1];
      TallyCounts(init, k);
      assert ks == init + [ks[|ks| - 1]];
    }
  }

  /** The buckets' counts sum to the number of keys. */
  lemma {:induction false} TallyTotal(ks: seq<string>)
    ensures SumValues(Tally(ks)) == |ks|
  {
    if ks != [] {
      var init := ks[..|ks| - 1];
      var k := ks[|ks| - 1];
      var m := Tally(init);
      TallyTotal(init);
      var m' := m[k := Count(m, k) + 1];
      SumValuesRemove(m', k);
      assert m' - {k} == m - {k};
      assert SumValues(m') == Count(m, k) + 1 + SumValues(m - {k});
      if k in m {
        SumValuesRemove(m, k);
        assert SumValues(m) == Count(m, k) + SumValues(m - {k});
      } else {
        assert m - {k} == m;
      }
      assert ks == init + [k];
      assert Tally(ks) == m';
    }
  }

  /** Each of the four breakdowns sums to `total_allocations`, which is the
      number of rows. */
  lemma StatsSumToTotal(rows: seq<StatsRow>)
    ensures var s := StatsOf(rows);
      s.total_allocations == |rows|
      && SumValues(s.by_department) == s.total_allocations && SumValues(s.by_faculty) == s.total_allocations
      && SumValues(s.by_semester) == s.total_allocations && SumValues(s.course_distribution) == s.total_allocations
  {
    TallyTotal(KeysOf(rows, DepartmentKey));
    TallyTotal(KeysOf(rows, FacultyKey));
    TallyTotal(KeysOf(rows, SemesterKey));
    TallyTotal(KeysOf(rows, CourseKey));
  }

  /** One more row increments its key's bucket. */
  lemma TallyStep(rows: seq<StatsRow>, key: StatsRow -> string, i: nat)
    requires i < |rows|
    ensures Tally(KeysOf(rows[..i + 1], key)) == Bump(Tally(KeysOf(rows[..i], key)), key(rows[i]))
  {
    var ks := KeysOf(rows[..i + 1], key);
    assert ks[..|ks| - 1] == KeysOf(rows[..i], key);
  }

  /** The statistics loop of `getAllocationStats`. */
  method GetAllocationStats(allocations: seq<StatsRow>) returns (stats: Stats)
    ensures stats == StatsOf(allocations)
  {
    var byDepartment: map<string, nat> := map[];
    var byFaculty: map<string, nat> := map[];
    var bySemester: map<string, nat> := map[];
    var courseDistribution: map<string, nat> := map[];
    for i := 0 to |allocations|
      invariant byDepartment == Tally(KeysOf(allocations[..i], DepartmentKey))
      invariant byFaculty == Tally(KeysOf(allocations[..i], FacultyKey))
      invariant bySemester == Tally(KeysOf(allocations[..i], SemesterKey))
      invariant courseDistribution == Tally(KeysOf(allocations[..i], CourseKey))
    {
      var allocation := allocations[i];
      TallyStep(allocations, DepartmentKey, i);
      TallyStep(allocations, FacultyKey, i);
      TallyStep(allocations, SemesterKey, i);
      TallyStep(allocations, CourseKey, i);
      var dept := DepartmentKey(allocation);
      byDepartment := Bump(byDepartment, dept);
      var faculty := FacultyKey(allocation);
      byFaculty := Bump(byFaculty, faculty);
      var semester := SemesterKey(allocation);
      bySemester := Bump(bySemester, semester);
      var course := CourseKey(allocation);
      courseDistribution := Bump(courseDistribution, course);
    }
    assert allocations[..|allocations|] == allocations;
    stats := Stats(|allocations|, byDepartment, byFaculty, bySemester, courseDistribution);
  }

  // ---------------------------------------------------------------------
  // Faculty workload

  datatype CourseRef = CourseRef(name: Option<string>, credits: Option<int>)

  datatype WorkloadAllocation = WorkloadAllocation(course: Option<CourseRef>)

  datatype FacultyWorkloadRow = FacultyWorkloadRow(id: int, name: Option<string>, designation: Option<string>,
                                                   department_name: Option<string>,
                                                   allocations: Option<seq<WorkloadAllocation>>)

  datatype Workload = Workload(id: int, faculty_name: Option<string>, designation: Option<string>,
                               department_name: Option<string>, total_courses: nat, total_credits: int,
                               courses: seq<Option<string>>)

  /** `a.courses?.name`. */
  function CourseNameOf(a: WorkloadAllocation): Option<string>
  {
    match a.course { case None => None case Some(c) => c.name }
  }

  /** `a.courses?.credits || 0`. */
  function CreditsOf(a: WorkloadAllocation): int
  {
    match a.course
    case None => 0
    case Some(c) => match c.credits { case None => 0 case Some(n) => n }
  }

  /** `reduce((sum, a) => sum + credits, 0)`: a left fold. */
  function CreditsReduce(allocations: seq<WorkloadAllocation>): int
  {
    if allocations == [] then 0
    else CreditsReduce(allocations[..|allocations| - 1]) + CreditsOf(allocations[|allocations| - 1])
  }

  /** The plain sum of the credits, first to last. */
  function TotalCredits(allocations: seq<WorkloadAllocation>): int
  {
    if allocations == [] then 0 else CreditsOf(allocations[0]) + TotalCredits(allocations[1..])
  }

  lemma {:induction false} TotalCreditsAppend(a: seq<WorkloadAllocation>, b: seq<WorkloadAllocation>)
    ensures TotalCredits(a + b) == TotalCredits(a) + TotalCredits(b)
  {
    if a != [] {
      assert (a + b)[1..] == a[1..] + b;
      TotalCreditsAppend(a[1..], b);
    } else {
      assert a + b == b;
    }
  }

  /** The fold computes the sum of the credits, missing ones counting as 0. */
  lemma {:induction false} CreditsReduceIsSum(allocations: seq<WorkloadAllocation>)
    ensures CreditsReduce(allocations) == TotalCredits(allocations)
  {
    if allocations != [] {
      var init := allocations[..|allocations| - 1];
      var last := allocations[|allocations| - 1];
      CreditsReduceIsSum(init);
      TotalCreditsAppend(init, [last]);
      assert allocations == init + [last];
    }
  }

  function CourseNames(allocations: seq<WorkloadAllocation>): (names: seq<Option<string>>)
    ensures |names| == |allocations| && forall i :: 0 <= i < |allocations| ==> names[i] == CourseNameOf(allocations[i])
  {
    seq(|allocations|, i requires 0 <= i < |allocations| => CourseNameOf(allocations[i]))
  }

  /** One row of the workload report. */
  function FacultyWorkload(f: FacultyWorkloadRow): (w: Workload)
    ensures w.total_courses == |w.courses|
    ensures NoDuplicates(w.courses)
    ensures f.allocations.None? ==> w.courses == [] && w.total_credits == 0
    ensures f.allocations.Some? ==> var names := CourseNames(f.allocations.value);
      (forall i :: 0 <= i < |w.courses| ==> w.courses[i] in names)
      && (forall i :: 0 <= i < |names| ==> names[i] in w.courses)
    ensures f.allocations.Some? ==> ListsDistinct(CourseNames(f.allocations.value), w.courses)
    ensures w.id == f.id && w.faculty_name == f.name
  {
    var allocations := if f.allocations.Some? then f.allocations.value else [];
    var uniqueCourses := Distinct(CourseNames(allocations));
    Workload(f.id, f.name, f.designation, f.department_name, |uniqueCourses|, CreditsReduce(allocations),
             uniqueCourses)
  }

  /** `total_courses` is the number of distinct course names, and
      `total_credits` the sum of the credits with missing ones as 0. */
  lemma WorkloadTotals(f: FacultyWorkloadRow)
    requires f.allocations.Some?
    ensures FacultyWorkload(f).total_courses == |set n | n in CourseNames(f.allocations.value)|
    ensures FacultyWorkload(f).total_credits == TotalCredits(f.allocations.value)
  {
    DistinctSize(CourseNames(f.allocations.value));
    CreditsReduceIsSum(f.allocations.value);
  }

  /** The workload report: one row per faculty member, in the fetched order. */
  function WorkloadReport(faculty: seq<FacultyWorkloadRow>): (r: seq<Workload>)
    ensures |r| == |faculty|
    ensures forall i :: 0 <= i < |faculty| ==>
      && r[i].id == faculty[i].id && r[i].faculty_name == faculty[i].name
      && r[i].designation == faculty[i].designation && r[i].department_name == faculty[i].department_name
      && r[i].total_courses == |r[i].courses| && NoDuplicates(r[i].courses)
  {
    seq(|faculty|, i requires 0 <= i < |faculty| => FacultyWorkload(faculty[i]))
  }

  /** Row `i` of the workload report describes faculty member `i`: its
      courses are the distinct course names of the member's allocations in
      first-occurrence order, `total_courses` counts them, and
      `total_credits` sums the credits, missing ones as 0; a member without
      allocations gets no courses and no credits. */
  lemma WorkloadReportRow(faculty: seq<FacultyWorkloadRow>, i: nat)
    requires i < |faculty|
    ensures var w := WorkloadReport(faculty)[i];
      var allocations := if faculty[i].allocations.Some? then faculty[i].allocations.value else [];
      && w.id == faculty[i].id && w.faculty_name == faculty[i].name
      && ListsDistinct(CourseNames(allocations), w.courses)
      && w.total_courses == |set n | n in CourseNames(allocations)|
      && w.total_credits == TotalCredits(allocations)
  {
    var allocations := if faculty[i].allocations.Some? then faculty[i].allocations.value else [];
    DistinctSize(CourseNames(allocations));
    CreditsReduceIsSum(allocations);
  }

  // ---------------------------------------------------------------------
  // Course report

  /** `a.faculty`, with its id and name. */
  datatype CourseAllocation = CourseAllocation(faculty: Option<FacultyRef>)

  datatype CourseRow = CourseRow(id: int, code: Option<string>, name: Option<string>, semester: Option<int>,
                                 credits: Option<int>, department_name: Option<string>,
                                 allocations: Option<seq<CourseAllocation>>)

  datatype CourseReportEntry = CourseReportEntry(id: int, code: Option<string>, course_name: Option<string>,
                                                 semester: Option<int>, credits: Option<int>,
                                                 department_name: Option<string>, total_allocations: nat,
                                                 unique_faculty_count: nat, faculty_assigned: seq<string>)

  /** `a.faculty?.id`. */
  function AllocationFacultyId(a: CourseAllocation): Option<int>
  {
    match a.faculty { case None => None case Some(f) => Some(f.id) }
  }

  /** `a.faculty?.name`, kept only when truthy (present and non-empty). */
  predicate HasFacultyName(a: CourseAllocation)
  {
    a.faculty.Some? && a.faculty.value.name.Some? && a.faculty.value.name.value != ""
  }

  function FacultyIds(allocations: seq<CourseAllocation>): (ids: seq<Option<int>>)
    ensures |ids| == |allocations| && forall i :: 0 <= i < |allocations| ==> ids[i] == AllocationFacultyId(allocations[i])
  {
    seq(|allocations|, i requires 0 <= i < |allocations| => AllocationFacultyId(allocations[i]))
  }

  /** `.map(a => a.faculty?.name).filter(Boolean)`. */
  function FacultyNames(allocations: seq<CourseAllocation>): (names: seq<string>)
    ensures forall i :: 0 <= i < |names| ==> names[i] != ""
  {
    if allocations == [] then []
    else
      var a := allocations[|allocations| - 1];
      FacultyNames(allocations[..|allocations| - 1]) + (if HasFacultyName(a) then [a.faculty.value.name.value] else [])
  }

  /** The truthy names are exactly the allocations' present, non-empty
      faculty names. */
  lemma {:induction false} FacultyNamesSpec(allocations: seq<CourseAllocation>, n: string)
    ensures n in FacultyNames(allocations) <==>
      exists i :: 0 <= i < |allocations| && HasFacultyName(allocations[i]) && allocations[i].faculty.value.name.value == n
  {
    if allocations != [] {
      var init := allocations[..|allocations| - 1];
      FacultyNamesSpec(init, n);
      assert forall i :: 0 <= i < |init| ==> init[i] == allocations[i];
    }
  }

  /** One row of the course report. */
  function CourseReport(c: CourseRow): (r: CourseReportEntry)
    ensures NoDuplicates(r.faculty_assigned)
    ensures forall i :: 0 <= i < |r.faculty_assigned| ==> r.faculty_assigned[i] != ""
    ensures c.allocations.None? ==> r.total_allocations == 0 && r.unique_faculty_count == 0 && r.faculty_assigned == []
    ensures c.allocations.Some? ==> r.total_allocations == |c.allocations.value|
    ensures r.id == c.id && r.code == c.code && r.course_name == c.name
  {
    var allocations := if c.allocations.Some? then c.allocations.value else [];
    var uniqueFaculty := Distinct(FacultyIds(allocations));
    var facultyNames := Distinct(FacultyNames(allocations));
    CourseReportEntry(c.id, c.code, c.name, c.semester, c.credits, c.department_name, |allocations|,
                      |uniqueFaculty|, facultyNames)
  }

  /** `unique_faculty_count` is the number of distinct faculty ids (a missing
      faculty counting as one more value), and `faculty_assigned` lists the
      distinct truthy names in the order they first occur. */
  lemma CourseReportSpec(c: CourseRow)
    requires c.allocations.Some?
    ensures CourseReport(c).unique_faculty_count == |set id | id in FacultyIds(c.allocations.value)|
    ensures var names := FacultyNames(c.allocations.value);
      var listed := CourseReport(c).faculty_assigned;
      (forall i :: 0 <= i < |listed| ==> listed[i] in names)
      && (forall i :: 0 <= i < |names| ==> names[i] in listed)
      && (forall a, b :: 0 <= a < b < |listed| ==> FirstIndex(names, listed[a]) < FirstIndex(names, listed[b]))
  {
    DistinctSize(FacultyIds(c.allocations.value));
  }

  /** The course report: one row per course, in the fetched order. */
  function CourseReportOf(courses: seq<CourseRow>): (r: seq<CourseReportEntry>)
    ensures |r| == |courses|
    ensures forall i :: 0 <= i < |courses| ==>
      && r[i].id == courses[i].id && r[i].code == courses[i].code && r[i].course_name == courses[i].name
      && NoDuplicates(r[i].faculty_assigned)
      && (courses[i].allocations.None? ==> r[i].total_allocations == 0 && r[i].unique_faculty_count == 0)
      && (courses[i].allocations.Some? ==> r[i].total_allocations == |courses[i].allocations.value|)
  {
    seq(|courses|, i requires 0 <= i < |courses| => CourseReport(courses[i]))
  }

  /** Row `i` of the course report describes course `i`: it counts the
      course's allocations and its distinct faculty ids, and lists the
      distinct truthy faculty names in first-occurrence order; a course
      without allocations gets zero counts and no names. */
  lemma CourseReportRow(courses: seq<CourseRow>, i: nat)
    requires i < |courses|
    ensures var e := CourseReportOf(courses)[i];
      var allocations := if courses[i].allocations.Some? then courses[i].allocations.value else [];
      && e.id == courses[i].id && e.course_name == courses[i].name
      && e.total_allocations == |allocations|
      && e.unique_faculty_count == |set id | id in FacultyIds(allocations)|
      && ListsDistinct(FacultyNames(allocations), e.faculty_assigned)
  {
    var allocations := if courses[i].allocations.Some? then courses[i].allocations.value else [];
    DistinctSize(FacultyIds(allocations));
  }
}
