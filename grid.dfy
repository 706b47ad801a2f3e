/** The timetable page's grid: one row per time slot, one column per weekday,
    each cell holding the entry shown there or nothing. */
module TimetableGrid {
  import opened Wrappers
  import opened Entities
  import opened Seqs
  import Scheduler

  /** The page's column headings. */
  const DAY_NAMES: seq<string> := ["Monday", "Tuesday", "Wednesday", "Thursday", "Friday"]

  /** The page's row headings. */
  const SLOT_LABELS: seq<string> := [
    "9:00 AM - 10:00 AM",
    "10:00 AM - 11:00 AM",
    "11:00 AM - 12:00 PM",
    "12:00 PM - 1:00 PM",
    "1:00 PM - 2:00 PM",
    "2:00 PM - 3:00 PM",
    "3:00 PM - 4:00 PM",
    "4:00 PM - 5:00 PM"
  ]

  /** Day 1..5 goes to column day-1 and slot 1..8 to row slot-1. */
  predicate MapsTo(e: TimetableEntry, row: int, col: int)
  {
    e.time_slot - 1 == row && e.day_of_week - 1 == col
  }

  /** The range test before an entry is stored. */
  predicate Shown(e: TimetableEntry)
  {
    0 <= e.day_of_week - 1 < |DAY_NAMES| && 0 <= e.time_slot - 1 < |SLOT_LABELS|
  }

  /** A cell of the grid. */
  predicate IsCell(row: int, col: int)
  {
    0 <= row < |SLOT_LABELS| && 0 <= col < |DAY_NAMES|
  }

  /** The cell's content after storing the entries in order: the later entry
      for a cell replaces the earlier one. */
  function CellEntry(entries: seq<TimetableEntry>, row: int, col: int): (r: Option<TimetableEntry>)
    ensures IsCell(row, col) ==> (r.None? <==> forall k :: 0 <= k < |entries| ==> !MapsTo(entries[k], row, col))
    ensures r.Some? ==> r.value in entries && MapsTo(r.value, row, col)
  {
    if entries == [] then None
    else
      var init := entries[..|entries| - 1];
      var last := entries[|entries| - 1];
      assert forall k :: 0 <= k < |init| ==> init[k] == entries[k];
      if Shown(last) && MapsTo(last, row, col) then Some(last)
      else CellEntry(init, row, col)
  }

  /** `buildTimetableGrid`: a null-filled 8 x 5 array, and each entry whose day
      and slot are in range stored at `grid[slot - 1][day - 1]`. */
  method BuildTimetableGrid(entries: seq<TimetableEntry>) returns (grid: array2<Option<TimetableEntry>>)
    ensures fresh(grid)
    ensures grid.Length0 == |SLOT_LABELS| && grid.Length1 == |DAY_NAMES|
    ensures forall row, col :: IsCell(row, col) ==> grid[row, col] == CellEntry(entries, row, col)
  {
    grid := new Option<TimetableEntry>[|SLOT_LABELS|, |DAY_NAMES|]((row, col) => None);
    for k := 0 to |entries|
      invariant forall row, col :: IsCell(row, col) ==> grid[row, col] == CellEntry(entries[..k], row, col)
    {
      var entry := entries[k];
      var dayIndex := entry.day_of_week - 1;
      var slotIndex := entry.time_slot - 1;
      assert entries[..k + 1][..k] == entries[..k];
      if 0 <= dayIndex < |DAY_NAMES| && 0 <= slotIndex < |SLOT_LABELS| {
        grid[slotIndex, dayIndex] := Some(entry);
      }
    }
    assert entries[..|entries|] == entries;
  }

  /** The entry a cell shows is the last one that maps to it. */
  lemma {:induction false} CellEntryIsLast(entries: seq<TimetableEntry>, row: int, col: int) returns (k: nat)
    requires IsCell(row, col) && CellEntry(entries, row, col).Some?
    ensures k < |entries| && CellEntry(entries, row, col) == Some(entries[k]) && MapsTo(entries[k], row, col)
    ensures forall k' :: k < k' < |entries| ==> !MapsTo(entries[k'], row, col)
  {
    var init := entries[..|entries| - 1];
    var last := entries[|entries| - 1];
    if MapsTo(last, row, col) {
      k := |entries| - 1;
    } else {
      k := CellEntryIsLast(init, row, col);
      assert forall k' :: k < k' < |init| ==> init[k'] == entries[k'];
    }
  }

  /** Conversely, the last entry that maps to a cell is the one shown there. */
  lemma {:induction false} LastEntryIsShown(entries: seq<TimetableEntry>, k: nat, row: int, col: int)
    requires IsCell(row, col) && k < |entries| && MapsTo(entries[k], row, col)
    requires forall k' :: k < k' < |entries| ==> !MapsTo(entries[k'], row, col)
    ensures CellEntry(entries, row, col) == Some(entries[k])
  {
    if k < |entries| - 1 {
      var init := entries[..|entries| - 1];
      assert init[k] == entries[k];
      assert forall k' :: k < k' < |init| ==> init[k'] == entries[k'];
      LastEntryIsShown(init, k, row, col);
    }
  }

  /** The entries in order with the out-of-range ones dropped. */
  function InRange(entries: seq<TimetableEntry>): (r: seq<TimetableEntry>)
    ensures forall k :: 0 <= k < |r| ==> Shown(r[k]) && r[k] in entries
  {
    if entries == [] then []
    else
      var init := entries[..|entries| - 1];
      var last := entries[|entries| - 1];
      assert forall e :: e in init ==> e in entries;
      InRange(init) + (if Shown(last) then [last] else [])
  }

  /** `InRange` is `Filter` with the in-range test. */
  lemma {:induction false} InRangeIsFilter(entries: seq<TimetableEntry>, p: TimetableEntry -> bool)
    requires forall e :: p(e) == Shown(e)
    ensures InRange(entries) == Filter(entries, p)
  {
    if entries != [] {
      InRangeIsFilter(entries[..|entries| - 1], p);
    }
  }

  /** The in-range entries are exactly the shown ones, kept in their order:
      the subsequence of `entries` at the strictly increasing indices `idx`,
      which include every index whose entry is shown. */
  lemma InRangeOrder(entries: seq<TimetableEntry>) returns (idx: seq<nat>)
    ensures |idx| == |InRange(entries)|
    ensures forall t :: 0 <= t < |idx| ==> idx[t] < |entries| && entries[idx[t]] == InRange(entries)[t]
    ensures forall s, t :: 0 <= s < t < |idx| ==> idx[s] < idx[t]
    ensures forall k :: 0 <= k < |entries| && Shown(entries[k]) ==> k in idx
    ensures forall e :: e in entries && Shown(e) ==> e in InRange(entries)
  {
    var p := (e: TimetableEntry) => Shown(e);
    InRangeIsFilter(entries, p);
    idx := FilterOrder(entries, p);
    forall e | e in entries && Shown(e) ensures e in InRange(entries) {
      var k :| 0 <= k < |entries| && entries[k] == e;
      var t :| 0 <= t < |idx| && idx[t] == k;
      assert InRange(entries)[t] == e;
    }
  }

  /** Storing one more entry changes only the cell it maps to. */
  lemma CellEntrySnoc(init: seq<TimetableEntry>, last: TimetableEntry, row: int, col: int)
    ensures CellEntry(init + [last], row, col) ==
      if Shown(last) && MapsTo(last, row, col) then Some(last) else CellEntry(init, row, col)
  {
    assert (init + [last])[..|init|] == init;
  }

  /** The filter on one more entry. */
  lemma InRangeSnoc(init: seq<TimetableEntry>, last: TimetableEntry)
    ensures InRange(init + [last]) == InRange(init) + (if Shown(last) then [last] else [])
  {
    assert (init + [last])[..|init|] == init;
  }

  /** Out-of-range entries are ignored: the grid is the same without them. */
  lemma {:induction false} OutOfRangeIgnored(entries: seq<TimetableEntry>, row: int, col: int)
    requires IsCell(row, col)
    ensures CellEntry(entries, row, col) == CellEntry(InRange(entries), row, col)
  {
    if entries != [] {
      var init := entries[..|entries| - 1];
      var last := entries[|entries| - 1];
      assert entries == init + [last];
      var ir := InRange(init);
      OutOfRangeIgnored(init, row, col);
      CellEntrySnoc(init, last, row, col);
      InRangeSnoc(init, last);
      if Shown(last) {
        CellEntrySnoc(ir, last, row, col);
        assert InRange(entries) == ir + [last];
        if MapsTo(last, row, col) {
          assert CellEntry(entries, row, col) == Some(last) == CellEntry(ir + [last], row, col);
        } else {
          assert CellEntry(entries, row, col) == CellEntry(init, row, col) == CellEntry(ir + [last], row, col);
        }
      } else {
        assert InRange(entries) == ir;
        assert CellEntry(entries, row, col) == CellEntry(init, row, col);
      }
    }
  }

  /** The page has the generator's grid: five days and eight slots, so every
      entry the generator creates is in range and its cell is not empty. */
  lemma GeneratedEntriesShown(allocations: seq<Allocation>, classes: seq<Class>)
    ensures |DAY_NAMES| == Scheduler.DAYS && |SLOT_LABELS| == Scheduler.TIME_SLOTS
    ensures forall t :: 0 <= t < |Scheduler.Timetable(allocations, classes)| ==>
      var e := Scheduler.Timetable(allocations, classes)[t];
      Shown(e) && CellEntry(Scheduler.Timetable(allocations, classes), e.time_slot - 1, e.day_of_week - 1).Some?
  {
    Scheduler.EntriesInGrid(allocations, classes);
  }
}
