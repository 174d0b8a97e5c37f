/**
 * The scheduling state of the planner window: the ordered list of entries
 * and the operations behind the Add, Edit, Delete and export buttons, with
 * the form fields and the selected table row passed in as parameters.
 */
module Schedule {
  import opened Wrappers
  import opened Clock
  import opened Text
  import opened Entries

  /** The grid columns after the slot label, in display order. */
  const Days: seq<string> :=
    ["Monday", "Tuesday", "Wednesday", "Thursday", "Friday", "Saturday", "Sunday"]

  /** How the Add button ends. */
  datatype AddOutcome =
    | Added
    | MissingField       // "All fields are required."
    | InvalidTime        // "Invalid time format."
    | EndNotAfterStart   // "End time must be after start time."
    | AddOverlaps        // "Time slot overlaps with existing entry."

  /** How the Edit button ends. */
  datatype EditOutcome =
    | Edited(index: nat)
    | NoSelection        // no table row selected: nothing happens
    | NoMatchingRow      // the selected tuple is not stored: `next` raises
    | EditOverlaps       // "Time slot overlaps with existing entry."

  /** One exported grid row: the slot label and one cell per day. */
  datatype GridRow = GridRow(slot: Slot, cells: seq<string>)

  /** The four form fields hold something (the activity after trimming). */
  predicate FieldsPresent(day: string, start: TimeField, end: TimeField, activity: string)
  {
    day != [] && !start.Blank? && !end.Blank? && Trim(activity) != []
  }

  class ScheduleApp {
    /** `self.entries`, in insertion (display) order. */
    var entries: seq<Entry>

    constructor ()
      ensures entries == []
    {
      entries := [];
    }

    /** `has_overlap(new_entry, exclude_index)`: a scan of the stored
        entries, skipping position `exclude`, for one that conflicts. */
    method HasOverlap(c: Entry, exclude: Option<nat>) returns (r: bool)
      ensures r <==> HasConflict(entries, c, exclude)
    {
      for i := 0 to |entries|
        invariant forall k :: 0 <= k < i && Some(k) != exclude ==> !Conflicts(c, entries[k])
      {
        var e := entries[i];
        if exclude == Some(i) {
          // skipped
        } else if e.day != c.day {
          // another day
        } else if c.start < e.end && c.end > e.start {
          return true;
        }
      }
      return false;
    }

    /** `add_entry`: validate the form, then append the new entry. */
    method AddEntry(day: string, start: TimeField, end: TimeField, activity: string)
      returns (outcome: AddOutcome)
      modifies this
      ensures outcome == MissingField <==> !FieldsPresent(day, start, end, activity)
      ensures outcome == InvalidTime <==>
        FieldsPresent(day, start, end, activity) && (start.Malformed? || end.Malformed?)
      ensures outcome == EndNotAfterStart <==>
        FieldsPresent(day, start, end, activity) && start.At? && end.At?
        && start.minute >= end.minute
      ensures outcome == AddOverlaps <==>
        FieldsPresent(day, start, end, activity) && start.At? && end.At?
        && start.minute < end.minute
        && HasConflict(old(entries), Entry(day, start.minute, end.minute, Trim(activity)), None)
      ensures outcome == Added ==>
        start.At? && end.At?
        && entries == old(entries) + [Entry(day, start.minute, end.minute, Trim(activity))]
      ensures outcome != Added ==> entries == old(entries)
      ensures old(NoOverlap(entries)) ==> NoOverlap(entries)
    {
      var act := Trim(activity);
      if day == [] || start.Blank? || end.Blank? || act == [] {
        return MissingField;
      }
      if start.Malformed? || end.Malformed? {
        return InvalidTime;
      }
      if start.minute >= end.minute {
        return EndNotAfterStart;
      }
      var e := Entry(day, start.minute, end.minute, act);
      var clash := HasOverlap(e, None);
      if clash {
        return AddOverlaps;
      }
      if NoOverlap(entries) {
        AppendKeepsNoOverlap(entries, e);
      }
      entries := entries + [e];
      return Added;
    }

    /** `edit_entry`: replace the first stored copy of the selected row by
        the form's values, unless they conflict with another entry. The
        fields are not re-validated; the activity is trimmed. */
    method EditEntry(selected: Option<Entry>, day: string, start: Minute, end: Minute, activity: string)
      returns (outcome: EditOutcome)
      modifies this
      ensures outcome == NoSelection <==> selected.None?
      ensures outcome == NoMatchingRow <==> selected.Some? && selected.value !in old(entries)
      ensures outcome == EditOverlaps <==>
        selected.Some? && FirstIndex(old(entries), selected.value).Some?
        && HasConflict(old(entries), Entry(day, start, end, Trim(activity)),
                       FirstIndex(old(entries), selected.value))
      ensures outcome.Edited? ==>
        selected.Some? && FirstIndex(old(entries), selected.value) == Some(outcome.index)
        && outcome.index < |old(entries)|
        && entries == old(entries)[outcome.index := Entry(day, start, end, Trim(activity))]
      ensures !outcome.Edited? ==> entries == old(entries)
      ensures old(NoOverlap(entries)) ==> NoOverlap(entries)
    {
      if selected.None? {
        return NoSelection;
      }
      var found := FirstIndex(entries, selected.value);
      if found.None? {
        return NoMatchingRow;
      }
      var index := found.value;
      var e := Entry(day, start, end, Trim(activity));
      var clash := HasOverlap(e, Some(index));
      if clash {
        return EditOverlaps;
      }
      if NoOverlap(entries) {
        ReplaceKeepsNoOverlap(entries, index, e);
      }
      entries := entries[index := e];
      return Edited(index);
    }

    /** `delete_entry`: drop every stored copy of the selected row. */
    method DeleteEntry(selected: Option<Entry>)
      modifies this
      ensures selected.None? ==> entries == old(entries)
      ensures selected.Some? ==> entries == Without(old(entries), selected.value)
      ensures old(NoOverlap(entries)) ==> NoOverlap(entries)
    {
      if selected.None? {
        return;
      }
      if NoOverlap(entries) {
        WithoutKeepsNoOverlap(entries, selected.value);
      }
      entries := Without(entries, selected.value);
    }

    /** `get_activity_for_slot`: the activity of the first entry on `day`
        whose interval contains the whole slot, or "". */
    method ActivityForSlot(day: string, slot: Slot) returns (cell: string)
      ensures cell == CellLabel(entries, day, slot)
      ensures (forall k :: 0 <= k < |entries| ==> !Covers(entries[k], day, slot)) ==> cell == ""
      ensures forall k ::
        (0 <= k < |entries| && Covers(entries[k], day, slot)
         && forall j :: 0 <= j < k ==> !Covers(entries[j], day, slot))
        ==> cell == entries[k].activity
    {
      for i := 0 to |entries|
        invariant forall k :: 0 <= k < i ==> !Covers(entries[k], day, slot)
      {
        var e := entries[i];
        if e.day != day {
          // another day
        } else if e.start <= slot.start && e.end >= slot.end {
          return e.activity;
        }
      }
      return "";
    }

    /** `generate_grid_data`: one row per half-hour slot from 7:00 AM to
        8:00 PM, each with the cell of every day in Monday..Sunday order,
        and the column headers. Reads the entries, changes nothing. */
    method GenerateGridData() returns (grid: seq<GridRow>, columns: seq<string>)
      ensures columns == ["Time Slot"] + Days
      ensures |grid| == 26
      ensures forall k :: 0 <= k < |grid| ==>
        grid[k].slot == SlotAt(k) && |grid[k].cells| == |Days|
      ensures forall k, d :: 0 <= k < |grid| && 0 <= d < |Days| ==>
        grid[k].cells[d] == CellLabel(entries, Days[d], SlotAt(k))
    {
      var slots := TimeSlots();
      grid := [];
      for k := 0 to |slots|
        invariant |grid| == k
        invariant forall n :: 0 <= n < k ==> grid[n].slot == SlotAt(n) && |grid[n].cells| == |Days|
        invariant forall n, d :: 0 <= n < k && 0 <= d < |Days| ==>
          grid[n].cells[d] == CellLabel(entries, Days[d], SlotAt(n))
      {
        var cells: seq<string> := [];
        for d := 0 to |Days|
          invariant |cells| == d
          invariant forall j :: 0 <= j < d ==> cells[j] == CellLabel(entries, Days[j], SlotAt(k))
        {
          var c := ActivityForSlot(Days[d], slots[k]);
          cells := cells + [c];
        }
        grid := grid + [GridRow(slots[k], cells)];
      }
      columns := ["Time Slot"] + Days;
    }
  }
}

/**
 * A client of the store, reasoning only from the contracts above: a
 * 9:00-10:30 meeting fills exactly the three grid cells it spans, an entry
 * that only partly covers a cell leaves it empty, an entry that touches the
 * meeting is accepted and one that cuts into it is refused, and edits and
 * deletes behave as the table row selection demands.
 */
module Scenarios {
  import opened Wrappers
  import opened Clock
  import opened Text
  import opened Entries
  import opened Schedule

  /** The meeting fills the three half-hour cells it spans, and neither the
      cell before nor the cell after it, nor any cell of another day. */
  method MeetingCells()
  {
    var meeting := Entry("Monday", 540, 630, "Meeting");
    var app := new ScheduleApp();
    app.entries := [meeting];

    var c := app.ActivityForSlot("Monday", Slot(510, 540));
    assert c == "";
    c := app.ActivityForSlot("Monday", Slot(540, 570));
    assert Covers(app.entries[0], "Monday", Slot(540, 570));
    assert c == "Meeting";
    c := app.ActivityForSlot("Monday", Slot(570, 600));
    assert Covers(app.entries[0], "Monday", Slot(570, 600));
    assert c == "Meeting";
    c := app.ActivityForSlot("Monday", Slot(600, 630));
    assert Covers(app.entries[0], "Monday", Slot(600, 630));
    assert c == "Meeting";
    c := app.ActivityForSlot("Monday", Slot(630, 660));
    assert c == "";
    c := app.ActivityForSlot("Tuesday", Slot(540, 570));
    assert c == "";
  }

  /** A 9:00-9:45 entry covers the 9:00 cell but only part of the 9:30 cell,
      which therefore stays empty. */
  method PartialCoverEmpty()
  {
    var standup := Entry("Tuesday", 540, 585, "Standup");
    var app := new ScheduleApp();
    app.entries := [standup];

    var c := app.ActivityForSlot("Tuesday", Slot(540, 570));
    assert Covers(app.entries[0], "Tuesday", Slot(540, 570));
    assert c == "Standup";
    c := app.ActivityForSlot("Tuesday", Slot(570, 600));
    assert c == "";
  }

  /** An entry that starts when another ends, on the same day, is accepted. */
  method BackToBack()
  {
    var meeting := Entry("Monday", 540, 630, "Meeting");
    var app := new ScheduleApp();
    app.entries := [meeting];
    TrimKeeps("Lunch");
    var lunch := Entry("Monday", 630, 690, "Lunch");
    assert !Conflicts(lunch, meeting);
    var o := app.AddEntry("Monday", At(630), At(690), "Lunch");
    assert o != AddOverlaps;
    assert o == Added && app.entries == [meeting] + [lunch];
  }

  /** An entry that cuts into another is refused and changes nothing. */
  method OverlapRefused()
  {
    var meeting := Entry("Monday", 540, 630, "Meeting");
    var app := new ScheduleApp();
    app.entries := [meeting];
    TrimKeeps("Call");
    var call := Entry("Monday", 600, 660, "Call");
    assert HasConflict(app.entries, call, None) by {
      assert Conflicts(call, app.entries[0]);
    }
    var o := app.AddEntry("Monday", At(600), At(660), "Call");
    assert o == AddOverlaps && app.entries == [meeting];
  }

  /** An empty interval and a blank activity are refused. */
  method InvalidFieldsRefused()
  {
    var app := new ScheduleApp();
    TrimKeeps("Call");
    var o := app.AddEntry("Monday", At(700), At(700), "Call");
    assert o == EndNotAfterStart && app.entries == [];
    assert Trim("   ") == [] by { assert AllSpace("   "); }
    o := app.AddEntry("Monday", At(700), At(720), "   ");
    assert o == MissingField && app.entries == [];
    o := app.AddEntry("Monday", Malformed, At(720), "Call");
    assert o == InvalidTime && app.entries == [];
  }

  /** An edit may overlap the entry it replaces. */
  method EditSelfOverlap()
  {
    var meeting := Entry("Monday", 540, 630, "Meeting");
    var app := new ScheduleApp();
    app.entries := [meeting];
    TrimKeeps("Review");
    var r := app.EditEntry(Some(meeting), "Monday", 570, 660, "Review");
    assert FirstIndex([meeting], meeting) == Some(0);
    assert r == Edited(0);
    assert app.entries == [Entry("Monday", 570, 660, "Review")];
  }

  /** An edit that overlaps another entry is refused and changes nothing. */
  method EditOverlapRefused()
  {
    var meeting := Entry("Monday", 540, 630, "Meeting");
    var lunch := Entry("Monday", 660, 720, "Lunch");
    var app := new ScheduleApp();
    app.entries := [meeting] + [lunch];
    TrimKeeps("Lunch");
    assert FirstIndex([meeting] + [lunch], lunch) == Some(1);
    assert Conflicts(Entry("Monday", 600, 720, "Lunch"), app.entries[0]);
    var r := app.EditEntry(Some(lunch), "Monday", 600, 720, "Lunch");
    assert r == EditOverlaps && app.entries == [meeting] + [lunch];
  }

  /** Deleting a row removes every copy of it and keeps the rest in order. */
  method DeleteEveryCopy()
  {
    var meeting := Entry("Monday", 540, 630, "Meeting");
    var lunch := Entry("Monday", 660, 720, "Lunch");
    var app := new ScheduleApp();
    app.entries := [meeting] + [lunch] + [meeting];
    app.DeleteEntry(Some(meeting));
    WithoutConcat([meeting] + [lunch], [meeting], meeting);
    WithoutConcat([meeting], [lunch], meeting);
    assert app.entries == [lunch];
  }
}
