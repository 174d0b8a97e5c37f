# Weekly schedule planner: the scheduling core in Dafny

This project models the scheduling logic of the Weekly Schedule Planner, a small
Tk desktop application (`horarios.py`, class `ScheduleApp`). The user records
weekly activities, each as a day, a start time, an end time and a label. The
application refuses double bookings on the same day and projects the week onto
a grid of half-hour rows from 7:00 AM to 8:00 PM for export.

Modules follow the parts of `ScheduleApp`:

- `Clock`: times of day as minutes since midnight (`Minute`). The form's time
  fields are `TimeField`: blank, malformed, or a time. This module also holds
  the two half-hour loops, `GenerateTimeOptions` (the picker values) and
  `TimeSlots` (the grid rows of `generate_grid_data`).
- `Text`: `Trim`, the `str.strip()` applied to the activity field, over
  exactly the characters for which Python's `str.isspace()` holds.
- `Entries`: the `Entry` record and the pure logic over a sequence of entries.
  It holds the pairwise overlap test (`Conflicts`), the store invariant
  `NoOverlap` (no two positions conflict), the row lookup of `edit_entry`
  (`FirstIndex`), the filter of `delete_entry` (`Without`) and the slot lookup
  of `get_activity_for_slot` (`FirstCover`, `CellLabel`).
- `Schedule`: class `ScheduleApp`, whose one field `entries: seq<Entry>` is the
  application's `self.entries`. Its methods are the Add, Edit and Delete
  buttons and the two read-only scans with their loops. `GenerateGridData`
  builds the export grid. The form fields and the selected table row are
  parameters; "no row selected" is `None`.
- `Scenarios`: client methods that start from a given list of entries and
  reason from the contracts above. A 9:00–10:30 meeting fills the three
  Monday cells it spans, and not the cells just before and after it, nor the
  Tuesday cell. A 9:00–9:45 entry leaves the 9:30 cell, which it only partly
  covers, empty. They also cover back-to-back entries, the add rejections,
  an edit that overlaps only the entry it replaces, an edit that overlaps
  another entry, and a delete that removes every copy of a row.

Every state-changing method ensures `old(NoOverlap(entries)) ==>
NoOverlap(entries)`. This invariant is proved from value-level lemmas:
`AppendKeepsNoOverlap`, `ReplaceKeepsNoOverlap` and `WithoutKeepsNoOverlap`.
Under the invariant, at most one entry covers a non-empty slot
(`CoverIsUnique`). So a grid cell shows the activity of whichever entry
covers it (`CellLabelOfCover`).

Three behaviours of the code that the model keeps:

- `edit_entry` does not re-check that fields are non-empty or that start comes
  before end. Only the overlap test runs, and it excludes the replaced position.
  So the store may come to hold an entry whose end is not after its start. For
  this reason `NoOverlap` is the store invariant, and "start < end" is not.
- Deletion removes every entry equal to the selected tuple, not one entry by
  index. A tuple that is not stored leaves the list unchanged; no error is
  raised.
- The picker options and the grid rows come from two separate loops
  (`current <= end` and `current < end`), not from one shared generator. The
  grid loop has no truncation step. With the fixed 7:00 AM–8:00 PM window and
  30-minute step this makes no difference: 27 points and 26 slots, each slot
  running between consecutive points.

## Model

| member | source | states |
|---|---|---|
| `Clock.GenerateTimeOptions` | horarios.py:71-78 | exactly 27 options, the k-th being 7:00 AM plus 30·k minutes; first 7:00 AM, last 8:00 PM, strictly increasing |
| `Clock.TimeSlots` | horarios.py:185-192 | exactly 26 slots, slot k being [420+30k, 450+30k): first 7:00–7:30 AM, last 7:30–8:00 PM, each 30 minutes inside the window, each ending where the next starts |
| `Text.Trim` | horarios.py:85 | the result is empty iff the input is all whitespace; otherwise it starts and ends with non-whitespace; it is an infix of the input with only whitespace cut on both sides |
| `Text.TrimKeeps` | horarios.py:85 | a string with non-whitespace at both ends is left as it is |
| `Text.TrimIdempotent` | horarios.py:85 | trimming an already trimmed activity changes nothing |
| `Entries.Conflicts` | horarios.py:116-122 | a conflict needs the same day; entries that only touch at an endpoint never conflict; for non-empty intervals, a conflict holds iff the two half-open intervals share a minute |
| `Entries.ConflictsSymmetric` | horarios.py:122 | the test gives the same answer whichever entry is the candidate |
| `Entries.AppendKeepsNoOverlap` | horarios.py:103-107 | appending an entry that conflicts with no stored entry keeps the no-overlap invariant |
| `Entries.ReplaceKeepsNoOverlap` | horarios.py:163-167 | replacing position i with an entry that conflicts with no other position keeps the no-overlap invariant |
| `Entries.FirstIndex` | horarios.py:154 | None iff the selected tuple is not stored; otherwise the least position holding it |
| `Entries.Without` | horarios.py:178 | the filtered list contains exactly the old elements that differ from the selected tuple, and is no longer than the old list |
| `Entries.WithoutCounts` | horarios.py:178 | every copy of the selected tuple is removed and every other entry keeps its multiplicity; the length drops by the number of copies |
| `Entries.WithoutConcat` | horarios.py:178 | filtering distributes over concatenation, so the remaining entries keep their relative order |
| `Entries.WithoutAbsent` | horarios.py:178 | deleting a tuple that is not stored leaves the list unchanged |
| `Entries.WithoutKeepsNoOverlap` | horarios.py:178 | deletion keeps the no-overlap invariant |
| `Entries.FirstCover` | horarios.py:208-215 | None iff no entry on the day contains the whole slot; otherwise the least such position in store order |
| `Entries.CoverIsUnique` | horarios.py:208-215 | under the no-overlap invariant, at most one entry contains a given non-empty slot on a given day |
| `Entries.CellLabelOfCover` | horarios.py:208-215 | under the no-overlap invariant, a covered cell shows the activity of the entry that covers it, wherever that entry is stored |
| `Schedule.ScheduleApp.constructor` | horarios.py:11 | a new planner has no entries |
| `Schedule.ScheduleApp.HasOverlap` | horarios.py:111-124 | true iff some position other than the excluded one holds an entry on the same day with new.start < e.end and new.end > e.start |
| `Schedule.ScheduleApp.AddEntry` | horarios.py:80-107 | rejects, leaving the list unchanged, in this order: a blank day, start, end or trimmed activity; a malformed time; start not before end; an overlap with any stored entry. Otherwise it appends exactly the new entry with the trimmed activity. The invariant is kept |
| `Schedule.ScheduleApp.EditEntry` | horarios.py:147-167 | no selection, or a selected tuple that is not stored, leaves the list unchanged. An overlap with any position but the first match is rejected with the list unchanged. Otherwise only the first matching position is replaced and the length is kept. The invariant is kept |
| `Schedule.ScheduleApp.DeleteEntry` | horarios.py:171-178 | with a selection, the new list is the old one without every copy of the selected tuple; without one, nothing changes; the invariant is kept |
| `Schedule.ScheduleApp.ActivityForSlot` | horarios.py:203-215 | the cell label: the activity of the first entry in store order on that day whose interval contains the whole slot, or "" when none does (partial coverage gives "") |
| `Schedule.ScheduleApp.GenerateGridData` | horarios.py:182-201 | headers "Time Slot" then Monday..Sunday; 26 rows, row k labelled with slot k and holding 7 cells, cell d being the label for day d and slot k; the entries are not modified |

Four definitions have no row because they carry no contract of their own.
They are the reference definitions the contracts above are stated in:
- `Entries.CellLabel`: the label of one grid cell (horarios.py:208-215). It
  is the activity of the entry `FirstCover` finds, or "" when there is none.
  `ActivityForSlot` is proved equal to it, and `GenerateGridData` fills its
  cells with it.
- `Entries.HasConflict`: what `has_overlap` decides.
- `Entries.NoOverlap`: the store invariant.
- `Schedule.FieldsPresent`: the all-fields-filled test of `add_entry`.

## Left out

- The Tk user interface is not modelled: widget setup, table refresh, row
  selection, clearing the form, enabling and disabling buttons, and message
  boxes (horarios.py:14-69, 126-145, 250-257). A refusal is an outcome value
  instead of a message box.
- Image export through matplotlib and spreadsheet export through pandas are
  not modelled (horarios.py:217-248). Both are foreign libraries that write
  files.
- Parsing and formatting of "%I:%M %p" time strings is not modelled. Times are
  minutes since midnight and grid row labels are start/end pairs. In
  `add_entry`, a string that does not parse is the `Malformed` time field.
  Time-string equality in tuple comparisons becomes equality of minutes.
- Malformed times in `edit_entry`: the edit form's times are taken as already
  parsed. The code never validates them. A bad string there raises inside
  `has_overlap` when some other entry is on the same day, and is otherwise
  stored unparsed.
- `edit_entry` with an unmatched selection: the code's `next(...)` raises
  `StopIteration`, and the Tk callback ends with the list untouched. The model
  returns `NoMatchingRow` with the list unchanged and does not model the
  exception itself.
- Table row values are assumed to equal the stored tuple. Conversions the
  table widget may apply, such as turning a numeric-looking activity into a
  number, which would make the tuple lookup fail, are not modelled.
