/**
 * The entries of the weekly plan and the pure logic over a sequence of them:
 * the overlap test of `has_overlap`, the no-overlap invariant of the store,
 * the row lookup of `edit_entry`, the filter of `delete_entry` and the slot
 * lookup of `get_activity_for_slot`.
 */
module Entries {
  import opened Wrappers
  import opened Clock

  /** One row of the plan: `{day, start, end, activity}`. The day is free
      text (the day picker accepts any string). */
  datatype Entry = Entry(day: string, start: Minute, end: Minute, activity: string)

  /** Minute `m` lies in the half-open interval [lo, hi). */
  predicate Within(m: int, lo: int, hi: int)
  {
    lo <= m < hi
  }

  /** The test `has_overlap` applies between a candidate `c` and one stored
      entry `e`: same day, and `c.start < e.end && c.end > e.start`. */
  function Conflicts(c: Entry, e: Entry): (r: bool)
    ensures r ==> c.day == e.day
    ensures c.end == e.start || e.end == c.start ==> !r
    ensures c.start < c.end && e.start < e.end ==>
      (r <==> c.day == e.day && exists m: int :: Within(m, c.start, c.end) && Within(m, e.start, e.end))
  {
    var r := e.day == c.day && c.start < e.end && c.end > e.start;
    var m := if c.start < e.start then e.start else c.start;
    assert r && c.start < c.end && e.start < e.end ==>
      Within(m, c.start, c.end) && Within(m, e.start, e.end);
    r
  }

  /** Some stored entry other than the one at `exclude` conflicts with `c`. */
  ghost predicate HasConflict(s: seq<Entry>, c: Entry, exclude: Option<nat>)
  {
    exists i :: 0 <= i < |s| && Some(i) != exclude && Conflicts(c, s[i])
  }

  /** The store invariant: no two entries at different positions conflict. */
  ghost predicate NoOverlap(s: seq<Entry>)
  {
    forall i, j :: 0 <= i < |s| && 0 <= j < |s| && i != j ==> !Conflicts(s[i], s[j])
  }

  /** The conflict test does not depend on which entry is the candidate. */
  lemma ConflictsSymmetric(a: Entry, b: Entry)
    ensures Conflicts(a, b) == Conflicts(b, a)
  {
  }

  /** Appending an entry that conflicts with nothing stored keeps the invariant. */
  lemma AppendKeepsNoOverlap(s: seq<Entry>, e: Entry)
    requires NoOverlap(s)
    requires !HasConflict(s, e, None)
    ensures NoOverlap(s + [e])
  {
    var t := s + [e];
    forall i, j | 0 <= i < |t| && 0 <= j < |t| && i != j
      ensures !Conflicts(t[i], t[j])
    {
      if i == |s| {
        assert !Conflicts(e, s[j]);
      } else if j == |s| {
        assert !Conflicts(e, s[i]);
        ConflictsSymmetric(e, s[i]);
      }
    }
  }

  /** Replacing position `i` by an entry that conflicts with no OTHER
      position keeps the invariant. */
  lemma ReplaceKeepsNoOverlap(s: seq<Entry>, i: nat, e: Entry)
    requires i < |s|
    requires NoOverlap(s)
    requires !HasConflict(s, e, Some(i))
    ensures NoOverlap(s[i := e])
  {
    var t := s[i := e];
    forall a, b | 0 <= a < |t| && 0 <= b < |t| && a != b
      ensures !Conflicts(t[a], t[b])
    {
      if a == i {
        assert !Conflicts(e, s[b]);
      } else if b == i {
        assert !Conflicts(e, s[a]);
        ConflictsSymmetric(e, s[a]);
      }
    }
  }

  /** The first position holding `x`, as `next(i for i, e in ... if e == x)`
      finds it, or None when no position does. */
  function FirstIndex(s: seq<Entry>, x: Entry): (r: Option<nat>)
    ensures r.None? <==> x !in s
    ensures r.Some? ==> r.value < |s| && s[r.value] == x
    ensures r.Some? ==> forall k :: 0 <= k < r.value ==> s[k] != x
  {
    if s == [] then None
    else if s[0] == x then Some(0)
    else match FirstIndex(s[1..], x)
      case None => None
      case Some(k) => Some(k + 1)
  }

  /** `[e for e in s if e != x]`: the deletion filter. */
  function Without(s: seq<Entry>, x: Entry): (r: seq<Entry>)
    ensures |r| <= |s|
    ensures forall e :: e in r <==> e in s && e != x
  {
    if s == [] then []
    else if s[0] == x then Without(s[1..], x)
    else [s[0]] + Without(s[1..], x)
  }

  /** The filter removes exactly the copies of `x` and keeps every other
      entry as often as it occurs; so the length drops by the number of
      copies of `x`. */
  lemma {:induction false} WithoutCounts(s: seq<Entry>, x: Entry)
    ensures multiset(Without(s, x)) == multiset(s)[x := 0]
    ensures |Without(s, x)| == |s| - multiset(s)[x]
  {
    if s != [] {
      WithoutCounts(s[1..], x);
      assert s == [s[0]] + s[1..];
    }
  }

  /** The filter works element by element: filtering a concatenation is
      concatenating the filtered parts, so the relative order is kept. */
  lemma {:induction false} WithoutConcat(a: seq<Entry>, b: seq<Entry>, x: Entry)
    ensures Without(a + b, x) == Without(a, x) + Without(b, x)
  {
    if a != [] {
      WithoutConcat(a[1..], b, x);
      assert (a + b)[0] == a[0] && (a + b)[1..] == a[1..] + b;
    } else {
      assert a + b == b;
    }
  }

  /** Deleting a tuple that is not stored changes nothing. */
  lemma {:induction false} WithoutAbsent(s: seq<Entry>, x: Entry)
    requires x !in s
    ensures Without(s, x) == s
  {
    if s != [] {
      WithoutAbsent(s[1..], x);
      assert s == [s[0]] + s[1..];
    }
  }

  /** Deleting keeps the invariant. */
  lemma {:induction false} WithoutKeepsNoOverlap(s: seq<Entry>, x: Entry)
    requires NoOverlap(s)
    ensures NoOverlap(Without(s, x))
  {
    if s != [] {
      var t := s[1..];
      assert NoOverlap(t) by {
        forall i, j | 0 <= i < |t| && 0 <= j < |t| && i != j
          ensures !Conflicts(t[i], t[j])
        {
          assert t[i] == s[i + 1] && t[j] == s[j + 1];
        }
      }
      WithoutKeepsNoOverlap(t, x);
      if s[0] != x {
        var w := Without(t, x);
        var r := [s[0]] + w;
        forall i, j | 0 <= i < |r| && 0 <= j < |r| && i != j
          ensures !Conflicts(r[i], r[j])
        {
          if i == 0 {
            assert r[j] in t;
            var k :| 0 <= k < |t| && t[k] == r[j];
            assert s[k + 1] == r[j];
          } else if j == 0 {
            assert r[i] in t;
            var k :| 0 <= k < |t| && t[k] == r[i];
            assert s[k + 1] == r[i];
          } else {
            assert r[i] == w[i - 1] && r[j] == w[j - 1];
          }
        }
      }
    }
  }

  /** Entry `e` is on `day` and its interval contains the whole slot. */
  predicate Covers(e: Entry, day: string, slot: Slot)
  {
    e.day == day && e.start <= slot.start && e.end >= slot.end
  }

  /** The first position, in store order, whose entry covers the slot. */
  function FirstCover(s: seq<Entry>, day: string, slot: Slot): (r: Option<nat>)
    ensures r.None? <==> forall k :: 0 <= k < |s| ==> !Covers(s[k], day, slot)
    ensures r.Some? ==> r.value < |s| && Covers(s[r.value], day, slot)
    ensures r.Some? ==> forall k :: 0 <= k < r.value ==> !Covers(s[k], day, slot)
  {
    if s == [] then None
    else if Covers(s[0], day, slot) then Some(0)
    else match FirstCover(s[1..], day, slot)
      case None => None
      case Some(k) => Some(k + 1)
  }

  /** The grid cell for `day` and `slot`: the activity of the first covering
      entry, or the empty label. */
  function CellLabel(s: seq<Entry>, day: string, slot: Slot): string
  {
    match FirstCover(s, day, slot)
    case None => ""
    case Some(i) => s[i].activity
  }

  /** Under the invariant, at most one entry covers a non-empty slot. */
  lemma CoverIsUnique(s: seq<Entry>, day: string, slot: Slot, i: nat, j: nat)
    requires NoOverlap(s)
    requires slot.start < slot.end
    requires i < |s| && j < |s|
    requires Covers(s[i], day, slot) && Covers(s[j], day, slot)
    ensures i == j
  {
    if i != j {
      assert Conflicts(s[i], s[j]);
    }
  }

  /** Under the invariant, a cell shows the activity of ANY entry covering
      its slot, so the store order does not matter for the grid. */
  lemma CellLabelOfCover(s: seq<Entry>, day: string, slot: Slot, i: nat)
    requires NoOverlap(s)
    requires slot.start < slot.end
    requires i < |s| && Covers(s[i], day, slot)
    ensures CellLabel(s, day, slot) == s[i].activity
  {
    var f := FirstCover(s, day, slot);
    CoverIsUnique(s, day, slot, f.value, i);
  }
}
