/**
 * Times of day and the two fixed half-hour sequences of the planner: the
 * selectable time points of the start/end pickers and the rows of the
 * exported grid. A time of day is the number of minutes since midnight that
 * a "%I:%M %p" string such as "07:30 PM" denotes.
 */
module Clock {

  /** Minutes since midnight; every clock string parses to one of these. */
  type Minute = m: int | 0 <= m < 1440

  /** 7:00 AM, the first selectable time and the start of the first grid row. */
  const WindowStart: Minute := 420
  /** 8:00 PM, the last selectable time and the end of the last grid row. */
  const WindowEnd: Minute := 1200
  /** Width of every step, `timedelta(minutes=30)`. */
  const Step: int := 30

  /** What a start or end field of the input form holds, once read:
      nothing, text that is not a "%I:%M %p" time, or a time. */
  datatype TimeField = Blank | Malformed | At(minute: Minute)

  /** A grid row label "<start> - <end>", as the two times it names. */
  datatype Slot = Slot(start: int, end: int)

  /** The k-th half-hour point after 7:00 AM. */
  function PointAt(k: nat): int
  {
    WindowStart + Step * k
  }

  /** The k-th half-hour slot of the grid, [PointAt(k), PointAt(k + 1)). */
  function SlotAt(k: nat): Slot
  {
    Slot(PointAt(k), PointAt(k + 1))
  }

  /** The options of the start and end pickers: every half hour from
      7:00 AM to 8:00 PM, both ends included. */
  method GenerateTimeOptions() returns (times: seq<Minute>)
    ensures |times| == 27
    ensures forall k :: 0 <= k < |times| ==> times[k] == PointAt(k)
    ensures times[0] == WindowStart && times[|times| - 1] == WindowEnd
    ensures forall j, k :: 0 <= j < k < |times| ==> times[j] < times[k]
  {
    times := [];
    var current: int := WindowStart;
    while current <= WindowEnd
      invariant current == PointAt(|times|) && current <= WindowEnd + Step
      invariant forall k :: 0 <= k < |times| ==> times[k] == PointAt(k)
      decreases WindowEnd - current
    {
      times := times + [current];
      current := current + Step;
    }
  }

  /** The row slots of the exported grid: consecutive half hours from
      7:00 AM while the running time is before 8:00 PM. */
  method TimeSlots() returns (slots: seq<Slot>)
    ensures |slots| == 26
    ensures forall k :: 0 <= k < |slots| ==> slots[k] == SlotAt(k)
    ensures slots[0] == Slot(WindowStart, 450) && slots[|slots| - 1] == Slot(1170, WindowEnd)
    ensures forall k :: 0 <= k < |slots| - 1 ==> slots[k].end == slots[k + 1].start
    ensures forall k :: 0 <= k < |slots| ==>
      WindowStart <= slots[k].start && slots[k].end <= WindowEnd && slots[k].end - slots[k].start == Step
  {
    slots := [];
    var current: int := WindowStart;
    while current < WindowEnd
      invariant current == PointAt(|slots|) && current <= WindowEnd
      invariant forall k :: 0 <= k < |slots| ==> slots[k] == SlotAt(k)
      decreases WindowEnd - current
    {
      var slotStart := current;
      current := current + Step;
      slots := slots + [Slot(slotStart, current)];
    }
  }
}
