/** The slot generator: walks each window in thirty-minute steps and offers every
    step that fits wholly inside the window and whose start is not booked. */
module Slots {
  import opened Clock
  import opened AvailabilityStore

  /** An offered slot; the generator only ever offers available ones. */
  datatype TimeSlot = TimeSlot(startTime: nat, endTime: nat, isAvailable: bool)

  /** `t` is a step of the walk that starts at `from`, and the slot it begins fits before `end`. */
  predicate OnGrid(t: int, from: int, end: int)
  {
    from <= t && (t - from) % SlotLength == 0 && t + SlotLength <= end
  }

  /** A slot as the generator emits it: thirty minutes long, marked available, not booked. */
  predicate Offered(slot: TimeSlot, booked: set<nat>)
  {
    slot.endTime == slot.startTime + SlotLength && slot.isAvailable && slot.startTime !in booked
  }

  ghost predicate Ascending(slots: seq<TimeSlot>)
  {
    forall i, j :: 0 <= i < j < |slots| ==> slots[i].startTime < slots[j].startTime
  }

  /** The inner walk from `cur`: while `cur` is before `end`, the step [cur, cur + 30 min)
      is emitted if it ends no later than `end` and `cur` is not booked. */
  function WindowSlots(cur: nat, end: nat, booked: set<nat>): (r: seq<TimeSlot>)
    ensures forall i :: 0 <= i < |r| ==> Offered(r[i], booked) && OnGrid(r[i].startTime, cur, end)
    ensures Ascending(r)
    decreases end - cur
  {
    if cur < end then
      var next := cur + SlotLength;
      var rest := WindowSlots(next, end, booked);
      assert forall i :: 0 <= i < |rest| ==> rest[i].startTime - cur == (rest[i].startTime - next) + SlotLength;
      if next <= end && cur !in booked then [TimeSlot(cur, next, true)] + rest else rest
    else []
  }

  /** Every start on the walk's grid whose slot fits and is not booked is emitted. */
  lemma {:induction false} WindowSlotsComplete(cur: nat, end: nat, booked: set<nat>, t: nat)
    requires OnGrid(t, cur, end) && t !in booked
    ensures exists i :: 0 <= i < |WindowSlots(cur, end, booked)| && WindowSlots(cur, end, booked)[i].startTime == t
    decreases end - cur
  {
    var r := WindowSlots(cur, end, booked);
    var next := cur + SlotLength;
    if t == cur {
      assert r[0].startTime == t;
    } else {
      assert t - next == (t - cur) - SlotLength;
      assert OnGrid(t, next, end);
      WindowSlotsComplete(next, end, booked, t);
      var rest := WindowSlots(next, end, booked);
      var i :| 0 <= i < |rest| && rest[i].startTime == t;
      if next <= end && cur !in booked {
        assert r[i + 1] == rest[i];
      }
    }
  }

  /** Without bookings a window yields floor(length / 30 min) slots: the trailing
      partial step is dropped. */
  lemma {:induction false} WindowSlotCount(cur: nat, end: nat)
    ensures |WindowSlots(cur, end, {})| == if end <= cur then 0 else (end - cur) / SlotLength
    decreases end - cur
  {
    if cur < end {
      var next := cur + SlotLength;
      WindowSlotCount(next, end);
      if next <= end {
        assert (end - cur) / SlotLength == (end - next) / SlotLength + 1;
      } else {
        assert (end - cur) / SlotLength == 0;
      }
    }
  }

  /** Without bookings the walk emits consecutive slots from `cur`: each start is
      thirty minutes after the one before. */
  lemma {:induction false} WindowSlotsConsecutive(cur: nat, end: nat)
    ensures var r := WindowSlots(cur, end, {});
            && (|r| > 0 ==> r[0].startTime == cur)
            && forall i :: 0 <= i < |r| - 1 ==> r[i + 1].startTime == r[i].startTime + SlotLength
    decreases end - cur
  {
    if cur < end {
      var next := cur + SlotLength;
      WindowSlotsConsecutive(next, end);
      var rest := WindowSlots(next, end, {});
      if next > end {
        WindowSlotCount(next, end);
      }
    }
  }

  /** The outer loop: every window's slots, window after window, in the order given. */
  function Generate(windows: seq<Availability>, booked: set<nat>): (r: seq<TimeSlot>)
    ensures forall i :: 0 <= i < |r| ==> Offered(r[i], booked)
    ensures forall i :: 0 <= i < |r| ==>
              exists k :: 0 <= k < |windows| && OnGrid(r[i].startTime, windows[k].startTime, windows[k].endTime)
  {
    if |windows| == 0 then []
    else
      var init := windows[..|windows| - 1];
      var last := windows[|windows| - 1];
      var front := Generate(init, booked);
      var back := WindowSlots(last.startTime, last.endTime, booked);
      assert forall k :: 0 <= k < |init| ==> init[k] == windows[k];
      assert forall i :: |front| <= i < |front| + |back| ==> (front + back)[i] == back[i - |front|];
      front + back
  }

  /** Slots are emitted in window order: generating over two runs of windows is
      generating over each in turn. */
  lemma {:induction false} GenerateAppend(a: seq<Availability>, b: seq<Availability>, booked: set<nat>)
    ensures Generate(a + b, booked) == Generate(a, booked) + Generate(b, booked)
    decreases |b|
  {
    if |b| > 0 {
      var b' := b[..|b| - 1];
      assert (a + b)[..|a + b| - 1] == a + b';
      assert (a + b)[|a + b| - 1] == b[|b| - 1];
      GenerateAppend(a, b', booked);
    } else {
      assert a + b == a;
    }
  }

  /** Every unbooked start on the grid of one of the windows is offered. */
  lemma {:induction false} GenerateComplete(windows: seq<Availability>, booked: set<nat>, k: nat, t: nat)
    requires k < |windows| && OnGrid(t, windows[k].startTime, windows[k].endTime) && t !in booked
    ensures exists i :: 0 <= i < |Generate(windows, booked)| && Generate(windows, booked)[i].startTime == t
    decreases |windows|
  {
    var init := windows[..|windows| - 1];
    var last := windows[|windows| - 1];
    var front := Generate(init, booked);
    var back := WindowSlots(last.startTime, last.endTime, booked);
    var r := Generate(windows, booked);
    assert r == front + back;
    if k == |windows| - 1 {
      WindowSlotsComplete(last.startTime, last.endTime, booked, t);
      var i :| 0 <= i < |back| && back[i].startTime == t;
      assert r[|front| + i] == back[i];
    } else {
      assert init[k] == windows[k];
      GenerateComplete(init, booked, k, t);
      var i :| 0 <= i < |front| && front[i].startTime == t;
      assert r[i] == front[i];
    }
  }

  /** A window that ends after it starts; any other window yields no slot. */
  predicate NonEmpty(w: Availability)
  {
    w.startTime < w.endTime
  }

  /** Windows each of which, when non-empty, ends no later than any later non-empty
      one starts. */
  ghost predicate Chained(windows: seq<Availability>)
  {
    forall i, j :: 0 <= i < j < |windows| && NonEmpty(windows[i]) && NonEmpty(windows[j]) ==>
      windows[i].endTime <= windows[j].startTime
  }

  /** Over windows in time order that do not overlap, the offered slots ascend;
      empty and reversed windows, which yield nothing, may sit anywhere. */
  lemma {:induction false} GenerateAscending(windows: seq<Availability>, booked: set<nat>)
    requires Chained(windows)
    ensures Ascending(Generate(windows, booked))
    decreases |windows|
  {
    if |windows| > 0 {
      var init := windows[..|windows| - 1];
      var last := windows[|windows| - 1];
      assert Chained(init) by {
        forall i, j | 0 <= i < j < |init| && NonEmpty(init[i]) && NonEmpty(init[j])
          ensures init[i].endTime <= init[j].startTime
        {
          assert init[i] == windows[i] && init[j] == windows[j];
        }
      }
      GenerateAscending(init, booked);
      var front := Generate(init, booked);
      var back := WindowSlots(last.startTime, last.endTime, booked);
      var r := front + back;
      forall i, j | 0 <= i < j < |r| ensures r[i].startTime < r[j].startTime {
        if j < |front| {
          assert r[i] == front[i] && r[j] == front[j];
        } else if i >= |front| {
          assert r[i] == back[i - |front|] && r[j] == back[j - |front|];
        } else {
          assert r[i] == front[i] && r[j] == back[j - |front|];
          var k :| 0 <= k < |init| && OnGrid(front[i].startTime, init[k].startTime, init[k].endTime);
          assert init[k] == windows[k] && NonEmpty(windows[k]);
          assert NonEmpty(last);
          assert front[i].startTime < init[k].endTime <= last.startTime;
        }
      }
    }
  }

  /** The generator as the service runs it: a loop over the windows and, inside it,
      a loop that steps through one window thirty minutes at a time. */
  method GenerateSlots(windows: seq<Availability>, booked: set<nat>) returns (slots: seq<TimeSlot>)
    ensures slots == Generate(windows, booked)
  {
    slots := [];
    var k := 0;
    while k < |windows|
      invariant 0 <= k <= |windows|
      invariant slots == Generate(windows[..k], booked)
    {
      var w := windows[k];
      var current := w.startTime;
      ghost var before := slots;
      while current < w.endTime
        invariant slots + WindowSlots(current, w.endTime, booked) == before + WindowSlots(w.startTime, w.endTime, booked)
        decreases w.endTime - current
      {
        var next := current + SlotLength;
        if next <= w.endTime && current !in booked {
          slots := slots + [TimeSlot(current, next, true)];
        }
        current := next;
      }
      assert windows[..k + 1][..k] == windows[..k];
      k := k + 1;
    }
    assert windows[..k] == windows;
  }
}
