/** `getAvailableSlots`: resolve the link, take its owner's windows for the day in
    listing order, collect the start times already booked through the link that day,
    and run the slot generator. */
module SlotService {
  import opened Results
  import opened Clock
  import opened AvailabilityStore
  import opened Links
  import opened Bookings
  import opened Slots

  /** The windows of one day, in the order given. */
  function OnDay(windows: seq<Availability>, date: int): (r: seq<Availability>)
    ensures forall w :: w in r <==> w in windows && w.date == date
  {
    if |windows| == 0 then []
    else
      var rest := OnDay(windows[1..], date);
      assert forall w :: w in windows <==> w == windows[0] || w in windows[1..];
      if windows[0].date == date then [windows[0]] + rest else rest
  }

  /** The start times booked: the service compares `HH:mm:ss` strings, which by
      `FormatClockInjective` is comparing the times themselves. */
  function BookedStarts(bookings: seq<Booking>): (r: set<nat>)
    ensures forall t :: t in r <==> exists i :: 0 <= i < |bookings| && bookings[i].startTime == t
  {
    set i | 0 <= i < |bookings| :: bookings[i].startTime
  }

  /** The window of the link's owner on `date` that offers `t`. */
  predicate OfferedBy(w: Availability, owner: nat, date: int, t: nat)
  {
    w.owner == owner && w.date == date && OnGrid(t, w.startTime, w.endTime)
  }

  /** A booking made through the link on `date` at `t`. */
  predicate TakenBy(b: Booking, linkId: nat, date: int, t: nat)
  {
    b.linkId == linkId && b.date == date && b.startTime == t
  }

  /** Every slot generated over the owner's windows of the day lies on the grid of one
      of the owner's stored windows on that date. */
  lemma SlotsLieInOwnerWindows(windows: seq<Availability>, owner: nat, date: int, booked: set<nat>)
    ensures var slots := Generate(OnDay(FindAll(windows, owner), date), booked);
            forall i :: 0 <= i < |slots| ==>
              exists k :: 0 <= k < |windows| && OfferedBy(windows[k], owner, date, slots[i].startTime)
  {
    var day := OnDay(FindAll(windows, owner), date);
    var slots := Generate(day, booked);
    forall i | 0 <= i < |slots|
      ensures exists k :: 0 <= k < |windows| && OfferedBy(windows[k], owner, date, slots[i].startTime)
    {
      var m :| 0 <= m < |day| && OnGrid(slots[i].startTime, day[m].startTime, day[m].endTime);
      assert day[m] in day;
      var k :| 0 <= k < |windows| && windows[k] == day[m];
    }
  }

  /** The start of every booking made through the link on that date is among the
      booked starts the service collects. */
  lemma BookedStartsCover(bookings: seq<Booking>, linkId: nat, date: int)
    ensures forall j :: 0 <= j < |bookings| && bookings[j].linkId == linkId && bookings[j].date == date ==>
              bookings[j].startTime in BookedStarts(FindByBookingLink(bookings, linkId, date))
  {
    var taken := FindByBookingLink(bookings, linkId, date);
    forall j | 0 <= j < |bookings| && bookings[j].linkId == linkId && bookings[j].date == date
      ensures bookings[j].startTime in BookedStarts(taken)
    {
      assert bookings[j] in taken;
      var m :| 0 <= m < |taken| && taken[m] == bookings[j];
    }
  }

  function GetAvailableSlots(
    links: seq<BookingLink>, windows: seq<Availability>, bookings: seq<Booking>, slug: string, date: int)
    : (r: Result<seq<TimeSlot>>)
    ensures r.Err? <==> FindOneBySlug(links, slug).Err?
    ensures r.Err? ==> r.error == LinkNotFound
    ensures r.Ok? ==>
      var link := FindOneBySlug(links, slug).value;
      forall i :: 0 <= i < |r.value| ==>
        && r.value[i].endTime == r.value[i].startTime + SlotLength
        && r.value[i].isAvailable
        && (exists k :: 0 <= k < |windows| && OfferedBy(windows[k], link.owner, date, r.value[i].startTime))
        && (forall j :: 0 <= j < |bookings| ==> !TakenBy(bookings[j], link.id, date, r.value[i].startTime))
  {
    match FindOneBySlug(links, slug)
    case Err(e) => Err(e)
    case Ok(link) =>
      var day := OnDay(FindAll(windows, link.owner), date);
      var taken := FindByBookingLink(bookings, link.id, date);
      var slots := Generate(day, BookedStarts(taken));
      SlotsLieInOwnerWindows(windows, link.owner, date, BookedStarts(taken));
      BookedStartsCover(bookings, link.id, date);
      Ok(slots)
  }

  /** Every start on the grid of one of the owner's windows that day which nobody has
      booked through the link is offered. */
  lemma GetAvailableSlotsComplete(
    links: seq<BookingLink>, windows: seq<Availability>, bookings: seq<Booking>, slug: string, date: int,
    k: nat, t: nat)
    requires FindOneBySlug(links, slug).Ok?
    requires k < |windows| && OfferedBy(windows[k], FindOneBySlug(links, slug).value.owner, date, t)
    requires forall j :: 0 <= j < |bookings| ==> !TakenBy(bookings[j], FindOneBySlug(links, slug).value.id, date, t)
    ensures var r := GetAvailableSlots(links, windows, bookings, slug, date);
            r.Ok? && exists i :: 0 <= i < |r.value| && r.value[i].startTime == t
  {
    var link := FindOneBySlug(links, slug).value;
    var day := OnDay(FindAll(windows, link.owner), date);
    var taken := FindByBookingLink(bookings, link.id, date);
    assert windows[k] in day;
    var m :| 0 <= m < |day| && day[m] == windows[k];
    forall m | 0 <= m < |taken| ensures taken[m].startTime != t {
      assert taken[m] in bookings;
      var j :| 0 <= j < |bookings| && bookings[j] == taken[m];
      assert !TakenBy(bookings[j], link.id, date, t);
    }
    GenerateComplete(day, BookedStarts(taken), m, t);
  }

  /** Keeping one day's windows keeps the listing order and disjointness. */
  lemma {:induction false} OnDayKeepsOrder(ws: seq<Availability>, date: int)
    requires Ordered(ws) && NonOverlapping(ws)
    ensures Ordered(OnDay(ws, date)) && NonOverlapping(OnDay(ws, date))
  {
    if |ws| > 0 {
      TailNonOverlapping(ws);
      var tail := ws[1..];
      assert Ordered(tail) by {
        forall i, j | 0 <= i < j < |tail| ensures KeyLe(tail[i], tail[j]) {
          assert tail[i] == ws[i + 1] && tail[j] == ws[j + 1];
        }
      }
      OnDayKeepsOrder(tail, date);
      var rest := OnDay(tail, date);
      if ws[0].date == date {
        ConsNonOverlapping(ws[0], rest);
        var s := [ws[0]] + rest;
        forall i, j | 0 <= i < j < |s| ensures KeyLe(s[i], s[j]) {
          if i == 0 {
            assert s[j] == rest[j - 1] && s[j] in tail;
            var m :| 0 <= m < |tail| && tail[m] == s[j];
            assert ws[m + 1] == s[j];
          } else {
            assert s[i] == rest[i - 1] && s[j] == rest[j - 1];
          }
        }
      }
    }
  }

  /** One owner's windows of one day, listed by start time and pairwise disjoint: each
      non-empty one ends where or before the next non-empty one begins. */
  lemma DayChained(ws: seq<Availability>, owner: nat, date: int)
    requires Ordered(ws) && NonOverlapping(ws)
    requires forall w :: w in ws ==> w.owner == owner && w.date == date
    ensures Chained(ws)
  {
    forall i, j | 0 <= i < j < |ws| && NonEmpty(ws[i]) && NonEmpty(ws[j])
      ensures ws[i].endTime <= ws[j].startTime
    {
      assert ws[i] in ws && ws[j] in ws;
      assert KeyLe(ws[i], ws[j]) && !Conflicting(ws[i], ws[j]);
    }
  }

  /** Over a store whose windows do not overlap, the slots offered ascend strictly by
      start time: windows are walked in listing order and each window's slots lie
      before the next window begins. */
  lemma GetAvailableSlotsAscending(
    links: seq<BookingLink>, windows: seq<Availability>, bookings: seq<Booking>, slug: string, date: int)
    requires NonOverlapping(windows)
    ensures var r := GetAvailableSlots(links, windows, bookings, slug, date);
            r.Ok? ==> Ascending(r.value)
  {
    if FindOneBySlug(links, slug).Ok? {
      var link := FindOneBySlug(links, slug).value;
      var listed := FindAll(windows, link.owner);
      var day := OnDay(listed, date);
      FindAllNonOverlapping(windows, link.owner);
      OnDayKeepsOrder(listed, date);
      DayChained(day, link.owner, date);
      GenerateAscending(day, BookedStarts(FindByBookingLink(bookings, link.id, date)));
    }
  }
}
