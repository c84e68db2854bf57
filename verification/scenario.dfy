/** Worked examples that follow one owner and two visitors through the engine. */
module Scenario {
  import opened Results
  import opened Clock
  import opened AvailabilityStore
  import opened Links
  import opened Bookings
  import opened Slots
  import opened SlotService

  const NineAm: nat := 9 * SecondsPerHour
  const HalfPastNine: nat := NineAm + SlotLength
  const TenAm: nat := NineAm + 2 * SlotLength

  /** A one-hour window yields two slots; with 09:00 booked only 09:30 remains; a
      window of 45 minutes yields one slot and drops the last quarter hour. */
  lemma GeneratorExamples()
    ensures WindowSlots(NineAm, TenAm, {}) == [TimeSlot(NineAm, HalfPastNine, true), TimeSlot(HalfPastNine, TenAm, true)]
    ensures WindowSlots(NineAm, TenAm, {NineAm}) == [TimeSlot(HalfPastNine, TenAm, true)]
    ensures WindowSlots(NineAm, NineAm + 45 * SecondsPerMinute, {}) == [TimeSlot(NineAm, HalfPastNine, true)]
  {
    assert WindowSlots(TenAm, TenAm, {}) == [];
    assert WindowSlots(TenAm, TenAm, {NineAm}) == [];
    assert WindowSlots(TenAm, NineAm + 45 * SecondsPerMinute, {}) == [];
    assert WindowSlots(HalfPastNine, NineAm + 45 * SecondsPerMinute, {}) == [];
  }

  /** "09:00:00", the form in which a slot's start is handed to the visitor. */
  lemma NineOClockParses()
    ensures ParseClock("09:00:00") == Some(NineAm)
  {
    ParseClockFields(9, 0, 0);
    assert Pad2(9) + ":" + Pad2(0) + ":" + Pad2(0) == "09:00:00";
  }

  const Slug: string := "a1b2c3d4"

  function Window(owner: nat, day: int): Availability
  {
    Availability(1, owner, day, NineAm, TenAm)
  }

  function Visit(day: int, name: string, email: string): BookSlotInput
  {
    BookSlotInput(Slug, day, "09:00:00", name, email)
  }

  function AdaBooking(linkId: nat, day: int): Booking
  {
    Booking(1, linkId, day, NineAm, HalfPastNine, "Ada", "ada@example.com")
  }

  lemma LinkResolves(owner: nat, linkId: nat)
    ensures FindOneBySlug([BookingLink(linkId, Slug, owner, true)], Slug) == Ok(BookingLink(linkId, Slug, owner, true))
  {
  }

  lemma SlotsOffered(owner: nat, day: int, linkId: nat, bookings: seq<Booking>, booked: set<nat>, expected: seq<TimeSlot>)
    requires BookedStarts(FindByBookingLink(bookings, linkId, day)) == booked
    requires WindowSlots(NineAm, TenAm, booked) == expected
    ensures GetAvailableSlots([BookingLink(linkId, Slug, owner, true)], [Window(owner, day)], bookings, Slug, day) == Ok(expected)
  {
    var w := Window(owner, day);
    LinkResolves(owner, linkId);
    assert FindAll([w], owner) == [w] by {
      assert OwnedBy([w], owner) == [w];
    }
    assert OnDay([w], day) == [w];
    assert Generate([w], booked) == WindowSlots(NineAm, TenAm, booked);
  }

  lemma AdaBooks(owner: nat, day: int, linkId: nat)
    ensures BookSlot([BookingLink(linkId, Slug, owner, true)], [], Visit(day, "Ada", "ada@example.com"), 1, NoFaults)
            == Step(Ok(AdaBooking(linkId, day)), [AdaBooking(linkId, day)])
  {
    LinkResolves(owner, linkId);
    NineOClockParses();
  }

  lemma BobConflicts(owner: nat, day: int, linkId: nat)
    ensures BookSlot([BookingLink(linkId, Slug, owner, true)], [AdaBooking(linkId, day)], Visit(day, "Bob", "bob@example.com"), 2, NoFaults)
            == Step(Err(SlotTaken), [AdaBooking(linkId, day)])
  {
    LinkResolves(owner, linkId);
    NineOClockParses();
    assert SameSlot([AdaBooking(linkId, day)][0], linkId, day, NineAm);
  }

  /** An owner opens 09:00-10:00 on a future day; a visitor sees two slots, books
      09:00; a second visitor's booking of 09:00 conflicts; the slots now offered are
      09:30 alone. */
  lemma EndToEnd(owner: nat, day: int, today: int, linkId: nat)
    requires today <= day
    ensures var windows := CreateInTimeOrder([], owner, 1, CreateAvailabilityInput(day, "09:00", "10:00"), today).store;
            var links := [BookingLink(linkId, Slug, owner, true)];
            var first := BookSlot(links, [], Visit(day, "Ada", "ada@example.com"), 1, NoFaults);
            && GetAvailableSlots(links, windows, [], Slug, day)
                 == Ok([TimeSlot(NineAm, HalfPastNine, true), TimeSlot(HalfPastNine, TenAm, true)])
            && first.result.Ok?
            && BookSlot(links, first.store, Visit(day, "Bob", "bob@example.com"), 2, NoFaults) == Step(Err(SlotTaken), first.store)
            && GetAvailableSlots(links, windows, first.store, Slug, day) == Ok([TimeSlot(HalfPastNine, TenAm, true)])
  {
    FirstWindowStored(owner, day, today);
    GeneratorExamples();
    StartsBooked(linkId, day);
    SlotsOffered(owner, day, linkId, [], {}, [TimeSlot(NineAm, HalfPastNine, true), TimeSlot(HalfPastNine, TenAm, true)]);
    AdaBooks(owner, day, linkId);
    BobConflicts(owner, day, linkId);
    SlotsOffered(owner, day, linkId, [AdaBooking(linkId, day)], {NineAm}, [TimeSlot(HalfPastNine, TenAm, true)]);
  }

  lemma StartsBooked(linkId: nat, day: int)
    ensures BookedStarts(FindByBookingLink([], linkId, day)) == {}
    ensures BookedStarts(FindByBookingLink([AdaBooking(linkId, day)], linkId, day)) == {NineAm}
  {
    var b := AdaBooking(linkId, day);
    assert FindByBookingLink([b], linkId, day) == [b];
    assert BookedStarts([b]) == {NineAm};
  }
}
