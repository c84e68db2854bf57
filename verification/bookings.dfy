/** The booking coordinator: reserves one thirty-minute slot of a link for a visitor,
    and lists a link's bookings for a day. The transaction is one atomic step from one
    store value to the next. */
module Bookings {
  import opened Results
  import opened Clock
  import opened Links

  /** A stored booking; times in seconds after midnight. */
  datatype Booking = Booking(
    id: nat, linkId: nat, date: int, startTime: nat, endTime: nat,
    visitorName: string, visitorEmail: string)

  /** What a visitor submits. */
  datatype BookSlotInput = BookSlotInput(
    slug: string, date: int, startTime: string, visitorName: string, visitorEmail: string)

  /** The input type's format rule: only the start time is constrained, by the `HH:MM`
      pattern; the slug and the visitor's name are any strings. */
  predicate InputValid(input: BookSlotInput)
  {
    MatchesTimePattern(input.startTime)
  }

  /** The error code of a unique-constraint violation. */
  const UniqueViolation: string := "23505"

  predicate SameSlot(b: Booking, linkId: nat, date: int, startTime: nat)
  {
    b.linkId == linkId && b.date == date && b.startTime == startTime
  }

  predicate Booked(store: seq<Booking>, linkId: nat, date: int, startTime: nat)
  {
    exists i :: 0 <= i < |store| && SameSlot(store[i], linkId, date, startTime)
  }

  /** The store invariant: (link, date, startTime) identifies at most one booking. */
  ghost predicate UniqueSlots(store: seq<Booking>)
  {
    forall i, j :: 0 <= i < |store| && 0 <= j < |store| && i != j ==>
      !SameSlot(store[i], store[j].linkId, store[j].date, store[j].startTime)
  }

  /** The wall-clock time thirty minutes after `start`; past midnight it wraps to the
      early hours, as formatting the next day's instant does. */
  function EndOf(start: nat): (e: nat)
    requires start < SecondsPerDay
    ensures e < SecondsPerDay
    ensures e == start + SlotLength || e + SecondsPerDay == start + SlotLength
    ensures start + SlotLength < SecondsPerDay ==> e == start + SlotLength
  {
    (start + SlotLength) % SecondsPerDay
  }

  /** The errors the store may raise during one `bookSlot` call, each by its code:
      opening the connection or the transaction, the locked lookup, the save or the
      commit, the rollback after a failure, and the release of the connection. */
  datatype Faults = Faults(
    connect: Option<string>, lookup: Option<string>, save: Option<string>,
    rollback: Option<string>, release: Option<string>)

  const NoFaults: Faults := Faults(None, None, None, None, None)

  /** At most the save or the commit fails: the transaction opens, reaches its lookup,
      and reports what it raised. */
  predicate Undisturbed(f: Faults)
  {
    f.connect.None? && f.lookup.None? && f.rollback.None? && f.release.None?
  }

  /** How the handler reports an error raised inside the transaction: a
      unique-constraint violation is a conflict, anything else is passed on. */
  function Reported(code: string): (e: Error)
    ensures e == SlotTaken <==> code == UniqueViolation
    ensures e != SlotTaken ==> e == StorageFailure(code)
  {
    if code == UniqueViolation then SlotTaken else StorageFailure(code)
  }

  /** The booking the transaction inserts. */
  function NewBooking(link: BookingLink, input: BookSlotInput, start: nat, id: nat): Booking
    requires start < SecondsPerDay
  {
    Booking(id, link.id, input.date, start, EndOf(start), input.visitorName, input.visitorEmail)
  }

  /** The transaction, from opening the connection to releasing it: a locked lookup of
      the triple, then the insert and the commit. An error inside is rolled back and
      reported; an error of the rollback itself replaces it; an error of the release
      replaces any outcome, including a committed booking. */
  function Commit(
    store: seq<Booking>, link: BookingLink, input: BookSlotInput, start: nat, id: nat,
    faults: Faults): (r: Step<Booking, Booking>)
    requires start < SecondsPerDay
    ensures faults.connect.Some? ==> r == Step(Err(StorageFailure(faults.connect.value)), store)
    ensures r.result.Ok? <==>
              && faults.connect.None? && faults.lookup.None? && faults.save.None? && faults.release.None?
              && !Booked(store, link.id, input.date, start)
    ensures r.store == store || r.store == store + [NewBooking(link, input, start, id)]
    ensures r.store != store <==>
              faults.connect.None? && faults.lookup.None? && faults.save.None? && !Booked(store, link.id, input.date, start)
    ensures r.result.Err? && faults.release.None? ==> r.store == store
    ensures r.result.Ok? ==> r.result.value == NewBooking(link, input, start, id) && r.store == store + [r.result.value]
    ensures faults.connect.None? && faults.release.Some? ==> r.result == Err(StorageFailure(faults.release.value))
    ensures faults.connect.None? && faults.lookup.Some? && faults.rollback.None? && faults.release.None? ==>
              r.result == Err(Reported(faults.lookup.value))
    ensures faults.connect.None? && faults.rollback.Some? && faults.release.None? && r.result.Err? ==>
              r.result == Err(StorageFailure(faults.rollback.value))
    ensures Undisturbed(faults) && Booked(store, link.id, input.date, start) ==> r.result == Err(SlotTaken)
    ensures Undisturbed(faults) && !Booked(store, link.id, input.date, start) ==>
      match faults.save
      case None => r.result.Ok?
      case Some(code) => r.result == Err(Reported(code))
    ensures UniqueSlots(store) ==> UniqueSlots(r.store)
  {
    if faults.connect.Some? then Step(Err(StorageFailure(faults.connect.value)), store)
    else
      var b := NewBooking(link, input, start, id);
      var raised: Option<Error> :=
        if faults.lookup.Some? then Some(Reported(faults.lookup.value))
        else if Booked(store, link.id, input.date, start) then Some(SlotTaken)
        else if faults.save.Some? then Some(Reported(faults.save.value))
        else None;
      var settled: Step<Booking, Booking> :=
        match raised
        case None =>
          var s := store + [b];
          assert forall i :: 0 <= i < |store| ==> s[i] == store[i] && !SameSlot(s[i], b.linkId, b.date, b.startTime);
          Step(Ok(b), s)
        case Some(e) =>
          Step(Err(if faults.rollback.Some? then StorageFailure(faults.rollback.value) else e), store);
      assert |store + [b]| != |store|;
      if faults.release.Some? then Step(Err(StorageFailure(faults.release.value)), settled.store) else settled
  }

  /** The steps of `bookSlot` after the input is read: resolve the slug (outside the
      transaction), fail if the start time could not be read, else run the transaction.
      No check that the slot lies in the owner's availability or on the thirty-minute grid. */
  function Reserve(
    links: seq<BookingLink>, store: seq<Booking>, input: BookSlotInput, start: Option<nat>, id: nat,
    faults: Faults): (r: Step<Booking, Booking>)
    requires start.Some? ==> start.value < SecondsPerDay
    ensures FindOneBySlug(links, input.slug).Err? ==> r == Step(Err(LinkNotFound), store)
    ensures FindOneBySlug(links, input.slug).Ok? && start.None? ==> r == Step(Err(InvalidTimeValue), store)
    ensures FindOneBySlug(links, input.slug).Ok? && start.Some? ==>
              r == Commit(store, FindOneBySlug(links, input.slug).value, input, start.value, id, faults)
    ensures r.result.Err? && faults.release.None? ==> r.store == store
    ensures r.result.Ok? ==>
      var b := r.result.value;
      && r.store == store + [b]
      && FindOneBySlug(links, input.slug).Ok? && b.linkId == FindOneBySlug(links, input.slug).value.id
      && start == Some(b.startTime)
      && b.endTime == EndOf(b.startTime)
      && b.date == input.date && b.id == id
      && b.visitorName == input.visitorName && b.visitorEmail == input.visitorEmail
    ensures UniqueSlots(store) ==> UniqueSlots(r.store)
  {
    match FindOneBySlug(links, input.slug)
    case Err(e) => Step(Err(e), store)
    case Ok(link) =>
      match start
      case None => Step(Err(InvalidTimeValue), store)
      case Some(t) => Commit(store, link, input, t, id, faults)
  }

  /** `bookSlot` as written: the start time is read with the `HH:mm:ss` format, and the
      end time is thirty minutes later on the wall clock. Both happen before the
      transaction opens, so an unreadable start fails whatever the store would do. */
  function BookSlot(
    links: seq<BookingLink>, store: seq<Booking>, input: BookSlotInput, id: nat,
    faults: Faults): (r: Step<Booking, Booking>)
    ensures FindOneBySlug(links, input.slug).Err? ==> r == Step(Err(LinkNotFound), store)
    ensures FindOneBySlug(links, input.slug).Ok? && ParseClock(input.startTime).None? ==>
              r == Step(Err(InvalidTimeValue), store)
    ensures FindOneBySlug(links, input.slug).Ok? && ParseClock(input.startTime).Some? ==>
              r == Commit(store, FindOneBySlug(links, input.slug).value, input, ParseClock(input.startTime).value, id, faults)
    ensures r.result.Err? && faults.release.None? ==> r.store == store
    ensures r.result.Ok? ==>
      var b := r.result.value;
      && r.store == store + [b]
      && FindOneBySlug(links, input.slug).Ok? && b.linkId == FindOneBySlug(links, input.slug).value.id
      && Some(b.startTime) == ParseClock(input.startTime)
      && b.endTime == EndOf(b.startTime)
      && b.date == input.date && b.id == id
      && b.visitorName == input.visitorName && b.visitorEmail == input.visitorEmail
    ensures UniqueSlots(store) ==> UniqueSlots(r.store)
  {
    Reserve(links, store, input, ParseClock(input.startTime), id, faults)
  }

  /** A start time read in the `HH:mm:ss` form `bookSlot` parses or, failing that, in
      the `H:MM`/`HH:MM` form its input type documents. */
  function ReadStart(s: string): (r: Option<nat>)
    ensures MatchesTimePattern(s) ==> r.Some? && r == ParseHHMM(s)
    ensures ParseClock(s).Some? ==> r == ParseClock(s)
    ensures r.Some? ==> r.value < SecondsPerDay
  {
    PatternNeverParsesAsClock(s);
    PatternIffReadable(s);
    if ParseClock(s).Some? then ParseClock(s) else ParseHHMM(s)
  }

  /** `bookSlot` reading the start time in either form: it books every start the input
      type admits and behaves exactly as written on `HH:mm:ss` starts. */
  function BookSlotReadingEitherForm(
    links: seq<BookingLink>, store: seq<Booking>, input: BookSlotInput, id: nat,
    faults: Faults): (r: Step<Booking, Booking>)
    ensures ParseClock(input.startTime).Some? ==> r == BookSlot(links, store, input, id, faults)
    ensures InputValid(input) && FindOneBySlug(links, input.slug).Ok? && faults == NoFaults
            && !Booked(store, FindOneBySlug(links, input.slug).value.id, input.date, ParseHHMM(input.startTime).value)
            ==> r.result.Ok? && Some(r.result.value.startTime) == ParseHHMM(input.startTime)
    ensures r.result.Err? && faults.release.None? ==> r.store == store
    ensures r.result.Ok? ==> r.store == store + [r.result.value]
    ensures UniqueSlots(store) ==> UniqueSlots(r.store)
  {
    Reserve(links, store, input, ReadStart(input.startTime), id, faults)
  }

  /** `findByBookingLink`: the link's bookings on that day, each as often as stored,
      in store order. */
  function FindByBookingLink(store: seq<Booking>, linkId: nat, date: int): (r: seq<Booking>)
    ensures forall b :: b in r <==> b in store && b.linkId == linkId && b.date == date
    ensures forall b :: multiset(r)[b] == if b.linkId == linkId && b.date == date then multiset(store)[b] else 0
  {
    if |store| == 0 then []
    else
      var rest := FindByBookingLink(store[1..], linkId, date);
      assert store == [store[0]] + store[1..];
      if store[0].linkId == linkId && store[0].date == date then [store[0]] + rest else rest
  }

  // ---------------------------------------------------------------------------
  // Properties

  /** The visitor's name and email are stored as given and decide nothing: changing
      them changes neither whether `bookSlot` fails nor with what, nor whether it
      stores a booking; on success only the stored booking's visitor fields differ. */
  lemma VisitorFieldsDoNotAffectOutcome(
    links: seq<BookingLink>, store: seq<Booking>, input: BookSlotInput, id: nat, faults: Faults,
    name: string, email: string)
    ensures var other := input.(visitorName := name, visitorEmail := email);
            var r1 := BookSlot(links, store, input, id, faults);
            var r2 := BookSlot(links, store, other, id, faults);
            && (r1.result.Err? <==> r2.result.Err?)
            && (r1.result.Err? ==> r1.result == r2.result)
            && (r1.result.Ok? ==> r2.result.value == r1.result.value.(visitorName := name, visitorEmail := email))
            && (r1.store == store <==> r2.store == store)
  {
    var other := input.(visitorName := name, visitorEmail := email);
    if FindOneBySlug(links, input.slug).Ok? && ParseClock(input.startTime).Some? {
      var link, start := FindOneBySlug(links, input.slug).value, ParseClock(input.startTime).value;
      assert Booked(store, link.id, input.date, start) == Booked(store, link.id, other.date, start);
    }
  }

  /** The booking input accepts "09:30" and "9:30" and refuses "24:00", "12:60" and
      the "09:30:00" form that `bookSlot` parses. */
  lemma StartTimeExamples(slug: string, date: int, name: string, email: string)
    ensures InputValid(BookSlotInput(slug, date, "09:30", name, email))
    ensures InputValid(BookSlotInput(slug, date, "9:30", name, email))
    ensures !InputValid(BookSlotInput(slug, date, "24:00", name, email))
    ensures !InputValid(BookSlotInput(slug, date, "12:60", name, email))
    ensures !InputValid(BookSlotInput(slug, date, "09:30:00", name, email))
  {
    PatternExamples();
  }

  /** The start times the input type admits are exactly the `H:MM`/`HH:MM` ones, none
      of which the `HH:mm:ss` parser reads: with the validator in front, `bookSlot`
      fails on every valid input whose slug resolves. */
  lemma ValidInputNeverParses(links: seq<BookingLink>, store: seq<Booking>, input: BookSlotInput, id: nat, faults: Faults)
    requires InputValid(input) && FindOneBySlug(links, input.slug).Ok?
    ensures BookSlot(links, store, input, id, faults) == Step(Err(InvalidTimeValue), store)
  {
    PatternNeverParsesAsClock(input.startTime);
  }

  /** Two bookings of the same triple in a row, the start spelled either way
      ("09:30:00" or "9:30:00"): the first is stored, the second is a conflict and
      leaves the store as the first left it. */
  lemma SecondBookingConflicts(
    links: seq<BookingLink>, store: seq<Booking>, first: BookSlotInput, second: BookSlotInput, id1: nat, id2: nat,
    start: nat)
    requires second.slug == first.slug && second.date == first.date
    requires ParseClock(first.startTime) == Some(start) && ParseClock(second.startTime) == Some(start)
    requires FindOneBySlug(links, first.slug).Ok?
    requires !Booked(store, FindOneBySlug(links, first.slug).value.id, first.date, start)
    ensures var r1 := BookSlot(links, store, first, id1, NoFaults);
            var r2 := BookSlot(links, r1.store, second, id2, NoFaults);
            r1.result.Ok? && r2 == Step(Err(SlotTaken), r1.store)
  {
    var r1 := BookSlot(links, store, first, id1, NoFaults);
    assert SameSlot(r1.store[|store|], FindOneBySlug(links, first.slug).value.id, first.date, start);
  }

  // ---------------------------------------------------------------------------
  // Racing requests, serialised

  /** One request: what the visitor submits, the id its booking would get, and the
      errors the store raises while serving it. */
  datatype Attempt = Attempt(input: BookSlotInput, id: nat, faults: Faults)

  datatype Run = Run(outcomes: seq<Result<Booking>>, store: seq<Booking>)

  /** Attempts applied one after another, as a serialisable execution orders them. */
  function BookInOrder(links: seq<BookingLink>, store: seq<Booking>, attempts: seq<Attempt>): (run: Run)
    ensures |run.outcomes| == |attempts|
    ensures UniqueSlots(store) ==> UniqueSlots(run.store)
    decreases |attempts|
  {
    if |attempts| == 0 then Run([], store)
    else
      var step := BookSlotReadingEitherForm(links, store, attempts[0].input, attempts[0].id, attempts[0].faults);
      var rest := BookInOrder(links, step.store, attempts[1..]);
      Run([step.result] + rest.outcomes, rest.store)
  }

  /** The number of stored bookings of one triple. */
  function CountSlot(store: seq<Booking>, linkId: nat, date: int, startTime: nat): (n: nat)
    ensures n == 0 <==> !Booked(store, linkId, date, startTime)
  {
    if |store| == 0 then 0
    else
      var n := CountSlot(store[..|store| - 1], linkId, date, startTime);
      assert forall i :: 0 <= i < |store| - 1 ==> store[..|store| - 1][i] == store[i];
      n + (if SameSlot(store[|store| - 1], linkId, date, startTime) then 1 else 0)
  }

  lemma CountSlotAppend(store: seq<Booking>, b: Booking, linkId: nat, date: int, startTime: nat)
    ensures CountSlot(store + [b], linkId, date, startTime)
            == CountSlot(store, linkId, date, startTime) + (if SameSlot(b, linkId, date, startTime) then 1 else 0)
  {
    assert (store + [b])[..|store|] == store;
  }

  lemma ReadsPaddedClock()
    ensures ParseClock("09:30:00") == Some(34200)
  {
    var t := "09:30:00";
    assert ':' !in t[..2];
    assert IndexOf(t, ':') == Some(2);
    assert t[3..] == "30:00" && ':' !in t[3..][..2];
    assert IndexOf(t[3..], ':') == Some(2);
    assert t[..2] == "09" && t[3..][..2] == "30" && t[3..][3..] == "00";
  }

  lemma ReadsUnpaddedClock()
    ensures ParseClock("9:30:00") == Some(34200)
  {
    var t := "9:30:00";
    assert ':' !in t[..1];
    assert IndexOf(t, ':') == Some(1);
    assert t[2..] == "30:00" && ':' !in t[2..][..2];
    assert IndexOf(t[2..], ':') == Some(2);
    assert t[..1] == "9" && t[2..][..2] == "30" && t[2..][3..] == "00";
  }

  lemma ReadsPatternTime()
    ensures ParseHHMM("09:30") == Some(34200)
  {
    var t := "09:30";
    assert ':' !in t[..2];
    assert IndexOf(t, ':') == Some(2);
    assert t[..2] == "09" && t[3..] == "30";
  }

  /** Three spellings of half past nine that name one triple. */
  lemma SpellingsOfOneStart()
    ensures ReadStart("09:30:00") == Some(34200)
    ensures ReadStart("9:30:00") == Some(34200)
    ensures ReadStart("09:30") == Some(34200)
  {
    ReadsPaddedClock();
    ReadsUnpaddedClock();
    ReadsPatternTime();
    PatternExamples();
  }

  /** Every attempt names the slug and the date and a start time that reads as `start`,
      however it is spelled: "09:30:00", "9:30:00" and "09:30" are one triple. */
  predicate AllFor(attempts: seq<Attempt>, slug: string, date: int, start: nat)
  {
    forall k :: 0 <= k < |attempts| ==>
      attempts[k].input.slug == slug && attempts[k].input.date == date && ReadStart(attempts[k].input.startTime) == Some(start)
  }

  lemma AllForTail(attempts: seq<Attempt>, slug: string, date: int, start: nat)
    requires |attempts| > 0 && AllFor(attempts, slug, date, start)
    ensures AllFor(attempts[1..], slug, date, start)
  {
    forall k | 0 <= k < |attempts[1..]| ensures attempts[1..][k] == attempts[k + 1] { }
  }

  /** One attempt at the triple: it stores the triple's booking or nothing, succeeds
      only if it stored it, and cannot store it twice. */
  lemma AttemptStep(links: seq<BookingLink>, store: seq<Booking>, a: Attempt, slug: string, date: int, start: nat)
    requires a.input.slug == slug && a.input.date == date && ReadStart(a.input.startTime) == Some(start)
    requires FindOneBySlug(links, slug).Ok?
    ensures var link := FindOneBySlug(links, slug).value;
            var step := BookSlotReadingEitherForm(links, store, a.input, a.id, a.faults);
            var b := NewBooking(link, a.input, start, a.id);
            && SameSlot(b, link.id, date, start)
            && (step.store == store || step.store == store + [b])
            && (step.result.Ok? ==> step.store == store + [b])
            && (step.store == store ==> step.result.Err?)
            && (Booked(store, link.id, date, start) ==> step.store == store)
            && (Booked(store, link.id, date, start) && Undisturbed(a.faults) ==> step.result == Err(SlotTaken))
            && (!Booked(store, link.id, date, start) && a.faults == NoFaults ==> step.result.Ok?)
  {
    var link := FindOneBySlug(links, slug).value;
    assert BookSlotReadingEitherForm(links, store, a.input, a.id, a.faults) == Commit(store, link, a.input, start, a.id, a.faults);
  }

  /** Every attempt failed, and each one the store served without a fault outside
      the save failed as a conflict. */
  predicate AllRefused(outcomes: seq<Result<Booking>>, attempts: seq<Attempt>)
  {
    && |outcomes| == |attempts|
    && forall k :: 0 <= k < |outcomes| ==>
         outcomes[k].Err? && (Undisturbed(attempts[k].faults) ==> outcomes[k] == Err(SlotTaken))
  }

  /** No attempt after a successful one succeeds, and each one after it the store
      served without a fault outside the save is a conflict. */
  predicate NoneAfterWin(outcomes: seq<Result<Booking>>, attempts: seq<Attempt>)
  {
    && |outcomes| == |attempts|
    && forall i, j :: 0 <= i < j < |outcomes| && outcomes[i].Ok? ==>
         outcomes[j].Err? && (Undisturbed(attempts[j].faults) ==> outcomes[j] == Err(SlotTaken))
  }

  predicate Won(outcomes: seq<Result<Booking>>)
  {
    exists i :: 0 <= i < |outcomes| && outcomes[i].Ok?
  }

  lemma RefusedCons(o: Result<Booking>, rest: seq<Result<Booking>>, attempts: seq<Attempt>)
    requires |attempts| > 0 && o.Err? && (Undisturbed(attempts[0].faults) ==> o == Err(SlotTaken))
    requires AllRefused(rest, attempts[1..])
    ensures AllRefused([o] + rest, attempts)
  {
    var os := [o] + rest;
    forall k | 1 <= k < |os| ensures os[k] == rest[k - 1] && attempts[k] == attempts[1..][k - 1] { }
  }

  lemma LossCons(o: Result<Booking>, rest: seq<Result<Booking>>, attempts: seq<Attempt>)
    requires |attempts| > 0 && o.Err? && NoneAfterWin(rest, attempts[1..])
    ensures NoneAfterWin([o] + rest, attempts)
    ensures Won([o] + rest) <==> Won(rest)
  {
    var os := [o] + rest;
    forall k | 1 <= k < |os| ensures os[k] == rest[k - 1] && attempts[k] == attempts[1..][k - 1] { }
    if Won(os) {
      var i :| 0 <= i < |os| && os[i].Ok?;
      assert rest[i - 1].Ok?;
    }
    if Won(rest) {
      var i :| 0 <= i < |rest| && rest[i].Ok?;
      assert os[i + 1].Ok?;
    }
  }

  lemma WinCons(o: Result<Booking>, rest: seq<Result<Booking>>, attempts: seq<Attempt>)
    requires |attempts| > 0 && AllRefused(rest, attempts[1..])
    ensures NoneAfterWin([o] + rest, attempts)
  {
    var os := [o] + rest;
    forall k | 1 <= k < |os| ensures os[k] == rest[k - 1] && attempts[k] == attempts[1..][k - 1] { }
  }

  /** Once the triple is booked, no further attempt at it, however its start is
      spelled, succeeds or changes the store, whatever the store raises; each one the store serves without a fault
      outside the save is a conflict. */
  lemma {:induction false} LaterAttemptsConflict(
    links: seq<BookingLink>, store: seq<Booking>, attempts: seq<Attempt>, slug: string, date: int, start: nat)
    requires AllFor(attempts, slug, date, start)
    requires FindOneBySlug(links, slug).Ok?
    requires Booked(store, FindOneBySlug(links, slug).value.id, date, start)
    ensures var run := BookInOrder(links, store, attempts);
            run.store == store && AllRefused(run.outcomes, attempts)
  {
    if |attempts| > 0 {
      var a := attempts[0];
      var step := BookSlotReadingEitherForm(links, store, a.input, a.id, a.faults);
      AttemptStep(links, store, a, slug, date, start);
      AllForTail(attempts, slug, date, start);
      LaterAttemptsConflict(links, store, attempts[1..], slug, date, start);
      RefusedCons(step.result, BookInOrder(links, store, attempts[1..]).outcomes, attempts);
    }
  }

  /** Any attempts at one free (link, date, startTime), however their starts are
      spelled and whatever errors the store raises: no attempt after a successful one succeeds, each one after it served
      without a fault outside the save is a conflict, and the store ends with at most
      one booking of the triple, exactly one when an attempt succeeded. */
  lemma {:induction false} AtMostOneWinner(
    links: seq<BookingLink>, store: seq<Booking>, attempts: seq<Attempt>, slug: string, date: int, start: nat)
    requires AllFor(attempts, slug, date, start)
    requires FindOneBySlug(links, slug).Ok?
    requires !Booked(store, FindOneBySlug(links, slug).value.id, date, start)
    ensures var run := BookInOrder(links, store, attempts);
            var linkId := FindOneBySlug(links, slug).value.id;
            && NoneAfterWin(run.outcomes, attempts)
            && CountSlot(run.store, linkId, date, start) <= 1
            && (Won(run.outcomes) ==> CountSlot(run.store, linkId, date, start) == 1)
  {
    var link := FindOneBySlug(links, slug).value;
    if |attempts| > 0 {
      var a := attempts[0];
      var step := BookSlotReadingEitherForm(links, store, a.input, a.id, a.faults);
      AttemptStep(links, store, a, slug, date, start);
      AllForTail(attempts, slug, date, start);
      var rest := BookInOrder(links, step.store, attempts[1..]);
      if step.store == store {
        AtMostOneWinner(links, store, attempts[1..], slug, date, start);
        LossCons(step.result, rest.outcomes, attempts);
      } else {
        var b := NewBooking(link, a.input, start, a.id);
        CountSlotAppend(store, b, link.id, date, start);
        assert SameSlot(step.store[|store|], link.id, date, start);
        LaterAttemptsConflict(links, step.store, attempts[1..], slug, date, start);
        WinCons(step.result, rest.outcomes, attempts);
      }
    }
  }

  /** The fault-free case: of any number of attempts at one free triple, the first
      succeeds, every other one the store serves without a fault outside the save is
      a conflict, and the store ends with exactly one booking of it. */
  lemma ExactlyOneWinner(
    links: seq<BookingLink>, store: seq<Booking>, attempts: seq<Attempt>, slug: string, date: int, start: nat)
    requires |attempts| >= 1 && AllFor(attempts, slug, date, start)
    requires attempts[0].faults == NoFaults && forall k :: 1 <= k < |attempts| ==> Undisturbed(attempts[k].faults)
    requires FindOneBySlug(links, slug).Ok?
    requires !Booked(store, FindOneBySlug(links, slug).value.id, date, start)
    ensures var run := BookInOrder(links, store, attempts);
            && run.outcomes[0].Ok?
            && (forall k :: 1 <= k < |attempts| ==> run.outcomes[k] == Err(SlotTaken))
            && CountSlot(run.store, FindOneBySlug(links, slug).value.id, date, start) == 1
  {
    var a := attempts[0];
    var step := BookSlotReadingEitherForm(links, store, a.input, a.id, a.faults);
    AttemptStep(links, store, a, slug, date, start);
    AtMostOneWinner(links, store, attempts, slug, date, start);
    var run := BookInOrder(links, store, attempts);
    assert run.outcomes[0] == step.result;
    assert Won(run.outcomes);
    forall k | 1 <= k < |attempts| ensures run.outcomes[k] == Err(SlotTaken) {
      assert Undisturbed(attempts[k].faults);
    }
  }
}
