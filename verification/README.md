# Scheduling engine core, modelled in Dafny

This project models the core of a small meeting-scheduling backend. An owner
publishes windows of free time on given days and shares a booking link. A visitor
opens the link and sees the thirty-minute slots still free on a day. The visitor
books one slot. No slot may ever be booked twice.

The model has three parts:

- **The availability store** (`AvailabilityStore`, `availability.dfy`).
  - `create` validates the `HH:MM` inputs, refuses an end string that sorts at or before the start string, refuses a past date and refuses a window that overlaps one of the owner's windows that day.
  - `findAll` lists an owner's windows by date, then by start time.
  - `remove` deletes a window only when its owner asks.
- **The slot generator** (`Slots`, `slots.dfy`, and `SlotService`, `slot_service.dfy`).
  - `getAvailableSlots` resolves the link.
  - It takes the owner's windows for the day and collects the start times already booked through the link.
  - It walks each window in thirty-minute steps and emits every step that fits wholly inside the window and is not booked.
  - `findOneBySlug` (`Links`, `links.dfy`) resolves an active link by its slug.
- **The booking coordinator** (`Bookings`, `bookings.dfy`).
  - `bookSlot` resolves the slug and parses the start time with the `HH:mm:ss` format.
  - It computes the end time thirty minutes later on the wall clock.
  - In one transaction it refuses an already booked (link, date, start) triple and inserts the booking. A unique-constraint violation (code `23505`) becomes a conflict.
  - `findByBookingLink` lists a link's bookings for a day.

Shared pieces:

- `Clock` (`clock.dfy`) models time strings:
  - the `HH:MM` pattern `^([0-1]?[0-9]|2[0-3]):[0-5][0-9]$`, character by character;
  - how a `time` column reads such a string;
  - `HH:mm:ss` parsing and formatting;
  - JavaScript's lexicographic string `<=`.
- `Results` (`results.dfy`) holds the error cases and the `Option`, `Result` and `Step` wrappers.
- `Scenario` (`scenario.dfy`) follows one owner and two visitors end to end.

How the model represents the system:

- Times are seconds after midnight.
- Dates are integers in day order.
- Each table is a sequence.
- Every operation is a pure function from the old store to a `Step` value. A `Step` holds the result (a value or an error) and the new store.
- Database-generated ids are parameters.
- The current date (`today`) is a parameter.
- The errors the store raises during one booking, and their codes, are the parameter `faults`. A fault can occur when opening the connection or transaction, in the locked lookup, in the save or commit, in the rollback, or in the release of the connection.

## Model

| member | source | states |
|---|---|---|
| Clock.PatternIffReadable | backend/src/availability/dto/create-availability.input.ts:12 | A string matches the `HH:MM` pattern exactly when it reads as an hour below 24 and a minute below 60, so every validated time is a time of day |
| Clock.PatternExamples | backend/src/availability/dto/create-availability.input.ts:17 | The pattern accepts "09:30", "23:59", "00:00" and "9:30", and refuses "24:00", "12:60", "09:30:00" and "930" |
| Clock.ClockRoundTrip | backend/src/booking-link/booking-link.service.ts:66-73 | Parsing the `HH:mm:ss` text of a time of day gives back that time, so the generator's format and parse steps lose nothing |
| Clock.FormatClockInjective | backend/src/booking-link/booking-link.service.ts:61-75 | Two times of day format to the same `HH:mm:ss` text exactly when they are equal, so testing the set of booked strings is testing the booked times |
| Clock.PatternNeverParsesAsClock | backend/src/booking/booking.service.ts:26 | No string the `HH:MM` pattern admits is read by the `HH:mm:ss` parser |
| Clock.ZeroPaddedLexOrder | backend/src/availability/availability.service.ts:17 | On two zero-padded `HH:MM` strings, string order is time order |
| Clock.SingleDigitHourBreaksLexOrder | backend/src/availability/availability.service.ts:17 | "10:00" sorts before "9:30" as strings although 10:00 is after 9:30 |
| AvailabilityStore.Admit | backend/src/availability/availability.service.ts:21-47 | Past date gives DateInPast. Otherwise the window is stored exactly when it overlaps none of the owner's windows that day, and on an overlap the result is OverlapsExisting. On failure the store is unchanged; on success exactly this window is appended |
| AvailabilityStore.Create | backend/src/availability/availability.service.ts:15-48 | A time failing the pattern gives BadTimeFormat. An end string at or before the start string gives EndNotAfterStart. Otherwise the result is that of the date and overlap checks on the window the strings denote, and a failed call leaves the store unchanged |
| AvailabilityStore.CreatePreservesNonOverlapping | backend/src/availability/availability.service.ts:26-38 | `create` keeps the windows of each (owner, date) pairwise disjoint; windows that only touch do not conflict |
| AvailabilityStore.CreateInTimeOrder | backend/src/availability/availability.service.ts:15-48 | The corrected end-after-start test. An end at or before the start, as times, gives EndNotAfterStart. A start before the end goes on to the date and overlap checks on the window the strings denote. Every stored window starts before it ends |
| AvailabilityStore.CreateInTimeOrderPreservesInvariants | backend/src/availability/availability.service.ts:15-48 | The corrected `create` keeps the store disjoint and every window non-empty |
| AvailabilityStore.CreateAgreesOnZeroPadded | backend/src/availability/availability.service.ts:17 | On zero-padded inputs the written and the corrected `create` give the same result and store |
| AvailabilityStore.CreateAcceptsReversedWindow | backend/src/availability/availability.service.ts:17 | As written, "10:00"-"9:00" is stored although it ends before it starts |
| AvailabilityStore.CreateRejectsForwardWindow | backend/src/availability/availability.service.ts:17-19 | As written, "9:30"-"10:00" is refused as ending before it starts; the corrected version stores it |
| AvailabilityStore.TouchingWindowsDoNotConflict | backend/src/availability/availability.service.ts:31 | 09:00-10:00 and then 10:00-11:00 are both stored; 09:30-10:30 after 09:00-10:00 is an overlap |
| AvailabilityStore.FindAll | backend/src/availability/availability.service.ts:50-55 | The result is ordered by date, then start time. It is a permutation of the owner's stored windows, and a window is listed exactly when it is stored and belongs to the owner |
| AvailabilityStore.FindAllNonOverlapping | backend/src/availability/availability.service.ts:50-55 | The listing of a disjoint store is disjoint |
| AvailabilityStore.Remove | backend/src/availability/availability.service.ts:57-60 | Reports true exactly when a window with that id belongs to the caller. Afterwards a window is stored exactly when it was stored before and is not that window of that caller |
| AvailabilityStore.RemoveKeepsOtherOwners | backend/src/availability/availability.service.ts:58 | `remove` leaves every other owner's windows exactly as they were, in order |
| AvailabilityStore.RemovePreservesNonOverlapping | backend/src/availability/availability.service.ts:57-60 | `remove` keeps the store disjoint |
| Slots.WindowSlots | backend/src/booking-link/booking-link.service.ts:66-84 | Every emitted slot lasts thirty minutes and is marked available. Its start is unbooked, on the window's thirty-minute grid, and the slot ends within the window. Starts strictly ascend |
| Slots.WindowSlotsComplete | backend/src/booking-link/booking-link.service.ts:69-81 | Every unbooked grid start whose slot fits inside the window is emitted |
| Slots.WindowSlotCount | backend/src/booking-link/booking-link.service.ts:69-71 | Without bookings a window yields floor(length / 30 min) slots; a trailing partial step is dropped |
| Slots.WindowSlotsConsecutive | backend/src/booking-link/booking-link.service.ts:70-83 | Without bookings the first slot starts at the window's start and each later slot starts thirty minutes after the previous one |
| Slots.Generate | backend/src/booking-link/booking-link.service.ts:65-85 | Every slot is offered (thirty minutes, available, unbooked) and lies on the grid of one of the windows |
| Slots.GenerateAppend | backend/src/booking-link/booking-link.service.ts:65 | Windows are walked in the order given: generating over two runs of windows is generating over each in turn |
| Slots.GenerateComplete | backend/src/booking-link/booking-link.service.ts:65-85 | Every unbooked grid start of any window is offered |
| Slots.GenerateAscending | backend/src/booking-link/booking-link.service.ts:65-85 | Over windows in time order, each ending before the next begins, the slots strictly ascend |
| Slots.GenerateSlots | backend/src/booking-link/booking-link.service.ts:63-87 | The nested loops compute exactly the generator's result |
| Links.FindOneBySlug | backend/src/booking-link/booking-link.service.ts:31-40 | Returns a stored active link with that slug. NotFound is returned exactly when no active link carries it, so an inactive link is treated as an unknown one |
| Links.FindOneBySlugFindsIt | backend/src/booking-link/entities/booking-link.entity.ts:15-19 | With unique slugs, every active link is found by its own slug |
| SlotService.GetAvailableSlots | backend/src/booking-link/booking-link.service.ts:49-88 | Fails with NotFound exactly when the slug does not resolve. Otherwise every slot lasts thirty minutes and is available. Each slot lies on the grid of one of the link owner's windows on that date, and no booking through the link that day starts at it |
| SlotService.GetAvailableSlotsComplete | backend/src/booking-link/booking-link.service.ts:54-85 | Every grid start of one of the owner's windows on that date that nobody booked through the link is offered |
| SlotService.GetAvailableSlotsAscending | backend/src/booking-link/booking-link.service.ts:54-85 | Over a store whose windows do not overlap, the offered slots strictly ascend by start time. Empty and reversed windows yield nothing and may sit anywhere |
| Bookings.EndOf | backend/src/booking/booking.service.ts:27-28 | The end is a time of day thirty minutes after the start, wrapping past midnight |
| Bookings.Commit | backend/src/booking/booking.service.ts:31-74 | A failure to open the connection is passed on and changes nothing. The booking is stored exactly when the lookup and save succeed and the triple is free. It is reported as stored exactly when, in addition, the release succeeds. A lookup error is reported even when the triple is booked, with 23505 mapped to SlotTaken. Without faults outside the save, a booked triple gives SlotTaken and a save error is reported the same way. A rollback error replaces the error being handled, and a release error replaces any outcome, even after a commit. Apart from that case, failures leave the store unchanged. The triple stays unique |
| Bookings.BookSlot | backend/src/booking/booking.service.ts:19-75 | An unknown slug gives NotFound. A start that does not parse as `HH:mm:ss` gives InvalidTimeValue. Both failures happen before any store access. Otherwise the result is the transaction's, with the link's id, the parsed start and the wrapped end. The store is unchanged on failure, except when the release fails after a commit. The triple stays unique |
| Bookings.ValidInputNeverParses | backend/src/booking/dto/book-slot.input.ts:16 | Every start the input type admits makes `bookSlot` fail with InvalidTimeValue once the slug resolves |
| Bookings.ReadStart | backend/src/booking/booking.service.ts:26 | Reads `HH:mm:ss` as the service does and falls back to `H:MM`/`HH:MM`, so every pattern-valid start is read |
| Bookings.BookSlotReadingEitherForm | backend/src/booking/booking.service.ts:19-75 | Agrees with `bookSlot` on `HH:mm:ss` starts. A valid `HH:MM` start of a free slot of a resolving link is booked at the time it denotes |
| Bookings.FindByBookingLink | backend/src/booking/booking.service.ts:77-81 | A booking is listed exactly when it is stored for that link and date, as often as it is stored |
| Bookings.VisitorFieldsDoNotAffectOutcome | backend/src/booking/booking.service.ts:50-57 | Changing the visitor's name or email changes neither whether nor how `bookSlot` fails, nor whether it stores. On success only the stored booking's visitor fields differ |
| Bookings.StartTimeExamples | backend/src/booking/dto/book-slot.input.ts:16 | The booking input accepts "09:30" and "9:30", and refuses "24:00", "12:60" and "09:30:00" |
| Bookings.SpellingsOfOneStart | backend/src/booking/entities/booking.entity.ts:18-20 | "09:30:00", "9:30:00" and "09:30" all read as half past nine, so they name one triple in the `time` column |
| Bookings.SecondBookingConflicts | backend/src/booking/booking.service.ts:37-48 | Booking one triple twice in a row stores the first and refuses the second with SlotTaken, leaving the store as the first left it. The two starts need only read as the same time, so "9:30:00" after "09:30:00" conflicts |
| Bookings.BookInOrder | backend/src/booking/entities/booking.entity.ts:7 | Serially applied attempts, each with its own faults, give one outcome each and keep every (link, date, start) triple unique |
| Bookings.CountSlot | backend/src/booking/entities/booking.entity.ts:7 | Zero bookings of a triple exactly when the triple is not booked |
| Bookings.LaterAttemptsConflict | backend/src/booking/booking.service.ts:37-48 | Once a triple is booked, no further attempt at it succeeds or changes the store, whatever faults occur and however each attempt spells the start. Each attempt without faults outside the save is SlotTaken |
| Bookings.AtMostOneWinner | backend/src/booking/booking.service.ts:31-74 | For attempts at one free triple under arbitrary faults, each spelling the start in any form that reads as that time: at most one succeeds and none after it does. Each later attempt without faults outside the save is SlotTaken. At most one booking of the triple is stored, and exactly one when an attempt succeeded |
| Bookings.ExactlyOneWinner | backend/src/booking/booking.service.ts:31-74 | For attempts at one free triple, their starts spelled in any form that reads as that time, when the first attempt meets no fault and the others none outside the save: the first succeeds, the rest are SlotTaken, and exactly one booking of the triple is stored |
| Scenario.GeneratorExamples | backend/src/booking-link/booking-link.service.ts:69-81 | 09:00-10:00 yields 09:00 and 09:30; with 09:00 booked only 09:30; a 45-minute window yields one slot |
| Scenario.EndToEnd | backend/src/booking-link/booking-link.service.ts:49-88 | A window 09:00-10:00 offers two slots. The first visitor books 09:00, a second visitor's 09:00 is a conflict, and only 09:30 is offered afterwards |

## Left out

- Concurrency and isolation are not modelled. The transaction is a single atomic step, and racing requests are modelled as attempts applied one after another (`BookInOrder`). This is what a serialisable schedule amounts to. The store's errors are inputs, not consequences of the interleaving. A serialisation failure (code 40001) or deadlock (40P01) is a lookup or save fault that some attempt carries. `AtMostOneWinner` holds whatever faults the attempts carry.
- Bookings.Commit: when opening the connection or the transaction fails, the service never releases the connection. Nothing of that is visible in results, and the model does not track connections.
- `bookSlot` does not test that a slot lies in the owner's availability, on the thirty-minute grid, or on a date that is not past. The model keeps those tests absent: `Commit` books any time of day.
- The booking link's `create` and `findAll`, slug generation and `createdAt` are outside the core, as are authentication, users, GraphQL resolvers, module wiring and the frontend.
- The `date` field is checked by `IsDateString` and compared as a `YYYY-MM-DD` string. Dates are modelled as integers, which agrees with string order on canonical dates. The `IsDateString` and `IsEmail` validators are not modelled.
- `today` is the UTC date taken from the clock. It is a parameter.
- date-fns parsing is modelled only on the strings that matter: 1–2 digit fields in range, separated by colons, with nothing trailing. Time zones, daylight-saving gaps and the reference date are left out.
- The `time` column's reading of a string is modelled only for strings that match the pattern. Those are the only strings `create` stores.
- Strings are sequences of Dafny characters; JavaScript compares UTF-16 code units. The two agree on the ASCII strings the pattern admits.
- The order of windows with equal date and start time in `findAll` is the database's and is not pinned down. `FindAll` fixes one order, and its contract promises only the sort key and the multiset.
- Ids come from the database; here they are parameters.
- Storage errors outside the booking transaction are not modelled. They propagate unhandled from availability `create`, `findAll` and `remove`, `findOneBySlug`, `getAvailableSlots` and `findByBookingLink`. The handlers add nothing to them, so `faults` covers only `bookSlot`'s transaction.
- Cascading deletes of an owner's links and bookings are outside the core.
- Bookings.BookInOrder: the serial model applies `BookSlotReadingEitherForm`. This covers the service as written for `HH:mm:ss` starts, the form the booking page sends (frontend/src/pages/BookingPage.tsx:70,171), because the two agree there. It also covers the `HH:MM` starts the input type admits, which the service as written refuses.
- Whether a global validation pipe runs in front of the resolvers cannot be seen in the source. The model treats the `HH:MM` pattern as the first check of `create`. `ValidInputNeverParses` and `PatternNeverParsesAsClock` cover both cases for `bookSlot`: a validated start never parses, and an unvalidated start parses only in the `HH:mm:ss` form.

## Findings

| source | as written | input that shows it | evidently intended | confidence | as-written member | corrected member |
|---|---|---|---|---|---|---|
| backend/src/availability/availability.service.ts:17 | End-after-start is decided by comparing the `HH:MM` strings lexicographically (`endTime <= startTime`) | start "10:00", end "9:00" is stored (it ends before it starts); start "9:30", end "10:00" is refused | Compare the times the strings denote | high; not executed | AvailabilityStore.CreateAcceptsReversedWindow | AvailabilityStore.CreateInTimeOrder |
| backend/src/booking/booking.service.ts:26 | The start time is parsed with `HH:mm:ss`, while the input type admits only `H:MM`/`HH:MM` | start "09:30" with a resolving slug fails with "Invalid time value"; no validated start books | Read the start in the form the input type admits | high; not executed | Bookings.ValidInputNeverParses | Bookings.BookSlotReadingEitherForm |
