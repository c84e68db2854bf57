/** The availability store: an owner's windows of free time, one day each.
    `Create` validates and inserts, `FindAll` lists an owner's windows by date and
    start time, `Remove` deletes a window its owner names. */
module AvailabilityStore {
  import opened Results
  import opened Clock

  /** A stored window [startTime, endTime) on `date`, times in seconds after midnight. */
  datatype Availability = Availability(id: nat, owner: nat, date: int, startTime: nat, endTime: nat)

  /** The fields a caller submits; the times are strings checked against the `HH:MM` pattern. */
  datatype CreateAvailabilityInput = CreateAvailabilityInput(date: int, startTime: string, endTime: string)

  /** Two windows of one owner on one day whose half-open intervals intersect;
      touching endpoints do not count. */
  predicate Conflicting(a: Availability, b: Availability)
  {
    a.owner == b.owner && a.date == b.date && a.startTime < b.endTime && a.endTime > b.startTime
  }

  /** The store invariant: no two windows of one (owner, date) overlap. */
  ghost predicate NonOverlapping(store: seq<Availability>)
  {
    forall i, j :: 0 <= i < |store| && 0 <= j < |store| && i != j ==> !Conflicting(store[i], store[j])
  }

  /** Every window ends after it starts. */
  ghost predicate WellFormed(store: seq<Availability>)
  {
    forall i :: 0 <= i < |store| ==> store[i].startTime < store[i].endTime
  }

  predicate ClashesWithStore(store: seq<Availability>, w: Availability)
  {
    exists i :: 0 <= i < |store| && Conflicting(store[i], w)
  }

  /** The checks that follow the end-after-start test: the date must not be before
      today, then the window must not overlap one of the owner's windows that day;
      only then is it stored. */
  function Admit(store: seq<Availability>, w: Availability, today: int): (r: Step<Availability, Availability>)
    ensures r.result.Err? ==> r.store == store
    ensures r.result.Ok? ==> r.result.value == w && r.store == store + [w]
    ensures r.result.Ok? <==> w.date >= today && !ClashesWithStore(store, w)
    ensures w.date < today ==> r.result == Err(DateInPast)
    ensures w.date >= today ==> (r.result == Err(OverlapsExisting) <==> ClashesWithStore(store, w))
  {
    if w.date < today then Step(Err(DateInPast), store)
    else if ClashesWithStore(store, w) then Step(Err(OverlapsExisting), store)
    else Step(Ok(w), store + [w])
  }

  /** The window an input describes, with its times as the `time` column reads them. */
  function WindowOf(owner: nat, id: nat, input: CreateAvailabilityInput): (w: Availability)
    requires MatchesTimePattern(input.startTime) && MatchesTimePattern(input.endTime)
    ensures Some(w.startTime) == ParseHHMM(input.startTime) && Some(w.endTime) == ParseHHMM(input.endTime)
    ensures w.id == id && w.owner == owner && w.date == input.date
  {
    PatternIffReadable(input.startTime);
    PatternIffReadable(input.endTime);
    Availability(id, owner, input.date, ParseHHMM(input.startTime).value, ParseHHMM(input.endTime).value)
  }

  predicate InputWellFormed(input: CreateAvailabilityInput)
  {
    MatchesTimePattern(input.startTime) && MatchesTimePattern(input.endTime)
  }

  /** `create` as written: after the input pattern check, the end-after-start test
      compares the two time STRINGS lexicographically. */
  function Create(store: seq<Availability>, owner: nat, id: nat, input: CreateAvailabilityInput, today: int)
    : (r: Step<Availability, Availability>)
    ensures !InputWellFormed(input) ==> r.result == Err(BadTimeFormat)
    ensures InputWellFormed(input) && LexLe(input.endTime, input.startTime) ==> r.result == Err(EndNotAfterStart)
    ensures InputWellFormed(input) && !LexLe(input.endTime, input.startTime) ==> r == Admit(store, WindowOf(owner, id, input), today)
    ensures r.result.Err? ==> r.store == store
    ensures r.result.Ok? ==> r.store == store + [r.result.value] && r.result.value == WindowOf(owner, id, input)
  {
    if !InputWellFormed(input) then Step(Err(BadTimeFormat), store)
    else if LexLe(input.endTime, input.startTime) then Step(Err(EndNotAfterStart), store)
    else Admit(store, WindowOf(owner, id, input), today)
  }

  /** `create` with the end-after-start test made on the times the strings denote. */
  function CreateInTimeOrder(store: seq<Availability>, owner: nat, id: nat, input: CreateAvailabilityInput, today: int)
    : (r: Step<Availability, Availability>)
    ensures !InputWellFormed(input) ==> r.result == Err(BadTimeFormat)
    ensures InputWellFormed(input) && WindowOf(owner, id, input).endTime <= WindowOf(owner, id, input).startTime
            ==> r.result == Err(EndNotAfterStart)
    ensures InputWellFormed(input) && WindowOf(owner, id, input).startTime < WindowOf(owner, id, input).endTime
            ==> r == Admit(store, WindowOf(owner, id, input), today)
    ensures r.result.Err? ==> r.store == store
    ensures r.result.Ok? ==> r.store == store + [r.result.value] && r.result.value == WindowOf(owner, id, input)
    ensures r.result.Ok? ==> r.result.value.startTime < r.result.value.endTime
  {
    if !InputWellFormed(input) then Step(Err(BadTimeFormat), store)
    else
      var w := WindowOf(owner, id, input);
      if w.endTime <= w.startTime then Step(Err(EndNotAfterStart), store)
      else Admit(store, w, today)
  }

  // ---------------------------------------------------------------------------
  // Invariants kept by create

  lemma AdmitPreservesNonOverlapping(store: seq<Availability>, w: Availability, today: int)
    requires NonOverlapping(store)
    ensures NonOverlapping(Admit(store, w, today).store)
  {
    var r := Admit(store, w, today);
    if r.result.Ok? {
      var s := r.store;
      forall i, j | 0 <= i < |s| && 0 <= j < |s| && i != j
        ensures !Conflicting(s[i], s[j])
      {
        if i == |store| {
          assert !Conflicting(store[j], w);
        } else if j == |store| {
          assert !Conflicting(store[i], w);
        } else {
          assert s[i] == store[i] && s[j] == store[j];
        }
      }
    }
  }

  /** `create` keeps the windows of each (owner, date) pairwise disjoint. */
  lemma CreatePreservesNonOverlapping(store: seq<Availability>, owner: nat, id: nat, input: CreateAvailabilityInput, today: int)
    requires NonOverlapping(store)
    ensures NonOverlapping(Create(store, owner, id, input, today).store)
  {
    if InputWellFormed(input) && !LexLe(input.endTime, input.startTime) {
      AdmitPreservesNonOverlapping(store, WindowOf(owner, id, input), today);
    }
  }

  /** The time-ordered `create` keeps both invariants. */
  lemma CreateInTimeOrderPreservesInvariants(store: seq<Availability>, owner: nat, id: nat, input: CreateAvailabilityInput, today: int)
    requires NonOverlapping(store) && WellFormed(store)
    ensures NonOverlapping(CreateInTimeOrder(store, owner, id, input, today).store)
    ensures WellFormed(CreateInTimeOrder(store, owner, id, input, today).store)
  {
    if InputWellFormed(input) {
      AdmitPreservesNonOverlapping(store, WindowOf(owner, id, input), today);
    }
    var s := CreateInTimeOrder(store, owner, id, input, today).store;
    assert forall i :: 0 <= i < |store| ==> s[i] == store[i];
  }

  /** On zero-padded times the two versions of `create` agree. */
  lemma CreateAgreesOnZeroPadded(store: seq<Availability>, owner: nat, id: nat, input: CreateAvailabilityInput, today: int)
    requires |input.startTime| == 5 && |input.endTime| == 5
    ensures Create(store, owner, id, input, today) == CreateInTimeOrder(store, owner, id, input, today)
  {
    if InputWellFormed(input) {
      ZeroPaddedLexOrder(input.endTime, input.startTime);
    }
  }

  /** As written, "10:00"-"9:00" passes the end-after-start test and is stored
      although it ends before it starts. */
  lemma CreateAcceptsReversedWindow(owner: nat, id: nat, date: int, today: int)
    requires today <= date
    ensures var r := Create([], owner, id, CreateAvailabilityInput(date, "10:00", "9:00"), today);
            r.result.Ok? && r.result.value.endTime < r.result.value.startTime && !WellFormed(r.store)
  {
    assert "10:00"[..2] == "10" && "10:00"[3..] == "00";
    assert "9:00"[..1] == "9" && "9:00"[2..] == "00";
    assert ':' !in "10:00"[..2];
    IndexOfIs("10:00", ':', 2);
    assert ':' !in "9:00"[..1];
    IndexOfIs("9:00", ':', 1);
    LexLeUnfold("9:00", "10:00");
    assert !LexLe("9:00", "10:00");
    assert ParseHHMM("10:00") == Some(36000);
    assert ParseHHMM("9:00") == Some(32400);
    var w := WindowOf(owner, id, CreateAvailabilityInput(date, "10:00", "9:00"));
    assert w.startTime == 36000 && w.endTime == 32400;
    assert !ClashesWithStore([], w);
    var r := Create([], owner, id, CreateAvailabilityInput(date, "10:00", "9:00"), today);
    assert r.store == [w];
    assert r.store[0].endTime < r.store[0].startTime;
  }

  /** As written, "9:30"-"10:00" is refused as ending before it starts; the
      time-ordered version stores it. */
  lemma CreateRejectsForwardWindow(owner: nat, id: nat, date: int, today: int)
    requires today <= date
    ensures Create([], owner, id, CreateAvailabilityInput(date, "9:30", "10:00"), today).result == Err(EndNotAfterStart)
    ensures CreateInTimeOrder([], owner, id, CreateAvailabilityInput(date, "9:30", "10:00"), today).result.Ok?
  {
    SingleDigitHourBreaksLexOrder();
  }

  // ---------------------------------------------------------------------------
  // findAll

  /** The owner's windows, in store order. */
  function OwnedBy(store: seq<Availability>, owner: nat): (r: seq<Availability>)
    ensures forall w :: w in r <==> w in store && w.owner == owner
    ensures |r| <= |store|
  {
    if |store| == 0 then []
    else if store[0].owner == owner then [store[0]] + OwnedBy(store[1..], owner)
    else OwnedBy(store[1..], owner)
  }

  /** The listing order: date, then start time. */
  predicate KeyLe(a: Availability, b: Availability)
  {
    a.date < b.date || (a.date == b.date && a.startTime <= b.startTime)
  }

  ghost predicate Ordered(ws: seq<Availability>)
  {
    forall i, j :: 0 <= i < j < |ws| ==> KeyLe(ws[i], ws[j])
  }

  function InsertOrdered(w: Availability, ws: seq<Availability>): (r: seq<Availability>)
    requires Ordered(ws)
    ensures Ordered(r)
    ensures multiset(r) == multiset(ws) + multiset{w}
  {
    if |ws| == 0 then [w]
    else if KeyLe(w, ws[0]) then [w] + ws
    else
      var rest := InsertOrdered(w, ws[1..]);
      assert ws == [ws[0]] + ws[1..];
      forall x | x in rest
        ensures KeyLe(ws[0], x)
      {
        assert x in multiset(rest);
        if x != w {
          assert x in multiset(ws[1..]);
          var k :| 0 <= k < |ws[1..]| && ws[1..][k] == x;
          assert ws[k + 1] == x;
        }
      }
      [ws[0]] + rest
  }

  function SortByDateAndStart(ws: seq<Availability>): (r: seq<Availability>)
    ensures Ordered(r)
    ensures multiset(r) == multiset(ws)
  {
    if |ws| == 0 then []
    else
      assert ws == [ws[0]] + ws[1..];
      InsertOrdered(ws[0], SortByDateAndStart(ws[1..]))
  }

  /** `findAll`: exactly the owner's windows, each as often as stored, ascending by
      date and then start time. */
  function FindAll(store: seq<Availability>, owner: nat): (r: seq<Availability>)
    ensures Ordered(r)
    ensures multiset(r) == multiset(OwnedBy(store, owner))
    ensures forall w :: w in r <==> w in store && w.owner == owner
  {
    var r := SortByDateAndStart(OwnedBy(store, owner));
    assert forall w :: w in r <==> w in multiset(OwnedBy(store, owner));
    r
  }

  /** Putting a window in front of disjoint windows it overlaps none of keeps them disjoint. */
  lemma ConsNonOverlapping(x: Availability, t: seq<Availability>)
    requires NonOverlapping(t)
    requires forall e :: e in t ==> !Conflicting(x, e)
    ensures NonOverlapping([x] + t)
  {
    var s := [x] + t;
    forall i, j | 0 <= i < |s| && 0 <= j < |s| && i != j
      ensures !Conflicting(s[i], s[j])
    {
      if i == 0 {
        assert s[j] == t[j - 1] && s[j] in t;
      } else if j == 0 {
        assert s[i] == t[i - 1] && s[i] in t;
      } else {
        assert s[i] == t[i - 1] && s[j] == t[j - 1];
      }
    }
  }

  /** The first window of a disjoint store overlaps none of the rest, which stay disjoint. */
  lemma TailNonOverlapping(s: seq<Availability>)
    requires |s| > 0 && NonOverlapping(s)
    ensures NonOverlapping(s[1..])
    ensures forall e :: e in s[1..] ==> !Conflicting(s[0], e)
  {
    var t := s[1..];
    forall i, j | 0 <= i < |t| && 0 <= j < |t| && i != j
      ensures !Conflicting(t[i], t[j])
    {
      assert t[i] == s[i + 1] && t[j] == s[j + 1];
    }
    forall e | e in t
      ensures !Conflicting(s[0], e)
    {
      var m :| 0 <= m < |t| && t[m] == e;
      assert s[m + 1] == e;
    }
  }

  lemma {:induction false} OwnedByNonOverlapping(store: seq<Availability>, owner: nat)
    requires NonOverlapping(store)
    ensures NonOverlapping(OwnedBy(store, owner))
  {
    if |store| > 0 {
      TailNonOverlapping(store);
      OwnedByNonOverlapping(store[1..], owner);
      if store[0].owner == owner {
        ConsNonOverlapping(store[0], OwnedBy(store[1..], owner));
      }
    }
  }

  lemma {:induction false} InsertOrderedNonOverlapping(w: Availability, ws: seq<Availability>)
    requires Ordered(ws) && NonOverlapping(ws)
    requires forall e :: e in ws ==> !Conflicting(w, e)
    ensures NonOverlapping(InsertOrdered(w, ws))
  {
    if |ws| > 0 {
      if KeyLe(w, ws[0]) {
        ConsNonOverlapping(w, ws);
      } else {
        TailNonOverlapping(ws);
        assert Ordered(ws[1..]) by {
          forall i, j | 0 <= i < j < |ws[1..]| ensures KeyLe(ws[1..][i], ws[1..][j]) {
            assert ws[1..][i] == ws[i + 1] && ws[1..][j] == ws[j + 1];
          }
        }
        InsertOrderedNonOverlapping(w, ws[1..]);
        var rest := InsertOrdered(w, ws[1..]);
        forall e | e in rest
          ensures !Conflicting(ws[0], e)
        {
          assert e in multiset(rest);
          if e == w {
            assert ws[0] in ws;
          } else {
            assert e in multiset(ws[1..]);
          }
        }
        ConsNonOverlapping(ws[0], rest);
      }
    }
  }

  lemma {:induction false} SortNonOverlapping(ws: seq<Availability>)
    requires NonOverlapping(ws)
    ensures NonOverlapping(SortByDateAndStart(ws))
  {
    if |ws| > 0 {
      TailNonOverlapping(ws);
      SortNonOverlapping(ws[1..]);
      var sorted := SortByDateAndStart(ws[1..]);
      forall e | e in sorted
        ensures !Conflicting(ws[0], e)
      {
        assert e in multiset(sorted);
        assert e in multiset(ws[1..]);
      }
      InsertOrderedNonOverlapping(ws[0], sorted);
    }
  }

  /** The listing of a disjoint store is itself disjoint: no window is listed twice
      and no two listed windows of one day overlap. */
  lemma FindAllNonOverlapping(store: seq<Availability>, owner: nat)
    requires NonOverlapping(store)
    ensures NonOverlapping(FindAll(store, owner))
  {
    OwnedByNonOverlapping(store, owner);
    SortNonOverlapping(OwnedBy(store, owner));
  }

  // ---------------------------------------------------------------------------
  // remove

  predicate Targets(w: Availability, id: nat, owner: nat)
  {
    w.id == id && w.owner == owner
  }

  /** The store without the windows that have this id and owner. */
  function Without(store: seq<Availability>, id: nat, owner: nat): (r: seq<Availability>)
    ensures forall w :: w in r <==> w in store && !Targets(w, id, owner)
    ensures |r| <= |store|
    ensures |r| == |store| <==> forall i :: 0 <= i < |store| ==> !Targets(store[i], id, owner)
  {
    if |store| == 0 then []
    else
      var rest := Without(store[1..], id, owner);
      assert forall i :: 1 <= i < |store| ==> store[1..][i - 1] == store[i];
      if Targets(store[0], id, owner) then rest else [store[0]] + rest
  }

  datatype Removal = Removal(removed: bool, store: seq<Availability>)

  /** `remove`: deletes the window only when it belongs to the caller, and reports
      whether anything was deleted; it never fails. */
  function Remove(store: seq<Availability>, id: nat, owner: nat): (r: Removal)
    ensures r.removed <==> exists i :: 0 <= i < |store| && Targets(store[i], id, owner)
    ensures forall w :: w in r.store <==> w in store && !Targets(w, id, owner)
  {
    var kept := Without(store, id, owner);
    Removal(|kept| < |store|, kept)
  }

  /** `remove` leaves every other owner's windows exactly as they were. */
  lemma {:induction false} RemoveKeepsOtherOwners(store: seq<Availability>, id: nat, owner: nat, other: nat)
    requires other != owner
    ensures OwnedBy(Remove(store, id, owner).store, other) == OwnedBy(store, other)
  {
    if |store| > 0 {
      RemoveKeepsOtherOwners(store[1..], id, owner, other);
      if !Targets(store[0], id, owner) {
        assert ([store[0]] + Without(store[1..], id, owner))[1..] == Without(store[1..], id, owner);
      }
    }
  }

  /** `remove` keeps the windows of each (owner, date) pairwise disjoint. */
  lemma {:induction false} RemovePreservesNonOverlapping(store: seq<Availability>, id: nat, owner: nat)
    requires NonOverlapping(store)
    ensures NonOverlapping(Remove(store, id, owner).store)
  {
    if |store| > 0 {
      var tail := store[1..];
      assert NonOverlapping(tail) by {
        forall i, j | 0 <= i < |tail| && 0 <= j < |tail| && i != j
          ensures !Conflicting(tail[i], tail[j])
        {
          assert tail[i] == store[i + 1] && tail[j] == store[j + 1];
        }
      }
      RemovePreservesNonOverlapping(tail, id, owner);
      var rest := Without(tail, id, owner);
      if !Targets(store[0], id, owner) {
        var s := [store[0]] + rest;
        forall i, j | 0 <= i < |s| && 0 <= j < |s| && i != j
          ensures !Conflicting(s[i], s[j])
        {
          if i == 0 || j == 0 {
            var k := if i == 0 then j else i;
            assert s[k] in tail;
            var m :| 0 <= m < |tail| && tail[m] == s[k];
            assert store[m + 1] == s[k];
            assert !Conflicting(store[0], store[m + 1]) && !Conflicting(store[m + 1], store[0]);
          } else {
            assert s[i] == rest[i - 1] && s[j] == rest[j - 1];
          }
        }
      }
    }
  }

  // ---------------------------------------------------------------------------
  // Examples

  /** The time a zero-padded literal denotes, unfolded for the examples below. */
  lemma ReadsAs(s: string, h: nat, m: nat)
    requires |s| == 5 && s[2] == ':' && h < 24 && m < 60
    requires s[0] == DigitChar(h / 10) && s[1] == DigitChar(h % 10)
    requires s[3] == DigitChar(m / 10) && s[4] == DigitChar(m % 10)
    ensures MatchesTimePattern(s) && ParseHHMM(s) == Some(h * SecondsPerHour + m * SecondsPerMinute)
  {
    assert s[..2] == [s[0], s[1]] && s[3..] == [s[3], s[4]];
    assert HourMatches(s[..2]);
    ZeroPaddedValue(s);
  }

  lemma FirstWindowStored(owner: nat, date: int, today: int)
    requires today <= date
    ensures Create([], owner, 1, CreateAvailabilityInput(date, "09:00", "10:00"), today)
            == Step(Ok(Availability(1, owner, date, 32400, 36000)), [Availability(1, owner, date, 32400, 36000)])
    ensures CreateInTimeOrder([], owner, 1, CreateAvailabilityInput(date, "09:00", "10:00"), today)
            == Create([], owner, 1, CreateAvailabilityInput(date, "09:00", "10:00"), today)
  {
    ReadsAs("09:00", 9, 0);
    ReadsAs("10:00", 10, 0);
    ZeroPaddedLexOrder("10:00", "09:00");
    CreateAgreesOnZeroPadded([], owner, 1, CreateAvailabilityInput(date, "09:00", "10:00"), today);
  }

  lemma AdjacentWindowStored(owner: nat, date: int, today: int)
    requires today <= date
    ensures Create([Availability(1, owner, date, 32400, 36000)], owner, 2,
                   CreateAvailabilityInput(date, "10:00", "11:00"), today).result.Ok?
  {
    ReadsAs("10:00", 10, 0);
    ReadsAs("11:00", 11, 0);
    ZeroPaddedLexOrder("11:00", "10:00");
    var w := WindowOf(owner, 2, CreateAvailabilityInput(date, "10:00", "11:00"));
    assert !Conflicting(Availability(1, owner, date, 32400, 36000), w);
  }

  lemma OverlappingWindowRefused(owner: nat, date: int, today: int)
    requires today <= date
    ensures Create([Availability(1, owner, date, 32400, 36000)], owner, 2,
                   CreateAvailabilityInput(date, "09:30", "10:30"), today).result == Err(OverlapsExisting)
  {
    ReadsAs("09:30", 9, 30);
    ReadsAs("10:30", 10, 30);
    ZeroPaddedLexOrder("10:30", "09:30");
    var w := WindowOf(owner, 2, CreateAvailabilityInput(date, "09:30", "10:30"));
    assert Conflicting([Availability(1, owner, date, 32400, 36000)][0], w);
  }

  /** Windows 09:00-10:00 then 10:00-11:00 are both stored; 09:30-10:30 after the
      first is an overlap. */
  lemma TouchingWindowsDoNotConflict(owner: nat, date: int, today: int)
    requires today <= date
    ensures var first := Create([], owner, 1, CreateAvailabilityInput(date, "09:00", "10:00"), today);
            && first.result.Ok?
            && Create(first.store, owner, 2, CreateAvailabilityInput(date, "10:00", "11:00"), today).result.Ok?
            && Create(first.store, owner, 2, CreateAvailabilityInput(date, "09:30", "10:30"), today).result == Err(OverlapsExisting)
  {
    FirstWindowStored(owner, date, today);
    AdjacentWindowStored(owner, date, today);
    OverlappingWindowRefused(owner, date, today);
  }
}
