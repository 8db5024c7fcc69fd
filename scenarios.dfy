/** Several `bookEvent` requests for one event, served one after another. */
module Scenarios {
  import opened Ledger
  import opened Admission

  datatype Run = Run(outcomes: seq<BookOutcome>, tables: Tables)

  /** Each user in turn books `eventId`; no database call fails. */
  function BookInTurn(t: Tables, users: seq<UserId>, eventId: EventId): (r: Run)
    ensures |r.outcomes| == |users|
    ensures r.tables.events == t.events
    decreases |users|
  {
    if users == [] then Run([], t)
    else
      var step := BookEvent(t, users[0], eventId, false);
      var rest := BookInTurn(step.tables, users[1..], eventId);
      Run([step.outcome] + rest.outcomes, rest.tables)
  }

  function Min(a: int, b: int): int
  {
    if a <= b then a else b
  }

  /**
   * First come, first served: distinct users without a booking get the free
   * slots in the order they ask, everyone after them is told "Sold out", and the
   * event ends with exactly that many more bookings and an exact cache.
   */
  lemma {:induction false} FirstComeFirstServed(t: Tables, users: seq<UserId>, eventId: EventId)
    requires Consistent(t) && eventId in t.events
    requires forall i, j :: 0 <= i < j < |users| ==> users[i] != users[j]
    requires forall i :: 0 <= i < |users| ==> Booking(users[i], eventId) !in t.bookings
    ensures var r := BookInTurn(t, users, eventId);
      && (forall i :: 0 <= i < |users| ==>
            r.outcomes[i] == if i < Remaining(t, eventId) then Created(Booking(users[i], eventId)) else SoldOut)
      && Consistent(r.tables)
      && BookedCount(r.tables.bookings, eventId) ==
           BookedCount(t.bookings, eventId) + Min(|users|, Remaining(t, eventId))
    decreases |users|
  {
    if users != [] {
      var step := BookEvent(t, users[0], eventId, false);
      var free := Remaining(t, eventId);
      BookEventKeepsConsistent(t, users[0], eventId, false);
      if free > 0 {
        assert step.outcome == Created(Booking(users[0], eventId));
        CountAfterInsert(t.bookings, Booking(users[0], eventId), eventId);
        assert Remaining(step.tables, eventId) == free - 1;
      } else {
        assert step.outcome == SoldOut;
        assert step.tables.bookings == t.bookings;
        assert Remaining(step.tables, eventId) == free;
      }
      var rest := users[1..];
      forall i | 0 <= i < |rest| ensures Booking(rest[i], eventId) !in step.tables.bookings {
        assert rest[i] == users[i + 1] && users[0] != users[i + 1];
      }
      FirstComeFirstServed(step.tables, rest, eventId);
      var r := BookInTurn(t, users, eventId);
      var tail := BookInTurn(step.tables, rest, eventId);
      assert r.outcomes == [step.outcome] + tail.outcomes;
      forall i | 0 <= i < |users|
        ensures r.outcomes[i] == if i < free then Created(Booking(users[i], eventId)) else SoldOut
      {
        if i > 0 {
          assert r.outcomes[i] == tail.outcomes[i - 1];
          assert rest[i - 1] == users[i];
        }
      }
    }
  }

  /**
   * An event with two slots and five distinct users: the first two are booked,
   * the other three are told "Sold out", and the ledger ends with two bookings.
   */
  lemma TwoSlotsFiveUsers(users: seq<UserId>, eventId: EventId)
    requires |users| == 5
    requires forall i, j :: 0 <= i < j < |users| ==> users[i] != users[j]
    ensures var r := BookInTurn(Tables(map[eventId := 2], {}, map[]), users, eventId);
      && (forall i :: 0 <= i < 2 ==> r.outcomes[i].Created?)
      && (forall i :: 2 <= i < 5 ==> r.outcomes[i] == SoldOut)
      && |r.tables.bookings| == 2
  {
    var t := Tables(map[eventId := 2], {}, map[]);
    assert ForEvent({}, eventId) == {};
    assert Consistent(t);
    FirstComeFirstServed(t, users, eventId);
    var r := BookInTurn(t, users, eventId);
    assert ForEvent(r.tables.bookings, eventId) == r.tables.bookings;
  }
}
