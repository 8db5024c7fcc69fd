/**
 * The booking endpoints of src/controllers/event.controller.js as functions from
 * the tables before a request to the reply and the tables after it. Each call is
 * taken on its own: no two requests interleave.
 */
module Admission {
  import opened Wrappers
  import opened Ledger
  import opened SlotCounter

  /** The four answers of `bookEvent`. */
  datatype BookOutcome =
    | Created(booking: Booking)
    | AlreadyBooked
    | SoldOut
    | ServerError
  {
    /** The HTTP status the controller sends. */
    function Status(): nat
    {
      match this
      case Created(_) => 201
      case AlreadyBooked => 409
      case SoldOut => 400
      case ServerError => 500
    }
  }

  datatype BookStep = BookStep(outcome: BookOutcome, tables: Tables)

  /**
   * The slots-left figure read by `bookEvent` (step 2) and by `getSlotsLeft`: the
   * cached counter on a hit, otherwise `totalSlots - bookedCount`; `None` when the
   * counter misses and the event row does not exist.
   */
  function SlotsView(t: Tables, eventId: EventId): (v: Option<int>)
    ensures v.None? <==> eventId !in t.counter && eventId !in t.events
    ensures eventId in t.counter ==> v == Some(t.counter[eventId])
    ensures eventId !in t.counter && eventId in t.events ==> v == Some(Remaining(t, eventId))
    ensures Consistent(t) && eventId in t.events ==> v == Some(Remaining(t, eventId))
    ensures Safe(t) && eventId in t.events ==> v.Some? && v.value <= Remaining(t, eventId)
  {
    if eventId in t.counter then Some(t.counter[eventId])
    else if eventId in t.events then Some(t.events[eventId] - BookedCount(t.bookings, eventId))
    else None
  }

  /**
   * `bookEvent`, in the order the controller takes its steps: duplicate check;
   * counter read, recomputed from the ledger and written back on a miss; sold-out
   * check; DECR with an INCR rollback if the value went negative; booking insert.
   * `insertFails` stands for a database failure of `booking.create`; the insert
   * also fails when the event row is gone (the booking references its event).
   * A failed insert is answered 500 with the counter left decremented.
   */
  function BookEvent(t: Tables, userId: UserId, eventId: EventId, insertFails: bool): (r: BookStep)
    ensures var b := Booking(userId, eventId);
      && (r.outcome.AlreadyBooked? <==> b in t.bookings)
      && (r.outcome.AlreadyBooked? ==> r.tables == t)
    ensures Booking(userId, eventId) !in t.bookings && SlotsView(t, eventId).None? ==>
              r == BookStep(ServerError, t)
    ensures var v := SlotsView(t, eventId);
      && (r.outcome.SoldOut? <==> Booking(userId, eventId) !in t.bookings && v.Some? && v.value <= 0)
      && (r.outcome.SoldOut? ==> r.tables == t.(counter := t.counter[eventId := v.value]))
    ensures var b, v := Booking(userId, eventId), SlotsView(t, eventId);
      && (r.outcome.Created? <==>
            b !in t.bookings && v.Some? && v.value > 0 && eventId in t.events && !insertFails)
      && (r.outcome.Created? ==>
            r.outcome.booking == b &&
            r.tables == t.(bookings := t.bookings + {b}, counter := t.counter[eventId := v.value - 1]))
    ensures var v := SlotsView(t, eventId);
      r.outcome.ServerError? && v.Some? ==>
        v.value > 0 && r.tables == t.(counter := t.counter[eventId := v.value - 1])
    ensures r.tables.events == t.events
  {
    var booking := Booking(userId, eventId);
    if booking in t.bookings then BookStep(AlreadyBooked, t)
    else
      match SlotsView(t, eventId)
      case None => BookStep(ServerError, t)
      case Some(slotsLeft) =>
        var t1 := if eventId in t.counter then t else t.(counter := t.counter[eventId := slotsLeft]);
        if slotsLeft <= 0 then BookStep(SoldOut, t1)
        else
          var (counter, newSlotCount) := Decr(t1.counter, eventId);
          if newSlotCount < 0 then BookStep(SoldOut, t1.(counter := Incr(counter, eventId)))
          else if insertFails || eventId !in t.events then BookStep(ServerError, t1.(counter := counter))
          else BookStep(Created(booking), t1.(counter := counter, bookings := t.bookings + {booking}))
  }

  /** Outside event `eventId`, `bookEvent` changes neither a counter nor a booking. */
  lemma BookEventIsLocal(t: Tables, userId: UserId, eventId: EventId, insertFails: bool, other: EventId)
    requires other != eventId
    ensures var r := BookEvent(t, userId, eventId, insertFails);
      && ForEvent(r.tables.bookings, other) == ForEvent(t.bookings, other)
      && (other in r.tables.counter <==> other in t.counter)
      && (other in t.counter ==> r.tables.counter[other] == t.counter[other])
  {
  }

  /** Every outcome of `bookEvent`, the failed insert included, keeps the tables safe. */
  lemma BookEventKeepsSafe(t: Tables, userId: UserId, eventId: EventId, insertFails: bool)
    requires Safe(t)
    ensures Safe(BookEvent(t, userId, eventId, insertFails).tables)
  {
    var r := BookEvent(t, userId, eventId, insertFails);
    var b := Booking(userId, eventId);
    if r.outcome.Created? {
      forall e | e in r.tables.events
        ensures BookedCount(r.tables.bookings, e) == BookedCount(t.bookings, e) + (if e == eventId then 1 else 0)
      {
        CountAfterInsert(t.bookings, b, e);
      }
    } else if r.outcome.SoldOut? || r.outcome.ServerError? {
      assert r.tables.bookings == t.bookings;
    }
  }

  /**
   * Every outcome but a server error keeps the cache equal to the ledger; with
   * no failures the cache and the ledger never drift apart.
   */
  lemma BookEventKeepsConsistent(t: Tables, userId: UserId, eventId: EventId, insertFails: bool)
    requires Consistent(t)
    ensures var r := BookEvent(t, userId, eventId, insertFails);
      r.outcome.ServerError? || Consistent(r.tables)
  {
    var r := BookEvent(t, userId, eventId, insertFails);
    BookEventKeepsSafe(t, userId, eventId, insertFails);
    if r.outcome.Created? {
      forall e | e in r.tables.counter ensures CacheExactAt(r.tables, e) {
        CountAfterInsert(t.bookings, Booking(userId, eventId), e);
        assert CacheExactAt(t, e) || e == eventId;
      }
    } else if r.outcome.SoldOut? {
      forall e | e in r.tables.counter ensures CacheExactAt(r.tables, e) {
        assert CacheExactAt(t, e) || e == eventId;
      }
    }
  }

  /**
   * A failed insert on an existing event leaks one slot: the counter ends one
   * below the ledger's figure, since nothing gives the decrement back.
   */
  lemma InsertFailureLeaksOneSlot(t: Tables, userId: UserId, eventId: EventId)
    requires Consistent(t) && eventId in t.events
    requires BookEvent(t, userId, eventId, true).outcome.ServerError?
    ensures var after := BookEvent(t, userId, eventId, true).tables;
      && after.bookings == t.bookings
      && eventId in after.counter
      && after.counter[eventId] == Remaining(after, eventId) - 1
      && !CacheExact(after)
  {
  }

  /** Asking again after a successful booking answers "Already booked" and writes nothing. */
  lemma RebookingIsAlreadyBooked(t: Tables, userId: UserId, eventId: EventId, first: bool, again: bool)
    requires BookEvent(t, userId, eventId, first).outcome.Created?
    ensures var t1 := BookEvent(t, userId, eventId, first).tables;
      BookEvent(t1, userId, eventId, again) == BookStep(AlreadyBooked, t1)
  {
  }

  /** Once an event is sold out, any other user is turned away and nothing changes. */
  lemma SoldOutStaysSoldOut(t: Tables, userId: UserId, eventId: EventId, f: bool,
                            other: UserId, g: bool)
    requires BookEvent(t, userId, eventId, f).outcome.SoldOut?
    requires Booking(other, eventId) !in t.bookings
    ensures var t1 := BookEvent(t, userId, eventId, f).tables;
      BookEvent(t1, other, eventId, g) == BookStep(SoldOut, t1)
  {
  }

  /** The answers of `deleteEvent`: 204, or 500 when `event.delete` finds no row. */
  datatype DeleteOutcome = Deleted | DeleteFailed
  {
    function Status(): nat
    {
      match this
      case Deleted => 204
      case DeleteFailed => 500
    }
  }

  datatype DeleteStep = DeleteStep(outcome: DeleteOutcome, tables: Tables)

  /**
   * `deleteEvent`: `booking.deleteMany` for the event, then `event.delete`. The
   * bookings go even when the event row turns out to be missing; the slot
   * counter is never touched.
   */
  function DeleteEvent(t: Tables, eventId: EventId): (r: DeleteStep)
    ensures r.outcome.Deleted? <==> eventId in t.events
    ensures forall b :: b in r.tables.bookings <==> b in t.bookings && b.eventId != eventId
    ensures r.tables.events.Keys == t.events.Keys - {eventId}
    ensures forall e :: e in r.tables.events ==> r.tables.events[e] == t.events[e]
    ensures r.tables.counter == t.counter
  {
    var bookings := t.bookings - ForEvent(t.bookings, eventId);
    if eventId !in t.events then DeleteStep(DeleteFailed, t.(bookings := bookings))
    else DeleteStep(Deleted, t.(bookings := bookings, events := t.events - {eventId}))
  }

  /** Deleting an event leaves the bookings of every other event as they were. */
  lemma DeleteEventIsLocal(t: Tables, eventId: EventId, other: EventId)
    requires other != eventId
    ensures ForEvent(DeleteEvent(t, eventId).tables.bookings, other) == ForEvent(t.bookings, other)
  {
  }

  /** `deleteEvent` keeps the tables safe and the cache exact. */
  lemma DeleteEventKeepsInvariants(t: Tables, eventId: EventId)
    ensures Safe(t) ==> Safe(DeleteEvent(t, eventId).tables)
    ensures Consistent(t) ==> Consistent(DeleteEvent(t, eventId).tables)
  {
    var after := DeleteEvent(t, eventId).tables;
    forall e | e in after.events
      ensures BookedCount(after.bookings, e) == BookedCount(t.bookings, e)
    {
      CountAfterEventRemoved(t.bookings, eventId, e);
      assert after.bookings == t.bookings - ForEvent(t.bookings, eventId);
    }
  }

  /** The 60-second expiry of a counter key, as an explicit eviction. */
  function ExpireCounter(t: Tables, eventId: EventId): (r: Tables)
    ensures eventId !in r.counter
    ensures r.counter.Keys == t.counter.Keys - {eventId}
    ensures forall e :: e in r.counter ==> r.counter[e] == t.counter[e]
    ensures r.events == t.events && r.bookings == t.bookings
  {
    t.(counter := t.counter - {eventId})
  }

  /**
   * Expiry repairs a leaked counter: if every counter but that of `eventId`
   * agrees with the ledger, the tables are consistent once it expires.
   */
  lemma ExpiryRestoresConsistency(t: Tables, eventId: EventId)
    requires Safe(t)
    requires forall e :: e in t.counter && e != eventId ==> CacheExactAt(t, e)
    ensures Consistent(ExpireCounter(t, eventId))
  {
  }

  /** The reply of `getSlotsLeft`; `NoReply` when the request is never answered. */
  datatype SlotsReply = Slots(eventId: EventId, slotsLeft: int) | NoReply

  /**
   * `getSlotsLeft`: the cached counter if present, otherwise `totalSlots -
   * bookedCount`, never writing the counter. For a missing event the handler
   * calls a `next` it does not have, so the request is left unanswered.
   */
  function SlotsLeft(t: Tables, eventId: EventId): (r: SlotsReply)
    ensures r.NoReply? <==> eventId !in t.counter && eventId !in t.events
    ensures r.Slots? ==> r.eventId == eventId
    ensures eventId in t.counter ==> r == Slots(eventId, t.counter[eventId])
    ensures eventId !in t.counter && eventId in t.events ==> r == Slots(eventId, Remaining(t, eventId))
    ensures Consistent(t) && eventId in t.events ==> r == Slots(eventId, Remaining(t, eventId))
    ensures Safe(t) && eventId in t.events ==> r.Slots? && r.slotsLeft <= Remaining(t, eventId)
  {
    match SlotsView(t, eventId)
    case Some(v) => Slots(eventId, v)
    case None => NoReply
  }

  /**
   * Reading the slots left and then booking: the booking sees the same figure the
   * query showed, and answers "Sold out" exactly when that figure is not positive.
   */
  lemma SlotsLeftPredictsSoldOut(t: Tables, userId: UserId, eventId: EventId, insertFails: bool)
    requires Booking(userId, eventId) !in t.bookings
    requires SlotsLeft(t, eventId).Slots?
    ensures BookEvent(t, userId, eventId, insertFails).outcome.SoldOut? <==>
              SlotsLeft(t, eventId).slotsLeft <= 0
  {
  }

  /** The reply of `getEventBookings`. */
  datatype EventBookingsReply =
    | EventNotFound
    | EventBookings(eventId: EventId, totalSlots: int, bookings: set<Booking>)

  /** `getEventBookings`: 404 for a missing event, otherwise its bookings. */
  function EventBookingsOf(t: Tables, eventId: EventId): (r: EventBookingsReply)
    ensures r.EventNotFound? <==> eventId !in t.events
    ensures r.EventBookings? ==>
              r.eventId == eventId && r.totalSlots == t.events[eventId] &&
              |r.bookings| == BookedCount(t.bookings, eventId) &&
              forall b :: b in r.bookings <==> b in t.bookings && b.eventId == eventId
  {
    if eventId !in t.events then EventNotFound
    else EventBookings(eventId, t.events[eventId], ForEvent(t.bookings, eventId))
  }

  /** `getUserBookings`: the bookings of one user, at most one per event. */
  function UserBookingsOf(t: Tables, userId: UserId): (r: set<Booking>)
    ensures forall b :: b in r <==> b in t.bookings && b.userId == userId
    ensures forall b1, b2 :: b1 in r && b2 in r && b1.eventId == b2.eventId ==> b1 == b2
  {
    ForUser(t.bookings, userId)
  }

  /**
   * The admin listing and the slots display agree while the cache is exact:
   * slots left is `totalSlots` minus the number of listed bookings.
   */
  lemma ListingMatchesSlotsLeft(t: Tables, eventId: EventId)
    requires Consistent(t) && eventId in t.events
    ensures var listing := EventBookingsOf(t, eventId);
      && listing.EventBookings?
      && SlotsLeft(t, eventId) == Slots(eventId, listing.totalSlots - |listing.bookings|)
      && |listing.bookings| <= listing.totalSlots
  {
  }

  /** A booking is in its event's listing exactly when it is in its user's listing. */
  lemma ListingsAgree(t: Tables, b: Booking)
    requires b.eventId in t.events
    ensures b in EventBookingsOf(t, b.eventId).bookings <==> b in UserBookingsOf(t, b.userId)
  {
  }
}
