/**
 * The controller's endpoints that write, run step by step against a store that
 * holds the three tables as fields. Each method's new state is the one the
 * matching function of `Admission` describes.
 */
module EventStore {
  import opened Ledger
  import opened SlotCounter
  import opened Admission

  class Store {
    var events: map<EventId, int>
    var bookings: set<Booking>
    var counter: map<EventId, int>

    /** The three tables as one value. */
    function Snapshot(): Tables
      reads this
    {
      Tables(events, bookings, counter)
    }

    /** A store over the given events, with no bookings and an empty cache. */
    constructor (events: map<EventId, int>)
      ensures Snapshot() == Tables(events, {}, map[])
      ensures (forall e :: e in events ==> events[e] >= 1) ==> Consistent(Snapshot())
    {
      this.events := events;
      bookings := {};
      counter := map[];
      new;
      forall e | e in events ensures BookedCount({}, e) == 0 {
        assert ForEvent({}, e) == {};
      }
    }

    /** `bookEvent` (the second definition, the one Express routes to). */
    method BookEvent(userId: UserId, eventId: EventId, insertFails: bool) returns (outcome: BookOutcome)
      modifies this
      ensures Admission.BookEvent(old(Snapshot()), userId, eventId, insertFails) == BookStep(outcome, Snapshot())
      ensures outcome.Status() == 409 <==> Booking(userId, eventId) in old(bookings)
      ensures outcome.Status() == 201 ==> bookings == old(bookings) + {Booking(userId, eventId)}
      ensures outcome.Status() != 201 ==> bookings == old(bookings)
      ensures old(Safe(Snapshot())) ==> Safe(Snapshot())
      ensures old(Consistent(Snapshot())) && !outcome.ServerError? ==> Consistent(Snapshot())
    {
      ghost var before := Snapshot();
      if Safe(before) {
        BookEventKeepsSafe(before, userId, eventId, insertFails);
      }
      if Consistent(before) {
        BookEventKeepsConsistent(before, userId, eventId, insertFails);
      }
      var booking := Booking(userId, eventId);
      // 1. duplicate check
      if booking in bookings {
        return AlreadyBooked;
      }
      // 2. counter read, recomputed from the ledger on a miss
      var slotsLeft: int;
      if eventId in counter {
        slotsLeft := counter[eventId];
      } else {
        if eventId !in events {
          // reading totalSlots of a missing event row throws
          return ServerError;
        }
        slotsLeft := events[eventId] - BookedCount(bookings, eventId);
        counter := counter[eventId := slotsLeft];
      }
      // 3. sold out
      if slotsLeft <= 0 {
        return SoldOut;
      }
      // 4. reserve a slot, rolling back if the counter went negative
      var (decremented, newSlotCount) := Decr(counter, eventId);
      var overbooked := newSlotCount < 0;
      counter := if overbooked then Incr(decremented, eventId) else decremented;
      if overbooked {
        return SoldOut;
      }
      // 5. insert the booking; a failure leaves the counter decremented
      if insertFails || eventId !in events {
        return ServerError;
      }
      bookings := bookings + {booking};
      outcome := Created(booking);
    }

    /** `deleteEvent`: its bookings first, then the event row. */
    method DeleteEvent(eventId: EventId) returns (outcome: DeleteOutcome)
      modifies this
      ensures Admission.DeleteEvent(old(Snapshot()), eventId) == DeleteStep(outcome, Snapshot())
      ensures outcome.Status() == 204 <==> eventId in old(events)
      ensures old(Safe(Snapshot())) ==> Safe(Snapshot())
      ensures old(Consistent(Snapshot())) ==> Consistent(Snapshot())
    {
      DeleteEventKeepsInvariants(Snapshot(), eventId);
      bookings := bookings - ForEvent(bookings, eventId);
      if eventId !in events {
        // event.delete finds no row and throws
        return DeleteFailed;
      }
      events := events - {eventId};
      outcome := Deleted;
    }

    /** The counter key of an event expires. */
    method ExpireCounter(eventId: EventId)
      modifies this
      ensures Snapshot() == Admission.ExpireCounter(old(Snapshot()), eventId)
      ensures old(Safe(Snapshot())) ==> Safe(Snapshot())
    {
      counter := counter - {eventId};
    }
  }
}
