/**
 * The tables the booking endpoints of src/controllers/event.controller.js work
 * on: the `event` table (only `totalSlots` matters here), the `booking` table
 * with its unique (userId, eventId) key, and the Redis slot counters kept under
 * `event:<id>:slots`.
 */
module Ledger {

  type UserId = int
  type EventId = int

  /** A booking row; the (userId, eventId) key is unique, so the table is a set. */
  datatype Booking = Booking(userId: UserId, eventId: EventId)

  /**
   * `events` maps an event id to its `totalSlots`; `counter` holds the cached
   * slots-left value of an event, absent when Redis has no key for it.
   */
  datatype Tables = Tables(
    events: map<EventId, int>,
    bookings: set<Booking>,
    counter: map<EventId, int>)

  /** `where: { eventId }` on the booking table. */
  function ForEvent(bookings: set<Booking>, eventId: EventId): set<Booking>
  {
    set b | b in bookings && b.eventId == eventId
  }

  /** `where: { userId }` on the booking table. */
  function ForUser(bookings: set<Booking>, userId: UserId): set<Booking>
  {
    set b | b in bookings && b.userId == userId
  }

  /** `prisma.booking.count({ where: { eventId } })`. */
  function BookedCount(bookings: set<Booking>, eventId: EventId): nat
  {
    |ForEvent(bookings, eventId)|
  }

  /** The ledger's own slots-left figure: `totalSlots - bookedCount`. */
  function Remaining(t: Tables, eventId: EventId): int
    requires eventId in t.events
  {
    t.events[eventId] - BookedCount(t.bookings, eventId)
  }

  /** Adding a new booking raises the count of its own event by one and no other. */
  lemma CountAfterInsert(bookings: set<Booking>, b: Booking, eventId: EventId)
    requires b !in bookings
    ensures BookedCount(bookings + {b}, eventId) ==
              BookedCount(bookings, eventId) + (if b.eventId == eventId then 1 else 0)
  {
    if b.eventId == eventId {
      assert ForEvent(bookings + {b}, eventId) == ForEvent(bookings, eventId) + {b};
    } else {
      assert ForEvent(bookings + {b}, eventId) == ForEvent(bookings, eventId);
    }
  }

  /** Removing every booking of one event zeroes its count and keeps the others. */
  lemma CountAfterEventRemoved(bookings: set<Booking>, removed: EventId, eventId: EventId)
    ensures BookedCount(bookings - ForEvent(bookings, removed), eventId) ==
              if eventId == removed then 0 else BookedCount(bookings, eventId)
  {
    if eventId == removed {
      assert ForEvent(bookings - ForEvent(bookings, removed), eventId) == {};
    } else {
      assert ForEvent(bookings - ForEvent(bookings, removed), eventId) == ForEvent(bookings, eventId);
    }
  }

  /** Every booking points at an existing event (the booking-to-event relation). */
  predicate ReferencesExist(t: Tables)
  {
    forall b :: b in t.bookings ==> b.eventId in t.events
  }

  /** No event holds more bookings than it has slots: nothing is oversold. */
  predicate WithinCapacity(t: Tables)
  {
    forall e :: e in t.events ==> BookedCount(t.bookings, e) <= t.events[e]
  }

  /** Events are created with `totalSlots` at least 1 (src/routes/event.routes.js:19). */
  predicate CapacityPositive(t: Tables)
  {
    forall e :: e in t.events ==> t.events[e] >= 1
  }

  /** A cached counter of an existing event never promises more than the ledger has. */
  predicate CacheAtMost(t: Tables)
  {
    forall e :: e in t.counter && e in t.events ==> t.counter[e] <= Remaining(t, e)
  }

  /** The cached counter of event `e`, if any, equals the ledger's figure. */
  predicate CacheExactAt(t: Tables, e: EventId)
  {
    e in t.counter && e in t.events ==> t.counter[e] == Remaining(t, e)
  }

  predicate CacheExact(t: Tables)
  {
    forall e :: e in t.counter ==> CacheExactAt(t, e)
  }

  /** The safety invariant: the ledger is never oversold and the cache errs low. */
  predicate Safe(t: Tables)
  {
    ReferencesExist(t) && WithinCapacity(t) && CapacityPositive(t) && CacheAtMost(t)
  }

  /** Safe, and every cached counter is exactly the ledger's figure. */
  predicate Consistent(t: Tables)
  {
    Safe(t) && CacheExact(t)
  }
}
