# Ticket booking admission, modelled in Dafny

This project models the booking core of a small event-ticketing service. That
core is the code that decides whether a user gets a slot of an event. It works
on three tables:

- the **event table**: event id ↦ `totalSlots`;
- the **booking table**: a set of (userId, eventId) pairs, unique per pair;
- the **slot counter cache**: a Redis key `event:<id>:slots` per event. It holds
  a slots-left figure and may be absent.

`bookEvent` checks for a duplicate booking. On a cache miss it recomputes the
counter as `totalSlots - bookedCount` and writes it back. It then refuses a
counter at or below zero and decrements the counter. If the decrement goes
negative it increments the counter back. Finally it inserts the booking.
`getSlotsLeft` reads the same figure without writing anything. `deleteEvent`
removes an event and its bookings. `getEventBookings` and `getUserBookings`
list bookings. In front of the endpoints sits a request gate: `verifyToken`
takes the bearer token out of the Authorization header, and `requireRole`
compares the caller's role claim.

Modules:

- `Ledger` (ledger.dfy): the tables, booking counts, and the invariants.
  - `Safe`: no event is oversold, bookings reference existing events, and the
    cache never promises more than the ledger has.
  - `Consistent`: `Safe`, and every cached counter equals the ledger's figure.
- `SlotCounter` (slot_counter.dfy): Redis `DECR`/`INCR` on a map. A missing key
  counts as 0.
- `Admission` (admission.dfy): each endpoint as a function from the tables
  before a request to its reply and the tables after it, with the lemmas about
  those functions.
- `EventStore` (event_store.dfy): the class `Store`. It holds the three tables
  as fields, and its `BookEvent` and `DeleteEvent` methods update them step by
  step. Each method is proved to end in the state the `Admission` function
  describes.
- `Scenarios` (scenarios.dfy): several bookings of one event, served one after
  another.
- `AuthMiddleware` (auth_middleware.dfy): the gate, as pure functions. JWT
  signature verification is a function parameter `verify`; `None` stands for a
  token the verifier rejects.
- `Wrappers` (wrappers.dfy): `Option`.

Main results:

- Every outcome of `bookEvent` keeps the tables `Safe`, including a failed
  insert. So no event ever holds more bookings than `totalSlots`.
- Every outcome except a server error keeps the tables `Consistent`.
- A failed insert leaves the counter exactly one below the ledger's figure.
  Nothing in the controller gives that slot back. The counter's expiry repairs
  it.
- Distinct users served one after another get the free slots in order. Everyone
  after them is told "Sold out".

Where the code behaves differently from what a reader might expect, the model
follows the code:

- A failed booking insert does not release the reserved slot.
- A booking for a missing event answers 500, not 404, when the counter key is
  absent, because `event.totalSlots` is then read from a `null` event. When a
  counter key is still cached for a deleted event, the answer is 400 "Sold out"
  if that counter is at or below zero. Otherwise it is 500, because the insert
  fails.
- `getSlotsLeft` for a missing event sends no answer at all when the counter key
  is absent. It calls a `next` that the handler does not have. This assumes
  Express 4, which ignores the rejected promise of an async handler; Express 5
  would hand it to the error handler, which answers 500. The Express version is
  not part of this model. With a cached key, the cached figure is answered.

The booking insert fails when the caller's `insertFails` argument says the
database failed. It also fails when the event row no longer exists: a booking
references its event, as the relation used at
src/controllers/event.controller.js:196 shows. The Prisma schema is not part of
this model.

## Model

| member | source | states |
|---|---|---|
| `AuthMiddleware.Split` | src/middleware/auth.middleware.js:5 | `split(' ')` gives at least one field; no field contains a space; there is exactly one field iff the text has no space; joining the fields with single spaces gives the text back |
| `AuthMiddleware.SplitAfterField` | src/middleware/auth.middleware.js:5 | a space-free field followed by one space splits off as the first field, and the rest splits on its own |
| `AuthMiddleware.SplitJoin` | src/middleware/auth.middleware.js:5 | splitting space-free fields joined by single spaces gives those fields back (round trip) |
| `AuthMiddleware.BearerToken` | src/middleware/auth.middleware.js:4-6 | a token exists iff the header is present and its second space-separated field is non-empty, and then it is that field; an absent header or a header with no space gives no token; a token is never empty and has no space |
| `AuthMiddleware.BearerHeaderRoundTrip` | src/middleware/auth.middleware.js:5-6 | the header `<scheme> <token>` yields exactly that token |
| `AuthMiddleware.BearerHeaderExtraFields` | src/middleware/auth.middleware.js:5 | fields after the token are ignored: `<scheme> <token> <more>` yields the token |
| `AuthMiddleware.TrailingSpaceHasNoToken` | src/middleware/auth.middleware.js:5-6 | `"Bearer "` has no token |
| `AuthMiddleware.DoubleSpaceHasNoToken` | src/middleware/auth.middleware.js:5-6 | a double space after the scheme leaves an empty second field, hence no token |
| `AuthMiddleware.VerifyToken` | src/middleware/auth.middleware.js:3-13 | `next` is called (once) iff a token exists and the verifier accepts it, and then `req.user` is the decoded payload; otherwise the answer is 401, "No token" exactly when there is no token and "Invalid token" exactly when the verifier rejected it, and the request is left unchanged |
| `AuthMiddleware.RequireRole` | src/middleware/auth.middleware.js:15-18 | with a user, `next` is called iff the role claim equals the required role, and otherwise the answer is 403 "Forbidden"; `next` passes the request unchanged; without a user, reading `.role` throws and the error handler answers 500 |
| `AuthMiddleware.AdminGate` | src/routes/event.routes.js:12-13 | `verifyToken` followed by `requireRole(role)` lets a request through iff its token verifies to claims with that role; it answers only 401 or 403, never 500 |
| `Ledger.CountAfterInsert` | src/controllers/event.controller.js:116 | inserting a new booking raises the booked count of its event by one and leaves every other event's count alone |
| `Ledger.CountAfterEventRemoved` | src/controllers/event.controller.js:55-57 | removing all bookings of one event sets its count to zero and keeps every other count |
| `SlotCounter.RollbackIsNetNeutral` | src/controllers/event.controller.js:128-134 | DECR followed by the rollback INCR of a present key leaves the counter map exactly as it was; DECR returns the old value minus one |
| `Admission.SlotsView` | src/controllers/event.controller.js:112-118 | the slots-left figure is absent iff the counter misses and the event row is missing; it is the cached value on a hit and `totalSlots - bookedCount` on a miss for an existing event; on consistent tables it equals `totalSlots - bookedCount`; on safe tables it is at most that |
| `Admission.BookEvent` | src/controllers/event.controller.js:99-146 | 409 iff the pair is already booked, with no writes; 500 with no writes when the counter misses and the event is missing; 400 "Sold out" iff the figure read (after cache-aside reconciliation) is ≤ 0, and then only the reconciled counter is written; 201 iff the figure is > 0, the event exists and the insert succeeds, and then exactly one booking is added and the counter is the figure minus one; a failed insert leaves the bookings as they were and the counter at the figure minus one; the event table never changes |
| `Admission.BookEventIsLocal` | src/controllers/event.controller.js:128-141 | `bookEvent` for one event changes no other event's bookings or counter |
| `Admission.BookEventKeepsSafe` | src/controllers/event.controller.js:112-141 | every outcome, the failed insert included, preserves the safety invariant: no event is ever oversold and the cache never exceeds the ledger's figure |
| `Admission.BookEventKeepsConsistent` | src/controllers/event.controller.js:112-141 | if each cached counter equals `totalSlots - bookedCount` before the call, it still does after it for every outcome other than a server error |
| `Admission.InsertFailureLeaksOneSlot` | src/controllers/event.controller.js:137-145 | after a failed insert on an existing event, the bookings are unchanged and the counter is one below the ledger's figure, so the cache no longer agrees with the ledger |
| `Admission.RebookingIsAlreadyBooked` | src/controllers/event.controller.js:106-109 | booking again after a successful booking answers "Already booked" and writes nothing |
| `Admission.SoldOutStaysSoldOut` | src/controllers/event.controller.js:123-125 | after a "Sold out" answer, any user without a booking is also told "Sold out", with no writes |
| `Admission.DeleteEvent` | src/controllers/event.controller.js:49-69 | every booking of the event is removed and all others are kept; the event row is removed; the answer is 204 iff the event existed, otherwise 500; the counter is untouched |
| `Admission.DeleteEventIsLocal` | src/controllers/event.controller.js:55-57 | the bookings of every other event are exactly as before |
| `Admission.DeleteEventKeepsInvariants` | src/controllers/event.controller.js:49-64 | deleting an event preserves both the safety invariant and the exact-cache invariant |
| `Admission.ExpireCounter` | src/controllers/event.controller.js:119 | expiry removes the event's counter key and keeps every other key, the events and the bookings |
| `Admission.ExpiryRestoresConsistency` | src/controllers/event.controller.js:112-120 | when the counter that expires is the only one that disagreed with the ledger (a leaked slot), the tables become consistent again |
| `Admission.SlotsLeft` | src/controllers/event.controller.js:148-162 | the answer is for the asked event; the cached value when present, otherwise `totalSlots - bookedCount` in every state; no answer iff both the counter and the event are missing; on consistent tables the answer is the ledger's figure, and on safe tables it is at most that |
| `Admission.SlotsLeftPredictsSoldOut` | src/controllers/event.controller.js:148-158 | for a user without a booking, `bookEvent` answers "Sold out" exactly when `getSlotsLeft` shows a figure ≤ 0 |
| `Admission.EventBookingsOf` | src/controllers/event.controller.js:165-186 | 404 iff the event is missing; otherwise the event's `totalSlots` and exactly the bookings with that eventId, as many as the booked count |
| `Admission.UserBookingsOf` | src/controllers/event.controller.js:189-213 | exactly the bookings with that userId, with at most one per event |
| `Admission.ListingMatchesSlotsLeft` | src/controllers/event.controller.js:169-177 | on consistent tables the slots-left answer is `totalSlots` minus the number of listed bookings, and the listing never exceeds `totalSlots` |
| `Admission.ListingsAgree` | src/controllers/event.controller.js:193-207 | a booking is in its event's listing iff it is in its user's listing |
| `EventStore.Store.BookEvent` | src/controllers/event.controller.js:99-146 | the step-by-step method returns the outcome and leaves the state that `Admission.BookEvent` gives for the old state; it answers 409 iff the pair was already booked, adds exactly that booking on 201 and no booking otherwise; it keeps the store safe, and consistent unless it answers 500 |
| `EventStore.Store.DeleteEvent` | src/controllers/event.controller.js:49-69 | the method ends in the state `Admission.DeleteEvent` gives and answers 204 iff the event existed, keeping safety and consistency |
| `EventStore.Store.ExpireCounter` | src/controllers/event.controller.js:119 | the method ends in the state `Admission.ExpireCounter` gives and keeps the store safe |
| `Scenarios.BookInTurn` | src/controllers/event.controller.js:99-146 | one outcome per request; the event table is unchanged |
| `Scenarios.FirstComeFirstServed` | src/controllers/event.controller.js:112-141 | on consistent tables, distinct users without a booking who ask one after another: the first `totalSlots - bookedCount` of them are booked, all later ones are told "Sold out", the booked count grows by exactly that minimum, and the tables stay consistent |
| `Scenarios.TwoSlotsFiveUsers` | src/controllers/event.controller.js:99-146 | an event with two slots and five distinct users: two bookings, three "Sold out", and two rows in the ledger |

## Left out

- Concurrency is left out. Simultaneous `bookEvent` calls and the cross-process
  atomicity of Redis `DECR` are not modelled; each call runs on its own. For that
  reason the overbooking rollback at src/controllers/event.controller.js:130-134
  cannot be reached in the model. Its net effect is stated by
  `SlotCounter.RollbackIsNetNeutral`.
- Time is left out. The 60-second expiry of a counter key is modelled only as the
  explicit eviction `ExpireCounter`.
- Redis and database failures are not modelled, except a failed booking insert
  (the `insertFails` argument). A failed `redis.get`, `redis.set`,
  `findUnique` or `count` would also end in the 500 answer.
- The first `bookEvent` (src/controllers/event.controller.js:85-97) is left out.
  It is overwritten by the second definition and is never routed to.
- `createEvent`, `updateEvent` and `listEvents` are left out. They pass writes
  and queries straight to the database, and rely on date parsing and query-string
  coercion. Because `updateEvent` is not modelled, `totalSlots` never changes
  after an event is created.
- src/controllers/auth.controller.js is left out. It wraps password hashing,
  token signing and Redis writes.
- JWT signature verification is an opaque parameter.
- The users table is not part of this model. Every `userId` is taken to exist.
- The JSON shapes of the answers are left out, and so are the user and event
  details that the listings include and `console.error` logging.
- Listing order is left out. The listings are sets, so their `createdAt`
  descending order is not captured. A booking's own id and `createdAt` columns
  are not modelled.
- `parseInt` of path parameters and of the stored counter string is left out.
  Ids and counters are integers, and validation of `:id` is assumed.
- Counter values are unbounded integers. Redis's 64-bit range is never
  approached by these operations.
- The Express wiring of routes is left out. The only part modelled is the
  `verifyToken`/`requireRole` order of the admin routes, in `AdminGate`.
- `Scenarios.BookInTurn`: covers runs in which no database call fails. Runs with
  failures are covered one call at a time by `Admission.BookEventKeepsSafe`.
