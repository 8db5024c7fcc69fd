/**
 * The Redis commands the controller sends to a slot counter key, on a map from
 * event id to integer value (a missing key is a missing entry). Values are kept
 * as unbounded integers: Redis's 64-bit range is never approached here.
 */
module SlotCounter {
  import opened Ledger

  type Counter = map<EventId, int>

  /** DECR: a missing key counts as 0; returns the new map and the new value. */
  function Decr(c: Counter, key: EventId): (Counter, int)
  {
    var v := (if key in c then c[key] else 0) - 1;
    (c[key := v], v)
  }

  /** INCR: a missing key counts as 0. */
  function Incr(c: Counter, key: EventId): Counter
  {
    c[key := (if key in c then c[key] else 0) + 1]
  }

  /** The overbooking rollback of the controller: DECR then INCR of a present key changes nothing. */
  lemma RollbackIsNetNeutral(c: Counter, key: EventId)
    requires key in c
    ensures Incr(Decr(c, key).0, key) == c
    ensures Decr(c, key).1 == c[key] - 1
  {
  }
}
