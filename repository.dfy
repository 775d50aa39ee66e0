/** The remote counter store behind the repository adapter, and the adapter
    `EventRepository` with its `saveEventData`. */
module Repository {
  import opened Events

  /** Whether a write ended with the store holding the added amount: always
      on success, never for a request rejected as rate-limited or not
      delivered, and as the environment decides when the reply was lost or
      the error is unclassified. */
  predicate Committed(att: Attempt)
  {
    match att.outcome
    case Success => true
    case TooMany => false
    case RequestFail => false
    case ResponseFail => att.applied
    case Other => att.applied
  }

  /** The store's `updateEventStatsBy`: it adds `count` to the category's
      committed count when the write is committed and leaves it otherwise. */
  function UpdateEventStatsBy(store: map<EventName, nat>, e: EventName, count: nat, att: Attempt)
    : (r: map<EventName, nat>)
    ensures att.outcome == Success ==> Count(r, e) == Count(store, e) + count
    ensures att.outcome == TooMany || att.outcome == RequestFail ==> r == store
    ensures Count(r, e) == Count(store, e) || Count(r, e) == Count(store, e) + count
    ensures forall c :: c != e ==> Count(r, c) == Count(store, c)
  {
    if Committed(att) then store[e := Count(store, e) + count] else store
  }

  class EventRepository {
    /** Committed count per category, as the store holds it. */
    var stats: map<EventName, nat>

    constructor ()
      ensures stats == map[]
    {
      stats := map[];
    }

    /** `getStats`: the committed count, 0 for a category never written. */
    function GetStats(e: EventName): nat
      reads this
    {
      Count(stats, e)
    }

    /** `saveEventData`: one call of the store's update, no retry; every
        failure classification is passed to the caller unchanged. */
    method SaveEventData(e: EventName, count: nat, att: Attempt) returns (outcome: Outcome)
      modifies this
      ensures outcome == att.outcome
      ensures stats == UpdateEventStatsBy(old(stats), e, count, att)
    {
      stats := UpdateEventStatsBy(stats, e, count, att);
      outcome := att.outcome;
    }
  }
}
