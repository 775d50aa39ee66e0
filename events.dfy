/** Event categories, the remote store's reply classifications and the
    default-0 counter lookup shared by the local statistics, the remote
    store and the error bookkeeping. */
module Events {

  /** The closed set of event categories (the `EventName` enum). */
  datatype EventName = A | B

  /** The categories in declaration order, as `Object.values(EventName)` yields them. */
  const EventNames: seq<EventName> := [A, B]

  /** How one remote write ends: it succeeds, or it fails with one of the
      store's classifications, or with some other error. */
  datatype Outcome = Success | TooMany | ResponseFail | RequestFail | Other

  /** What the environment decides for one remote write: its outcome and,
      where the outcome leaves it open, whether the store applied it. */
  datatype Attempt = Attempt(outcome: Outcome, applied: bool)

  datatype Option<T> = None | Some(value: T)

  /** Lookup with default 0 for a category never set (`map.get(k) || 0`). */
  function Count(m: map<EventName, nat>, e: EventName): nat
  {
    if e in m then m[e] else 0
  }
}
