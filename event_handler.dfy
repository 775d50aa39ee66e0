/** `EventHandler`: the local statistics, the `inSync` guard and the
    `errorCount` maps as fields updated in place, and the repository it
    writes to. Each method is proved to take the state exactly as the
    corresponding `SyncModel` step does. */
module EventSync {
  import opened Events
  import opened SyncModel
  import opened Repository

  class EventHandler {
    /** Local count per category (the `EventStatistics` storage). */
    var stats: map<EventName, nat>
    var errorCount: map<EventName, nat>
    var inSync: map<EventName, bool>
    /** Per category, the `difference` held by a `syncSingleEvent` suspended
        at its `await`. */
    var sending: map<EventName, nat>
    const repository: EventRepository

    /** The handler and its repository's store, as a `SyncModel` state. */
    function Abstract(): SyncModel.State
      reads this, repository
    {
      SyncModel.State(stats, repository.stats, inSync, errorCount, sending)
    }

    ghost predicate Valid()
      reads this, repository
    {
      Guarded(Abstract())
    }

    /** The subscriptions and the timer are left out; the handler starts
        with empty maps over the given repository. */
    constructor (repository: EventRepository)
      ensures Valid() && this.repository == repository
      ensures Abstract() == SyncModel.State(map[], repository.stats, map[], map[], map[])
    {
      this.repository := repository;
      stats, errorCount, inSync, sending := map[], map[], map[], map[];
    }

    /** `getStats`: the local count, 0 for a category never seen. */
    function GetStats(e: EventName): nat
      reads this
    {
      Count(stats, e)
    }

    /** `handleEvent`: increments the local count, then starts the sync for
        the same category; `sent` is the amount of the write it issued. */
    method HandleEvent(e: EventName) returns (sent: Option<nat>)
      requires Valid()
      modifies this
      ensures Valid()
      ensures (Abstract(), sent) == Occur(old(Abstract()), e)
    {
      stats := stats[e := GetStats(e) + 1];
      sent := BeginSync(e);
    }

    /** `syncSingleEvent` up to its `await`. */
    method BeginSync(e: EventName) returns (sent: Option<nat>)
      requires Valid()
      modifies this
      ensures Valid()
      ensures (Abstract(), sent) == Begin(old(Abstract()), e)
    {
      if e in inSync && inSync[e] {
        return None;
      }
      var localCount := GetStats(e);
      var remoteCount := repository.GetStats(e);
      if remoteCount > localCount {
        return None;
      }
      var difference := localCount - remoteCount;
      if difference > 0 {
        inSync := inSync[e := true];
        sending := sending[e := difference];
        sent := Some(difference);
      } else {
        sent := None;
      }
    }

    /** `syncSingleEvent` after its `await`: the write of the outstanding
        amount ends as `att` says; no error escapes and the guard is
        released on every path. */
    method CompleteSync(e: EventName, att: Attempt)
      requires Valid() && Syncing(Abstract(), e)
      modifies this, repository
      ensures Valid()
      ensures Abstract() == Complete(old(Abstract()), e, att)
    {
      var difference := sending[e];
      var outcome := repository.SaveEventData(e, difference, att);
      match outcome {
        case Success =>
          errorCount := errorCount[e := 0];
        case TooMany =>
          errorCount := errorCount[e := Count(errorCount, e) + 1];
        case _ =>
      }
      // the `finally`
      inSync := inSync[e := false];
      sending := sending - {e};
    }

    /** `await this.syncSingleEvent(e)`: begin, and complete with `att` when
        a write was issued. */
    method SyncSingleEvent(e: EventName, att: Attempt)
      requires Valid()
      modifies this, repository
      ensures Valid()
      ensures Abstract() == SyncOnce(old(Abstract()), e, att)
    {
      var sent := BeginSync(e);
      if sent.Some? {
        CompleteSync(e, att);
      }
    }

    /** `syncAllEventsWithRepository`: each category in order, each awaited
        before the next; `env` decides each write's outcome. */
    method SweepAll(env: EventName -> Attempt)
      requires Valid()
      modifies this, repository
      ensures Valid()
      ensures Abstract() == Sweep(old(Abstract()), env)
    {
      for i := 0 to |EventNames|
        invariant Valid()
        invariant Abstract() == SweepThrough(old(Abstract()), EventNames[..i], env)
      {
        SyncSingleEvent(EventNames[i], env(EventNames[i]));
        assert EventNames[..i + 1][..i] == EventNames[..i];
      }
      assert EventNames[..|EventNames|] == EventNames;
    }
  }
}
