/** The per-category reconciliation state machine of `EventHandler`, on
    values. `syncSingleEvent` suspends at one `await`; it is split into the
    two atomic steps around it: `Begin` (guard check, snapshot, difference,
    guard set) and `Complete` (the write's effect, the outcome's bookkeeping,
    guard release). */
module SyncModel {
  import opened Events
  import Repository

  /** The handler's state together with the remote store's committed counts.
      `sending` holds, per category, the difference captured by a suspended
      `syncSingleEvent` whose write is still outstanding. */
  datatype State = State(
    local: map<EventName, nat>,
    remote: map<EventName, nat>,
    inSync: map<EventName, bool>,
    errorCount: map<EventName, nat>,
    sending: map<EventName, nat>)

  /** Process start: every count is implicitly 0 and no guard is set. */
  function Init(): State
  {
    State(map[], map[], map[], map[], map[])
  }

  /** `inSync.get(e)` read as a condition: an absent entry is false. */
  predicate Syncing(s: State, e: EventName)
  {
    e in s.inSync && s.inSync[e]
  }

  /** The amount of the outstanding write for `e`, 0 when there is none. */
  function Pending(s: State, e: EventName): nat
  {
    Count(s.sending, e)
  }

  /** The guard is set exactly while a write for the category is outstanding,
      and an outstanding write carries a positive amount. */
  ghost predicate Guarded(s: State)
  {
    forall e :: (Syncing(s, e) <==> e in s.sending) && (e in s.sending ==> s.sending[e] > 0)
  }

  /** Guarded, and no category has more remote plus in-flight than local. */
  ghost predicate Consistent(s: State)
  {
    Guarded(s) && forall e :: Count(s.remote, e) + Pending(s, e) <= Count(s.local, e)
  }

  /** Category `c` looks the same in `s` and `t`. */
  ghost predicate SameAt(s: State, t: State, c: EventName)
  {
    && Count(s.local, c) == Count(t.local, c)
    && Count(s.remote, c) == Count(t.remote, c)
    && Count(s.errorCount, c) == Count(t.errorCount, c)
    && Syncing(s, c) == Syncing(t, c)
    && (c in s.sending <==> c in t.sending)
    && (c in s.sending ==> s.sending[c] == t.sending[c])
  }

  /** The part of `syncSingleEvent` before its `await`. The second component
      is the amount written, `None` when no write is issued. */
  function Begin(s: State, e: EventName): (r: (State, Option<nat>))
    ensures r.1.Some? <==> !Syncing(s, e) && Count(s.remote, e) < Count(s.local, e)
    ensures r.1.Some? ==>
              && r.1.value == Count(s.local, e) - Count(s.remote, e)
              && Syncing(r.0, e)
              && r.0.local == s.local && r.0.remote == s.remote && r.0.errorCount == s.errorCount
              && r.0.sending == s.sending[e := r.1.value]
    ensures r.1.None? ==> r.0 == s
    ensures forall c :: c != e ==> SameAt(s, r.0, c)
  {
    if Syncing(s, e) then (s, None)
    else
      var localCount := Count(s.local, e);
      var remoteCount := Count(s.remote, e);
      if remoteCount > localCount then (s, None)
      else
        var difference := localCount - remoteCount;
        if difference > 0 then
          (s.(inSync := s.inSync[e := true], sending := s.sending[e := difference]), Some(difference))
        else (s, None)
  }

  /** The part of `syncSingleEvent` after its `await`: `saveEventData` takes
      effect on the store, success resets the error counter, `TOO_MANY`
      increments it, every other error is swallowed, and the `finally`
      releases the guard. */
  function Complete(s: State, e: EventName, att: Attempt): (r: State)
    requires e in s.sending
    ensures !Syncing(r, e) && e !in r.sending
    ensures r.local == s.local
    ensures att.outcome == Success ==> Count(r.remote, e) == Count(s.remote, e) + s.sending[e]
    ensures att.outcome == TooMany || att.outcome == RequestFail ==> r.remote == s.remote
    ensures Count(r.remote, e) == Count(s.remote, e) || Count(r.remote, e) == Count(s.remote, e) + s.sending[e]
    ensures att.outcome == Success ==> Count(r.errorCount, e) == 0
    ensures att.outcome == TooMany ==> Count(r.errorCount, e) == Count(s.errorCount, e) + 1
    ensures att.outcome != Success && att.outcome != TooMany ==> r.errorCount == s.errorCount
    ensures forall c :: c != e ==> SameAt(s, r, c)
  {
    var difference := s.sending[e];
    var remote := Repository.UpdateEventStatsBy(s.remote, e, difference, att);
    var errorCount :=
      match att.outcome
      case Success => s.errorCount[e := 0]
      case TooMany => s.errorCount[e := Count(s.errorCount, e) + 1]
      case _ => s.errorCount;
    State(s.local, remote, s.inSync[e := false], errorCount, s.sending - {e})
  }

  /** `handleEvent`: one more local occurrence of `e`, then the sync attempt
      for `e` up to its `await`. */
  function Occur(s: State, e: EventName): (r: (State, Option<nat>))
    ensures Count(r.0.local, e) == Count(s.local, e) + 1
    ensures r.0.remote == s.remote && r.0.errorCount == s.errorCount
    ensures forall c :: c != e ==> SameAt(s, r.0, c)
    ensures r.1.Some? <==> !Syncing(s, e) && Count(s.remote, e) <= Count(s.local, e)
    ensures r.1.Some? ==>
              && r.1.value == Count(s.local, e) + 1 - Count(s.remote, e) && Syncing(r.0, e)
              && r.0.sending == s.sending[e := r.1.value]
    ensures r.1.None? ==> Syncing(r.0, e) == Syncing(s, e) && r.0.sending == s.sending
  {
    Begin(s.(local := s.local[e := Count(s.local, e) + 1]), e)
  }

  /** One awaited `syncSingleEvent`, as the periodic sweep runs it: begin,
      and when a write was issued, complete it with `att`. */
  function SyncOnce(s: State, e: EventName, att: Attempt): (r: State)
    ensures Syncing(s, e) ==> r == s
    ensures !Syncing(s, e) ==> !Syncing(r, e)
    ensures r.local == s.local
    ensures forall c :: c != e ==> SameAt(s, r, c)
    ensures !Syncing(s, e) && Count(s.remote, e) <= Count(s.local, e) && att.outcome == Success ==>
              Count(r.remote, e) == Count(s.local, e)
    ensures Consistent(s) ==> Consistent(r)
  {
    var (started, sent) := Begin(s, e);
    if sent.Some? then Complete(started, e, att) else started
  }

  /** A sweep over `names` in order, each category's write awaited before
      the next begins; `env` decides each write's outcome. */
  function SweepThrough(s: State, names: seq<EventName>, env: EventName -> Attempt): (r: State)
    ensures r.local == s.local
    ensures Consistent(s) ==> Consistent(r)
    ensures forall c :: Syncing(s, c) ==> SameAt(s, r, c)
    ensures forall c :: c in names && !Syncing(s, c) ==> !Syncing(r, c)
    ensures forall c :: c !in names ==> SameAt(s, r, c)
  {
    if names == [] then s
    else
      var last := names[|names| - 1];
      assert names == names[..|names| - 1] + [last];
      SyncOnce(SweepThrough(s, names[..|names| - 1], env), last, env(last))
  }

  /** The sweep's list holds every category. */
  lemma EveryCategoryListed()
    ensures forall c :: c in EventNames
  {
    forall c ensures c in EventNames {
      match c
      case A => assert EventNames[0] == A;
      case B => assert EventNames[1] == B;
    }
  }

  /** `syncAllEventsWithRepository`: the categories in order [A, B], each
      category's begin and complete back to back, `env` deciding each
      write's outcome. */
  function Sweep(s: State, env: EventName -> Attempt): (r: State)
    ensures r.local == s.local
    ensures Consistent(s) ==> Consistent(r)
    ensures forall c :: Syncing(s, c) ==> SameAt(s, r, c)
    ensures forall c :: !Syncing(s, c) ==> !Syncing(r, c)
  {
    EveryCategoryListed();
    SweepThrough(s, EventNames, env)
  }

  // ---------------------------------------------------------------------
  // Runs: interleavings of occurrences, sync attempts and completions.

  /** An atomic step: an occurrence (`handleEvent`), a sync attempt of the
      periodic sweep up to its `await`, or the completion of the outstanding
      write of a category. */
  datatype Op = Event(cat: EventName) | Tick(cat: EventName) | Settle(cat: EventName, att: Attempt)

  /** A completion exists only for a write that is outstanding. */
  predicate CanStep(s: State, op: Op)
  {
    op.Settle? ==> op.cat in s.sending
  }

  function Step(s: State, op: Op): State
    requires CanStep(s, op)
  {
    match op
    case Event(c) => Occur(s, c).0
    case Tick(c) => Begin(s, c).0
    case Settle(c, att) => Complete(s, c, att)
  }

  /** Whether `op` issues a write for category `e` in state `s`. */
  predicate Starts(s: State, op: Op, e: EventName)
  {
    match op
    case Event(c) => c == e && Occur(s, c).1.Some?
    case Tick(c) => c == e && Begin(s, c).1.Some?
    case Settle(_, _) => false
  }

  predicate Feasible(s: State, ops: seq<Op>)
    decreases |ops|
  {
    ops == [] || (CanStep(s, ops[0]) && Feasible(Step(s, ops[0]), ops[1..]))
  }

  function Run(s: State, ops: seq<Op>): State
    requires Feasible(s, ops)
    decreases |ops|
  {
    if ops == [] then s else Run(Step(s, ops[0]), ops[1..])
  }

  /** Number of writes for `e` issued along a run. */
  function Issued(s: State, ops: seq<Op>, e: EventName): nat
    requires Feasible(s, ops)
    decreases |ops|
  {
    if ops == [] then 0
    else (if Starts(s, ops[0], e) then 1 else 0) + Issued(Step(s, ops[0]), ops[1..], e)
  }

  /** Number of completions of writes for `e` along a run. */
  function Completed(ops: seq<Op>, e: EventName): nat
  {
    if ops == [] then 0
    else (if ops[0].Settle? && ops[0].cat == e then 1 else 0) + Completed(ops[1..], e)
  }

  /** Number of occurrences of `e` along a run. */
  function Occurrences(ops: seq<Op>, e: EventName): nat
  {
    if ops == [] then 0
    else (if ops[0] == Event(e) then 1 else 0) + Occurrences(ops[1..], e)
  }

  function Ind(b: bool): nat
  {
    if b then 1 else 0
  }

  // ---------------------------------------------------------------------
  // Single steps.

  /** Every step keeps the guard tied to the outstanding write, and the
      guard for `e` goes up exactly when a write for `e` is issued and down
      exactly when its completion happens. */
  lemma StepGuard(s: State, op: Op, e: EventName)
    requires Guarded(s) && CanStep(s, op)
    ensures Guarded(Step(s, op))
    ensures Ind(Syncing(s, e)) + Ind(Starts(s, op, e))
            == Ind(op.Settle? && op.cat == e) + Ind(Syncing(Step(s, op), e))
  {
  }

  /** Every step keeps remote plus in-flight within local. */
  lemma StepConsistent(s: State, op: Op)
    requires Consistent(s) && CanStep(s, op)
    ensures Consistent(Step(s, op))
  {
  }

  // ---------------------------------------------------------------------
  // Runs.

  lemma {:induction false} FeasiblePrefix(s: State, ops: seq<Op>, k: nat)
    requires Feasible(s, ops) && k <= |ops|
    ensures Feasible(s, ops[..k])
    decreases |ops|
  {
    if k > 0 {
      assert ops[..k][0] == ops[0];
      assert ops[..k][1..] == ops[1..][..k - 1];
      FeasiblePrefix(Step(s, ops[0]), ops[1..], k - 1);
    }
  }

  /** Over any run, writes issued plus an initially held guard equal
      completions plus a finally held guard. */
  lemma {:induction false} WriteBalance(s: State, ops: seq<Op>, e: EventName)
    requires Guarded(s) && Feasible(s, ops)
    ensures Guarded(Run(s, ops))
    ensures Ind(Syncing(s, e)) + Issued(s, ops, e) == Completed(ops, e) + Ind(Syncing(Run(s, ops), e))
    decreases |ops|
  {
    if ops != [] {
      StepGuard(s, ops[0], e);
      WriteBalance(Step(s, ops[0]), ops[1..], e);
    }
  }

  /** Mutual exclusion: at every point of every run from process start, the
      writes issued for a category exceed the completed ones by at most 1. */
  lemma MutualExclusion(ops: seq<Op>, k: nat, e: EventName)
    requires Feasible(Init(), ops) && k <= |ops|
    ensures Feasible(Init(), ops[..k])
    ensures Completed(ops[..k], e) <= Issued(Init(), ops[..k], e) <= Completed(ops[..k], e) + 1
  {
    FeasiblePrefix(Init(), ops, k);
    WriteBalance(Init(), ops[..k], e);
  }

  lemma {:induction false} RunConsistent(s: State, ops: seq<Op>)
    requires Consistent(s) && Feasible(s, ops)
    ensures Consistent(Run(s, ops))
    decreases |ops|
  {
    if ops != [] {
      StepConsistent(s, ops[0]);
      RunConsistent(Step(s, ops[0]), ops[1..]);
    }
  }

  /** In this model, where a write takes effect on the store at its
      completion and the handler is the store's only writer, every state
      reachable from process start has remote plus outstanding amount within
      the local count, so `syncSingleEvent`'s remote > local branch is not
      reached from process start. */
  lemma NoAnomaly(ops: seq<Op>, e: EventName)
    requires Feasible(Init(), ops)
    ensures Guarded(Run(Init(), ops))
    ensures Count(Run(Init(), ops).remote, e) + Pending(Run(Init(), ops), e) <= Count(Run(Init(), ops).local, e)
  {
    RunConsistent(Init(), ops);
  }

  /** The local count of a category is the number of its occurrences. */
  lemma {:induction false} LocalCountsOccurrences(s: State, ops: seq<Op>, e: EventName)
    requires Feasible(s, ops)
    ensures Count(Run(s, ops).local, e) == Count(s.local, e) + Occurrences(ops, e)
    decreases |ops|
  {
    if ops != [] {
      var t := Step(s, ops[0]);
      if ops[0].cat != e {
        assert SameAt(s, t, e);
      }
      LocalCountsOccurrences(t, ops[1..], e);
    }
  }

  // ---------------------------------------------------------------------
  // Occurrences during an outstanding write, retries, convergence.

  /** `n` occurrences of `e`, each with its sync attempt. While a write for
      `e` is outstanding they only raise the local count: the guard turns
      every sync attempt into a no-op, so the outstanding write is neither
      duplicated nor changed. */
  function OccurTimes(s: State, e: EventName, n: nat): (r: State)
    ensures Count(r.local, e) == Count(s.local, e) + n
    ensures forall c :: c != e ==> Count(r.local, c) == Count(s.local, c)
    ensures Syncing(s, e) ==> r.(local := s.local) == s
  {
    if n == 0 then s
    else
      var prev := OccurTimes(s, e, n - 1);
      Occur(prev, e).0
  }

  /** A write begins for `e`, `n` occurrences arrive while it is outstanding,
      then it completes. The next attempt sends exactly what is not yet in
      the store: the `n` late occurrences when the write was committed, and
      those plus the first amount when it was not. Nothing is lost. */
  lemma LateOccurrencesFollow(s: State, e: EventName, n: nat, att: Attempt)
    requires !Syncing(s, e) && Count(s.remote, e) < Count(s.local, e)
    ensures var (started, sent) := Begin(s, e);
            sent.Some? &&
            var settled := Complete(OccurTimes(started, e, n), e, att);
            var again := if Repository.Committed(att) then n else sent.value + n;
            Begin(settled, e).1 == if again > 0 then Some(again) else None
  {
  }

  /** `k` awaited attempts for `e` that each fail with `failure`. */
  function RetryFailing(s: State, e: EventName, failure: Outcome, k: nat): State
  {
    if k == 0 then s else SyncOnce(RetryFailing(s, e, failure, k - 1), e, Attempt(failure, false))
  }

  /** Writes rejected as rate-limited or not delivered change neither count,
      `TOO_MANY` counts each such failure, and the first success afterwards
      commits the full local count and resets the error counter. */
  lemma {:induction false} SafeRetries(s: State, e: EventName, failure: Outcome, k: nat)
    requires failure == TooMany || failure == RequestFail
    requires !Syncing(s, e) && Count(s.remote, e) < Count(s.local, e)
    ensures var r := RetryFailing(s, e, failure, k);
            && !Syncing(r, e) && r.local == s.local && r.remote == s.remote
            && Count(r.errorCount, e) == Count(s.errorCount, e) + (if failure == TooMany then k else 0)
            && var f := SyncOnce(r, e, Attempt(Success, false));
               Count(f.remote, e) == Count(s.local, e) && Count(f.errorCount, e) == 0
  {
    if k > 0 {
      SafeRetries(s, e, failure, k - 1);
    }
  }

  /** Convergence of a sweep: every listed category without an outstanding
      write whose attempt succeeds ends with remote equal to local and its
      guard clear; every other category is left as it was. */
  lemma {:induction false} SweepThroughConverges(s: State, names: seq<EventName>, env: EventName -> Attempt)
    requires Consistent(s)
    requires forall c :: c in names ==> env(c).outcome == Success
    ensures var r := SweepThrough(s, names, env);
            && Consistent(r) && r.local == s.local
            && (forall c :: c in names && !Syncing(s, c) ==>
                  Count(r.remote, c) == Count(r.local, c) && !Syncing(r, c))
            && (forall c :: c !in names || Syncing(s, c) ==> SameAt(s, r, c))
    decreases |names|
  {
    if names != [] {
      var init := names[..|names| - 1];
      var last := names[|names| - 1];
      var mid := SweepThrough(s, init, env);
      SweepThroughConverges(s, init, env);
      var r := SyncOnce(mid, last, env(last));
      forall c | c in names && !Syncing(s, c)
        ensures Count(r.remote, c) == Count(r.local, c) && !Syncing(r, c)
      {
        if c != last {
          assert c in init;
          assert SameAt(mid, r, c);
        }
      }
      forall c | c !in names || Syncing(s, c) ensures SameAt(s, r, c) {
        assert c !in init || Syncing(s, c);
        if c != last {
          assert SameAt(mid, r, c);
        } else {
          assert Syncing(s, c);
          assert SameAt(s, mid, c);
        }
      }
    }
  }

  /** A full sweep in which every write succeeds brings every category that
      had no outstanding write to remote == local. */
  lemma SweepConverges(s: State, env: EventName -> Attempt)
    requires Consistent(s)
    requires forall c :: env(c).outcome == Success
    ensures Sweep(s, env).local == s.local
    ensures forall c :: !Syncing(s, c) ==>
              Count(Sweep(s, env).remote, c) == Count(s.local, c) && !Syncing(Sweep(s, env), c)
  {
    EveryCategoryListed();
    SweepThroughConverges(s, EventNames, env);
  }

  /** The completion, with success, of the write for `c` if one is outstanding. */
  function SettleIfOutstanding(s: State, c: EventName): State
  {
    if c in s.sending then Complete(s, c, Attempt(Success, false)) else s
  }

  /** A quiescent period: no more occurrences, every outstanding write
      completes successfully. */
  function SettleAll(s: State): State
  {
    SettleIfOutstanding(SettleIfOutstanding(s, A), B)
  }

  /** Convergence: after any run from process start, once the outstanding
      writes complete successfully and one full sweep succeeds, every
      category has remote == local, with its guard clear. */
  lemma Convergence(ops: seq<Op>, env: EventName -> Attempt)
    requires Feasible(Init(), ops)
    requires forall c :: env(c).outcome == Success
    ensures var s := Run(Init(), ops);
            var r := Sweep(SettleAll(s), env);
            forall c :: Count(r.remote, c) == Count(r.local, c) == Count(s.local, c) && !Syncing(r, c)
  {
    var s := Run(Init(), ops);
    RunConsistent(Init(), ops);
    var s1 := SettleIfOutstanding(s, A);
    if A in s.sending {
      StepConsistent(s, Settle(A, Attempt(Success, false)));
    }
    var q := SettleIfOutstanding(s1, B);
    if B in s1.sending {
      StepConsistent(s1, Settle(B, Attempt(Success, false)));
    }
    assert SameAt(s1, q, A);
    forall c ensures !Syncing(q, c) {
      match c
      case A =>
      case B =>
    }
    SweepConverges(q, env);
  }
}
