# Event sync handler: a verified model

This project models the reconciliation core of `emitter-sync-pattern.ts`. An
`EventHandler` counts occurrences of two event categories, `A` and `B`,
locally. It keeps a slower, unreliable remote store in step with that count by
writing the difference between the two. For each category it holds four
things: the local count, an `inSync` guard that lets only one write be
outstanding, a consecutive-error counter, and the remote committed count,
which lives in the `EventRepository`.

`syncSingleEvent` suspends at a single `await`. The model splits it into two
atomic steps:

- `Begin`: the guard check, the snapshot of both counts, the anomaly check,
  the difference, and setting the guard.
- `Complete`: the write's effect on the store, the error bookkeeping for the
  outcome, and releasing the guard in the `finally`.

While a write is outstanding, its amount (the suspended call's `difference`)
is kept in the `sending` map. Interleavings of occurrences, sync attempts and
completions are sequences of `Op`s run by `SyncModel.Run`.

Files:

- `events.dfy`: categories, write outcomes, and the lookup that defaults to 0.
- `repository.dfy`: the store update and the `EventRepository` adapter.
- `sync_model.dfy`: the state machine on values, and every lemma.
- `event_handler.dfy`: the `EventHandler` class. Its fields are updated in
  place, and each method is proved equal to the matching `SyncModel` step.

The remote store's own behaviour is not part of this model. It is abstracted
as a map with default 0 and an outcome chosen by the environment (an
`Attempt`). `Success` adds the amount. `TooMany` and `RequestFail` change
nothing. For `ResponseFail` and for any other error, the environment's
`applied` flag decides whether the amount was added.

## Model

| member | source | states |
|---|---|---|
| Repository.UpdateEventStatsBy | emitter-sync-pattern.ts:121 | the store's update adds exactly the amount on success, nothing on TOO_MANY or REQUEST_FAIL, and either the amount or nothing otherwise; other categories are untouched |
| Repository.EventRepository.constructor | emitter-sync-pattern.ts:118 | a fresh repository has no committed counts |
| Repository.EventRepository.SaveEventData | emitter-sync-pattern.ts:119-138 | one store update with no retry; every outcome, failure classifications included, is passed to the caller unchanged |
| SyncModel.Begin | emitter-sync-pattern.ts:82-103 | a write is issued iff the guard is clear and remote < local; its amount is exactly local - remote (so positive) and the guard is then set; otherwise (guard set, remote > local, or zero difference) the state is unchanged; other categories are untouched |
| SyncModel.Complete | emitter-sync-pattern.ts:103-113 | the guard is released on every outcome; success adds the sent amount to the remote and resets errorCount to 0; TOO_MANY increments errorCount (absent as 0); every other error leaves errorCount as it was; local and other categories are untouched |
| SyncModel.Occur | emitter-sync-pattern.ts:69-74 | local count of the category rises by exactly 1, no other category changes, and the sync attempt on the same category issues a write iff its guard was clear and remote <= local (before the increment), of amount local + 1 - remote, which becomes the category's outstanding amount |
| SyncModel.SyncOnce | emitter-sync-pattern.ts:78 | one awaited sync keeps local, is a no-op under the guard, ends with the guard clear whenever it started clear, from a clear guard with remote <= local leaves remote == local on success, keeps Consistent, and touches no other category |
| SyncModel.OccurTimes | emitter-sync-pattern.ts:83-86 | n occurrences increase local by n and touch no other category's local count; while a write is outstanding they change nothing else (the write is neither duplicated nor altered) |
| SyncModel.StepGuard | emitter-sync-pattern.ts:99-112 | every step keeps "guard set iff a positive write is outstanding"; the guard rises exactly when a write is issued and falls exactly when it completes |
| SyncModel.StepConsistent | emitter-sync-pattern.ts:91-103 | every step keeps remote + outstanding amount <= local for every category |
| SyncModel.FeasiblePrefix | emitter-sync-pattern.ts:103 | every prefix of a possible run is a possible run |
| SyncModel.WriteBalance | emitter-sync-pattern.ts:83-113 | over any run, writes issued plus an initially set guard equal completions plus a finally set guard |
| SyncModel.MutualExclusion | emitter-sync-pattern.ts:83-113 | at every point of every run from process start, writes issued for a category exceed completed ones by 0 or 1: at most one outstanding write |
| SyncModel.RunConsistent | emitter-sync-pattern.ts:88-103 | every run from a consistent state ends consistent |
| SyncModel.NoAnomaly | emitter-sync-pattern.ts:91-94 | in this model, where a write takes effect on the store at its completion and the handler is the store's only writer, every state reachable from process start has remote + outstanding <= local, so the remote > local branch is not reached from process start |
| SyncModel.LocalCountsOccurrences | emitter-sync-pattern.ts:70 | the local count rises by exactly the number of occurrences of that category in the run |
| SyncModel.LateOccurrencesFollow | emitter-sync-pattern.ts:96-113 | after n occurrences during an outstanding write and its completion, the next attempt sends exactly n when the write was committed and the first amount + n when not: late events are delayed, not lost |
| SyncModel.SafeRetries | emitter-sync-pattern.ts:105-110 | from a state with the guard clear and remote < local, k TOO_MANY or REQUEST_FAIL attempts change neither count and add k (TOO_MANY) or 0 (REQUEST_FAIL) to errorCount; the next success commits the full local count and resets errorCount to 0 |
| SyncModel.SweepThrough | emitter-sync-pattern.ts:77-79 | a sweep over a category list, each category's begin and complete back to back in list order: it keeps every local count and consistency, leaves alone a category with an outstanding write or not in the list, and ends with the guard clear for every listed category whose guard started clear |
| SyncModel.Sweep | emitter-sync-pattern.ts:76-80 | `syncAllEventsWithRepository`: the categories in order [A, B], each category's begin and complete back to back, `env` deciding each write's outcome; it keeps every local count and consistency, leaves a category with an outstanding write unchanged, and ends with every guard clear that started clear (convergence is in the two lemmas below) |
| SyncModel.SweepThroughConverges | emitter-sync-pattern.ts:76-80 | from a consistent state, a sweep over any category list, all writes succeeding, ends consistent with remote == local and the guard clear for every listed category that had no outstanding write, and leaves every other category unchanged |
| SyncModel.SweepConverges | emitter-sync-pattern.ts:76-80 | from a consistent state, a full sweep in order A, B in which every write succeeds keeps every local count and brings remote == local for every category that had no outstanding write |
| SyncModel.Convergence | emitter-sync-pattern.ts:76-113 | after any run from process start, once every outstanding write completes successfully and one full sweep succeeds, every category has remote == local (its local count at the end of the run) and its guard clear |
| EventSync.EventHandler.constructor | emitter-sync-pattern.ts:59-67 | the handler starts with empty local, guard and error maps over the given repository |
| EventSync.EventHandler.HandleEvent | emitter-sync-pattern.ts:69-74 | the new state and the issued write are exactly those of SyncModel.Occur |
| EventSync.EventHandler.BeginSync | emitter-sync-pattern.ts:82-103 | the new state and the issued write are exactly those of SyncModel.Begin |
| EventSync.EventHandler.CompleteSync | emitter-sync-pattern.ts:103-113 | the new state of handler and store is exactly SyncModel.Complete |
| EventSync.EventHandler.SyncSingleEvent | emitter-sync-pattern.ts:82-115 | the new state is exactly SyncModel.SyncOnce |
| EventSync.EventHandler.SweepAll | emitter-sync-pattern.ts:76-80 | the new state is exactly SyncModel.Sweep, categories taken in order A, B |

## Left out

- `init`, `triggerRandomly`, `MAX_EVENTS`, `ResultsTester` and the final `init()` call: they only generate events and report results.
- `emitter.subscribe` and `setInterval` in the constructor: callback and timer wiring. An occurrence is a call of `HandleEvent` or an `Event` op, and a timer tick is a call of `SweepAll` or a run of `Tick`/`Settle` ops.
- The scheduler: the `await` becomes the `Begin`/`Complete` split. `SweepAll` runs each category's begin and complete back to back. Events that arrive while a sweep's write is outstanding are expressed by calling `BeginSync`, `HandleEvent` and `CompleteSync` in that order, or as an op sequence in `SyncModel.Run`.
- `EventDelayedRepository.updateEventStatsBy` and `EventStatistics` are not part of this model. Their latency, failure injection and storage become a map with default 0 and the environment's `Attempt`. The store's effect happens at the completion step, all at once. So the model cannot show a write that lands after its failure was reported, which is the over-count the ambiguous `RESPONSE_FAIL` allows.
- SyncModel.NoAnomaly: the remote > local branch is unreachable only under the abstraction above, where a write takes effect at its completion and the handler is the store's only writer. A write that lands late after a lost reply could make it reachable in the real program; the model does not show that.
- JavaScript numbers are doubles. Counts are modelled as unbounded `nat`, which agrees with the source below 2^53.
- Logging, and the identity comparison with `EventRepositoryError` values. An `Outcome` datatype replaces them.
- `errorCount` is kept up to date but never read to change behaviour, the same as in the source.
