# Verification of haiway

A Dafny model of the parts of haiway whose correctness does not show in one function: protocols between
tasks, state that a local step must keep globally right, and the attribute engine with its cyclic graphs.
The modules follow the structure of the library:

- `ScopeTree`, `ScopeRuns`, `ScopeDrops`, `ScopeObserver`: scopes that are entered under a parent, left in any
  order, and completed by a walk over the parents.
- `Events`, `ContextEvents`: the event bus, a chain of futures per type of event.
- `Streams`, `AsyncStream`: the stream with back-pressure; `Merge`: `stream_concurrently` over it.
- `Queues`, `AsyncQueue`: the bounded queue.
- `Throttling`, `Caching`: the sliding-window limiter and the LRU cache with expiry.
- `Concurrency`: `process_concurrently` and `execute_concurrently`.
- `Migrations`: names of migrations, and runs that resume after failures.
- `Values`, `Annotations`: values, and validating and checking them. `Typing`: what a type means, and that checking is
  right. `Validating`, `Refusals`: what validation makes of a value, and which error it gives. `ResultTypes`,
  `Soundness`, `Acceptance`, `CheckDepth`: what was validated has the type and is accepted. `Stability`, `Unions`:
  validating twice.
- `States`, `Exporting`, `RoundTrip`, `PlainUnions`, `Programs`, `StateMethods`: State instances, their updates, and
  export and import.
- `Aliases`: resolving recursive type aliases.
- `Specification`, `SpecificationPrinter`: JSON schemas. `SchemaTerms`: what their keywords mean. `References`,
  `AliasReferences`: which of their references have identifiers. `SchemaMeaning`, `SchemaCycles`, `SchemaFailures`:
  which of them mean what the graph means.
- `Paths`, `Steps`, `Coercions`: attribute paths, where a step leads, and paths as lenses.

`dafny verify dfyconfig.toml` checks everything.

Protocols are modelled as steps between the points where a task can be suspended. Each step is a function on
a value that holds the state together with a log of what happened, and the theorems quantify over all
sequences of steps. Where the library updates objects in place, a class with those fields has one method
for each step, whose postcondition equates the new state with the result of the step function. Validation,
export and schema generation are functions, as in the source; their loops are methods proved equal to them.
A Python exception is the `Err` of a result. Times are real numbers. Named types can be recursive, and
`depth` stands for Python's recursion limit: running out of it is an error like any other.

## Where the code does not do what one would expect

These follow from the model. The lemmas in brackets give the input, and say when the code is right: exactly, where
they are stated as an equivalence.

- When a scope is entered under a parent that was already completed, the flags no longer say which subtrees were
  left (`RunsAreExactIff`: exactly then), and the state can stay for ever although all scopes were left, because the
  walk stops at that parent (`EnterUnderCompletedParentLeaks`). An exit drops the state if and only if it is that
  of the last open scope and exactly the scopes that are not above it are completed (`DropsIff`, for all runs
  `RunsDropIff`), so that a late exit of the root can still drop it (`LateRootExitDrops`).
- Two reads of one subscription in flight at once get the same event (`TwoReadersShareAnEvent`), and cancelling a read
  that awaits the tail of a type makes every later send of that type fail, for all its subscriptions
  (`CancelledReadStopsOthers`, `RejectsIff`). Delivery is exact if and only if no read is resumed with a
  future that its subscription has left behind and no event is sent to a cancelled tail (`DeliveryIsExactIff`).
- A suspended `send` that is cancelled stays in the queue of the stream. The read that meets it fails, and a finish
  fails there too: the sends behind it are never released (`WithdrawnSendForgetsNext`, `FinishForgetsIff`).
- A reference to a recursive alias that carries an `Alias` annotation of its own stays unresolved, and using
  it raises (`RenamedReferenceStaysUnresolved`, `NamedIsResolvedIff`). One to another alias of the module whose
  `Alias` annotation repeats the name of this one is resolved to this one (`ForeignReferenceIsResolved`,
  `ForeignIsResolvedIff`).
- A field that holds `MISSING` although its default is another value loses that in `validate(to_mapping(s))`
  (`MissingInSpiteOfDefaultIsLost`, `ExportedStateValidatesBack`).
- `check` of a one-character text need not end under a recursive alias of a one-element tuple: with
  `tuple[A] | str` it does not (`OneCharacterNeverAnswers`), with `str | tuple[A]` it does (`TextFirstAnswers`).
  Whether it ends can be told after as many steps as there are aliases (`CharacterCheckEndsIff`, and `CheckEndsIff`
  for all values).
- Validation is not idempotent under all unions (`OtherUnionsCoerceAgain`). Where the alternatives
  use no user validators and only coherent unions, a union is idempotent if and only if it is coherent
  (`UnionIsIdempotentIff`), which for scalar kinds means that no `bool` stands before an `int` with no
  other numeric alternative before it (`ScalarUnionIsIdempotentIff`).
- Schema identifiers are type names, so that two recursive types of the same name can be confused
  (`SameNamesAreConfused`); the schema means what the graph means if and only if every reference is defined by
  something with the same tree (`SchemaDescribesGraphIff`).
- An alias placeholder that occurs twice can leave a `$ref` without its `$id` (`AliasReferenceDangles`); the references
  without one are exactly the lost ones (`DanglesIffLost`, `DanglesExactlyIfLost`), and there are none when
  aliases are tame (`TameAliasesLoseNothing`).
- A path need not read back what it wrote: a field can coerce the value (`CoercedIsNotReadBack`), and a field on the
  way can replace what is around it (`ResetIsNotReadBack`). It does if and only if the value survives the
  validation of the first field on the path (`WrittenIsReadBackIff`); for values of the annotated type all the laws
  hold (`ExactWritesObeyTheLaws`).
- An expiry time that is exactly 0.0 is falsy and never expires (`PastExpiryHitsIff`, `ZeroExpiryIsKept`).

## Model

| member | source | states |
|---|---|---|
| ScopeRuns.RunsAreExactIff | src/haiway/helpers/observability.py:210-286 | in every run of a fresh observer, all completion flags are exact in all states (a scope is completed iff it and its whole subtree were left) if and only if no scope was entered under a completed parent |
| ScopeRuns.RunIsExactIff | src/haiway/helpers/observability.py:210-286 | the same from any state that satisfies the invariant, and the invariant holds again at the end |
| ScopeRuns.RunsKeepShape | src/haiway/helpers/observability.py:214-225 | the tree of registered scopes stays a tree in every run, with or without that condition |
| ScopeTree.EnterKeepsExactIff | src/haiway/helpers/observability.py:210-225 | entering keeps every flag exact if and only if the parent is not completed, which the caller can see before the call |
| ScopeRuns.EnterUnderCompletedParentLeaks | src/haiway/helpers/observability.py:269-286 | a run in which all scopes are left and the state is still never dropped, because the walk stops at a parent that had been completed |
| ScopeDrops.DropsIff | src/haiway/helpers/observability.py:248-286 | leaving a scope drops the state if and only if no other scope is open and exactly the scopes that are not above it are completed; both can be seen before the call, whatever parents the scopes were entered under |
| ScopeDrops.RunsDropIff | src/haiway/helpers/observability.py:210-286 | the same after every run of a fresh observer |
| ScopeDrops.LateRootExitDrops | src/haiway/helpers/observability.py:53-68 | a run with an entry under a completed parent that drops the state all the same, as the late exit of the root looks at all scopes again |
| ScopeDrops.CompletedIsSubtree | src/haiway/helpers/observability.py:53-55 | the recursive `completed` property says that the whole subtree is marked, also where marks are not closed downwards |
| ScopeDrops.RootIsLast | src/haiway/helpers/observability.py:266-273 | the walk gets to the root only to find the whole tree completed |
| ScopeDrops.RunsKeepSane | src/haiway/helpers/observability.py:210-286 | every run keeps what this needs, even one that leaves flags inexact |
| ScopeTree.ExitKeepsInv | src/haiway/helpers/observability.py:248-286 | leaving keeps the invariant, drops the state exactly when no entered scope is left open, and by then has ended every scope once, children first |
| ScopeTree.ClimbIsExact | src/haiway/helpers/observability.py:266-273 | where the walk over the parents stops, every flag in the whole tree is exact |
| ScopeTree.ClimbEndsInOrder | src/haiway/opentelemetry/observability.py:948-973 | each span is ended once, after the spans of all its children |
| ScopeTree.CanCompleteIsExited | src/haiway/helpers/observability.py:57-68 | during the walk the local test of `try_complete` decides the global predicate on the subtree |
| ScopeTree.CompletedIsFlag | src/haiway/helpers/observability.py:53-55 | the recursive `completed` property is the flag alone in every reachable state |
| ScopeTree.SubtreeByChildren | src/haiway/helpers/observability.py:53-55 | a subtree is left exactly when its root is and the subtrees of the children are |
| ScopeObserver.Observer.IsCompleted | src/haiway/helpers/observability.py:53-55 | the recursive property computes the specified predicate |
| ScopeObserver.Observer.TryComplete | src/haiway/helpers/observability.py:57-68 | sets the flag exactly when the scope was left, is not completed and all nested ones are; changes nothing else |
| ScopeObserver.Observer.ScopeEntering | src/haiway/helpers/observability.py:210-225 | the mutable stores and the rebound root together are the specified tree after the entry |
| ScopeObserver.Observer.CompleteUpwards | src/haiway/helpers/observability.py:250-273 | the loop over the parents is the specified walk |
| ScopeObserver.Observer.ScopeExiting | src/haiway/helpers/observability.py:235-286 | the mutable stores and the rebound root together are the specified tree after the exit |
| ScopeObserver.UpwardsIsClimb | src/haiway/helpers/observability.py:266-273 | the flags set one by one by the loop are those of the list of ended scopes |
| Events.DeliveryIsExact | src/haiway/context/events.py:42-45 | as long as no read is resumed with a future that its subscription has left behind, and no event is sent to a cancelled tail: what a subscriber received, followed by what it can still reach, is what was sent of its type since it subscribed, in order |
| Events.DeliveryIsExactIff | src/haiway/context/events.py:42-45 | for every interleaving, with any number of reads in flight and any of them cancelled: that account is right in all states if and only if neither of the two happens |
| Events.OneReaderDeliveryIsExact | src/haiway/context/events.py:42-45 | with at most one read of the subscription in flight at a time, and none cancelled, it is always right |
| Events.TwoReadersShareAnEvent | src/haiway/context/events.py:42-45 | two reads of one subscription in flight, one send: both get the event |
| Events.RejectsIff | src/haiway/context/events.py:95-107 | sending an event of a type fails exactly from the cancellation of a read on its tail until the bus is closed |
| Events.CancelledReadStopsOthers | src/haiway/context/events.py:100-107 | a read of one subscription is cancelled: another subscription misses the next event |
| Events.ReadsAreComplete | src/haiway/context/events.py:42-45 | under the same condition a read gives the next event that is owed; when there is none it stops if the bus was closed, waits if it was not, and is interrupted if the tail was cancelled before |
| Events.ReadsTakeNext | src/haiway/context/events.py:42-45 | under the same condition a read takes the next event owed at once, is in flight only when it waits, and otherwise leaves everything as it is |
| Events.StepKeepsInv | src/haiway/context/events.py:89-135 | the invariant, including that the tail of every thread is unresolved or cancelled, so that a send never resolves a future twice |
| Events.StepAccounts | src/haiway/context/events.py:89-135 | a step keeps the account of a subscription if and only if it does not resume a read of it on a future left behind, nor send an event it is owed to a cancelled tail |
| Events.ChainAfterSend | src/haiway/context/events.py:102-107 | a send that is not rejected extends exactly the chains that end in the tail it resolves |
| Events.CloseStops | src/haiway/context/events.py:122-135 | closing takes every chain off the tails, so that nothing is added to it later |
| Events.CloseKeepsInv | src/haiway/context/events.py:122-135 | closing keeps the invariant |
| ContextEvents.EventBus.Send | src/haiway/context/events.py:89-107 | replaces the tail and resolves the old one, as specified; fails and changes nothing exactly when the tail was cancelled |
| ContextEvents.EventBus.CancelAwait | src/haiway/context/events.py:43 | cancelling a task cancels the promise that it awaits |
| ContextEvents.EventBus.Advance | src/haiway/context/events.py:102-107 | the new tail takes the place of the old one, which is resolved with the event and a link to it |
| ContextEvents.EventBus.Subscribe | src/haiway/context/events.py:109-120 | shares the tail of the thread, or makes one |
| ContextEvents.EventBus.Close | src/haiway/context/events.py:122-135 | ends all tails and forgets them |
| ContextEvents.EventBus.StopTails | src/haiway/context/events.py:123-132 | the loop over the tails: those that are unresolved fail, and no other future changes |
| ContextEvents.Subscriber.Next | src/haiway/context/events.py:42-45 | a read up to its suspension: it awaits the future that the subscription is at, and takes the event of one that is done |
| ContextEvents.Subscriber.Resume | src/haiway/context/events.py:43-45 | the rest of a read: the event of the future it awaited, after which the subscription continues behind that future, wherever it was |
| Streams.HandoffIsExact | src/haiway/utils/stream.py:67-194 | for every interleaving, with producers and the consumer cancelled at any time: the consumer is handed what was sent before the stream finished, in order, up to what is still queued, without the sends withdrawn from the queue; it returns with all of that but an element still under way and one that is lost, which is the case if and only if the consumer was cancelled while a delivery was under way; it is refused with the first reason only |
| Streams.UncancelledHandoffIsExact | src/haiway/utils/stream.py:67-194 | when nobody is cancelled: while open, handed over followed by pending is what was sent; afterwards the consumer has a prefix of it; sends are suspended exactly as long as their elements are queued |
| Streams.FinishForgetsIff | src/haiway/utils/stream.py:123-132 | finishing leaves a send suspended if and only if it is queued behind a withdrawn one |
| Streams.ForgottenForever | src/haiway/utils/stream.py:87-142 | such a send stays suspended whatever happens, unless it is cancelled itself |
| Streams.WithdrawnSendForgetsNext | src/haiway/utils/stream.py:123-132 | two suspended sends, the first cancelled, then a finish: the second is never released |
| Streams.SuspendedSendsMeanWhatTheySay | src/haiway/utils/stream.py:95-97 | a suspended send is released by a read exactly when its own element was taken, by a finish only when it was not; one that is still suspended is queued |
| Streams.NextIff | src/haiway/utils/stream.py:172-186 | a reader of an open stream returns with the first send that was not taken, and resumes its producer; it fails if that was withdrawn; it waits if and only if everything sent is taken |
| Streams.SendIff | src/haiway/utils/stream.py:87-97 | a send to an open stream suspends with a future of its own, unless a reader waits, which returns with it |
| Streams.WaitingEnds | src/haiway/utils/stream.py:123-142 | a waiting reader is refused by a finish; cancelled, it finishes the stream as cancelled |
| Streams.InterruptedDelivery | src/haiway/utils/stream.py:186-194 | an element on its way to a reader that is cancelled is lost |
| Streams.WithdrawIff | src/haiway/utils/stream.py:97 | exactly the sends that are still suspended can be withdrawn |
| Streams.NoMutualWaiting | src/haiway/utils/stream.py:87-97 | a waiting consumer and a suspended producer never coexist |
| Streams.StepKeepsInv | src/haiway/utils/stream.py:87-194 | every step keeps the invariant |
| Streams.SendsAreAccepted | src/haiway/utils/stream.py:87-88 | what the stream accepted are the sends before the first finish, and the reason is that of the first finish, a cancelled consumer that goes on being one of those |
| AsyncStream.AsyncStream.Send | src/haiway/utils/stream.py:67-97 | delivers to a waiting consumer, queues behind a new future, or discards |
| AsyncStream.AsyncStream.ReleasePending | src/haiway/utils/stream.py:123-132 | the loop releases the suspended producers up to the first one that was cancelled, where it fails |
| AsyncStream.AsyncStream.Finish | src/haiway/utils/stream.py:118-142 | sets the reason, releases those producers, and refuses the waiting consumer unless the loop failed |
| AsyncStream.AsyncStream.Withdraw | src/haiway/utils/stream.py:97 | cancelling a suspended producer cancels its future and nothing else |
| AsyncStream.AsyncStream.Interrupt | src/haiway/utils/stream.py:186 | cancelling the suspended consumer leaves its future done |
| AsyncStream.AsyncStream.Next | src/haiway/utils/stream.py:172-186 | takes the oldest element and releases its producer, fails if that one was cancelled, raises the reason, or waits |
| AsyncStream.AsyncStream.Resume | src/haiway/utils/stream.py:186-194 | gives what the future was resolved with; a cancelled consumer finishes the stream |
| Merge.OutputIsInterleaving | src/haiway/helpers/concurrent.py:753-795 | at any moment of any schedule the output is an interleaving of a prefix of each source |
| Merge.ExhaustiveMergeIsComplete | src/haiway/helpers/concurrent.py:765-784 | in exhaustive mode the stream is finished once both producers are done, and a loop that ended normally has output all of both sources |
| Merge.MergeEndsWithFirstSource | src/haiway/helpers/concurrent.py:761-781 | otherwise it has output all of the source that ended first and a prefix of the other |
| Merge.MergeRaisesOnlySourceErrors | src/haiway/helpers/concurrent.py:768-787 | the loop ends with an exception only if one of the sources raised that one |
| Merge.FirstEndCancelsOther | src/haiway/helpers/concurrent.py:761-763 | unless the merge is exhaustive, the first source that ends finishes the stream and cancels the producer of the other |
| Merge.ProducersEnd | src/haiway/helpers/concurrent.py:754-769 | once the stream is finished each producer is over after two steps of its own, having sent nothing and pulled at most one more item, none if it was cancelled |
| Merge.ProducerKeepsInv | src/haiway/helpers/concurrent.py:753-787 | every step of a producer keeps the invariant |
| Merge.Step | src/haiway/helpers/concurrent.py:753-802 | every step of a producer or of the consumer keeps the invariant |
| Merge.StreamStaysExact | src/haiway/helpers/concurrent.py:753-802 | as producers are cancelled only after the stream was finished, its sends mean what they say |
| Merge.ProjectionsInterleave | src/haiway/helpers/concurrent.py:751-760 | a tagged sequence is an interleaving of its two projections |
| Queues.StepKeepsInv | src/haiway/utils/queue.py:125-288 | in every reachable state the buffer is a contiguous suffix of the accepted elements within the limit, a waiting consumer means an empty unfinished queue, and handed-over positions increase |
| Queues.AcceptsUntilFinished | src/haiway/utils/queue.py:146-153 | the queue accepts exactly what is enqueued before it finishes |
| Queues.LosslessQueueKeepsEverything | src/haiway/utils/queue.py:146-288 | without overflow and clearing, handed over followed by buffered is everything accepted; without cancellation all of it but the element on its way was returned |
| Queues.UnboundedQueueIsLossless | src/haiway/utils/queue.py:149-153 | an unbounded queue that is never cleared loses nothing |
| Queues.FinishedQueueDrains | src/haiway/utils/queue.py:225-259 | after finishing, all buffered elements are handed over before a read leaves the queue unchanged |
| Queues.ReadsDrain | src/haiway/utils/queue.py:252-256 | reads give the buffer away in order |
| Queues.EnqueueDropsOldest | src/haiway/utils/queue.py:146-153 | a full queue drops its oldest element for a new one, and only then is anything dropped |
| Queues.LatestAreKept | src/haiway/utils/queue.py:67 | as long as only elements come in, the queue holds the latest of them, as many as it may |
| Queues.NextIff | src/haiway/utils/queue.py:252-277 | after any run: a reader returns at once if and only if something is owed and nobody waits, with the oldest element owed; it waits if and only if nothing is owed and no finish came; otherwise nothing changes |
| Queues.WaitingEnds | src/haiway/utils/queue.py:265-277 | a waiting reader is served by the next element or refused by the finish; cancelled, it leaves the queue open, and loses the element that was on its way |
| Queues.ClearLosesBuffer | src/haiway/utils/queue.py:287-288 | clearing leaves nothing buffered |
| AsyncQueue.AsyncQueue.Enqueue | src/haiway/utils/queue.py:146-153 | resolves the waiting consumer or appends, evicting the oldest; refused once finished |
| AsyncQueue.AsyncQueue.Finish | src/haiway/utils/queue.py:173-195 | records the first reason and refuses the waiting consumer |
| AsyncQueue.AsyncQueue.PendingNext | src/haiway/utils/queue.py:225-231 | gives the oldest buffered element, raises the reason, or reports an empty queue |
| AsyncQueue.AsyncQueue.Next | src/haiway/utils/queue.py:252-269 | gives the oldest buffered element, raises the reason, or waits; a second consumer is refused |
| AsyncQueue.AsyncQueue.Resume | src/haiway/utils/queue.py:269-277 | gives what the future was resolved with, also if the queue was finished meanwhile |
| AsyncQueue.AsyncQueue.Clear | src/haiway/utils/queue.py:287-288 | drops the buffer unless a consumer waits |
| Throttling.RateIsBounded | src/haiway/helpers/throttling.py:111-125 | over any history, cancelled waits included, start k+limit is at least a period after start k, so no window of one period holds more than `limit` starts |
| Throttling.NoCallWaitsLonger | src/haiway/helpers/throttling.py:120-125 | with sleeps that end on time each start is the earliest time allowed |
| Throttling.CallSleepsIff | src/haiway/helpers/throttling.py:111-125 | a call sleeps if and only if `limit` calls started within the period before it, and until the first of them leaves it; otherwise it starts at once |
| Throttling.SleepEnds | src/haiway/helpers/throttling.py:123-125 | after its sleep a call starts; cancelled it does not; either way the lock is free |
| Throttling.RunsKeepInv | src/haiway/helpers/throttling.py:111-125 | every run keeps the invariant that ties the deque to the history |
| Throttling.CleanupDropsExpired | src/haiway/helpers/throttling.py:113-118 | cleaning drops exactly the leading entries that have left the window |
| Throttling.Throttled.Enter | src/haiway/helpers/throttling.py:111-125 | the loop over the deque and the decision to sleep, as specified |
| Throttling.Throttled.Wake | src/haiway/helpers/throttling.py:123-125 | records the start after the sleep |
| Throttling.Throttled.CancelSleep | src/haiway/helpers/throttling.py:123 | a cancelled sleep leaves no entry |
| Caching.CacheIsRecencyList | src/haiway/helpers/caching.py:266-297 | over calls that do not overlap the cache holds the last `limit` distinct keys in the order of latest use since the last clear, and only values of the function |
| Caching.CallHitsIff | src/haiway/helpers/caching.py:279-297 | over any run of calls that do not overlap, the next call of a key is answered without a computation if and only if fewer than `limit` other keys were used since its latest use, and there is no expiration, or its latest computation ended at most that long ago, or the sum of the two is exactly 0.0; said on the history of calls |
| Caching.EntriesAreDated | src/haiway/helpers/caching.py:288-297 | every entry expires as long after the latest computation of its key in the history as the expiration says |
| Caching.HeldKeysAreRecent | src/haiway/helpers/caching.py:279-297 | a key is held if and only if fewer than `limit` other keys were used since its latest use |
| Caching.CallReturnsFunction | src/haiway/helpers/caching.py:279-297 | a call returns the value of the function, whether it hits, misses or finds an expired entry |
| Caching.RecencyIsRecentUse | src/haiway/helpers/caching.py:285-295 | the recency list, defined without the cache, says what it is meant to say |
| Caching.TrimmedRecency | src/haiway/helpers/caching.py:293-295 | evicting the oldest key never loses anything that later uses need |
| Caching.SharedCacheIsSound | src/haiway/helpers/caching.py:279-297 | however calls overlap, fail or meet a clear: the limit holds between steps, and every hit gave the value of the latest completed computation of its key, which is no longer ago than the expiration |
| Caching.SharedCallHitsIff | src/haiway/helpers/caching.py:279-286 | in any such state a call is answered at once if and only if its key is held and has not expired; it then moves the key to the end, and otherwise drops an expired entry and starts a computation |
| Caching.SharedCallEnds | src/haiway/helpers/caching.py:287-297 | a computation that completes is stored for the key it was started with, one that fails changes nothing in the cache, a clear leaves nothing in it |
| Caching.StoreEffect | src/haiway/helpers/caching.py:288-297 | storing gives the key its new entry, appends a new key and then drops the oldest if there are too many, and keeps the place of a key that is there |
| Caching.PastExpiryHitsIff | src/haiway/helpers/caching.py:279-286 | a look-up past the expiration time of an entry hits if and only if that time is exactly 0.0 |
| Caching.ZeroExpiryIsKept | src/haiway/helpers/caching.py:281 | an entry stored at time 0.0 to be kept for no time is found at any later time |
| Caching.LocalCache.Find | src/haiway/helpers/caching.py:279-286 | look-up with expiry and reordering, as specified |
| Caching.LocalCache.Keep | src/haiway/helpers/caching.py:288-297 | store with eviction, as specified |
| Caching.LocalCache.ClearCache | src/haiway/helpers/caching.py:266-267 | empties the cache |
| Concurrency.ExecuteConcurrently | src/haiway/helpers/concurrent.py:343-440 | at most the limit is unfinished at any time, with tasks ending during waits and while the next element is awaited; a normal return gives the results in input order and, without kept exceptions, means that no handler failed; a failure is that of a handler, of the source, or a cancellation |
| Concurrency.ProcessConcurrently | src/haiway/helpers/concurrent.py:119-210 | the same for processing without results |
| Concurrency.RunTasks | src/haiway/helpers/concurrent.py:119-210 | the loop shared by both: every task is spawned, and at the end each was examined and found not failed |
| Concurrency.Settle | src/haiway/helpers/concurrent.py:126-150 | a wait and its examination: each task no longer tracked was examined |
| Concurrency.TaskGroup.Wait | src/haiway/helpers/concurrent.py:127-130 | what is assumed of `asyncio.wait`: it returns done tasks, at least one or all, unless it is cancelled |
| Concurrency.TaskGroup.Pull | src/haiway/helpers/concurrent.py:120-123 | awaiting the next element of an asynchronous source: any tasks may end meanwhile, and the wait may be cancelled |
| Concurrency.TaskGroup.Examine | src/haiway/helpers/concurrent.py:144-150 | finds a failed task if there is one among the done ones |
| Migrations.ValidateNames | src/haiway/postgres/state.py:518-541 | for suffixes in any decimal digits: succeeds if and only if the numbers are distinct and continuous from 0, and then yields the given names permuted so that number i is at position i; a gap is reported only when all names are numbered apart |
| Migrations.Discover | src/haiway/postgres/state.py:521-534 | succeeds exactly when all names have distinct numbers |
| Migrations.DecimalIsRead | src/haiway/postgres/state.py:530 | a number written in decimal is read as that number |
| Migrations.DigitsByPlace | src/haiway/postgres/state.py:530 | in a suffix of any decimal digits each digit counts by its place, as ten to the power of the digits behind it |
| Migrations.NumberIsSuffix | src/haiway/postgres/state.py:521-530 | a name `migration_n` with n written in decimal has the number n |
| Migrations.NumberIsRefusedIff | src/haiway/postgres/state.py:521-534 | names are refused exactly when they begin otherwise, or their suffix is empty or holds anything but digits |
| Migrations.Pigeonhole | src/haiway/postgres/state.py:536-541 | n distinct numbers are all below n exactly when all numbers below n are there |
| Migrations.RunsResume | src/haiway/postgres/state.py:288-325 | over any sequence of runs that fail anywhere, with a list that is only extended, the data is the effect of the first `version` migrations, each once and in order |
| Migrations.AppliedLogIsAPrefix | src/haiway/postgres/state.py:310-315 | as a log: exactly the migrations 0 to version - 1 were applied, in that order |
| Migrations.RemainingApplies | src/haiway/postgres/state.py:310-322 | one run: it succeeds iff the version reaches the end of the list, and otherwise stops at the first migration that fails |
| Migrations.ExecuteIff | src/haiway/postgres/state.py:299-322 | one run, exactly: refused if and only if the database is beyond the list; successful if and only if no migration that is left fails, all of them being applied then; otherwise stopped before the first that fails, with those before it applied |
| Migrations.Connection.Transaction | src/haiway/postgres/state.py:313-315 | the migration and the row that records it are applied together or not at all |
| Migrations.Connection.ExecuteMigrations | src/haiway/postgres/state.py:299-322 | the loop does what is specified, and refuses a version beyond the list |
| Soundness.ValidatedIsChecked | src/haiway/attributes/annotations.py:1706-1737 | if validation succeeds, `check` never answers no for the result: for all annotations, nested, recursive, unions and user functions included |
| Soundness.SequenceIsChecked | src/haiway/attributes/annotations.py:1817-1843 | the case of sequences |
| Soundness.SetIsChecked | src/haiway/attributes/annotations.py:1923-1946 | the case of sets, whose elements are deduplicated after validation |
| Soundness.MappingIsChecked | src/haiway/attributes/annotations.py:2029-2052 | the case of mappings, whose keys may collide after validation |
| Soundness.TypedDictIsChecked | src/haiway/attributes/annotations.py:2397-2424 | the case of typed dictionaries with members that are not required |
| Soundness.UnionIsChecked | src/haiway/attributes/annotations.py:2699-2721 | the case of unions |
| CheckDepth.CheckEndsIff | src/haiway/attributes/annotations.py:354-358 | for every annotation and value: a check ends at some recursion depth if and only if it ends at one that is computed from the nesting of the value and the number of aliases |
| CheckDepth.CharacterCheckEndsIff | src/haiway/attributes/annotations.py:1729-1737 | for one character of text: it ends if and only if it ends before it has followed more aliases than there are |
| CheckDepth.ValidatedIsAcceptedIff | src/haiway/attributes/annotations.py:2717-2721 | with that depth `check` answers yes for whatever validation returned, if and only if its check ends at all |
| CheckDepth.MoreDepth | src/haiway/attributes/annotations.py:354-358 | an answer of `check` does not depend on the recursion depth left |
| Acceptance.ValidatedIsAccepted | src/haiway/attributes/annotations.py:2717-2721 | with aliases that reach a part of the value, or an alternative that takes all text, before they recur, `check` answers yes for whatever validation returned |
| Acceptance.CheckAnswers | src/haiway/attributes/annotations.py:354-358 | with such aliases a check of any value answers yes or no |
| Acceptance.OneCharacterNeverAnswers | src/haiway/attributes/annotations.py:1729-1737 | for `A` as the union of `tuple[A]` and `str` the text "a" is valid, but its check exceeds any recursion limit, as the only character of "a" is "a" |
| Acceptance.TextFirstAnswers | src/haiway/attributes/annotations.py:2717-2721 | for `A` as the union of `str` and `tuple[A]` it answers yes, and the alias is one of those that always answer |
| Stability.ValidationIsIdempotent | src/haiway/attributes/annotations.py:719-739 | without user validators and with coherent unions only, validating a validated result returns it unchanged |
| Stability.UnionIsIdempotentIff | src/haiway/attributes/annotations.py:2699-2712 | a union of such alternatives is idempotent if and only if it is coherent: what one alternative made of a value, no earlier one changes |
| Unions.ScalarUnionIsIdempotentIff | src/haiway/attributes/annotations.py:2699-2712 | a union of scalar kinds is idempotent if and only if no `bool` stands before an `int` that no other numeric alternative precedes |
| Unions.SeparateIsCoherent | src/haiway/attributes/annotations.py:2699-2712 | unions in which no alternative takes values of the shapes that a later one gives are coherent, whatever their parts are |
| Unions.NullableIsCoherent | src/haiway/attributes/annotations.py:2699-2712 | so are unions of one annotation with `None` and `MISSING` |
| Unions.ShapesFit | src/haiway/attributes/annotations.py:2699-2712 | validation accepts and returns only values of the shapes read off the annotation |
| Stability.MappingIsStable | src/haiway/attributes/annotations.py:2029-2040 | the case of mappings with coerced keys |
| Stability.OtherUnionsCoerceAgain | src/haiway/attributes/annotations.py:2699-2712 | under a union of `bool` and `int` the value 2.0 becomes 2, and validating that gives true |
| Typing.CheckIsRight | src/haiway/attributes/annotations.py:839-843 | what `check` answers about any value is right: yes only if the value has the annotated type, said constructor by constructor, no only if it does not; text and bytes under tuples are taken as their characters and numbers |
| Typing.CheckIsExactIff | src/haiway/attributes/annotations.py:354-358 | for every annotation and value: a check that ends at all answers yes if and only if the value has the type, and otherwise no |
| Typing.HasDeeper | src/haiway/attributes/annotations.py:354-358 | having a type at some nesting of names is having it at any deeper one |
| ResultTypes.ValidatedHasType | src/haiway/attributes/annotations.py:1706-1737 | what validation returns has the annotated type, at the depth that validation used |
| Validating.ValidateIff | src/haiway/attributes/annotations.py:719-739 | validation succeeds with exactly the results that a relation between values describes, case by case and without the code: for a number the equal one of the other kind, for text the value spelled or parsed, for parts the results of the parts, for a union the result of the first alternative that gives one, for an instance its fields |
| Validating.BoolAgrees | src/haiway/attributes/annotations.py:719-739 | of texts exactly the spellings of "true" and "false" in any case of letters become true and false |
| Validating.AcceptsIff | src/haiway/attributes/state.py:444-453 | a mapping is taken for an instance exactly when its keys are names or aliases of fields, and never both of one |
| Validating.ConstructedFromArguments | src/haiway/attributes/attribute.py:52-73 | with arguments that each occur once: field i of the new instance is what its annotation makes of the argument under the alias, if there is none of that under the name, if there is none either of the default |
| Validating.GivenByArguments | src/haiway/attributes/attribute.py:64-71 | which argument that is, by its position among the arguments |
| Refusals.MisfitIsWrongType | src/haiway/attributes/annotations.py:719-739 | a value of another shape is refused as one of the wrong type |
| Refusals.ScalarErrors | src/haiway/attributes/annotations.py:719-739 | a scalar of the right shape is refused only as a text that cannot be read, and as a wrong value |
| Refusals.TupleErrors | src/haiway/attributes/annotations.py:1706-1727 | a tuple of another length is a wrong value; otherwise the error is that of the first element that fails |
| Refusals.SequenceErrors | src/haiway/attributes/annotations.py:1817-1834 | the error of a sequence is that of its first element that fails |
| Refusals.SetErrors | src/haiway/attributes/annotations.py:1923-1940 | so is that of a set; when all elements are valid it fails exactly when one cannot be hashed |
| Refusals.MappingErrors | src/haiway/attributes/annotations.py:2029-2043 | in a mapping keys come before their values; when all are valid it fails exactly when a key cannot be hashed |
| Refusals.TypedDictErrors | src/haiway/attributes/annotations.py:2397-2415 | the error of a typed dictionary is that of its first member that is invalid, or required and absent |
| Refusals.UnionErrors | src/haiway/attributes/annotations.py:2699-2715 | a union fails with an error of its own exactly when every alternative fails or gives what the verifier refuses |
| Refusals.ConstructionErrors | src/haiway/attributes/state.py:690-696 | construction fails with the error of the first field that fails |
| Refusals.CollectErrorIff | src/haiway/attributes/annotations.py:1817-1834 | the error of a loop over parts is that of the first part that fails |
| Annotations.FirstOkIsFirst | src/haiway/attributes/annotations.py:2699-2712 | alternatives are tried in order and the first that succeeds counts |
| Annotations.PairsAreMembers | src/haiway/attributes/annotations.py:2403-2412 | a typed dictionary gets its own pair or none for each member |
| Values.DictIsDistinct | src/haiway/attributes/annotations.py:2034-2040 | a dictionary built from pairs has distinct keys, each key and each value from some pair |
| Values.DedupIsDistinct | src/haiway/attributes/annotations.py:1932-1937 | a set built from elements has no equal ones |
| Values.DedupKeepsFirst | src/haiway/attributes/annotations.py:1932-1937 | of equal elements a set keeps the first, and it keeps one of each |
| Values.DictFindsLast | src/haiway/attributes/annotations.py:2034-2040 | a dictionary built from pairs has for each key the value of its last pair |
| Values.SameIffEqual | src/haiway/attributes/annotations.py:625-635 | values are the same under `==` exactly when they are equal part by part, numbers and booleans by their number, sets and dictionaries in the order in which they are held |
| Values.HashableIff | src/haiway/attributes/annotations.py:1932-1937 | a value can be hashed exactly when it holds no list, set or dictionary |
| States.InstancesAreChecked | src/haiway/attributes/state.py:690-696 | in every program of constructions and updates, which may take any instance out of another one to pass it on or to update it, every instance, and every instance inside one, has only field values that satisfy their annotations |
| States.InsideIsChecked | src/haiway/attributes/state.py:690-696 | whatever is taken out of a value at any depth has that property if the value has it |
| States.ValidationKeepsInstances | src/haiway/attributes/state.py:427-459 | validation takes over the instances it is given and makes only new ones that satisfy their annotations, however deep inside its result |
| States.ConstructionKeepsInstances | src/haiway/attributes/state.py:690-696 | so does construction |
| States.ReplacementKeepsInstances | src/haiway/attributes/state.py:970-1008 | and so does an update |
| States.ConstructedIsChecked | src/haiway/attributes/state.py:690-696 | a constructed instance has only such field values |
| States.ReplacedIsChecked | src/haiway/attributes/state.py:991-1006 | an update keeps that, although it validates the changed fields only |
| RoundTrip.ExportedStateValidatesBack | src/haiway/attributes/state.py:731-766 | `validate(to_mapping(s)) == s` for every constructed instance, with any aliases, if and only if no field in it holds `MISSING` in spite of a default; and validating `s` itself gives `s` |
| Programs.ProgramsRoundTrip | src/haiway/attributes/state.py:731-766 | the same for every instance that a program of constructions and updates makes, and every instance inside one |
| Programs.ProgramIsExact | src/haiway/attributes/state.py:990-1006 | everything that a program makes is exactly typed, in instances inside it too |
| Programs.InsideIsExact | src/haiway/attributes/state.py:690-696 | and so is what is taken out of it at any depth |
| RoundTrip.RoundTripIff | src/haiway/attributes/state.py:1011-1035 | the same for every exactly typed value and every annotation of the class |
| PlainUnions.ScalarUnionLeavesResults | src/haiway/attributes/annotations.py:2699-2712 | the class includes all idempotent unions of scalar kinds |
| PlainUnions.NullableLeavesResults | src/haiway/attributes/annotations.py:2699-2712 | and unions with `None` and `MISSING` |
| PlainUnions.ApartLeavesResults | src/haiway/attributes/annotations.py:2699-2712 | and unions whose alternatives take and give values of different shapes, exported or not |
| RoundTrip.StateRoundTrip | src/haiway/attributes/state.py:444-459 | the case of nested instances, exported under aliases and read back by them |
| RoundTrip.ValidatedIsExact | src/haiway/attributes/annotations.py:1817-1831 | whatever validation returns is exactly typed |
| RoundTrip.ConstructedIsExact | src/haiway/attributes/state.py:690-696 | a constructed instance is exactly typed |
| RoundTrip.ReplacedIsExact | src/haiway/attributes/state.py:990-1006 | an updated instance is exactly typed |
| RoundTrip.ExportIsRead | src/haiway/attributes/attribute.py:52-73 | what a field is read from in an exported mapping is its own exported value, or its default when it was `MISSING`; what it is read from in any mapping says `Validating.GivenByArguments` |
| RoundTrip.MissingInSpiteOfDefaultIsLost | src/haiway/attributes/state.py:750-757 | a field `x` of type `int` or `Missing` with default 5 that holds `MISSING` comes back as 5 |
| RoundTrip.AnyComesBackIff | src/haiway/attributes/state.py:1011-1035 | under `Any` an exported value comes back if and only if it holds no State instances, tuples or sets |
| StateMethods.Initialize | src/haiway/attributes/state.py:690-696 | the loop over the fields constructs the specified instance or stops at the first error |
| StateMethods.ToMapping | src/haiway/attributes/state.py:750-757 | the dictionary filled by the loop is the export |
| Exporting.ExportIff | src/haiway/attributes/state.py:1011-1035 | the export is the one value that a relation describes: instances become dictionaries of their fields that are not missing, in order, under the alias or else the name; iterables become lists; dictionaries keep their keys; anything else stays |
| StateMethods.ReplaceLoop | src/haiway/attributes/state.py:970-1008 | normalising aliases to names, in the order of the arguments, and the loop over the fields give the specified update |
| Exporting.ReplaceIff | src/haiway/attributes/state.py:982-1006 | an update succeeds with exactly the instances of the class in which each field whose last argument, under its name or alias, is not missing holds what its annotation makes of that, and every other field holds what it held |
| Exporting.UpdateIff | src/haiway/attributes/state.py:982-985 | which argument counts for a field, by its position |
| StateMethods.CanonicalOfField | src/haiway/attributes/state.py:974-985 | a name or alias is normalised to the name of the one field it refers to |
| Aliases.NothingWantedIsReachable | src/haiway/attributes/annotations.py:3248-3396 | on every finite cyclic graph, whatever the walk adds to it, no unresolved reference to the alias is reachable in the final graph |
| Aliases.WantedIff | src/haiway/attributes/annotations.py:253-262 | what the walk resolves are the unresolved placeholders of the module that name the alias: by the first alias annotation, or by their own name if there is none |
| Aliases.FirstRenameIsFirst | src/haiway/attributes/annotations.py:255-260 | the alias annotation that counts is the first one |
| Aliases.AnnotatedIsCopy | src/haiway/attributes/annotations.py:2184-2194 | without annotations a reference is resolved to the target itself; with them to a copy made of new attributes, wrapped as often as the target, and once more when the annotations ask for validation |
| Aliases.ResolvedIffReachableBefore | src/haiway/attributes/annotations.py:3437-3448 | the walk from the target resolves exactly the references to the alias that could be reached from it before, each to the target or, if it is annotated, to a copy of it with the wrappers asked for, and changes nothing else |
| Aliases.ResolvedIffWantedAndReachable | src/haiway/attributes/annotations.py:3259-3285 | for a walk from anywhere: exactly the references that are reachable when it is over |
| Aliases.Finalize | src/haiway/attributes/annotations.py:3248-3396 | terminates; unvisited and already visited attributes are left as they are |
| Aliases.FinalizeCloses | src/haiway/attributes/annotations.py:3255-3285 | what the walk visited leads only to visited attributes and is resolved |
| Aliases.FinalizeOnlyResolves | src/haiway/attributes/annotations.py:3260-3274 | only wanted placeholders are changed, and only added attributes that are no placeholders |
| Aliases.FinalizeFinds | src/haiway/attributes/annotations.py:3255-3285 | everything visited is reachable in the final graph |
| Aliases.ResolveEffect | src/haiway/attributes/annotations.py:322-339 | one resolution changes one placeholder, which then refers to what represents the target for it |
| Aliases.Annotated | src/haiway/attributes/annotations.py:2184-2194 | annotated copies keep the parts of what they copy, through any number of wrappers |
| Aliases.NamedIsResolvedIff | src/haiway/attributes/annotations.py:253-266 | a reference to the alias that can be reached from the target before the walk is resolved if and only if it has no alias annotation of its own or that repeats the name |
| Aliases.RenamedReferenceStaysUnresolved | src/haiway/attributes/annotations.py:3260-3262 | `Sequence[Annotated[Tree, Alias("children")]]` inside `Tree` stays unresolved |
| Aliases.ForeignIsResolvedIff | src/haiway/attributes/annotations.py:253-266 | a reference to another alias of the module that can be reached from the target before the walk is resolved to this one if and only if its own alias annotation repeats the name of this one |
| Aliases.ForeignReferenceIsResolved | src/haiway/attributes/annotations.py:3260-3262 | `Sequence[Annotated[Leaf, Alias("Tree")]]` inside `Tree`: the reference to `Leaf` becomes one to `Tree` |
| Aliases.AttributeGraph.FinalizeNode | src/haiway/attributes/annotations.py:3248-3396 | the recursive walk over the mutable graph with its shared visited set is the specified one |
| Aliases.AttributeGraph.FinalizeEach | src/haiway/attributes/annotations.py:3287-3344 | the loops over the parts of an attribute are the specified walk over all of them |
| Aliases.AttributeGraph.ResolveNode | src/haiway/attributes/annotations.py:322-339 | assigns the target, annotated if the placeholder is |
| Aliases.AttributeGraph.ResolveAlias | src/haiway/attributes/annotations.py:3437-3448 | resolving the placeholder and walking the target changes exactly the placeholder and the references to the alias reachable from the target before, and leaves no unresolved reference to the alias reachable from the placeholder |
| SchemaMeaning.SchemaDescribesGraphIff | src/haiway/attributes/specification.py:75-144 | for every graph, aliases included: following the references of the finite schema gives the tree of the cyclic graph to any depth, if and only if every reference has a definition that stands for an attribute with the same tree as the one referred to; the branches of the tree of the graph are what its kinds demand of a value, those of the schema what its keywords say |
| SchemaTerms.KeywordMeansKind | src/haiway/attributes/specification.py:150-419 | the keywords printed for each kind, its type, format, values and bounds, mean what the kind demands |
| SchemaTerms.RequiredAreListed | src/haiway/attributes/specification.py:458-461 | a printed dictionary type lists as required the names of the required members, in order and once each, and no others |
| SchemaTerms.RequiredIff | src/haiway/attributes/specification.py:458-461 | a name is listed if and only if a required member has it |
| SchemaTerms.LiteralIsPrintedIff | src/haiway/attributes/specification.py:178-196 | literals are printed as texts if and only if all are texts, as integers if and only if all are integers or booleans and not all are texts, and are otherwise refused |
| SchemaTerms.UnionListsTypesIff | src/haiway/attributes/specification.py:284-313 | a union lists types if and only if it has alternatives and the schema of each is no more than a type: those types in order; otherwise it has the schemas of the alternatives in order |
| SchemaCycles.SchemaDescribesTameGraph | src/haiway/attributes/specification.py:75-144 | a condition on the graph alone: tame aliases, and attributes that can be reached, lie on a cycle and share a type name describe the same tree |
| References.DanglesIffLost | src/haiway/attributes/specification.py:75-144 | for every graph: all `$id` names are referred to; and a `$ref` has no `$id` if and only if it is lost and no other attribute happens to give the same name |
| AliasReferences.DanglesExactlyIfLost | src/haiway/attributes/specification.py:75-144 | when all type names differ the references without `$id` are exactly the lost ones: to aliases left unmarked and met again outside themselves, and names that an alias replaced |
| AliasReferences.TameAliasesLoseNothing | src/haiway/attributes/specification.py:85-101 | a condition on the graph: when each alias can be reached in one way only and shares what it stands for with nothing, or there are none, nothing is lost |
| AliasReferences.ReferencesAreIdentified | src/haiway/attributes/specification.py:81-83 | then the `$ref` names are exactly the `$id` names |
| AliasReferences.SequenceOfItselfIsTame | src/haiway/attributes/specification.py:85-101 | `Tree` as `Sequence[Tree]` satisfies the condition |
| Specification.Print | src/haiway/attributes/specification.py:75-147 | terminates on every graph; nothing is forgotten from the guard that was there before |
| SchemaMeaning.PrintMatches | src/haiway/attributes/specification.py:75-144 | each part of the schema describes its attribute, or refers to a marked one of the same structure by its type name |
| References.PrintAccounts | src/haiway/attributes/specification.py:75-144 | every reference is identified inside, or lost, or to a marked attribute outside; what stays in the guard with a mark is identified or lost; what is newly marked is referred to |
| SchemaCycles.PrintIsOnCycles | src/haiway/attributes/specification.py:81-83 | what is newly marked lies on a cycle of the graph, when nothing is lost |
| Specification.CompressedIsShorter | src/haiway/attributes/specification.py:284-309 | a union lists type names only when every alternative is a type name and nothing else |
| SchemaMeaning.FoundOccurs | src/haiway/attributes/specification.py:487-497 | what is found under an identifier occurs in the schema, stands for an attribute, and has the identifier |
| SchemaFailures.SameNamesAreConfused | src/haiway/attributes/specification.py:70-72 | two recursive dictionary types of the same name: the schema does not describe the graph, as the reference inside the second leads to the first |
| SchemaFailures.AliasReferenceDangles | src/haiway/attributes/specification.py:85-101 | `Tree` as the union of `Mapping[str, Tree]` and `Sequence[Tree]` gives a `$ref` without its `$id` |
| SpecificationPrinter.Printer.PrintAttribute | src/haiway/attributes/specification.py:75-144 | the recursion over the mutable guard, with entries dropped on the way out, is the specified printer |
| SpecificationPrinter.Printer.PrintKind | src/haiway/attributes/specification.py:118-129 | the factory of each kind does what is specified for it |
| SpecificationPrinter.Printer.PrintTuple | src/haiway/attributes/specification.py:245-266 | the loop over the elements, up to the first unsupported one |
| SpecificationPrinter.Printer.PrintUnion | src/haiway/attributes/specification.py:269-313 | the loop that collects alternatives and type names side by side |
| SpecificationPrinter.Printer.PrintTypedDict | src/haiway/attributes/specification.py:439-468 | the loop that collects properties and required names |
| Paths.WriteThenRead | src/haiway/attributes/path.py:1041-1073 | put-get: what was written is read, along any path on which validation keeps what is assigned |
| Paths.ReadThenWrite | src/haiway/attributes/path.py:1047-1061 | get-put: writing back what was read changes nothing |
| Paths.WriteTwice | src/haiway/attributes/path.py:1047-1061 | put-put: a second write makes the first irrelevant, whether it succeeds or fails |
| Paths.WriteElsewhere | src/haiway/attributes/path.py:1063-1073 | a read along any path that diverges from the written one gives the same value or error as before |
| Paths.ValidatedIsWrittenBack | src/haiway/attributes/path.py:1047-1061 | get-put without any condition on values made by validation |
| Paths.CallReadsWhatItWrote | src/haiway/attributes/path.py:995-1073 | put-get for the call with its own type assertions |
| Paths.ExactWritesObeyTheLaws | src/haiway/attributes/path.py:1041-1073 | put-get, put-put and independence of diverging paths for values of the annotated type, with no assumption about what validation does |
| Paths.ExactlyTypedIsSettled | src/haiway/attributes/path.py:1047-1061 | validation keeps everything that such a write assigns |
| Coercions.WrittenIsReadBackIff | src/haiway/attributes/path.py:1041-1073 | for every path: what is written is read back if and only if, at the first field on the path, the rest of the path leads to it in what the annotation makes of the updated field value |
| Coercions.ReadIsWrittenBackIff | src/haiway/attributes/path.py:1041-1073 | for every path: writing back what was read changes nothing if and only if that annotation makes of the updated field value what the field holds, and the sequences before it can be assigned to |
| Coercions.FieldIsReadBackIff | src/haiway/attributes/path.py:160-163 | for one field: exactly when its annotation does not coerce the value |
| Coercions.CoercedIsNotReadBack | src/haiway/attributes/path.py:160-163 | the float 2.0 written to a field of type `int` is read back as 2 |
| Coercions.ResetIsNotReadBack | src/haiway/attributes/path.py:1047-1061 | 5 written to `a.b` is read back as 0 when `a` is validated to an instance whose `b` is 0, although `b` does not coerce 5 |
| Steps.ItemLeads | src/haiway/attributes/path.py:307-322 | reading item k of n gives item k for 0 <= k < n, item n + k for -n <= k < 0, and fails for any other |
| Steps.ItemIsAssigned | src/haiway/attributes/path.py:324-343 | assigning to item k replaces that one item and keeps the length, the other items and the class, and fails for the same k |
| Steps.ItemCall | src/haiway/attributes/path.py:995-1073 | the same for a call with a path of one such step, read and written |
| Steps.KeyLeads | src/haiway/attributes/path.py:472-487 | reading a key gives the value of its entry and fails when there is none |
| Steps.KeyIsAssigned | src/haiway/attributes/path.py:489-508 | assigning a key changes or appends its entry and keeps all others in order |
| Steps.FieldLeads | src/haiway/attributes/path.py:118-138 | reading a name gives the field of that name, and fails when there is none |
| Steps.FieldIsAssigned | src/haiway/attributes/path.py:140-169 | assigning a name replaces that field by what its annotation makes of the value |
| Steps.StepsAreRefused | src/haiway/attributes/path.py:118-508 | which error a step gives on a value of an unexpected type or of another shape, and for an unexpected value |
| Steps.CallIff | src/haiway/attributes/path.py:1036-1073 | a call succeeds if and only if the root and the value read or written are of the types of the path and the read or write itself succeeds, with its result |
| Steps.CallFailsIff | src/haiway/attributes/path.py:1036-1073 | otherwise the error is that of the first assertion that fails, or of the read or write |
| Steps.ReadsCompose | src/haiway/attributes/path.py:1063-1073 | reading along a path is reading along its parts one after the other |
| Steps.WritesCompose | src/haiway/attributes/path.py:1041-1061 | writing along a path is writing its end and then, on the way back, each part |
| Paths.Assigned | src/haiway/attributes/path.py:140-169 | one step: the value is put where the step leads, by index, key or name, all other places and the class stay |
| Values.PutThenLookup | src/haiway/attributes/path.py:503-505 | assigning a key of a copied dictionary changes that key only |
| Paths.OneFieldReplaced | src/haiway/attributes/state.py:982-1008 | an update of one field validates it and keeps the others |
| Paths.WriteWithStack | src/haiway/attributes/path.py:1047-1061 | the two loops over the stack are the recursive put, errors included |
| Paths.CallPath | src/haiway/attributes/path.py:995-1073 | the call reads or writes as specified, with the assertions in the order of the code |

## Left out

- SchemaDescribesGraphIff: for graphs in which no alias stands for itself alone, as `type A = A` does; such an attribute has no tree. Whether all references are defined right is a question about the produced schema; `SchemaDescribesTameGraph` asks only about the graph, and is sufficient.
- TameAliasesLoseNothing: the condition is sufficient; the exact one, `Lost`, follows the order in which the printer meets the aliases.
- ValidatedIsAccepted: with aliases that make progress the depth follows from the annotations alone; `ValidatedIsAcceptedIff` is the exact condition for all aliases.
- ReadThenWrite: assumes, like the other laws for arbitrary values, that validation keeps each assigned value; `ValidatedIsWrittenBack` and `ExactWritesObeyTheLaws` need no such assumption, and `WrittenIsReadBackIff` and `ReadIsWrittenBackIff` are the exact conditions.
- ValidationIsIdempotent: State classes and type aliases included, `Any` and literals included, but no user validators, which may do anything.
- ExportedStateValidatesBack: excludes fields of type `Any`, for which `AnyComesBackIff` is the exact condition, user validators, and unions in which an earlier alternative changes the result of a later one or its export; equality of sets and dictionaries inside other sets follows their order here.
- InstancesAreChecked: assumes that user validators and defaults do not bring in instances that violate their annotations.
- RateIsBounded: assumes a monotone clock and sleeps that do not end early.
- ResolvedIffReachableBefore: for a target that is not itself an alias, which it can only be while that alias is still being resolved, and unresolved then; annotating it would make more placeholders during the walk; the `alias` property of a resolved placeholder, on which nothing depends in the walk, is not modelled.
- CacheIsRecencyList: for calls that do not overlap; overlapping misses on one key do not refresh its recency, and `SharedCacheIsSound` states what holds then.
- Python's type introspection: the model starts from resolved attributes, and from State classes given as lists of fields.
- Text formats (UUID, dates, times, enumerations, paths): a partial parser given with the environment; validating its results gives them back.
- State instances of subclasses in `isinstance`, and the checks of parametrised States.
- Attributes for protocols, functions and arbitrary Python objects; properties of objects other than States in paths; text as a sequence in paths.
- The export of dataclasses and of other objects that are no State.
- The schemas of State classes, which are taken as given; descriptions in schemas.
- Default factories and environment defaults: a default is a fixed value.
- SQL, connections and the lock of the migrations table. The database is a version, its data, and atomic transactions.
- The task group around `process_concurrently` and its cancellation of the remaining tasks; a consumer that stops a merge early.
- Python run without assertions.
- Calls from other threads (`call_soon_threadsafe`), signal handlers, and background tasks.
- Logging, timing, metrics and the OpenTelemetry SDK, except that ending a span is an event of the scope tree.
- `concurrently`, which has the same loop as `execute_concurrently`; `cache_externally`, timeouts, retries, pagination, configuration, requirements and templates: wrappers or finite machines that would add only easy members.
