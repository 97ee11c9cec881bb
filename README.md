# recode detectors and chat checks, modelled in Dafny

recode is a client-side Minecraft mod for the DiamondFire server. It recognises server
responses ("detections") by running *trials* against incoming signals. This project models two
parts of it sequentially and proves properties of the model.

**The detector/requester matching engine.** There are two versions:

- The newer engine, `event/trial/DetectorImpl.kt`, is module `TrialDetection`.
- The older engine, `event/DetectorImpl.kt`, is module `LegacyDetection`.

Both engines work the same way:

- A detector keeps a table of pending entries. Each entry has its own response channel.
- Each time a trial fires, the engine scans the table. It drops the entries whose channel is
  closed and evaluates the others with the trial's result supplier.
- Each evaluated entry is sent `null` or a value.
- At most one success per firing reaches the detector's event stream. The newer engine uses a
  single-assignment `CompletableDeferred`; the older one uses an `AtomicBoolean` compare-and-set.
- When the table is empty, a synthetic default entry is evaluated instead.

A requester is a detector with a `start` action. It registers a request entry, returns a non-null
`start(input)` result at once, and otherwise waits for the first non-null response. The newer
requester counts its active requests and restores the counter on every exit path.

The engines run on coroutines. The model makes them sequential:

- Channels are ids drawn from a counter.
  - `closed` is the set of ids whose channel is closed for send.
  - `inbox` is a map from an id to the history of what it was sent.
- A supplier is a function from an entry's arguments to an `Outcome`: `Fail`, the `null` result of
  `nullable`, or `Deferred(awaited)`.
- The order in which the launched evaluations of a firing complete is not fixed. A `picks`
  sequence chooses it. `Scheduling.EveryOrderIsReachable` proves that every permutation is
  reachable, so this choice excludes no interleaving.
- A wait (`detect`'s flow, a request, one attempt of the older engine) is given the *window* of
  firings and lifecycle events that happen before it ends.
- What a firing changes is the table, every channel's history and the event log. Each engine
  gathers these three in a state value (`TrialDetection.Snapshot`, `LegacyDetection.DetailState`).
  It defines the state after one firing as a function (`AfterFiring`), and the state after a
  wait as a fold of it over the window:
  - `AfterFirings` for `detect`'s flow;
  - `AfterRequestWait` for a request;
  - `AfterReceive` and `AfterAwait` for the older engine's receives and attempts.
  Every waiting method states its whole new state as such a fold.
- Four concepts are defined once in each engine's module: `Prune`, `ChannelsDistinct`,
  `PruneKeepsExactlyOpen` and `PruneDistinct`. The two engines' entries are different types
  (`DetectEntry` carries the hidden flag, `TrialEntry` the basis). Everything the engines share
  on values is defined once, in `Trials`.

**Three chat classes.** Module `ChatMessage` is `Message.java`: the message type, the check that
matched, the cancel flag, and the records of what `cancel()` does to its collaborators.
`JoinDiamondFireCheck` recognises the welcome message and scans the scoreboard for the beta node.
It relies on `JavaStrings`, which models Java's `String.split(" ")` including its removal of
trailing empty strings. `StreamerModeFinalizer` cancels streamer-mode messages, except direct
messages from three exempt users.

Supporting modules:

- `Wrappers`: Option and Result.
- `Trials`: outcomes, a channel's received history, the first non-null element.
- `Scheduling`: the completion-order oracle.

## Model

| member | source | states |
|---|---|---|
| Trials.Response | src/main/java/io/github/homchom/recode/event/trial/DetectorImpl.kt:143-150 | An evaluation answers a value exactly when its supply deferred and the awaited result is non-null. A failed supply, and a deferred `null`, answer `null`. |
| Trials.FirstNonNull | src/main/java/io/github/homchom/recode/event/trial/DetectorImpl.kt:200-201 | After `filterNotNull`, the first element is a non-null element of the stream. There is none exactly when every element is `null`. |
| Trials.Emitted | src/main/java/io/github/homchom/recode/event/trial/DetectorImpl.kt:84-90 | A firing runs the event at most once, with exactly the value its detection ended with. It runs nothing when that value is null. Both engines run the event this way. |
| Scheduling.FiringOrder | src/main/java/io/github/homchom/recode/event/trial/DetectorImpl.kt:143-152 | The completion order of the n launched evaluations is a permutation of 0..n-1: each index occurs exactly once. |
| Scheduling.EveryOrderIsReachable | src/main/java/io/github/homchom/recode/event/trial/DetectorImpl.kt:143-152 | Every permutation of the pending evaluations is the completion order for some scheduler choice, so the model excludes no interleaving. |
| TrialDetection.ToString | src/main/java/io/github/homchom/recode/event/trial/DetectorImpl.kt:166 | `toString` is the name followed by exactly ` detector` or ` requester`, by kind. |
| TrialDetection.ToStringInjective | src/main/java/io/github/homchom/recode/event/trial/DetectorImpl.kt:222 | Equal strings come from the same name and the same kind (detector or requester). |
| TrialDetection.DebugString | src/main/java/io/github/homchom/recode/event/trial/DetectorImpl.kt:168-172 | The string starts with `"$this ("` and ends with `)`. `hidden ` follows exactly when hidden is true. The entry part is `default entry` exactly when the input is null. |
| TrialDetection.DebugStringDeterminesFlags | src/main/java/io/github/homchom/recode/event/trial/DetectorImpl.kt:168-172 | Equal debug strings agree on whether hidden is true and on whether the input is null, and, when `show` is injective, on the input itself. |
| TrialDetection.Prune | src/main/java/io/github/homchom/recode/event/trial/DetectorImpl.kt:75-82 | The scan's removal never lengthens the table. Its content is stated by the next two rows. |
| TrialDetection.PruneKeepsExactlyOpen | src/main/java/io/github/homchom/recode/event/trial/DetectorImpl.kt:75-82 | An entry survives the scan exactly when it was in the table and its channel is open. |
| TrialDetection.PruneAppend | src/main/java/io/github/homchom/recode/event/trial/DetectorImpl.kt:75-82 | Removal works entry by entry, so the kept entries keep their original order. |
| TrialDetection.PruneDistinct | src/main/java/io/github/homchom/recode/event/trial/DetectorImpl.kt:109-114 | Each entry has its own channel, and removal keeps channels distinct. |
| TrialDetection.Evaluations | src/main/java/io/github/homchom/recode/event/trial/DetectorImpl.kt:76-82 | The kept entries are evaluated one each, in table order. Each evaluation uses its entry's input, isRequest and hidden flag, and answers that entry's channel. |
| TrialDetection.NoDefaultEntryWhenTableNonEmpty | src/main/java/io/github/homchom/recode/event/trial/DetectorImpl.kt:71-73 | A non-empty table launches no default evaluation: exactly one evaluation per open entry. |
| TrialDetection.EmptyTableEvaluatesDefaultEntry | src/main/java/io/github/homchom/recode/event/trial/DetectorImpl.kt:71-73 | An empty table launches exactly one evaluation, with input null, isRequest false and hidden false. It answers no channel, and the firing's success is its response. |
| TrialDetection.OpenEntryReceivesOwnResponse | src/main/java/io/github/homchom/recode/event/trial/DetectorImpl.kt:143-150 | An open entry receives exactly one send per firing: its own evaluation's response. That is `null` on failure, and its own awaited value whether or not it wins. |
| TrialDetection.ClosedChannelReceivesNothing | src/main/java/io/github/homchom/recode/event/trial/DetectorImpl.kt:75-80 | A channel whose entries are all closed is sent nothing: removed entries are not evaluated. |
| TrialDetection.FirstSuccessIsFirstNonNull | src/main/java/io/github/homchom/recode/event/trial/DetectorImpl.kt:151 | The success context ends with value v exactly when v is the first non-null response in completion order. |
| TrialDetection.SuccessIffSomeNonNull | src/main/java/io/github/homchom/recode/event/trial/DetectorImpl.kt:151 | The success context is completed exactly when some evaluation's response is non-null. |
| TrialDetection.EventRunsIffSomeEvaluationSucceeds | src/main/java/io/github/homchom/recode/event/trial/DetectorImpl.kt:84-90 | For every completion order, the event runs exactly when some launched evaluation answers non-null. |
| TrialDetection.AwaitDetectionIgnoresNull | src/main/java/io/github/homchom/recode/event/trial/DetectorImpl.kt:200-201 | A request that resolves by detection resolves with a non-null response of some firing. Null responses never resolve it. |
| TrialDetection.OwnResponses | src/main/java/io/github/homchom/recode/event/trial/DetectorImpl.kt:76-81 | One response per firing of the window, each the entry's own evaluation's response. |
| TrialDetection.OpenEntryHistory | src/main/java/io/github/homchom/recode/event/trial/DetectorImpl.kt:69-91 | Over any window of firings, every open entry of the table (not only the one a caller waits on) receives exactly its own responses, one per firing. |
| TrialDetection.OneFiringOwnResponse | src/main/java/io/github/homchom/recode/event/trial/DetectorImpl.kt:75-82 | One firing appends exactly its own response to an open entry's channel, and leaves the entry in a table with distinct channels. |
| TrialDetection.ClosedChannelUntouched | src/main/java/io/github/homchom/recode/event/trial/DetectorImpl.kt:75-80 | A channel closed before a window of firings receives nothing during it. |
| TrialDetection.SuccessContext.constructor | src/main/java/io/github/homchom/recode/event/trial/DetectorImpl.kt:70 | Each firing starts with an uncompleted context. |
| TrialDetection.SuccessContext.Complete | src/main/java/io/github/homchom/recode/event/trial/DetectorImpl.kt:151 | `complete` is accepted exactly when the context is not yet completed. Only then does it change the value; later calls have no effect. |
| TrialDetection.TrialDetector.constructor | src/main/java/io/github/homchom/recode/event/trial/DetectorImpl.kt:99 | A new detector has an empty table, no channels and an empty event log. |
| TrialDetection.TrialDetector.Register | src/main/java/io/github/homchom/recode/event/trial/DetectorImpl.kt:109-114 | Appends exactly one entry, with a fresh, open, empty channel. Nothing else changes. |
| TrialDetection.TrialDetector.Close | src/main/java/io/github/homchom/recode/event/trial/DetectorImpl.kt:117-118 | Closes exactly that channel. Nothing else changes. |
| TrialDetection.TrialDetector.TrySend | src/main/java/io/github/homchom/recode/event/trial/DetectorImpl.kt:145-150 | On an open channel, `trySend` appends the value to it. On a closed channel it changes nothing. |
| TrialDetection.TrialDetector.Fire | src/main/java/io/github/homchom/recode/event/trial/DetectorImpl.kt:69-91 | One firing: the table becomes the open entries in order, every channel gets exactly its own evaluations' sends, and the event log grows by the first non-null response in completion order, if any. The whole new state is `AfterFiring` of the old one. |
| TrialDetection.TrialDetector.Scan | src/main/java/io/github/homchom/recode/event/trial/DetectorImpl.kt:71-82 | The table becomes its open entries. The evaluations launched are the default entry's (empty table) or one per open entry. |
| TrialDetection.TrialDetector.Iterate | src/main/java/io/github/homchom/recode/event/trial/DetectorImpl.kt:75-82 | The iterator loop with `remove()` leaves the open entries in order and launches their evaluations in order. |
| TrialDetection.TrialDetector.Settle | src/main/java/io/github/homchom/recode/event/trial/DetectorImpl.kt:84-90 | After the scan, the launched evaluations finish in the scheduler's order. The inbox is the old one with each evaluation's send delivered in that order. Every channel gets exactly its evaluations' sends, and the event log grows by the completed success context, if any. |
| TrialDetection.TrialDetector.Race | src/main/java/io/github/homchom/recode/event/trial/DetectorImpl.kt:143-152 | Running the launched evaluations in a completion order delivers each one's send to its channel, in that order. The context ends with the first non-null response. |
| TrialDetection.TrialDetector.Finish | src/main/java/io/github/homchom/recode/event/trial/DetectorImpl.kt:143-152 | One evaluation finishing sends its response to its entry; null if it failed. A non-null value completes the context only if the context is still empty. |
| TrialDetection.TrialDetector.FireObserved | src/main/java/io/github/homchom/recode/event/trial/DetectorImpl.kt:76-81 | A firing seen by one open entry. The whole new state (table, every channel, event log) is `AfterFiring` of the old one. The entry stays registered, and its channel gets exactly its own response. |
| TrialDetection.TrialDetector.Observe | src/main/java/io/github/homchom/recode/event/trial/DetectorImpl.kt:115 | The firings of a window while an entry waits: the new state is `AfterFirings` of the old. The entry's channel gets exactly its own responses, one per firing, and the entry stays. |
| TrialDetection.TrialDetector.Detect | src/main/java/io/github/homchom/recode/event/trial/DetectorImpl.kt:104-122 | `detect` registers an entry with isRequest false. Its flow emits, per firing of the window, the entry's own response, nulls included. The channel is closed afterwards, and only it. The new state (table, every channel, event log) is `AfterFirings` over the window, from the old state with the entry appended. |
| TrialDetection.TrialRequester.constructor | src/main/java/io/github/homchom/recode/event/trial/DetectorImpl.kt:182-193 | A new requester has no active requests and an empty detector of kind requester. |
| TrialDetection.TrialRequester.Request | src/main/java/io/github/homchom/recode/event/trial/DetectorImpl.kt:195-220 | The active-request counter after the call equals its value before, on every exit (resolved, timed out, cancelled). A non-null `start(input)` is returned at once; otherwise the result is the first non-null response to the request entry, registered with isRequest true. The entry's channel is closed afterwards, and only it. The new state is the old one with the entry appended, advanced by `AfterRequestWait` over the window unless `start` answered. |
| TrialDetection.TrialRequester.AwaitResponse | src/main/java/io/github/homchom/recode/event/trial/DetectorImpl.kt:196-207 | The wait of a request whose `start` gave null. The result is `AwaitDetection` over the window: resolved by the first non-null response, cancelled by a lifecycle notification, timed out otherwise. The new state is `AfterRequestWait` of the old one. |
| TrialDetection.TrialRequester.AwaitFiring | src/main/java/io/github/homchom/recode/event/trial/DetectorImpl.kt:200-207 | One firing of a request's wait. It returns the request's first non-null response so far. The result and state of the rest of the wait are those of this firing followed by the remaining window, unless a response has arrived. |
| LegacyDetection.DefaultEntryArguments | src/main/java/io/github/homchom/recode/event/DetectorImpl.kt:142-163 | The default entry gives a detector supplier a null input. It gives a requester supplier a null input and isRequest false. A detector supplier ignores isRequest. |
| LegacyDetection.Prune | src/main/java/io/github/homchom/recode/event/DetectorImpl.kt:69-73 | The scan's removal never lengthens the table. Its contents are stated by the next row. |
| LegacyDetection.PruneKeepsExactlyOpen | src/main/java/io/github/homchom/recode/event/DetectorImpl.kt:69-73 | An entry survives the scan exactly when it was in the table and its channel is open. |
| LegacyDetection.ConsideredExactly | src/main/java/io/github/homchom/recode/event/DetectorImpl.kt:69-74 | An entry is evaluated exactly when it is in the table, its channel is open, and its basis is the firing trial's. |
| LegacyDetection.PruneDistinct | src/main/java/io/github/homchom/recode/event/DetectorImpl.kt:119-120 | Each entry has its own channel, and removal keeps channels distinct. |
| LegacyDetection.ConsideredDistinct | src/main/java/io/github/homchom/recode/event/DetectorImpl.kt:119-120 | The evaluated entries have distinct channels. |
| LegacyDetection.AnswerFailuresReceived | src/main/java/io/github/homchom/recode/event/DetectorImpl.kt:76-78 | During the scan, each channel is sent `null` once for each evaluated entry of that channel whose synchronous response is null, and nothing else. |
| LegacyDetection.FiringReceived | src/main/java/io/github/homchom/recode/event/DetectorImpl.kt:76-85 | A firing sends each channel its scan-time nulls, then the winner's awaited value if the channel is the winner's. |
| LegacyDetection.SpawnedFromConsidered | src/main/java/io/github/homchom/recode/event/DetectorImpl.kt:76-79 | Every launched task belongs to an evaluated entry whose supply deferred, and carries that entry's channel and awaited value. |
| LegacyDetection.NoEntryNoSends | src/main/java/io/github/homchom/recode/event/DetectorImpl.kt:69-79 | A channel with no evaluated entry gets no null and no launched task. Entries on another basis are skipped without a send. |
| LegacyDetection.NullSendsOfChannel | src/main/java/io/github/homchom/recode/event/DetectorImpl.kt:76-79 | A channel is sent at most one scan-time null. A channel answered null has no launched task. |
| LegacyDetection.SpawnedDistinct | src/main/java/io/github/homchom/recode/event/DetectorImpl.kt:79-85 | The launched tasks of one firing answer distinct channels. |
| LegacyDetection.AtMostOneResponsePerFiring | src/main/java/io/github/homchom/recode/event/DetectorImpl.kt:67-85 | In one firing, a channel's sends number at most one: the scan-time null or the gate winner's value. |
| LegacyDetection.PruneMembers | src/main/java/io/github/homchom/recode/event/DetectorImpl.kt:69-73 | For every value at once: it survives the scan exactly when it was in the table and its channel is open. |
| LegacyDetection.PruneIdempotent | src/main/java/io/github/homchom/recode/event/DetectorImpl.kt:69-73 | Scanning a scanned table removes nothing more. |
| LegacyDetection.ConsideredOfPrune | src/main/java/io/github/homchom/recode/event/DetectorImpl.kt:69-74 | A firing on the table its previous scan left evaluates the same entries as on the table before. |
| LegacyDetection.FiredReceived | src/main/java/io/github/homchom/recode/event/DetectorImpl.kt:60-87 | What the handler leaves in a channel's history is the earlier history plus the firing's sends on the pruned table. An empty table sends nothing. |
| LegacyDetection.OneEntryFiring | src/main/java/io/github/homchom/recode/event/DetectorImpl.kt:74-85 | A firing of a one-entry table on that entry's basis sends it `null` when its evaluation fails and otherwise the awaited value. |
| LegacyDetection.WindowSendsAtMostOne | src/main/java/io/github/homchom/recode/event/DetectorImpl.kt:121-123 | A receive gets at most one response, when the entries' channels are distinct. |
| LegacyDetection.OneEntryReceive | src/main/java/io/github/homchom/recode/event/DetectorImpl.kt:121-123 | A receive by the only entry, over one firing on its basis, gets its evaluation's response: null when the evaluation failed. |
| LegacyDetection.AwaitedAttempt | src/main/java/io/github/homchom/recode/event/DetectorImpl.kt:121-123 | A non-null waiting result is what one attempt received, and every earlier attempt received null. |
| LegacyDetection.AwaitedOfThree | src/main/java/io/github/homchom/recode/event/DetectorImpl.kt:121-123 | Waiting over three windows gives the first non-null of the three receives, or the third one when the first two are null. |
| LegacyDetection.ReceiveHistory | src/main/java/io/github/homchom/recode/event/DetectorImpl.kt:121-123 | A receive's fold appends to the channel exactly the window's sends on the pruned table. Every firing's scan leaves that same table. |
| LegacyDetection.FiringLeavesClosed | src/main/java/io/github/homchom/recode/event/DetectorImpl.kt:69-73 | A channel closed before a firing receives nothing from it: its entries are not evaluated, and no launched task answers it. |
| LegacyDetection.ReceiveLeavesClosed | src/main/java/io/github/homchom/recode/event/DetectorImpl.kt:121-123 | A channel closed before a receive on another channel receives nothing during it. |
| LegacyDetection.AwaitLeavesClosed | src/main/java/io/github/homchom/recode/event/DetectorImpl.kt:113-126 | A channel closed before the attempts on another channel receives nothing during them. |
| LegacyDetection.ThirdAttemptSucceeds | src/main/java/io/github/homchom/recode/event/DetectorImpl.kt:100-103 | Three attempts, one firing each, for a pending entry whose trial fails twice and then succeeds with r1: the caller gets r1. |
| LegacyDetection.OnlyWinnerAnswers | src/main/java/io/github/homchom/recode/event/DetectorImpl.kt:79-85 | A launched task sends to its entry exactly when it is the first to complete, the one that passes `compareAndSet(false, true)`. |
| LegacyDetection.EveryEvaluationCanWin | src/main/java/io/github/homchom/recode/event/DetectorImpl.kt:79-85 | Any launched task can be the gate's winner under some completion order. |
| LegacyDetection.NullWinnerSuppressesEvent | src/main/java/io/github/homchom/recode/event/DetectorImpl.kt:80-84 | A winner that awaits null consumes the gate: it sends null and runs no event, although a slower task had a value. The same tasks under another order run the event. |
| LegacyDetection.DefaultBasis | src/main/java/io/github/homchom/recode/event/DetectorImpl.kt:110 | A given basis is used as it is. A missing basis is the first trial's. There is none (`trials[0]` throws) exactly when no basis is given and there is no trial. |
| LegacyDetection.NewRequester | src/main/java/io/github/homchom/recode/event/DetectorImpl.kt:154-156 | Construction fails exactly when the trial list is empty. Otherwise it yields a valid requester over those trials. |
| LegacyDetection.AtomicBoolean.constructor | src/main/java/io/github/homchom/recode/event/DetectorImpl.kt:67 | The gate starts with the given value (false). |
| LegacyDetection.AtomicBoolean.CompareAndSet | src/main/java/io/github/homchom/recode/event/DetectorImpl.kt:81 | Succeeds exactly when the value equals the expected one. Only then does it store the update. |
| LegacyDetection.DetectorDetail.constructor | src/main/java/io/github/homchom/recode/event/DetectorImpl.kt:43-48 | A new detector has its trials' bases, an empty table and an empty event log. |
| LegacyDetection.DetectorDetail.Register | src/main/java/io/github/homchom/recode/event/DetectorImpl.kt:119-120 | Appends exactly one entry, with a fresh, open, empty channel. Nothing else changes. |
| LegacyDetection.DetectorDetail.Close | src/main/java/io/github/homchom/recode/event/DetectorImpl.kt:124 | Closes exactly that channel. Nothing else changes. |
| LegacyDetection.DetectorDetail.Send | src/main/java/io/github/homchom/recode/event/DetectorImpl.kt:78 | Appends the value to that open channel. No other channel changes. |
| LegacyDetection.DetectorDetail.Fire | src/main/java/io/github/homchom/recode/event/DetectorImpl.kt:55-89 | The table becomes its open entries. An empty table runs the default entry's value, with no gate and no sends. Otherwise each channel gets its scan-time null and the gate winner's channel gets the winner's value; the event runs once exactly when that value is non-null. |
| LegacyDetection.DetectorDetail.Scan | src/main/java/io/github/homchom/recode/event/DetectorImpl.kt:66-86 | The table becomes its open entries. The entries of the firing basis that fail are answered null. The evaluations that deferred are launched, in table order. |
| LegacyDetection.DetectorDetail.Iterate | src/main/java/io/github/homchom/recode/event/DetectorImpl.kt:69-86 | The iterator loop with `remove()`, `continue` on another basis, and a null send on failure. Stated as equalities with those functions. |
| LegacyDetection.DetectorDetail.ConsiderAt | src/main/java/io/github/homchom/recode/event/DetectorImpl.kt:74-85 | Handling the j-th entry extends the sends and launched tasks from the first j entries to the first j+1. |
| LegacyDetection.DetectorDetail.Consider | src/main/java/io/github/homchom/recode/event/DetectorImpl.kt:74-85 | An entry on another basis is skipped unanswered. Otherwise a null response is sent and a deferred one is launched. |
| LegacyDetection.DetectorDetail.Race | src/main/java/io/github/homchom/recode/event/DetectorImpl.kt:79-85 | Only the first task in completion order passes the gate. It sends its awaited value, and runs the event when that value is non-null. |
| LegacyDetection.DetectorDetail.Receive | src/main/java/io/github/homchom/recode/event/DetectorImpl.kt:121-123 | One timed receive appends to its channel exactly what the window's firings send it on the pruned table, up to and including the first firing that sends anything. It returns that firing's value, or null when no firing sends. The channel's earlier history is unchanged, and so is the pruned table. The whole new state is `AfterReceive` of the old one. |
| LegacyDetection.DetectorDetail.ReceiveFiring | src/main/java/io/github/homchom/recode/event/DetectorImpl.kt:121-123 | One firing of a receive: whether the channel was sent anything. A firing that sends nothing leaves the channel's history as it was. The state of the rest of the receive is this firing followed by the remaining window, unless something arrived. |
| LegacyDetection.DetectorDetail.FireWhileWaiting | src/main/java/io/github/homchom/recode/event/DetectorImpl.kt:55-89 | A firing during a wait. The whole new state (table, every channel, event log) is `AfterFiring` of the old. The waiting channel gets exactly what the firing sends it on the pruned table. Open entries stay, and the pruned table is the same afterwards. |
| LegacyDetection.DetectorDetail.AddAndAwait | src/main/java/io/github/homchom/recode/event/DetectorImpl.kt:113-126 | Appends exactly one entry. Its channel is closed afterwards, whatever the result. The result is what waiting over the windows gives on the table with the new entry: the first attempt's non-null receive. It is also the first non-null response the channel got, with at most one per attempt. The new state is `AfterAwait` over the windows from the old state with the entry appended, and only the new channel is closed. |
| LegacyDetection.DetectorDetail.AwaitOn | src/main/java/io/github/homchom/recode/event/DetectorImpl.kt:121-123 | The attempts on an open, empty channel leave the table's open entries and the pruned table as they were. The result is what waiting over the windows gives on the pruned table, and the first non-null response the channel got. The whole new state is `AfterAwait` of the old one. |
| LegacyDetection.DetectorDetail.AddDetectAndAwait | src/main/java/io/github/homchom/recode/event/DetectorImpl.kt:95-111 | `detectFrom`: registers an entry with isRequest false on the basis or its default, then awaits. The result is what waiting over the windows gives on the table with that entry, and the new state is `AfterAwait` from the old state with it appended. It fails unchanged exactly when no basis exists. |
| LegacyDetection.DetectorDetail.CheckNextFrom | src/main/java/io/github/homchom/recode/event/DetectorImpl.kt:100-103 | `checkNextFrom` with n attempts: one entry with isRequest false, at most n responses. The result is what waiting over the n windows gives on the table with that entry, and the first non-null response. The new state is `AfterAwait` from the old state with the entry appended. It fails unchanged exactly when no basis exists. |
| LegacyDetection.LegacyRequester.constructor | src/main/java/io/github/homchom/recode/event/DetectorImpl.kt:154-156 | Requires a non-empty trial list, as `require(trials.isNotEmpty())` does; `start` has not been called. |
| LegacyDetection.LegacyRequester.RequestFrom | src/main/java/io/github/homchom/recode/event/DetectorImpl.kt:165-176 | Registers a request (isRequest true) on the first trial's basis and closes it afterwards. `start` is called once when there is an attempt, and never otherwise. A non-null start result is returned without waiting. Otherwise the result is what waiting over the windows gives on the table with the request, or the error "Requester trial failed" when that is null. The new state is the old one with the request appended, advanced by `AfterAwait` unless `start` answered. |
| LegacyDetection.LegacyRequester.Await | src/main/java/io/github/homchom/recode/event/DetectorImpl.kt:166-174 | The attempts of a request: with no attempt, `start` is not called and the result is null. Otherwise `start` is called once. A non-null start result is returned and the state is unchanged; otherwise the result is what waiting over the windows gives on the table, and the new state is `AfterAwait` of the old one. |
| JavaStrings.Fields | src/main/java/io/github/homchom/recode/mod/features/social/chat/message/checks/JoinDiamondFireCheck.java:29 | There is at least one field, and no field holds the separator. |
| JavaStrings.JoinFields | src/main/java/io/github/homchom/recode/mod/features/social/chat/message/checks/JoinDiamondFireCheck.java:29 | Joining the fields with the separator gives back the string. |
| JavaStrings.FieldsJoin | src/main/java/io/github/homchom/recode/mod/features/social/chat/message/checks/JoinDiamondFireCheck.java:29 | Fields without the separator, joined and split again, are the same fields. |
| JavaStrings.DropTrailingEmpty | src/main/java/io/github/homchom/recode/mod/features/social/chat/message/checks/JoinDiamondFireCheck.java:29 | The result is the prefix obtained by dropping only empty strings from the end. It is empty or ends in a non-empty string. |
| JavaStrings.Split | src/main/java/io/github/homchom/recode/mod/features/social/chat/message/checks/JoinDiamondFireCheck.java:29 | `split(" ")` gives the whole string when the separator does not occur. Otherwise it gives the fields with trailing empty strings removed. |
| ChatMessage.Decrement | src/main/java/io/github/homchom/recode/mod/features/social/chat/message/Message.java:76 | Java's 32-bit `a - 1`: congruent to a-1 modulo 2^32, and exactly a-1 above the minimum. |
| ChatMessage.Message.constructor | src/main/java/io/github/homchom/recode/mod/features/social/chat/message/Message.java:21-27 | The type is fixed at construction. There is no check and the message is not cancelled. No effect has happened. |
| ChatMessage.Message.SetCheck | src/main/java/io/github/homchom/recode/mod/features/social/chat/message/Message.java:57-59 | `getCheck()` then returns the check that was set. Only the check changes. |
| ChatMessage.Message.TypeIs | src/main/java/io/github/homchom/recode/mod/features/social/chat/message/Message.java:61-63 | True exactly when the message's type is the given one. |
| ChatMessage.Message.Cancel | src/main/java/io/github/homchom/recode/mod/features/social/chat/message/Message.java:68-81 | Cancelled, and the callback cancelled. The next sound is cancelled exactly when the type has a sound. The grabber is asked to hide `getMessageAmount() - 1` messages (32-bit). The check is unchanged. |
| JoinDiamondFireCheck.GetType | src/main/java/io/github/homchom/recode/mod/features/social/chat/message/checks/JoinDiamondFireCheck.java:13-15 | The type is always the join-DiamondFire type. |
| JoinDiamondFireCheck.Check | src/main/java/io/github/homchom/recode/mod/features/social/chat/message/checks/JoinDiamondFireCheck.java:18-20 | Matches exactly when the mode is spawn and the stripped text is the welcome text, character for character. |
| JoinDiamondFireCheck.OnReceive | src/main/java/io/github/homchom/recode/mod/features/social/chat/message/checks/JoinDiamondFireCheck.java:23-35 | The flag is reset, then ends true exactly when some scoreboard line passes the test. Equally, exactly when some line names the beta node as the second word after `§aNode`. |
| JoinDiamondFireCheck.TestLine | src/main/java/io/github/homchom/recode/mod/features/social/chat/message/checks/JoinDiamondFireCheck.java:29-33 | A line sets the flag exactly when it starts with `§aNode ` and its split has the beta node at index 1. A missing index 1 is caught and sets nothing. |
| JoinDiamondFireCheck.NodeLineTestMeansBetaNode | src/main/java/io/github/homchom/recode/mod/features/social/chat/message/checks/JoinDiamondFireCheck.java:29 | A line passes the split-based test exactly when it is the prefix `§aNode ` followed by the beta node's name (`Beta`, then the dark-gray formatting code), alone or followed by a space. |
| JoinDiamondFireCheck.ReportsBetaMeansBetaNode | src/main/java/io/github/homchom/recode/mod/features/social/chat/message/checks/JoinDiamondFireCheck.java:27-31 | The scan reports beta exactly when some line names the beta node in that form. |
| JoinDiamondFireCheck.PrefixAloneIsSkipped | src/main/java/io/github/homchom/recode/mod/features/social/chat/message/checks/JoinDiamondFireCheck.java:29-33 | `"§aNode "` splits to one field, because the trailing empty string is dropped, so its test throws. |
| JoinDiamondFireCheck.ReportsBetaIgnoresOrder | src/main/java/io/github/homchom/recode/mod/features/social/chat/message/checks/JoinDiamondFireCheck.java:26-27 | The flag depends only on the scoreboard's lines, not on their order. |
| StreamerModeFinalizer.MatchesDirectMessageExemptions | src/main/java/io/github/homchom/recode/mod/features/social/chat/message/finalizers/StreamerModeFinalizer.java:28-39 | Exempt exactly when the message is a direct message and `usernameMatches` accepts one of the three listed names. A message that is not a direct message is never exempt. |
| StreamerModeFinalizer.Receive | src/main/java/io/github/homchom/recode/mod/features/social/chat/message/finalizers/StreamerModeFinalizer.java:16-26 | Cancels exactly when the check is a streamer mode check with hiding enabled and the message is not exempt; otherwise, including with no check, the message is unchanged. A non-direct message ends cancelled exactly when it already was or such a check matched. |

Members not in the table are step lemmas and helper functions of the proofs above:

- `ScanAt`, `PruneNext`, `ScanDrop`, `ScanKeep`, `ConsideredNext`, `ConsiderStep`;
- `DeliverReceived`, `SentToSingleJob`, `SentToNoJob`, `FirstSuccessAppend`, `LaunchedBounds`,
  `EvaluationsAppend`, `FirstNonNullAppend`;
- `FiredNonEmptyReceived`, `ConcatAssociative`, `AwaitedStep`, `AwaitedCons`,
  `Attempted`, `AfterFiringsStep`, `AfterReceiveStep`, `AfterAwaitStep`;
- `ScanBounds`, `AnswerFailuresKeys`;
- `FieldsAfterWord`, `FirstField`, `DropTrailingEmptyCons`, `DropTrailingEmptyUnique`, `Find`;
- `AnyPassesExtend`, `SplitAfterPrefix`, `TestAfterPrefix`, `NamesAfterPrefix`, `FirstWordIsBetaNode`,
  `FirstWordBeforeSpace`;
- `Range`, `Pick`, `Wrap`, `Without`, `CompletionOrder`, `RangeMultiplicity`, `RemoveSame`,
  `IndexOf`, `FirstPosition`, `CompletionOrderCons`.

## Left out

- **Coroutine timing.**
  - Not modelled: `launch`/`yield` on the dispatcher, `delay(50.milliseconds)`, the wall-clock
    timeouts, `cancelChildren`, and the job and `invokeOnCompletion` plumbing.
  - A wait is modelled as the window of firings before its timeout.
  - In the newer engine, an entry is added to the table when the wait starts. The `yield` that
    defers the append past the running detection loops is not modelled.
- **Interleaving of firings.** Firings run whole, one after another. Entries that run
  concurrently with a firing, and the concurrent queue's weakly consistent iteration, are not
  modelled.
- **Other callers during a wait.** A wait observes only firings. No other caller registers or
  closes an entry between two firings of one wait: the folds keep the closed set fixed, and the
  table changes only by the firings' own scans. In the older engine, another open entry on
  the same basis can win the gate (event/DetectorImpl.kt:79-85), and so the waiting entry's
  result depends on the entries registered when the wait begins. This concerns
  `TrialDetection.TrialDetector.Detect`, `TrialDetection.TrialRequester.Request`,
  `LegacyDetection.DetectorDetail.AddAndAwait`, `AddDetectAndAwait`, `CheckNextFrom` and
  `LegacyDetection.LegacyRequester.RequestFrom`.
- **Channel suspension.**
  - The older engine's rendezvous `Channel()` suspends a sender until the receiver takes the
    value. The model lets sends to an open channel complete at once.
  - The older engine's `send` on a closed channel throws `ClosedSendChannelException`, which is
    not modelled. Entries are scanned only while their channel is known to be open.
- **Later firings in a window.** A firing that happens after a wait has received its response is
  not run in that window. The older engine's `Receive` stops at the response, and so does the
  newer engine's request (`AfterRequestWait`).
- **`attempt`, `nullable` and `trialScope`.** These helpers are defined outside the two detector
  files and are not modelled; the model assumes the following.
  - `nullable` turns a failed supply into `null`.
  - `attempt` runs its block once per window and stops at the first non-null result.
  - `attempt(timeoutDuration, …)` of `detectFrom` has as many attempts as windows.
- **Module system.** `module.assert`, `unassert`, `depend` and `extend` are lifecycle calls into
  code that is not part of this model. So are `prevResult`, `getNotificationsFrom` and
  `isEnabled`.
- **Logging and toasts.** These are side effects with no state in the model: `logDebug`,
  `logError`, `cancelAndLog`, `sendSystemToast`, and the debug log in `cancel()`.
- **Lifecycle cancellation of a request.** It is modelled as a `LifecycleNotified` event in the
  window. The request then ends `Cancelled`.
- **The request timeout.** Its `TimeoutCancellationException` is the `TimedOut` result. The
  toast and the rethrow are not modelled.
- **Collaborators given as parameters.**
  - The trial's supplier and `start`.
  - `MessageType.hasSound` and `getMessageAmount`.
  - `DirectMessageCheck.usernameMatches` and `streamerHideEnabled()`.
  - The scoreboard, as its sequence of line strings.
  - The current mode: only spawn is named; other modes are `OtherMode`.
- **Message construction.** The type `MessageCheck.run` computes is a constructor argument.
  `MessageFinalizer.run`, `getPacket`, `getText` and `getCallback` are not modelled.
- **Java strings.** They are sequences of characters. `split` is modelled for a separator that
  Java splits literally, which the scan uses. Regular-expression splitting is not modelled.
- **ChatMessage.Message.Cancel is not idempotent.** A second call adds a hide request and, for a
  type with sound, cancels another sound. The model states this as it is.
- **Exceptions in evaluations.** Every launched evaluation is taken to finish normally. In the
  newer engine the event runs only after all of a firing's evaluations have ended
  (trial/DetectorImpl.kt:84-90, 131, 151). The model does not cover an evaluation that throws.
  This concerns `TrialDetection.EventRunsIffSomeEvaluationSucceeds` and the events clause of
  `TrialDetection.TrialDetector.Fire`.
- **Firings of no trial.** `WindowSends` treats a firing whose trial index is past the trials'
  bases as sending nothing, and `LegacyDetection.AfterFiring` as changing nothing. Such a firing cannot happen: every trial of the detector fires
  (event/DetectorImpl.kt:56), and the waiting methods require every firing in range.
- **The rest of recode.** The server-state detectors, message parsing, the other chat checks,
  the UI and the build are not modelled.
