# A verified model of the Chainlink node's core protocols and encoders

A Dafny project that models the parts of this repository where a mistake would be hardest to see: the
lifecycle and wake-up protocols of the vendored Chainlink node, its encoders, its session table and its
queues, and the linearization check of the OpenZeppelin contracts. `dafny verify dfyconfig.toml` checks it.

## What is modelled

**Protocols.** `StartStop` is `StartStopOnce` as a state machine: any number of threads, one atomic step for
each compare-and-swap, lock, unlock, load, callback begin and callback end. `SleeperTask` and `ChainSetRuns`
contain that state machine and prove that each of their runs contains one of its runs, so its theorems hold of
them; `ChainSetRuns` adds `chainsMu`, the live map, the database rows and every service ever made. `ChainTable`
holds what `chainsMu` guards, as functions for the critical sections and as a class whose methods update the
same state in place and are proved to compute those functions; `ChainTraces` follows it over time. `ClientCache` is the double-checked cache of a
Solana chain. `Mailboxes` is the mailbox object with its histories, `MailboxWakeups` and `MailboxTickets` its
notification channel under concurrency.

**Encoders.** `Json` and `JsonText` print JSON and parse it by the grammar of sections 4 and 5 of RFC 8259;
`JsonNormal` puts the printed text into Unicode normalization form C, which it knows by a few of its properties,
and follows what that does to names and escapes. `CborFormat` is a decoder for RFC 7049 and `DietCbor` the
delimiter insertion and the coercion. `EvmWords` holds the 32-byte words and the length-prefixed byte strings.

**Tables, queues, graphs, pages.** `Sessions` is the session table with its reaper, `BoundedQueues` the two
queues, `InheritanceOrdering` the script's graph, `Pagination` the links of a paged collection.

## Where the code and its own words disagree

The model follows the code.

- The comment on `StopOnce` says it blocks until a racing `StartOnce` has executed. The swap of `StartOnce` comes
  before its lock, and in that window `StopOnce` fails instead: `StopOvertakesStartIff`, `StopCanOvertakeStart`.
- `NewSleeperTask` promises a Work for every `WakeUp`. A `Stop` can leave the token behind: `WakeUpCanBeDropped`;
  `SureOfWorkIff` and `SureOfOwnWorkIff` say exactly which wake-ups are safe when `Stop` closes its channel.
- `Chain` checks the lifecycle twice so as not to start an orphan. `Add` and `Configure` do not check it:
  `OrphansExist`; `RunClosesIff` says exactly which services are left.
- `NewChainSet` collects the errors of `NewChain` and then returns nil for them, with nil chains in the map:
  `LoadedIsCoherentIff` says when the set is sound, and `StartChains` panics exactly when it is not.
- The note on the mailbox warns of an empty `Retrieve` with capacity 1; it can happen with any capacity up to the
  number of consumers: `EmptyRetrieveIff`.
- `NormalizedJSON` is meant for hashing and warns that its output may not survive decoding. Keys are sorted and
  strings escaped before the output is put into form C, so its members can be out of order (`MembersSwap`), named
  alike (`MemberIsLost`), or not JSON at all (`EscapeIsBroken`); `FixedPointIff` says exactly when all is well.
- `ParseDietCBOR` allows either marker to be missing. With the closing one missing alone nothing parses, and for an
  empty map neither may be missing alone: `MarkedForms`.
- `CheckUint256` refuses 2^256-1, which `Uint256ToBytes` can encode: `CheckedRoundTrip`. `Uint256ToBytes32` encodes
  a negative number as its absolute value: `Bytes32Word`.
- The ordering script looks for cycles of length two only and its comment asks for a proof that these suffice:
  `ShortCyclesSuffice` where they do. Elsewhere a longer cycle takes three linearizations (`CyclesTakeThree`), and
  three are enough (`LongCyclesExist`).
- The end of a page is computed in 64 bits. For the largest counts it wraps, and `next` is then offered on the last
  page: `EndsInTimeIff`. On the last page number there is, it asks for an invalid page: `PrevUndoesNext`.

## Model

| member | source | states |
|---|---|---|
| `StartStop.StepKeepsInv` | lib/chainlink/core/utils/utils.go:880-964 | Every atomic step of any thread keeps the invariant: the history is a prefix of the five states, the lock owner is where the lock says, at most one thread is between winning the start swap and finishing it |
| `StartStop.RunKeepsInv` | lib/chainlink/core/utils/utils.go:880-964 | The invariant holds in every state of every run, for any number of threads |
| `StartStop.RunExtends` | lib/chainlink/core/utils/utils.go:880-930 | State history and callback events only ever grow |
| `StartStop.Lifecycle` | lib/chainlink/core/utils/utils.go:880-930 | States passed through are a prefix of Unstarted, Starting, Started, Stopping, Stopped; neither "unreachable state" panic is reached; at most one start and one stop callback, the second beginning after the first ended; what a call returned is what its callback returned |
| `StartStop.GuardedCallbacks` | lib/chainlink/core/utils/utils.go:939-964 | While an `IfStarted` callback runs the state is Started, while an `IfNotStopped` callback runs it is neither Stopping nor Stopped; no start or stop callback overlaps them or another one |
| `StartStop.AnswerTellsIfRan` | lib/chainlink/core/utils/utils.go:880-964 | In every run each call, from the state before it to its return, answers that its callback ran if and only if the thread was in that callback at some state between; and the answer is one of that call |
| `StartStop.PhaseDecides` | lib/chainlink/core/utils/utils.go:906-964 | Which of the two is decided by the phase where the call looks: Started for `StopOnce` and `IfStarted`, not Stopped for `IfNotStopped` |
| `StartStop.SwapDecides` | lib/chainlink/core/utils/utils.go:880-889 | `StartOnce` is refused at its swap if and only if the phase is not Unstarted there |
| `StartStop.StopOvertakesStartIff` | lib/chainlink/core/utils/utils.go:906-914 | A `StopOnce` holding the lock meets a start in progress if and only if some `StartOnce` stands between its swap and its `Lock` |
| `StartStop.StopCanOvertakeStart` | lib/chainlink/core/utils/utils.go:883-914 | A run in which `StopOnce` fails while a `StartOnce` has already won its swap, against the comment at 907-909 |
| `StartStop.OthersStay` | lib/chainlink/core/utils/utils.go:880-964 | A step moves only the thread that takes it |
| `StartStop.HolderCanStep` | lib/chainlink/core/utils/utils.go:880-964 | A thread that holds a lock, or finds it free, can step |
| `StartStop.NoDeadlock` | lib/chainlink/core/utils/utils.go:880-964 | While a call is in flight some call in flight can step, even though no new reader gets the lock while a writer waits |
| `SleeperTask.Projects` | lib/chainlink/core/utils/sleeper_task.go:38-85 | Every step of a sleeper task is a step of `StartStopOnce` or leaves it alone |
| `SleeperTask.LifecycleRun` | lib/chainlink/core/utils/sleeper_task.go:38-85 | What `StartStopOnce` goes through in a run, the constructor included, is a run of it, so its theorems hold |
| `SleeperTask.SpawnedIsReached` | lib/chainlink/core/utils/sleeper_task.go:38-52 | The state `NewSleeperTask` leaves behind is reached by a run of `StartOnce` |
| `SleeperTask.NextKeepsInv` | lib/chainlink/core/utils/sleeper_task.go:55-98 | Each step of callers, stop callback or worker loop keeps the invariant that accounts for every token |
| `SleeperTask.RunKeepsInv` | lib/chainlink/core/utils/sleeper_task.go:38-98 | The invariant holds in every state of every run, for any number of callers |
| `SleeperTask.WakeUpHonoured` | lib/chainlink/core/utils/sleeper_task.go:77-98 | For every completed wake-up in every reachable state: its token is in the channel, or the loop has taken a token and is about to work, or a Work has begun after it |
| `SleeperTask.TokenIffPending` | lib/chainlink/core/utils/sleeper_task.go:67-98 | The channel is full exactly when some completed wake-up has not been followed by a receive |
| `SleeperTask.WorksAreSerial` | lib/chainlink/core/utils/sleeper_task.go:87-98 | Works never overlap and never outnumber tokens sent; the loop leaves only after a stop callback began; no channel is closed twice |
| `SleeperTask.ExitedStays` | lib/chainlink/core/utils/sleeper_task.go:87-98 | An exited loop stays exited and begins or ends no more Works |
| `SleeperTask.NoWorkAfterStop` | lib/chainlink/core/utils/sleeper_task.go:55-65 | Once `Stop` returned nil no Work is running or ever begins |
| `SleeperTask.LeavesAtOnce` | lib/chainlink/core/utils/sleeper_task.go:87-98 | From any state with the stop channel closed, the loop can exit without another receive, and without a Work unless it has a token in hand |
| `SleeperTask.SelectTakesEither` | lib/chainlink/core/utils/sleeper_task.go:87-98 | In any run the waiting loop can take a token if and only if there is one, and leave if and only if the stop channel is closed; neither rules out the other |
| `SleeperTask.WakeUpPanicsIff` | lib/chainlink/core/utils/sleeper_task.go:77-80 | In any run a `WakeUp` panics if and only if the task is stopped where it reads the state |
| `SleeperTask.WakeUpSends` | lib/chainlink/core/utils/sleeper_task.go:81-85 | Otherwise it ends with a full slot, having sent a token exactly if the slot was empty |
| `SleeperTask.WakeUpIfStartedSends` | lib/chainlink/core/utils/sleeper_task.go:67-74 | The callback of a `WakeUpIfStarted` does not end before its select has |
| `SleeperTask.SureOfWorkIff` | lib/chainlink/core/utils/sleeper_task.go:29-36 | When `Stop` closes its channel, an earlier `WakeUp` is sure of a Work after it in every continuation if and only if there was one already or the loop has a token in hand |
| `SleeperTask.SureOfOwnWorkIff` | lib/chainlink/core/utils/sleeper_task.go:29-36 | It is sure of a receive after it and then a Work if and only if it is not pending when the channel is closed |
| `SleeperTask.AllServedIff` | lib/chainlink/core/utils/sleeper_task.go:87-98 | When the loop has exited, every wake-up got a receive and a Work after it exactly if no token is left in the channel |
| `SleeperTask.WokenThenStopping` | lib/chainlink/core/utils/sleeper_task.go:55-85 | A run to a state with both channels of the select ready: a token from a completed wake-up, and a closed stop channel |
| `SleeperTask.WakeUpCanBeDropped` | lib/chainlink/core/utils/sleeper_task.go:29-98 | A run in which a `WakeUp` completes before `Stop` is called and gets no Work, against the promise at 31-32 |
| `ChainTable.OpKeepsCoherence` | lib/chainlink/core/chains/chain_set.go:172-237 | `Add`, `Configure` and `Remove` keep: each loaded id has an enabled row with the same config, and each live service is the loaded one for its id, whichever of the query, `NewChain` and `Start` fail |
| `ChainTable.ChainKeepsCoherence` | lib/chainlink/core/chains/chain_set.go:135-155 | So does `Chain` |
| `ChainTable.StartAllKeepsCoherence` | lib/chainlink/core/chains/chain_set.go:266-272 | So does the start callback, whichever chains fail to start |
| `ChainTable.CloseAllClosesAll` | lib/chainlink/core/chains/chain_set.go:284-287 | The stop callback leaves no service live, whether it is in the map or not |
| `ChainTable.AtMostOneLive` | lib/chainlink/core/chains/chain_set.go:159-237 | In a coherent state two live services of one id are the same service |
| `ChainTable.LoadKeeps` | lib/chainlink/core/chains/chain_set.go:97-104 | Loading one more enabled row keeps what the constructor has established so far |
| `ChainTable.FailKeeps` | lib/chainlink/core/chains/chain_set.go:99-103 | So does a failing `NewChain`, which puts nil into the map under the key of its row |
| `ChainTable.LoadedIsCoherentIff` | lib/chainlink/core/chains/chain_set.go:97-106 | A set that has just been made is coherent if and only if `NewChain` succeeded for every enabled row |
| `ChainTable.ChainSet.constructor` | lib/chainlink/core/chains/chain_set.go:79-107 | Whichever `NewChain` calls fail: exactly the other enabled rows are loaded, the keys of the failing ones hold nil, nothing is started; the new set is coherent if and only if no enabled row failed |
| `ChainTable.ChainSet.LoadEnabled` | lib/chainlink/core/chains/chain_set.go:97-104 | The loop over the enabled rows, in any order, with the error branch |
| `ChainTable.ChainSet.LoadRow` | lib/chainlink/core/chains/chain_set.go:98-103 | One turn of it: nil for a row whose `NewChain` fails, an unstarted service for any other |
| `ChainTable.ChainSet.InitializeChain` | lib/chainlink/core/chains/chain_set.go:159-170 | In place: it succeeds if and only if the row is enabled and `NewChain` and `Start` succeed, and then the map has a new, running service for the id; otherwise the map is as it was; the rows always are |
| `ChainTable.ChainSet.ChainLocked` | lib/chainlink/core/chains/chain_set.go:135-155 | In place: a known id changes nothing; an unknown one succeeds if and only if its row is found and enabled and the service is made and started, and then the map has it; each error exactly when it should be; a coherent set stays coherent |
| `ChainTable.ChainSet.AddLocked` | lib/chainlink/core/chains/chain_set.go:172-186 | In place: refused exactly if the id is there already or the insert fails; otherwise the row is there afterwards, enabled, even if the chain then fails to start, and without an error the map has a new, running service for it; a coherent set stays coherent |
| `ChainTable.ChainSet.ConfigureLocked` | lib/chainlink/core/chains/chain_set.go:192-219 | In place: the row is updated unless the update fails; disabled, a loaded service is taken out and closed; enabled, one that is not loaded is made and started, one that is loaded gets the new config; the error of each; a coherent set stays coherent |
| `ChainTable.ChainSet.CloseService` | lib/chainlink/core/chains/chain_set.go:208-209 | In place: what the map has for a key is out of it and closed, all else as it was, with the error of `Close`; on nil it panics |
| `ChainTable.ChainSet.RemoveLocked` | lib/chainlink/core/chains/chain_set.go:221-237 | In place: the row is gone unless the delete fails, and a loaded service is out of the map and closed, with the error of `Close`; a coherent set stays coherent |
| `ChainTable.ChainSet.StartChains` | lib/chainlink/core/chains/chain_set.go:266-272 | In place: it panics if and only if the map holds a nil, so never on a coherent set, which stays coherent; otherwise, service by service, exactly those are running that were or that are in the map and whose `Start` does not fail, and nothing else changes |
| `ChainTable.ChainSet.CloseChains` | lib/chainlink/core/chains/chain_set.go:284-287 | In place: it panics if and only if the map holds a nil; otherwise exactly the services in the map are closed besides those that were, nothing else changes, and it fails exactly if some `Close` does |
| `ChainSetRuns.LifecycleRun` | lib/chainlink/core/chains/chain_set.go:259-289 | What `StartStopOnce` goes through in a run of the set is a run of it, so its theorems hold |
| `ChainSetRuns.Projects` | lib/chainlink/core/chains/chain_set.go:259-289 | Every step of the set is a step of `StartStopOnce` or leaves it alone |
| `ChainSetRuns.StepKeepsInv` | lib/chainlink/core/chains/chain_set.go:109-289 | Every step of any thread keeps the invariant that ties the lifecycle, `chainsMu`, the map, the rows and the services together |
| `ChainSetRuns.RunKeepsInv` | lib/chainlink/core/chains/chain_set.go:109-289 | The invariant holds in every state of every run |
| `ChainSetRuns.NoOrphans` | lib/chainlink/core/chains/chain_set.go:109-156 | Once the callback of `Close` has ended, every service that a `Chain` call, or `Start`, started has had `Close` called on it, in every interleaving of any number of calls |
| `ChainSetRuns.AlwaysCoherent` | lib/chainlink/core/chains/chain_set.go:159-237 | In every reachable state each loaded id, and each live service, has an enabled row with the same config, and there is at most one live service per id |
| `ChainTraces.TraceGrows` | lib/chainlink/core/chains/chain_set.go:159-289 | Services are only ever added; the closing sweep happens once |
| `ChainSetRuns.ClosedIfMadeBeforeSweep` | lib/chainlink/core/chains/chain_set.go:172-219 | What existed before the closing sweep is not live after it; what is live after it was made by `Add` or `Configure`, later |
| `ChainSetRuns.RunIsTrace` | lib/chainlink/core/chains/chain_set.go:109-289 | What `chainsMu` guards goes, in every run, through a trace of critical sections with at most one sweep |
| `ChainTraces.TraceIsOk` | lib/chainlink/core/chains/chain_set.go:159-289 | In every such trace: the table is coherent, what is in the map is started or the constructor's and open until the sweep, and after the sweep only what `Add` or `Configure` made since is live |
| `ChainTraces.MadeIsClosedIff` | lib/chainlink/core/chains/chain_set.go:159-289 | In every such trace a service that was made and started is closed after the sweep if and only if it was made before or was taken out of the map again |
| `ChainSetRuns.RunClosesIff` | lib/chainlink/core/chains/chain_set.go:159-219 | In every run: whichever call makes and starts a service, in whatever state, once the callback of `Close` has ended it is closed if and only if it was made before the sweep or was taken out of the map again |
| `ChainTraces.UnloadedIsClosed` | lib/chainlink/core/chains/chain_set.go:205-209 | A started service that is out of the map has been closed, and stays closed |
| `ChainSetRuns.ChainReturns` | lib/chainlink/core/chains/chain_set.go:109-156 | What a `Chain` call returns, in any run: the service of its id, with an enabled row of the same config, started unless it is the constructor's, and open unless the sweep came between the call's first check and its first look at the map |
| `ChainSetRuns.ChainPassesIff` | lib/chainlink/core/chains/chain_set.go:109-117 | From any state of any run a thread can get past the first check of `Chain` if and only if the set is ready and the id is not empty |
| `ChainSetRuns.ChainBegan` | lib/chainlink/core/chains/chain_set.go:109-117 | Whatever a call of `Chain` gets to, it began in a state in which the set was ready, with an id that is not empty |
| `ChainSetRuns.ChainLooks` | lib/chainlink/core/chains/chain_set.go:118-155 | What it does at each look: at the map it returns if and only if the id is there; at the lifecycle, holding the write lock, it goes on if and only if the set is ready; then the table changes as the body of `Chain` says, and nowhere else |
| `ChainSetRuns.StartedIff` | lib/chainlink/core/chains/chain_set.go:259-276 | In every run, from the end of the start callback on, everything in the map is running, except exactly the constructor's services whose own `Start` failed in that callback |
| `ChainSetRuns.StartAnswersNil` | lib/chainlink/core/chains/chain_set.go:259-276 | A `Start` that was not refused returns nil, whichever chains failed to start |
| `ChainSetRuns.AddAfterCloseOrphans` | lib/chainlink/core/chains/chain_set.go:172-186 | From any stopped state an `Add` of a new id that meets no error ends with a live service that is never closed by `Close` |
| `ChainSetRuns.CallbackExtends` | lib/chainlink/core/chains/chain_set.go:259-289 | From a state with the lock free, a start or stop callback can run to its end and return nil |
| `ChainSetRuns.StartedRun` | lib/chainlink/core/chains/chain_set.go:259-276 | A run in which one thread completes `Start` on an empty set |
| `ChainSetRuns.StoppedRun` | lib/chainlink/core/chains/chain_set.go:278-289 | The same thread then completes `Close` |
| `ChainSetRuns.OrphansExist` | lib/chainlink/core/chains/chain_set.go:172-186 | There are runs with a live service after the callback of `Close` has ended |
| `ChainSetRuns.NoDeadlock` | lib/chainlink/core/chains/chain_set.go:109-289 | The lifecycle lock and `chainsMu` never block each other: while a call is in flight some call in flight can step, even though no new reader gets a lock while a writer waits |
| `Mailboxes.Mailbox.constructor` | lib/chainlink/core/utils/mailbox.go:28-38 | An empty queue and an empty notification slot |
| `Mailboxes.Mailbox.Deliver` | lib/chainlink/core/utils/mailbox.go:46-61 | In place: the item goes to the front and the slot is full afterwards, with or without a limit; if and only if the queue was at a positive capacity the oldest item, and no other, is dropped and that is reported |
| `Mailboxes.Mailbox.Retrieve` | lib/chainlink/core/utils/mailbox.go:64-74 | In place: the oldest item, which leaves the queue, or nothing exactly if there is none |
| `Mailboxes.Mailbox.RetrieveLatestAndClear` | lib/chainlink/core/utils/mailbox.go:77-86 | In place: the newest item, or nothing exactly if there is none, and the queue is empty |
| `Mailboxes.MailboxHistory` | lib/chainlink/core/utils/mailbox.go:46-86 | After any calls: the queue is the reverse of a suffix of everything delivered, within capacity; what each retrieval returned is the delivered items with that fate, in delivery order; overflows reported are items dropped; delivered = retrieved + latest + dropped + cleared + held |
| `Mailboxes.DeliverKeeps` | lib/chainlink/core/utils/mailbox.go:46-61 | One `Deliver` keeps that account |
| `Mailboxes.RetrieveKeeps` | lib/chainlink/core/utils/mailbox.go:64-74 | One `Retrieve` keeps it |
| `Mailboxes.LatestKeeps` | lib/chainlink/core/utils/mailbox.go:77-86 | One `RetrieveLatestAndClear` keeps it |
| `MailboxWakeups.StepKeepsInv` | lib/chainlink/core/utils/mailbox.go:46-74 | Each lock, queue, channel and unlock step keeps: a non-empty queue has a full slot or somebody attending to it |
| `MailboxWakeups.NoLostWakeups` | lib/chainlink/core/utils/mailbox.go:41-74 | With any number of producers and of consumers that drain, whenever the queue is not empty the slot is full, a consumer is still draining, or a `Deliver` has its notification still to come |
| `MailboxTickets.NeverEmpty` | lib/chainlink/core/utils/mailbox.go:41-74 | With `k` consumers that retrieve once per notification and capacity 0 or more than `k`, each outstanding notification is covered by an item |
| `MailboxTickets.Emptied` | lib/chainlink/core/utils/mailbox.go:16-18 | Otherwise a schedule leads to a full slot over an empty queue |
| `MailboxTickets.EmptyRetrieveIff` | lib/chainlink/core/utils/mailbox.go:16-18 | An empty `Retrieve` after a notification is possible if and only if 0 < capacity <= k; the note in the source is the case 1 |
| `StringOrder.SortedKeysAscend` | lib/chainlink/core/utils/json_normalization.go:85-92 | The sorted keys are strictly ascending in the order of Go strings |
| `StringOrder.AscendingIsUnique` | lib/chainlink/core/utils/json_normalization.go:85-92 | A set has one ascending enumeration, so the order of map iteration cannot show |
| `StringOrder.SortStrings` | lib/chainlink/core/utils/json_normalization.go:90-90 | Sorting distinct keys gives an ascending sequence of the same keys |
| `Json.ParseInverts` | lib/chainlink/core/utils/json_normalization.go:70-148 | The parser for the grammar inverts the printer on every finite tree, repeated names included, whatever follows |
| `Json.PrintUnambiguous` | lib/chainlink/core/utils/json_normalization.go:70-148 | No two trees have the same tokens |
| `Json.ValueOfTree` | lib/chainlink/core/utils/json_normalization.go:51-68 | Decoding what is written for a value gives the value back, up to the digits `%e` loses |
| `Json.TreeOfValue` | lib/chainlink/core/utils/json_normalization.go:85-122 | A tree is what is written for its value if and only if the names of every object ascend strictly |
| `Json.TokensSeparable` | lib/chainlink/core/utils/json_normalization.go:70-148 | No two scalars are ever adjacent, so the text needs no spaces |
| `JsonText.LexInverts` | lib/chainlink/core/utils/json_normalization.go:51-148 | The lexer inverts the text of every separable token stream |
| `JsonText.EscapeInverts` | lib/chainlink/core/utils/json_normalization.go:150-157 | The escape of any character is read back as that character |
| `JsonText.EscapeForms` | lib/chainlink/core/utils/json_normalization.go:150-157 | Which characters are escaped and in which of the two forms; what is written has no control character, and none of those that HTML and JavaScript give a meaning |
| `JsonText.EscapedIsPlain` | lib/chainlink/core/utils/json_normalization.go:150-157 | Neither has any escaped string |
| `JsonText.TextUnambiguous` | lib/chainlink/core/utils/json_normalization.go:51-162 | What `marshal` writes decodes to the value, and two values have the same text if and only if they are the same; both up to the digits `%e` loses |
| `JsonText.Marshal` | lib/chainlink/core/utils/json_normalization.go:51-68 | Appends exactly the text of the value to the writer |
| `JsonText.MarshalObject` | lib/chainlink/core/utils/json_normalization.go:70-83 | The same, for an object |
| `JsonText.OrderedKeys` | lib/chainlink/core/utils/json_normalization.go:85-92 | Collecting keys in any order and sorting them gives the sorted keys |
| `JsonText.MarshalMapOrderedKeys` | lib/chainlink/core/utils/json_normalization.go:94-122 | Appends the members with a comma between them and none at the end |
| `JsonText.MarshalMember` | lib/chainlink/core/utils/json_normalization.go:96-119 | One turn of that loop |
| `JsonText.MarshalArray` | lib/chainlink/core/utils/json_normalization.go:124-148 | The same, for an array |
| `JsonText.MarshalItems` | lib/chainlink/core/utils/json_normalization.go:130-144 | The loop over the items |
| `JsonNormal.FilterWorksOnStrings` | lib/chainlink/core/utils/json_normalization.go:30-45 | Putting the printed text into form C is putting each escaped string into it |
| `JsonNormal.WrittenString` | lib/chainlink/core/utils/json_normalization.go:34-37 | A string is read back as one string, or not at all; the second exactly if the end of some escape composes with what follows |
| `JsonNormal.NormalFormText` | lib/chainlink/core/utils/json_normalization.go:22-47 | The normal form is a JSON text if and only if no escape was broken; then it is the text of the tree with every string as it is read back |
| `JsonNormal.FixedPointIff` | lib/chainlink/core/utils/json_normalization.go:14-47 | Normalizing a normal form is the identity if and only if no escape is broken and in every object the names, in the order their keys were sorted, are still strictly ascending as read back |
| `JsonNormal.SameFormIff` | lib/chainlink/core/utils/json_normalization.go:14-47 | A normal form that is a JSON text is shared by exactly the readable values that agree member by member, in the order of the sorted keys, up to what strings are read back as |
| `JsonNormal.MembersSwap` | lib/chainlink/core/utils/json_normalization.go:17-21 | An object whose members change places when its normal form is normalized |
| `JsonNormal.MemberIsLost` | lib/chainlink/core/utils/json_normalization.go:17-21 | An object with two keys whose normal form has one name twice and decodes to one member |
| `JsonNormal.EscapeIsBroken` | lib/chainlink/core/utils/json_normalization.go:30-45 | A string whose normal form is not a JSON text |
| `CborFormat.DecodeInverts` | lib/chainlink/core/cbor/cbor.go:20-23 | The decoder inverts every well-formed encoding (any head widths, definite or indefinite lengths, tags, nesting), whatever follows it |
| `CborFormat.NegativesDecode` | lib/chainlink/core/cbor/cbor.go:20-23 | A negative integer decodes to itself whatever the width of its head, and to a big one exactly below -2^63 |
| `CborFormat.BignumsDecode` | lib/chainlink/core/cbor/cbor.go:20-23 | A bignum decodes to the number its bytes write, or to -1 less that, and to no other |
| `CborFormat.TagsDecode` | lib/chainlink/core/cbor/cbor.go:20-23 | The two bignum tags take a byte string only; any other tag keeps its content, if that decodes |
| `DietCbor.DietForms` | lib/chainlink/core/cbor/cbor.go:12-36 | Pairs with text keys and arbitrary values: bare, between 0xbf and 0xff, behind a definite head of any width, or with only the closing mark, parse to the same string-keyed map or the same failure, and what follows a complete map is ignored |
| `DietCbor.MarkedForms` | lib/chainlink/core/cbor/cbor.go:12-36 | For the four ways to have the two marks or not, and any pairs: those where the marks agree give the map the pairs stand for, the others an error; if and only if, when the values decode |
| `DietCbor.OpeningMarkAloneFails` | lib/chainlink/core/cbor/cbor.go:12-17 | With only the opening mark nothing parses, against the comment that either may be missing |
| `DietCbor.ClosingMarkAloneFails` | lib/chainlink/core/cbor/cbor.go:53-62 | The closing mark of an empty map alone is a single byte, left as it is, and does not parse |
| `DietCbor.DelimitersIdempotent` | lib/chainlink/core/cbor/cbor.go:53-62 | Adding delimiters twice is adding them once, and exactly single bytes and map heads are left alone |
| `DietCbor.SingleByte` | lib/chainlink/core/cbor/cbor.go:16-35 | Of the inputs of one byte three parse, the empty map, null and undefined, each to the empty map |
| `DietCbor.CoerceSucceedsIff` | lib/chainlink/core/cbor/cbor.go:69-110 | Coercion succeeds if and only if every key of every interface map outside tags is text |
| `DietCbor.CoerceIdempotent` | lib/chainlink/core/cbor/cbor.go:69-110 | Its result has no interface map and no bare big integer, and coercing again changes nothing |
| `DietCbor.CoerceKeepsContent` | lib/chainlink/core/cbor/cbor.go:69-110 | Coercion keeps the content: read without telling the two kinds of maps, and big integers from pointers to them, apart, the result is what was coerced |
| `DietCbor.CoerceInterfaceMapToStringMap` | lib/chainlink/core/cbor/cbor.go:69-110 | The recursion computes the coercion, whatever order maps are ranged over |
| `DietCbor.CoerceStringMap` | lib/chainlink/core/cbor/cbor.go:71-79 | The loop that overwrites a string map |
| `DietCbor.CoerceInterfaceMap` | lib/chainlink/core/cbor/cbor.go:80-93 | The loop that fills a string map from an interface map |
| `DietCbor.CoerceList` | lib/chainlink/core/cbor/cbor.go:94-103 | The loop over a slice |
| `Sessions.Store.AuthorizedUserWithSession` | lib/chainlink/core/sessions/orm.go:67-84 | In place: an empty id is refused, then a row that is missing or expired, both with nothing changed; otherwise the row is last used now, and the answer is whether there is a user |
| `Sessions.Store.FindUser` | lib/chainlink/core/sessions/orm.go:55-65 | Whether there is a user |
| `Sessions.Store.InsertSession` | lib/chainlink/core/sessions/orm.go:190-193 | In place: a new row last used now, refused only if the id is there |
| `Sessions.Store.DeleteUserSession` | lib/chainlink/core/sessions/orm.go:101-104 | In place: that row is gone and every other one is as it was |
| `Sessions.Store.ClearNonCurrentSessions` | lib/chainlink/core/sessions/orm.go:208-211 | In place: every row but the given one is gone, and that is as it was |
| `Sessions.Store.DeleteUser` | lib/chainlink/core/sessions/orm.go:87-98 | In place: user and rows are gone |
| `Sessions.Store.DeleteStaleSessions` | lib/chainlink/core/sessions/reaper.go:46-49 | In place: exactly the rows last used before the threshold are gone |
| `Sessions.Reaper.Work` | lib/chainlink/core/sessions/reaper.go:36-43 | In place: exactly the rows are left that were last used no longer ago, by the node clock, than timeout and expiration together |
| `Sessions.ReapingBisimulates` | lib/chainlink/core/sessions/reaper.go:36-49 | Under the covering condition the tables with and without reaping stay related, and the answers equal, over any history |
| `Sessions.ReapingUnobservableIff` | lib/chainlink/core/sessions/reaper.go:36-49 | Over all histories reaping is unobservable if and only if timeout + expiration >= duration + clock skew |
| `Sessions.Witness` | lib/chainlink/core/sessions/reaper.go:36-43 | Otherwise a history in which the reaper takes a session that is still good |
| `Sessions.CallAtOnce` | lib/chainlink/core/sessions/orm.go:67-84 | A call that nothing interrupts is the method |
| `Sessions.AcceptedIff` | lib/chainlink/core/sessions/orm.go:67-84 | A call, its update and its user lookup with any events between, is accepted if and only if in the history its session was inserted and used since without a gap longer than the duration, nothing ended it, and there is a user at the lookup; with or without reaping |
| `Sessions.SessionForNextUser` | lib/chainlink/core/sessions/orm.go:124-194 | The insert looks for no user, so a user deleted during a login leaves a session that is good for the next user |
| `Sessions.InsertedForUserIff` | lib/chainlink/core/sessions/orm.go:124-194 | A session that is good in any history with a user was inserted while there was a user if and only if nobody was created since without a user being there |
| `Sessions.RowAcceptsIff` | lib/chainlink/core/sessions/orm.go:72-72 | The row check of the update says the same about a history without reaping |
| `EvmWords.SignedWord` | lib/chainlink/core/utils/ethabi.go:196-206 | Accepts exactly -(2^255-1)..2^255-1, the rest overflows; always 32 bytes; two's-complement decoding recovers the value |
| `EvmWords.SignedWordInverse` | lib/chainlink/core/utils/ethabi.go:196-206 | Decoding any 32 bytes and encoding again gives them back, except for the least number |
| `EvmWords.UnsignedWord` | lib/chainlink/core/utils/ethabi.go:210-219 | Accepts exactly 0..2^256-1, with its own error on either side; 32 bytes; big-endian decoding recovers the value |
| `EvmWords.UnsignedWordInverse` | lib/chainlink/core/utils/ethabi.go:210-219 | Every 32 bytes are the encoding of their value and of no other |
| `EvmWords.Uint128Word` | lib/chainlink/core/utils/ethabi.go:184-192 | Accepts exactly 0..2^128-1; overflow for a larger magnitude comes before the refusal of negative numbers; 32 bytes that decode to the value |
| `EvmWords.CheckedRoundTrip` | lib/chainlink/core/utils/utils.go:78-87 | `Uint256ToBytes` succeeds exactly on 0..2^256-1 and round-trips there, fails above, panics exactly on negative numbers, and so never on what `CheckUint256` accepts, which refuses just one encodable number |
| `EvmWords.HexRoundTrip` | lib/chainlink/core/utils/utils.go:406-416 | A byte string decoded from hexadecimal is accepted if and only if its value is below 2^256-1, and then encodes back to those bytes up to leading zeros |
| `EvmWords.HexRefuses` | lib/chainlink/core/utils/utils.go:406-416 | Text that is no hexadecimal is refused as such; a number is refused exactly for being 2^256-1 or more, and is otherwise the value of the bytes |
| `EvmWords.Bytes32Word` | lib/chainlink/core/utils/utils.go:428-433 | 32 bytes for every magnitude below 2^256, which decode to the magnitude, so to the number if and only if it is not negative; panics on any other |
| `EvmWords.EVMBytesToUint64` | lib/chainlink/core/utils/utils.go:828-834 | For a buffer of any length the loop computes the big-endian value mod 2^64 |
| `EvmWords.EVMWordUint64` | lib/chainlink/core/utils/ethabi.go:170-174 | The word written in place is the 32-byte big-endian form of the number |
| `EvmWords.EncodedBytes` | lib/chainlink/core/utils/ethabi.go:51-66 | Length word, the bytes, and fewer than 32 zeros up to a multiple of 32 |
| `EvmWords.EncodingsAreWords` | lib/chainlink/core/utils/ethabi.go:60-66 | A concatenation of encodings is a multiple of 32 bytes long |
| `EvmWords.DecodeAllInverts` | lib/chainlink/core/utils/ethabi.go:51-66 | Any list of byte strings is recovered from the concatenation of its encodings |
| `InheritanceOrdering.AddChain` | lib/openzeppelin-contracts/scripts/inheritanceOrdering.js:18-20 | The edges of one linearization are those from each contract to every later one |
| `InheritanceOrdering.BuildGraph` | lib/openzeppelin-contracts/scripts/inheritanceOrdering.js:13-22 | The graph has an edge exactly where some linearization orders the two so |
| `InheritanceOrdering.FindConflicts` | lib/openzeppelin-contracts/scripts/inheritanceOrdering.js:26-39 | The pairs reported are exactly those that two linearizations order oppositely, each once; the exit code is 1 exactly if there are any |
| `InheritanceOrdering.LinesShowConflict` | lib/openzeppelin-contracts/scripts/inheritanceOrdering.js:31-37 | Under a reported pair there are lines of both kinds, and only then |
| `InheritanceOrdering.ShortCyclesSuffice` | lib/openzeppelin-contracts/scripts/inheritanceOrdering.js:24-28 | A cycle of any length inside one linearization exists if and only if some pair is ordered oppositely: the "needs proof" of the comment, where it holds |
| `InheritanceOrdering.CyclesTakeThree` | lib/openzeppelin-contracts/scripts/inheritanceOrdering.js:24-28 | Without opposed pairs no two linearizations hold all the edges of a cycle, whatever its length |
| `InheritanceOrdering.LongCyclesExist` | lib/openzeppelin-contracts/scripts/inheritanceOrdering.js:24-28 | Three are enough: a family of linearizations as the compiler makes them, each containing those of its members, with a 3-cycle and no opposed pair |
| `BoundedQueues.BoundedQueue.Add` | lib/chainlink/core/utils/utils.go:545-553 | In place: the newest `capacity` items of the old ones and the new one; panics exactly with a negative capacity |
| `BoundedQueues.BoundedQueue.Take` | lib/chainlink/core/utils/utils.go:556-565 | In place: the oldest item, or nothing |
| `BoundedQueues.SortedPriorities` | lib/chainlink/core/utils/utils.go:593-598 | The priorities are the keys, each once, ascending, whatever the order of iteration |
| `BoundedQueues.MakeQueues` | lib/chainlink/core/utils/utils.go:592-597 | One empty sub-queue object for each priority, none shared |
| `BoundedQueues.BoundedPriorityQueue.constructor` | lib/chainlink/core/utils/utils.go:591-605 | All sub-queues empty, with the given capacities |
| `BoundedQueues.BoundedPriorityQueue.Add` | lib/chainlink/core/utils/utils.go:608-618 | In place: only the sub-queue of that priority changes, by the bounded append; panics exactly on an unknown priority, changing nothing, or a negative capacity, with the item appended |
| `BoundedQueues.BoundedPriorityQueue.Take` | lib/chainlink/core/utils/utils.go:621-633 | In place: the item returned is the oldest of the smallest priority that holds any, which is unique, and it is the one that leaves; nothing else changes; nothing is returned exactly if all are empty |
| `BoundedQueues.BoundedPriorityQueue.Empty` | lib/chainlink/core/utils/utils.go:637-648 | True exactly if every sub-queue is empty |
| `BoundedQueues.NothingChosenIff` | lib/chainlink/core/utils/utils.go:621-633 | `Take` finds a smallest non-empty priority unless all are empty |
| `BoundedQueues.RecordHolds` | lib/chainlink/core/utils/utils.go:608-633 | Histories hold what the two methods make of the contents, and `returned` gets the very item that `Take` returns, under its priority only |
| `BoundedQueues.AddKeepsLine` | lib/chainlink/core/utils/utils.go:545-553 | An item is dropped exactly when the sub-queue is full |
| `BoundedQueues.QueueHistory` | lib/chainlink/core/utils/utils.go:545-633 | After any calls, under each priority: held are the newest items, up to capacity, of those added after the last one taken; items were returned in the order they were added; added = returned + dropped + held |
| `ClientCache.StepKeepsInv` | lib/chainlink/core/chains/solana/chain.go:130-172 | Each step keeps: cached and returned clients have the expected chain id, and what was returned for a URL is what is cached |
| `ClientCache.EntriesStay` | lib/chainlink/core/chains/solana/chain.go:160-169 | An entry never changes once written |
| `ClientCache.OneClientPerUrl` | lib/chainlink/core/chains/solana/chain.go:130-172 | In every interleaving all successful returns for one URL are the same client, the cached one, with the expected chain id |
| `ClientCache.ReturnsIff` | lib/chainlink/core/chains/solana/chain.go:148-172 | In every run a call that has a client, from the cache or its own, returns one for its URL if and only if that client has the expected chain id |
| `ClientCache.LooksUp` | lib/chainlink/core/chains/solana/chain.go:130-146 | A call takes the client from the cache if and only if there is one when it looks, and makes one otherwise |
| `ClientCache.RaceIsSettled` | lib/chainlink/core/chains/solana/chain.go:160-169 | A run in which two calls make a client each for one URL, and both return the first to be stored |
| `ClientCache.GetClient` | lib/chainlink/core/chains/solana/chain.go:96-127 | Whatever permutation is drawn: succeeds if and only if some node verifies, with the first that does; the three errors are told apart exactly |
| `Pagination.ParsePaginatedRequest` | lib/chainlink/core/web/api.go:32-52 | The size is refused if and only if it is there and no integer from 1 to 2^63-1; the page likewise, if the size is not; otherwise both are as parsed, 25 and 1 by default, with the offset of the first record in 64 bits |
| `Pagination.PaginationLink` | lib/chainlink/core/web/api.go:54-60 | Parsed as a request, the link asks for the size and page it was made for, if they are valid; every other parameter is unchanged |
| `Pagination.GetLinks` | lib/chainlink/core/web/api.go:94-104 | While the page ends within 64 bits, `next` is there exactly if records are left and asks for a page that begins with the first of them; `prev` exactly if this is neither the first page nor the only one, and asks for the page before |
| `Pagination.AtoiInverts` | lib/chainlink/core/web/api.go:56-57 | The decimal text of any 64-bit integer parses back to it |
| `Pagination.AtoiReads` | lib/chainlink/core/web/api.go:37-46 | Any digits, with either sign or none, are read as their number if it fits 64 bits, and refused otherwise |
| `Pagination.AtoiReadsOnly` | lib/chainlink/core/web/api.go:37-46 | Nothing else is read |
| `Pagination.LinkAsks` | lib/chainlink/core/web/api.go:54-60 | A link, parsed, asks for the page it was made for, and every other parameter is unchanged |
| `Pagination.PrevUndoesNext` | lib/chainlink/core/web/api.go:62-68 | Following `next` and then `prev` asks for the page the client was on if and only if that is not page 2^63-1, where `next` asks for an invalid page |
| `Pagination.LastPageHasNext` | lib/chainlink/core/web/api.go:94-104 | There, with 2 records a page and 3 in all, `next` is offered |
| `Pagination.WalkShows` | lib/chainlink/core/web/api.go:94-104 | If the last page ends within 64 bits, the n-th request of a client that follows `next` from page 1 asks for page n, and the windows together are the records from the first on, each once and in order |
| `Pagination.EndedWalkShowsAll` | lib/chainlink/core/web/api.go:94-104 | Such a walk has shown all records exactly when its last page has no `next` |
| `Pagination.WalkEnds` | lib/chainlink/core/web/api.go:94-104 | Following `next` comes to an end with all records shown |
| `Pagination.EndsInTimeIff` | lib/chainlink/core/web/api.go:97-100 | `next` is offered only while records are left if and only if the last page ends within 64 bits |

## Left out

- StartStop.Lifecycle: callbacks that panic are not modelled, nor is liveness, which depends on the scheduler.
- SleeperTask.NoWorkAfterStop: the 15 seconds of `Stop` are a failure that may happen at any time; in that case nothing is claimed.
- SleeperTask.WakeUpHonoured: that the loop gets to its Work depends on the scheduler and is not claimed.
- ChainTable.OpKeepsCoherence: needs a `formatID` without collisions and a database written through the set only; the SQL of `chains/orm.go` is an insert, update or delete of one row that may fail with no change.
- ChainSetRuns.StepKeepsInv: runs begin with a set whose every `NewChain` succeeded; of any other one `Start` panics, as `ChainSet.StartChains` says.
- ChainSetRuns.StoppedRun: in runs the stop callback may fail or not, at will; when it does is what `ChainSet.CloseChains` says.
- ChainSetRuns.NoOrphans: what a critical section does under the write lock of `chainsMu` is one step, since nothing else reads or writes what the lock guards; a chain's own `Start` and `Close` are opaque, and `Close` counts when it is called.
- The methods of `ChainSet`, `Mailbox`, `BoundedPriorityQueue` and `Store` are sequential, one critical section or statement each; the interleavings are those of the state machines.
- StartStop, SleeperTask, ChainSetRuns, MailboxWakeups and ClientCache are state machines over values, the form that interleavings need; their fields are not class fields.
- `Show`, `Index` and the node queries of the chain set only read the database.
- The separate chain set for EVM chains, which writes the database outside its lock, is not part of this model.
- JsonText.TextUnambiguous: which digits `%e` loses is left open; it is a pair of functions of which only this is used, that a number read from its output is written the same way. A number out of the range of floats is an error in the source and is not modelled.
- JsonNormal.FixedPointIff: form C is any function with five properties of it: idempotent, the identity on ASCII, nothing composes with a quote or a backslash, no escape is needed in its result, and a leading ASCII character either stays or is composed. What it composes otherwise is left open.
- JsonText.LexInverts: pairs of surrogate escapes in the input are not modelled; nor is a writer that fails.
- StringOrder.SortStrings: strings are compared by characters, which orders valid UTF-8 as its bytes do.
- CborFormat.DecodeInverts: limits of the decoder on nesting and size and its validation of UTF-8 are not modelled; tags other than 2 and 3 keep their content as it is, though the library reads tags 0 and 1 as times.
- DietCbor.CoerceInterfaceMapToStringMap: an error half way through a string map leaves the caller's map partly overwritten in the source; here maps are values.
- Sessions.AcceptedIff: passwords and WebAuthn, between the lookup of the user and the insert, are not modelled; statements that fail change nothing and are left out of histories.
- EvmWords.DecodeAllInverts: lengths are below 2^64, as every Go slice is.
- EvmWords.HexRoundTrip: the hexadecimal text itself is read by go-ethereum and is a parameter here.
- `EVMTranscode*` and `GenericEncode` depend on gjson and go-ethereum, which are not part of this model.
- InheritanceOrdering.LinesShowConflict: the names printed are left out.
- BoundedQueues.QueueHistory: capacities are not negative; with a negative one every `Add` panics.
- BoundedQueues.BoundedQueue.Take: the zero value for an empty queue is `None`; likewise for the mailbox.
- ClientCache.GetClient: each node's `verifiedClient` is one outcome; its interleaving with others is `OneClientPerUrl`.
- Pagination.LinkAsks: percent-encoding of the query text is left out; a query is its map of parameters.
- Controllers, commands, renderers, loggers, configuration, key stores and hashing: plumbing or foreign code.
