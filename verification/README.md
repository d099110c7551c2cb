# Verified models of the agent's hard parts

This project models, in Dafny, the parts of the legion agent whose correctness depends on more than one
function at a time, and proves what those parts are for.

- **Browser resources.** A pool of browser processes lends out contexts; sessions hold them, lose them to
  a reaper and get them back; a hub numbers a session's events and replays them; a screencast runs while
  somebody watches; batches of input must not leave keys held down. `pool_spec`, `runtime_spec`,
  `sessions`, `hub_spec`, `screencast` and `injection_spec` are state machines over atomic steps with
  theorems over every run. `runtime_effects` says which session an operation is for and what it does to it;
  `screencast_eviction` and `injection_promise` say when two of the promises fail. `browser_pool`,
  `session_store`, `runtime`, `hub`, `screencast_lock` and `injection` are the mutable objects and loops, each
  method proved to take the step its state machine describes. Where the program lets go of a lock in the
  middle of an operation (the pool's `Release` and `Close`), or goes without one (an eviction stopping a
  screencast), the operation is two steps.
- **Capability catalog.** Collecting, sorting and rendering, with the prompt-cache promise:
  `text_order`, `catalog_spec`, `render_spec`, `catalog`.
- **Streaming answers.** Folding tool-call fragments back together: `assembly_spec`, `assembly`.
- **Hash-chained logs.** `chains` holds what is common, `audit` the audit log, `sealed_log` and
  `evolution_log` the sealed log of evolution events.
- **Texts.** Fence neutralisation (`fence_search`, `fence_spec`, `fence_drift`, `fence_fate`, `fence`), token
  counting and history compression (`tokens`, `history_spec`, `history_shape`, `compressor`), cache pruning
  (`prune_spec`, `prune`) and the learning-event line (`learning`). `decimal` prints and reads 64-bit
  integers, `options` holds the option type.

What the world outside answers is a parameter of each operation: whether a process starts, a context opens,
a page loads, the database saves; what a cookie codec, a JSON decoder, a hash, a summarising model or a
clock returns; how characters are classed. Theorems hold for all such answers. Assumptions made about
them are named predicates: a hash tells different texts apart, is never empty and prints no NUL
(`Chains.GoodHash`); encoded cookies decode to what was encoded (`RuntimeSpec.Faithful`); lowercasing a run
of non-ASCII bytes yields something, but no byte of a tag (`FenceSearch.GoodWords`); ASCII white space is
space and the rest of ASCII is not (`Tokens.GoodClasses`, `Learning.GoodSpaces`).

`dafny verify dfyconfig.toml` checks everything.

## Where the code falls short of what is said about it

Each of these is a lemma with a concrete input, beside one that says exactly when the code does keep the promise.
The input is named first, the condition after it.

- At most one screencast is to run for a session. The lifecycle lock sees to that, but an eviction stops the
  screencast without it: a restart between the eviction's LoadAndDelete and its Stop starts a second one beside
  the first (`TwoRunMeanwhile`), and a Stop between Store and Start is lost for good
  (`StopBetweenStoreAndStart`). `OneRunsExactly`, `MissedExactly` and `MissedRunsOn` say when.
- `injectBatch` says it lets go of everything a failed batch holds down; a press that went through but whose
  modifier then would not come up is not on its books (`UnrecordedPress`). `KeepsExactly` says which batches keep
  the promise on every page, `PromiseExactly` which runs do.
- The streaming path says it returns the answer the other path returns; for reasoning made of white space
  only it does not (`BlankReasoningDiffers`, `StreamingRefines`).
- `neutralizeMemoryFence` is to leave no delimiter in the text. It lowercases to search and slices the original
  at what it found; text before a tag that grows or shrinks under lowercasing makes the slice miss. Whenever both
  loops return, no delimiter is left all the same (`ReturnedIsFree`), so the promise fails only in two ways: the
  slice runs out of range (`OverrunAtAnInput`) or the loop never ends (`ForeverAtAnInput`), and `EndsExactly` and
  `ForeverExactly` say when. What else the text holds is another matter: that is preserved exactly if lowercasing
  shifts no tag (`ShiftedButReturns`, `RunIsExactExactly`).
- A chained log is determined by its last hash only while no covered text holds a NUL, the byte that joins
  the fields (`TwoLogsOneHead`, `DeterminedExactly`).
- `reapIdle` returns the ids it calls recycled; it also returns those whose context it had to keep
  (`ReportedButKept`, `ReportedExactly`).
- Session ids are new until the counter is at its 64-bit limit (`WrapCollides`, `CreateIsNewExactly`).
- `ContextCompressor.Compress` wraps its text into one message; protecting any message protects it all, so
  with the default configuration it never compresses (`OverLimitByDefault`, `DefaultNeverCompresses`,
  `CompressesTextExactly`).

## Model

| member | source | states |
|---|---|---|
| `PoolSpec.Accounting` | internal/browser/pool.go:97-193 | in every interleaving of acquire, the two halves of release, recycling, adoption and close: a live process counts the contexts it owns plus the releases under way, no count exceeds its limit, nor do the processes or the owners in all, and every owner is a process still in the pool |
| `PoolSpec.StepKeeps` | internal/browser/pool.go:97-224 | each atomic step of the pool keeps the accounting invariant |
| `PoolSpec.RunKeeps` | internal/browser/pool.go:97-224 | so the invariant holds in every state any run reaches from the empty pool |
| `PoolSpec.FirstFreeFinds` | internal/browser/pool.go:105-109 | the scan stops at the first process with room; all before it are full |
| `PoolSpec.AcquireExactly` | internal/browser/pool.go:97-136 | each of the five answers, if and only if: a context is handed out exactly when the pool is open, the browser opens one, and either some process has room or the limit allows another and one was launched |
| `PoolSpec.AcquiredWhere` | internal/browser/pool.go:105-136 | the context is one of the first process in start order with room, or, if none has, of the launched one, which counts one context more |
| `PoolSpec.AcquireKeeps` | internal/browser/pool.go:97-126 | acquisition, with launching and opening free to fail, keeps the invariant |
| `PoolSpec.AcquireOnCounts` | internal/browser/pool.go:129-136 | a context opened on a process with room leaves each count equal to owners plus releases under way |
| `PoolSpec.ReleaseOwnerKeeps` | internal/browser/pool.go:142-150 | dropping the owner while the count still stands keeps the invariant, because the context is then a release under way |
| `PoolSpec.ReleaseCountKeeps` | internal/browser/manager.go:331-344 | the later decrement keeps it as well, whatever ran in between |
| `PoolSpec.ExhaustedExactly` | internal/browser/pool.go:105-114 | RESOURCE_EXHAUSTED is the answer exactly when the pool is open, has its full number of processes and each is full |
| `PoolSpec.AcquiredIsNew` | internal/browser/pool.go:97-136 | a context handed out is owned by nobody else, neither held nor being released, and only its own process gains it |
| `PoolSpec.GrowsOnlyWhenFull` | internal/browser/pool.go:105-125 | a process is started only when every one in the pool is full, and goes to the end of the list |
| `PoolSpec.FailedAcquire` | internal/browser/pool.go:97-136 | a failed acquisition leaves the pool as it was, but for at most one more idle process |
| `PoolSpec.KeptIsFilter` | internal/browser/pool.go:170-192 | recycling keeps exactly the processes in use or within the limit, each once |
| `PoolSpec.KeptInOrder` | internal/browser/pool.go:170-192 | the kept processes stand in the order they had |
| `PoolSpec.RecycleExactly` | internal/browser/pool.go:163-193 | a process is dropped exactly if it is idle and above a limit that is set; a dropped one is shut and nobody holds or is releasing a context of it |
| `PoolSpec.RecycleKeeps` | internal/browser/pool.go:163-193 | recycling keeps the invariant: no owner points to a recycled process |
| `PoolSpec.AdoptKeeps` | internal/browser/pool.go:213-224 | adopting keeps the invariant; the process is then the one idle process of an open pool, and shut by a closed one |
| `PoolSpec.NoOrphan` | internal/browser/pool.go:196-224 | in every run each process ever started is in the pool, being closed or closed, and none is alive once the pool is closed and done closing |
| `PoolSpec.ClosedStaysClosed` | internal/browser/pool.go:97-103 | after close has begun no acquisition succeeds and no step leaves a further process alive |
| `PoolSpec.NothingSurvivesClose` | internal/browser/pool.go:196-224 | once a close has finished, nothing is alive at any later point of the run |
| `PoolSpec.OwnersWithinLimits` | internal/browser/pool.go:97-136 | shares within the per-process limit add up to no more than processes times contexts |
| `BrowserPool.ChromiumInstance.AcquireContext` | internal/browser/manager.go:279-289 | counts and numbers a context only if the browser opened it |
| `BrowserPool.ChromiumInstance.ReleaseContext` | internal/browser/manager.go:331-344 | the count goes down, never below zero, whether or not the browser disposes of the context |
| `BrowserPool.Pool.constructor` | internal/browser/pool.go:68-80 | an empty pool; limits that are not positive become one process and eight contexts |
| `BrowserPool.Pool.Acquire` | internal/browser/pool.go:97-126 | the loop over the backing array takes the acquire step of the state machine, with the same answer |
| `BrowserPool.Pool.AcquireOn` | internal/browser/pool.go:129-136 | opens a context and records its owner, as the state machine does |
| `BrowserPool.Pool.ReleaseOwner` | internal/browser/pool.go:146-149 | the half of release under the pool's lock |
| `BrowserPool.Pool.ReleaseCount` | internal/browser/pool.go:156-156 | the half under the process's lock |
| `BrowserPool.Pool.Release` | internal/browser/pool.go:142-157 | both halves for an owned context; for none, or one already released, no error and no change |
| `BrowserPool.Pool.Compact` | internal/browser/pool.go:170-192 | the in-place compaction leaves in the first slots the order-preserving filter of what was there, and shuts exactly the rest |
| `BrowserPool.Pool.RecycleBloated` | internal/browser/pool.go:163-193 | takes the recycle step; a limit of zero switches it off |
| `BrowserPool.Pool.Adopt` | internal/browser/pool.go:213-224 | a closed pool shuts the adopted process and reports an error |
| `BrowserPool.Pool.Close` | internal/browser/pool.go:196-207 | every process the pool held is shut when it returns, and the pool is empty and closed |
| `RuntimeSpec.Conservation` | internal/browser/runtime.go:376-500 | in every state that Open, eviction, per-session Close, touches, takeovers and recycling can reach, with acquisition, navigation, saving or disposal failing anywhere, the pool's owners are exactly the contexts held by sessions in the table, and no two sessions share one |
| `RuntimeSpec.StepKeeps` | internal/browser/runtime.go:376-637 | each operation of the runtime keeps pool accounting, session table, chat index and books in agreement |
| `RuntimeSpec.OpenKeeps` | internal/browser/runtime.go:376-461 | so does Open on each of its ways out |
| `RuntimeSpec.OpenRespectsTakeover` | internal/browser/runtime.go:376-414 | Open is refused for its address, for an unknown session or for want of room without changing any session; it is refused for takeover exactly when the session it resolves to is taken over; it changes no session under takeover and none but its own, and adds one only on admission |
| `RuntimeEffects.ResolveExactly` | internal/browser/runtime.go:384-409 | which session an Open is for: the named one; else the one last bound to the chat if it is in the table, evicted or not and whatever admission says; else, on admission, a new one under an id never used before, which the chat then leads to |
| `RuntimeEffects.NewSessionExactly` | internal/browser/session.go:62-125 | a new session has no context, the time of the Open, a first row as far as the database works, and is what its chat leads to |
| `RuntimeEffects.OpenExactly` | internal/browser/runtime.go:410-461 | for a session that is there and not taken over: which answer is given when; done, it has a context, its own if it had one, a page, the address and the time of the Open, and so has its row |
| `RuntimeEffects.EvictedComesBack` | internal/browser/runtime.go:384-461 | over a run: after an eviction, an Open through the chat on which everything works opens that very session, with a page at the address and the time of the Open |
| `RuntimeEffects.TakenOverIsLeftAlone` | internal/browser/runtime.go:410-414 | over a run: from the takeover until the flag is changed or the session goes, every Open for it is refused and no reaper pass reports or touches it |
| `RuntimeEffects.TakeoverLasts` | internal/browser/runtime.go:801-808 | no other operation ends a takeover |
| `RuntimeEffects.NavigateExactly` | internal/browser/runtime.go:430-461 | a page that fails to open or load leaves everything as it was; one that cannot be looked at leaves page and address; one that can, the time as well |
| `RuntimeEffects.TouchExactly` | internal/browser/runtime.go:319-334 | time in the table; address and time in an existing row if the database works, with the evicted mark gone and the snapshot kept |
| `RuntimeSpec.RebuildKeeps` | internal/browser/runtime.go:472-500 | so does getting a context back, acquired or not |
| `RuntimeEffects.RebuildExactly` | internal/browser/runtime.go:472-500 | an acquired context goes to the session with the cookies the stored snapshot decodes to, or none if any step to get them fails; a refused one changes nothing but the pool |
| `RuntimeSpec.CloseKeeps` | internal/browser/runtime.go:596-620 | so does closing a session, whether or not its context can be disposed of |
| `RuntimeEffects.CloseExactly` | internal/browser/runtime.go:596-620 | the session is gone from the table, its row as far as the database works, its context from the pool's books; no chat leads to it, and all other chats lead where they led |
| `RuntimeSpec.EvictKeeps` | internal/browser/reaper.go:62-111 | so does eviction, kept or carried out |
| `RuntimeSpec.EvictSavesFirst` | internal/browser/reaper.go:62-107 | eviction drops a context exactly when there is no database or its cookies were captured, encoded and saved; the saved row decodes to those cookies and has the session's address, time and the evicted mark; of the session only context and page go; otherwise nothing changes |
| `RuntimeSpec.RunLeavesParked` | internal/browser/store.go:18-24 | while a session has no context, no operation but its own Close, and no number of touches, disturbs its stored snapshot |
| `RuntimeSpec.RebuildRestores` | internal/browser/runtime.go:472-500 | a rebuild the database and the browser do not let down starts with the cookies the snapshot decodes to |
| `RuntimeSpec.LoginSurvives` | internal/browser/storagestate.go:26-101 | evict, then any run that leaves the session without a context, then rebuild: the new context holds the cookies the old one held, the empty jar included |
| `RuntimeSpec.RestartRestores` | internal/browser/session.go:128-148 | after a restart: a session adopted at start-up gets back, at its first rebuild after any run that leaves it without a context, what its stored snapshot decodes to |
| `RuntimeEffects.AdoptExactly` | internal/browser/session.go:128-148 | a stored session enters the table with its row's address and time, without context, page or takeover, and nothing is written |
| `RuntimeSpec.LoginSurvivesRestart` | internal/browser/reaper.go:10-12 | over two runs: evicted in the first, adopted at the start of the second over the database the first left, the session gets back the cookies it held before |
| `RuntimeSpec.ReapTakesIdleOnly` | internal/browser/reaper.go:16-45 | a reaper pass reports exactly the sessions idle for the TTL and not taken over, and touches no other |
| `RuntimeSpec.ReapKeeps` | internal/browser/reaper.go:16-45 | a whole pass, with any of its evictions failing, keeps the invariant |
| `RuntimeSpec.ReportedExactly` | internal/browser/reaper.go:16-45 | for a pass over any snapshot of the table without repetitions: it reports exactly the sessions not taken over whose last use is at least the TTL ago, and a reported one is without a context afterwards exactly if it had none, there is no database, or its cookies were captured, encoded and saved |
| `RuntimeSpec.ReportedButKept` | internal/browser/reaper.go:41-91 | an idle session whose save fails: the pass reports it and changes nothing |
| `BrowserRuntime.Runtime.Open` | internal/browser/runtime.go:376-461 | resolves, checks takeover, rebuilds and navigates as the state machine's Open does, with its outcome |
| `BrowserRuntime.Runtime.Resolve` | internal/browser/runtime.go:384-409 | a named session or an error, the chat's session, or a new one if admitted |
| `BrowserRuntime.Runtime.Rebuild` | internal/browser/runtime.go:472-500 | acquires, restores what can be restored, and clears the evicted mark |
| `BrowserRuntime.Runtime.LoadJar` | internal/browser/runtime.go:477-490 | the stored cookies if every step to get them works, an empty jar otherwise, never an error |
| `BrowserRuntime.Runtime.Touch` | internal/browser/runtime.go:319-334 | time in memory first, then address and time in the database as far as it works |
| `BrowserRuntime.Runtime.EvictSession` | internal/browser/reaper.go:62-111 | takes the evict step on session, database and pool |
| `BrowserRuntime.Runtime.ReapIdle` | internal/browser/reaper.go:16-45 | the loop over a snapshot is the reaper pass; a TTL that is not positive switches it off |
| `BrowserRuntime.Runtime.CloseSession` | internal/browser/runtime.go:596-620 | an unknown session is an error; a known one gives up its context and leaves the table and the database |
| `BrowserRuntime.Runtime.SetTakeover` | internal/browser/runtime.go:801-808 | sets the flag of a known session, refuses an unknown one |
| `Sessions.IdsNeverReused` | internal/browser/session.go:98-162 | in any run, start-up adoptions included, Create never hands out an id that was in the table before |
| `Sessions.CreateIsNewExactly` | internal/browser/session.go:98-125 | the id is new exactly if the counter is below its 64-bit limit or the id it wraps to was never there |
| `Sessions.WrapCollides` | internal/browser/session.go:132-148 | two stored ids whose adoption makes Create hand out one of them again |
| `Sessions.ParseOfSessionId` | internal/browser/session.go:152-162 | the number of a generated id is read back from it |
| `Sessions.LookupInRun` | internal/browser/session.go:62-93 | in any run a chat lookup finds a session exactly when the id last bound to the chat is in the table, and then that one |
| `Sessions.LazyIsEager` | internal/browser/session.go:77-93 | the lazily cleaned index answers as one cleaned at once would |
| `Sessions.BindExactly` | internal/browser/session.go:62-72 | a chat once bound leads to that session, and no other chat is affected |
| `Sessions.DeleteExactly` | internal/browser/session.go:183-199 | after a deletion every chat leads where it led, but for those that led to the deleted session |
| `Sessions.FirstId` | internal/browser/session.go:98-110 | the first id is sess-1, and a number is written into an id in decimal |
| `Sessions.BindingAheadIsLost` | internal/browser/session.go:77-93 | a binding made before its session exists is lost to a lookup in between |
| `Decimal.AtoiOfPrint` | internal/browser/session.go:152-162 | printing a 64-bit integer in decimal and parsing it gives it back |
| `Decimal.AtoiExactly` | internal/browser/session.go:152-162 | what is read as a number: a sign or none, digits and nothing else, a value of 64 bits |
| `Decimal.DigitsInDecimal` | internal/browser/session.go:152-162 | a digit more at the end is ten times as much and that digit |
| `SessionTable.SessionStore.Create` | internal/browser/session.go:98-125 | numbers a session, enters it, and writes a first row as far as the database works |
| `SessionTable.SessionStore.Adopt` | internal/browser/session.go:132-148 | enters a stored session, lifts the counter over its number, writes nothing back |
| `SessionTable.SessionStore.BindChat` | internal/browser/session.go:62-72 | rebinds a chat; an empty chat id does nothing |
| `SessionTable.SessionStore.FindByChatSession` | internal/browser/session.go:77-93 | finds the bound session and drops a dangling binding |
| `SessionTable.SessionStore.Delete` | internal/browser/session.go:183-199 | unbinds the chat only if it still points here, drops the session, and its row as far as the database works |
| `HubSpec.ReplayIsExact` | internal/browser/stream.go:64-95 | in every run ReplaySince(L) is the last min(capacity, k) of the k status events ever published above L, in strictly increasing number |
| `HubSpec.ReplayedExactly` | internal/browser/stream.go:64-95 | the same event by event: replayed are just the observations and progress reports published above L behind which fewer than capacity such events were published; a capacity that is not positive is 64 |
| `HubSpec.PublishExactly` | internal/browser/stream.go:64-82 | an open channel with fewer than 64 events waiting gets the event behind them, a full one loses it and keeps what it has, a closed one is left alone |
| `HubSpec.DeliveryInOrder` | internal/browser/stream.go:46-82 | each subscriber receives an increasing subsequence of what was published after it joined, with at most 64 events waiting; its channel is closed exactly when it is no longer subscribed |
| `HubSpec.ClosedIsLeftAlone` | internal/browser/stream.go:46-82 | a closed channel is never sent to, closed again or opened again |
| `HubSpec.KeepingUpMissesNothing` | internal/browser/stream.go:64-82 | in any run a subscriber whose channel always has room receives everything published since it joined, frames included |
| `HubSpec.RunKeeps` | internal/browser/stream.go:46-95 | in every run the ring is the last status events and all numbers are those of the publishing order |
| `StreamHub.Hub.Subscribe` | internal/browser/stream.go:46-61 | a fresh channel under a number never used before |
| `StreamHub.Hub.Cancel` | internal/browser/stream.go:53-60 | closes the channel once; a second cancel does nothing |
| `StreamHub.Hub.Publish` | internal/browser/stream.go:64-82 | numbers the event, keeps it if it is status, and offers it to every open channel without blocking |
| `StreamHub.Hub.ReplaySince` | internal/browser/stream.go:85-95 | the loop over the ring returns the events above the given number |
| `Screencast.AllAccountedFor` | internal/browser/runtime.go:220-299 | at every moment of every interleaving, evictions included, a running screencast is the current one (registered, or about to be stopped by the lock's holder) or one an eviction has taken; the current one is at most one |
| `Screencast.OneRunsExactly` | internal/browser/runtime.go:220-299 | at most one screencast runs if and only if nothing an eviction took still runs, or one such and no current one beside it; in particular whenever no eviction is half done or has missed |
| `ScreencastEviction.NoEvictionNoLeftover` | internal/browser/runtime.go:220-299 | a run without evictions leaves nothing over, so the lock alone keeps the screencasts to one |
| `ScreencastEviction.MissedExactly` | internal/browser/reaper.go:108-110 | an eviction's Stop is lost exactly when it comes between the Store and the Start of its screencast |
| `ScreencastEviction.MissedRunsOn` | internal/browser/reaper.go:108-110 | no later step of anybody stops a screencast started after its Stop was lost |
| `ScreencastEviction.FirstSubscriber` | internal/browser/runtime.go:220-261 | the first subscriber's thread, run from the start, leaves one screencast registered and running |
| `ScreencastEviction.TwoRunMeanwhile` | internal/browser/reaper.go:108-110 | from there: an eviction takes the screencast, a restart runs through before its Stop, and two run with the lock free |
| `Screencast.StoreNeverOverwrites` | internal/browser/runtime.go:248-299 | a Store never lands on a registered screencast; what runs when it happens an eviction has taken, and somebody is subscribed |
| `Screencast.WatchedWhileRunning` | internal/browser/runtime.go:220-299 | with the lock free, a registered screencast has a subscriber; with no subscriber none is registered, and only what an eviction took can run |
| `Screencast.StepKeeps` | internal/browser/runtime.go:220-299 | each single step of subscribing, cancelling (again), restarting and evicting, the eviction's LoadAndDelete and Stop falling anywhere, keeps what the lock protects |
| `ScreencastEviction.StopBetweenStoreAndStart` | internal/browser/reaper.go:108-110 | taken and stopped between Store and Start, a screencast runs that is registered nowhere and that no eviction is about to stop |
| `ScreencastLock.SubscribeExactly` | internal/browser/runtime.go:220-261 | the steps of one subscribing thread come to: a subscriber more, and if it is the only one and there is a page, one more screencaster registered and, if it starts, running |
| `ScreencastLock.CancelExactly` | internal/browser/runtime.go:234-271 | those of a cancelling one: the subscriber gone, and with the last one the registered screencaster, stopped |
| `ScreencastLock.RestartExactly` | internal/browser/runtime.go:278-299 | those of a restarting one: with nobody watching nothing, else the old screencaster stopped and, given a page, a new one registered |
| `ScreencastLock.SessionView.Subscribe` | internal/browser/runtime.go:220-233 | the section as run undisturbed is the steps of one subscribing thread |
| `ScreencastLock.SessionView.Cancel` | internal/browser/runtime.go:234-241 | likewise for one cancelling thread, a first or a repeated time |
| `ScreencastLock.SessionView.RestartIfActive` | internal/browser/runtime.go:278-299 | likewise for one restarting thread |
| `ScreencastLock.SessionView.StartScreencastLocked` | internal/browser/runtime.go:248-261 | without a page nothing happens; with one it is registered first and stays registered if the start fails |
| `InjectionPromise.PromiseExactly` | internal/browser/injectbatch.go:64-104 | after a failure what is down was down before or was tried and would not come up, if and only if the failing event left nothing down that the batch had not recorded |
| `InjectionPromise.KeepsExactly` | internal/browser/injectbatch.go:64-104 | a batch of known names keeps the promise on every page if and only if each event has no modifiers, or it and they press only what was down before the batch or the batch holds by then |
| `InjectionPromise.CleanUpPromise` | internal/browser/injectbatch.go:64-104 | in particular whenever the failing event's modifiers came up, for every batch, point and pattern of failure |
| `InjectionPromise.DownAfterFailure` | internal/browser/injectbatch.go:64-141 | in any case the only additions are the failing event's own stuck modifiers and its own press |
| `InjectionPromise.UnrecordedPress` | internal/browser/injectbatch.go:70-79 | ctrl+a whose ctrl will not come up: the a stays down, unrecorded and unreported |
| `InjectionPromise.EachHeldTriedOnce` | internal/browser/injectbatch.go:127-141 | the clean-up makes one releasing call for each held item, keys first, each list last-pressed first, whatever the answers |
| `InjectionPromise.AppliedCounts` | internal/browser/injectbatch.go:69-79 | Applied is the number of events that went through, and the next one is the one that failed |
| `InjectionPromise.CompleteExactly` | internal/browser/injectbatch.go:64-104 | the batch succeeds exactly when every event goes through, and then releases nothing |
| `InjectionSpec.HeldIsUnmatched` | internal/browser/injectbatch.go:80-101 | what is held is, item by item, what was pressed and not released again |
| `InjectionSpec.OneEffect` | internal/browser/runtime.go:903-960 | one event adds to what is down at most its own press, if it went through, and its stuck modifiers |
| `InjectionSpec.EventCalls` | internal/browser/runtime.go:903-998 | an event that goes through makes these calls: its modifiers down in order, for a mouse event a move, its own action, its modifiers up last first, none of them failing; any button but right and middle is the left one |
| `InjectionSpec.RemoveLastCounts` | internal/browser/injectbatch.go:144-160 | removing a button or key takes away one occurrence, no more |
| `Injection.InjectBatch` | internal/browser/injectbatch.go:64-104 | the loop with its two lists is the batch of the specification on the changing page |
| `Injection.InjectEvent` | internal/browser/runtime.go:903-960 | modifiers down, the action, modifiers up on every path |
| `Injection.HoldModifiers` | internal/browser/runtime.go:970-998 | presses in order; on a failure lets go of those pressed before, last first |
| `Injection.Release` | internal/browser/injectbatch.go:127-133 | tries every key in reverse, whatever the others answer, and returns those that would not come up |
| `Injection.Remove` | internal/browser/injectbatch.go:144-160 | the search from the end removes the last occurrence, or nothing |
| `CatalogSpec.ProviderOrderIrrelevant` | internal/capability/catalog.go:136-165 | over any permutation of the providers either both catalogs fail or both are the identical list |
| `CatalogSpec.CollectExactly` | internal/capability/catalog.go:136-153 | collecting succeeds exactly when every provider answers and all entries together are valid and uniquely named |
| `CatalogSpec.EntriesExactly` | internal/capability/catalog.go:136-165 | Entries succeeds exactly if every provider answers, every entry has a name, a group and a summary of at most 120 characters, and no name occurs twice; it then lists just those entries by origin, group and name |
| `CatalogSpec.CollectFails` | internal/capability/catalog.go:136-153 | a failure names the first thing wrong in provider order: a provider that does not answer, an invalid entry, or, if it is valid, one whose name was there before |
| `TextOrder.LessExactly` | internal/capability/catalog.go:155-163 | texts are ordered by the first difference, and a text that goes on comes behind one that ends |
| `CatalogSpec.SortedIsUnique` | internal/capability/catalog.go:155-163 | uniquely named entries have one arrangement that an unstable sort by (origin, group, name) may return |
| `CatalogSpec.BeforeIsTotal` | internal/capability/catalog.go:155-163 | the comparison decides between any two entries of different names |
| `CatalogSpec.BeforeIsTransitive` | internal/capability/catalog.go:155-163 | and is transitive |
| `Catalog.Entries` | internal/capability/catalog.go:136-165 | the nested loops with the seen map, and the sort, give an answer the specification allows |
| `RenderSpec.PluginsStayInTail` | internal/capability/render.go:18-50 | two catalogs with the same builtin entries, at least one, and any plugin entries render with a common prefix covering the opening and every builtin line |
| `RenderSpec.NoBuiltinsNoPrefix` | internal/capability/render.go:19-21 | without builtin entries the first plugin entry brings in the whole block |
| `RenderSpec.OneHeadingEach` | internal/capability/render.go:26-40 | on sorted input each pair of origin and group that occurs gets exactly one heading, others none |
| `RenderSpec.UnderOwnHeading` | internal/capability/render.go:26-46 | each entry is read under a heading of its own origin and group, on any input |
| `RenderSpec.ItemsOfLines` | internal/capability/render.go:41-46 | every entry is listed once, in order |
| `RenderSpec.Wording` | internal/capability/render.go:18-50 | the words around the lines, the line of a heading and that of an entry |
| `RenderSpec.TextInOrder` | internal/capability/render.go:23-46 | lines are written one after the other |
| `RenderSpec.BuiltinsOfCatalog` | internal/capability/catalog.go:155-163 | the builtin entries come first, and which they are does not depend on provider order |
| `Catalog.Render` | internal/capability/render.go:18-50 | the loop carrying group, origin and the first flag writes the specified text |
| `AssemblySpec.AssembleRestores` | internal/adapter/http_maas.go:283-322 | any fragmentation of a call list that keeps each index's order and the order of first appearance assembles to that list, under any interleaving |
| `AssemblySpec.InterleavingIrrelevant` | internal/adapter/http_maas.go:283-322 | only each index's own fragments and the order of first appearance matter |
| `AssemblySpec.FoldIsIndexwise` | internal/adapter/http_maas.go:283-297 | the fold holds, for each index, its last id, its last name and its arguments put together |
| `AssemblySpec.StreamingRefines` | internal/adapter/http_maas.go:211-341 | however a message is cut into chunks, both paths fail or both agree on text, calls and usage; they agree on the reasoning exactly under the stated condition on blank texts |
| `AssemblySpec.ParseCallsExactly` | internal/adapter/http_maas.go:645-680 | calls are reported unless the arguments of one are neither blank nor decodable; a reported call has its own name, its id or else its name for one, and its arguments decoded |
| `AssemblySpec.StreamInOrder` | internal/adapter/http_maas.go:281-297 | texts and fragments of a stream are those of its deltas, one after the other |
| `AssemblySpec.ArgsInOrder` | internal/adapter/http_maas.go:283-297 | the arguments of a call are the pieces of its fragments, one after the other |
| `AssemblySpec.LastUsageExactly` | internal/adapter/http_maas.go:278-280 | the usage is that of the last chunk that carries one |
| `AssemblySpec.BlankReasoningDiffers` | internal/adapter/http_maas.go:329-333 | one space of reasoning that the two paths report differently |
| `Assembly.GenerateStream` | internal/adapter/http_maas.go:248-341 | the nested loops return the specified response, and what onDelta was given, put together, is the returned text |
| `Assembly.Accumulator.Add` | internal/adapter/http_maas.go:283-297 | one fragment changes its own accumulator, and the order if its index is new |
| `Assembly.ToolCalls` | internal/adapter/http_maas.go:645-680 | all calls parsed in order, or none and the arguments of the first call that does not parse |
| `Chains.JoinDetermines` | internal/adapter/hash_audit.go:76-84 | NUL-free fields share their joined text with no other list of as many fields |
| `Chains.ShiftedJoinsAlike` | internal/adapter/hash_audit.go:76-84 | a field that holds a NUL can always be cut differently: other fields, as many, with the same joined text |
| `Chains.LastHashDetermines` | internal/adapter/hash_audit.go:63-86 | two verifying chains of equally many fields a link, one of them NUL-free, with the same last hash are the same chain |
| `AuditLog.DeterminedExactly` | internal/adapter/hash_audit.go:63-86 | the last hash of a verifying audit log fixes its length and every covered field if and only if no covered text holds a NUL |
| `AuditLog.TwoLogsOneHead` | internal/adapter/hash_audit.go:27-44 | two one-event logs built by appending, one with a NUL in its request id, that both verify and have the same last hash, with different covered fields |
| `AuditLog.EditFoundExactly` | internal/adapter/hash_audit.go:63-84 | an edited event with its hash left alone fails verification exactly if its id, request, subject type, subject, action or stamp changed, and at no other event |
| `AuditLog.ReachableLogsVerify` | internal/adapter/hash_audit.go:27-44 | every log built by appending verifies and has no id twice |
| `AuditLog.AppendExactly` | internal/adapter/hash_audit.go:27-44 | a new id goes in at the end with all fields, hashed over the previous hash, the five texts and the stamp; a seen one changes nothing |
| `AuditLog.FirstAppendedWins` | internal/adapter/hash_audit.go:33-35 | under each id the log holds what was appended under it first |
| `AuditLog.VerifyAuditEvents` | internal/adapter/hash_audit.go:63-73 | accepts exactly the verifying lists and otherwise names the first event that does not fit |
| `AuditLog.HashChainAuditLog.Append` | internal/adapter/hash_audit.go:27-44 | chains an event with a new id, ignores one already seen, does nothing once cancelled |
| `AuditLog.HashChainAuditLog.VerifyChain` | internal/adapter/hash_audit.go:54-61 | the log's own chain always verifies unless cancelled |
| `SealedLog.DeterminedExactly` | internal/evolution/eventlog.go:72-113 | the last seal fixes every sealed field, previous seal and seal of a verifying log if and only if no sealed text holds a NUL |
| `SealedLog.ReachableLogsVerify` | internal/evolution/eventlog.go:31-58 | every log built by appending verifies and has no event id twice |
| `SealedLog.AppendExactly` | internal/evolution/eventlog.go:31-58 | field by field: a new event goes in at the end as it is, with a creation time and a seal over the previous seal and its seven texts; one whose id is there adds nothing and gets the entry exactly if all seven texts agree |
| `SealedLog.ReappendExactly` | internal/evolution/eventlog.go:39-44 | an event whose id was accepted before changes nothing at any later time: equal in each of the seven texts it gets the entry first made, differing in any it is refused |
| `EvolutionLog.SealedEvolutionEventLog.Append` | internal/evolution/eventlog.go:31-58 | the map lookup, the comparison and the sealing do what the specification's append does |
| `EvolutionLog.VerifyEvents` | internal/evolution/eventlog.go:72-89 | accepts exactly the verifying lists and otherwise names the first entry that does not fit |
| `EvolutionLog.SealedEvolutionEventLog.Verify` | internal/evolution/eventlog.go:72-89 | the log's own entries always verify unless cancelled |
| `EvolutionLog.SealedEvolutionEventLog.Events` | internal/evolution/eventlog.go:60-70 | the entries of one cycle in log order, or all of them |
| `SealedLog.OfCycle` | internal/evolution/eventlog.go:60-70 | keeps an entry exactly if its cycle matches or no cycle is asked for |
| `SealedLog.OfCycleInOrder` | internal/evolution/eventlog.go:60-70 | they stand in the order they have in the log, and none is left out |
| `FenceSearch.IndexOfFirst` | internal/cognitive/core.go:356-358 | the index found in the lowercased text is that of the first occurrence in any casing, counted in lowercased bytes, for every byte string |
| `FenceSearch.OccursExactly` | internal/cognitive/core.go:356-358 | an occurrence in any casing: each byte is the tag's or its capital |
| `FenceSearch.Delimiters` | internal/cognitive/core.go:340-349 | the two delimiters and what is put in their place |
| `FenceDrift.StepExactly` | internal/cognitive/core.go:343-349 | a turn of the loop replaces the tag it found exactly when lowercasing keeps the length of what precedes it |
| `FenceDrift.RunIsExactExactly` | internal/cognitive/core.go:340-352 | the rest of the text is preserved: both loops replace just what they find, every time, if and only if no tag in the input is shifted by lowercasing |
| `FenceDrift.SteadyAscii` | internal/cognitive/core.go:354-358 | which holds for every ASCII text |
| `FenceSpec.PatchingEnds` | internal/cognitive/core.go:343-349 | each replacement takes one `<` away, whatever becomes of the length |
| `FenceSpec.TwoPassesAreOneScan` | internal/cognitive/core.go:342-350 | one pass for each tag gives the text that a single scan for both gives |
| `FenceSpec.CleanIsFree` | internal/cognitive/core.go:331-339 | the result holds neither tag in any casing: the second pass cannot bring the first tag back |
| `FenceSpec.CleanKeepsExactly` | internal/cognitive/core.go:340-352 | a text is left as it is exactly when neither tag is in it |
| `FenceDrift.LongerLowercaseOverruns` | internal/cognitive/core.go:343-349 | U+023A before a closing tag at the end puts the slice out of range |
| `FenceDrift.LoopStandsStill` | internal/cognitive/core.go:343-349 | sixteen bytes of growth before an opening tag make the loop rewrite a patch by a patch, with the tag still there |
| `FenceFate.EndedPassLeavesNone` | internal/cognitive/core.go:343-349 | for every byte string, shifted or not: a loop that ends has left none of its tag, and none of the other if there was none before |
| `FenceFate.ReturnedIsFree` | internal/cognitive/core.go:331-352 | so whenever both loops return, the text returned holds neither tag in any casing |
| `FenceFate.EndsExactly` | internal/cognitive/core.go:343-349 | a loop ends, and with which text, exactly as a terminating procedure on the input decides |
| `FenceFate.ForeverExactly` | internal/cognitive/core.go:343-349 | a loop goes on for ever exactly if it comes to a text its own step does not change |
| `FenceFate.ClosingLoopStops` | internal/cognitive/core.go:343-349 | which the loop for the closing tag never does |
| `FenceFate.SteadyReturns` | internal/cognitive/core.go:340-352 | with no tag shifted both loops return, with the single scan's text |
| `FenceFate.OverrunAtAnInput` | internal/cognitive/core.go:343-349 | an input on which the first loop ends out of range |
| `FenceFate.ForeverAtAnInput` | internal/cognitive/core.go:343-349 | inputs on which the loop for the opening tag never ends |
| `FenceFate.ShiftedButReturns` | internal/cognitive/core.go:340-352 | an input with a shifted tag on which both loops return, no tag is left, and a neighbouring byte is lost |
| `Fence.ReplaceTag` | internal/cognitive/core.go:343-349 | wherever the inner loop does not go on for ever it has no result if the slice runs out of range, and otherwise returns a text free of the tag and of every other tag that was not there; with no tag shifted, every occurrence is replaced |
| `Fence.NeutralizeMemoryFence` | internal/cognitive/core.go:340-352 | wherever neither loop goes on for ever there is no result if a slice runs out of range, and otherwise one free of both tags; with no tag shifted it is the single scan's text |
| `Tokens.CountTokens` | internal/cognitive/tokencount.go:15-37 | the loop with its pending run counts the token starts: each CJK character, and every fourth piece of a run from its first on |
| `Tokens.CountOfConcat` | internal/cognitive/tokencount.go:15-37 | for all texts Count(a) + Count(b) - 1 <= Count(a + b) <= Count(a) + Count(b), and when each is met |
| `Tokens.SeamSplits` | internal/cognitive/tokencount.go:15-37 | what a seam saves depends only on the run that ends and the run that begins there |
| `HistorySpec.RenderedCountsAddUp` | internal/cognitive/compressor.go:223-239 | a rendered history costs the sum of its rendered messages |
| `HistorySpec.ExactAccounting` | internal/cognitive/compressor.go:108-156 | over the limit TokensAfter is the trimmed history's tokens less the middle's, plus five and the answer's tokens if summarised; within it nothing changes; the returned messages cost what is reported |
| `HistoryShape.CompressedExactly` | internal/cognitive/compressor.go:108-156 | over the limit, whatever counts: the protected start, nothing or the one summary, the protected end, in this order and by index, each message as cutting leaves it; the model is asked about just the messages between, and its trimmed answer is the summary; counts, strategy and layers as reported |
| `HistoryShape.UncompressedExactly` | internal/cognitive/compressor.go:113-121 | within the limit, or with none, nothing is done |
| `HistoryShape.TrimmedIsKept` | internal/cognitive/compressor.go:179-193 | cutting leaves role, kind and time; content too, but for a tool result over its limit, which is cut and marked |
| `HistoryShape.WidthExactly` | internal/cognitive/compressor.go:185-189 | sizes and cuts count the bytes of UTF-8: one up to U+007F, two up to U+07FF, three up to U+FFFF, else four |
| `HistoryShape.RenderInOrder` | internal/cognitive/compressor.go:223-239 | messages are written one after the other |
| `HistoryShape.RenderedLine` | internal/cognitive/compressor.go:223-239 | a message's line: role and kind where there are any, the content, a line feed |
| `HistoryShape.Wording` | internal/cognitive/compressor.go:179-207 | what is put behind a cut result and in front of what is to be summarised |
| `HistorySpec.SummaryCost` | internal/cognitive/compressor.go:143-152 | the summary's message costs five tokens more than the model's untrimmed answer |
| `HistorySpec.TrimExactly` | internal/cognitive/compressor.go:206-206 | trimming cuts white space off both ends, leaves none there, and takes nothing else |
| `HistorySpec.CountOfTrim` | internal/cognitive/compressor.go:206-206 | trimming white space off the answer changes no count |
| `HistorySpec.Split` | internal/cognitive/compressor.go:209-221 | head, middle and tail put together are the messages; the head takes what it may, the tail what is left to take |
| `HistorySpec.CutParts` | internal/cognitive/compressor.go:189-189 | a byte cut is a start of the text and at most three bytes of a character cut through, and has the length asked for |
| `HistorySpec.TrimmingCostsAtMost` | internal/cognitive/compressor.go:179-193 | a trimmed tool result costs at most seven tokens more than it did |
| `HistorySpec.TrimmedHistoryCostsAtMost` | internal/cognitive/compressor.go:179-193 | so a trimmed history costs at most seven more for each result over the limit, and with none it is the same history |
| `HistorySpec.CompressesTextExactly` | internal/cognitive/compressor.go:96-106 | a single text counts as compressed exactly when it is over the limit, neither head nor tail is protected, and a summary, if made, is cheaper |
| `HistorySpec.DefaultNeverCompresses` | internal/cognitive/compressor.go:96-106 | with the default configuration no text counts as compressed, whatever the model answers |
| `HistorySpec.OverLimitByDefault` | internal/cognitive/compressor.go:96-106 | 32,000 letters are over the default limit and come back as they were |
| `Compressor.ContextCompressor.CompressHistory` | internal/cognitive/compressor.go:108-156 | the method returns what the specification says for the default counter, or is cancelled |
| `Compressor.TrimToolResults` | internal/cognitive/compressor.go:179-193 | cuts the long tool results in place and reports whether there was one |
| `Compressor.SplitProtected` | internal/cognitive/compressor.go:209-221 | the clamped slices are the specified split |
| `Compressor.RenderMessages` | internal/cognitive/compressor.go:223-239 | the builder loop renders message by message |
| `PruneSpec.Conservative` | internal/cli/plugins_cache_command.go:263-307 | for any order an unstable sort may give: freed plus remaining is the initial total, only unreferenced entries go, and whatever unreferenced entry stays is no older than any that goes |
| `PruneSpec.Minimal` | internal/cli/plugins_cache_command.go:263-305 | without a failure, under a positive budget: every shorter start of what was removed leaves more than the budget, so a cache within it loses nothing; removal ends with at most the budget left or nothing unreferenced left; it ends over budget exactly when the referenced entries alone are; with no budget all unreferenced entries go |
| `PruneSpec.FailedExactly` | internal/cli/plugins_cache_command.go:291-305 | a failure is that of an unreferenced entry no younger than any that went, met while the cache was still over a positive budget |
| `PruneSpec.DryRunForetells` | internal/cli/plugins_cache_command.go:291-305 | a dry run shows the entries and numbers of the run that meets no error; a run that does has removed a start of them |
| `Prune.PruneUnreferenced` | internal/cli/plugins_cache_command.go:279-307 | the loops and the sort give such an outcome, and take out of the cache exactly what was told of as removed, nothing in a dry run |
| `Learning.RoundTripExactly` | internal/evolution/event.go:32-83 | printing and parsing give the event back, accepted, if and only if each of its texts is a single word or empty, its signal is not empty and its time is set |
| `Learning.PrintedLine` | internal/evolution/event.go:32-48 | the line as written: five fields with blanks between them, in this order |
| `Learning.ParseExactly` | internal/evolution/event.go:51-83 | accepted are exactly the runtime events of the learning kind with a signal and a boolean lightweight field, in any of its twelve spellings; what is read is what the fields hold |
| `Learning.LastOfKey` | internal/evolution/event.go:56-62 | of several fields with one key the last counts |
| `Learning.AcceptedIsStable` | internal/evolution/event.go:32-83 | an event once accepted comes back unchanged however often it is printed and parsed |
| `Learning.FiveFields` | internal/evolution/event.go:39-46 | five words with blanks between them are split into just those five |
| `Learning.CutAtFirst` | internal/evolution/event.go:57-60 | a value may hold further equals signs: the cut is at the first |
| `Learning.ParseLearningRuntimeEvent` | internal/evolution/event.go:51-83 | the loop filling the map returns what the specification's parse does |

## Left out

- Fence.NeutralizeMemoryFence: asks that neither loop goes on for ever, as a method here must end; `FenceFate.ForeverExactly` says exactly which inputs that leaves out, and no text without a shifted tag is among them.
- Fence.ReplaceTag: asks the same of its one loop.
- BrowserRuntime.Runtime.Open: holds the pool as a value of its state machine, not as the `Pool` object; hub, screencast, page handle and takeover of pages by the user are modelled in their own modules.
- Screencast.OneRunsExactly: one session that stays open; dropping the hub of a closed session is left out.
- RuntimeSpec.Conservation: each operation is one step, and shutting down the whole runtime is left out; Open against a concurrent Close of the same session and a takeover set during a reaper pass are not interleaved.
- RuntimeSpec.LoginSurvives: cookies are the eight stored fields; what a browser keeps beyond them is not restored by the program and not modelled.
- PoolSpec.Accounting: a process is adopted only into an empty pool, as the manager does at start-up; acquisition and recycling are one step each although single counts may fall while they run.
- HubSpec.ReplayIsExact: event numbers do not wrap at 64 bits, and draining a channel is the reader's step.
- InjectionPromise.KeepsExactly: for batches whose event kinds, keys and modifiers are all known; an unknown one ends a batch at its event, which `InjectionPromise.PromiseExactly` covers.
- Injection.InjectBatch: a call to the page that fails is taken to change nothing, a click that fails half-way included; coordinates, scroll distances and inserted text have no bearing on what is held and are dropped; an event's names are looked up in tables given as parameters.
- Catalog.Entries: sort.Slice stands as a method whose contract allows any arrangement the comparison allows; error texts are reduced to their kinds.
- Assembly.GenerateStream: the HTTP request, SSE lines and the JSON of a chunk are left out; the chunks are given. A transport or decoding error ends the program's loop with an error and no response.
- Tokens.CountOfConcat: texts are joined where no encoded character is cut in two.
- HistorySpec.ExactAccounting: for the default counter; other counters go through the same code but need not add up.
- PruneSpec.Conservative: sizes are unbounded and whether a removal fails depends on the digest only.
- Learning.RoundTripExactly: the other fields of a runtime event play no part and are dropped.
- SealedLog.ReappendExactly: the clock's answer for a missing creation time is a parameter.
- Capturing and setting cookies one by one, process launch, sandboxing, memory sampling, the egress proxy and DNS: effects of the operating system and the network.
- ForceCheckpoint, the approval service's status checks, observation rendering and audit field copying: facts of one branch each.
- StablePrefixLen in the context builder: the compressor re-renders its text even when it reports no compression, so nothing is claimed about that offset.
- Command wiring, configuration, the terminal interface and the gateway.
