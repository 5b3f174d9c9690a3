# Nexal: a verified model of its protocols and algorithms

This project models the hard, library-independent logic of Nexal and proves what that
logic is for. Each module follows one component of the program:

- `ProcessLog`, `ProcessTasks`, `CommandPoller`, `LateOutput`: the bounded output log of a process in
  nexal-agent, the three tasks that write it under a lock, and the client that rebuilds
  stdout and stderr by polling with the highest sequence number it has seen. A run is any
  interleaving of the tasks' locked sections with reads; a recorded history of all chunks
  says what the log and the client should hold.
- `TapeView`, `TapeStore`, `TapeCache`, `TapePages`, `StableJson`, `JsonText`, `TapeEvents`: the
  append-only tape. Its edit view, the allocation of entry ids by concurrent transactions,
  the browser's page cache, and change detection through a canonical form of JSON.
- `Debounce`, `DebounceRefinement`, `DebounceTiming`: the async queue and the session
  debouncer, with exact message conservation over every schedule, a bound on shutdown, the
  queue object as a refinement of the machine's queue, and the three timing states.
- `CivilDate`: the day-number to date conversion and the time stamp built from it, against
  the proleptic Gregorian calendar (RFC 3339, sections 5.6 and 5.7 and Appendix C).
- `HelloReplay`: the replay window of signed hello messages.
- `AgentConn`: request/response correlation between concurrent invokes, incoming frames
  and close.
- `ChannelManager`, `ChannelReconcile`: one reconcile pass, and serialized reconciles
  interleaving with notifications, config changes and `stopAll`.
- `SkillsTree`, `SkillsTreeProofs`: the inode tree of the skills filesystem and lookup.
- `ProxyRegistry`: the two-index proxy registry as a refinement of one map.
- `Basics`, `Text`: options, bytes, splitting and joining, decimal text.

Code that changes state in place is modelled by classes and by methods with loops, each
proved against a specification function; the properties are then lemmas about those
functions and about whole runs. Clocks, randomness, schedules, the order in which a hash
map is iterated and the collation of `localeCompare` are parameters. Integers are
unbounded except where a cast is part of what is proved (`CivilDate`).

Where a promised property does not hold of the code in full, the model keeps the code, a
lemma gives a run or an input that fails, and another the exact condition:

- the close event of a process is lost when both streams end before the exit is recorded
  and the exit notification then fails (`CloseCanBeLost`; while the entry is present exactly
  then, `ClosedAtRest`), and when the entry is removed or shut down first
  (`RemovalLosesClose`; exactly when it was not emitted by then, `ClosedAtRemoval`);
- output read after the read that reported the exit is not in the result of `runCommand`
  (`OutputCanBeLate`; the result is final exactly when neither stream task can still read,
  `ReportIsFinalIff`, which a reply with `closed` tells the client, `ClosedReplyIsComplete`);
- a tape reset that overlaps an append can leave a gap in the ids, by a counter read before
  the reset (`ResetOverlapLeavesGap`) or by a row committed between the reset's two statements
  (`ResetMissesRow`); it does exactly when an append ends that read a counter above the
  committed one or a reset ends that has not seen every committed row (`IdsAreContiguous`),
  which needs such an overlap (`GapNeedsOverlap`);
- the count since the last anchor is taken by two queries that other transactions can
  separate (`InfoCanBeNegative`; right exactly as `InfoAcrossTwoQueries` says);
- keys that the collation ties make the stable JSON text follow the order of the keys
  (`TieSpoilsCanonical`; exactly for values with such keys in one object,
  `CanonicalIffUntied`, and then a setter repeats a record, `RepeatsNothingIffUntied`);
- a clock that steps back lets a hello be accepted twice (`ClockStepReplays`; exactly when
  `ReplayIff` says);
- a channel whose construction throws can leave a notification unserved
  (`ThrowLosesWakeUp`; exactly when a rerun is left over, `AtRestReconciled`), and a call of
  `stopAll` during a channel swap leaves the new channel running, in the map or out of it
  (`StopAllLeavesChannel`, `StopAllHidesChannel`; exactly then, `AfterStopAll`);
- an invoke that passed the closed check can register after the drain and stay unanswered
  (`InvokeCanMissTheDrain`; exactly those that registered too late,
  `AnsweredIffRegisteredBefore`);
- a skill file listed below another listed file cannot be opened (`PrefixHidesFile`; all can
  be opened exactly when no listed path is a prefix of another, `AllResolveIffPrefixFree`).

`dafny verify dfyconfig.toml` checks the whole project.

## Model

| member | source | states |
|---|---|---|
| `ProcessLog.RetainIsLongestFit` | crates/nexal-agent/src/process/local.rs:531-536 | eviction keeps exactly the longest suffix of the history whose bytes fit 1 MiB |
| `ProcessLog.RetainAppend` | crates/nexal-agent/src/process/local.rs:523-536 | evicting at every append gives the same queue as evicting the whole history once: nothing evicted could have come back |
| `ProcessLog.AppendedLogs` | crates/nexal-agent/src/process/local.rs:523-536 | an append keeps the queue, its byte count and the history in agreement |
| `ProcessLog.RunningProcess.Append` | crates/nexal-agent/src/process/local.rs:523-536 | numbering, appending and evicting in place yield the specified entry, and the history gains exactly this chunk |
| `ProcessLog.RunningProcess.Evict` | crates/nexal-agent/src/process/local.rs:531-536 | the eviction loop stops at the longest fitting suffix with an exact byte count, so the saturating subtraction never saturates |
| `ProcessLog.RunningProcess.Read` | crates/nexal-agent/src/process/local.rs:286-330 | the answer to a read, every field of it, as the read specification fixes it |
| `ProcessLog.TakeUpTo` | crates/nexal-agent/src/process/local.rs:299-317 | the read loop returns the cut of the newer chunks: always one, then as many as fit the byte limit |
| `ProcessLog.CollectNewer` | crates/nexal-agent/src/process/local.rs:299-317 | the same for the retained queue and the reader's position, with the next number after the last chunk |
| `ProcessLog.AnswerIsUnique` | crates/nexal-agent/src/process/local.rs:299-330 | the read specification determines the response completely |
| `ProcessTasks.RunInv` | crates/nexal-agent/src/process/local.rs:505-655 | every interleaving of the two output tasks, the exit task, removal and shutdown keeps the entry in agreement with the history of numbered events |
| `ProcessTasks.PhaseMeans` | crates/nexal-agent/src/process/local.rs:560-655 | a well-ordered event list numbers its events 1, 2, 3 and has at most one exit and a close only at its end |
| `ProcessTasks.RetainedIsLongestSuffix` | crates/nexal-agent/src/process/local.rs:523-536 | in every reachable state the queue is the longest suffix of the full history within 1 MiB, the byte count is exact and numbers strictly increase below the next one |
| `ProcessTasks.CloseIsLast` | crates/nexal-agent/src/process/local.rs:624-655 | at most one close event, above every output number, after an exit event |
| `ProcessTasks.NothingAfterClose` | crates/nexal-agent/src/process/local.rs:505-655 | once the close event exists nothing is numbered any more |
| `ProcessTasks.EventsGrow` | crates/nexal-agent/src/process/local.rs:505-655 | the event history is append-only over every run |
| `ProcessTasks.ReceivedIsAdded` | crates/nexal-agent/src/process/local.rs:512-543 | what a stream task receives while the entry is there joins the history with all its bytes, the next number, and the task's label, or `Pty` for a terminal |
| `ProcessTasks.OnlyReceivedIsAdded` | crates/nexal-agent/src/process/local.rs:505-655 | no other step changes the history |
| `ProcessTasks.ExitCodeIsKept` | crates/nexal-agent/src/process/local.rs:566-573 | once an exit is recorded the entry has that code for as long as it is there |
| `ProcessTasks.ClosedAtRest` | crates/nexal-agent/src/process/local.rs:560-655 | with all tasks past their checks and the entry present, the close event was emitted unless the exit notification failed after both streams had ended, and exactly then |
| `ProcessTasks.ClosedAtRemoval` | crates/nexal-agent/src/process/local.rs:599-606 | once the entry is gone there is a close event iff it had been emitted by then: never when a stream was still open, always when both stream tasks had ended and the exit task was past its check |
| `ProcessTasks.RemovalLosesClose` | crates/nexal-agent/src/process/local.rs:599-606 | a concrete run: the entry is removed while both streams are open, they end later, and no close event exists |
| `ProcessTasks.WhoCloses` | crates/nexal-agent/src/process/local.rs:624-643 | a step emits the close event iff it is a check that finds both streams done and the exit recorded |
| `ProcessTasks.CloseCanBeLost` | crates/nexal-agent/src/process/local.rs:584-597 | a concrete run in which all tasks end and no close event exists |
| `CommandPoller.Absorb` | src/gateway/agent_client.ts:90-97 | the loop over one reply leaves every byte of every chunk received so far at its place in stdout or stderr and nothing else, and the highest seen number |
| `CommandPoller.BytesAreOutputs` | src/gateway/agent_client.ts:90-95 | each chunk's bytes stand in stderr or stdout right after those of the earlier chunks of that output, and the two outputs together are as long as the chunks |
| `CommandPoller.OutputsAreUnique` | src/gateway/agent_client.ts:90-95 | these positions determine both outputs |
| `CommandPoller.RunCommand` | src/gateway/agent_client.ts:78-107 | polling stops at the first reply that reports an exit and returns its code with every received chunk at its place in stdout or stderr; code 0 and the time-out flag when time is up, and failure otherwise |
| `CommandPoller.ReceivedInOrder` | src/gateway/agent_client.ts:84-97 | a client that passes its highest seen number gets chunks of the history in history order, none twice |
| `CommandPoller.MissingOnlyIfEvicted` | crates/nexal-agent/src/process/local.rs:299-317 | a chunk passed over had been evicted before the read that would have returned it |
| `CommandPoller.ReceivedIsPrefix` | src/gateway/agent_client.ts:84-97 | while the history fits 1 MiB the client holds a prefix of it and lacks no bytes |
| `CommandPoller.OutputIsExact` | src/gateway/agent_client.ts:90-97 | while the history fits 1 MiB the received bytes are the history's, stream by stream |
| `CommandPoller.ServedPolls` | crates/nexal-agent/src/process/local.rs:286-330 | reads served by any interleaving of the tasks are such replies |
| `CommandPoller.ClientMissesOnlyEvicted` | crates/nexal-agent/src/process/local.rs:299-317 | for every interleaving of tasks and reads: history order, no duplicates, and only evicted chunks missing |
| `CommandPoller.RunCommandIsExact` | src/gateway/agent_client.ts:78-107 | for every interleaving, when the output fits 1 MiB at the read that reports the exit, stdout and stderr hold every chunk of the history at that read at its place and nothing else, with the recorded exit code |
| `CommandPoller.ReportsExitCode` | crates/nexal-agent/src/process/local.rs:320-327 | every reply served after an exit was recorded carries that exit's code |
| `LateOutput.SettledStays` | crates/nexal-agent/src/process/local.rs:512-558 | once no stream task can read, or the entry is gone, the history never grows again |
| `LateOutput.ReportIsFinalIff` | src/gateway/agent_client.ts:98-107 | within 1 MiB, what the client makes of the replies is, chunk by chunk, the whole output in every continuation iff no stream task could still read at that moment |
| `LateOutput.ClosedReplyIsComplete` | src/gateway/agent_client.ts:84-101 | a reply that says `closed` completes the output: the client's bytes are those of every later state |
| `LateOutput.OutputCanBeLate` | src/gateway/agent_client.ts:98-107 | a concrete run: exit, the read that ends `runCommand`, one more byte on stdout |
| `TapeView.CollectEdits` | packages/tape/src/view.ts:49-76 | the collecting loops find exactly the ids some redaction targets, 0 excepted, and the amendments with targets and a replacement, whole and in order |
| `TapeView.ApplyEdits` | packages/tape/src/view.ts:48-114 | in terms of the entries alone: unchanged when nothing has effect; with disjoint contiguous ranges the result is, entry by entry, nothing for edit records and redacted entries, the whole replacement at an amendment's first shown target, nothing for its other targets, and else the entry itself |
| `TapeView.EditLoop` | packages/tape/src/view.ts:78-113 | the rewriting loop terminates and renders the walk |
| `TapeView.KeptInOrder` | packages/tape/src/view.ts:81-111 | for any target sets, kept originals appear in order and none is an edit record or redacted |
| `TapeView.ReplacedOnce` | packages/tape/src/view.ts:94-106 | for any target sets, each amendment's replacement is inserted at most once |
| `TapeView.DroppedForAReason` | packages/tape/src/view.ts:81-111 | for any target sets, a dropped original is an edit record, redacted, or at or below the highest target of an applied amendment |
| `TapeView.ApplyEditsIsView` | packages/tape/src/view.ts:78-113 | for increasing ids and disjoint spans the loop computes the declarative view |
| `TapeView.ApplyEditsIsRangeView` | packages/tape/src/view.ts:78-113 | for disjoint contiguous ranges: edit records and redacted entries vanish, each range becomes its replacement at its first surviving target, all else stays in order |
| `TapeView.ViewOfEntries` | packages/tape/src/view.ts:48-114 | the rendered loop is that view; without amendments for any ids, with them for increasing ids |
| `TapeView.EditsAre` | packages/tape/src/view.ts:57-66 | the collected amendments are the effective ones of the list, in order |
| `TapeView.ResolveRange` | packages/tape/src/tape.ts:825-833 | one id, a list or a range becomes exactly the ids it aims at; a single id or a range is ascending and contiguous |
| `TapeStore.InsertKeepsContiguous` | src/tape/nexal-tape.ts:266-297 | an append that ends keeps ids contiguous iff the counter it read is not above the committed one; a stale reader rolls back, a current one commits |
| `TapeStore.IdsAreContiguous` | src/tape/nexal-tape.ts:266-353 | under every interleaving of append and reset transactions, statement by statement, committed ids have been exactly 1 to the counter throughout iff no append ended that had read a counter above the committed one and no reset ended while a row was committed that its delete had not seen |
| `TapeStore.GapNeedsOverlap` | src/tape/nexal-tape.ts:342-353 | either gap needs an append and a reset in progress at once |
| `TapeStore.ContiguousUnlessOverlap` | src/tape/nexal-tape.ts:266-353 | in every run in which no append is in progress while a reset is, the ids are exactly 1 to the counter |
| `TapeStore.LogIsAppendOnly` | src/tape/nexal-tape.ts:266-353 | but for the steps that leave a gap, concurrent transactions refine one append-only sequence: a commit appends its batch at the end, a reset that ends empties it, and no other step changes it |
| `TapeStore.ResetOverlapLeavesGap` | src/tape/nexal-tape.ts:342-353 | a concrete run in which a reset between an append's read and its update leaves id 2 committed alone |
| `TapeStore.ResetMissesRow` | src/tape/nexal-tape.ts:346-350 | a concrete run in which an append ends between the reset's delete and its update: row 2 is left under counter 0 |
| `TapeStore.EntriesSinceIsCount` | src/tape/nexal-tape.ts:422-425 | entries minus last anchor id is the number of entries after the last anchor |
| `TapeStore.InfoIsRight` | src/tape/nexal-tape.ts:398-425 | in every state reached without a gap the reported count since the last anchor is the true one |
| `TapeStore.InfoAcrossTwoQueries` | src/tape/nexal-tape.ts:399-425 | queries in two states of a run, resets in between included: right for the second iff the log is as long as at the first, right for the first iff the last anchor is where it was |
| `TapeStore.InfoAcrossAppends` | src/tape/nexal-tape.ts:399-425 | without the end of a reset in between: right for the first moment iff no anchor was appended, for the second iff nothing was |
| `TapeStore.InfoCanBeNegative` | src/tape/nexal-tape.ts:399-425 | a concrete run in which the reported count is -1 |
| `TapeCache.EntryKeyInjective` | web/src/lib/tape-cache.ts:72-74 | different entries have different keys, colons in tape ids included |
| `TapeCache.PutOne` | web/src/lib/tape-cache.ts:155-163 | one put changes one index entry of one tape |
| `TapeCache.Cache.PutEntries` | web/src/lib/tape-cache.ts:145-168 | the loop of puts updates this tape's index entry by entry and leaves other tapes alone |
| `TapeCache.ReadEntryRange` | web/src/lib/tape-cache.ts:195-223 | the cursor loop returns the tape's own visited entries, up to the limit |
| `TapeCache.CursorIsCachedSlice` | web/src/lib/tape-cache.ts:170-179 | the id range of a page is the cached part of that slice of the log |
| `TapeCache.PutAllCachesLog` | web/src/lib/tape-cache.ts:145-168 | caching entries read from the log keeps the cache a part of the log and adds exactly those ids |
| `TapeCache.LastPutStays` | web/src/lib/tape-cache.ts:155-163 | of several entries with one id the last put stays |
| `TapeCache.GetPage` | web/src/lib/tape-cache.ts:170-179 | a cached page is the cached part of the store's offset/limit page, and equals it iff all of it is cached |
| `TapeCache.GetLatest` | web/src/lib/tape-cache.ts:181-193 | the latest read is the tail of the cached log, in order |
| `TapePages.PageOfLog` | src/tape/nexal-tape.ts:324-338 | in every state reached without a gap the store's ordered offset/limit page is the page by position of its log |
| `TapePages.CacheSurvivesAppends` | web/src/lib/tape-cache.ts:145-168 | what was cached from the log in one state is right in every later state, as long as no reset ends |
| `TapePages.CachedPageIsStorePage` | web/src/lib/tape-cache.ts:170-179 | after any appends, the cached page is the store's present page iff all its ids are cached |
| `StableJson.SortIsStable` | packages/tape/src/tape.ts:999-1003 | sorting by one order what is sorted by another gives the combined order: rebuilding an object keeps collation order within ties |
| `StableJson.SortedIsUnique` | packages/tape/src/tape.ts:999-1003 | an order without ties between different keys has one arrangement of the same fields |
| `StableJson.ArrangeIsCanonical` | packages/tape/src/tape.ts:999-1003 | the same fields in any two orders are arranged alike if no two of their keys tie, whatever else the collation ties |
| `StableJson.SameSortsAlike` | packages/tape/src/tape.ts:996-1004 | values that differ only in key order, at any depth, sort to the same value if no object in one of them has keys that tie |
| `StableJson.TieKeepsOrder` | packages/tape/src/tape.ts:999-1003 | a sort leaves keys that tie in the order in which they were |
| `StableJson.TiedHasTwin` | packages/tape/src/tape.ts:996-1004 | a value with a tie somewhere inside has a twin that differs only in key order and sorts differently |
| `StableJson.AlikeIsSame` | packages/tape/src/tape.ts:996-1004 | values that sort to the same value differ only in key order |
| `JsonText.StringifyInjective` | packages/tape/src/tape.ts:992-994 | different values have different JSON texts |
| `JsonText.StableTextIsCanonical` | packages/tape/src/tape.ts:992-1004 | two values get equal stable texts iff they differ only in key order, if no object in one of them has keys that tie |
| `JsonText.EqualTextIsSame` | packages/tape/src/tape.ts:992-1004 | whatever the collation ties, equal stable texts mean equal values up to key order |
| `JsonText.TieSpoilsCanonical` | packages/tape/src/tape.ts:999-1003 | two keys the collation cannot tell apart give equal objects different stable texts |
| `JsonText.CanonicalIffUntied` | packages/tape/src/tape.ts:992-1004 | value by value: no reordering of keys changes the stable text iff no object inside has two keys that the collation ties |
| `TapeEvents.LatestEventData` | packages/tape/src/tape.ts:937-944 | the backward loop finds the data of the last record of the event |
| `TapeEvents.StatusIs` | packages/tape/src/tape.ts:927-935 | missing iff there is no record of the event, current iff the latest record is the data up to key order, changed otherwise |
| `TapeEvents.SetterAppendsUnlessCurrent` | packages/tape/src/tape.ts:544-553 | a setter appends its data unless it was asked to look and the latest record is that data already |
| `TapeEvents.PlainSetterAppends` | packages/tape/src/tape.ts:549-552 | without `ifChanged` a setter always appends, whatever the collation and the data |
| `TapeEvents.WriteKeepsNoRepeats` | packages/tape/src/tape.ts:544-553 | a setter with `ifChanged` never puts equal data next to each other when the written data has no tied keys |
| `TapeEvents.RunHasNoRepeats` | packages/tape/src/tape.ts:927-944 | in a serialized run where all writers of an event use `ifChanged` and data without tied keys, no two consecutive records of it carry equal data |
| `TapeEvents.RepeatsNothingIffUntied` | packages/tape/src/tape.ts:927-935 | an `ifChanged` setter repeats given data on no tape iff no object inside it has keys that tie |
| `TapeEvents.WriteIsLatest` | packages/tape/src/tape.ts:544-553 | after any setter call the latest record is the call's data, up to key order |
| `Debounce.AsyncQueue.Push` | src/debounce.ts:62-71 | a push goes to the longest waiting taker, else to the buffer with every waker woken, else nowhere once closed |
| `Debounce.AsyncQueue.Take` | src/debounce.ts:73-78 | the oldest value, null once closed and drained, or a registered waiter |
| `Debounce.AsyncQueue.TryTake` | src/debounce.ts:81-83 | the oldest buffered value if any, nothing else changes |
| `Debounce.AsyncQueue.WhenReady` | src/debounce.ts:90-93 | ready iff something is buffered or the queue is closed; never reserves a value |
| `Debounce.AsyncQueue.Close` | src/debounce.ts:99-103 | every waiter gets null, every waker is woken, buffered values stay |
| `Debounce.MessagesConserved` | src/debounce.ts:127-190 | in every reachable state dispatched, pending, in-flight and queued messages together are the accepted ones in order |
| `Debounce.AllDispatched` | src/debounce.ts:161-168 | when the loop has returned every accepted message is in exactly one batch, in order, and no batch is empty |
| `Debounce.NoSpuriousWake` | src/debounce.ts:161-171 | a ready wake-up of an open queue always finds a message |
| `Debounce.RankFalls` | src/debounce.ts:127-190 | after close every step of the loop lowers a bound on the steps left |
| `Debounce.NeverStuck` | src/debounce.ts:122-125 | after close the loop always has a step until it has returned |
| `Debounce.ShutdownIsBounded` | src/debounce.ts:122-125 | however pushes and the clock interleave, a closed loop takes a bounded number of steps |
| `DebounceRefinement.Process` | src/debounce.ts:118-120 | a push on the queue object is the machine's push: handed to the waiting loop, buffered with the loop woken, or refused |
| `DebounceRefinement.Shutdown` | src/debounce.ts:122-125 | closing the object is the machine's close |
| `DebounceRefinement.Block` | src/debounce.ts:136-138 | `take` at the top of the loop gives what the machine's round gives, or registers the loop |
| `DebounceRefinement.Race` | src/debounce.ts:156-159 | `whenReady` starts the race in the state the machine says |
| `DebounceRefinement.Ready` | src/debounce.ts:161-171 | `tryTake` after a won race moves the next message to pending, or finds the queue closed and the batch goes out |
| `DebounceTiming.LatestDecides` | src/debounce.ts:197-204 | with a clock that does not run back, remembering only the latest mention decides activity as the whole history does |
| `DebounceTiming.DeadlineFollowsHistory` | src/debounce.ts:139-144 | in every reachable state the deadline is the latest message's time plus the delay of its timing state, read off the whole history of mentions |
| `DebounceTiming.QuietBeforeTimeout` | src/debounce.ts:147-188 | a time-out dispatches only after the quiet time its latest message asks for |
| `DebounceTiming.CollectedAreDispatched` | src/debounce.ts:179-188 | that timed history is the dispatched batches followed by what is pending |
| `Debounce.MergeKeepsAll` | src/debounce.ts:218-232 | a single message is unchanged; else the merged one has the last metadata and is mentioned, each message's images stand after those of the earlier ones and none is added, and when no text spans lines, line i is the text of message i |
| `CivilDate.EraIsFloor` | crates/nexal-gateway/src/backend/podman.rs:280-281 | the adjusted truncating division is floor division for negative days too |
| `CivilDate.YearOfEraIsRight` | crates/nexal-gateway/src/backend/podman.rs:282 | the year-of-era formula is right on every day of an era |
| `CivilDate.CivilFromDaysIsRight` | crates/nexal-gateway/src/backend/podman.rs:279-288 | for every integer the result is a valid calendar date and counting days from 1970-01-01 gives the input back |
| `CivilDate.DaysFromCivilInverse` | crates/nexal-gateway/src/backend/podman.rs:279-288 | for every valid date, converting its day number gives the date back |
| `CivilDate.DayNumberInjective` | crates/nexal-gateway/src/backend/podman.rs:277-290 | different dates have different day numbers |
| `CivilDate.NextDayIsNext` | crates/nexal-gateway/src/backend/podman.rs:279-288 | day plus one is the calendar successor, across months, leap days and years |
| `CivilDate.DaysToYmdIsRight` | crates/nexal-gateway/src/backend/podman.rs:277-290 | with the final cast the result is right iff the year fits 32 bits, with the exact range of days |
| `CivilDate.IsoRoundTrip` | crates/nexal-gateway/src/backend/podman.rs:261-275 | for every clock value, reading the time stamp back gives its seconds iff the year is at most 9999; while the year fits 32 bits exactly those have the 20 characters of RFC 3339 |
| `CivilDate.StampFields` | crates/nexal-gateway/src/backend/podman.rs:268-274 | which digits of the time stamp are the year, month, day, hour, minute and second, and the marks between them |
| `CivilDate.KnownStamp` | crates/nexal-gateway/src/backend/podman.rs:261-275 | the time stamp of second 1700000000, written out |
| `HelloReplay.NonceIsKept` | crates/nexal-gateway/src/server/session.rs:65-72 | an inserted nonce stays cached with its time until a later call prunes it |
| `HelloReplay.NonceIsGone` | crates/nexal-gateway/src/server/session.rs:65-72 | once pruned, a nonce is gone until it is inserted again |
| `HelloReplay.NoReplay` | crates/nexal-gateway/src/server/session.rs:60-72 | with clock readings nondecreasing in lock order, no two hellos with one nonce and one time stamp are both accepted in any run over any sessions, however the signature is written |
| `HelloReplay.ReplayNeedsClockStep` | crates/nexal-gateway/src/server/session.rs:60-72 | whatever the clock does, a double acceptance needs a call in between whose clock was ahead of the second |
| `HelloReplay.VerdictIs` | crates/nexal-gateway/src/server/session.rs:48-79 | the verdict of every call of every run in terms of the calls alone: accepted iff the key is known, the time stamp at most 300 seconds off, the nonce not blocked and the hello signed; else the first of these that fails, in this order, is the refusal |
| `HelloReplay.CachedIffBlocked` | crates/nexal-gateway/src/server/session.rs:65-72 | a nonce is blocked iff an earlier call that was not blocked itself used it and no call since, this one included, came more than 600 seconds later |
| `HelloReplay.NewNonceIsFree` | crates/nexal-gateway/src/server/session.rs:65-77 | with a nonce never used before, acceptance depends on key, time stamp and signature alone |
| `HelloReplay.AcceptedIff` | crates/nexal-gateway/src/server/session.rs:60-77 | the same for a correctly signed hello over the last call that inserted its nonce |
| `HelloReplay.ReplayIff` | crates/nexal-gateway/src/server/session.rs:60-77 | so for a hello accepted before, whatever was tried since |
| `HelloReplay.ClockStepReplays` | crates/nexal-gateway/src/server/session.rs:60-72 | concrete calls at 0, 601 and 0 seconds accept one hello twice |
| `HelloReplay.NonceReuseIsLate` | crates/nexal-gateway/src/server/session.rs:65-72 | on a steady clock one nonce is accepted again only after more than twice the skew |
| `AgentConn.Shared.Allocate` | crates/nexal-gateway/src/agent_conn.rs:138-143 | the counter section gives the invoke its id and moves on as the machine's step does |
| `AgentConn.Shared.Insert` | crates/nexal-gateway/src/agent_conn.rs:144-145 | the one-shot channel is registered under the invoke's id |
| `AgentConn.Shared.DispatchFrame` | crates/nexal-gateway/src/agent_conn.rs:202-231 | dispatching refines the machine's step; it consumes an entry iff the frame is a response to it, and then delivers the frame's error with code and message, or its result, to that entry's invoke |
| `AgentConn.Shared.DrainPending` | crates/nexal-gateway/src/agent_conn.rs:282-287 | the drain loop empties the map and answers exactly the waiting invokes, whatever the order |
| `AgentConn.Shared.Close` | crates/nexal-gateway/src/agent_conn.rs:163-170 | closing marks the connection and drains |
| `AgentConn.RunInv` | crates/nexal-gateway/src/agent_conn.rs:130-231 | the invariant of every interleaving of invokes, frames, close and drain |
| `AgentConn.IdsAreUnique` | crates/nexal-gateway/src/agent_conn.rs:138-143 | two invokes never get the same request id |
| `AgentConn.DeliveredOnceToIssuer` | crates/nexal-gateway/src/agent_conn.rs:209-231 | at most one reply reaches an invoke, under its own id: `Closed`, or the error or result that a response frame with that id has in its own fields |
| `AgentConn.ReturnsOwnReply` | crates/nexal-gateway/src/agent_conn.rs:150-153 | an invoke returns `Closed`, or the error or result that a response frame with its own id has in its own fields |
| `AgentConn.ConsumedOnlyByResponse` | crates/nexal-gateway/src/agent_conn.rs:209-217 | a pending entry goes away iff the step is a drain or a frame with its id and no method |
| `AgentConn.NoReplyIsDropped` | crates/nexal-gateway/src/agent_conn.rs:145-153 | a registered invoke has no reply yet iff it is still in the map |
| `AgentConn.DrainAnswersRegistered` | crates/nexal-gateway/src/agent_conn.rs:282-287 | every invoke registered when the map is drained has a reply from then on, whatever follows |
| `AgentConn.AnsweredIffRegisteredBefore` | crates/nexal-gateway/src/agent_conn.rs:105-106 | with no frame and no drain after a drain, a registered invoke has its reply iff it had registered before that drain |
| `AgentConn.InvokeCanMissTheDrain` | crates/nexal-gateway/src/agent_conn.rs:135-153 | a concrete run: an invoke past the closed check inserts after the drain, its send succeeds, and it waits with no reply |
| `ChannelManager.Manager.DoReconcile` | src/channels/manager.ts:149-185 | a pass without a throw makes the running channels and the applied hashes exactly those of the load; a throw leaves the names before it done and the rest untouched |
| `ChannelManager.TurnKeeps` | src/channels/manager.ts:158-184 | one turn of the loop brings one more name to the load and keeps channels and hashes in agreement |
| `ChannelManager.LoadAsksFor` | src/channels/manager.ts:160-162 | which channels a load asks for: a stored bucket that is not null wins over the always-on default, and `build` must yield a channel; every other known name is recorded as off |
| `ChannelReconcile.AtRestReconciled` | src/channels/manager.ts:132-185 | when nothing runs, the last pass began at or after the last notification iff no rerun is left over, which needs a throw; after a completed pass the running channels, the map and the hashes are exactly those of the load |
| `ChannelReconcile.AtRestMatchesStore` | src/channels/manager.ts:132-185 | with every change announced and the load read, the running channels at rest are those of the stored config |
| `ChannelReconcile.AppliedAgrees` | src/channels/manager.ts:163-183 | in every reachable state the recorded hashes are those of the channels in the map, and until `stopAll` is called these are the running ones but for the one being stopped |
| `ChannelReconcile.AfterStopAll` | src/channels/manager.ts:116-129 | what runs once the pass has ended after a call of `stopAll` is exactly what the pass was about to start at the call, whether before or after the maps are emptied: something iff it was waiting for a channel to stop whose successor `build` yields |
| `ChannelReconcile.StopAllLeavesChannel` | src/channels/manager.ts:116-129 | a concrete run: the swap ends after the maps were emptied, and the new channel runs and is in the map |
| `ChannelReconcile.StopAllHidesChannel` | src/channels/manager.ts:168-178 | a concrete run: the swap ends before the maps are emptied, and the new channel runs with nothing referring to it |
| `ChannelReconcile.ThrowLosesWakeUp` | src/channels/manager.ts:139-146 | a concrete run in which a throwing build leaves a notification unserved |
| `SkillsTree.Mount` | crates/nexal-agent/src/fs/skills.rs:102-189 | the nested loops build the specified tree |
| `SkillsTree.MountFile` | crates/nexal-agent/src/fs/skills.rs:119-164 | the loop over the components of one file creates the missing directories and the file |
| `SkillsTree.Lookup` | crates/nexal-agent/src/fs/skills.rs:293-327 | lookup returns the first child with that name |
| `SkillsTreeProofs.MountedInv` | crates/nexal-agent/src/fs/skills.rs:102-189 | the finished tree satisfies the tree invariant and holds every listed file |
| `SkillsTreeProofs.OneSmallerParent` | crates/nexal-agent/src/fs/skills.rs:102-189 | every inode but the root is listed by exactly one directory, exactly once, with a smaller number |
| `SkillsTreeProofs.ListedResolves` | crates/nexal-agent/src/fs/skills.rs:293-327 | looking up a listed path component by component reaches a file with exactly that relative path |
| `SkillsTreeProofs.OnlyListedResolves` | crates/nexal-agent/src/fs/skills.rs:293-327 | what resolves to a file is listed, what resolves to a directory leads to a listed file |
| `SkillsTreeProofs.MountedFilesAreListed` | crates/nexal-agent/src/fs/skills.rs:124-181 | for any listing, every file of the tree has the path and size of a listed file, or is a SKILL.md of size 0 |
| `SkillsTreeProofs.AllResolveIffPrefixFree` | crates/nexal-agent/src/fs/skills.rs:102-189 | all listed paths can be opened iff no listed path is a proper prefix of another |
| `SkillsTreeProofs.PrefixHidesFile` | crates/nexal-agent/src/fs/skills.rs:117-164 | for any names, a skill that lists a file and a path below it: the second is listed and resolves to nothing |
| `ProxyRegistry.RegisterRefines` | crates/nexal-gateway/src/proxy/registry.rs:43-66 | registering sets exactly one key of the represented map and a replaced token stops resolving |
| `ProxyRegistry.UnregisterRefines` | crates/nexal-gateway/src/proxy/registry.rs:69-78 | unregistering drops exactly one key and its token |
| `ProxyRegistry.CleanupRefines` | crates/nexal-gateway/src/proxy/registry.rs:81-96 | cleanup drops exactly one agent's keys |
| `ProxyRegistry.LookupRefines` | crates/nexal-gateway/src/proxy/registry.rs:98-100 | a token resolves iff it is the token of a registered entry, and then to that entry |
| `ProxyRegistry.Registry.Register` | crates/nexal-gateway/src/proxy/registry.rs:43-66 | the in-place update keeps both maps inverse and sets the represented entry |
| `ProxyRegistry.Registry.Unregister` | crates/nexal-gateway/src/proxy/registry.rs:69-78 | removes the represented entry and says whether there was one |
| `ProxyRegistry.Registry.CleanupForAgent` | crates/nexal-gateway/src/proxy/registry.rs:81-96 | the loop removes and counts exactly the agent's entries |
| `ProxyRegistry.Registry.Lookup` | crates/nexal-gateway/src/proxy/registry.rs:98-100 | finds the represented entry with that token, if any |
| `ProxyRegistry.RunRefines` | crates/nexal-gateway/src/proxy/registry.rs:43-100 | through every run the two maps stay inverse and represent the plain map after the same actions |
| `ProxyRegistry.OldTokenIsDead` | crates/nexal-gateway/src/proxy/registry.rs:40-96 | a token whose key was registered again or unregistered, or whose agent was cleaned up, never resolves afterwards |
| `ProxyRegistry.TokenBelongsToKey` | crates/nexal-gateway/src/proxy/registry.rs:98-100 | a token that resolves gives the entry it was issued for |

## Left out

- Text decoding of chunks: the client decodes each chunk as UTF-8 on its own; the model works on bytes.
- Reuse of a process id after its entry is removed, and a shutdown that races a process still starting: late tasks write by id alone, and the model assumes ids are never reused.
- `EXITED_PROCESS_RETENTION`, the wake channel and the wait inside a read: a read is modelled at the moment it takes its answer.
- 64-bit overflow of sequence numbers, request ids, inode numbers, byte counts, hello time stamps and day numbers.
- TapeView.ApplyEditsIsView: overlapping spans have no declarative view; for them the any-target lemmas say what the loop does. An amendment with scattered targets also drops what lies between its first surviving and its highest target, so the view is stated with spans.
- TapeStore.IdsAreContiguous: the last statement of a transaction and its commit are one step. Deleting a tape, search and blob off-loading are not modelled.
- TapeCache.GetPage: the index cursor visits ids in order, as IndexedDB promises; a failing database, where reads return nothing, is not modelled. Ids are those of a log that is not reset while cached.
- StableJson.ArrangeIsCanonical: `localeCompare` is any total preorder; which keys a particular locale ties is not modelled. Lone surrogates in strings and values that are not JSON are left out.
- TapeEvents.RunHasNoRepeats: setters are serialized and their data are objects; two concurrent setters can both see the old record.
- DebounceTiming.QuietBeforeTimeout: the clock does not run back, the loop reads it once per collected message, and a timer never fires early; how late it fires is left to the schedule. The handler's failures are ignored, as the code does.
- HelloReplay.AcceptedIff: the signature check is a given predicate of the hello.
- AgentConn.RunInv: what happens to agent-initiated requests and notifications after they are recognized, and the transport, are left out.
- ChannelReconcile.AtRestReconciled: the start and stop of a channel are taken to end; a poll is a notification. `build` is a function of name and bucket, and `stopAll` is called once.
- SkillsTreeProofs.ListedResolves: skill names are distinct and have no slash. Attributes, reading, caching and the mount itself are left out.
- ProxyRegistry.Registry.Register: a generated token is one that was never issued before.
- The worker registry's concurrency cap, WebSocket reconnect, container backends, terminals and pipes, TLS, HTTP forwarding, the channels themselves, the user interface, config overlays and command parsing.
