# Verification model of Greenline's stateful cores

Greenline is a WhatsApp client made of a Go daemon, a Python store and event loop over a key-value
table, and a C++/JavaScript front end. This project models the parts of it that keep invariants over
whole runs, and proves those invariants with Dafny:

| files | what they model |
|---|---|
| `MessageRows`, `AliasIndex`, `Coalescing`, `MessageListModel` | the message list behind the conversation view: display order, the alias index over `id` and `temp_id`, row moves, three insertion paths, and the signals a view replays |
| `QmlEvents` | the Python coalescer of message updates, and that it is the list model's normalisation chat by chat |
| `AvatarQueue`, `AvatarOrder`, `AvatarWorker`, `AvatarRevisions`, `AvatarServing` | the avatar work queue with lazy deletion, the order it serves in, its interleaving with producers and the wake channel, and which requests and results are current |
| `EventLog`, `ChatSync`, `ConsumerFaults`, `ConsumerPasses` | the daemon's event table and the two consumers that read, handle, delete and persist a cursor |
| `PendingOutbox`, `OutboxRuns`, `OutboxTears`, `OutboxAttempts` | sending and retrying with tokens, outbox records and exponential backoff: the protocol, what holds of its runs, what is left of torn operations, and one attempt as the code makes it |
| `UnreadAccounting`, `UnreadCounts` | unread counts per chat and their stored total, receipts, reads and history sync |
| `KeyValue`, `MessagesPaging`, `ChangingHistory`, `StorageMigrations`, `MigrationRuns` | the ordered key-value table, cursor paging, the message history API, and migrations that page over the table they rewrite |
| `Joins`, `Decimals`, `HistorySync`, `HistoryBatches`, `HistoryReceipts`, `HistoryDuplicates` | storage keys, and the layered lookup of an imported conversation |
| `Utf16`, `SpanLists`, `MentionSpans`, `Composing`, `Mentions`, `StoredMentions` | mention spans in the composer (UTF-16 units) and in the store (code points), and that both agree |
| `Weaving`, `MentionTemplates`, `MentionRendering` | mention placeholders in stored text and their rendering |
| `TextOrder`, `ChatList`, `ChatUpdates` | the chat list, its index and the updates applied to it |
| `EventDispatcher` | the priority queue of timed events |
| `ConnectionHealth`, `HealthDecisions` | the keep-alive recovery state machine |
| `Options`, `Runs` | optional values, and the outcomes of runs |

What the source changes in place is a class here, with methods proved against functions on values;
what several threads or processes do to shared state is a step relation, with theorems over every run.

Some promises do not hold as one would state them. In each case the code is modelled as it is, one lemma
or several give an input or a run that shows it, and another says exactly when the code does meet the promise:

- A message whose `id` hits one list row and whose `temp_id` hits another leaves two rows sharing an
  alias (`BridgingBreaksDisjointness`). Sortedness and index soundness survive this; exactness and
  disjointness hold if and only if no message bridges (`ReplaceIsExact`, `UpdateAtIsExact`,
  `NormalizeIsExact`, `UpsertKnownIsExactUnlessBridged`).
- Stale entries make the avatar queue something else than first come, first served within a priority
  (`NotFirstComeFirstServed`): a newcomer passes a contact that waits if and only if an old entry of it
  stands before the other's first (`OvertakesExactlyByStaleEntry`).
- A plain request that joins one queued before a removal is taken for stale (`JoinedRequestIsStale`). A
  request leaves its contact's entry current if and only if it was forced, found nothing queued or joined
  one that was current (`RequestIsCurrentExactly`); over runs, requests and results are current if and only
  if the bumps after the step that took their revision are a multiple of 2^64 (`QueuedIsCurrentExactly`,
  `FreshResultsOnly`).
- The server may get a message more than once, and not only when an attempt breaks off: a call that runs out
  of time after the server accepted the message fails like any other and is made again (`AcceptedTwice`;
  `src/pending_outbox.py:347`, `src/rpc.py:46-62`, and `daemon/rpc.go:1015-1018`, which sends without an id
  that would tell the two apart). It gets one more than once exactly as `DeliveredTwiceExactly` says.
- An outbox record and a pending message do not always go together: the code commits them one after the other.
  They do if and only if no operation was torn, or the record left behind has been cleared
  (`MirrorsExactlyUnlessTorn`, `TimerClears`). A message whose queueing was torn is never sent
  (`TornMessageIsNeverSent`, `QueueingIsTorn`); one whose completion was torn is gone (`GoneExactly`).
- The waiting time of a message in the outbox may fall one delay short of the sum of its delays
  (`EarlySendFallsShort`), where its send event comes late and finds that the retry timer was there first;
  that can happen once per message (`EarlyAtMostOnce`, `BackoffAccumulates`). Before its first failure, it is
  sure to wait in full if and only if its send event is no longer to come (`WaitsInFullExactly`).
- Following the cursor of `get_messages` with a page size below one never ends, or fails at once, unless the
  size is zero and there is nothing to show (`ReaderFinishesExactlyForPositiveSizes`). A size of zero shows
  nothing and starts over, minus one fails, and smaller ones leave out the last rows and always promise more
  (`SizeZeroStartsOver`, `SizeMinusOneFails`, `NegativeSizeLeavesTheLast`).
- A history import overwrites a record of another chat that happens to sit under the exact key of a new
  message (`TakenKeyIsOverwritten`); importing a message loses nothing if and only if it has a record already
  or its exact key is free (`ImportKeepsRecordsExactly`, and `BatchKeepsRecordsExactly` for batches). Messages
  of two chats may share a storage key or an outbox token when a chat id contains a colon
  (`KeysOfTwoChatsMayCoincide`, `TokensMayCollide`), and which do is said exactly (`KeysCoincideExactly`, `TokensAgreeExactly`).
- Where the store has two records of one message, an import may leave its index entry leading to the one it did
  not write (`MissesRecord`): a scan made for another message files the last record it meets. The index leads to
  the record written, whatever the batch, if and only if there are no two (`IndexServesExactly`).
- A text that already contains a mention placeholder has it rendered as a name, in whatever script its number
  is written (`PlaceholderInText`), and one of too many digits makes rendering fail (`UnreadablePlaceholder`,
  `RenderFailsExactly`); rendering changes nothing but the tokens if and only if no placeholder in the text
  numbers one of the names or cannot be read (`RenderIsIdentityExactly`, `RenderOfTemplateExactly`).
- The dispatcher may trigger an event up to 999 microseconds before it is due (`FiresInItsMillisecond`): by
  its place in its millisecond, and not more (`EarlyByAtMostTheLead`). It never does if and only if the due
  instant is the first microsecond of its millisecond (`NeverEarlyExactlyAtStart`).
- A periodic event may be queued twice within its interval (`LateThenAtOnce`): its next date is counted from
  one reading of the clock, and it is queued with the next. The dates are more than the interval apart
  (`BeatsAreApart`), and the entries by that less what lies between the two readings, exactly
  (`DueApartExactly`).
- Looked at no more than d apart, d above zero, the daemon does not always give up within 45 s + 60 s + 2d of
  becoming unhealthy: it is sure to if and only if the first timeout was reported no later than 45 s + d and
  one nanosecond after the last success (`GivesUpWithinExactly`). The minute counts from the forced reconnect, and so never from before the first
  timeout (`GivesUpInTime`, `LateFirstTimeout`).

`dafny verify dfyconfig.toml` checks the whole project.

## Model

| member | source | states |
|---|---|---|
| `MessageRows.InsertIndex` | `plugin/messagemodel/messagelistmodel.cpp:243-255` | the display position of a message is just before the first row it precedes |
| `MessageRows.DisplayLaws` | `plugin/messagemodel/messagelistmodel.cpp:175-183` | `displayBefore` is a strict weak order: asymmetric, transitive, and compatible with ties on both sides |
| `Coalescing.SortedIsNewestFirst` | `plugin/messagemodel/messagelistmodel.cpp:175-183` | sorted rows stand newest first by `timestamp_unix`, and at one time by the larger of the identifiers, the server's or else the temporary one |
| `MessageRows.DisplayInsertIndex` | `plugin/messagemodel/messagelistmodel.cpp:243-255` | on sorted rows the binary search finds exactly the position the linear definition gives |
| `MessageRows.InsertKeepsSorted` | `plugin/messagemodel/messagelistmodel.cpp:243-255` | inserting there keeps the rows sorted and adds that one message |
| `MessageRows.PrependIsInsertAll` | `plugin/messagemodel/messagelistmodel.cpp:320-327` | the prepend fast path gives the same list as inserting its messages one by one |
| `MessageRows.AppendIsInsertAll` | `plugin/messagemodel/messagelistmodel.cpp:329-337` | so does the append fast path |
| `MessageRows.MoveAndOverwrite` | `plugin/messagemodel/messagelistmodel.cpp:288-312` | overwriting then moving a row, and moving then overwriting it, both equal removing and re-inserting |
| `MessageRows.SortMessages` | `plugin/messagemodel/messagelistmodel.cpp:314-318` | a batch is sorted into display order: a sorted permutation, nothing more is assumed of the sort |
| `AliasIndex.Find` | `plugin/messagemodel/messagelistmodel.cpp:230-241` | a found row is one that an alias of the message leads to, that of its id where the id is indexed; none is found only if no alias is indexed |
| `AliasIndex.IndexOfIsExact` | `plugin/messagemodel/messagelistmodel.cpp:257-269` | a rebuilt index is exactly the inverse of the row aliases if and only if no two rows share an alias |
| `AliasIndex.ReplaceKeepsSound` | `plugin/messagemodel/messagelistmodel.cpp:271-286` | replacing aliases never leaves an index entry that is out of range or leads to a row without the alias, whatever the message |
| `AliasIndex.ReplaceIsExact` | `plugin/messagemodel/messagelistmodel.cpp:271-286` | overwriting a row keeps index exactness and alias-disjointness if and only if the new aliases lead nowhere else |
| `AliasIndex.BridgesMeansNoFit` | `plugin/messagemodel/messagelistmodel.cpp:230-241` | for the row that `findMessageIndex` picks, fitting there is the same as not bridging two rows |
| `AliasIndex.NormalizeStep` | `plugin/messagemodel/messagelistmodel.cpp:185-228` | coalescing one message keeps the batch's index sound, with no assumption on the message |
| `AliasIndex.NormalizeStepIsExact` | `plugin/messagemodel/messagelistmodel.cpp:185-228` | one coalescing step keeps the batch disjoint and exactly indexed if and only if the message does not bridge two entries |
| `AliasIndex.NormalizeIsExact` | `plugin/messagemodel/messagelistmodel.cpp:185-228` | after every prefix of a batch the entries are exactly indexed if and only if no message bridges two entries in its turn |
| `Coalescing.MeetingMessage` | `plugin/messagemodel/messagelistmodel.cpp:185-228` | a message that meets a row takes its place with all its fields; its temporary id is its own if it has one, otherwise the row's; no other row changes |
| `Coalescing.NewMessage` | `plugin/messagemodel/messagelistmodel.cpp:185-228` | a message that meets no row becomes the last one as it is, and an empty one is passed over |
| `Coalescing.RowsAreMadeUp` | `plugin/messagemodel/messagelistmodel.cpp:185-228` | over a whole batch, a row has the fields of the last message coalesced into it, and its temporary id is the last that any of them had, none only if none had; every message but the empty ones is in a row |
| `MessageListModel.MoveSignals` | `plugin/messagemodel/messagelistmodel.cpp:288-312` | an emitted row move is legal for Qt (destination not the row itself nor the place behind it), and move plus change show the model's rows |
| `MessageListModel.UpdateAtIsConsistent` | `plugin/messagemodel/messagelistmodel.cpp:288-312` | updating a row keeps the list sorted and the index sound, and changes that one message only, for any message |
| `MessageListModel.UpdateAtIsExact` | `plugin/messagemodel/messagelistmodel.cpp:288-312` | an update keeps index exactness and disjointness if and only if the message's aliases lead to no other row |
| `MessageListModel.UpsertIsConsistent` | `plugin/messagemodel/messagelistmodel.cpp:68-91` | any upsert keeps the list sorted and the index sound, and adds exactly the messages that could not be placed |
| `MessageListModel.UpsertKnownIsExactUnlessBridged` | `plugin/messagemodel/messagelistmodel.cpp:68-91` | through the updates of any batch, disjoint or not, the index stays exact if and only if no message bridges two rows in its turn |
| `MessageListModel.UpsertIsExact` | `plugin/messagemodel/messagelistmodel.cpp:68-91` | without bridging, normalising and upserting keep rows pairwise alias-disjoint and the index exactly the inverse of the aliases |
| `MessageListModel.UpsertShowsBatch` | `plugin/messagemodel/messagelistmodel.cpp:68-91` | every message of a disjoint coalesced batch ends up as a row |
| `MessageListModel.UpdateAtKeepsOthers` | `plugin/messagemodel/messagelistmodel.cpp:288-312` | an update displaces no row that shares no alias with the message |
| `MessageListModel.BridgingBreaksDisjointness` | `plugin/messagemodel/messagelistmodel.cpp:271-286` | a concrete message whose id hits one row and temp_id another leaves the two rows sharing an alias |
| `MessageListModel.MessageListModel.constructor` | `plugin/messagemodel/messagelistmodel.cpp:5-8` | a new model is empty and valid |
| `MessageListModel.MessageListModel.Clear` | `plugin/messagemodel/messagelistmodel.cpp:41-51` | clearing leaves no row and no index entry; the signals so far still replay to the rows |
| `MessageListModel.MessageListModel.ResetMessages` | `plugin/messagemodel/messagelistmodel.cpp:53-66` | a reset shows a sorted permutation of the coalesced batch, with the index rebuilt |
| `MessageListModel.MessageListModel.UpsertMessages` | `plugin/messagemodel/messagelistmodel.cpp:68-91` | the new state is the old one with known messages updated and the others inserted; the unplaced ones are returned; replaying all signals gives the rows |
| `MessageListModel.MessageListModel.PatchMessage` | `plugin/messagemodel/messagelistmodel.cpp:98-121` | only fields that differ are written to the row found; nothing changes and `false` comes back when none does or no row is found |
| `MessageListModel.PatchedFieldByField` | `plugin/messagemodel/messagelistmodel.cpp:107-119` | every field of a patch has its value afterwards and every other field is as before |
| `MessageListModel.MessageListModel.UpdateMessageAt` | `plugin/messagemodel/messagelistmodel.cpp:288-312` | overwrites in place or moves the row, keeps sortedness, index soundness and the replay of all signals |
| `MessageListModel.MessageListModel.MoveRow` | `plugin/messagemodel/messagelistmodel.cpp:304-311` | the row is taken out and put in at its new place, the index is rebuilt, the signals replay to the rows |
| `MessageListModel.MessageListModel.InsertNewMessages` | `plugin/messagemodel/messagelistmodel.cpp:314-346` | each of the three insertion paths inserts the sorted messages one by one, with signals a mirror view can replay |
| `MessageListModel.MessageListModel.RebuildIndexes` | `plugin/messagemodel/messagelistmodel.cpp:257-269` | the loop over rows yields the index in which, of rows sharing an alias, the last one has it |
| `MessageListModel.MessageListModel.ReplaceAliasesAt` | `plugin/messagemodel/messagelistmodel.cpp:271-286` | entries of the previous aliases are dropped only where they lead to this row, the new ones are set |
| `MessageListModel.NormalizedMessages` | `plugin/messagemodel/messagelistmodel.cpp:185-228` | the coalescing loop computes the specification function |
| `MessageListModel.ApplyPatch` | `plugin/messagemodel/messagelistmodel.cpp:107-119` | the field loop yields the patched message and says whether it differs |
| `QmlEvents.CoalescePerChat` | `src/greenline/qml_events.py:62-90` | for every `chat_id`, the Python coalescer yields exactly what the C++ model's normalisation yields for the messages of that chat |
| `QmlEvents.CoalesceCommutesWithFilter` | `src/greenline/qml_events.py:62-90` | coalescing and then filtering by chat equals filtering and then coalescing |
| `QmlEvents.CoalesceMessageUpserts` | `src/greenline/qml_events.py:62-90` | the loop over the list and dictionary computes the coalesced rows |
| `AvatarQueue.EnqueueRefines` | `daemon/avatarsync/avatarsync.go:274-309` | on the map from contact to (max priority, any force) an enqueue is one coalescing update; the worker is told if and only if something queued has changed |
| `AvatarQueue.EnqueueAllRefines` | `daemon/avatarsync/avatarsync.go:255-272` | a batch of enqueues is the sequence of those updates; without a change nothing queued has changed |
| `AvatarQueue.NextJobRefines` | `daemon/avatarsync/avatarsync.go:311-335` | a job is returned if and only if one is queued; it has the highest priority and the coalesced force; that one request is removed and no other |
| `AvatarOrder.NextJobServesFirstLive` | `daemon/avatarsync/avatarsync.go:311-335` | the job served is the first entry of its list that is not stale, at the highest priority at which anything waits; lower lists are untouched |
| `AvatarOrder.DrainServesEach` | `daemon/avatarsync/avatarsync.go:311-335` | serving job after job serves exactly the contacts that are queued |
| `AvatarOrder.DrainFollowsFirstEntries` | `daemon/avatarsync/avatarsync.go:311-335` | of two contacts waiting at one priority the one whose first list entry stands earlier, even one left from an earlier request, is served earlier |
| `AvatarOrder.OvertakesExactlyByStaleEntry` | `daemon/avatarsync/avatarsync.go:274-335` | a contact newly requested at a priority, or raised to it from a lower one, is served before one already waiting there if and only if an entry left from an earlier request of it stands before the other's first |
| `AvatarOrder.NotFirstComeFirstServed` | `daemon/avatarsync/avatarsync.go:311-335` | a concrete run in which that happens |
| `AvatarRevisions.RequestIsCurrentExactly` | `daemon/avatarsync/avatarsync.go:274-309` | a request leaves its contact's entry current if and only if it was forced, found nothing queued, or joined an entry that was current |
| `AvatarRevisions.QueuedIsCurrentExactly` | `daemon/avatarsync/avatarsync.go:274-309` | over any run, a queued request is current if and only if the removals and forced requests for its contact, after the last step at which its revision was taken, number a multiple of 2^64; below that many, if and only if there were none |
| `AvatarRevisions.JoinedRequestIsStale` | `daemon/avatarsync/avatarsync.go:274-309` | a concrete run, with any priority, in which a request made after a removal is taken for stale |
| `AvatarQueue.Syncer.EnqueueLocked` | `daemon/avatarsync/avatarsync.go:274-309` | the map, lists and revisions become those of the specification, and the result says whether to signal |
| `AvatarQueue.Syncer.EnqueueBatch` | `daemon/avatarsync/avatarsync.go:255-272` | all contacts are enqueued; the wake channel holds a token afterwards if it did before or something changed |
| `AvatarQueue.Syncer.TakeNextJob` | `daemon/avatarsync/avatarsync.go:311-335` | the nested pop loops compute the specification's next job and remaining lists |
| `AvatarQueue.Syncer.BumpRevision` | `daemon/avatarsync/avatarsync.go:522-525` | the contact's 64-bit revision is incremented, wrapping, and returned |
| `AvatarQueue.Syncer.IsCurrentRevision` | `daemon/avatarsync/avatarsync.go:508-512` | says whether the contact's revision is the given one |
| `AvatarWorker.RunKeepsInvariant` | `daemon/avatarsync/avatarsync.go:111-166` | in every interleaving of producers, removals and the worker: lists cover the queue, revisions count bumps, no wake-up is lost |
| `AvatarWorker.WorkerIsNeverForgotten` | `daemon/avatarsync/avatarsync.go:142-154` | whenever the worker is blocked and a job is queued, the wake channel holds a token or a producer is between unlocking and signalling |
| `AvatarWorker.WorkerCanProceed` | `daemon/avatarsync/avatarsync.go:142-154` | from there at most three steps, none of them a new request, bring the worker to a job |
| `AvatarServing.EachEntryIsServedOnce` | `daemon/avatarsync/avatarsync.go:111-166` | over any run, a contact was served as often as it entered the queue, but for the one time it may still be there |
| `AvatarServing.WakesAreEarned` | `daemon/avatarsync/avatarsync.go:255-309` | over any run, the worker is woken no more often than an enqueue changed something |
| `AvatarServing.SeedIsServed` | `daemon/avatarsync/avatarsync.go:111-166` | the run in which the worker queues a contact at its start and comes to it |
| `AvatarServing.EntriesAreNeeded` | `daemon/avatarsync/avatarsync.go:274-309` | an enqueue adds a list entry if and only if the contact was not queued or waited at a lower priority |
| `AvatarRevisions.BumpsAreCounted` | `daemon/avatarsync/avatarsync.go:240-309` | the revision has been bumped once per removal and per forced request of the contact |
| `AvatarRevisions.FreshResultsOnly` | `daemon/avatarsync/avatarsync.go:508-520` | a result passes the revision check if and only if the bumps after the last step, before the job was served, at which its revision was taken are a multiple of 2^64; below that many, if and only if there were none |
| `EventLog.AfterIsSuffix` | `daemon/eventstore/eventstore.go:54-82` | in an ordered table the rows after an id are a suffix, exactly those with a larger id |
| `EventLog.ListingIsFirstRows` | `daemon/eventstore/eventstore.go:54-82` | a listing holds the first rows with a larger id, oldest first: as many as asked for, 100 if that is nothing, 500 at most, or all there are |
| `EventLog.ListingHolds` | `daemon/eventstore/eventstore.go:54-82` | a listing passes over no stored event between its first and its last |
| `EventLog.EventStore.Insert` | `daemon/eventstore/eventstore.go:43-52` | an event gets an id larger than any ever given and is appended |
| `EventLog.EventStore.List` | `daemon/eventstore/eventstore.go:54-82` | the rows after the id, oldest first, up to the clamped limit (100 by default, 500 at most) |
| `EventLog.EventStore.Delete` | `daemon/eventstore/eventstore.go:84-90` | exactly the rows up to the id are removed; ids are not given again |
| `ChatSync.RunIsSafe` | `src/greenline/events/chat_sync.py:27-63` | the safety invariant of log, cursor and both consumers holds in every interleaving with aborts at any point |
| `ChatSync.NoEventIsLost` | `src/greenline/events/chat_sync.py:27-63` | every issued event is still stored or was handled, and everything at or below the persisted cursor was handled, also when a stale consumer moved the cursor back |
| `ChatSync.ListIsSafe` | `src/greenline/events/chat_sync.py:84-95` | what a listing leaves out below its last id had been handled |
| `ChatSync.DeleteIsSafe` | `src/greenline/events/chat_sync.py:57-63` | deleting a prefix loses no unhandled event |
| `ChatSync.ExactlyOnceInOrder` | `src/greenline/events/chat_sync.py:76-146` | one consumer that never stops half way handles the issued events each once and in order, and all of them when a listing comes back empty |
| `ConsumerPasses.UninterruptedPass` | `src/greenline/events/chat_sync.py:27-63` | from any state in which a consumer is idle, the steps of one pass are a run: the events listed are handled in order, the table loses them and the cursor moves to the last; the app goes on after a full batch |
| `ConsumerPasses.PassAfterAbort` | `src/greenline/events/chat_sync.py:27-63` | wherever a consumer broke off, starting again it makes a whole pass |
| `ConsumerPasses.RunGoesOn` | `src/greenline/events/chat_sync.py:27-63` | so any run, wherever it stands, may go on with a consumer breaking off and making a whole pass |
| `ChatSync.RestAfterBatch` | `src/greenline/events/chat_sync.py:84-135` | deleting up to the end of a batch leaves exactly what the batch did not list, and less than before |
| `ChatSync.EventLoop.ProcessEventsOnce` | `src/greenline/events/chat_sync.py:27-63` | a prefix of the batch is handled; rows are deleted and the cursor moves only if the whole batch was and the deletion succeeded |
| `ConsumerFaults.WhatFaultsDo` | `src/greenline/events/chat_sync.py:27-63` | without a fault a batch is handled whole; a handler that raises leaves its event and those after it; rows are deleted only after a whole batch that is not empty |
| `ChatSync.EventLoop.HandleOneBatch` | `src/greenline/events/chat_sync.py:84-135` | after one round what was handled and what is left make up what there was |
| `ChatSync.EventLoop.DoTrigger` | `src/greenline/events/chat_sync.py:76-146` | the pass ends and has handled, in order, every event stored after the cursor |
| `Joins.JoinsAgreeExactly` | `src/pending_outbox.py:54-59` | two pairs of texts joined by a colon share a name if and only if they are the same pair, or one is the other with a colon of its first text taken for the joint |
| `PendingOutbox.TokensAgreeExactly` | `src/pending_outbox.py:54-59` | two messages share a token if and only if they are the same, or one chat's name goes on after the other's and a colon with what makes up the difference |
| `PendingOutbox.TokensDiffer` | `src/pending_outbox.py:54-59` | so tokens of messages in chats without a colon are equal only for equal messages |
| `PendingOutbox.TokensMayCollide` | `src/pending_outbox.py:54-59` | with a colon in a chat's name two messages may share a token |
| `PendingOutbox.DelayIsBelowCap` | `src/pending_outbox.py:173-190` | the n-th delay is 2^min(n-1,5) seconds; the 300 s cap never takes effect |
| `PendingOutbox.TotalDelayFormula` | `src/pending_outbox.py:173-190` | n delays add up to 2^n-1 for n up to 6 and 63+32(n-6) after |
| `PendingOutbox.RunKeepsInvariant` | `src/pending_outbox.py:136-405` | tokens, stored states, outbox records, deliveries and waiting times stay in step in every interleaving of send events, timer ticks, crashes and operations torn between commits, also where calls fail that the server accepted |
| `PendingOutbox.OutboxMirrorsPending` | `src/pending_outbox.py:136-203` | an outbox record exists exactly when the stored message is pending, unless an operation on it was torn between two commits; each message is completed at most once, and a queued one is gone exactly when it was, or a torn completion lost it |
| `OutboxTears.MirrorsExactlyUnlessTorn` | `src/pending_outbox.py:136-203` | over any run, with crashes between the commits of queueing, marking as failed and completing: record and pending message go together if and only if the queueing was not torn and no torn settling left a record behind that no attempt has cleared since |
| `OutboxTears.GoneExactly` | `src/pending_outbox.py:299-317` | a queued message is gone from the store if and only if it was completed or a step of the run tore its completion |
| `OutboxTears.TornMessageIsNeverSent` | `src/pending_outbox.py:136-151` | a message whose queueing was torn stays pending in every continuation, without a record, and the server never gets it |
| `OutboxTears.TimerClears` | `src/pending_outbox.py:334-339` | a record left behind is cleared by the first attempt the timer makes on it |
| `OutboxTears.CrashLeavesTheTimer` | `src/pending_outbox.py:357-405` | a crash loses the send event, and a message that has not failed yet then waits in full, however the run goes on |
| `PendingOutbox.SettledIsFinal` | `src/pending_outbox.py:193-203` | sent and failed are terminal |
| `OutboxRuns.DeliveriesAreCounted` | `src/pending_outbox.py:341-349` | the deliveries counted are the calls of the run that the server accepted, whatever the answer |
| `OutboxRuns.UnrecordedAreCounted` | `src/pending_outbox.py:299-354` | the deliveries left unrecorded are the steps of the run at which an accepted call failed all the same, or an attempt broke off before recording it or while doing so |
| `OutboxRuns.DeliveredTwiceExactly` | `src/pending_outbox.py:341-354` | the server accepts a message more than once if and only if two steps of the run left an acceptance unrecorded, or one did and another acceptance was recorded or is about to be; if none did, once at most |
| `OutboxRuns.AcceptedTwice` | `src/rpc.py:46-62` | a run in which a call accepted but answered too late is made again and accepted again, with no attempt broken off |
| `OutboxRuns.EarlyAtMostOnce` | `src/pending_outbox.py:357-380` | a message's send event, fired once, is the only way to begin an attempt on a record not yet due: in a run this happens at most once per message |
| `OutboxRuns.WaitsInFullExactly` | `src/pending_outbox.py:357-405` | from any reachable state in which no failure of the message is recorded yet: in every continuation the next attempt after n failures is due all n delays after the first failure, if and only if the message's send event is no longer to come |
| `OutboxRuns.BackoffAccumulates` | `src/pending_outbox.py:173-190` | over any run, after n failures the next attempt is due a full delay after the last, and never less than n-1 delays after the first; n delays unless the send event came early |
| `OutboxRuns.EarlySendFallsShort` | `src/pending_outbox.py:357-405` | a run in which the wait does fall short: two failures at once, and the next attempt due after two seconds, not three |
| `OutboxAttempts.UninterruptedAttempt` | `src/pending_outbox.py:323-354` | left alone, the steps of the protocol lead to what the code of one attempt computes |
| `OutboxAttempts.AttemptByOutcome` | `src/pending_outbox.py:323-354` | what one attempt does to message, record and token for each outcome, and that no other message or record changes; the delay is 2^n seconds, 32 at most |
| `OutboxAttempts.Outbox.StorePendingMessage` | `src/pending_outbox.py:136-151` | the message is stored as pending together with a fresh outbox record |
| `OutboxAttempts.Outbox.BeginPendingSend` | `src/pending_outbox.py:154-160` | the token is taken unless it is held; the result says which |
| `OutboxAttempts.Outbox.SchedulePendingRetry` | `src/pending_outbox.py:173-190` | the record counts one attempt more and is due a delay later |
| `OutboxAttempts.Outbox.AttemptPendingSend` | `src/pending_outbox.py:323-354` | store and result after one attempt, by outcome; the token is released on every path |
| `UnreadAccounting.UpsertKeepsAccounts` | `src/greenline/store/messages.py:470-546` | storing a message raises the chat's count and the total together, by one or not at all |
| `UnreadCounts.StoredMessageCounts` | `src/greenline/store/messages.py:470-546` | a message that is incoming, new and not older than its chat raises the chat's count and the total by one and is the first unread one if there was none; for any other message none of the three moves; other chats stay |
| `UnreadCounts.StoredMessageShows` | `src/greenline/store/messages.py:483-530` | the chat takes its time from a message that is not older, and the receipt of an outgoing one |
| `UnreadCounts.EditedMessage` | `src/greenline/store/messages.py:629-715` | an edit or deletion rewrites a stored record without counting, and makes a chat only where there is none |
| `UnreadCounts.OutgoingMessage` | `src/pending_outbox.py:136-151` | a message queued for sending, and one completed, is stored under its key and counts nowhere |
| `UnreadCounts.UnreadIsCounted` | `src/greenline/store/messages.py:470-741` | over any run, a chat's count is what the last sync or clearing left plus the number of messages that counted since |
| `UnreadCounts.CountsOnce` | `src/greenline/store/messages.py:708-715` | over any run, however often a message is delivered, there is at most one step at which it counts |
| `UnreadCounts.CountedIsCounted` | `src/greenline/store/messages.py:470-546` | the count remembered of a message is the number of steps of the run at which it counted |
| `UnreadCounts.TwoAndOneAgain` | `src/greenline/store/messages.py:483-546` | a run of two new messages and the first again: two are unread, and the first is named |
| `UnreadCounts.RememberedChat` | `src/greenline/store/identity.py:315-364` | a contact or group that becomes known has a chat, an empty one if it had none |
| `UnreadAccounting.ClearKeepsAccounts` | `src/greenline/api/messages.py:376-385` | clearing a chat takes exactly its count off the total |
| `UnreadAccounting.ReceiptKeepsAccounts` | `src/receipt_store.py:67-105` | receipts keep total and counts in step, whether or not they clear a chat |
| `UnreadAccounting.SyncAllKeepsSound` | `src/history_sync.py:579-673` | conversations of a history sync keep a named first unread message backed by a positive count |
| `UnreadAccounting.TotalIsTheSum` | `src/greenline/store/messages.py:470-741` | over any run with redeliveries `unread_total` is the sum of the chats' counts, a named first unread message implies a positive count, and no message raises a count twice |
| `UnreadAccounting.FloorIsNeverMet` | `src/unread_counter.py:15-24` | the clamp at zero never takes effect when a chat is cleared |
| `UnreadAccounting.ReceiptsNeverGoBack` | `src/receipt_store.py:26-64` | receipts of messages and chats only move forward, and only those of the named messages move |
| `UnreadCounts.ReceiptMovesMessages` | `src/receipt_store.py:46-64` | a receipt moves each stored message it names to the later of the two states, and no other |
| `UnreadCounts.ReceiptMovesChat` | `src/receipt_store.py:67-105` | a read receipt for incoming messages clears its chat and takes the count off the total; a receipt from the other side moves the chat's own |
| `UnreadCounts.OpenedChatIsRead` | `src/greenline/api/messages.py:351-385` | opening a chat makes the incoming ones of the named messages read and clears count, first unread and its share of the total |
| `UnreadAccounting.SliceIsLatest` | `src/history_sync.py:368-391` | the unread slice of a conversation is the latest countable messages, as many as the server counts or all of them, earliest first |
| `UnreadCounts.SyncedChat` | `src/history_sync.py:368-391` | a synced chat has the server's count, not below zero, and names the earliest, by time and then id, of its unread messages, which are the latest countable ones |
| `UnreadCounts.SyncedChatShows` | `src/history_sync.py:579-673` | its time and receipt are those of its latest message unless it has seen a later one |
| `UnreadAccounting.MessageStore.IncrementUnreadTotal` | `src/unread_counter.py:15-24` | the total moves by the amount and stops at zero |
| `UnreadAccounting.MessageStore.ReconcileUnreadTotal` | `src/unread_counter.py:27-32` | the loop over chats sets the total to the sum of their counts |
| `UnreadAccounting.MessageStore.Upsert` | `src/greenline/store/messages.py:470-546` | chat, total and count history become those of the specification |
| `UnreadAccounting.MessageStore.StoreEvent` | `src/greenline/store/messages.py:649-715` | a redelivered message is stored again without counting again |
| `UnreadAccounting.MessageStore.MarkMessagesAsRead` | `src/greenline/api/messages.py:351-385` | incoming messages become read, the chat's count is cleared and taken off the total |
| `KeyValue.GetAfterPut` | `src/ut_components/kv.py:108-225` | a read sees the last write to its key and nothing of writes to others |
| `KeyValue.GetAfterDelete` | `src/ut_components/kv.py:351-381` | after a deletion its key reads as absent and no other key changes |
| `KeyValue.NextPage` | `src/ut_components/kv.py:326-349` | with the last key of a page as cursor exactly the rows of the page are no longer to be read, in both directions and for any key predicate |
| `KeyValue.PageIsFirstRows` | `src/ut_components/kv.py:326-349` | a page holds the first rows left, as many as asked for or all; it has a cursor, its last key, if and only if it is full |
| `KeyValue.RowsLeft` | `src/ut_components/kv.py:326-349` | left to read are the matching rows past the cursor: above it, or below it in reverse |
| `TextOrder.LessIsLexicographic` | `src/ut_components/kv.py:326-349` | keys are ordered code unit by code unit: a text comes before another if it is its beginning or has the smaller unit where they first differ |
| `KeyValue.ReadAllIsComplete` | `src/ut_components/kv.py:326-349` | page after page, every matching row is visited once and in order, and the reading ends |
| `KeyValue.KV.PutRow` | `src/ut_components/kv.py:108-154` | the row is written in key order, replacing the old one |
| `KeyValue.KV.GetRow` | `src/ut_components/kv.py:156-225` | reads the committed rows only |
| `KeyValue.KV.PutCached` | `src/ut_components/kv.py:456-498` | the row goes to the cache and no read sees it |
| `KeyValue.KV.CommitCached` | `src/ut_components/kv.py:500-545` | all cached rows are written in order, the later of two writes prevailing, and the cache is empty |
| `MessagesPaging.ResponseIsNextRows` | `src/greenline/api/messages.py:284-294` | each response holds the next rows; `has_more` is set exactly when more are left, and then the cursor leads on to them |
| `MessagesPaging.HistoryIsComplete` | `src/greenline/api/messages.py:284-294` | through the look-ahead of one, the history is read in descending order of keys, each row once |
| `ChangingHistory.StayingRowsAreReadOnce` | `src/greenline/api/messages.py:284-294` | while rows come and go between the responses, a reader who comes to the end has read in strictly descending order of keys, no key twice, only rows that were there, and every key that was there throughout |
| `MessagesPaging.ReaderFinishesExactlyForPositiveSizes` | `src/greenline/api/messages.py:284-294` | for all rows, patterns, cursors and integer sizes, a reader following the cursor finishes if and only if the size is positive, or zero with nothing left; what a finished reader has is exactly the rows left |
| `MessagesPaging.SizeZeroStartsOver` | `src/greenline/api/messages.py:284-294` | a size of zero shows nothing, says whether rows are left, and sends the reader back to the start |
| `MessagesPaging.SizeMinusOneFails` | `src/ut_components/kv.py:326-349` | a size of minus one always fails on the last row of an empty page |
| `MessagesPaging.NegativeSizeLeavesTheLast` | `src/greenline/api/messages.py:284-294` | a smaller size shows all rows left but the last so many, and always promises more |
| `StorageMigrations.CommitStripsPage` | `src/greenline/storage_migrations.py:40-64` | committing the cached rewrites of a page strips exactly the rows of the page |
| `StorageMigrations.PageCovers` | `src/greenline/storage_migrations.py:40-64` | no matching row falls between two pages although the table is rewritten meanwhile |
| `StorageMigrations.PageProgress` | `src/greenline/storage_migrations.py:21-64` | a page brings the table nearer to the migrated one and never off the way there; the last page completes it |
| `StorageMigrations.RestartsAreHarmless` | `src/greenline/storage_migrations.py:67-83` | however often a run is cut off at a page or version step and restarted, the final table is the one an uninterrupted run gives: the first table without the fields of all migrations after its version, field by field |
| `MigrationRuns.RestartFinishes` | `src/greenline/storage_migrations.py:67-83` | wherever a run was cut off, a new start left alone comes to the last version, the table having lost the fields of all migrations since the first start and nothing else |
| `StorageMigrations.TargetLosesFields` | `src/greenline/storage_migrations.py:10-64` | from version 0 or 1 on, `images`, `reply_to_sender`, `sender_name` and `sender_photo` go, from version 2 the last three, and nothing else |
| `StorageMigrations.RemoveFields` | `src/greenline/storage_migrations.py:21-64` | every matching record loses the named fields and keeps every other field with its value; what is no record, rows that do not match, and all keys stay |
| `StorageMigrations.RunStorageMigrations` | `src/greenline/storage_migrations.py:67-83` | all versions after the stored one are applied in order, so that the gallery and legacy fields are gone and nothing else has changed; a newer stored version is refused and nothing is touched |
| `Decimals.ParseOfPrint` | `src/greenline/store/repository.py:23-28` | reading back a printed number gives the number |
| `HistorySync.KeysOfOneChat` | `src/greenline/store/repository.py:23-28` | within a chat, storage keys of different (timestamp, id) differ |
| `HistorySync.LookupIsFullScan` | `src/history_sync.py:474-503` | batch map, index, exact key and lazy scan together find a message exactly when a full scan of the chat or the batch so far has it, whatever keys are taken |
| `HistorySync.ImportAddsNoDuplicates` | `src/history_sync.py:427-576` | after the commit no (chat, id) has gained a second record, old records differ at most in their receipt and only if named, and the index leads to every message of the batch |
| `HistoryReceipts.BatchIsWritten` | `src/history_sync.py:503-576` | after the commit each message of a batch has a record with the receipt the batch names last for it and, if it is new, with the time and content that the batch names first |
| `HistoryReceipts.IndexedIsWritten` | `src/history_sync.py:503-576` | where the store has no two records of the message, the record its index entry leads to is that one |
| `HistoryDuplicates.IndexServesExactly` | `src/history_sync.py:474-510` | where records stand under their own keys: whatever the batch and the order of the scan, the index leads to the record written if and only if the store has no two records of the message |
| `HistoryDuplicates.MissesRecord` | `src/history_sync.py:474-510` | a batch of a known and an unknown message after which the index leads to the duplicate that was not written |
| `HistoryReceipts.StaleEntryIsDropped` | `src/greenline/store/repository.py:49-73` | an index entry that does not lead to a record of the message is deleted when the message is looked for, and any other stays |
| `HistorySync.LookupStoreFinds` | `src/history_sync.py:476-500` | the chain behind the batch map finds an entry exactly when some record of the chat is the message, and afterwards the index leads to it |
| `HistorySync.ImportKeepsRecordsExactly` | `src/history_sync.py:569-576` | importing one message, in any store, keeps every stored record if and only if it has a record already or its exact key is not taken by another |
| `HistoryBatches.BatchKeepsRecordsExactly` | `src/history_sync.py:427-576` | where records stand under their own keys, importing a batch keeps every stored record if and only if each message, when it first comes up, has a record already or its exact key is free |
| `HistorySync.KeysCoincideExactly` | `src/greenline/store/repository.py:23-28` | two messages share a storage key if and only if they are the same, or one chat id goes on after the other's and a colon with what makes up the difference |
| `HistorySync.KeysOfTwoChatsMayCoincide` | `src/greenline/store/repository.py:23-24` | with a colon in a chat id two chats may share a storage key |
| `HistorySync.TakenKeyIsOverwritten` | `src/history_sync.py:569-576` | a message nobody has takes its exact key, and a foreign record under that key is lost |
| `HistorySync.ProcessMessages` | `src/history_sync.py:427-576` | the loop over messages computes table, cache and local maps of the specification |
| `Utf16.SliceEncodes` | `src/greenline/store/mentions.py:54-72` | a slice between two code points encodes to the units between their offsets |
| `Utf16.UnitsDecode` | `src/greenline/store/mentions.py:54-61` | the units of a code point decode to it: one unit below 0x10000, a high and a low surrogate above |
| `Utf16.BeginsCodePoint` | `src/greenline/store/mentions.py:54-61` | a unit that is no low surrogate begins a code point |
| `Utf16.ReadsBack` | `src/greenline/store/mentions.py:64-72` | where the encoding of a text goes on with that of another, the text goes on with it |
| `SpanLists.KeptAreSeparated` | `qml/lib/MentionHelpers.js:65-79` | the spans kept are in order and none reaches into the next |
| `SpanLists.DroppedOverlap` | `qml/lib/MentionHelpers.js:65-79` | a span is dropped only if it starts inside one that was kept |
| `SpanLists.SortByStartIsStable` | `qml/lib/MentionHelpers.js:59-64` | sorting leaves spans that start at one place in the order given |
| `MentionSpans.ValidateIsValid` | `qml/lib/MentionHelpers.js:24-81` | validation keeps only given spans that read "@label" between boundary characters, apart and in order, and drops such a span only for one it starts inside |
| `Composing.AcceptsExactly` | `qml/lib/MentionHelpers.js:24-63` | a span is accepted if and only if the text reads "@" and its label there and no ASCII letter, digit or underscore stands beside it |
| `MentionSpans.CommonPrefix` | `qml/lib/MentionHelpers.js:87-89` | the prefix is the longest on which old and new text agree |
| `MentionSpans.CommonSuffix` | `qml/lib/MentionHelpers.js:91-93` | the suffix is the longest agreement from the end that does not reach into the prefix |
| `MentionSpans.SurvivorsReadTheSame` | `qml/lib/MentionHelpers.js:83-111` | for any edit and any spans, a surviving span comes from one with the same label at a place where the old text read it too, clear of the change |
| `MentionSpans.EditKeepsUntouched` | `qml/lib/MentionHelpers.js:83-111` | for spans valid before, the result is exactly the untouched ones, shifted, whose boundary characters still qualify |
| `Composing.EditedMentions` | `qml/lib/MentionHelpers.js:83-111` | a span is there after an edit if and only if it comes, moved along, from one before or after the change, and no ASCII letter, digit or underscore has come to stand beside it |
| `MentionSpans.InsertKeepsOthers` | `qml/lib/MentionHelpers.js:144-184` | with the position of the active mention, insertion keeps all spans left of it, the new one and all right of the cursor shifted, and the result is valid |
| `Composing.InsertedTextReads` | `qml/lib/MentionHelpers.js:144-184` | the text becomes what stood before, "@", the label, a blank, and what stood after the cursor; the cursor stands behind the blank |
| `Composing.InsertedMentions` | `qml/lib/MentionHelpers.js:144-184` | the spans are then exactly the new one, those that end before it, and those that begin after the cursor, moved along |
| `MentionSpans.ActiveMentionBegins` | `qml/lib/MentionHelpers.js:113-142` | an active mention begins at an "@" before the cursor, at the start or after white space |
| `Composing.ActiveMentionExactly` | `qml/lib/MentionHelpers.js:113-125` | a mention is being typed if and only if the last "@" before the cursor begins the text or follows white space and no white space stands between; the query is what stands between |
| `MentionSpans.ValidateMentionSpans` | `qml/lib/MentionHelpers.js:24-81` | the three loops compute the validated spans |
| `MentionSpans.UpdateMentionSpansForEdit` | `qml/lib/MentionHelpers.js:83-111` | the loops over prefix, suffix and spans compute the updated spans |
| `Mentions.BoundaryMapFinds` | `src/greenline/store/mentions.py:54-61` | an offset in the boundary map is the offset of the code point it maps to |
| `Mentions.BoundaryMapHas` | `src/greenline/store/mentions.py:54-61` | every code point's offset is in the map and maps to it |
| `Mentions.Utf16BoundaryMap` | `src/greenline/store/mentions.py:54-61` | the loop over characters computes the map |
| `Mentions.AcceptedCovers` | `src/greenline/store/mentions.py:64-86` | an accepted span's code-point slice is "@label" and encodes to exactly the units the span counts |
| `StoredMentions.AcceptsExactly` | `src/greenline/store/mentions.py:64-86` | a span is accepted if and only if it covers whole code points that read "@" and its name, with no letter, digit or underscore of any script beside them |
| `Mentions.AcceptedByBoth` | `src/greenline/store/mentions.py:64-86` | a span is accepted in Python if and only if the JS per-span checks pass on the encoded text and no letter or digit of any script stands beside it |
| `Mentions.ValidateIsValid` | `src/greenline/store/mentions.py:131-179` | whatever comes in, the validated spans are accepted, sorted and disjoint |
| `StoredMentions.ValidatedMentions` | `src/greenline/store/mentions.py:131-179` | validated are exactly the spans kept whose identity has a canonical form, under that form; kept are accepted spans, apart, and one left out starts inside one kept |
| `Mentions.TransportKeepsTheRest` | `src/greenline/store/mentions.py:182-211` | written and sent text are the same gaps woven with the mentions and with their transport tokens |
| `Mentions.Assemble` | `src/greenline/store/mentions.py:192-211` | the loop over spans computes text and mentions sent |
| `Mentions.MentionTransportPayload` | `src/greenline/store/mentions.py:182-211` | for any text and spans, what is sent keeps everything outside the replaced spans |
| `StoredMentions.SentMentions` | `src/greenline/store/mentions.py:182-211` | sent are exactly the spans kept whose identity has a canonical form and a token, in order |
| `StoredMentions.PiecesRead` | `src/greenline/store/mentions.py:196-206` | what stands between the gaps is "@" and the name in the text written, and the token of the identity in the text sent |
| `MentionTemplates.MatchesAreTokens` | `src/greenline/store/mentions.py:17-17` | the matches are tokens as long as they go, and every token begins inside a match |
| `MentionTemplates.MatchesReadAsTokens` | `src/greenline/store/mentions.py:17-17` | the matches are the runs of "@", a digit, and all of 0-9 A-Z a-z : . _ - up to the next other character; they lie one after the other, and every "@" before a digit lies in one |
| `MentionTemplates.TemplateMentionText` | `src/greenline/store/mentions.py:214-235` | the loop replaces the i-th match by placeholder i, or returns the text and no one when the counts differ |
| `MentionRendering.RenderOfWeave` | `src/greenline/store/mentions.py:238-248` | for any text, replacing works on the gaps and on the placeholders between them each for itself |
| `MentionRendering.RenderPlaceholder` | `src/greenline/store/mentions.py:238-248` | placeholder i is replaced by "@" and the i-th name, or stays as it is when there is no such name, whatever follows |
| `MentionRendering.RenderFailsExactly` | `src/greenline/store/mentions.py:238-248` | rendering fails if and only if there are names and somewhere in the text stands a placeholder of more than 4300 digits |
| `MentionRendering.RenderIsIdentityExactly` | `src/greenline/store/mentions.py:238-248` | rendering leaves a text as it is if and only if there are no names, or nowhere in it stands a placeholder, in digits of any script, that numbers a name or cannot be read |
| `MentionRendering.RenderOfTemplateExactly` | `src/greenline/store/mentions.py:214-248` | rendering a templated text puts "@" and the i-th name for the i-th token and changes nothing else if and only if no placeholder that numbers a name or cannot be read stands in the text (and the number of people has at most 4300 digits) |
| `MentionRendering.RenderOfTemplate` | `src/greenline/store/mentions.py:214-248` | which is so where the text does not contain the placeholder's start character |
| `MentionRendering.RenderUndoesTemplate` | `src/greenline/store/mentions.py:214-248` | where every name equals its token's body, rendering undoes the template on the same condition |
| `MentionRendering.PlaceholderInText` | `src/greenline/store/mentions.py:18-23` | a text that already holds a placeholder, its number written with a one of any script, has it shown as a name as well |
| `MentionRendering.UnreadablePlaceholder` | `src/greenline/store/mentions.py:238-248` | a text on which rendering fails whoever is mentioned: a placeholder of 4301 digits |
| `ChatList.SortedListingIsUnique` | `qml/lib/ChatHelpers.js:167-176` | there is one sorted list of given chats with distinct ids |
| `ChatUpdates.SortedIsNewestFirst` | `qml/lib/ChatHelpers.js:167-176` | sorted chats stand newest first by `last_message_timestamp`, zero where there is none, and at one time by id |
| `ChatList.InsertChatSorted` | `qml/lib/ChatHelpers.js:178-187` | the chat goes before the first chat it comes before |
| `ChatList.RefreshChatIndexes` | `qml/lib/ChatHelpers.js:199-201` | from positions right up to the start given, the whole index becomes right |
| `ChatList.ApplyUpdate` | `qml/lib/ChatHelpers.js:209-248` | one update changes the id-to-chat map as it says, the index gives the true positions, order is kept, and `changed` is set exactly when the list differs |
| `ChatList.ApplyChatListUpdates` | `qml/lib/ChatHelpers.js:203-255` | from a sorted list with distinct ids the result is the sorted listing of the final id-to-chat map; without `changed` it is the list given |
| `ChatList.ResultIsUnique` | `qml/lib/ChatHelpers.js:203-255` | that result is the only list of this kind |
| `ChatList.BatchesConcat` | `qml/lib/ChatHelpers.js:203-255` | two batches in turn come to the same list as their concatenation |
| `ChatList.OwnUpdatesOnly` | `qml/lib/ChatHelpers.js:209-248` | what becomes of a chat is told by the updates that name it alone |
| `ChatList.DraftsSurvive` | `qml/lib/ChatHelpers.js:189-197` | while no update moves a chat out of the list its draft stays; a chat that comes in has none |
| `ChatList.LatestUpdateIsShown` | `qml/lib/ChatHelpers.js:209-248` | after a batch, a chat is listed if and only if its last update belongs there, and shows that update's fields up to field equality |
| `ChatUpdates.LastUpdateDecides` | `qml/lib/ChatHelpers.js:203-255` | the last update of a batch decides by its `archived` field whether its chat is listed; its fields are shown, and no others unless the chat stays as it was; no other chat changes |
| `ChatUpdates.ValuesAgreeExactly` | `qml/lib/ChatHelpers.js:157-165` | two fields agree if and only if they are the same, or one is null and the other counts as nothing |
| `EventDispatcher.RunKeeps` | `src/ut_components/event.py:338-428` | order, numbering and conservation hold after every run of schedules, periodic enqueues, triggers and registrations |
| `EventDispatcher.TriggeredInOrder` | `src/ut_components/event.py:338-428` | triggers happen in strictly increasing (due millisecond, number) order, none before its due millisecond, and every scheduled event is triggered once or still queued, even when a trigger raises |
| `EventDispatcher.EarlyByAtMostTheLead` | `src/ut_components/event.py:338-428` | what is due at an instant is never triggered earlier than a given time before it, in any run, if and only if that time is at least the instant's place in its millisecond: at most 999 microseconds |
| `EventDispatcher.NeverEarlyExactlyAtStart` | `src/ut_components/event.py:338-428` | over all runs, it is never triggered early if and only if its due microsecond is the first of its millisecond |
| `EventDispatcher.FiresInItsMillisecond` | `src/ut_components/event.py:338-428` | a run that schedules an event and triggers it at any instant of the due millisecond, before it is due |
| `EventDispatcher.BeatsAreApart` | `src/ut_components/event.py:395-400` | over any run, unregistering and registering again included, the next dates of an event are set more than its interval apart; the entries queued are due apart by that less the time between setting and queueing; each was triggered or is still queued |
| `EventDispatcher.DueApartExactly` | `src/ut_components/event.py:384-400` | over all runs with that time at most a given lag, two beats are due at least a given gap apart if and only if the gap is no more than interval + 1 - lag microseconds, or zero: no larger bound holds |
| `EventDispatcher.LateThenAtOnce` | `src/ut_components/event.py:384-400` | the run that reaches the bound, for every interval and lag |
| `EventDispatcher.Dispatcher.ScheduleEvent` | `src/ut_components/event.py:341-392` | one entry with the due millisecond and the next number is added, or nothing for an unknown event |
| `EventDispatcher.Dispatcher.EnqueueEvent` | `src/ut_components/event.py:384-400` | a periodic event whose time has passed gets its next date and is queued at once, by three readings of the clock |
| `EventDispatcher.Dispatcher.ProcessNext` | `src/ut_components/event.py:402-415` | the first entry is popped and triggered if its millisecond has come; otherwise nothing in the queue is due |
| `EventDispatcher.Dispatcher.Process` | `src/ut_components/event.py:402-428` | the loop is a run of the machine, with what triggers schedule; when it drains the queue nothing due is left |
| `ConnectionHealth.ResetsStartOver` | `daemon/waconn/waconn.go:60-76` | after the connection is marked healthy or recovery cleared, it is as if nothing had happened before |
| `ConnectionHealth.ForcedAtMostOncePerDisconnect` | `daemon/waconn/waconn.go:78-131` | in an episode without reset, forced reconnects number at most one plus the disconnect marks |
| `ConnectionHealth.StormReachesTheBound` | `daemon/waconn/waconn.go:78-131` | that bound is reached for every number of disconnects |
| `HealthDecisions.TimeoutDecides` | `daemon/waconn/waconn.go:103-150` | a timeout forces a reconnect if and only if none is under way, the daemon does not give up, and it is the second counted or 45 s have gone since the last success; it makes the daemon give up 60 s after one was forced |
| `HealthDecisions.SecondTimeoutForces` | `daemon/waconn/waconn.go:117-150` | two timeouts in a row force a reconnect at once |
| `ConnectionHealth.StopsExactlyAfterAMinute` | `daemon/waconn/waconn.go:110-131` | stop is decided if and only if some reconnect of the episode was forced at least 60 s before |
| `ConnectionHealth.GivesUpInTime` | `daemon/waconn/waconn.go:103-150` | with evaluations at most d apart, a reconnect is forced no later than the first timeout or 45 s + d of ill health, and stop is decided at most 60 s + d after that |
| `ConnectionHealth.GivesUpWithinExactly` | `daemon/waconn/waconn.go:103-150` | every episode ends within 45 s + 60 s + 2d of the last success if and only if its first timeout came no later than 45 s + d + 1 ns after it (with no gaps, d = 0, before 105 s) |
| `ConnectionHealth.LateFirstTimeout` | `daemon/waconn/waconn.go:133-150` | stop never comes sooner than 60 s after the first timeout, however long ago the last success was |
| `ConnectionHealth.ConnectionHealthState.BeginRecovery` | `daemon/waconn/waconn.go:78-87` | recovery begins unless under way, and keeps its first start |
| `ConnectionHealth.ConnectionHealthState.EvaluateRecovery` | `daemon/waconn/waconn.go:117-131` | decision and state after one evaluation |
| `ConnectionHealth.ConnectionHealthState.RecordKeepAliveTimeout` | `daemon/waconn/waconn.go:133-150` | the count is set or incremented, ill health dates from the last success, then the evaluation follows |
| `ConnectionHealth.ConnectionHealthState.OnTick` | `daemon/waconn/waconn.go:435-458` | the five-second tick reports a lost connection, gives up, reconnects or does nothing, by the decision |

## Left out

- Sockets, SQLite, D-Bus, files, HTTP and the WhatsApp library are replaced by abstract tables and by outcomes chosen freely (success, transient failure, permanent failure).
- A message's fields are compared as values holding a text, a number and the rest; how a QVariant converts between types is not modelled. `std::sort` may be any sorted permutation.
- The view side of the list model (`data`, `roleNames`, `rowCount`) and its read-only queries are left out; a mirror view replays signals instead.
- MessageListModel.UpsertIsExact: says when the list after a whole upsert is exact in one direction only, because a later message of the batch may repair what a bridging one broke; the equivalence is stated prefix by prefix (UpsertKnownIsExactUnlessBridged, NormalizeIsExact).
- Each handler call of an event consumer is one atomic step: crashes inside one are not modelled.
- The index entries of messages in the outbox are left out; a tear just before or just after one of their commits comes to the same here.
- OutboxRuns.BackoffAccumulates: the outbox clock counts the whole seconds that the code reads, so that a wait by the real clock may be less than a second shorter than stated.
- OutboxRuns.WaitsInFullExactly: likewise speaks of whole seconds.
- ChatSync.EventLoop.ProcessEventsOnce: a deletion that the daemon performs although its reply is lost is not among the outcomes of this method; the runs of ChatSync.RunIsSafe allow an abort after any deletion.
- ChatSync.EventLoop.HandleOneBatch: no listing, handler or deletion fails in this method; the runs of ChatSync.RunIsSafe allow an abort at any of them.
- ChatSync.EventLoop.DoTrigger: likewise covers passes that no raising call cuts off.
- Event ids are natural numbers without the 64-bit limit; the persisted cursor is not negative.
- Local message ids are fresh, and every message has one send event, lost in a crash; the timer's reading of the records, its due check and its attempt are one step, as sends and retries run on the dispatcher's thread.
- Outbox keys and tokens of different messages are taken as different in the protocol; when they are is PendingOutbox.TokensAgreeExactly.
- A message that a timed-out call leaves for the server to accept later is taken to be accepted when the call times out.
- The same chat in both `conversations` and `pushnames` of one history sync, or in two of its conversations, is left out: cached writes are not visible to the second lookup.
- HistorySync.ImportAddsNoDuplicates: in a store that keeps a record under another's key the condition on taken keys is sufficient only, because a later message of the batch may write the overwritten record back; where records stand under their own keys the equivalence is HistoryBatches.BatchKeepsRecordsExactly.
- SQL `LIKE` is any predicate on keys that holds for all keys with the given prefix, because underscores and percent signs in chat ids make it more than a prefix test. Expiry of key-value rows is left out.
- StorageMigrations.RunStorageMigrations: the stored version is a parameter and the method does not write its record; the runs of StorageMigrations.RestartsAreHarmless hold it in their state.
- The schema version is kept beside the table rows (its key matches no message pattern), and the first migration, which only creates the version, removes no fields.
- Decoding of message contents, previews, names, avatars on disk, notifications and the other event handlers are left out; they add branching and no invariant.
- Lone surrogates cannot occur in the store's texts (code points exclude them) and so not in texts compared across both sides; the composer's own functions are modelled on arbitrary units.
- What `isalnum` accepts beyond ASCII, the canonical form of a contact, its transport token and its display name are parameters.
- Which characters are decimal digits, and of which value, is a parameter of rendering that agrees with ASCII; that a number of more than 4300 digits cannot be read is the default of Python 3.12, the oldest version `pyproject.toml:6` admits.
- Positions and lengths of spans are integers; labels and identities are strings.
- `mentionSuggestions` is modelled up to the position of the active mention; filtering and ranking of candidates is left out.
- In a chat record numbers are real numbers (NaN left out), objects and arrays are compared by their JSON text, and every chat has a text `id` and a `last_message_timestamp` that is a number, null or absent, as the contracts of the front end demand.
- `mergeRefreshedMessages`, `applyDraftUpdates` and the message helpers of the chat page are left out: single passes with easy properties.
- ChatList.ApplyChatListUpdates: assumes a sorted list with distinct ids, as the store returns it; for an unsorted one only the map and the index would be determined.
- Each call of `schedule` is one atomic step on the dispatcher's clock and queue: calls racing from other threads between reading the clock, pushing and counting are not modelled. `heapq` is any queue that pops a minimum. Floating-point seconds are whole microseconds.
- EventDispatcher.Dispatcher.Process: the processing loop need not end, as triggers may schedule events due at once; it is followed for as many triggers as are given.
- The clock of the daemon does not go back, and instants are unbounded integers of nanoseconds; wall-clock jumps between the last success and now are not modelled.
- The audio recorder plugin, contract validators, error reporting and the vendored library code are left out.
