# Models of the Myah backend's stateful cores

Dafny models of the parts of the backend that keep state with real guarantees, and proofs of those guarantees. Each module follows one source file, or one cooperating group of them:

- `CronOutbox`, `CronRuns`: the cron delivery outbox, its lease protocol under many workers and one clock, and the worker's attempt limit.
- `FolderTree`, `FolderStore`, `FolderRuns`: the folder table, which may hold cycles; its capped search, recursive walk, recursive delete and checked move.
- `GlobLike`: the glob to SQL LIKE compiler and the file search filter.
- `ChatIndex`: chat messages in the JSON blob and their dual-written index rows.
- `TagIndex`: the garbage-collected tag rows of a user's chats.
- `AccessGrants`: legacy access dictionaries, relational grants, and the four queries over them, with group membership.
- `DeepMerge`, `AgentConfig`: the recursive configuration merge, GET-merge-PUT patches, and seeding with its fallback.
- `ConfigStore`, `AppConfigSync`: the nested configuration document, and setting objects held by several instances, some of which share values through Redis.
- `TaskRegistry`: the two-map registry with deferred cleanup.
- `PortProbe`: circular port probing.
- `Prelude`, `Json`: shared vocabulary.

`dafny verify dfyconfig.toml` checks the whole project.

## How the models read the source

- A database table is a map or sequence of rows; a class method is one call, and its `ensures` gives the whole new table as a function of the old one. The runs (`Step`, `Run`) use the same functions, so what is proved of runs is proved of the methods. `now`, fresh uuids, HTTP statuses, hash digests and free ports are parameters.
- **Leases.** A lease is one popped copy of a row. The lease theorems are about runs in which a copy is marked within a deadline of its pop or never; a worker that never marks has crashed. `ExclusiveIffThresholdCoversDeadline` shows that the sweep threshold must be at least that deadline, and that this is enough.
- **Folders.** `Up(t, u, b, n)` follows n parent links upward through the user's rows; everything about descendants is stated with it. The interpreter's recursion limit is the parameter `limit`: overflow is the caught exception, so the walk returns None, and the delete returns an empty list and may already have deleted some descendants. Every claim about a walk or delete says exactly when that happens (`Shallow`). The docstring of `get_descendant_ids` says the start folder is excluded; the code finds it again when it lies on a cycle, and the model follows the code.
- **What a create form may carry.** The form allows extra fields, and an `id` or `user_id` among them replaces the generated id and the caller. So `InsertNewFolder` takes both from the form when they are there, and a form may name its own new id as its parent: `SelfParentInsert` and `MutualParentInserts` give the inputs. Such a folder is on a cycle, no delete ever removes it (`CyclesStay` in the contract of `DeleteFolder`), and only a move takes it off (`OnlyAMoveBreaksACycle`). The key is `id` alone, as the model class declares it.
- **A limit of the move check.** The capped search lets a move through when the target is more than 100 levels below the folder, and the move then closes a cycle: `DeepMovePassesTheCheck` gives a 102-folder chain, `CheckedMoveIff` the exact condition.
- **Chat index.** Cleaning removes null characters from the stored blob and only from a text `content` of the row, so a row agrees with its blob up to cleaning, and to the letter when it holds no null character. The sibling query is allowed to return any latest sibling, and `nullsVisible` covers both ways a driver may store a JSON None; a possible run (`Possible`) is one whose every upsert got a sibling its own query may return, which is what `UpsertMessage` promises.
- **Two ways to lose a row.** Besides the intended suppression, the index write raises when `usage` is falsy and `info` is truthy but no dictionary (`Unreadable`); the dual write swallows that, so the blob moves on and the index does not. `RowMissingIff` and `IndexMirrorsBlob` carry both cases; `UnreadableInfoLosesTheRow` and `UnreadableInfoFreezesTheRow` give the inputs, such as content "a" with info "x". On insert a null `done` is left to its column's default, so the row is done while the blob says null (`NullDoneIsFilled`) until an update writes the null. The parent column is not one of the agreeing fields: `ParentFollowsIff` says over all runs when it lags, `ParentMayBeStale` gives the input.
- **Tags.** A user's rows are compared with the tags of that user's non-archived chats, which is what the code counts (`Counted`); for a user with no archived chats that is every referenced tag. The functions behind the requests do not ask whose chat it is, and neither does the model: each request has an if-and-only-if (`Safe`) for chats of any owner, which covers an administrator's delete, and `OthersConsistentIff` says what it does to the owner. Each way to fail has its input: `RetaggingWithTwinNames` (the insert raises after the chat was written), `RetaggingAnArchivedChat`, `TaggingAMissingChat`, `TaggingAForeignChat`, `RestoringATwinTag` and `DeletingAnArchivedChat`.
- **Grants.** `"*"` among a dictionary's user ids stands for everyone, as it does in a grant row. `{}` and absent parts are empty lists, which mean the same. The round trip loses meaning exactly when public read is spelled as a `"*"` entry next to write entries, or on a file, where None is private (`RoundTripLosesTheWriter`).
- **Shared settings.** An instance holds references to setting objects, and a process may bind one object to an instance with Redis and to one without, as it does for the OAuth settings. So values belong to objects, and having Redis belongs to the instance. An instance without Redis reads what last went into the object through anyone who has it, reads by the other instance included: `UnsharedTwinsSeeEachOther` and `ReadingDisturbsTheTwin` give the two-instance inputs.
- **Merge.** Associativity fails exactly where a base dictionary is replaced by a non-dictionary and the second patch puts back a dictionary that does not cover the lost one (`MayRegroup`).
- **Registry.** An item id that is None or empty is never cleaned up by the code; `DrainedRegistry` says that those lists, and only those, survive.

## Model

| member | source | states |
|---|---|---|
| CronOutbox.CronDeliveries.InsertIdempotent | backend/myah/models/cron_deliveries.py:112-155 | returns the id stored under (job_id, ran_at_iso); a second insert of the key changes nothing and returns an id that was there |
| CronOutbox.InsertIgnoredIff | backend/myah/models/cron_deliveries.py:112-155 | an insert is ignored exactly when a row of the same job and run time is there |
| CronOutbox.CronDeliveries.PopPending | backend/myah/models/cron_deliveries.py:163-202 | leases exactly the popped ids at now and returns their rows in queue order, as the second query re-reads them |
| CronOutbox.CronDeliveries.MarkDelivered | backend/myah/models/cron_deliveries.py:204-216 | whole new table: the row delivered, stamped and unleased, whatever its status was; no effect on an unknown id |
| CronOutbox.CronDeliveries.MarkRetry | backend/myah/models/cron_deliveries.py:218-231 | whole new table: the row pending, counted, with error and retry time, unleased |
| CronOutbox.CronDeliveries.MarkFailed | backend/myah/models/cron_deliveries.py:233-244 | whole new table: the row failed with its error, unleased |
| CronOutbox.CronDeliveries.ReclaimStuckLeases | backend/myah/models/cron_deliveries.py:256-287 | reclaims exactly the delivering rows leased strictly before the cutoff, and returns them |
| CronOutbox.CronDeliveries.StampLegacyDeliveredAt | backend/myah/models/cron_deliveries.py:289-307 | whole new table: one stamp |
| CronOutbox.PopIdsAreTheEarliest | backend/myah/models/cron_deliveries.py:173-189 | the batch is eligible, strictly ordered by (created_at, ran_at_iso, id), as large as the limit allows, and no eligible row left behind is earlier |
| Prelude.TextLessIff | backend/myah/models/cron_deliveries.py:173-189 | of two texts in a sort column the first comes first exactly when it ends or has the smaller character where they part |
| CronOutbox.LeasingKeepsOrder | backend/myah/models/cron_deliveries.py:196-202 | leasing touches no sort column, so the re-read lists the same ids in the same order |
| CronRuns.ReachableStructure | backend/myah/models/cron_deliveries.py:50-287 | in every run, whatever the order of marks: leased_at set exactly on delivering rows, delivered rows stamped, keys unique, one row per distinct inserted key, retry_count equal to the mark_retry calls on the row |
| CronRuns.FirstIdForever | backend/myah/models/cron_deliveries.py:112-155 | over every later run the first id of a key stays its only id, with its payload, and a repeated insert changes nothing |
| CronRuns.InsertedRowIsQueued | backend/myah/models/cron_deliveries.py:112-155 | a row inserted under a new key is eligible at once, with its payload, the clock as its creation time and nothing recorded; all other rows stay |
| CronRuns.OriginStays | backend/myah/models/cron_deliveries.py:163-307 | over every run no row changes its payload or creation time |
| CronRuns.LaterInsertsSortLater | backend/myah/models/cron_deliveries.py:112-189 | a row inserted at a later clock sorts after an earlier one; at the same clock by ran_at_iso, then by id |
| CronRuns.LastStampIsRecorded | backend/myah/models/cron_deliveries.py:289-307 | over every run a row carries the time of its last legacy stamp, which nothing else writes |
| CronRuns.StepTouchesOnly | backend/myah/models/cron_deliveries.py:163-307 | no step rewrites a row it did not select |
| CronRuns.OneHolderPerDeliveringRow | backend/myah/models/cron_deliveries.py:163-287 | in every on-time run a delivering row is held by exactly one current lease; every other copy is past its deadline |
| CronRuns.TerminalForever | backend/myah/models/cron_deliveries.py:204-287 | in every on-time run delivered and failed rows never change again, except for the legacy stamp |
| CronRuns.MarkIsRecordedForever | backend/myah/models/cron_deliveries.py:204-244 | after an on-time delivery or final failure the row is unleased and has its time or its error in every later on-time run |
| CronRuns.DeliveriesCounted | backend/myah/models/cron_deliveries.py:204-216 | mark_delivered has run once on a row exactly when it is delivered, and never otherwise |
| CronRuns.ExclusiveIffThresholdCoversDeadline | backend/myah/models/cron_deliveries.py:204-287 | over all runs, at most one delivery a row and no two live copies of it, if and only if the sweep threshold is no shorter than the workers' deadline |
| CronRuns.ShortThresholdRun | backend/myah/models/cron_deliveries.py:256-287 | a concrete run with two deliveries of one row for every shorter threshold |
| CronRuns.CrashedRowComesBack | backend/myah/models/cron_deliveries.py:256-287 | an unmarked row keeps its lease until the first sweep strictly past the threshold, which makes it eligible; no earlier sweep does |
| CronRuns.RetriedRowWaits | backend/myah/models/cron_deliveries.py:163-231 | a row scheduled for a retry stays pending and untouched until its time, and is then eligible |
| CronRuns.RetryBacksOff | backend/myah/models/cron_deliveries.py:218-231 | after an on-time retry the row is pending with the error and one more attempt, no pop before the requested time serves it, and it is eligible exactly from that time on |
| CronRuns.PopServes | backend/myah/models/cron_deliveries.py:163-202 | a pop of b rows serves an eligible row exactly when fewer than b eligible rows sort before it |
| CronRuns.NoStarvation | backend/myah/models/cron_deliveries.py:163-202 | an eligible row with k eligible rows before it is leased within k / b + 1 pops, through any on-time interleaving in which nothing overtakes it |
| CronRuns.WorkerDecides | backend/myah/utils/cron_outbox_worker.py:220-244 | a failed delivery of a row read with four retries or more fails for good, with fewer it is retried |
| CronRuns.FourRetriesThenFailure | backend/myah/utils/cron_outbox_worker.py:220-244 | under the worker's rule no row is retried more than four times, and a failed row had exactly four retries |
| FolderStore.FolderTable.InsertNewFolder | backend/myah/models/folders.py:88-118 | adds one row under the form's own id and owner where it has them, else the generated id and the caller; refused exactly when the id is used; the parent is not looked up |
| FolderStore.FolderTable.GetDescendantIds | backend/myah/models/folders.py:156-181 | exactly the user's folders reachable by 1 to 100 child edges, cycles included |
| FolderStore.FolderTable.WalkChildren | backend/myah/models/folders.py:141-145 | succeeds exactly when no downward path is as long as the recursion limit, and then lists every descendant once, each after all of its own |
| FolderStore.FolderTable.GetChildrenFolders | backend/myah/models/folders.py:134-154 | None exactly when the folder is missing for the user or the walk overflows; otherwise the post-order listing |
| FolderStore.FolderTable.DeleteChildren | backend/myah/models/folders.py:326-336 | removes exactly the descendants and lists them in post-order when the recursion fits, some of them otherwise; every commit keeps all parents of remaining folders |
| FolderStore.FolderTable.DeleteFolder | backend/myah/models/folders.py:315-342 | removes exactly the folder and its descendants and returns exactly their ids when the recursion fits; returns nothing otherwise; after every commit no folder of the user has lost its parent; no folder on a cycle and nobody else's folder is ever removed |
| FolderStore.FolderTable.UpdateParentId | backend/myah/models/folders.py:221-243 | repoints the user's folder and nothing else, without looking at the new parent |
| FolderStore.FolderTable.MoveFolder | backend/myah/routers/folders.py:194-250 | moves exactly when the target is none, or an own folder other than this one and not found by the capped search, and the name is free; otherwise the answer says which test failed, in the order of the route |
| FolderStore.NextChildUntouched | backend/myah/models/folders.py:326-334 | deleting shallow siblings leaves the next child, its depth and its whole subtree as they were |
| FolderTree.LevelsCompleteIff | backend/myah/models/folders.py:156-181 | the first n levels are all descendants exactly when level n + 1 brings nothing new |
| FolderTree.CycleIsNotShallow | backend/myah/models/folders.py:141-145 | below a folder on a cycle the recursion overflows whatever its limit |
| FolderTree.AcyclicIsShallow | backend/myah/models/folders.py:141-145 | on an acyclic table no recursion is deeper than the table has rows |
| FolderTree.AcyclicIffRanked | backend/myah/models/folders.py:24-35 | the parent relation has no cycle exactly when some rank grows along every edge |
| FolderRuns.SearchAgreesWithWalk | backend/myah/models/folders.py:134-181 | search and walk find the same folders exactly when level 101 is empty of new ones |
| FolderRuns.MoveKeepsForestIff | backend/myah/models/folders.py:221-243 | a move keeps the table acyclic exactly when the new parent is outside the folder's subtree |
| FolderRuns.CheckedMoveKeepsForest | backend/myah/routers/folders.py:205-237 | a move that passed the check keeps it acyclic when the search was not cut short |
| FolderRuns.CheckedMoveIff | backend/myah/routers/folders.py:205-237 | a move that passed the check keeps it acyclic exactly when the target is not more than 100 levels below |
| FolderRuns.DeepMovePassesTheCheck | backend/myah/routers/folders.py:219-237 | a concrete acyclic table and checked move that closes a cycle |
| FolderRuns.PutKeepsForestIff | backend/myah/models/folders.py:88-118 | creating a folder keeps its owner's folders acyclic exactly when its parent is neither itself nor a row already waiting below its id |
| FolderRuns.StepKeepsForestIff | backend/myah/models/folders.py:88-342 | from a forest, a request leaves every user's folders acyclic exactly when it is safe: an insert under that condition, any delete, a move to the root or to a target not more than 100 levels below |
| FolderRuns.RunKeepsForestIff | backend/myah/models/folders.py:88-342 | from a forest, all tables of a run of inserts, deletes and moves by any users are forests exactly when all its requests are safe |
| FolderRuns.OrdinaryIsSafe | backend/myah/models/folders.py:88-342 | an insert under a fresh uuid, and a move to the root or of a folder of at most 100 levels, is safe |
| FolderRuns.RunsKeepForest | backend/myah/models/folders.py:88-342 | every run of such requests from the empty table keeps every user's folders acyclic, so walks and deletes within the table's size finish |
| FolderRuns.SelfParentInsert | backend/myah/models/folders.py:96-105 | a form that gives the new folder an id and names that id as parent makes a folder on a cycle, below which every recursion overflows |
| FolderRuns.MutualParentInserts | backend/myah/models/folders.py:96-105 | two forms that name each other's ids as parents close a cycle |
| FolderRuns.OnlyAMoveBreaksACycle | backend/myah/models/folders.py:88-342 | inserts and deletes by anyone leave a folder on its cycle |
| GlobLike.GlobToLikeIsPointwise | backend/myah/models/files.py:258-279 | the five chained replacements equal one map over characters |
| GlobLike.LikeOnCompiledPatternIsGlob | backend/myah/models/files.py:258-279 | for every glob and name, LIKE with escape on the compiled pattern is glob matching |
| GlobLike.CompiledPatternDecodes | backend/myah/models/files.py:258-279 | compiled patterns are well escaped and decode to their glob, so no two globs compile alike |
| GlobLike.SearchKeepsExactlyTheMatches | backend/myah/models/files.py:302-315 | the search keeps exactly the user's files that match regardless of ASCII case, also when the filter is skipped for a lone % |
| ChatIndex.CleanFixesNullFree | backend/myah/utils/misc.py:590-613 | cleaning leaves no null character and changes exactly the values that hold one |
| ChatIndex.ChatStore.UpsertRow | backend/myah/models/chat_messages.py:144-239 | whole new index: update of present keys, insert with defaults (a null done included), suppression by the latest sibling, or nothing when reading the usage raises, and whether it raised |
| ChatIndex.ChatStore.UpsertMessage | backend/myah/models/chats.py:548-591 | merges the message into the cleaned chat, writes the merged message to the index and the blob whether or not the index write raised; an unknown chat changes nothing |
| ChatIndex.InsertedColumns | backend/myah/models/chat_messages.py:212-236 | a new row has its chat, user and times, its parent, model and status history under the first spelling when truthy and else under the second, and its usage direct or from info |
| ChatIndex.UpdatedColumns | backend/myah/models/chat_messages.py:160-194 | an update moves those columns when their keys are there, the parent only with parent_id and the usage only when truthy, and keeps chat, user and creation time |
| ChatIndex.BlobAfterUpsert | backend/myah/models/chats.py:548-591 | the message holds the incoming keys over the stored ones, all cleaned |
| ChatIndex.ChatAfterUpsert | backend/myah/models/chats.py:548-591 | the message is the current one; the other messages of the chat are cleaned, other chats untouched |
| ChatIndex.IncomingOnKeys | backend/myah/models/chats.py:548-591 | the index is given the incoming keys, a text content cleaned, over the stored ones, cleaned |
| ChatIndex.TextContentAgreesExactly | backend/myah/models/chats.py:548-591 | after a write of a text content, row and blob have the same content without null characters |
| ChatIndex.WriteStampsItsRow | backend/myah/models/chat_messages.py:151-239 | a write sets the update time of its own row, gives a new one its chat, owner and creation time, keeps those of an old one, and touches no other row |
| ChatIndex.CurrentIsLastUpserted | backend/myah/models/chats.py:576 | over every run the current message of a chat is the one last upserted in it |
| ChatIndex.CleanTextConcat | backend/myah/utils/misc.py:590-602 | cleaning a text drops its null characters and keeps the rest in order |
| ChatIndex.CleanTextOne | backend/myah/utils/misc.py:590-602 | a null character is dropped and any other character stays |
| ChatIndex.TruthyIff | backend/myah/models/chat_messages.py:186-199 | falsy are None, False, zero and the empty text, list and dictionary |
| ChatIndex.BlankIff | backend/myah/models/chat_messages.py:42-49 | blank are None, the empty list and texts of white space |
| ChatIndex.CompositeIdsCollideIff | backend/myah/models/chat_messages.py:157-160 | two composite ids coincide exactly when they have one origin or one chat id continues, dash included, into the other's message id |
| ChatIndex.CompositeIdsAreInjective | backend/myah/models/chat_messages.py:157-160 | with chat ids of one length, rows of different chats never share an id |
| ChatIndex.CollidingIds | backend/myah/models/chat_messages.py:157-160 | message b-c of chat a and message c of chat a-b share a row |
| ChatIndex.IndexMirrorsBlob | backend/myah/models/chats.py:548-591 | after any possible run every row belongs to a message of its chat, a message has a row exactly when its latest upsert was not dropped, and the row agrees with the blob on the eight fields exactly when the blob reads as the message last written; unless the latest upsert raised, that is exactly when it did not insert a null done |
| ChatIndex.RowMissingIff | backend/myah/models/chat_messages.py:186-216 | a blob message has no row exactly when its latest upsert found none and either was a blank final assistant whose turn's latest assistant row in the chat had content, or carried an info that cannot be read |
| ChatIndex.RowFollowsLastWrite | backend/myah/models/chat_messages.py:160-239 | over every run a message has a row exactly when some upsert was written, and the row agrees with the last such message, none of whose keys the blob has lost |
| ChatIndex.SuppressionKeepsTheAnswer | backend/myah/models/chat_messages.py:196-210 | a message dropped as a duplicate is blank, and its turn has an assistant row with content, the latest of them |
| ChatIndex.BlankDuplicateGetsNoRow | backend/myah/models/chat_messages.py:199-210 | a new message with role assistant, done true or absent, blank content, no output and a parent under either spelling gets no row when the latest assistant row of that parent has content |
| ChatIndex.OnlyBlankFinalAnswersAreSuppressed | backend/myah/models/chat_messages.py:52-58 | a message of another role, not done, with content or output, or without a parent is never suppressed |
| ChatIndex.UpdateFailsIff | backend/myah/models/chat_messages.py:186-191 | an update of a row raises exactly when there is no truthy usage and info is a text, list, number or Boolean that is not falsy |
| ChatIndex.UnreadableBlocksTheIndex | backend/myah/models/chat_messages.py:186-216 | a message whose info cannot be read stays out of reach of the index until an upsert brings a usage or another info |
| ChatIndex.UnreadableInfoLosesTheRow | backend/myah/models/chats.py:580-591 | from a start and by a possible event, a new message with a text for info reaches the blob and gets no row |
| ChatIndex.UnreadableInfoFreezesTheRow | backend/myah/models/chats.py:580-591 | from a start and by a possible event, an indexed message upserted with a text for info leaves its row behind |
| ChatIndex.NullDoneIsFilled | backend/myah/models/chat_messages.py:93 | from a start and by a possible event, a new message with a null done is done in its row and null in the blob |
| ChatIndex.NullFreeFieldsAgreeExactly | backend/myah/models/chat_messages.py:144-239 | each of the eight row fields equals the blob's exactly when it holds no null character |
| ChatIndex.ParentFollowsIff | backend/myah/models/chat_messages.py:160-239 | over every run from rows with their messages' parents, a row has the parent of the message last written if that spells it parent_id, else of the message first written; so it lags exactly when only parentId is used and its value has moved |
| ChatIndex.ParentMayBeStale | backend/myah/models/chat_messages.py:165-166 | from a start and by a possible event, an upsert spelled parentId leaves the row under the old parent |
| TagIndex.TagIdIsStable | backend/myah/models/chats.py:1290-1306 | normalizing an id again changes nothing, so counting by id is counting by name |
| TagIndex.TagIdCharacters | backend/myah/models/chats.py:1293 | character by character a space becomes an underscore and a capital its small letter |
| TagIndex.TagStore.EnsureTagsExist | backend/myah/models/tags.py:118-130 | adds the missing rows in one commit, or raises and adds none when two missing names share an id |
| TagIndex.EnsuredKeepsNames | backend/myah/models/tags.py:118-130 | existing rows keep their names; a new row's name normalizes to its id |
| TagIndex.TagStore.DeleteOrphanTagsForUser | backend/myah/models/chats.py:1308-1331 | deletes exactly the given user's listed rows on at most threshold live chats |
| TagIndex.TagStore.UpdateChatTags | backend/myah/models/chats.py:502-525 | whole new state, also when the row insert raises after the chat was written |
| TagIndex.TagStore.AddChatTag | backend/myah/models/chats.py:1271-1288 | whole new state; the row is made even if the chat does not exist |
| TagIndex.TagStore.DeleteChatTag | backend/myah/routers/chats.py:1328-1333 | the chat loses the tag and nothing else; from equal rows and references the row stays exactly when another live chat of the user has the tag; every other row and chat is as before |
| TagIndex.TagStore.ToggleArchive | backend/myah/routers/chats.py:1225-1237 | whole new state: orphans deleted on archiving, rows ensured on restoring |
| TagIndex.TagStore.DeleteChat | backend/myah/routers/chats.py:1126-1136 | whole new state: orphan check with threshold 1 before the chat goes |
| TagIndex.UpdatedChat | backend/myah/models/chats.py:502-525 | the chat has exactly the ids of the names other than none, its owner and flag as before, and other chats are untouched; when the insert raises the rows are as before |
| TagIndex.AddedTag | backend/myah/models/chats.py:1271-1288 | the chat has its tags and the new one, the caller has the row, and every other row and chat is as before |
| TagIndex.RemovedTag | backend/myah/routers/chats.py:1328-1333 | the chat loses the tag and nothing else; only the caller's row of the tag may go |
| TagIndex.RemovedRowIff | backend/myah/routers/chats.py:1328-1333 | that row stays exactly when another live chat of the user has the tag |
| TagIndex.StepKeepsNames | backend/myah/models/tags.py:105-130 | rows that stay keep their names, new ones get a name of their id, and rows come and go for the caller only |
| TagIndex.UpdateConsistentIff | backend/myah/models/chats.py:502-525 | retagging a live chat of the user keeps rows equal to references exactly when no new id is given twice; retagging an archived or another user's chat exactly when no id is new, or two new ones are the same and the insert raises |
| TagIndex.AddConsistentIff | backend/myah/models/chats.py:1271-1288 | adding keeps them equal exactly when the chat is there, live and the user's, or the row already was |
| TagIndex.RemoveKeepsConsistent | backend/myah/routers/chats.py:1328-1333 | removing always keeps them equal |
| TagIndex.ToggleConsistentIff | backend/myah/routers/chats.py:1225-1237 | archiving always keeps them equal; restoring an own chat exactly when no lost row is asked for twice, another user's when none is asked for or the insert raises |
| TagIndex.DeleteConsistentIff | backend/myah/routers/chats.py:1106-1136 | deleting keeps them equal exactly when the chat is the user's and live or none of its tags is on exactly one live chat of the user; this covers the administrator's delete of another user's chat |
| TagIndex.StepConsistentIff | backend/myah/models/chats.py:502-1331 | any request on any chat, whoever owns it, keeps the caller's rows equal to references exactly when its own guard holds |
| TagIndex.RetaggingWithTwinNames | backend/myah/models/chats.py:502-525 | two names of one new tag, A and a for example, on a live chat: the chat has the tag, the table does not |
| TagIndex.RetaggingWithCapital | backend/myah/models/chats.py:502-525 | the names A and a are such a pair |
| TagIndex.RetaggingAnArchivedChat | backend/myah/models/chats.py:502-525 | a new tag on an archived chat: a row without a reference |
| TagIndex.TaggingAMissingChat | backend/myah/models/chats.py:1271-1288 | a tag for a chat that does not exist: a row without a reference |
| TagIndex.TaggingAForeignChat | backend/myah/models/chats.py:1271-1288 | a tag for another user's chat: a row of the caller without a reference and a reference of the owner without a row |
| TagIndex.RestoringATwinTag | backend/myah/routers/chats.py:1225-1237 | restoring a chat whose list repeats a tag: a reference without a row |
| TagIndex.DeletingAnArchivedChat | backend/myah/routers/chats.py:1126-1136 | deleting an archived chat takes the row of a tag one live chat still has |
| TagIndex.OthersConsistentIff | backend/myah/models/tags.py:105-130 | a request touches nobody else's rows, so another user's rows and references stay equal exactly when their set of live tags does not change, and always when the chat is not theirs |
| TagIndex.SafeRunsStayConsistent | backend/myah/models/chats.py:502-1331 | over every run of such requests the user's rows are exactly the tags of their live chats |
| AccessGrants.AccessControlToGrants | backend/myah/models/access_grants.py:79-143 | the grant list of a dictionary; None is public read except for files |
| AccessGrants.GrantsToAccessControl | backend/myah/models/access_grants.py:233-275 | the dictionary of a grant list: None when it has the public read grant, otherwise first occurrences by kind and permission |
| AccessGrants.CollectInOrder | backend/myah/models/access_grants.py:233-275 | of two listed ids the first was granted before any grant of the second |
| AccessGrants.NormalizeAccessGrants | backend/myah/models/access_grants.py:146-182 | the valid entries, once each, in order of first appearance |
| AccessGrants.NormalizedMembers | backend/myah/models/access_grants.py:146-182 | the normal form has no repetition and has exactly the entries of kind user or group, permission read or write and a non-empty id, with those parts |
| AccessGrants.NormalizedInOrder | backend/myah/models/access_grants.py:146-182 | of two normalized grants the first was in the request before any entry of the second |
| AccessGrants.AccessGrantsTable.SetAccessControl | backend/myah/models/access_grants.py:368-402 | replaces the resource's rows, or changes nothing exactly when one of the dictionary's four lists repeats an id |
| AccessGrants.DictGrantsDistinctIff | backend/myah/models/access_grants.py:79-143 | the grants of a dictionary repeat one exactly when one of its four lists repeats an id |
| AccessGrants.AccessGrantsTable.SetAccessGrants | backend/myah/models/access_grants.py:404-437 | always succeeds and keeps the unique constraint |
| AccessGrants.ReplacedAccess | backend/myah/models/access_grants.py:368-437 | after a replacement the resource allows what the new grants allow and every other resource is as before |
| AccessGrants.StoredDictMeansTheDict | backend/myah/models/access_grants.py:368-402 | for every user, group set and permission has_access answers as the stored dictionary says |
| AccessGrants.StoredGrantsMeanTheirValidEntries | backend/myah/models/access_grants.py:404-437 | has_access holds exactly for read or write when some entry of that permission has kind user and names the user or everyone, or has kind group and names one of the user's groups |
| AccessGrants.RoundTripKeepsMeaningIff | backend/myah/models/access_grants.py:79-275 | dictionary to grants and back keeps the meaning for every user, group set and permission if and only if public read does not coexist with write entries or a file |
| AccessGrants.RoundTripLosesTheWriter | backend/myah/models/access_grants.py:79-275 | readable by everyone and writable by one user: the writer is lost |
| AccessGrants.BatchIsFilter | backend/myah/models/access_grants.py:561-615 | the batch query is the filter of its input by has_access |
| AccessGrants.FilterIsOwnershipOrAccess | backend/myah/models/access_grants.py:663-766 | the row filter keeps what the user owns or has access to; with groups only, what anyone in them has; with neither, everything |
| AccessGrants.InverseQueryAgrees | backend/myah/models/access_grants.py:617-661 | the inverse query misses nobody and is exact if and only if everyone it reaches through a deleted group has access anyway; with a public grant it is exact if and only if no user is pending |
| AccessGrants.LostGroupMemberIsFound | backend/myah/models/access_grants.py:617-661 | a member of a deleted group is found without having access |
| AccessGrants.PendingUserIsMissed | backend/myah/models/access_grants.py:617-661 | a pending user has access through a public grant and is not found |
| AccessGrants.Groups.SyncGroupsByGroupNames | backend/myah/models/groups.py:494-550 | afterwards the user is in exactly the groups of those names; other memberships do not move and stay attached to existing groups |
| DeepMerge.DeepMerge | backend/myah/routers/agent_config.py:258-272 | the loop over the patch in any key order computes the recursive overlay |
| DeepMerge.ReadAtFork | backend/myah/routers/agent_config.py:258-272 | what the merge reads at any path: the patch from the first key where the two are not both dictionaries and the patch mentions it, the base otherwise |
| DeepMerge.PatchLeafWins | backend/myah/routers/agent_config.py:258-272 | a non-dictionary of the patch is read back |
| DeepMerge.UntouchedPathSurvives | backend/myah/routers/agent_config.py:258-272 | a path the patch leaves alone reads as in the base, present or absent |
| DeepMerge.OverlayIdempotent | backend/myah/routers/agent_config.py:258-272 | applying a patch twice is applying it once |
| DeepMerge.OverlayIsPatchIff | backend/myah/routers/agent_config.py:258-272 | the patch hides the base completely exactly when it covers every key of it |
| DeepMerge.OverlayAssociativeIff | backend/myah/routers/agent_config.py:258-272 | two patches may be combined first exactly where regrouping loses nothing |
| AgentConfig.AnyOrderEqualsNested | backend/myah/routers/agent_config.py:597-611 | one-entry patches in any order reach the configuration of the single nested patch |
| AgentConfig.AgentServer.PatchAgentConfig | backend/myah/routers/agent_config.py:275-307 | the status of the GET or of the PUT, and the merged configuration stored exactly on success |
| AgentConfig.AgentServer.SeedAuxDefaults | backend/myah/routers/agent_config.py:594-634 | whatever the statuses, the stored configuration has exactly the entries reported as seeded |
| AgentConfig.AcceptedIff | backend/myah/routers/agent_config.py:606-620 | in the fallback an entry is reported as seeded exactly when its own patch was stored |
| AgentConfig.AcceptedAndRejectedPartition | backend/myah/routers/agent_config.py:606-620 | in the fallback every entry is reported exactly once |
| ConfigStore.GetIsAt | backend/myah/config.py:133-141 | a path that leads to a value reads as it |
| ConfigStore.GetBeyond | backend/myah/config.py:133-141 | a path that ends before a value reads as null below a dictionary without the key, and raises where a text or list contains the key and at every other value |
| ConfigStore.SubstringIff | backend/myah/config.py:133-141 | a text contains a key exactly when the key stands somewhere in it |
| ConfigStore.GetAfterSet | backend/myah/config.py:133-141 | a saved path reads as the saved value |
| ConfigStore.GetElsewhere | backend/myah/config.py:133-214 | a path that neither leads into nor out of the saved one reads as before, errors included |
| ConfigStore.SetSucceedsIff | backend/myah/config.py:205-214 | a save succeeds exactly when no proper prefix of its path holds a non-dictionary |
| ConfigStore.EachPathKeepsItsLastSave | backend/myah/config.py:133-215 | after any sequence of saves on prefix-free paths each path reads as its last save that did not fail, and unsaved paths as at the start |
| ConfigStore.NoSaveEverFails | backend/myah/config.py:205-214 | on prefix-free paths, a path that can be saved at the start can be saved after any sequence of saves |
| ConfigStore.SavablePathKeepsItsLatest | backend/myah/config.py:133-215 | such a path reads after any sequence of saves as the latest of those at it, none of which failed |
| ConfigStore.ConfigStore.Register | backend/myah/config.py:168-185 | the value at the path of the document when there is one, not null, that may be loaded, else the environment value |
| ConfigStore.ConfigStore.SaveItem | backend/myah/config.py:205-215 | writes the document in place and stores it, or changes nothing when the walk raises |
| ConfigStore.ConfigStore.SaveConfig | backend/myah/config.py:147-203 | replaces the document; every item before the first that cannot be walked has the value at its path in the new document when there is one that is not null, and its old value otherwise; later items keep theirs |
| AppConfigSync.AppConfig.Set | backend/myah/config.py:245-254 | the bound setting object first, then Redis, which a failed save never reaches |
| AppConfigSync.AppConfig.Get | backend/myah/config.py:256-277 | Redis first when the instance has it and the value decodes, with the setting object refreshed to agree |
| AppConfigSync.RegisterBinds | backend/myah/config.py:245-247 | a name is bound to the object last registered under it and no other name is rebound |
| AppConfigSync.ReadsAreCoherent | backend/myah/config.py:218-277 | over every run of any number of instances over any setting objects, an instance with Redis reads the latest value any such instance completed; while there is none, and without Redis, it reads what last went into its object through any instance that has it |
| AppConfigSync.ReadingDisturbsIff | backend/myah/config.py:256-277 | a read leaves its object with the value returned, and changes another read exactly when it brings a new value into that reader's object and that reader gets none from Redis |
| AppConfigSync.UnsharedTwinsSeeEachOther | backend/myah/utils/oauth.py:113-114 | two instances over one object without Redis: what one sets the other reads |
| AppConfigSync.ReadingDisturbsTheTwin | backend/myah/utils/oauth.py:113-114 | two instances over one object, one with Redis: its read changes the next read of the other |
| TaskRegistry.Registry.CreateTask | backend/myah/tasks.py:104-141 | whole new state of both maps |
| TaskRegistry.Registry.CleanupTask | backend/myah/tasks.py:88-101 | whole new state of both maps; an emptied list goes |
| TaskRegistry.Registry.StopTask | backend/myah/tasks.py:162-196 | found exactly when registered; leaves the dictionary, not the item list |
| TaskRegistry.StepEffects | backend/myah/tasks.py:88-196 | what each event does to the dictionary and the lists; a cleanup takes the id off the list of its item, except for None and the empty item |
| TaskRegistry.EveryRunKeepsInv | backend/myah/tasks.py:88-141 | in every interleaving of create, finish, stop and deferred cleanup no list is empty, no id is listed twice anywhere, and every entry not cleaned up is listed under its item |
| TaskRegistry.ActiveIffPending | backend/myah/tasks.py:153-218 | an item is reported active (`Active`) exactly while something started under it runs or waits for cleanup |
| TaskRegistry.LiveTasksAreNeverMissed | backend/myah/tasks.py:215-218 | every key of the dictionary is listed under its item |
| TaskRegistry.DrainedRegistry | backend/myah/tasks.py:88-141 | once all is done and cleaned up both maps are empty, except for lists created without an item id, which all remain |
| PortProbe.ProbeIsBijective | scripts/e2e_ports.py:81-85 | probing meets every port of the range exactly once, at its distance from the base |
| PortProbe.AllocateInRange | scripts/e2e_ports.py:74-88 | the free port nearest after the base, the remainder of the digest, and the error exactly when none is free |
| PortProbe.Allocate | scripts/e2e_ports.py:91-96 | fails exactly when a range has no free port; each port is the nearest free one of its own range, and the two differ |
| PortProbe.BindingRunUsesUpTheRange | scripts/e2e_ports.py:74-88 | allocations that each bind their port never repeat one and go on exactly until every free port of the range is used |

## Left out

- CronOutbox: transaction isolation; each method is one atomic step, as its docstring says of the pop. The daily purge of old delivered rows, the depth and parity gauges and the JSON of the metadata column are not modelled.
- CronRuns.FourRetriesThenFailure: the back-off schedule and its jitter are not modelled; the retry time is a parameter.
- FolderStore.FolderTable.InsertNewFolder: of the form's free extra fields only the id and the user id are modelled, and whether the fields have the types of the folder model is a Boolean. The migration that made the table declares the pair of id and user id as its key; the model follows the class, whose key is the id.
- FolderStore.FolderTable.GetChildrenFolders: `limit` counts the frames the walk itself may use, not the interpreter's frames around it.
- FolderStore.FolderTable.MoveFolder: the case-insensitive lookup of a sibling with the same name is a Boolean parameter.
- GlobLike.SearchKeepsExactlyTheMatches: ordering, offset and limit of the result, and case folding beyond ASCII, are not modelled.
- ChatIndex.ChatStore.UpsertMessage: title, folder and the other keys of the blob, database errors in the dual write, surrogate characters, white space beyond ASCII and non-numeric timestamps are not modelled. New chats with initial messages and the writers that touch the blob alone are not part of the runs.
- TagIndex.TagStore.UpdateChatTags: a chat's tag list is a set, since its order and repetitions decide nothing; lower case beyond ASCII is not modelled.
- AccessGrants.NormalizeAccessGrants: the ids of entries and rows and their timestamps are not modelled.
- AccessGrants: the read-only listing filter, and granting or revoking a single grant, are not modelled.
- AgentConfig.AgentServer.SeedAuxDefaults: fetching the catalog and choosing the models; the bodies are parameters. A server that refuses a PUT is taken to keep its configuration.
- ConfigStore.ConfigStore.SaveItem: the document is a value, so sharing between a setting's value and the document is not modelled; nor are failures of the database itself.
- AppConfigSync.AppConfig.Set: encoding to JSON and back is the identity on the modelled values; whether the save raised is a parameter, and all instances with Redis use one key prefix.
- TaskRegistry.Registry.StopTask: Redis mode, waiting for the cancelled coroutine, and stopping all entries of an item are not modelled.
- PortProbe.AllocateInRange: the hash and the sockets; the digest and the set of free ports are parameters, and the set does not change during one call.
- HTTP routing, authentication, ORM detail and the front end are not part of this model.
