# StarRocks transaction publishing and backend data paths, modelled in Dafny

This project models the core of StarRocks, a distributed analytical database.
The frontend side covers three pieces:

- the life cycle of a load transaction (`TransactionState`);
- the daemon that publishes committed transactions to the backends (`PublishVersionDaemon`);
- the leader's handler for task-completion reports (`LeaderImpl.finishTask`).

Together they form a state machine. A transaction moves from PREPARE to COMMITTED to VISIBLE, and publish tasks are queued, reported and retired along the way.

The backend side covers eight pieces:

- the lake primary-key index (merging, sstable picking, compaction apply, rebuild bookkeeping);
- the sharded tablet registry;
- the exchange receivers' sender queues, non-pipeline and pipeline;
- the receiver registry;
- the metric registry;
- the array SQL functions over offset-encoded columns;
- the table-property analyzers;
- the JSON load scanner.

Code that changes state step by step is modelled as classes whose methods update fields under `modifies` clauses. Each such method is proved against a pure specification function, and that function's properties are proved as lemmas. Code that only computes a value is modelled as functions and lemmas.

Several things are passed in as parameters rather than modelled:

- clocks;
- configuration values;
- catalog lookups;
- RPC outcomes;
- hash functions;
- the iteration order of hash maps.

| file | module | models |
|---|---|---|
| wrappers.dfy | Wrappers | Option and Result |
| strings.dfy, java_strings.dfy | Strings, JavaStrings | decimal rendering and parsing, `String.trim`, `String.split`, joining, ASCII case folding |
| be_status.dfy | BeStatus | the backend `Status` codes |
| transaction_state.dfy | TransactionState | fe/.../transaction/TransactionState.java |
| agent_tasks.dfy | AgentTasks | the agent-task queue and publish tasks, as seen by the daemon and the leader |
| publish_daemon.dfy | PublishDaemon | fe/.../transaction/PublishVersionDaemon.java |
| leader.dfy | Leader | `finishTask` and its handlers in fe/.../leader/LeaderImpl.java |
| lake_index.dfy | LakeIndex | be/src/storage/lake/lake_persistent_index.cpp |
| tablet_manager.dfy | Tablets | be/src/storage/tablet_manager.cpp |
| sender_queue.dfy, non_pipeline_sender_queue.dfy, pipeline_sender_queue.dfy | SenderQueues, NonPipelineSenderQueues, PipelineSenderQueues | be/src/runtime/sender_queue.cpp |
| data_stream_mgr.dfy | DataStreamManagers | be/src/runtime/data_stream_mgr.cpp |
| metrics.dfy | Metrics | be/src/util/metrics.cpp |
| array_functions.dfy | ArrayFunctions | be/src/exprs/array_functions.cpp |
| property_analyzer.dfy | PropertyAnalyzers | fe/.../common/util/PropertyAnalyzer.java |
| json_scanner.dfy | JsonScanners | be/src/exec/json_scanner.cpp |

## Model

| member | source | states |
|---|---|---|
| TransactionState.FindFirstByFlag | fe/fe-core/src/main/java/com/starrocks/transaction/TransactionState.java:123-128 | the stream search of `valueOf`: no result exactly when no listed type carries the flag; otherwise the result carries the flag and every type listed before it does not |
| TransactionState.SourceTypeFlagRoundTrip | fe/fe-core/src/main/java/com/starrocks/transaction/TransactionState.java:100-128 | `valueOf(t.flag)` gives back `t` for every load-job source type, so the flags of the enum are pairwise distinct |
| TransactionState.SourceTypeValueOfDomain | fe/fe-core/src/main/java/com/starrocks/transaction/TransactionState.java:100-128 | `valueOf` finds a source type exactly for the flags 1 to 11 and yields null for every other integer |
| TransactionState.TxnSourceTypeValueOf | fe/fe-core/src/main/java/com/starrocks/transaction/TransactionState.java:148-157 | the type found carries the flag asked for, and the result is null exactly for flags other than 1 (FE) and 2 (BE) |
| TransactionState.IsRunning | fe/fe-core/src/main/java/com/starrocks/transaction/TransactionState.java:461-464 | a transaction is running exactly when it is neither VISIBLE nor ABORTED |
| TransactionState.SecondsExceeded | fe/fe-core/src/main/java/com/starrocks/transaction/TransactionState.java:822-831 | with Java's truncating `long` division, `d / 1000 > limit` holds exactly when `d >= 1000 * (limit + 1)` |
| TransactionState.TimeoutRules | fe/fe-core/src/main/java/com/starrocks/transaction/TransactionState.java:827-831 | only PREPARE and PREPARED transactions time out; PREPARE exactly past `timeoutMs` milliseconds since prepare, PREPARED exactly from `1000 * (timeout + 1)` milliseconds since prepared |
| TransactionState.ExpiryRule | fe/fe-core/src/main/java/com/starrocks/transaction/TransactionState.java:822-824 | a label expires exactly when the status is final and at least `1000 * (label_keep_max_second + 1)` milliseconds have passed since finishing |
| TransactionState.NeedSkipOnLeader | fe/fe-core/src/main/java/com/starrocks/transaction/TransactionState.java:482-531 | on the leader a NORMAL or CLONE replica lagging behind the commit version is skipped exactly when its (tablet, backend) pair is missing from the commit set, and the error and unknown replica sets do not change the answer |
| TransactionState.NeedSkipOnFollower | fe/fe-core/src/main/java/com/starrocks/transaction/TransactionState.java:482-531 | on a follower a NORMAL or CLONE replica lagging behind the commit version is skipped exactly when it is in the error or unknown set; the tablet and backend ids do not change the answer, and enlarging either set never un-skips a replica |
| TransactionState.PartitionVersionsOfTable | fe/fe-core/src/main/java/com/starrocks/transaction/TransactionState.java:1019-1027 | one version entry per partition commit info, in order, carrying that partition's id, version and double-write flag |
| TransactionState.PartitionVersionsExact | fe/fe-core/src/main/java/com/starrocks/transaction/TransactionState.java:1014-1027 | a version entry is in the publish payload exactly when some partition of some committed table produced it |
| TransactionState.BuildPublishTasks | fe/fe-core/src/main/java/com/starrocks/transaction/TransactionState.java:1029-1047 | one fresh unfinished task per target backend, in iteration order, each registered under its own backend; tasks of other backends stay registered as they were |
| TransactionState.AllListedFinished | fe/fe-core/src/main/java/com/starrocks/transaction/TransactionState.java:1050-1060 | walking the tasks in an order that lists each of them finds all finished exactly when every registered task is finished |
| TransactionState.FinishedErrorsAllFinished | fe/fe-core/src/main/java/com/starrocks/transaction/TransactionState.java:1050-1060 | when every task has finished, the error replicas gathered up to the first unfinished task are those of all tasks |
| TransactionState.MissingCallbackBlocksOnlyCommit | fe/fe-core/src/main/java/com/starrocks/transaction/TransactionState.java:661-693 | with every registered hook succeeding, the transition fails exactly when it is to COMMITTED, the source is not BACKEND_STREAMING, and some positive callback id has no callback |
| TransactionState.GetCallbackId | fe/fe-core/src/main/java/com/starrocks/transaction/TransactionState.java:603-609 | never empty: exactly the callback list when it has entries, otherwise the one-element list of the legacy id |
| TransactionState.NotifiedLatch | fe/fe-core/src/main/java/com/starrocks/transaction/TransactionState.java:650-659 | a missing latch stays missing; the count drops by at most one, and only for a VISIBLE transaction |
| TransactionState.NotifyVisibleOnce | fe/fe-core/src/main/java/com/starrocks/transaction/TransactionState.java:650-659 | the latch starts at one, so notifying twice leaves it where one notification did |
| TransactionState.MarkedFinished | fe/fe-core/src/main/java/com/starrocks/leader/LeaderImpl.java:676-735 | a report marks only the reporting backend's task finished; the set of backends and every other task are unchanged |
| TransactionState.Txn.constructor | fe/fe-core/src/main/java/com/starrocks/transaction/TransactionState.java:387-414 | a new transaction is PREPARE with commit time -1, empty replica sets and task map, no task sent, a latch of one and the load job's callback id as its only callback |
| TransactionState.Txn.SetTabletCommitInfos | fe/fe-core/src/main/java/com/starrocks/transaction/TransactionState.java:470-476 | the commit set is created when missing and gains every info given |
| TransactionState.Txn.ResetTabletCommitInfos | fe/fe-core/src/main/java/com/starrocks/transaction/TransactionState.java:518-522 | the commit set is dropped, as on a follower |
| TransactionState.Txn.MarkPublishTaskFinished | fe/fe-core/src/main/java/com/starrocks/transaction/TransactionState.java:547-549 | the reporting backend's task becomes finished, the task map stays keyed by backend, and the publish finish time is stamped |
| TransactionState.Txn.AddPublishVersionTask | fe/fe-core/src/main/java/com/starrocks/transaction/TransactionState.java:534-536 | the task is registered under its backend, replacing any earlier one, and the map stays keyed by backend |
| TransactionState.Txn.SetHasSendTask | fe/fe-core/src/main/java/com/starrocks/transaction/TransactionState.java:538-541 | records whether tasks were sent and stamps the publish time |
| TransactionState.Txn.UpdateSendTaskTime | fe/fe-core/src/main/java/com/starrocks/transaction/TransactionState.java:543-545 | stamps the publish time |
| TransactionState.Txn.SetTransactionStatus | fe/fe-core/src/main/java/com/starrocks/transaction/TransactionState.java:628-648 | the status becomes the one given |
| TransactionState.Txn.NotifyVisible | fe/fe-core/src/main/java/com/starrocks/transaction/TransactionState.java:650-659 | the latch is counted down once, only when the transaction is VISIBLE and the count is not already zero |
| TransactionState.Txn.RemoveTable | fe/fe-core/src/main/java/com/starrocks/transaction/TransactionState.java:808-810 | the commit info of that table is gone and every other table's stays |
| TransactionState.Txn.ClearAfterPublished | fe/fe-core/src/main/java/com/starrocks/transaction/TransactionState.java:967-970 | the task map is emptied and the finish checker dropped |
| TransactionState.Txn.CheckCanFinish | fe/fe-core/src/main/java/com/starrocks/transaction/TransactionState.java:1062-1082 | a dropped database counts as finished; otherwise the finish checker, created on first use, decides |
| TransactionState.Txn.BeforeStateTransform | fe/fe-core/src/main/java/com/starrocks/transaction/TransactionState.java:661-693 | runs the before-hooks over `getCallbackId` in order and fails as the transition rule says (see MissingCallbackBlocksOnlyCommit) |
| TransactionState.Txn.CreatePublishVersionTask | fe/fe-core/src/main/java/com/starrocks/transaction/TransactionState.java:990-1048 | nothing happens once tasks were sent; otherwise one new task per target backend (the registered backends, or every backend when none is registered) is registered and returned, each carrying every partition's version |
| TransactionState.Txn.AllPublishTasksFinishedOrQuorumWaitTimeout | fe/fe-core/src/main/java/com/starrocks/transaction/TransactionState.java:1050-1060 | true exactly when the quorum wait has expired or every task has finished; the error replicas of the finished tasks are added, all of them when the answer is true |
| TransactionState.Without | fe/fe-core/src/main/java/com/starrocks/transaction/TransactionState.java:808-810 | keeps exactly the commit infos of the other tables |
| PublishDaemon.ChooseTickAction | fe/fe-core/src/main/java/com/starrocks/transaction/PublishVersionDaemon.java:114-155 | each tick publishes batches exactly when batch publish is enabled in shared-data mode and a batch is ready; otherwise it publishes olap (shared-nothing) or lake (shared-data) transactions only when some transaction is ready and some backend exists, and is idle exactly when those are missing |
| PublishDaemon.FixedPoolSize | fe/fe-core/src/main/java/com/starrocks/transaction/PublishVersionDaemon.java:157-175 | the configured pool size is kept when it is in (0, 4096] and replaced by the default 512 otherwise, so the result is always in range |
| PublishDaemon.PoolSizeAlwaysInRange | fe/fe-core/src/main/java/com/starrocks/transaction/PublishVersionDaemon.java:157-189 | over any sequence of configuration changes the pool size stays in (0, 4096]: it is the last in-range setting, or the creation-time size when no setting was in range |
| PublishDaemon.RetryBackOff | fe/fe-core/src/main/java/com/starrocks/transaction/PublishVersionDaemon.java:798-819 | a partition recorded as published at a positive time is never published again; one that failed at time t is not retried before t + 1000 ms and is retried from then on; a never-attempted partition is published |
| PublishDaemon.PublishPartitionGuards | fe/fe-core/src/main/java/com/starrocks/transaction/PublishVersionDaemon.java:821-856 | a missing table removes that table from the transaction and succeeds, a missing partition succeeds without publishing, a non-replication transaction whose version is not the visible version plus one fails, and otherwise the partition is published from its visible version to the transaction's version |
| PublishDaemon.PublishPartitionOf | fe/fe-core/src/main/java/com/starrocks/transaction/PublishVersionDaemon.java:839-843 | the partition outcome is applied to the transaction: a dropped table loses its commit info, otherwise the commit infos are unchanged |
| PublishDaemon.BatchPublishRange | fe/fe-core/src/main/java/com/starrocks/transaction/PublishVersionDaemon.java:519-535 | a batch is published only when its first version is the visible version plus one, from the visible version to the last version, which for consecutive versions covers exactly one version per transaction; a missing table or partition succeeds without publishing |
| PublishDaemon.GroupByPartition | fe/fe-core/src/main/java/com/starrocks/transaction/PublishVersionDaemon.java:710-720 | one entry per partition some transaction of the batch wrote, listing every transaction that wrote it in batch order, so no entry is empty |
| PublishDaemon.AppendToPartitions | fe/fe-core/src/main/java/com/starrocks/transaction/PublishVersionDaemon.java:713-719 | one transaction is appended to the entry of each partition it wrote, creating the entries that were missing; the other entries are unchanged |
| PublishDaemon.DroppedDbFinishesAll | fe/fe-core/src/main/java/com/starrocks/transaction/PublishVersionDaemon.java:726-737 | when the database is gone every transaction of the batch is finished in order with an empty error set, until a finish call throws |
| PublishDaemon.LakeTxnCompletion | fe/fe-core/src/main/java/com/starrocks/transaction/PublishVersionDaemon.java:480-498 | a lake transaction is finished, with a null error set and at most once, exactly when every one of its partition publishes succeeded |
| PublishDaemon.SingleSubmissionsSafe | fe/fe-core/src/main/java/com/starrocks/transaction/PublishVersionDaemon.java:380-402 | the single-transaction lake path never submits a transaction already publishing, never one that touches a table of an in-flight batch, and never one transaction twice in a tick |
| PublishDaemon.BatchDecision | fe/fe-core/src/main/java/com/starrocks/transaction/PublishVersionDaemon.java:404-454 | a submitted batch claims only tables no in-flight batch holds |
| PublishDaemon.DecideBatch | fe/fe-core/src/main/java/com/starrocks/transaction/PublishVersionDaemon.java:407-452 | the early-exit scan of one batch reaches the same decision as the batch rule: a one-transaction batch is held back while its transaction publishes on the single path or one of its tables is guarded, a larger batch while its table is guarded or one of its transactions is publishing |
| PublishDaemon.BatchSubmissionsDisjoint | fe/fe-core/src/main/java/com/starrocks/transaction/PublishVersionDaemon.java:404-454 | one batch tick claims only unguarded tables, and no two of its submissions claim the same table |
| PublishDaemon.UnionRelease | fe/fe-core/src/main/java/com/starrocks/transaction/PublishVersionDaemon.java:428-450 | when one in-flight submission completes, exactly its tables leave the guard and the remaining claims stay pairwise disjoint |
| PublishDaemon.ClaimsAppendValid | fe/fe-core/src/main/java/com/starrocks/transaction/PublishVersionDaemon.java:404-454 | adding a tick's submissions to the in-flight claims keeps them pairwise disjoint, with the grown guard as their union |
| PublishDaemon.LakeGuards.constructor | fe/fe-core/src/main/java/com/starrocks/transaction/PublishVersionDaemon.java:255-275 | both guard sets start empty |
| PublishDaemon.LakeGuards.PublishVersionForLakeTable | fe/fe-core/src/main/java/com/starrocks/transaction/PublishVersionDaemon.java:380-402 | the submitted transactions are those the single-path rule admits, and each is added to the publishing set |
| PublishDaemon.LakeGuards.OnLakeTransactionDone | fe/fe-core/src/main/java/com/starrocks/transaction/PublishVersionDaemon.java:398-399 | completion removes exactly that transaction from the publishing set |
| PublishDaemon.LakeGuards.PublishVersionForLakeTableBatch | fe/fe-core/src/main/java/com/starrocks/transaction/PublishVersionDaemon.java:404-454 | the submitted batches are those the batch rule admits, decided in order against the guard grown by the earlier submissions, and the guard gains exactly their tables |
| PublishDaemon.LakeGuards.OnBatchDone | fe/fe-core/src/main/java/com/starrocks/transaction/PublishVersionDaemon.java:426-428 | completion removes exactly that submission's tables from the guard, and every other in-flight submission's tables stay guarded |
| PublishDaemon.SelectBatches | fe/fe-core/src/main/java/com/starrocks/transaction/PublishVersionDaemon.java:407-452 | the loop submits exactly the batches the batch rule admits and returns the guard grown by their tables |
| PublishDaemon.ScanPublishTasks | fe/fe-core/src/main/java/com/starrocks/transaction/PublishVersionDaemon.java:308-326 | reports all finished exactly when every task finished, the union of the finished tasks' error replicas, and exactly the backends of the unfinished tasks |
| PublishDaemon.UnfinishedInIsUnfinishedBackends | fe/fe-core/src/main/java/com/starrocks/transaction/PublishVersionDaemon.java:311-326 | scanning an order that lists every task collects exactly the backends of the unfinished tasks |
| PublishDaemon.OlapSendTasks | fe/fe-core/src/main/java/com/starrocks/transaction/PublishVersionDaemon.java:284-294 | the transaction's tasks are created and each one is in the agent queue afterwards, nothing queued before is lost, anything new in the queue is one of these tasks, and the sent flag is set exactly when there was a task |
| PublishDaemon.EnqueueAll | fe/fe-core/src/main/java/com/starrocks/transaction/PublishVersionDaemon.java:286-289 | every task is queued, tasks queued before are kept as they were, and nothing else is added |
| PublishDaemon.AfterFinishAttempt | fe/fe-core/src/main/java/com/starrocks/transaction/PublishVersionDaemon.java:336-347 | a transaction that became VISIBLE has exactly its publish tasks removed from the queue and its task map cleared; any other keeps its tasks and has its send time refreshed |
| PublishDaemon.OlapFinishStep | fe/fe-core/src/main/java/com/starrocks/transaction/PublishVersionDaemon.java:306-349 | the finish call is made exactly when every task finished or the transaction manager allows finishing given the error replicas and unfinished backends; without it nothing changes, and after it the visible or not-visible handling follows |
| PublishDaemon.NewMechanismStep | fe/fe-core/src/main/java/com/starrocks/transaction/PublishVersionDaemon.java:353-378 | nothing happens until every task finished or the quorum wait expired; then the finish call is made exactly when the database is gone or the finish checker agrees, and the visible or not-visible handling follows |
| Leader.PushFinishState | fe/fe-core/src/main/java/com/starrocks/leader/LeaderImpl.java:532-544 | one tablet report is a plain push, two reports for one tablet a schema change, two for different tablets a rollup, and every other count is invalid |
| Leader.FinishRealtimePush | fe/fe-core/src/main/java/com/starrocks/leader/LeaderImpl.java:505-621 | a realtime-push report never raises a rejected-execution error; the task stays queued exactly when the database exists and the report count is invalid or a lookup throws, and otherwise it leaves the queue |
| Leader.FinishPublishVersion | fe/fe-core/src/main/java/com/starrocks/leader/LeaderImpl.java:676-735 | the task records the reported error tablets and is marked finished; it leaves the queue exactly when the report is OK, so a failed publish is retried, and every other task is untouched |
| Leader.Dispatch | fe/fe-core/src/main/java/com/starrocks/leader/LeaderImpl.java:279-349 | the handler for the reported type changes only the reported task and keeps every task under its own key; apart from publish, a handler either keeps or drops the task and never rewrites it; a handler that throws leaves the queue as it was unless its type drops the task in a `finally` block, in which case the task leaves the queue whatever the handler ends with; CREATE without a report version throws before its handler and keeps the task |
| Leader.Failed | fe/fe-core/src/main/java/com/starrocks/leader/LeaderImpl.java:245-247 | a failed report adds one to the task's failure count and keeps its identity |
| Leader.FinishTaskSpec | fe/fe-core/src/main/java/com/starrocks/leader/LeaderImpl.java:178-374 | only the reported task can change or leave the queue and none is added; the answer is OK, CANCELLED, TOO_MANY_TASKS, LEADER_TRANSFERRED or INTERNAL_ERROR, the last two exactly on a follower, which changes nothing; a non-OK answer carries one message |
| Leader.FinishQueuedTask | fe/fe-core/src/main/java/com/starrocks/leader/LeaderImpl.java:244-367 | for a queued task only that task can change or leave the queue, and the answer is OK, CANCELLED or TOO_MANY_TASKS with one message when not OK |
| Leader.CountFailure | fe/fe-core/src/main/java/com/starrocks/leader/LeaderImpl.java:245-251 | the failure count grows by one exactly when the report failed, and the task keeps its key |
| Leader.AcknowledgeFailure | fe/fe-core/src/main/java/com/starrocks/leader/LeaderImpl.java:253-275 | an acknowledged failure removes the task exactly when it is a delete push |
| Leader.MissingTaskReport | fe/fe-core/src/main/java/com/starrocks/leader/LeaderImpl.java:231-242 | a report for a task that is not queued changes nothing, and is answered OK exactly for DROP, STORAGE_MEDIUM_MIGRATE, RELEASE_SNAPSHOT and CLEAR_TRANSACTION_TASK |
| Leader.FailedReportAcknowledged | fe/fe-core/src/main/java/com/starrocks/leader/LeaderImpl.java:245-277 | a failed report for a type that does not handle its own failure is answered OK, counts the failure, and removes the task exactly when it is a delete push |
| Leader.PublishReportRemovesOnlyOnSuccess | fe/fe-core/src/main/java/com/starrocks/leader/LeaderImpl.java:676-735 | a queued publish task is answered OK, is finished by its report and leaves the queue exactly when the report is OK; a failed report keeps it with one more failure |
| Leader.RepeatedPublishReportRefused | fe/fe-core/src/main/java/com/starrocks/leader/LeaderImpl.java:231-242 | after an OK publish report is handled, the same report again finds no task, is answered CANCELLED and changes nothing |
| Leader.FinallyHandlerAlwaysRemoves | fe/fe-core/src/main/java/com/starrocks/leader/LeaderImpl.java:382-503 | a queued report of a type whose handler drops the task in a `finally` block (CREATE with a report version, UPDATE_TABLET_META_INFO, REMOTE_SNAPSHOT, REPLICATE_SNAPSHOT, UPDATE_SCHEMA, STORAGE_MEDIUM_MIGRATE, DROP_AUTO_INCREMENT_MAP) removes the task whatever the handler throws, and the exception decides only the answer |
| Leader.ThrowingHandlerKeepsTask | fe/fe-core/src/main/java/com/starrocks/leader/LeaderImpl.java:279-364 | for every other type that reaches its handler, a non-OK answer means the task is still queued, carrying only the report's failure count |
| Leader.StaleConsistencyReportKeepsTask | fe/fe-core/src/main/java/com/starrocks/leader/LeaderImpl.java:798-810 | a consistency-check report for another version leaves the task queued, and one for the task's version removes it |
| Leader.PublishVersionStep | fe/fe-core/src/main/java/com/starrocks/leader/LeaderImpl.java:676-735 | the queue becomes what the publish rule says, and the task's transaction has the reporting backend's task marked finished and its finish time stamped, with status and sent flag untouched |
| Leader.DispatchStep | fe/fe-core/src/main/java/com/starrocks/leader/LeaderImpl.java:279-349 | the queue and the raised exception are those of the dispatch rule; only a publish report touches the transaction |
| Leader.FinishTask | fe/fe-core/src/main/java/com/starrocks/leader/LeaderImpl.java:178-374 | the answer and the new queue are those of the finish-task rule; the transaction changes only when the report reaches the publish handler |
| Leader.FinishQueuedTaskStep | fe/fe-core/src/main/java/com/starrocks/leader/LeaderImpl.java:244-367 | the answer and the new queue for a queued task are those of the queued-task rule |
| Leader.CommitRemoteTxn | fe/fe-core/src/main/java/com/starrocks/leader/LeaderImpl.java:1255-1320 | a follower forwards the call and answers INTERNAL_ERROR when forwarding fails; the leader answers NOT_FOUND exactly for a missing database, OK exactly when the commit became visible, throws exactly on a lock timeout, and puts one message in every other answer |
| AgentTasks.AgentTaskQueue.constructor | fe/fe-core/src/main/java/com/starrocks/transaction/PublishVersionDaemon.java:287 | the queue starts empty |
| AgentTasks.AgentTaskQueue.GetTask | fe/fe-core/src/main/java/com/starrocks/leader/LeaderImpl.java:231 | a task is found exactly when one with that backend, type and signature is queued, and it is that task |
| AgentTasks.AgentTaskQueue.AddTask | fe/fe-core/src/main/java/com/starrocks/transaction/PublishVersionDaemon.java:287 | a task is added only when no task with its key is queued, and then under its key |
| AgentTasks.AgentTaskQueue.RemoveTask | fe/fe-core/src/main/java/com/starrocks/leader/LeaderImpl.java:732-733 | exactly the task with that key leaves the queue |
| AgentTasks.AgentTaskQueue.PutTask | fe/fe-core/src/main/java/com/starrocks/leader/LeaderImpl.java:245-251 | the queued task is replaced by its updated copy |
| LakeIndex.Pack | be/src/storage/lake/lake_persistent_index.cpp:336-341 | an index value packs the segment id into the high 32 bits and the row id into the low 32 bits, and both can be read back |
| LakeIndex.PackUnpack | be/src/storage/lake/lake_persistent_index.cpp:336-341 | every 64-bit value is the packing of its own high and low halves |
| LakeIndex.Emitted | be/src/storage/lake/lake_persistent_index.cpp:139-150 | the flushed entry lists at most one value per held version, all of them unless the base level is merged, never a delete marker when it is, and only versions that were held |
| LakeIndex.Flushed | be/src/storage/lake/lake_persistent_index.cpp:133-153 | flushing an empty list changes nothing; otherwise the held versions are emptied and at most one entry is appended for the key, never an empty one |
| LakeIndex.Merged | be/src/storage/lake/lake_persistent_index.cpp:39-131 | a merge step fails exactly when the value does not parse or the predicate fails on a non-empty value; an empty value, a key the predicate rejects or a failure leaves the state unchanged; a step on the held key emits nothing and holds at most one version |
| LakeIndex.MergeRunKeepsNewest | be/src/storage/lake/lake_persistent_index.cpp:73-123 | over a run of entries for one key the merger ends holding exactly one value, and by (version, max_rss_rowid) it is not older than the value held before nor than any entry that took effect: the last writer wins |
| LakeIndex.KeyValueMerger.constructor | be/src/storage/lake/lake_persistent_index.cpp:460-463 | a merger starts on the first key with no held value and nothing emitted |
| LakeIndex.KeyValueMerger.Merge | be/src/storage/lake/lake_persistent_index.cpp:39-131 | the merger's new state and status are those of the merge rule |
| LakeIndex.KeyValueMerger.Flush | be/src/storage/lake/lake_persistent_index.cpp:133-153 | the merger's new state is that of the flush rule |
| LakeIndex.MergeSstables | be/src/storage/lake/lake_persistent_index.cpp:460-471 | merging runs every entry through the merger and, unless a step failed, flushes the last key; what is written is what the merger emitted |
| LakeIndex.PickedForMerge | be/src/storage/lake/lake_persistent_index.cpp:361-403 | a cumulative merge takes every sstable but the first exactly when the base outweighs the cumulative bytes times the ratio, else a base merge takes them all; the result is the first max_limit of those, in order |
| LakeIndex.PickSstablesForMerge | be/src/storage/lake/lake_persistent_index.cpp:361-403 | the picked sstables and the base-merge flag are those of the selection rule |
| LakeIndex.NeedsRowsetRebuild | be/src/storage/lake/lake_persistent_index.cpp:660-680 | a rowset is skipped exactly when all its segments lie below the rebuild point, or it has no segment and its id is below the rebuild point; a rowset that needs rebuilding reaches the rebuild point |
| LakeIndex.RebuildExamples | be/src/storage/lake/lake_persistent_index.cpp:664-677 | the four cases the source describes with rebuild point 12: ids 10 with 2 segments and 11 with none are skipped, 10 with 3 segments and 12 with none are rebuilt |
| LakeIndex.NeedRebuildFileCnt | be/src/storage/lake/lake_persistent_index.cpp:683-698 | the count sums, over the rowsets that need rebuilding, the delete files and the 32-bit clipped count of segments at or above the rebuild point, which is the high half of the last sstable's max_rss_rowid |
| LakeIndex.SegmentsToRebuildCount | be/src/storage/lake/lake_persistent_index.cpp:692-694 | the segments of a rowset at or above the rebuild point number all of them, none, or those above the point |
| LakeIndex.RowsetRebuildFilesBound | be/src/storage/lake/lake_persistent_index.cpp:690-695 | for a rowset that needs rebuilding the count is its delete files plus its segments at or above the rebuild point, plus one more when the rowset straddles the point |
| LakeIndex.DelFilter | be/src/storage/lake/lake_persistent_index.cpp:607-619 | a delete is filtered out exactly when it comes from another rowset and the key's current value is live and newer than the delete file's segment |
| LakeIndex.SetDifference | be/src/storage/lake/lake_persistent_index.cpp:188-195 | the key indexes left are exactly those not found |
| LakeIndex.Newest | be/src/storage/lake/lake_persistent_index.cpp:259-273 | a key has a value in the sstables exactly when some sstable holds it |
| LakeIndex.FlushKeepsLookups | be/src/storage/lake/lake_persistent_index.cpp:249-257 | turning the memtable into the newest sstable changes no key's lookup |
| LakeIndex.ReplaceIdxesMeans | be/src/storage/lake/lake_persistent_index.cpp:336-342 | the replaced positions are exactly those whose found value is live and lies in a segment no newer than max_src_rssid, in increasing order |
| LakeIndex.FailedRowids | be/src/storage/lake/lake_persistent_index.cpp:340-342 | every position is either replaced or reported as failed |
| LakeIndex.Replaced | be/src/storage/lake/lake_persistent_index.cpp:344 | the memtable gains exactly the keys at the replaced positions |
| LakeIndex.Lookups | be/src/storage/lake/lake_persistent_index.cpp:275-282 | one value per key, each the key's lookup in the memtable and then the sstables |
| LakeIndex.SplitReplaceable | be/src/storage/lake/lake_persistent_index.cpp:335-343 | the loop yields the replace positions and appends the failed row ids, as the replace rule says |
| LakeIndex.ReplaceAt | be/src/storage/lake/lake_persistent_index.cpp:344 | the memtable is the one the replace rule gives |
| LakeIndex.GetFromSstables | be/src/storage/lake/lake_persistent_index.cpp:259-273 | searching newest first, a key still missing takes its value from the newest sstable that holds it, and every other key keeps its value |
| LakeIndex.WithoutFiles | be/src/storage/lake/lake_persistent_index.cpp:546-551 | exactly the sstables whose file is not an input stay, and an ordered list stays ordered |
| LakeIndex.LowerBound | be/src/storage/lake/lake_persistent_index.cpp:552-557 | every sstable before the position is older than the new one and the one at the position is not |
| LakeIndex.InsertAtLowerBound | be/src/storage/lake/lake_persistent_index.cpp:552-557 | inserting at the lower bound keeps a list ordered by max_rss_rowid ordered |
| LakeIndex.Compacted | be/src/storage/lake/lake_persistent_index.cpp:518-559 | the result holds every sstable whose file is not an input, each exactly as often as before, plus the output sstable once, carrying the last input's max_rss_rowid and the output entries, and nothing else; a list ordered by max_rss_rowid stays ordered |
| LakeIndex.CheckOrder | be/src/storage/lake/lake_persistent_index.cpp:565-577 | the order check succeeds exactly when the list is ordered by max_rss_rowid and fails with an internal error otherwise |
| LakeIndex.LakePersistentIndex.constructor | be/src/storage/lake/lake_persistent_index.cpp:163-186 | an index starts with the given sstables, an empty memtable and no file to rebuild |
| LakeIndex.LakePersistentIndex.Get | be/src/storage/lake/lake_persistent_index.cpp:275-282 | every key gets its value from the memtable or else the newest sstable that holds it, and null when absent |
| LakeIndex.LakePersistentIndex.TryReplace | be/src/storage/lake/lake_persistent_index.cpp:330-349 | the row ids of the keys that cannot be replaced are appended to failed, and the memtable takes the new values of the others |
| LakeIndex.LakePersistentIndex.FlushMemtable | be/src/storage/lake/lake_persistent_index.cpp:249-257 | the memtable becomes the newest sstable, a fresh memtable keeps its max_rss_rowid, the rebuild count is reset, and no lookup changes |
| LakeIndex.LakePersistentIndex.ApplyOpCompaction | be/src/storage/lake/lake_persistent_index.cpp:518-559 | nothing changes without inputs or output, an unreadable output fails with the list unchanged, and otherwise the list is the compacted one |
| LakeIndex.LakePersistentIndex.Commit | be/src/storage/lake/lake_persistent_index.cpp:561-583 | the memtable is flushed first exactly when the rebuild count reached the threshold and it is not empty; commit succeeds exactly when the list is ordered, and then the rebuild count is recomputed from the rowsets |
| Tablets.MaskIsRemainder | be/src/storage/tablet_manager.cpp:1691-1693 | masking an id with 2^k − 1 gives its remainder modulo 2^k |
| Tablets.ShardCountIsPowerOfTwo | be/src/storage/tablet_manager.cpp:86-92 | the constructor's check (a positive count whose AND with count − 1 is zero) accepts exactly the powers of two |
| Tablets.ShardIndex | be/src/storage/tablet_manager.cpp:1691-1693 | the shard of an id is always one of the shards |
| Tablets.ShardIndexIsRemainder | be/src/storage/tablet_manager.cpp:86-92 | with a power-of-two count, masking with count − 1 picks shard id mod count |
| Tablets.ReplacesOld | be/src/storage/tablet_manager.cpp:112-155 | a duplicate tablet replaces the held one exactly when it ranks higher: existing files first, then the larger version, then the newer creation time, or when both primary-key tablets have version 1 and the same file existence |
| Tablets.ReplacementIsAsymmetric | be/src/storage/tablet_manager.cpp:143-154 | for non-primary-key tablets at most one of two tablets replaces the other, and one of them does unless they rank the same |
| Tablets.PrimaryKeyMigrationIsSymmetric | be/src/storage/tablet_manager.cpp:150-152 | two primary-key tablets at version 1 with the same file existence replace each other, so the later one added always wins |
| Tablets.AddToPartition | be/src/storage/tablet_manager.cpp:1608-1611 | the tablet's info joins its partition's set, which is created when missing; other partitions are unchanged |
| Tablets.RemoveFromPartition | be/src/storage/tablet_manager.cpp:1613-1619 | the tablet's info leaves its partition's set, and the entry is removed exactly when it becomes empty; other partitions are unchanged |
| Tablets.AddThenRemovePartition | be/src/storage/tablet_manager.cpp:1608-1619 | adding a tablet that was not listed and removing it again restores the partition map, and adding never leaves an empty entry |
| Tablets.Inserted | be/src/storage/tablet_manager.cpp:178-179 | the tablet is stored in its shard under its id and the other shards are unchanged |
| Tablets.PlacedAt | be/src/storage/tablet_manager.cpp:1687-1693 | in a well-placed registry every stored tablet sits in the shard its id selects, under its own id |
| Tablets.IndexedMeans | be/src/storage/tablet_manager.cpp:1602-1619 | the registry invariant means: tablets placed by id, no empty partition entry, every partition entry backed by a stored tablet, and every stored tablet listed in its partition |
| Tablets.FindInserted | be/src/storage/tablet_manager.cpp:1602-1606 | after an insert the new tablet is found under its id and every other lookup is unchanged |
| Tablets.FindErased | be/src/storage/tablet_manager.cpp:1602-1606 | after an erase the id is not found and every other lookup is unchanged |
| Tablets.InsertKeepsIndexed | be/src/storage/tablet_manager.cpp:172-184 | registering an absent tablet in its shard and its partition keeps the registry invariant |
| Tablets.EraseKeepsIndexed | be/src/storage/tablet_manager.cpp:1552-1568 | removing a stored tablet from its shard and its partition keeps the registry invariant |
| Tablets.DigitRunFacts | be/src/storage/tablet_manager.cpp:597-615 | a digit run covers only digits and ends at the end of the path or at a non-digit |
| Tablets.MatchAt | be/src/storage/tablet_manager.cpp:597-615 | a match starts with "/data/", its id group is a digit run, and for the schema-hash pattern so is its hash group |
| Tablets.Search | be/src/storage/tablet_manager.cpp:597-615 | a partial match found has digit-run groups |
| Tablets.SearchFailsIff | be/src/storage/tablet_manager.cpp:597-615 | the partial match fails exactly when the pattern matches at no position |
| Tablets.SearchIsLeftmost | be/src/storage/tablet_manager.cpp:597-615 | the partial match is the match at the leftmost position where the pattern matches |
| Tablets.ParseTabletPath | be/src/storage/tablet_manager.cpp:597-615 | a parsed tablet id fits in int64 and a parsed schema hash in int32 |
| Tablets.ParseTabletPathRejects | be/src/storage/tablet_manager.cpp:597-615 | a path matched by neither pattern anywhere is rejected |
| Tablets.SchemaHashPathRoundTrip | be/src/storage/tablet_manager.cpp:599-604 | the path /data/shard/tablet/hash, followed by nothing or by a "/" part, parses back to that tablet id and schema hash |
| Tablets.EmptyTabletPathRoundTrip | be/src/storage/tablet_manager.cpp:606-615 | the path /data/shard/tablet, with or without a final "/", parses back to that tablet id with schema hash 0 |
| Tablets.SchemaHashPathParses | be/src/storage/tablet_manager.cpp:599-604 | any digit strings in the schema-hash layout parse to their values |
| Tablets.EmptyTabletPathParses | be/src/storage/tablet_manager.cpp:606-615 | any digit strings in the empty-tablet layout parse to the tablet value and hash 0 |
| Tablets.NormalRequestColumns | be/src/storage/tablet_manager.cpp:1466-1478 | a column-with-row request gains the full-row column at the end, any other request is unchanged |
| Tablets.OldIndex | be/src/storage/tablet_manager.cpp:1494-1507 | the index found names the column, and it is the last such among the normal old columns; none is found exactly when no normal old column has the name |
| Tablets.AssignColumnUniqueIds | be/src/storage/tablet_manager.cpp:1464-1535 | a new tablet numbers its columns 0, 1, ...; a schema change fails with an internal error exactly when a kept column's requested unique id conflicts with its old one under the version rule, and otherwise keeps each old column's unique id, gives new columns consecutive ids from the next unique id, and returns the next unique id after them |
| Tablets.AssignedIdsAreDistinct | be/src/storage/tablet_manager.cpp:1485-1535 | with distinct column names and old ids distinct and below the next unique id, the assigned unique ids are pairwise distinct |
| Tablets.InitialRowsetVersion | be/src/storage/tablet_manager.cpp:1404-1410 | the initial rowset is created for the version range [0, v] exactly when v is at least 1, and fails with "invalid version" otherwise |
| Tablets.TabletManager.constructor | be/src/storage/tablet_manager.cpp:86-92 | a registry starts with the given power-of-two number of empty shards, no partitions, no shut-down tablets and the batch cursor at shard 0 |
| Tablets.TabletManager.Lookup | be/src/storage/tablet_manager.cpp:1602-1606 | a tablet found carries the id asked for and is listed in its partition |
| Tablets.TabletManager.GetTabletUnlocked | be/src/storage/tablet_manager.cpp:560-585 | a live tablet is looked up first and then, when deleted ones are included, the shut-down map; nothing is returned when none is found or the one found is not in use |
| Tablets.TabletManager.CreateTabletCheck | be/src/storage/tablet_manager.cpp:221-246 | creating an existing, not shut-down tablet succeeds at once; a shut-down one fails with "tablet still resident in shutdown queue"; a schema change whose base tablet is missing fails with "base tablet not exist"; otherwise creation proceeds with the base tablet, if any |
| Tablets.TabletManager.UpdateTabletMapAndPartitionInfo | be/src/storage/tablet_manager.cpp:172-184 | an id already in the map fails with "already exist in map" and changes nothing; otherwise the tablet is stored in its shard and listed in its partition, it is found by its id and every other id finds what it found before |
| Tablets.Shelved | be/src/storage/tablet_manager.cpp:1877-1890 | the redundant map keeps every entry it had and gains at most the earlier shut-down entry of the id, under that tablet's uid; with no earlier entry it is unchanged |
| Tablets.TabletManager.AddShutdownTabletUnlocked | be/src/storage/tablet_manager.cpp:1876-1892 | the new drop info replaces any earlier one for the id, and the earlier one moves to the redundant map under its uid unless that uid is already there (`Shelved`) |
| Tablets.TabletManager.DropTabletUnlocked | be/src/storage/tablet_manager.cpp:1552-1600 | an unknown flag is an invalid argument and a missing tablet is not found, both changing nothing; otherwise the tablet leaves its shard and partition, and with move-to-trash it enters the shut-down map in the SHUTDOWN state while an earlier entry for the id moves to the redundant map (`Shelved`); keeping meta and files leaves both shut-down maps as they were; its id then finds nothing and every other id finds what it found before |
| Tablets.TabletManager.AddTabletUnlocked | be/src/storage/tablet_manager.cpp:94-170 | a new id is stored in its shard and joins its partition with both shut-down maps unchanged; a held id is replaced when forced, the shut-down maps unchanged; same path or same data dir is an internal error; otherwise the new tablet replaces the held one, which is shut down and moved to trash (its earlier shut-down entry moving to the redundant map), exactly when it ranks higher, and else the add fails with already-exist; no other id changes |
| Tablets.TabletManager.GetNextBatchTablets | be/src/storage/tablet_manager.cpp:645-675 | a batch holds at most batch_size distinct tablets of the current shard not visited yet; a full batch marks them visited; a short batch takes all unvisited tablets, clears the visited set and moves to the next shard, reporting all visited exactly when it wraps to shard 0 |
| SenderQueues.AttachDone | be/src/runtime/sender_queue.cpp:314-336 | the done closure moves to the last chunk of the request exactly when the request brought chunks, the sender passed a closure and the receiver exceeds its limit; no chunk is added, dropped or resized |
| SenderQueues.DecodeStatus | be/src/runtime/sender_queue.cpp:290-298 | deserializing a request succeeds exactly when every chunk decodes, and otherwise fails with the error of the first chunk that does not |
| SenderQueues.DeserializeChunks | be/src/runtime/sender_queue.cpp:287-300 | the loop returns the first decoding error, and on success one item per chunk in request order with their byte total |
| SenderQueues.OverlayHas | be/src/runtime/sender_queue.cpp:39-42 | after writing the slot map pairs a slot id is mapped exactly when it was mapped before or some pair names it |
| SenderQueues.OverlayLastWins | be/src/runtime/sender_queue.cpp:39-42 | a slot id named by several pairs maps to the column index of the last one |
| SenderQueues.OverlayKeeps | be/src/runtime/sender_queue.cpp:39-42 | a slot id that no pair names keeps its earlier column index |
| SenderQueues.OverlayPairs | be/src/runtime/sender_queue.cpp:39-42 | the loop over the pairs computes exactly that overlay |
| SenderQueues.Resize | be/src/runtime/sender_queue.cpp:54-55 | resizing the type vector keeps its prefix and fills new positions with the invalid type |
| SenderQueues.VisitSlot | be/src/runtime/sender_queue.cpp:62-69 | a slot id declared by the tuple writes that slot's type into its column, joins the hit set and counts once; any other leaves all three unchanged |
| SenderQueues.TypeTuple | be/src/runtime/sender_queue.cpp:57-70 | one tuple descriptor's pass hits exactly the mapped slot ids it declares and counts them; each column they name then holds the type of one of them, and every other column is as before |
| SenderQueues.TypeColumns | be/src/runtime/sender_queue.cpp:53-70 | over all tuple descriptors the hit set is the mapped slot ids the row layout declares, and the count is the matches summed per tuple; each column named by a declared slot holds a type written by the last tuple descriptor declaring one, and the rest keep the base types |
| SenderQueues.MatchedCountOfDisjoint | be/src/runtime/sender_queue.cpp:53-72 | when no slot id is declared by two tuples, the count equals the number of mapped slot ids the row layout declares |
| SenderQueues.TypedByLastDeclaringUnique | be/src/runtime/sender_queue.cpp:53-70 | when no two slot ids name the same column, the type the last declaring tuple descriptor writes into a column is unique |
| SenderQueues.BuildChunkMeta | be/src/runtime/sender_queue.cpp:34-91 | empty null flags or an empty slot map fail with "pb_chunk meta could not be empty" and keep the meta; otherwise the slot map is overlaid, null and const flags copied, each column named by a declared slot gets the type of a slot mapped to it in the last tuple descriptor declaring one (`TypedByLastDeclaring`; unique when no two slot ids share the column) and the rest keep the resized old types, and the build fails with an internal error exactly when the matched count differs from the column count |
| SenderQueues.FlushBuffer | be/src/runtime/sender_queue.cpp:344-357 | the keep-order flush loop computes the same ready chunks, remaining buffer and processed mark as the flush function |
| SenderQueues.FlushMeans | be/src/runtime/sender_queue.cpp:344-357 | a flush moves exactly the contiguous run of buffered sequences after the processed mark, in sequence order, stops at the first missing sequence, and leaves every other sequence buffered |
| SenderQueues.FlushSettles | be/src/runtime/sender_queue.cpp:329-359 | after a flush the sequence after the new mark is not buffered, so every sender stays settled |
| SenderQueues.StalePacketParked | be/src/runtime/sender_queue.cpp:337-357 | a packet at or below the processed mark is stored in the buffer but never flushed |
| SenderQueues.InOrderDelivery | be/src/runtime/sender_queue.cpp:262-268 | whatever order the packets 0..n−1 of one sender arrive in, the ready queue receives their chunks exactly in sequence order and afterwards nothing is buffered and the mark is n−1 |
| SenderQueues.Dedup | be/src/runtime/sender_queue.cpp:249-261 | without keep-order a packet is dropped exactly when its sender was seen with an equal or later sequence; otherwise only that sender's last sequence becomes this one |
| SenderQueues.AcceptedIncreasing | be/src/runtime/sender_queue.cpp:249-261 | the packets accepted from one sender have strictly increasing sequence numbers |
| SenderQueues.RepeatDropped | be/src/runtime/sender_queue.cpp:249-261 | a packet repeated back to back is accepted at most once |
| SenderQueues.Decrement | be/src/runtime/sender_queue.cpp:367-381 | an end of stream adds the sender to the finished set and lowers the remaining count only the first time that sender signals |
| SenderQueues.DecrementsCountDistinct | be/src/runtime/sender_queue.cpp:367-381 | over any run of end-of-stream signals the remaining count falls by the number of distinct senders not already finished |
| NonPipelineSenderQueues.NonPipelineSenderQueue.constructor | be/src/runtime/sender_queue.cpp:138-139 | a queue starts uncancelled and empty, with every sender still to finish, no sequence seen and no chunk meta |
| NonPipelineSenderQueues.NonPipelineSenderQueue.HasChunk | be/src/runtime/sender_queue.cpp:184-195 | a consumer may proceed exactly when the queue is cancelled, holds a chunk, or has no sender left |
| NonPipelineSenderQueues.NonPipelineSenderQueue.GetChunk | be/src/runtime/sender_queue.cpp:141-182 | once woken, a cancelled queue returns the Cancelled error and an empty one returns nothing (every sender is done); otherwise the front chunk is popped, its bytes leave the buffered total and its closure, if any, is released |
| NonPipelineSenderQueues.NonPipelineSenderQueue.TryGetChunk | be/src/runtime/sender_queue.cpp:197-221 | a chunk is taken exactly when the queue is neither cancelled nor empty; it is the front chunk, and the buffered total drops by its bytes |
| NonPipelineSenderQueues.NonPipelineSenderQueue.Admit | be/src/runtime/sender_queue.cpp:237-279 | a cancelled queue or, without keep-order, a stale sequence takes nothing and changes nothing; a fresh sequence updates only its sender's last sequence; with keep-order the sender gets a mark of −1 and an empty buffer if it had none; the packet goes on exactly when senders remain |
| NonPipelineSenderQueues.NonPipelineSenderQueue.EnsureChunkMeta | be/src/runtime/sender_queue.cpp:280-286 | the meta is built only for the first packet; a built meta has the packet's null flags and one typed slot per column |
| NonPipelineSenderQueues.NonPipelineSenderQueue.Enqueue | be/src/runtime/sender_queue.cpp:310-361 | without keep-order the chunks are appended to the ready queue; with keep-order they are parked under their sequence and the sender's contiguous run is flushed; the closure goes as AttachDone says and the buffered total grows by the request's bytes |
| NonPipelineSenderQueues.NonPipelineSenderQueue.AddAdmitted | be/src/runtime/sender_queue.cpp:280-361 | for an admitted packet a meta or decoding failure changes no queue; on success the chunks are queued or parked and flushed as Enqueue says |
| NonPipelineSenderQueues.NonPipelineSenderQueue.AddChunks | be/src/runtime/sender_queue.cpp:223-365 | without keep-order a cancelled queue or a stale packet changes nothing and returns OK; a packet arriving after every sender finished only records its sequence and leaves the chunk queue, chunk meta and byte count alone; an accepted packet's chunks are appended in order and its bytes counted, or the first error is returned with the queue unchanged |
| NonPipelineSenderQueues.NonPipelineSenderQueue.AddChunksAndKeepOrder | be/src/runtime/sender_queue.cpp:230-365 | with keep-order a cancelled queue changes nothing, and a packet arriving after every sender finished returns OK leaving the chunk queue, chunk meta and byte count alone; an accepted packet is parked under its sequence and the ready queue gains exactly the sender's newly contiguous run |
| NonPipelineSenderQueues.NonPipelineSenderQueue.DecrementSenders | be/src/runtime/sender_queue.cpp:367-381 | the sender set and remaining count change as Decrement says; nothing else changes |
| NonPipelineSenderQueues.NonPipelineSenderQueue.CleanBufferQueues | be/src/runtime/sender_queue.cpp:413-432 | the ready queue and every reorder buffer are emptied; nothing else changes |
| NonPipelineSenderQueues.NonPipelineSenderQueue.Cancel | be/src/runtime/sender_queue.cpp:383-401 | a second cancel does nothing; the first marks the queue cancelled and empties its queues |
| NonPipelineSenderQueues.NonPipelineSenderQueue.Close | be/src/runtime/sender_queue.cpp:403-411 | the queue is marked cancelled and emptied, so no later packet is kept |
| PipelineSenderQueues.QueuedUpdate | be/src/runtime/sender_queue.cpp:771-824 | replacing one driver's queue changes the total chunk count and byte count by that queue's difference alone |
| PipelineSenderQueues.AccountedPush | be/src/runtime/sender_queue.cpp:808-824 | enqueuing a chunk while counting it, its bytes and its closure keeps the counters in agreement with the queues |
| PipelineSenderQueues.AccountedPop | be/src/runtime/sender_queue.cpp:456-487 | taking a front chunk and uncounting it, or keeping it counted as a chunk lost to a decoding failure, keeps the counters in agreement |
| PipelineSenderQueues.SpreadWithoutShuffle | be/src/runtime/sender_queue.cpp:808-812 | without pipeline-level shuffle the first queue gains every chunk and the others nothing |
| PipelineSenderQueues.SpreadSnoc | be/src/runtime/sender_queue.cpp:808-812 | enqueuing one more chunk appends it to its driver's queue and to no other |
| PipelineSenderQueues.PassThroughItems | be/src/runtime/sender_queue.cpp:655-669 | one in-memory chunk per pass-through entry, with its bytes and driver, holding no closure |
| PipelineSenderQueues.LazyItems | be/src/runtime/sender_queue.cpp:672-690 | one serialized chunk per request chunk, with its data size, and its driver only under pipeline-level shuffle |
| PipelineSenderQueues.Unshorted | be/src/runtime/sender_queue.cpp:790-799 | under shuffle the chunks addressed to short-circuited drivers are dropped and no other; without shuffle none is |
| PipelineSenderQueues.Int32 | be/src/runtime/sender_queue.cpp:731 | the keep-order sequence is read as a signed 32-bit value congruent to the request's |
| PipelineSenderQueues.ShortCircuitCounterDrifts | be/src/runtime/sender_queue.cpp:835-855 | as written, draining a non-empty queue with a positive-size front chunk leaves the buffer-memory counter different from the bytes still buffered |
| PipelineSenderQueues.PipelineSenderQueue.constructor | be/src/runtime/sender_queue.cpp:434-444 | a queue starts with one empty queue per driver, nothing counted, every sender still to finish and no chunk meta |
| PipelineSenderQueues.PipelineSenderQueue.IsFinished | be/src/runtime/sender_queue.cpp:897-899 | the stream is finished exactly when cancelled, or when every sender is done and no chunk is counted |
| PipelineSenderQueues.PipelineSenderQueue.FinishedIsDrained | be/src/runtime/sender_queue.cpp:897-899 | a finished, uncancelled queue holds no chunk in any driver's queue |
| PipelineSenderQueues.PipelineSenderQueue.HasChunk | be/src/runtime/sender_queue.cpp:491-499 | the merging consumer may proceed exactly when the queue is cancelled, the first queue holds a chunk, or no sender is left |
| PipelineSenderQueues.PipelineSenderQueue.PopFront | be/src/runtime/sender_queue.cpp:456-487 | the front chunk leaves the queue and its closure, if any, leaves the blocked count; it leaves the chunk, byte and memory counters unless its decoding failed, when those stay as they were |
| PipelineSenderQueues.PipelineSenderQueue.GetChunk | be/src/runtime/sender_queue.cpp:446-489 | a cancelled queue returns the Cancelled error; an empty driver queue returns nothing and ends the unplugged run; otherwise the front chunk leaves and releases its closure, and either it is returned and uncounted or its decoding error is returned |
| PipelineSenderQueues.PipelineSenderQueue.TryGetChunk | be/src/runtime/sender_queue.cpp:501-526 | a chunk is taken exactly when the queue is not cancelled and the first queue is not empty; it is the front chunk and leaves the counts |
| PipelineSenderQueues.PipelineSenderQueue.DecrementSenders | be/src/runtime/sender_queue.cpp:540-555 | the sender set and remaining count change as Decrement says |
| PipelineSenderQueues.PipelineSenderQueue.DrainQueue | be/src/runtime/sender_queue.cpp:844-853 | every chunk of one driver's queue leaves it, in order, with its closures released and its bytes taken off the byte and memory counters; the lost-chunk counters do not change |
| PipelineSenderQueues.PipelineSenderQueue.ShortCircuit | be/src/runtime/sender_queue.cpp:835-855 | the driver is marked short-circuited; under shuffle its queue is emptied, its blocked-closure count drops by the closures drained and its chunks leave the chunk, byte and memory counters, otherwise no queue or counter changes; the lost-chunk counters never change |
| PipelineSenderQueues.PipelineSenderQueue.ShortCircuitAsWritten | be/src/runtime/sender_queue.cpp:835-855 | with the source's update the buffer-memory counter grows by the drained bytes while the buffered bytes shrink, so the counters disagree once a non-empty chunk is drained |
| PipelineSenderQueues.PipelineSenderQueue.CleanBufferQueues | be/src/runtime/sender_queue.cpp:566-598 | every driver's queue is emptied and uncounted, and every parked packet is emptied while each sender's sequence map is kept |
| PipelineSenderQueues.PipelineSenderQueue.Cancel | be/src/runtime/sender_queue.cpp:557-560 | the queue is marked cancelled, so it is finished, and emptied |
| PipelineSenderQueues.PipelineSenderQueue.Close | be/src/runtime/sender_queue.cpp:562-564 | the queue is emptied without being marked cancelled; only chunks lost to decoding failures stay counted |
| PipelineSenderQueues.PipelineSenderQueue.TryToBuildChunkMeta | be/src/runtime/sender_queue.cpp:627-653 | a pass-through packet or a built meta needs nothing; the meta counts as built only when a build from the first chunk succeeds |
| PipelineSenderQueues.PipelineSenderQueue.EnqueueOne | be/src/runtime/sender_queue.cpp:808-824 | the chunk is appended to its driver's queue (the first without shuffle) and counted |
| PipelineSenderQueues.PipelineSenderQueue.EnqueueAll | be/src/runtime/sender_queue.cpp:808-824 | the queues gain the chunks as Spread routes them, and the counts grow by their number and bytes |
| PipelineSenderQueues.PipelineSenderQueue.EnqueueArrivals | be/src/runtime/sender_queue.cpp:790-824 | chunks for short-circuited drivers are dropped, the closure goes to the last one left when over the limit, and the rest are enqueued and counted |
| PipelineSenderQueues.PipelineSenderQueue.BuildMetaAndDeserialize | be/src/runtime/sender_queue.cpp:708-721 | the meta is built and the shuffle mode recorded before the chunks are deserialized; the first failure is returned |
| PipelineSenderQueues.PipelineSenderQueue.ParkAndEnqueue | be/src/runtime/sender_queue.cpp:741-783 | the packet is parked under its sequence with the closure placed as AttachDone says, and the sender's newly contiguous run moves to the first queue and is counted |
| PipelineSenderQueues.PipelineSenderQueue.AddChunks | be/src/runtime/sender_queue.cpp:693-833 | a cancelled or ended queue takes nothing; a meta failure changes no queue; otherwise the shuffle mode is recorded and the surviving chunks are spread to their drivers' queues and counted |
| PipelineSenderQueues.PipelineSenderQueue.AddChunksAndKeepOrder | be/src/runtime/sender_queue.cpp:693-783 | a cancelled or ended queue takes nothing; otherwise the packet is deserialized, parked under its 32-bit sequence, and the sender's newly contiguous run moves to the first queue in order |
| PipelineSenderQueues.PipelineSenderQueue.AddOrdered | be/src/runtime/sender_queue.cpp:708-783 | for a keep-order packet the queue takes, a failure changes no queue and success parks and flushes it as ParkAndEnqueue says |
| PipelineSenderQueues.PipelineSenderQueue.HasOutput | be/src/runtime/sender_queue.cpp:857-895 | a cancelled queue has no output; in an unplugged run a driver reads while its queue has chunks and leaves the run when empty; otherwise it enters a run at the threshold and reads when the buffer is over its limit, when no sender is left, or when closures are blocked, never with no chunk once all senders are done |
| PipelineSenderQueues.Emptied | be/src/runtime/sender_queue.cpp:587-596 | every parked packet is emptied while every sender and sequence is kept |
| DataStreamManagers.BucketIndex | be/src/runtime/data_stream_mgr.cpp:80-84 | the bucket of a fragment instance, hashed from its low word and then its high word, is one of the buckets |
| DataStreamManagers.CollectedMeans | be/src/runtime/data_stream_mgr.cpp:57-67 | a receiver is gathered from the first n buckets exactly when one of them holds it |
| DataStreamManagers.InsertedLookups | be/src/runtime/data_stream_mgr.cpp:96-105 | registering a receiver changes only its fragment's receivers, adding the node unless that node already has a receiver, which then stays |
| DataStreamManagers.ErasedLookups | be/src/runtime/data_stream_mgr.cpp:176-192 | erasing a pair removes only that node from its fragment's receivers |
| DataStreamManagers.InsertedKeepsIndex | be/src/runtime/data_stream_mgr.cpp:96-106 | inserting with a fresh handle keeps every fragment in its own bucket, registers exactly the new pair and keeps handles unique |
| DataStreamManagers.ErasedKeepsIndex | be/src/runtime/data_stream_mgr.cpp:176-192 | erasing a registered pair keeps every fragment in its bucket, unregisters exactly that pair, and drops the fragment when it was its last node |
| DataStreamManagers.CreateKeepsRegistry | be/src/runtime/data_stream_mgr.cpp:96-106 | create_recvr keeps the registry invariant: the fragment count grows exactly when the fragment is new and the receiver count always grows by one |
| DataStreamManagers.EraseKeepsRegistry | be/src/runtime/data_stream_mgr.cpp:176-192 | deregistering a registered pair keeps the registry invariant, lowering the receiver count by one and the fragment count when the fragment empties |
| DataStreamManagers.CollectedAreRegistered | be/src/runtime/data_stream_mgr.cpp:206-215 | walking the buckets finds exactly the registered receivers |
| DataStreamManagers.DataStreamMgr.GetBucket | be/src/runtime/data_stream_mgr.cpp:80-84 | the bucket index is below the bucket count |
| DataStreamManagers.DataStreamMgr.constructor | be/src/runtime/data_stream_mgr.cpp:49-52 | a manager starts with no receiver, both counts at zero and no stream cancelled |
| DataStreamManagers.DataStreamMgr.CreateRecvr | be/src/runtime/data_stream_mgr.cpp:86-108 | the new receiver differs from every registered one; it is registered under (fragment, node) unless that node already has one; the fragment count grows when the fragment is new and the receiver count always grows |
| DataStreamManagers.DataStreamMgr.FindRecvr | be/src/runtime/data_stream_mgr.cpp:110-124 | a receiver is found exactly when the pair is registered, and it is the one registered |
| DataStreamManagers.DataStreamMgr.TransmitChunk | be/src/runtime/data_stream_mgr.cpp:137-171 | a request for a missing receiver is accepted with no effect; otherwise statistics are handed over when present, the chunks are added when present or passed through (without the closure at end of stream), the sender is removed at end of stream as the last step, and the status is that of adding the chunks |
| DataStreamManagers.DataStreamMgr.TakeOut | be/src/runtime/data_stream_mgr.cpp:176-193 | a registered pair is removed with both counts updated, and an unknown one changes nothing |
| DataStreamManagers.DataStreamMgr.DeregisterRecvr | be/src/runtime/data_stream_mgr.cpp:173-204 | a registered pair is removed and its receiver's stream cancelled; an unknown pair changes nothing |
| DataStreamManagers.DataStreamMgr.Cancel | be/src/runtime/data_stream_mgr.cpp:217-237 | exactly the receivers of the fragment instance have their streams cancelled |
| DataStreamManagers.DataStreamMgr.Close | be/src/runtime/data_stream_mgr.cpp:206-215 | every registered receiver has its stream cancelled |
| Metrics.UnitName | be/src/util/metrics.cpp:67-96 | only the "no unit" case and units outside the list export as "nounit", and every name has at least four letters |
| Metrics.UnitNameInjective | be/src/util/metrics.cpp:67-96 | distinct units export under distinct names |
| Metrics.RemovedFrom | be/src/util/metrics.cpp:119-126 | removing a metric keeps exactly the label entries that hold another metric, unchanged |
| Metrics.Without | be/src/util/metrics.cpp:182-195 | registry contents without a metric drop exactly the names whose collector becomes empty, and keep the others minus that metric |
| Metrics.MetricCollector.AddMetric | be/src/util/metrics.cpp:106-117 | a metric is taken exactly when the collector is empty or the metric has the collector's type, and its labels are new; the first metric fixes the type; a refused metric changes nothing, and the reverse map keeps an earlier entry for the same metric |
| Metrics.MetricCollector.RemoveMetric | be/src/util/metrics.cpp:119-126 | the metric leaves both maps, which stay inverse to each other; an unknown metric changes nothing |
| Metrics.MetricCollector.GetMetric | be/src/util/metrics.cpp:128-134 | the metric under exactly these labels is returned, and null when none is |
| Metrics.AddThenRemove | be/src/util/metrics.cpp:106-126 | adding a metric the collector does not hold and removing it again gives the same collector back |
| Metrics.SweptAll | be/src/util/metrics.cpp:182-195 | the sweep keeps only existing names and removes the metric from each kept collector |
| Metrics.SweptAllHealthy | be/src/util/metrics.cpp:182-195 | removing a metric everywhere keeps every remaining collector non-empty with inverse maps |
| Metrics.SweptAllMembers | be/src/util/metrics.cpp:182-195 | after the sweep no collector holds the metric and no other metric has appeared |
| Metrics.SweptAllContents | be/src/util/metrics.cpp:182-195 | the swept collectors describe exactly the old contents without the metric |
| Metrics.AddKeepsHealthy | be/src/util/metrics.cpp:106-117 | a healthy or new collector that takes a metric it does not hold stays healthy |
| Metrics.AddToCollectorsHealthy | be/src/util/metrics.cpp:167-175 | adding a metric no collector holds to the collector of a name, created when missing, keeps every collector healthy and adds no metric but this one |
| Metrics.Metric.Hide | be/src/util/metrics.cpp:98-104 | a detached metric stays unchanged; an attached one leaves every collector of its registry, emptied collectors are dropped, the hooks are kept, and the metric is detached |
| Metrics.MetricRegistry.DeregisterLocked | be/src/util/metrics.cpp:182-195 | the metric leaves every collector, the emptied collectors are dropped, and the contents are the old ones without the metric |
| Metrics.MetricRegistry.RegisterMetric | be/src/util/metrics.cpp:163-180 | the metric first leaves the registry it was in; it is registered exactly when the collector of the name, created on demand, accepts it, and is then found under the name and labels and points to this registry, else it points to none; hooks are unchanged |
| Metrics.MetricRegistry.AddToCollector | be/src/util/metrics.cpp:166-179 | once detached, the metric is added to the collector of the name, created on demand, exactly when that collector accepts it |
| Metrics.MetricRegistry.GetMetric | be/src/util/metrics.cpp:197-204 | the metric under the name and the labels is returned, and null when the name or the labels are unknown |
| Metrics.MetricRegistry.RegisterHook | be/src/util/metrics.cpp:206-210 | a hook is added exactly when its name is new; an existing hook is kept |
| Metrics.MetricRegistry.DeregisterHook | be/src/util/metrics.cpp:212-215 | the hook of that name is removed and no other |
| ArrayFunctions.ArrayLength | be/src/exprs/array_functions.cpp:46-58 | each output row holds the difference of that row's two offsets, which is the length of the row |
| ArrayFunctions.ConstArrayLength | be/src/exprs/array_functions.cpp:41-45 | for a constant column the length of its single row is its second offset |
| ArrayFunctions.ArrayAppend | be/src/exprs/array_functions.cpp:69-101 | output row i is input row i followed by exactly one element, the i-th value of the appended column, and the output column is well formed with one row per input row |
| ArrayFunctions.RemoveRowMembers | be/src/exprs/array_functions.cpp:177-251 | A value is in the row after removal exactly when it was in the row and differs from the target |
| ArrayFunctions.RemoveRowCounts | be/src/exprs/array_functions.cpp:177-251 | removal shortens the row by the number of occurrences of the target and keeps the count of every other value, a null included |
| ArrayFunctions.RemoveRowAppend | be/src/exprs/array_functions.cpp:177-251 | removal preserves order: removing from a concatenation is the concatenation of the removals |
| ArrayFunctions.DropsMeansEqual | be/src/exprs/array_functions.cpp:188-249 | for every combination of null flags in which the branches below the both-nullable one apply (a column flagged non-nullable holds no null), an element is dropped exactly when it equals the target |
| ArrayFunctions.RemoveAsWrittenDropsUnequal | be/src/exprs/array_functions.cpp:208-220 | as written, with nulls on both sides and a non-null target, every non-null element is treated as found: rows [[null],[null,1,2]] with targets [null,1] lose the unequal 2 |
| ArrayFunctions.RemoveFromRow | be/src/exprs/array_functions.cpp:188-249 | the kept elements are exactly the row without the occurrences of the target (a null target removes the nulls) and the found count is the number of occurrences removed |
| ArrayFunctions.RemoveRows | be/src/exprs/array_functions.cpp:177-251 | every output row is the matching input row with the occurrences of its own target removed, and the output column is well formed with one row per input row |
| ArrayFunctions.ArrayRemove | be/src/exprs/array_functions.cpp:311-361 | every output row is the matching input row without the elements equal to its target (a null target removing nulls), which covers the early return of the column as it is when null targets meet elements without nulls |
| ArrayFunctions.NothingToRemove | be/src/exprs/array_functions.cpp:331-333 | A null target occurs nowhere in a row without nulls, so removal leaves such a row unchanged, which justifies returning the column as it is |
| ArrayFunctions.PositionMeans | be/src/exprs/array_functions.cpp:527-581 | position 0 means the target is absent; a non-zero position p points at an occurrence with no occurrence before it |
| ArrayFunctions.FirstPosition | be/src/exprs/array_functions.cpp:527-581 | an occurrence with no earlier occurrence is the position the search reports |
| ArrayFunctions.ContainsInRow | be/src/exprs/array_functions.cpp:527-581 | with positions enabled the result is the 1-based index of the first element matching the target (null matching null), else 0; otherwise it is 1 exactly when some element matches |
| ArrayFunctions.ArrayContains | be/src/exprs/array_functions.cpp:495-676 | row i of the output is the row-level answer for row i and its target; a null target against elements without nulls gives 0 for every row |
| ArrayFunctions.HasInRow | be/src/exprs/array_functions.cpp:718-793 | in any mode the result is 1 exactly when some target occurs in the row; in all mode exactly when every target occurs in it; a null target is matched only by a null element |
| ArrayFunctions.HasSeqInRow | be/src/exprs/array_functions.cpp:795-862 | the result is 1 exactly when the targets occur in the row as one contiguous run at some start; an empty target list is always found |
| ArrayFunctions.HasSeqHasAll | be/src/exprs/array_functions.cpp:795-862 | A contiguous run of the targets implies that every target occurs in the row, so array_contains_seq implies array_contains_all |
| ArrayFunctions.HasAllHasAny | be/src/exprs/array_functions.cpp:718-793 | with at least one target, every target occurring implies some target occurring, so array_contains_all implies array_contains_any |
| ArrayFunctions.ArrayHas | be/src/exprs/array_functions.cpp:864-902 | row i of the output is the any/all answer for row i against target row i, or against the single target row when the target column is constant |
| ArrayFunctions.ArrayHasSeq | be/src/exprs/array_functions.cpp:879-886 | row i of the output is the contiguous-run answer for row i against target row i |
| ArrayFunctions.SliceWhole | be/src/exprs/array_functions.cpp:1171-1208 | offset 1 without a length, and the negative offset equal to the row size, select the whole row |
| ArrayFunctions.SlicePositive | be/src/exprs/array_functions.cpp:1171-1208 | A positive offset k inside the row with a non-negative length n selects min(n, remaining) elements starting at position k |
| ArrayFunctions.SliceNegative | be/src/exprs/array_functions.cpp:1171-1208 | A negative offset -k inside the row without a length selects the last k elements |
| ArrayFunctions.SliceBeforeStart | be/src/exprs/array_functions.cpp:1171-1208 | A negative offset reaching before the row counts the length from that virtual start: three elements, offset -5 and length 3 select only the first |
| ArrayFunctions.SliceItem | be/src/exprs/array_functions.cpp:1171-1208 | appends exactly the selected elements of the row to the destination and returns how many it appended, never a negative number even when the length is negative |
| ArrayFunctions.ArraySlice | be/src/exprs/array_functions.cpp:1210-1303 | every output row is the slice of the matching input row by its own offset and optional length, and the output column is well formed |
| ArrayFunctions.DistinctRowMeans | be/src/exprs/array_functions.cpp:1345-1387 | the deduplicated row holds exactly the values of the row and holds no value twice |
| ArrayFunctions.DistinctRowTwice | be/src/exprs/array_functions.cpp:1345-1387 | deduplicating twice is the same as deduplicating once |
| ArrayFunctions.DistinctOfDistinct | be/src/exprs/array_functions.cpp:1345-1387 | A row without repeated values is left as it is |
| ArrayFunctions.DistinctInRow | be/src/exprs/array_functions.cpp:1350-1387 | A row of at most one element is copied; otherwise the output is the row with every repeat of an earlier value dropped, whatever the hash function, since the hash only narrows which earlier elements are compared |
| ArrayFunctions.ArrayDistinct | be/src/exprs/array_functions.cpp:1325-1391 | A null row stays empty and every other row becomes its deduplicated row, with well-formed offsets |
| ArrayFunctions.ReverseIndex | be/src/exprs/array_functions.cpp:1407-1418 | the reversed row is as long as the row and holds element \|s\|-1-k at index k |
| ArrayFunctions.ReverseTwice | be/src/exprs/array_functions.cpp:1407-1418 | reversing a row twice gives it back |
| ArrayFunctions.ReverseRow | be/src/exprs/array_functions.cpp:1407-1418 | appends the row's elements to the destination from the last to the first |
| ArrayFunctions.ArrayReverse | be/src/exprs/array_functions.cpp:1393-1422 | A null row stays empty and every other row is reversed, with well-formed offsets |
| ArrayFunctions.ArrayRepeat | be/src/exprs/array_functions.cpp:1636-1695 | row i has the repeat count of count i as its length and holds nothing but source i; a non-positive count gives an empty row, a null count gives a NULL row (its flag set exactly when the count is null) with nothing beneath it, and the column is well formed |
| ArrayFunctions.JoinedMeans | be/src/exprs/array_functions.cpp:1141-1162 | A value is in the joined row exactly when it is in that row of some column |
| ArrayFunctions.MergeNulls | be/src/exprs/array_functions.cpp:1110-1122 | A row's merged null flag is set exactly when it is set in some input column |
| ArrayFunctions.JoinRow | be/src/exprs/array_functions.cpp:1141-1162 | appends the given row of every column, column after column, to the destination |
| ArrayFunctions.ArrayConcat | be/src/exprs/array_functions.cpp:1106-1168 | A row is null exactly when it is null in some input column and then holds nothing; otherwise it is the concatenation of that row of every column in column order |
| PropertyAnalyzers.PropertyMap.constructor | fe/fe-core/src/main/java/com/starrocks/common/util/PropertyAnalyzer.java:277-280 | the property map starts as the caller's entries |
| PropertyAnalyzers.PropertyMap.Remove | fe/fe-core/src/main/java/com/starrocks/common/util/PropertyAnalyzer.java:296-298 | removing a key leaves every other entry as it was |
| PropertyAnalyzers.ShortKeyColumnCount | fe/fe-core/src/main/java/com/starrocks/common/util/PropertyAnalyzer.java:372-390 | -1 with the map untouched when the key is absent; otherwise success exactly when the value parses as a number in 1..32767, which is returned and its key consumed; on error the map is untouched |
| PropertyAnalyzers.AnalyzeShortKeyColumnCount | fe/fe-core/src/main/java/com/starrocks/common/util/PropertyAnalyzer.java:372-390 | the returned result and the map left behind are those of the short-key analysis of the original map |
| PropertyAnalyzers.PartitionTtlNumberOf | fe/fe-core/src/main/java/com/starrocks/common/util/PropertyAnalyzer.java:392-406 | the INVALID marker with the map untouched when the key is absent; otherwise success exactly when the value parses as a 32-bit number that is positive or equal to the marker, which is returned and its key consumed |
| PropertyAnalyzers.AnalyzePartitionTtlNumber | fe/fe-core/src/main/java/com/starrocks/common/util/PropertyAnalyzer.java:392-406 | the returned result and the map left behind are those of the partition TTL analysis of the original map |
| PropertyAnalyzers.ZstdDigits | fe/fe-core/src/main/java/com/starrocks/common/util/PropertyAnalyzer.java:993-998 | matches exactly the strings made of "zstd(" in any letter case, one or more decimal digits and ")", and captures the digits |
| PropertyAnalyzers.CompressionLevel | fe/fe-core/src/main/java/com/starrocks/common/util/PropertyAnalyzer.java:991-1008 | -1 with the map untouched exactly when the space-free value does not match the zstd pattern; a returned level lies in 1..22 and consumes the key; an error leaves the map untouched |
| PropertyAnalyzers.CompressionLevelOf | fe/fe-core/src/main/java/com/starrocks/common/util/PropertyAnalyzer.java:991-1008 | A zstd level n written in decimal is accepted exactly when 1 <= n <= 22, and is then returned with the key removed; any other level is an error |
| PropertyAnalyzers.ZstdOf | fe/fe-core/src/main/java/com/starrocks/common/util/PropertyAnalyzer.java:993-998 | any letter-case spelling of "zstd(" followed by digits and ")" matches and captures those digits |
| PropertyAnalyzers.AnalyzeCompressionLevel | fe/fe-core/src/main/java/com/starrocks/common/util/PropertyAnalyzer.java:991-1008 | the returned result and the map left behind are those of the compression-level analysis of the original map |
| PropertyAnalyzers.FastSchemaEvolution | fe/fe-core/src/main/java/com/starrocks/common/util/PropertyAnalyzer.java:872-892 | the configured default with the map untouched when neither key is present; otherwise both keys are removed and the value of fast_schema_evolution (else light_schema_change) gives true or false ignoring case, anything else an error |
| PropertyAnalyzers.AnalyzeUseFastSchemaEvolution | fe/fe-core/src/main/java/com/starrocks/common/util/PropertyAnalyzer.java:872-892 | the returned result and the map left behind are those of the fast-schema-evolution analysis of the original map |
| PropertyAnalyzers.ScanFindsKeys | fe/fe-core/src/main/java/com/starrocks/common/util/PropertyAnalyzer.java:308-327 | after the pass over the entries each flag is set exactly when its key (medium, cooldown time, cooldown TTL) occurs in the map ignoring case |
| PropertyAnalyzers.ScanKeepsTime | fe/fe-core/src/main/java/com/starrocks/common/util/PropertyAnalyzer.java:302-327 | without a cooldown-time key the pass leaves the cooldown timestamp at its initial value |
| PropertyAnalyzers.DataPropertyRules | fe/fe-core/src/main/java/com/starrocks/common/util/PropertyAnalyzer.java:329-369 | no data key gives the inferred property and an untouched map; time and TTL together are an error; otherwise the three keys are removed; a cooldown needs an SSD medium; a cooldown time must lie after now; SSD without cooldown takes the SSD default and HDD the maximum |
| PropertyAnalyzers.AnalyzeDataProperty | fe/fe-core/src/main/java/com/starrocks/common/util/PropertyAnalyzer.java:277-370 | the returned result and the map left behind are those of the data-property analysis of the original map; in shared-data mode the three keys are removed and the inferred property returned |
| PropertyAnalyzers.FindColumn | fe/fe-core/src/main/java/com/starrocks/common/util/PropertyAnalyzer.java:918-920 | A found column is in the list and its name equals the entry ignoring case; nothing found means no column's name does |
| PropertyAnalyzers.CheckBloomColumnsMeans | fe/fe-core/src/main/java/com/starrocks/common/util/PropertyAnalyzer.java:915-948 | the loop succeeds exactly when every entry names an eligible column and none repeats an earlier or already-seen name ignoring case, and it then collects the columns' own names |
| PropertyAnalyzers.BloomFilterColumnsRules | fe/fe-core/src/main/java/com/starrocks/common/util/PropertyAnalyzer.java:903-954 | no key gives no set and an untouched map; an empty value gives the empty set; otherwise success exactly when every comma-separated entry is accepted, giving the named columns and consuming the key, and an error leaves the map untouched |
| PropertyAnalyzers.AnalyzeBloomFilterColumns | fe/fe-core/src/main/java/com/starrocks/common/util/PropertyAnalyzer.java:903-954 | the returned result and the map left behind are those of the bloom-filter-columns analysis of the original map |
| PropertyAnalyzers.PutLabelMeans | fe/fe-core/src/main/java/com/starrocks/common/util/PropertyAnalyzer.java:1088-1093 | "key:*" leaves "*" as the only value of the key; any other label adds its value to the key's values; other keys are untouched |
| PropertyAnalyzers.ParseSegmentMeans | fe/fe-core/src/main/java/com/starrocks/common/util/PropertyAnalyzer.java:1081-1087 | A segment is the "*" label exactly when it trims to "*"; the key and value of any other segment are trimmed |
| PropertyAnalyzers.AnalyzeLocationStringToMap | fe/fe-core/src/main/java/com/starrocks/common/util/PropertyAnalyzer.java:1077-1098 | the loop returns exactly the location map the string denotes, including the error of a segment without ":" |
| PropertyAnalyzers.StarEndsLocations | fe/fe-core/src/main/java/com/starrocks/common/util/PropertyAnalyzer.java:1080-1084 | the first "*" segment ends the parse with the labels gathered so far plus ("*","*"), ignoring every later segment |
| PropertyAnalyzers.StarLocation | fe/fe-core/src/main/java/com/starrocks/common/util/PropertyAnalyzer.java:1077-1098 | A "*" segment after well-formed labels makes the parsed map hold the "*" key, whatever follows it in the string |
| PropertyAnalyzers.LocationMapTrimmed | fe/fe-core/src/main/java/com/starrocks/common/util/PropertyAnalyzer.java:1077-1098 | every key and value of a parsed location map is trimmed |
| PropertyAnalyzers.LocationString | fe/fe-core/src/main/java/com/starrocks/common/util/PropertyAnalyzer.java:1156-1164 | the rendered string is "*" exactly when the map has the "*" key |
| PropertyAnalyzers.LocationRoundTrip | fe/fe-core/src/main/java/com/starrocks/common/util/PropertyAnalyzer.java:1077-1164 | rendering a non-empty location map without "*" key and parsing the string again gives the map back, for any iteration order, when keys and values are plain trimmed text |
| PropertyAnalyzers.WildcardSpacing | fe/fe-core/src/main/java/com/starrocks/common/util/PropertyAnalyzer.java:269-275 | in an accepted location a bare "*" between two commas is followed directly by the comma: the pattern allows spaces after a bare "*" only in the first and last label |
| PropertyAnalyzers.ValidateTableLocation | fe/fe-core/src/main/java/com/starrocks/common/util/PropertyAnalyzer.java:1100-1143 | the empty string is returned as it is; a string over 255 characters or not in the location format is an error; an accepted string parses, and the result is "*" exactly when the parsed map has the "*" key |
| PropertyAnalyzers.Stringify | fe/fe-core/src/main/java/com/starrocks/common/util/PropertyAnalyzer.java:1935-1950 | the rendering is empty exactly when the map is empty |
| PropertyAnalyzers.StringifySplits | fe/fe-core/src/main/java/com/starrocks/common/util/PropertyAnalyzer.java:1935-1950 | A non-empty rendering is parenthesised and its inside splits at commas back into one 'key'='value' entry per key in iteration order, so there is no leading or trailing comma |
| PropertyAnalyzers.StringifyProperties | fe/fe-core/src/main/java/com/starrocks/common/util/PropertyAnalyzer.java:1935-1950 | the builder loop produces the rendering of the map in its iteration order |
| PropertyAnalyzers.GetExcludeString | fe/fe-core/src/main/java/com/starrocks/common/util/PropertyAnalyzer.java:1877-1891 | the loop produces the qualified table names (db.tbl, or tbl without a database) joined by commas |
| PropertyAnalyzers.ExcludeStringSplits | fe/fe-core/src/main/java/com/starrocks/common/util/PropertyAnalyzer.java:1877-1891 | the exclude string splits at commas back into the qualified table names, so a comma is placed only between names |
| JsonScanners.JsonType | be/src/exec/json_scanner.cpp:131-171 | the load type of any well-formed column type is well formed and loadable directly (only arrays, structs, maps and the directly read scalars remain) |
| JsonScanners.JsonTypeOfScalar | be/src/exec/json_scanner.cpp:155-170 | the directly read scalars (numbers, boolean, CHAR, VARCHAR, JSON) keep their type and every other scalar is read as the longest VARCHAR |
| JsonScanners.JsonTypeOfComplex | be/src/exec/json_scanner.cpp:133-154 | arrays, structs and maps keep their kind, with one child for an array, two for a map and all of them for a struct, each mapped in place, and a struct keeps its field names |
| JsonScanners.JsonTypeOfLoadable | be/src/exec/json_scanner.cpp:131-171 | A type that can already be loaded directly is its own load type |
| JsonScanners.JsonTypeIdempotent | be/src/exec/json_scanner.cpp:131-171 | mapping a load type again changes nothing |
| JsonScanners.JsonTypes | be/src/exec/json_scanner.cpp:173-185 | one entry per slot: an absent slot has no load type and every present slot a loadable one |
| JsonScanners.SkipWhitespace | be/src/exec/json_scanner.cpp:776-779 | the result is the first position that is not a space, tab, carriage return or newline, or the length when there is none |
| JsonScanners.BlankPayload | be/src/exec/json_scanner.cpp:772-793 | A payload of whitespace only passes the check and is not taken as newline-delimited JSON |
| JsonScanners.FirstSignificant | be/src/exec/json_scanner.cpp:776-791 | after leading whitespace, "{" marks the payload as newline-delimited JSON, "[" as a JSON array, and any other character is a data quality error naming it |
| JsonScanners.JsonReader.CheckNdjson | be/src/exec/json_scanner.cpp:772-793 | the status is the payload's check result and the newline-delimited flag is set when the payload starts with "{" and otherwise kept |
| JsonScanners.SlotDictMeans | be/src/exec/json_scanner.cpp:338-350 | the name-to-column dictionary holds exactly the present slots' names, each mapped to the first column with that name |
| JsonScanners.OpIndex | be/src/exec/json_scanner.cpp:336-347 | -1 exactly when no column is named __op; otherwise the last column named __op |
| JsonScanners.JsonReader.constructor | be/src/exec/json_scanner.cpp:326-351 | the reader keeps its slots, starts with an empty payload, no remembered positions and zero counters, and its dictionary and __op column are those of the slots |
| JsonScanners.FirstValueMeans | be/src/exec/json_scanner.cpp:576-585 | A column takes the value of the first field whose key maps to it, and has no value exactly when no field maps to it; duplicate keys are ignored |
| JsonScanners.RowStatusMeans | be/src/exec/json_scanner.cpp:586-598 | an object fills without error exactly when every value a column takes loads into that column |
| JsonScanners.RowStatusPrefix | be/src/exec/json_scanner.cpp:590-591 | once a prefix of the object has failed the object fails with that same status |
| JsonScanners.JsonReader.FindColumn | be/src/exec/json_scanner.cpp:539-574 | the column found for a key, through the remembered position or the dictionary, is the dictionary's column for the key, and -1 means the key has none; the key and that column are remembered at place k for the next object (appended when k is one past the end), and every other remembered position stays |
| JsonScanners.JsonReader.FillMissing | be/src/exec/json_scanner.cpp:601-616 | every column the object left unfilled receives one null, or "0" for the __op column |
| JsonScanners.JsonReader.ConstructRowWithoutJsonpath | be/src/exec/json_scanner.cpp:511-618 | the status is OK exactly when every value taken loads; then every column grows by its first value, or its default cell; on failure the columns only extend the old ones |
| JsonScanners.DefaultCell | be/src/exec/json_scanner.cpp:601-642 | the cell for a column without data is the "0" default exactly for __op and a null for every other column |
| JsonScanners.SlotCell | be/src/exec/json_scanner.cpp:631-678 | A slot without a JSON path or whose path is not found takes its default cell, an extraction failure stops the row with that failure, and a value appears only when the path was found |
| JsonScanners.PathRowOk | be/src/exec/json_scanner.cpp:620-682 | the row goes through exactly when every present slot has a cell |
| JsonScanners.PathRowFills | be/src/exec/json_scanner.cpp:620-682 | A row that goes through adds exactly one cell to every column and keeps the earlier cells |
| JsonScanners.PathRowCell | be/src/exec/json_scanner.cpp:623-680 | each present slot puts its own cell at the end of its own column |
| JsonScanners.PathRowStops | be/src/exec/json_scanner.cpp:676-678 | A slot whose cell is a failure ends the row with that failure, the cells appended so far extending the old columns |
| JsonScanners.JsonReader.ConstructRowWithJsonpath | be/src/exec/json_scanner.cpp:620-682 | the status is OK exactly when the path-driven row goes through, and then the chunk holds it; otherwise the status is the first failure and the columns only extend the old ones |
| JsonScanners.JsonReader.RowResult | be/src/exec/json_scanner.cpp:684-688 | reading one object, by keys without JSON paths or by paths otherwise, either fails or grows every column by exactly one cell, keeping the earlier cells |
| JsonScanners.JsonReader.ConstructRow | be/src/exec/json_scanner.cpp:684-688 | the status is OK exactly when the object's row is produced, and the chunk then holds it; on failure the columns only extend the old ones |
| JsonScanners.Rollback | be/src/exec/json_scanner.cpp:476-494 | cutting every column of an extension back to the old row count restores the old columns exactly |
| JsonScanners.Chunk.SetNumRows | be/src/exec/json_scanner.cpp:494 | every column is cut back to its first n cells |
| JsonScanners.JsonReader.ReadObject | be/src/exec/json_scanner.cpp:476-496 | an object that fills adds its row; one that fails is counted as filtered and leaves the chunk exactly as before |
| JsonScanners.JsonReader.ReadRows | be/src/exec/json_scanner.cpp:460-509 | the status, columns, filtered count, document position and rows read are those of the reading loop's specification started from the reader's state |
| JsonScanners.JsonReader.LoadCounts | be/src/exec/json_scanner.cpp:460-509 | rows read only grow and match the documents consumed; filtered rows grow by at most one per row read plus one broken document; OK means the requested rows were read, and no more are read than requested |
| JsonScanners.JsonReader.LoadColumns | be/src/exec/json_scanner.cpp:460-509 | the loop's columns extend the starting ones and stay of one common length, so a failed object leaves no partial row behind |
| JsonScanners.JsonReader.ReadFileBroker | be/src/exec/json_scanner.cpp:721-770 | A size failure is returned; size 0 is end of file; a size at or above the limit is refused; otherwise the buffer grows to size plus padding when too small, a read failure is returned, an empty read is end of file, and OK exactly when a non-empty read becomes the payload; the early returns leave payload, capacity and buffer size unchanged, a failed read leaves the buffer size as it was (0 after a reallocation), and no failure touches the payload |

## Left out

Frontend: transactions, publishing and the leader

- Asynchronous completion (CompletableFuture chains, the lake and delete-log executors) is modelled as separate completion events that the caller fires.
- PublishDaemon.LakeGuards.PublishVersionForLakeTable, PublishDaemon.LakeGuards.PublishVersionForLakeTableBatch and PublishDaemon.SelectBatches: in the source a publish future can already be complete when it is returned. This happens when the database is gone (PublishVersionDaemon.java:462-469, 725-736), and when every partition is already published or still in its back-off (803-807, with the chain at 483-497 completing inline). `thenRun` then releases the guard entry in the submitting loop itself (398-399, 423-424, 449-450), before the next ready transaction or batch is decided. The model keeps every claim until OnLakeTransactionDone or OnBatchDone is fired, so it does not capture this inline release. A later item in the same tick that the released entry would have let through is skipped here. Example: a multi-transaction batch for table t whose database is gone, followed by a one-transaction batch that also writes t.
- Publish tasks are shared between the agent-task queue and a transaction's task map. The model holds them by value in both places (`AgentTasks.AgentTask`), so aliasing between the two is not modelled.
- AgentTaskQueue.java, AgentTask.java, PublishVersionTask.java and TransactionStatus.java are not part of this model. Only the parts the core uses are modelled, and the UNKNOWN status is not.
- The INSERT_STREAMING statistics, the replica versions of the new publish mechanism, and the RPC that deletes transaction logs are left out. They are bookkeeping or foreign calls.
- An unset `error_msgs` list in a report is treated as empty.
- The leader's catalog and the handlers outside the modelled report types are reduced to their outcome (`Leader.HandlerEnv`): whether the handler raises and, for a handler without a `finally` block that drops the task, whether it removes the task.
- The push latch is not modelled, because it is a concurrency primitive.
- The commit lock timeout in `commitRemoteTxn` is a parameter. Its outcome is an Err result.
- Locks, thread pools, logging and metrics are left out on both sides.

Lake primary-key index

- The header that declares the KeyValueMerger constructor is not part of this model.
- The definition of NullIndexValue is not part of this model. It is a parameter.
- LakeIndex.CheckOrder: compares max_rss_rowid as an unsigned 64-bit value. The source reads it into an int64, so order differences above 2^63 are not modelled.
- LakeIndex.LakePersistentIndex.FlushMemtable: the file I/O of minor_compact and its failures are not modelled. The contract states only the index state after a successful flush.
- upsert, insert, erase, replay_erase, replace, major_compact, prepare_merging_iterator, load_from_lake_tablet and is_memtable_full are not modelled. They are memtable internals and sstable/file I/O.
- LakeIndex.NeedsRowsetRebuild: `rowset.id() + segments_size()` is computed in uint32 in the source (lake_persistent_index.cpp:661) and can wrap; the model adds without bounds, so a rowset whose id plus segment count passes 2^32 is not modelled.
- `need_rebuild_file_cnt` counts some files twice. The model keeps the count as written and bounds it with LakeIndex.RowsetRebuildFilesBound.
- The floating-point merge ratio of `pick_sstables_for_merge` is modelled as an exact rational comparison.
- The binary search in `lower_bound` is modelled by its result (the first position not below the key), computed linearly.

Tablet registry

- Negative tablet ids are not modelled; ids are naturals.
- The RE2 path pattern is modelled by a hand-written matcher over the same path shapes.
- Columns are modelled by name and unique id only. Their types, default values and other attributes, which `_create_tablet_meta_unlocked` copies, are left out.
- Column unique ids are unbounded naturals. The uint32 wrap-around of `next_unique_id` is not modelled. Neither is its decrement below 0 when a base schema ending in the full-row column has no ids left; the model requires at least one.
- `_internal_create_tablet_unlocked`, save_meta and update_meta are not modelled, because they create tablet files and write the meta store.
- Directory creation, moves to trash and other file I/O are left out.
- A primary-key tablet without updates would dereference null in the source. The model requires the updates object to be present.

Sender queues and receivers

- A slot map of odd length is not modelled. The protobuf always sends key/value pairs.
- `extra_data_metas` is left out.
- The unplug threshold is a parameter.
- SenderQueues.BuildChunkMeta: requires every column index in the slot map to lie within the null flags (`IndicesInRange`). The source writes the column types at those indexes without a check, which is undefined behaviour outside that range, so that case is not modelled.
- Chunk decoding is a parameter (the `decoded` field of each chunk), since serde is outside the core.
- PipelineSenderQueues.PipelineSenderQueue.EnqueueOne: the second short-circuit check inside the enqueue loop (816-821) is not modelled. It only matters when another thread short-circuits the driver mid-request.
- The moodycamel lock-free queues are modelled as sequences.
- Atomics, timers and profile counters other than the memory counters are left out.
- PipelineSenderQueues.PipelineSenderQueue: the source keeps one buffer-memory counter per driver. Enqueue and the short circuit update `_recvr->_metrics[driver_sequence]` (sender_queue.cpp:453, 487, 837, 851). `get_chunk` updates `_metrics[0]` (569, 583), and `try_get_chunk` the round-robin choice of `get_metrics_round_robin()` (507, 524). The model keeps the sum of these per-driver counters in the single field `peakBufferMemBytes`, so which driver's counter a chunk is charged to is not modelled.
- The receiver registry's destructor is not modelled.
- The PUniqueId overload of `transmit_chunk` (data_stream_mgr.cpp:126-135) is not modelled. It only converts the id and calls the modelled overload.
- HashUtil::hash is a parameter.

Metrics

- A MetricCollector is modelled as a value owned by the registry, not as a heap object.
- The registry's destructor is not modelled.
- The constructors of Metric and MetricRegistry are declared in be/src/util/metrics.h, which is not part of this model. Their initial state is modelled without a source row.
- Locks and concurrent registration are not modelled.
- The stream-output names of MetricType (metrics.cpp:43-65) carry no property. They appear only as an uncontracted function.

Array functions

- The typed dispatch over element column types, and the NotSupported errors for unsupported types, are reduced to one generic element type.
- array_cum_sum is left out, because it involves floating point.
- array_intersect, array_sortby, array_flatten, array_map and array_filter are not part of the modelled core.
- The fnv hash used by distinct is a parameter. The contract holds for any hash function.
- ArrayFunctions.ArrayAppend: the array column is taken as not nullable. For a nullable one the source computes over the data column and hands back the input's null column unchanged (array_functions.cpp:134-135), so a NULL array row stays NULL; that null column is not represented.
- ArrayFunctions.ArrayRemove: a NULL array row is not represented. The source works on the data column and keeps the array's null flags, so such a row stays NULL.
- ArrayFunctions.ArrayContains: a NULL array row is not represented. The source computes on the data column and, when the array column holds a NULL, attaches a copy of its null column to the result (array_functions.cpp:698-703), so such a row answers NULL.
- ArrayFunctions.SliceItem: the end position `offset + length` is computed in int64 in the source (array_functions.cpp:1192) and can overflow; the model adds without bounds. For offset 2 and length INT64_MAX the source's sum wraps negative and the slice is empty, while the model returns the whole tail.
- ArrayFunctions.ArraySlice: inherits the int64 overflow of `offset + length` left out for SliceItem (array_functions.cpp:1192).
- ArrayFunctions.ArrayLength: a NULL array row is not represented. The source copies the array's null flags into the result (array_functions.cpp:58-61), so such a row's length is NULL.
- ArrayFunctions.ArrayHas: a NULL row of the array or the target is not represented. The source merges the two null columns into the result's (array_functions.cpp:1034-1040), so such a row answers NULL.
- ArrayFunctions.ArrayHasSeq: a NULL row of the array or the target is not represented. The source merges the two null columns into the result's (array_functions.cpp:1034-1040), so such a row answers NULL.
- ArrayFunctions.ArraySlice: a NULL row of the array, offset or length column is not represented. The source unions their null columns into the result's, so such a row is NULL.

Property analyzer

- A null property map is not modelled, since Dafny maps are values.
- `equalsIgnoreCase` and `toLowerCase` are modelled as ASCII case folding.
- String length is counted in characters.
- The check of location labels against the backends in `validateTableLocationProperty` is not modelled, since it needs cluster state.
- `DateLiteral` parsing of a cooldown time is a parameter. It yields the timestamp or the parser's own error message, which the analysis passes on unchanged.
- Messages built from a NumberFormatException (`"Short key: " + e.getMessage()`, the partition TTL number and the like) end in the fixed text `number format error`, since the JDK's exception text is not part of this model.
- PropertyAnalyzers.ShortKeyColumnCount: `Short.parseShort` (PropertyAnalyzer.java:377) reads any Unicode decimal digit through `Character.digit`. The model's parse accepts only the ASCII digits '0'..'9', so a value such as fullwidth "１２" is an error here but 12 in the source.
- PropertyAnalyzers.AnalyzeShortKeyColumnCount: inherits the ASCII-only parse of ShortKeyColumnCount; a non-ASCII decimal digit is not accepted.
- PropertyAnalyzers.PartitionTtlNumberOf: `Integer.parseInt` (PropertyAnalyzer.java:396) reads any Unicode decimal digit through `Character.digit`. The model's parse accepts only the ASCII digits '0'..'9', so such a value is an error here but a number in the source.
- PropertyAnalyzers.AnalyzePartitionTtlNumber: inherits the ASCII-only parse of PartitionTtlNumberOf; a non-ASCII decimal digit is not accepted.
- PropertyAnalyzers.StarLocation: stated at the level of parsed segments. The source's check that the whole string matches the label grammar is a separate predicate.
- PropertyAnalyzers.AnalyzeLocationStringToMap: a `*` segment adds the pair (`*`, `*`), as in the source. The multimap is modelled as a set of pairs, so insertion order is not kept.

JSON scanner

- simdjson's parsers and its exceptions are modelled as documents that are either objects or broken.
- The choice between the ndjson and document parsers, and the text of error messages, are left out.
- A path of exactly `$` (the whole object) is treated like any other extraction.
- Value extraction and loading into a column are parameters (`extract`, `convert`).
- On a failed read, the payload aliases the reader's buffer. This is not modelled.
- Chunk::set_num_rows is not part of this model as code. Its effect is modelled as `Chunk.SetNumRows`.
- The message text of end of file is not modelled.
- MAX_VARCHAR_LENGTH, SIMDJSON_PADDING and json_file_size_limit are parameters.
- The order of the chunk's column index is taken as slot order.
- read_chunk and _read_and_parse_json are not modelled. They are parser set-up and I/O around `_read_rows`.

## Findings

| source | as written | input that shows it | evidently intended | confidence | as-written member | corrected member |
|---|---|---|---|---|---|---|
| be/src/runtime/sender_queue.cpp:835-855 | `short_circuit` drains a driver's queue and adds the drained bytes to the peak-memory counter again instead of subtracting them | a driver whose queue holds one chunk of b > 0 bytes: after the short circuit the counter reads 2b instead of 0 | the counter drops by the bytes drained, as every other dequeue path does | not executed | PipelineSenderQueues.ShortCircuitCounterDrifts, PipelineSenderQueues.PipelineSenderQueue.ShortCircuitAsWritten | PipelineSenderQueues.PipelineSenderQueue.ShortCircuit |
| be/src/exprs/array_functions.cpp:208-220 | with nulls among both elements and targets, a non-null element meeting a non-null target is counted as found without being compared, so it is removed | rows [[null], [null, 1, 2]] with targets [null, 1]: the second row comes out as [null] | the element is removed only when it equals the target, giving [null, 2] | not executed | ArrayFunctions.RemoveAsWrittenDropsUnequal | ArrayFunctions.RemoveFromRow, ArrayFunctions.RemoveRows |
