/**
 * The front end's tick-driven publish scheduler: which path a tick takes, the size of the
 * lake publish pool, the sign-encoded per-partition retry time, the version-gap guards of a
 * partition publish, the two in-flight guard sets of the lake paths and the finish decision
 * of the shared-nothing (olap) path.
 *
 * Asynchronous completion is a separate event method; catalog lookups are maps from table
 * id to partition id to visible version; the outcome of each publish RPC and of the
 * transaction manager's calls is a parameter.
 */
module PublishDaemon {
  import opened Wrappers
  import opened TransactionState
  import opened AgentTasks

  const RETRY_INTERVAL_MS: int := 1000
  const LAKE_PUBLISH_THREAD_POOL_DEFAULT_MAX_SIZE: int := 512
  const LAKE_PUBLISH_THREAD_POOL_HARD_LIMIT_SIZE: int := 4096
  const LAKE_PUBLISH_MAX_QUEUE_SIZE: int := 4096

  // ---------------------------------------------------------------------------------------
  // Tick dispatch

  datatype TickAction = PublishLakeBatches | Idle | PublishOlap | PublishLake

  /**
   * runAfterCatalogReady: batch publish in shared-data mode when enabled (idle when no batch is
   * ready); otherwise nothing without ready transactions or without any backend, and then the
   * olap path in shared-nothing mode and the lake path in shared-data mode.
   */
  function ChooseTickAction(batchPublishEnabled: bool, sharedData: bool, readyBatches: nat,
                            readyTxns: nat, backends: nat): (a: TickAction)
    ensures a == PublishOlap ==> !sharedData && readyTxns > 0 && backends > 0
    ensures a == PublishLake ==> sharedData && !batchPublishEnabled && readyTxns > 0 && backends > 0
    ensures a == PublishLakeBatches <==> batchPublishEnabled && sharedData && readyBatches > 0
    ensures a == Idle <==> (if batchPublishEnabled && sharedData then readyBatches == 0
                            else readyTxns == 0 || backends == 0)
  {
    if batchPublishEnabled && sharedData then
      if readyBatches != 0 then PublishLakeBatches else Idle
    else if readyTxns == 0 then Idle
    else if backends == 0 then Idle
    else if !sharedData then PublishOlap
    else PublishLake
  }

  // ---------------------------------------------------------------------------------------
  // Lake publish pool size

  predicate PoolSizeInRange(n: int) {
    0 < n <= LAKE_PUBLISH_THREAD_POOL_HARD_LIMIT_SIZE
  }

  /** getOrFixLakeTaskExecutorThreadPoolMaxSizeConfig: an out-of-range setting becomes the default. */
  function FixedPoolSize(configured: int): (r: int)
    ensures PoolSizeInRange(r)
    ensures PoolSizeInRange(configured) ==> r == configured
    ensures !PoolSizeInRange(configured) ==> r == LAKE_PUBLISH_THREAD_POOL_DEFAULT_MAX_SIZE
  {
    if configured <= 0 then LAKE_PUBLISH_THREAD_POOL_DEFAULT_MAX_SIZE
    else if configured > LAKE_PUBLISH_THREAD_POOL_HARD_LIMIT_SIZE then LAKE_PUBLISH_THREAD_POOL_DEFAULT_MAX_SIZE
    else configured
  }

  /** adjustLakeTaskExecutor: an out-of-range setting is ignored, a valid one is taken. */
  function AdjustedPoolSize(current: int, configured: int): int {
    if configured > LAKE_PUBLISH_THREAD_POOL_HARD_LIMIT_SIZE || configured <= 0 then current else configured
  }

  /** The pool size after creation with `initial` and a sequence of runtime configuration changes. */
  function PoolSizeAfter(initial: int, updates: seq<int>): int {
    if updates == [] then FixedPoolSize(initial)
    else AdjustedPoolSize(PoolSizeAfter(initial, updates[..|updates| - 1]), updates[|updates| - 1])
  }

  /**
   * Whatever the configured values, the pool size stays in (0, 4096]; it is the last valid
   * setting, or the creation-time value when no valid setting came later.
   */
  lemma {:induction false} PoolSizeAlwaysInRange(initial: int, updates: seq<int>)
    ensures PoolSizeInRange(PoolSizeAfter(initial, updates))
    ensures updates != [] && PoolSizeInRange(updates[|updates| - 1]) ==>
            PoolSizeAfter(initial, updates) == updates[|updates| - 1]
    ensures (forall i :: 0 <= i < |updates| ==> !PoolSizeInRange(updates[i])) ==>
            PoolSizeAfter(initial, updates) == FixedPoolSize(initial)
  {
    if updates != [] {
      var prefix := updates[..|updates| - 1];
      PoolSizeAlwaysInRange(initial, prefix);
      if forall i :: 0 <= i < |updates| ==> !PoolSizeInRange(updates[i]) {
        assert forall i :: 0 <= i < |prefix| ==> prefix[i] == updates[i];
      }
    }
  }

  // ---------------------------------------------------------------------------------------
  // Per-partition retry through the sign-encoded version time

  datatype LaunchDecision = AlreadyPublished | TooSoon | Launch

  /**
   * publishLakePartitionAsync: a positive version time is a recorded success; a negative one is
   * a failure at |t| that is not retried within RETRY_INTERVAL_MS; otherwise the publish runs.
   */
  function PartitionLaunch(versionTime: int, now: int): LaunchDecision {
    if versionTime > 0 then AlreadyPublished
    else if versionTime < 0 && now < -versionTime + RETRY_INTERVAL_MS then TooSoon
    else Launch
  }

  /** The version time a finished attempt records: +now on success, -now on failure. */
  function RecordedVersionTime(success: bool, now: int): int {
    if success then now else -now
  }

  /** The result an attempt reports and the version time it leaves behind. */
  function PartitionAttempt(versionTime: int, now: int, publishSucceeds: bool, completedAt: int): (r: (bool, int))
  {
    match PartitionLaunch(versionTime, now)
    case AlreadyPublished => (true, versionTime)
    case TooSoon => (false, versionTime)
    case Launch => (publishSucceeds, RecordedVersionTime(publishSucceeds, completedAt))
  }

  /**
   * After a success recorded at a positive time, every later attempt succeeds without
   * publishing; after a failure recorded at t > 0, attempts before t + 1000 fail without
   * publishing and attempts from then on publish again.
   */
  lemma RetryBackOff(success: bool, t: int, now: int, publishSucceeds: bool, completedAt: int)
    requires t > 0
    ensures success ==> PartitionLaunch(RecordedVersionTime(success, t), now) == AlreadyPublished
                        && PartitionAttempt(RecordedVersionTime(success, t), now, publishSucceeds, completedAt)
                           == (true, t)
    ensures !success && now < t + RETRY_INTERVAL_MS ==>
            PartitionAttempt(RecordedVersionTime(success, t), now, publishSucceeds, completedAt) == (false, -t)
    ensures !success && now >= t + RETRY_INTERVAL_MS ==>
            PartitionLaunch(RecordedVersionTime(success, t), now) == Launch
    ensures PartitionLaunch(0, now) == Launch
  {
  }

  // ---------------------------------------------------------------------------------------
  // Version-gap guards

  /** The base and target versions sent to the tablets of a partition. */
  datatype PublishRange = PublishRange(baseVersion: int, endVersion: int)

  datatype PartitionOutcome = PartitionOutcome(ok: bool, tableDropped: bool, published: Option<PublishRange>)

  /**
   * publishPartition against the catalog (table id to partition id to visible version): a
   * dropped table (removed from the transaction) or a dropped partition is a success; a
   * version gap fails unless the load is a replication; otherwise the range from the visible
   * version to the transaction's version is published, and the RPC outcome is the result.
   */
  function PublishPartition(catalog: map<int, map<int, int>>, tableId: int, partitionId: int,
                            sourceType: LoadJobSourceType, txnVersion: int, publishSucceeds: bool): PartitionOutcome
  {
    if tableId !in catalog then PartitionOutcome(true, true, None)
    else if partitionId !in catalog[tableId] then PartitionOutcome(true, false, None)
    else
      var visible := catalog[tableId][partitionId];
      if sourceType != REPLICATION && visible + 1 != txnVersion then PartitionOutcome(false, false, None)
      else PartitionOutcome(publishSucceeds, false, Some(PublishRange(visible, txnVersion)))
  }

  /**
   * Nothing is published on a missing table or partition; a non-replication publish always
   * moves the partition exactly one version forward from what is visible; and a publish is
   * refused exactly on a gap.
   */
  lemma PublishPartitionGuards(catalog: map<int, map<int, int>>, tableId: int, partitionId: int,
                               sourceType: LoadJobSourceType, txnVersion: int, publishSucceeds: bool)
    ensures var o := PublishPartition(catalog, tableId, partitionId, sourceType, txnVersion, publishSucceeds);
            && (o.tableDropped <==> tableId !in catalog)
            && (o.published.Some? <==> tableId in catalog && partitionId in catalog[tableId]
                                        && (sourceType == REPLICATION || catalog[tableId][partitionId] + 1 == txnVersion))
            && (o.published.Some? ==> o.published.value == PublishRange(catalog[tableId][partitionId], txnVersion))
            && (o.published.Some? && sourceType != REPLICATION ==>
                  o.published.value.baseVersion + 1 == o.published.value.endVersion)
            && (o.published.None? ==> o.ok == (tableId !in catalog || partitionId !in catalog[tableId]))
            && (o.published.Some? ==> o.ok == publishSucceeds)
  {
  }

  /** Applies a partition publish to the transaction: a dropped table leaves its commit info. */
  method PublishPartitionOf(txn: Txn, catalog: map<int, map<int, int>>, tableId: int, partitionId: int,
                            txnVersion: int, publishSucceeds: bool) returns (o: PartitionOutcome)
    modifies txn`tableCommitInfos
    ensures o == PublishPartition(catalog, tableId, partitionId, txn.sourceType, txnVersion, publishSucceeds)
    ensures o.tableDropped ==> txn.tableCommitInfos == Without(old(txn.tableCommitInfos), tableId)
    ensures !o.tableDropped ==> txn.tableCommitInfos == old(txn.tableCommitInfos)
  {
    o := PublishPartition(catalog, tableId, partitionId, txn.sourceType, txnVersion, publishSucceeds);
    if o.tableDropped {
      txn.RemoveTable(tableId);
    }
  }

  /**
   * publishPartitionBatch: a missing table or partition is a success; a batch whose first
   * version does not directly follow the visible one fails; otherwise the range from the
   * version before the first to the last version is published.
   */
  function PublishPartitionBatch(catalog: map<int, map<int, int>>, tableId: int, partitionId: int,
                                 versions: seq<int>, publishSucceeds: bool): (o: PartitionOutcome)
    requires |versions| > 0
  {
    if tableId !in catalog then PartitionOutcome(true, false, None)
    else if partitionId !in catalog[tableId] then PartitionOutcome(true, false, None)
    else if catalog[tableId][partitionId] + 1 != versions[0] then PartitionOutcome(false, false, None)
    else PartitionOutcome(publishSucceeds, false, Some(PublishRange(versions[0] - 1, versions[|versions| - 1])))
  }

  /** `versions` goes up by one at each step. */
  predicate Consecutive(versions: seq<int>) {
    forall i :: 0 <= i < |versions| - 1 ==> versions[i + 1] == versions[i] + 1
  }

  lemma {:induction false} ConsecutiveLast(versions: seq<int>)
    requires |versions| > 0 && Consecutive(versions)
    ensures versions[|versions| - 1] == versions[0] + |versions| - 1
  {
    if |versions| > 1 {
      var prefix := versions[..|versions| - 1];
      assert Consecutive(prefix);
      ConsecutiveLast(prefix);
    }
  }

  /**
   * A batch is published only on top of the visible version, and for consecutive versions the
   * published range spans exactly one version per transaction of the batch.
   */
  lemma BatchPublishRange(catalog: map<int, map<int, int>>, tableId: int, partitionId: int,
                          versions: seq<int>, publishSucceeds: bool)
    requires |versions| > 0
    ensures var o := PublishPartitionBatch(catalog, tableId, partitionId, versions, publishSucceeds);
            && (o.published.Some? <==> tableId in catalog && partitionId in catalog[tableId]
                                        && catalog[tableId][partitionId] + 1 == versions[0])
            && (o.published.Some? ==> o.published.value.baseVersion == catalog[tableId][partitionId]
                                      && o.ok == publishSucceeds)
            && (o.published.Some? && Consecutive(versions) ==>
                  o.published.value.endVersion - o.published.value.baseVersion == |versions|)
            && (o.published.None? ==> (o.ok <==> tableId !in catalog || partitionId !in catalog[tableId]))
  {
    if Consecutive(versions) {
      ConsecutiveLast(versions);
    }
  }

  // ---------------------------------------------------------------------------------------
  // Lake batch: grouping the transactions of a batch by partition

  /** One transaction of a batch: its id and the partitions of the batch's table it wrote. */
  datatype BatchTxn = BatchTxn(txnId: int, partitionIds: seq<int>)

  /** The ids, in batch order, of the transactions that wrote partition `p`. */
  function TxnsOfPartition(states: seq<BatchTxn>, p: int): seq<int> {
    if states == [] then []
    else (if p in states[0].partitionIds then [states[0].txnId] else []) + TxnsOfPartition(states[1..], p)
  }

  lemma {:induction false} TxnsOfPartitionNonEmpty(states: seq<BatchTxn>, p: int)
    ensures |TxnsOfPartition(states, p)| > 0 <==> exists i :: 0 <= i < |states| && p in states[i].partitionIds
  {
    if states != [] {
      TxnsOfPartitionNonEmpty(states[1..], p);
      if exists i :: 0 <= i < |states| && p in states[i].partitionIds {
        var i :| 0 <= i < |states| && p in states[i].partitionIds;
        if i > 0 {
          assert p in states[1..][i - 1].partitionIds;
        }
      }
      if exists i :: 0 <= i < |states[1..]| && p in states[1..][i].partitionIds {
        var i :| 0 <= i < |states[1..]| && p in states[1..][i].partitionIds;
        assert p in states[i + 1].partitionIds;
      }
    }
  }

  /**
   * The per-partition publish data of publishLakeTransactionBatchAsync: one entry per partition
   * any transaction wrote, listing in batch order every transaction that wrote it, so each
   * entry has at least one version.
   */
  method GroupByPartition(states: seq<BatchTxn>) returns (m: map<int, seq<int>>)
    requires forall i :: 0 <= i < |states| ==> Distinct(states[i].partitionIds)
    ensures forall p :: p in m <==> exists i :: 0 <= i < |states| && p in states[i].partitionIds
    ensures forall p :: p in m ==> m[p] == TxnsOfPartition(states, p) && |m[p]| > 0
  {
    m := map[];
    var i := 0;
    while i < |states|
      invariant 0 <= i <= |states| && GroupedUpTo(states, i, m)
    {
      ghost var prev := m;
      m := AppendToPartitions(m, states[i].txnId, states[i].partitionIds);
      GroupStep(states, i, prev, m);
      i := i + 1;
    }
    GroupedAll(states, m);
  }

  /** `m` groups the first `n` transactions of `states` by partition. */
  ghost predicate GroupedUpTo(states: seq<BatchTxn>, n: nat, m: map<int, seq<int>>)
    requires n <= |states|
  {
    (forall p :: p in m <==> exists k :: 0 <= k < n && p in states[k].partitionIds)
    && (forall p :: p in m ==> m[p] == TxnsOfPartition(states[..n], p))
  }

  /** Grouping the whole batch gives every written partition a non-empty entry. */
  lemma GroupedAll(states: seq<BatchTxn>, m: map<int, seq<int>>)
    requires GroupedUpTo(states, |states|, m)
    ensures forall p :: p in m <==> exists i :: 0 <= i < |states| && p in states[i].partitionIds
    ensures forall p :: p in m ==> m[p] == TxnsOfPartition(states, p) && |m[p]| > 0
  {
    assert states[..|states|] == states;
    forall p | p in m
      ensures |m[p]| > 0
    {
      TxnsOfPartitionNonEmpty(states, p);
    }
  }

  /** One iteration of GroupByPartition keeps its invariants. */
  lemma GroupStep(states: seq<BatchTxn>, i: nat, prev: map<int, seq<int>>, m: map<int, seq<int>>)
    requires i < |states| && GroupedUpTo(states, i, prev)
    requires forall p :: p in m <==> p in prev || p in states[i].partitionIds
    requires forall p :: p in m ==>
               m[p] == (if p in prev then prev[p] else []) + (if p in states[i].partitionIds then [states[i].txnId] else [])
    ensures GroupedUpTo(states, i + 1, m)
  {
    forall p | p in m
      ensures m[p] == TxnsOfPartition(states[..i + 1], p)
    {
      GroupStepEntry(states, i, prev, p);
    }
    forall p
      ensures p in m <==> exists k :: 0 <= k < i + 1 && p in states[k].partitionIds
    {
      if p in states[i].partitionIds {
        assert 0 <= i < i + 1 && p in states[i].partitionIds;
      }
    }
  }

  /** The entry of one partition after the step: the earlier entry, plus the new transaction if it wrote there. */
  lemma GroupStepEntry(states: seq<BatchTxn>, i: nat, prev: map<int, seq<int>>, p: int)
    requires i < |states| && GroupedUpTo(states, i, prev)
    ensures TxnsOfPartition(states[..i + 1], p)
            == (if p in prev then prev[p] else []) + (if p in states[i].partitionIds then [states[i].txnId] else [])
  {
    assert states[..i + 1] == states[..i] + [states[i]];
    TxnsOfPartitionSnoc(states[..i], states[i], p);
    if p !in prev {
      TxnsOfPartitionNonEmpty(states[..i], p);
      assert forall k :: 0 <= k < i ==> states[..i][k] == states[k];
    }
  }

  /** Appends one transaction to the entry of each partition it wrote, creating missing entries. */
  method AppendToPartitions(m0: map<int, seq<int>>, txnId: int, ps: seq<int>) returns (m: map<int, seq<int>>)
    requires Distinct(ps)
    ensures forall p :: p in m <==> p in m0 || p in ps
    ensures forall p :: p in m ==> m[p] == (if p in m0 then m0[p] else []) + (if p in ps then [txnId] else [])
  {
    m := m0;
    var j := 0;
    while j < |ps|
      invariant 0 <= j <= |ps| && AppendedUpTo(m0, txnId, ps[..j], m)
    {
      ghost var prev := m;
      var p := ps[j];
      var entry := if p in m then m[p] else [];
      m := m[p := entry + [txnId]];
      AppendStep(m0, txnId, ps, j, prev, m);
      j := j + 1;
    }
    assert ps[..j] == ps;
  }

  /** `m` is `m0` with `txnId` appended to the entry of every partition in `done`. */
  ghost predicate AppendedUpTo(m0: map<int, seq<int>>, txnId: int, done: seq<int>, m: map<int, seq<int>>) {
    (forall p :: p in m <==> p in m0 || p in done)
    && (forall p :: p in m ==> m[p] == (if p in m0 then m0[p] else []) + (if p in done then [txnId] else []))
  }

  /** One iteration of AppendToPartitions keeps its invariant. */
  lemma AppendStep(m0: map<int, seq<int>>, txnId: int, ps: seq<int>, j: nat, prev: map<int, seq<int>>, m: map<int, seq<int>>)
    requires Distinct(ps) && j < |ps| && AppendedUpTo(m0, txnId, ps[..j], prev)
    requires m == prev[ps[j] := (if ps[j] in prev then prev[ps[j]] else []) + [txnId]]
    ensures AppendedUpTo(m0, txnId, ps[..j + 1], m)
  {
    var p := ps[j];
    assert p !in ps[..j];
    assert ps[..j + 1] == ps[..j] + [p];
    forall q | q in m
      ensures m[q] == (if q in m0 then m0[q] else []) + (if q in ps[..j + 1] then [txnId] else [])
    {
      if q != p {
        assert q in prev && m[q] == prev[q];
      }
    }
  }

  lemma {:induction false} TxnsOfPartitionSnoc(states: seq<BatchTxn>, last: BatchTxn, p: int)
    ensures TxnsOfPartition(states + [last], p)
            == TxnsOfPartition(states, p) + (if p in last.partitionIds then [last.txnId] else [])
  {
    if states == [] {
      assert [last][1..] == [];
    } else {
      var xs := states + [last];
      assert xs[0] == states[0];
      assert xs[1..] == states[1..] + [last];
      var head := if p in states[0].partitionIds then [states[0].txnId] else [];
      var tail := if p in last.partitionIds then [last.txnId] else [];
      var rest := TxnsOfPartition(states[1..], p);
      TxnsOfPartitionSnoc(states[1..], last, p);
      assert TxnsOfPartition(xs, p) == head + (rest + tail);
      assert head + (rest + tail) == (head + rest) + tail;
    }
  }

  // ---------------------------------------------------------------------------------------
  // Lake publish start and completion

  /** A call to the transaction manager's finish: the error-replica set, or None for null. */
  datatype FinishCall = FinishCall(txnId: int, errorReplicas: Option<set<int>>)

  /**
   * The finish calls made for the transactions of a dropped database: each gets an empty error
   * set, in order, until a call throws (`finishThrows`), which ends the loop.
   */
  function DroppedDbFinishes(txnIds: seq<int>, finishThrows: int -> bool): seq<FinishCall> {
    if txnIds == [] then []
    else if finishThrows(txnIds[0]) then [FinishCall(txnIds[0], Some({}))]
    else [FinishCall(txnIds[0], Some({}))] + DroppedDbFinishes(txnIds[1..], finishThrows)
  }

  /**
   * A dropped database finishes every transaction of a single transaction or a batch with an
   * empty error set, in order, unless a finish call throws; each call is for a transaction of
   * the batch and carries the empty set.
   */
  lemma {:induction false} DroppedDbFinishesAll(txnIds: seq<int>, finishThrows: int -> bool)
    ensures |DroppedDbFinishes(txnIds, finishThrows)| <= |txnIds|
    ensures forall i :: 0 <= i < |DroppedDbFinishes(txnIds, finishThrows)| ==>
              DroppedDbFinishes(txnIds, finishThrows)[i] == FinishCall(txnIds[i], Some({}))
    ensures (forall i :: 0 <= i < |txnIds| ==> !finishThrows(txnIds[i])) ==>
              |DroppedDbFinishes(txnIds, finishThrows)| == |txnIds|
  {
    if txnIds != [] {
      DroppedDbFinishesAll(txnIds[1..], finishThrows);
      var rest := DroppedDbFinishes(txnIds[1..], finishThrows);
      if !finishThrows(txnIds[0]) {
        forall i | 1 <= i < 1 + |rest|
          ensures ([FinishCall(txnIds[0], Some({}))] + rest)[i] == FinishCall(txnIds[i], Some({}))
        {
          assert rest[i - 1] == FinishCall(txnIds[1..][i - 1], Some({}));
        }
        if forall i :: 0 <= i < |txnIds| ==> !finishThrows(txnIds[i]) {
          assert forall i :: 0 <= i < |txnIds[1..]| ==> !finishThrows(txnIds[1..][i]) by {
            forall i | 0 <= i < |txnIds[1..]| ensures !finishThrows(txnIds[1..][i]) {
              assert txnIds[1..][i] == txnIds[i + 1];
            }
          }
        }
      }
    }
  }

  /**
   * Completion of a lake transaction's partition publishes: the transaction is finished, with a
   * null error set, exactly when every partition reported success.
   */
  function LakeTxnCompletion(txnId: int, results: seq<bool>): (calls: seq<FinishCall>)
    ensures |calls| <= 1
    ensures calls != [] ==> calls[0] == FinishCall(txnId, None)
    ensures calls != [] <==> forall i :: 0 <= i < |results| ==> results[i]
  {
    if forall i :: 0 <= i < |results| ==> results[i] then [FinishCall(txnId, None)] else []
  }

  // ---------------------------------------------------------------------------------------
  // In-flight guard sets of the lake paths

  /** A ready transaction of the single-transaction lake path. */
  datatype LakeTxn = LakeTxn(txnId: int, tableIds: seq<int>)

  /** A ready batch: its table and its transactions. */
  datatype LakeBatch = LakeBatch(tableId: int, txns: seq<LakeTxn>)

  /** What a batch tick submits: the only transaction of a one-transaction batch, or a whole batch. */
  datatype BatchSubmission = SingleOfBatch(txn: LakeTxn) | WholeBatch(tableId: int, txnIds: seq<int>)

  /** The tables a submission guards. */
  function Claimed(s: BatchSubmission): set<int> {
    match s
    case SingleOfBatch(t) => set x | x in t.tableIds
    case WholeBatch(tableId, _) => {tableId}
  }

  function TxnIds(txns: seq<LakeTxn>): seq<int> {
    if txns == [] then [] else [txns[0].txnId] + TxnIds(txns[1..])
  }

  /** None of the transaction's tables is held by an in-flight batch. */
  predicate TablesFree(t: LakeTxn, batchTables: set<int>) {
    forall x :: x in t.tableIds ==> x !in batchTables
  }

  lemma FreeTablesUnclaimed(t: LakeTxn, batchTables: set<int>)
    requires TablesFree(t, batchTables)
    ensures Claimed(SingleOfBatch(t)) !! batchTables
  {
    forall x | x in Claimed(SingleOfBatch(t)) ensures x !in batchTables {
      assert x in t.tableIds;
    }
  }

  /** The transactions publishVersionForLakeTable submits, given the two guard sets. */
  function SingleSubmissions(ready: seq<LakeTxn>, publishing: set<int>, batchTables: set<int>): seq<int> {
    if ready == [] then []
    else
      var t := ready[0];
      if t.txnId !in publishing && TablesFree(t, batchTables) then
        [t.txnId] + SingleSubmissions(ready[1..], publishing + {t.txnId}, batchTables)
      else SingleSubmissions(ready[1..], publishing, batchTables)
  }

  /** One iteration of publishVersionForLakeTable keeps its loop invariant. */
  lemma SingleSubmissionsStep(ready: seq<LakeTxn>, i: nat, publishing: set<int>, batchTables: set<int>,
                              all: seq<int>, submitted: seq<int>)
    requires i < |ready|
    requires all == submitted + SingleSubmissions(ready[i..], publishing, batchTables)
    ensures var t := ready[i];
            if t.txnId !in publishing && TablesFree(t, batchTables) then
              all == (submitted + [t.txnId]) + SingleSubmissions(ready[i + 1..], publishing + {t.txnId}, batchTables)
            else all == submitted + SingleSubmissions(ready[i + 1..], publishing, batchTables)
  {
    assert ready[i..][0] == ready[i] && ready[i..][1..] == ready[i + 1..];
    var t := ready[i];
    if t.txnId !in publishing && TablesFree(t, batchTables) {
      var rest := SingleSubmissions(ready[i + 1..], publishing + {t.txnId}, batchTables);
      assert submitted + ([t.txnId] + rest) == (submitted + [t.txnId]) + rest;
    }
  }

  /**
   * The single-transaction lake path never submits a transaction already publishing, never one
   * touching a table of an in-flight batch, and never the same transaction twice in a tick.
   */
  lemma {:induction false} SingleSubmissionsSafe(ready: seq<LakeTxn>, publishing: set<int>, batchTables: set<int>)
    ensures var s := SingleSubmissions(ready, publishing, batchTables);
            && (forall i :: 0 <= i < |s| ==> s[i] !in publishing)
            && Distinct(s)
            && (forall i :: 0 <= i < |s| ==> exists k :: 0 <= k < |ready| && (ready[k].txnId == s[i] && forall x :: x in ready[k].tableIds ==> x !in batchTables))
  {
    if ready != [] {
      var t := ready[0];
      if t.txnId !in publishing && (forall x :: x in t.tableIds ==> x !in batchTables) {
        var rest := SingleSubmissions(ready[1..], publishing + {t.txnId}, batchTables);
        SingleSubmissionsSafe(ready[1..], publishing + {t.txnId}, batchTables);
        var s := [t.txnId] + rest;
        forall i | 0 <= i < |s|
          ensures exists k :: 0 <= k < |ready| && (ready[k].txnId == s[i] && forall x :: x in ready[k].tableIds ==> x !in batchTables)
        {
          if i > 0 {
            var k :| 0 <= k < |ready[1..]| && (ready[1..][k].txnId == rest[i - 1] && forall x :: x in ready[1..][k].tableIds ==> x !in batchTables);
            assert ready[k + 1] == ready[1..][k];
          } else {
            assert ready[0].txnId == s[0];
          }
        }
      } else {
        var rest := SingleSubmissions(ready[1..], publishing, batchTables);
        SingleSubmissionsSafe(ready[1..], publishing, batchTables);
        forall i | 0 <= i < |rest|
          ensures exists k :: 0 <= k < |ready| && (ready[k].txnId == rest[i] && forall x :: x in ready[k].tableIds ==> x !in batchTables)
        {
          var k :| 0 <= k < |ready[1..]| && (ready[1..][k].txnId == rest[i] && forall x :: x in ready[1..][k].tableIds ==> x !in batchTables);
          assert ready[k + 1] == ready[1..][k];
        }
      }
    }
  }

  /** The submissions publishVersionForLakeTableBatch makes, given the two guard sets. */
  function BatchSubmissions(batches: seq<LakeBatch>, publishing: set<int>, batchTables: set<int>): seq<BatchSubmission> {
    if batches == [] then []
    else match BatchDecision(batches[0], publishing, batchTables)
         case None => BatchSubmissions(batches[1..], publishing, batchTables)
         case Some(sub) => [sub] + BatchSubmissions(batches[1..], publishing, batchTables + Claimed(sub))
  }

  /**
   * Whether one ready batch is submitted: a one-transaction batch unless its transaction is
   * publishing on the single path or one of its tables is guarded; a larger batch unless its
   * table is guarded or one of its transactions is publishing on the single path.
   */
  function BatchDecision(b: LakeBatch, publishing: set<int>, batchTables: set<int>): (r: Option<BatchSubmission>)
    ensures r.Some? ==> Claimed(r.value) !! batchTables
  {
    if |b.txns| == 1 then
      var t := b.txns[0];
      if t.txnId in publishing then None
      else if TablesFree(t, batchTables) then
        FreeTablesUnclaimed(t, batchTables);
        Some(SingleOfBatch(t))
      else None
    else if b.tableId in batchTables then None
    else if exists i :: 0 <= i < |b.txns| && b.txns[i].txnId in publishing then None
    else Some(WholeBatch(b.tableId, TxnIds(b.txns)))
  }

  /** The decision for one batch, with the early-exit scan of its transactions. */
  method DecideBatch(b: LakeBatch, publishing: set<int>, batchTables: set<int>) returns (r: Option<BatchSubmission>)
    ensures r == BatchDecision(b, publishing, batchTables)
  {
    r := None;
    if |b.txns| == 1 {
      var t := b.txns[0];
      if t.txnId !in publishing {
        if TablesFree(t, batchTables) {
          r := Some(SingleOfBatch(t));
        }
      }
    } else if b.tableId !in batchTables {
      var needWait := false;
      var j := 0;
      while j < |b.txns|
        invariant 0 <= j <= |b.txns|
        invariant needWait <==> exists k :: 0 <= k < j && b.txns[k].txnId in publishing
      {
        if b.txns[j].txnId in publishing {
          needWait := true;
          break;
        }
        j := j + 1;
      }
      if !needWait {
        r := Some(WholeBatch(b.tableId, TxnIds(b.txns)));
      }
    }
  }

  /** The tables claimed by a list of submissions. */
  function ClaimedAll(s: seq<BatchSubmission>): set<int> {
    if s == [] then {} else Claimed(s[0]) + ClaimedAll(s[1..])
  }

  /**
   * A batch tick claims only tables no in-flight batch holds, and no two of its submissions
   * claim the same table.
   */
  lemma {:induction false} BatchSubmissionsDisjoint(batches: seq<LakeBatch>, publishing: set<int>, batchTables: set<int>)
    ensures var s := BatchSubmissions(batches, publishing, batchTables);
            && ClaimedAll(s) !! batchTables
            && forall i, j :: 0 <= i < j < |s| ==> Claimed(s[i]) !! Claimed(s[j])
  {
    if batches != [] {
      match BatchDecision(batches[0], publishing, batchTables)
      case None =>
        BatchSubmissionsDisjoint(batches[1..], publishing, batchTables);
      case Some(sub) =>
        BatchSubmissionsDisjoint(batches[1..], publishing, batchTables + Claimed(sub));
        var rest := BatchSubmissions(batches[1..], publishing, batchTables + Claimed(sub));
        ClaimedAllContains(rest);
    }
  }

  lemma {:induction false} ClaimedAllContains(s: seq<BatchSubmission>)
    ensures forall i :: 0 <= i < |s| ==> Claimed(s[i]) <= ClaimedAll(s)
  {
    if s != [] {
      ClaimedAllContains(s[1..]);
      forall i | 1 <= i < |s| ensures Claimed(s[i]) <= ClaimedAll(s) {
        assert s[i] == s[1..][i - 1];
      }
    }
  }

  /** The union of a list of claims. */
  ghost function Union(claims: seq<set<int>>): set<int> {
    if claims == [] then {} else Union(claims[..|claims| - 1]) + claims[|claims| - 1]
  }

  /** No table is held by two claims. */
  ghost predicate PairwiseDisjoint(claims: seq<set<int>>) {
    forall i, j :: 0 <= i < j < |claims| ==> claims[i] !! claims[j]
  }

  lemma {:induction false} UnionContains(claims: seq<set<int>>, c: nat)
    requires c < |claims|
    ensures claims[c] <= Union(claims)
  {
    if c < |claims| - 1 {
      UnionContains(claims[..|claims| - 1], c);
    }
  }

  /** Emptying one of pairwise-disjoint claims removes exactly its tables from the union. */
  lemma {:induction false} UnionRelease(claims: seq<set<int>>, c: nat)
    requires c < |claims| && PairwiseDisjoint(claims)
    ensures PairwiseDisjoint(claims[c := {}])
    ensures Union(claims[c := {}]) == Union(claims) - claims[c]
  {
    var n := |claims| - 1;
    var after := claims[c := {}];
    if c == n {
      assert after[..n] == claims[..n];
      forall x | x in Union(claims[..n]) ensures x !in claims[c] {
        UnionMember(claims[..n], x);
      }
    } else {
      assert after[..n] == claims[..n][c := {}];
      UnionRelease(claims[..n], c);
      assert claims[n] !! claims[c];
    }
  }

  lemma {:induction false} UnionMember(claims: seq<set<int>>, x: int)
    requires x in Union(claims)
    ensures exists c :: 0 <= c < |claims| && x in claims[c]
  {
    var n := |claims| - 1;
    if x !in claims[n] {
      UnionMember(claims[..n], x);
      var c :| 0 <= c < n && x in claims[..n][c];
      assert x in claims[c];
    }
  }

  /**
   * The two guard sets of the lake paths. Each batch submission holds a claim on a set of
   * tables, emptied when it completes; claims are pairwise disjoint and together make up the
   * batch-table guard, so a completion releases exactly its own tables.
   */
  class LakeGuards {
    var publishingLakeTransactions: set<int>
    var publishingLakeTransactionsBatchTableId: set<int>
    ghost var claims: seq<set<int>>

    ghost predicate Valid()
      reads this
    {
      PairwiseDisjoint(claims) && publishingLakeTransactionsBatchTableId == Union(claims)
    }

    constructor ()
      ensures Valid()
      ensures publishingLakeTransactions == {} && publishingLakeTransactionsBatchTableId == {}
    {
      publishingLakeTransactions := {};
      publishingLakeTransactionsBatchTableId := {};
      claims := [];
    }

    /**
     * publishVersionForLakeTable: submits the ready transactions the guards allow and adds
     * each to the publishing set before submission.
     */
    method PublishVersionForLakeTable(ready: seq<LakeTxn>) returns (submitted: seq<int>)
      requires Valid()
      modifies this`publishingLakeTransactions
      ensures Valid()
      ensures submitted == SingleSubmissions(ready, old(publishingLakeTransactions), publishingLakeTransactionsBatchTableId)
      ensures publishingLakeTransactions == old(publishingLakeTransactions) + set x | x in submitted
    {
      submitted := [];
      ghost var start := publishingLakeTransactions;
      ghost var guard := publishingLakeTransactionsBatchTableId;
      ghost var all := SingleSubmissions(ready, start, guard);
      var i := 0;
      while i < |ready|
        invariant 0 <= i <= |ready|
        invariant publishingLakeTransactionsBatchTableId == guard
        invariant publishingLakeTransactions == start + set x | x in submitted
        invariant all == submitted + SingleSubmissions(ready[i..], publishingLakeTransactions, guard)
      {
        var t := ready[i];
        SingleSubmissionsStep(ready, i, publishingLakeTransactions, guard, all, submitted);
        if t.txnId !in publishingLakeTransactions && TablesFree(t, publishingLakeTransactionsBatchTableId) {
          publishingLakeTransactions := publishingLakeTransactions + {t.txnId};
          submitted := submitted + [t.txnId];
        }
        i := i + 1;
      }
      assert ready[i..] == [];
    }

    /** The completion event of a single-transaction publish. */
    method OnLakeTransactionDone(txnId: int)
      requires Valid()
      modifies this`publishingLakeTransactions
      ensures Valid()
      ensures publishingLakeTransactions == old(publishingLakeTransactions) - {txnId}
    {
      publishingLakeTransactions := publishingLakeTransactions - {txnId};
    }

    /**
     * publishVersionForLakeTableBatch: submits the batches the guards allow, each claiming its
     * tables before submission; the new claims follow the earlier ones, in submission order.
     */
    method PublishVersionForLakeTableBatch(batches: seq<LakeBatch>) returns (submitted: seq<BatchSubmission>)
      requires Valid()
      modifies this`publishingLakeTransactionsBatchTableId, this`claims
      ensures Valid()
      ensures submitted == BatchSubmissions(batches, publishingLakeTransactions, old(publishingLakeTransactionsBatchTableId))
      ensures publishingLakeTransactionsBatchTableId == old(publishingLakeTransactionsBatchTableId) + ClaimedAll(submitted)
      ensures claims == old(claims) + ClaimsOf(submitted)
    {
      var guard;
      submitted, guard := SelectBatches(batches, publishingLakeTransactions, publishingLakeTransactionsBatchTableId);
      BatchSubmissionsDisjoint(batches, publishingLakeTransactions, publishingLakeTransactionsBatchTableId);
      ClaimsAppendValid(claims, submitted);
      publishingLakeTransactionsBatchTableId := guard;
      claims := claims + ClaimsOf(submitted);
    }

    /**
     * The completion event of batch submission `c`: its tables leave the guard, and the
     * tables of every other in-flight submission stay guarded.
     */
    method OnBatchDone(tables: set<int>, ghost c: nat)
      requires Valid() && c < |claims| && claims[c] == tables
      modifies this`publishingLakeTransactionsBatchTableId, this`claims
      ensures Valid()
      ensures publishingLakeTransactionsBatchTableId == old(publishingLakeTransactionsBatchTableId) - tables
      ensures claims == old(claims)[c := {}]
      ensures forall d :: 0 <= d < |claims| ==> claims[d] <= publishingLakeTransactionsBatchTableId
    {
      UnionRelease(claims, c);
      publishingLakeTransactionsBatchTableId := publishingLakeTransactionsBatchTableId - tables;
      claims := claims[c := {}];
      forall d | 0 <= d < |claims| ensures claims[d] <= publishingLakeTransactionsBatchTableId {
        UnionContains(claims, d);
      }
    }
  }

  lemma BatchSubmissionsStep(batches: seq<LakeBatch>, i: nat, publishing: set<int>, batchTables: set<int>)
    requires i < |batches|
    ensures BatchSubmissions(batches[i..], publishing, batchTables)
            == match BatchDecision(batches[i], publishing, batchTables)
               case None => BatchSubmissions(batches[i + 1..], publishing, batchTables)
               case Some(sub) => [sub] + BatchSubmissions(batches[i + 1..], publishing, batchTables + Claimed(sub))
  {
    assert batches[i..][0] == batches[i] && batches[i..][1..] == batches[i + 1..];
  }

  /**
   * The loop of publishVersionForLakeTableBatch: each submitted batch adds its tables to the
   * guard the later batches are decided against.
   */
  method SelectBatches(batches: seq<LakeBatch>, publishing: set<int>, batchTables: set<int>)
    returns (submitted: seq<BatchSubmission>, guard: set<int>)
    ensures submitted == BatchSubmissions(batches, publishing, batchTables)
    ensures guard == batchTables + ClaimedAll(submitted)
  {
    submitted := [];
    guard := batchTables;
    ghost var all := BatchSubmissions(batches, publishing, batchTables);
    var i := 0;
    while i < |batches|
      invariant 0 <= i <= |batches|
      invariant guard == batchTables + ClaimedAll(submitted)
      invariant all == submitted + BatchSubmissions(batches[i..], publishing, guard)
    {
      var claim := DecideBatch(batches[i], publishing, guard);
      if claim.Some? {
        SelectBatchesTake(batches, i, publishing, all, submitted, guard, claim.value);
        ClaimedAllSnoc(submitted, claim.value);
        guard := guard + Claimed(claim.value);
        submitted := submitted + [claim.value];
      } else {
        SelectBatchesSkip(batches, i, publishing, all, submitted, guard);
      }
      i := i + 1;
    }
    assert batches[i..] == [];
  }

  /** An iteration of SelectBatches that skips its batch keeps the loop invariant. */
  lemma SelectBatchesSkip(batches: seq<LakeBatch>, i: nat, publishing: set<int>, all: seq<BatchSubmission>,
                          submitted: seq<BatchSubmission>, guard: set<int>)
    requires i < |batches| && BatchDecision(batches[i], publishing, guard).None?
    requires all == submitted + BatchSubmissions(batches[i..], publishing, guard)
    ensures all == submitted + BatchSubmissions(batches[i + 1..], publishing, guard)
  {
    BatchSubmissionsStep(batches, i, publishing, guard);
  }

  /** An iteration of SelectBatches that submits its batch keeps the loop invariant. */
  lemma SelectBatchesTake(batches: seq<LakeBatch>, i: nat, publishing: set<int>, all: seq<BatchSubmission>,
                          submitted: seq<BatchSubmission>, guard: set<int>, sub: BatchSubmission)
    requires i < |batches| && BatchDecision(batches[i], publishing, guard) == Some(sub)
    requires all == submitted + BatchSubmissions(batches[i..], publishing, guard)
    ensures all == (submitted + [sub]) + BatchSubmissions(batches[i + 1..], publishing, guard + Claimed(sub))
  {
    BatchSubmissionsStep(batches, i, publishing, guard);
    var rest := BatchSubmissions(batches[i + 1..], publishing, guard + Claimed(sub));
    assert submitted + ([sub] + rest) == (submitted + [sub]) + rest;
  }

  lemma {:induction false} UnionAppend(a: seq<set<int>>, b: seq<set<int>>)
    ensures Union(a + b) == Union(a) + Union(b)
  {
    if b != [] {
      var n := |b| - 1;
      assert (a + b)[..|a + b| - 1] == a + b[..n];
      UnionAppend(a, b[..n]);
    } else {
      assert a + b == a;
    }
  }

  lemma {:induction false} UnionClaimsOf(s: seq<BatchSubmission>)
    ensures Union(ClaimsOf(s)) == ClaimedAll(s)
  {
    if s != [] {
      assert ClaimsOf(s) == [Claimed(s[0])] + ClaimsOf(s[1..]);
      UnionAppend([Claimed(s[0])], ClaimsOf(s[1..]));
      assert [Claimed(s[0])][..0] == [];
      UnionClaimsOf(s[1..]);
    }
  }

  /**
   * Appending the claims of a tick's submissions keeps the claims pairwise disjoint and their
   * union equal to the grown guard, given the submissions are disjoint from each other and from
   * the guard they were decided against.
   */
  lemma ClaimsAppendValid(claims: seq<set<int>>, s: seq<BatchSubmission>)
    requires PairwiseDisjoint(claims)
    requires ClaimedAll(s) !! Union(claims)
    requires forall i, j :: 0 <= i < j < |s| ==> Claimed(s[i]) !! Claimed(s[j])
    ensures PairwiseDisjoint(claims + ClaimsOf(s))
    ensures Union(claims + ClaimsOf(s)) == Union(claims) + ClaimedAll(s)
  {
    UnionAppend(claims, ClaimsOf(s));
    UnionClaimsOf(s);
    var all := claims + ClaimsOf(s);
    forall i, j | 0 <= i < j < |all| ensures all[i] !! all[j] {
      if i < |claims| && j >= |claims| {
        UnionContains(claims, i);
        UnionContains(ClaimsOf(s), j - |claims|);
      }
    }
  }

  /** The claims a list of submissions holds, in order. */
  ghost function ClaimsOf(s: seq<BatchSubmission>): (r: seq<set<int>>)
    ensures |r| == |s| && forall i :: 0 <= i < |s| ==> r[i] == Claimed(s[i])
  {
    seq(|s|, i requires 0 <= i < |s| => Claimed(s[i]))
  }

  lemma ClaimedAllSnoc(s: seq<BatchSubmission>, last: BatchSubmission)
    ensures ClaimedAll(s + [last]) == ClaimedAll(s) + Claimed(last)
  {
    if s == [] {
      assert [last][1..] == [];
    } else {
      assert (s + [last])[1..] == s[1..] + [last];
      ClaimedAllSnoc(s[1..], last);
    }
  }

  // ---------------------------------------------------------------------------------------
  // The olap (shared-nothing) path

  /** The queued form of a transaction's publish task. */
  function AsAgentTask(t: PublishVersionTask): AgentTask {
    AgentTask(t.backendId, PUBLISH_VERSION, t.Signature(), 0, "", t.isFinished, [], NOT_A_PUSH, 0)
  }

  /** The queue key of a publish task. */
  function KeyOf(t: PublishVersionTask): TaskKey {
    TaskKey(t.backendId, PUBLISH_VERSION, t.Signature())
  }

  /** The queue keys of a transaction's publish tasks. */
  function PublishKeys(tasks: map<int, PublishVersionTask>): set<TaskKey> {
    set b | b in tasks :: KeyOf(tasks[b])
  }

  /**
   * The task scan of the olap finish loop: whether every task finished, the union of the
   * finished tasks' error replicas and the backends whose task is unfinished.
   */
  method ScanPublishTasks(tasks: map<int, PublishVersionTask>, order: seq<int>)
    returns (allFinished: bool, errorReplicas: set<int>, unfinishedBackends: set<int>)
    requires (forall i :: 0 <= i < |order| ==> order[i] in tasks)
    requires forall b :: b in tasks ==> b in order
    ensures allFinished <==> forall b :: b in tasks ==> tasks[b].isFinished
    ensures errorReplicas == AllFinishedErrors(tasks, order)
    ensures unfinishedBackends == UnfinishedBackends(tasks)
  {
    allFinished := true;
    errorReplicas := {};
    unfinishedBackends := {};
    var i := 0;
    while i < |order|
      invariant 0 <= i <= |order|
      invariant allFinished <==> forall k :: 0 <= k < i ==> tasks[order[k]].isFinished
      invariant errorReplicas + AllFinishedErrors(tasks, order[i..]) == AllFinishedErrors(tasks, order)
      invariant unfinishedBackends + UnfinishedIn(tasks, order[i..]) == UnfinishedIn(tasks, order)
    {
      var t := tasks[order[i]];
      ScanStep(tasks, order, i, errorReplicas, unfinishedBackends);
      if t.isFinished {
        errorReplicas := errorReplicas + t.errorReplicas;
      } else {
        allFinished := false;
        unfinishedBackends := unfinishedBackends + {t.backendId};
      }
      i := i + 1;
    }
    assert order[i..] == [];
    UnfinishedInIsUnfinishedBackends(tasks, order);
    AllListedFinished(tasks, order);
  }

  /** One iteration of ScanPublishTasks keeps its accumulator invariants. */
  lemma ScanStep(tasks: map<int, PublishVersionTask>, order: seq<int>, i: nat, errors: set<int>, unfinished: set<int>)
    requires i < |order| && forall k :: 0 <= k < |order| ==> order[k] in tasks
    requires errors + AllFinishedErrors(tasks, order[i..]) == AllFinishedErrors(tasks, order)
    requires unfinished + UnfinishedIn(tasks, order[i..]) == UnfinishedIn(tasks, order)
    ensures var t := tasks[order[i]];
            && (if t.isFinished then errors + t.errorReplicas else errors) + AllFinishedErrors(tasks, order[i + 1..])
               == AllFinishedErrors(tasks, order)
            && (if t.isFinished then unfinished else unfinished + {t.backendId}) + UnfinishedIn(tasks, order[i + 1..])
               == UnfinishedIn(tasks, order)
  {
    assert order[i..][0] == order[i] && order[i..][1..] == order[i + 1..];
  }

  /** The backends of the unfinished tasks among those listed in `order`. */
  function UnfinishedIn(tasks: map<int, PublishVersionTask>, order: seq<int>): set<int>
    requires forall i :: 0 <= i < |order| ==> order[i] in tasks
  {
    if order == [] then {}
    else (if tasks[order[0]].isFinished then {} else {tasks[order[0]].backendId})
         + UnfinishedIn(tasks, order[1..])
  }

  lemma {:induction false} UnfinishedInMember(tasks: map<int, PublishVersionTask>, order: seq<int>, x: int)
    requires forall i :: 0 <= i < |order| ==> order[i] in tasks
    ensures x in UnfinishedIn(tasks, order) <==>
            exists k :: 0 <= k < |order| && !tasks[order[k]].isFinished && tasks[order[k]].backendId == x
  {
    if order != [] {
      UnfinishedInMember(tasks, order[1..], x);
      if exists k :: 0 <= k < |order| && !tasks[order[k]].isFinished && tasks[order[k]].backendId == x {
        var k :| 0 <= k < |order| && !tasks[order[k]].isFinished && tasks[order[k]].backendId == x;
        if k > 0 {
          assert order[1..][k - 1] == order[k];
        }
      }
      if exists k :: 0 <= k < |order[1..]| && !tasks[order[1..][k]].isFinished && tasks[order[1..][k]].backendId == x {
        var k :| 0 <= k < |order[1..]| && !tasks[order[1..][k]].isFinished && tasks[order[1..][k]].backendId == x;
        assert order[k + 1] == order[1..][k];
      }
    }
  }

  /** Over an order that lists every task, the unfinished backends are those of all unfinished tasks. */
  lemma UnfinishedInIsUnfinishedBackends(tasks: map<int, PublishVersionTask>, order: seq<int>)
    requires forall i :: 0 <= i < |order| ==> order[i] in tasks
    requires forall b :: b in tasks ==> b in order
    ensures UnfinishedIn(tasks, order) == UnfinishedBackends(tasks)
  {
    forall x ensures x in UnfinishedIn(tasks, order) <==> x in UnfinishedBackends(tasks) {
      UnfinishedInMember(tasks, order, x);
      if x in UnfinishedIn(tasks, order) {
        var k :| 0 <= k < |order| && !tasks[order[k]].isFinished && tasks[order[k]].backendId == x;
        var b := order[k];
        assert b in tasks && !tasks[b].isFinished && tasks[b].backendId == x;
      }
      if x in UnfinishedBackends(tasks) {
        var b :| b in tasks && !tasks[b].isFinished && tasks[b].backendId == x;
        var k :| 0 <= k < |order| && order[k] == b;
      }
    }
  }

  /**
   * The send step of the olap path for one transaction: its tasks are created, one per target
   * backend in iteration order `order`, and queued, and the sent flag and send time are set
   * when there was at least one.
   */
  method OlapSendTasks(txn: Txn, queue: AgentTaskQueue, allBackends: set<int>, order: seq<int>, now: int)
    returns (tasks: seq<PublishVersionTask>)
    requires txn.Valid() && queue.Valid()
    requires Distinct(order) && forall b :: b in order <==> b in PublishTargets(txn.publishVersionTasks, allBackends)
    modifies txn, queue
    ensures txn.Valid() && queue.Valid()
    ensures old(txn.hasSendTask) ==> tasks == [] && txn.publishVersionTasks == old(txn.publishVersionTasks)
    ensures !old(txn.hasSendTask) ==>
              |tasks| == |order|
              && forall i :: 0 <= i < |tasks| ==> tasks[i] == NewTask(order[i], txn.transactionId, txn.tableCommitInfos, now)
    ensures forall i :: 0 <= i < |tasks| ==> AsAgentTask(tasks[i]).Key() in queue.tasks
    ensures forall k :: k in old(queue.tasks) ==> k in queue.tasks
    ensures forall k :: k in queue.tasks && k !in old(queue.tasks) ==>
              exists i :: 0 <= i < |tasks| && AsAgentTask(tasks[i]).Key() == k
    ensures txn.hasSendTask == (old(txn.hasSendTask) || tasks != [])
    ensures tasks != [] ==> txn.publishVersionTime == now
    ensures tasks == [] ==> txn.publishVersionTime == old(txn.publishVersionTime)
    ensures txn.status == old(txn.status)
  {
    tasks := txn.CreatePublishVersionTask(allBackends, order, now);
    EnqueueAll(queue, tasks);
    if tasks != [] {
      txn.SetHasSendTask(true, now);
    }
  }

  /** Adds each task to the agent task queue, skipping those already queued. */
  method EnqueueAll(queue: AgentTaskQueue, tasks: seq<PublishVersionTask>)
    requires queue.Valid()
    modifies queue
    ensures queue.Valid()
    ensures forall i :: 0 <= i < |tasks| ==> AsAgentTask(tasks[i]).Key() in queue.tasks
    ensures forall k :: k in old(queue.tasks) ==> k in queue.tasks && queue.tasks[k] == old(queue.tasks)[k]
    ensures forall k :: k in queue.tasks && k !in old(queue.tasks) ==>
              exists i :: 0 <= i < |tasks| && AsAgentTask(tasks[i]).Key() == k
  {
    for i := 0 to |tasks|
      invariant queue.Valid()
      invariant forall j :: 0 <= j < i ==> AsAgentTask(tasks[j]).Key() in queue.tasks
      invariant forall k :: k in old(queue.tasks) ==> k in queue.tasks && queue.tasks[k] == old(queue.tasks)[k]
      invariant forall k :: k in queue.tasks && k !in old(queue.tasks) ==>
                  exists j :: 0 <= j < i && AsAgentTask(tasks[j]).Key() == k
    {
      var _ := queue.AddTask(AsAgentTask(tasks[i]));
    }
  }

  /**
   * What follows a finish attempt: a transaction that became visible has all its publish tasks
   * removed from the queue and its task map cleared; otherwise only its send time is refreshed.
   */
  method AfterFinishAttempt(txn: Txn, queue: AgentTaskQueue, now: int)
    requires txn.Valid() && queue.Valid()
    modifies txn`publishVersionTasks, txn`hasFinishChecker, txn`publishVersionTime, queue
    ensures txn.Valid() && queue.Valid()
    ensures txn.status == VISIBLE ==>
              queue.tasks == old(queue.tasks) - PublishKeys(old(txn.publishVersionTasks))
              && txn.publishVersionTasks == map[] && txn.publishVersionTime == old(txn.publishVersionTime)
    ensures txn.status != VISIBLE ==>
              queue.tasks == old(queue.tasks) && txn.publishVersionTasks == old(txn.publishVersionTasks)
              && txn.publishVersionTime == now && txn.hasFinishChecker == old(txn.hasFinishChecker)
  {
    if txn.status != VISIBLE {
      txn.UpdateSendTaskTime(now);
      return;
    }
    var remaining := txn.publishVersionTasks.Keys;
    ghost var removed: set<TaskKey> := {};
    ghost var all := PublishKeys(txn.publishVersionTasks);
    while remaining != {}
      modifies queue
      invariant queue.Valid()
      invariant remaining <= txn.publishVersionTasks.Keys
      invariant queue.tasks == old(queue.tasks) - removed
      invariant removed <= all
      invariant forall b :: b in txn.publishVersionTasks && b !in remaining ==> KeyOf(txn.publishVersionTasks[b]) in removed
      decreases |remaining|
    {
      ghost var some := PickOne(remaining);
      var b :| b in remaining;
      var t := txn.publishVersionTasks[b];
      queue.RemoveTask(t.backendId, PUBLISH_VERSION, t.Signature());
      removed := removed + {KeyOf(t)};
      remaining := remaining - {b};
    }
    assert removed == all;
    txn.ClearAfterPublished();
  }

  /**
   * The finish step of the olap path for one transaction: it is finished when all its tasks
   * finished or the transaction manager says it can finish given the scan's error replicas
   * and unfinished backends; `becomesVisible` is what the manager's finish call leaves.
   */
  method OlapFinishStep(txn: Txn, queue: AgentTaskQueue, order: seq<int>,
                        canTxnFinish: (set<int>, set<int>) -> bool, becomesVisible: bool, now: int)
    returns (finishCalled: bool)
    requires txn.Valid() && queue.Valid()
    requires (forall i :: 0 <= i < |order| ==> order[i] in txn.publishVersionTasks)
    requires forall b :: b in txn.publishVersionTasks ==> b in order
    modifies txn, queue
    ensures txn.Valid() && queue.Valid()
    ensures finishCalled <==>
              (forall b :: b in old(txn.publishVersionTasks) ==> old(txn.publishVersionTasks)[b].isFinished)
              || canTxnFinish(AllFinishedErrors(old(txn.publishVersionTasks), order),
                              UnfinishedBackends(old(txn.publishVersionTasks)))
    ensures !finishCalled ==>
              txn.status == old(txn.status) && queue.tasks == old(queue.tasks)
              && txn.publishVersionTasks == old(txn.publishVersionTasks)
    ensures finishCalled && becomesVisible ==>
              txn.status == VISIBLE && txn.publishVersionTasks == map[]
              && queue.tasks == old(queue.tasks) - PublishKeys(old(txn.publishVersionTasks))
    ensures finishCalled && !becomesVisible && old(txn.status) != VISIBLE ==>
              txn.publishVersionTime == now && queue.tasks == old(queue.tasks)
              && txn.publishVersionTasks == old(txn.publishVersionTasks)
  {
    var allFinished, errors, unfinished := ScanPublishTasks(txn.publishVersionTasks, order);
    finishCalled := allFinished || canTxnFinish(errors, unfinished);
    if finishCalled {
      if becomesVisible {
        txn.SetTransactionStatus(VISIBLE);
      }
      AfterFinishAttempt(txn, queue, now);
    }
  }

  /** The backends whose publish task has not finished. */
  function UnfinishedBackends(tasks: map<int, PublishVersionTask>): set<int> {
    set b | b in tasks && !tasks[b].isFinished :: tasks[b].backendId
  }

  /**
   * publishVersionNew for one transaction: nothing happens until every task finished or the
   * quorum wait expired; then the finish call is made when the finish checker allows it and
   * the visible/not-visible handling follows.
   */
  method NewMechanismStep(txn: Txn, queue: AgentTaskQueue, now: int, quorumPublishWaitMs: int, order: seq<int>,
                          dbExists: bool, checkerFinished: bool, becomesVisible: bool)
    returns (attempted: bool, finishCalled: bool)
    requires txn.Valid() && queue.Valid()
    requires (forall i :: 0 <= i < |order| ==> order[i] in txn.publishVersionTasks)
    requires forall b :: b in txn.publishVersionTasks ==> b in order
    modifies txn, queue
    ensures txn.Valid() && queue.Valid()
    ensures attempted <==> now - old(txn.commitTime) > quorumPublishWaitMs
                           || forall b :: b in old(txn.publishVersionTasks) ==> old(txn.publishVersionTasks)[b].isFinished
    ensures !attempted ==> txn.status == old(txn.status) && queue.tasks == old(queue.tasks)
    ensures finishCalled <==> attempted && (!dbExists || checkerFinished)
    ensures attempted && finishCalled && becomesVisible ==>
              txn.status == VISIBLE && txn.publishVersionTasks == map[]
              && queue.tasks == old(queue.tasks) - PublishKeys(old(txn.publishVersionTasks))
    ensures attempted && !(finishCalled && becomesVisible) && old(txn.status) != VISIBLE ==>
              txn.publishVersionTime == now && queue.tasks == old(queue.tasks)
  {
    var ready, _ := txn.AllPublishTasksFinishedOrQuorumWaitTimeout(now, quorumPublishWaitMs, order, {});
    attempted := ready;
    finishCalled := false;
    if !ready {
      return;
    }
    finishCalled := txn.CheckCanFinish(dbExists, checkerFinished);
    if finishCalled && becomesVisible {
      txn.SetTransactionStatus(VISIBLE);
    }
    AfterFinishAttempt(txn, queue, now);
  }
}
