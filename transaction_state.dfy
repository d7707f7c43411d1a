/**
 * The per-transaction record of the front end: its status and status predicates,
 * the replica bookkeeping that decides whether a replica's version must be checked,
 * the visibility latch, the one-shot creation of per-backend publish tasks and the
 * "all tasks finished or quorum wait expired" test.
 */
module TransactionState {
  import opened Wrappers

  datatype TransactionStatus = PREPARE | PREPARED | COMMITTED | VISIBLE | ABORTED

  datatype LoadJobSourceType =
    | FRONTEND | BACKEND_STREAMING | INSERT_STREAMING | ROUTINE_LOAD_TASK | BATCH_LOAD_JOB
    | DELETE | LAKE_COMPACTION | FRONTEND_STREAMING | MV_REFRESH | REPLICATION | BYPASS_WRITE

  /** The declaration order of the source-type constants, which `valueOf` searches. */
  const AllSourceTypes: seq<LoadJobSourceType> :=
    [FRONTEND, BACKEND_STREAMING, INSERT_STREAMING, ROUTINE_LOAD_TASK, BATCH_LOAD_JOB,
     DELETE, LAKE_COMPACTION, FRONTEND_STREAMING, MV_REFRESH, REPLICATION, BYPASS_WRITE]

  /** The persisted integer flag of a source type. */
  function SourceTypeFlag(t: LoadJobSourceType): int {
    match t
    case FRONTEND => 1
    case BACKEND_STREAMING => 2
    case INSERT_STREAMING => 3
    case ROUTINE_LOAD_TASK => 4
    case BATCH_LOAD_JOB => 5
    case DELETE => 6
    case LAKE_COMPACTION => 7
    case FRONTEND_STREAMING => 8
    case MV_REFRESH => 9
    case REPLICATION => 10
    case BYPASS_WRITE => 11
  }

  /** The first element of `types` carrying `flag`, or None (the stream filter/findFirst of valueOf). */
  function FindFirstByFlag(types: seq<LoadJobSourceType>, flag: int): (r: Option<LoadJobSourceType>)
    ensures r.None? <==> forall i :: 0 <= i < |types| ==> SourceTypeFlag(types[i]) != flag
    ensures r.Some? ==> exists k :: 0 <= k < |types| && types[k] == r.value && SourceTypeFlag(r.value) == flag
                          && forall j :: 0 <= j < k ==> SourceTypeFlag(types[j]) != flag
  {
    if types == [] then None
    else if SourceTypeFlag(types[0]) == flag then Some(types[0])
    else
      var r := FindFirstByFlag(types[1..], flag);
      assert r.Some? ==> exists k :: 1 <= k < |types| && types[k] == r.value && SourceTypeFlag(r.value) == flag
                          && forall j :: 0 <= j < k ==> SourceTypeFlag(types[j]) != flag by {
        if r.Some? {
          var k :| 0 <= k < |types[1..]| && types[1..][k] == r.value && SourceTypeFlag(r.value) == flag
                   && forall j :: 0 <= j < k ==> SourceTypeFlag(types[1..][j]) != flag;
          assert types[k + 1] == r.value;
        }
      }
      r
  }

  function SourceTypeValueOf(flag: int): Option<LoadJobSourceType> {
    FindFirstByFlag(AllSourceTypes, flag)
  }

  /** valueOf inverts the flag of every source type. */
  lemma SourceTypeFlagRoundTrip(t: LoadJobSourceType)
    ensures SourceTypeValueOf(SourceTypeFlag(t)) == Some(t)
  {
    assert AllSourceTypes[SourceTypeFlag(t) - 1] == t;
  }

  /** valueOf finds a source type exactly for the flags 1..11. */
  lemma SourceTypeValueOfDomain(flag: int)
    ensures SourceTypeValueOf(flag).Some? <==> 1 <= flag <= 11
  {
    if 1 <= flag <= 11 {
      assert SourceTypeFlag(AllSourceTypes[flag - 1]) == flag;
    }
  }

  datatype TxnSourceType = FE | BE

  function TxnSourceTypeFlag(t: TxnSourceType): int {
    match t
    case FE => 1
    case BE => 2
  }

  function TxnSourceTypeValueOf(flag: int): (r: Option<TxnSourceType>)
    ensures r.Some? ==> TxnSourceTypeFlag(r.value) == flag
    ensures r.None? <==> flag != 1 && flag != 2
  {
    if flag == 1 then Some(FE) else if flag == 2 then Some(BE) else None
  }

  /** A transaction is running exactly while it has neither become visible nor been aborted. */
  function IsRunning(s: TransactionStatus): (r: bool)
    ensures r <==> s != VISIBLE && s != ABORTED
  {
    s == PREPARE || s == PREPARED || s == COMMITTED
  }

  /** Java's `long` division, which truncates toward zero. */
  function JavaDiv(a: int, b: int): int
    requires b > 0
  {
    if a >= 0 then a / b else -((-a) / b)
  }

  /** `(d / 1000) > limit`, with truncating division, holds exactly from `1000 * (limit + 1)` on. */
  lemma SecondsExceeded(d: int, limit: int)
    requires limit >= 0
    ensures JavaDiv(d, 1000) > limit <==> d >= 1000 * (limit + 1)
  {
    var q := JavaDiv(d, 1000);
    if d >= 0 {
      assert q == d / 1000;
      assert 1000 * q <= d < 1000 * q + 1000;
      if q > limit {
        assert q >= limit + 1;
      } else {
        assert q + 1 <= limit + 1;
      }
    } else {
      assert (-d) / 1000 >= 0;
    }
  }

  /**
   * isTimeout: a PREPARE transaction past its own timeout, or a PREPARED one past the
   * prepared-transaction timeout (in whole seconds).
   */
  function IsTimeout(status: TransactionStatus, now: int, prepareTime: int, preparedTime: int,
                     timeoutMs: int, preparedTimeoutSecond: int): bool
  {
    (status == PREPARE && now - prepareTime > timeoutMs)
    || (status == PREPARED && JavaDiv(now - preparedTime, 1000) > preparedTimeoutSecond)
  }

  /** Only a transaction still being prepared can time out, and the prepared timeout is a millisecond threshold. */
  lemma TimeoutRules(status: TransactionStatus, now: int, prepareTime: int, preparedTime: int,
                     timeoutMs: int, preparedTimeoutSecond: int)
    requires preparedTimeoutSecond >= 0
    ensures IsTimeout(status, now, prepareTime, preparedTime, timeoutMs, preparedTimeoutSecond)
            ==> status == PREPARE || status == PREPARED
    ensures status == PREPARE ==>
            (IsTimeout(status, now, prepareTime, preparedTime, timeoutMs, preparedTimeoutSecond)
             <==> now - prepareTime > timeoutMs)
    ensures status == PREPARED ==>
            (IsTimeout(status, now, prepareTime, preparedTime, timeoutMs, preparedTimeoutSecond)
             <==> now - preparedTime >= 1000 * (preparedTimeoutSecond + 1))
  {
    SecondsExceeded(now - preparedTime, preparedTimeoutSecond);
  }

  /**
   * isExpired: the status is final (`isFinal`, from the status enum, which is not part of
   * this model) and more than `labelKeepMaxSecond` whole seconds have passed since finishing.
   */
  function IsExpired(isFinal: bool, now: int, finishTime: int, labelKeepMaxSecond: int): bool {
    isFinal && JavaDiv(now - finishTime, 1000) > labelKeepMaxSecond
  }

  lemma ExpiryRule(isFinal: bool, now: int, finishTime: int, labelKeepMaxSecond: int)
    requires labelKeepMaxSecond >= 0
    ensures IsExpired(isFinal, now, finishTime, labelKeepMaxSecond)
            <==> isFinal && now - finishTime >= 1000 * (labelKeepMaxSecond + 1)
  {
    SecondsExceeded(now - finishTime, labelKeepMaxSecond);
  }

  datatype ReplicaState = NORMAL | CLONE | OtherState

  datatype TabletCommitInfo = TabletCommitInfo(tabletId: int, backendId: int)

  /**
   * tabletCommitInfosContainsReplica: with the commit set present (on the leader), membership of
   * (tablet, backend); without it (on a follower), the replica is in neither the error set nor
   * the unknown set.
   */
  function ContainsReplica(commitInfos: Option<set<TabletCommitInfo>>, errorReplicas: set<int>,
                           unknownReplicas: set<int>, tabletId: int, backendId: int, replicaId: int): bool
  {
    match commitInfos
    case Some(infos) => TabletCommitInfo(tabletId, backendId) in infos
    case None => replicaId !in errorReplicas && replicaId !in unknownReplicas
  }

  /**
   * checkReplicaNeedSkip: true iff the replica is NORMAL or CLONE, is not among the committed
   * replicas and lags behind the partition's commit version.
   */
  function CheckReplicaNeedSkip(state: ReplicaState, commitInfos: Option<set<TabletCommitInfo>>,
                                errorReplicas: set<int>, unknownReplicas: set<int>, tabletId: int,
                                backendId: int, replicaId: int, replicaVersion: int,
                                commitVersion: int): (r: bool)
  {
    if state != NORMAL && state != CLONE then false
    else if ContainsReplica(commitInfos, errorReplicas, unknownReplicas, tabletId, backendId, replicaId) then false
    else if replicaVersion >= commitVersion then false
    else true
  }

  /**
   * On the leader the commit set alone decides: a NORMAL or CLONE replica that lags behind the
   * commit version is skipped exactly when its (tablet, backend) pair is missing from the
   * commit set, and the error and unknown replica sets play no part.
   */
  lemma NeedSkipOnLeader(state: ReplicaState, infos: set<TabletCommitInfo>,
                         errorReplicas: set<int>, unknownReplicas: set<int>,
                         otherErrors: set<int>, otherUnknown: set<int>, tabletId: int,
                         backendId: int, replicaId: int, replicaVersion: int, commitVersion: int)
    ensures CheckReplicaNeedSkip(state, Some(infos), errorReplicas, unknownReplicas, tabletId,
                                 backendId, replicaId, replicaVersion, commitVersion)
            <==> (state == NORMAL || state == CLONE) && replicaVersion < commitVersion
                 && TabletCommitInfo(tabletId, backendId) !in infos
    ensures CheckReplicaNeedSkip(state, Some(infos), errorReplicas, unknownReplicas, tabletId,
                                 backendId, replicaId, replicaVersion, commitVersion)
            == CheckReplicaNeedSkip(state, Some(infos), otherErrors, otherUnknown, tabletId,
                                    backendId, replicaId, replicaVersion, commitVersion)
  {
  }

  /**
   * On a follower, without the commit set, a NORMAL or CLONE replica that lags behind the
   * commit version is skipped exactly when it is among the error or unknown replicas; the
   * tablet and backend ids play no part, and enlarging either set never un-skips a replica.
   */
  lemma NeedSkipOnFollower(state: ReplicaState, errorReplicas: set<int>, unknownReplicas: set<int>,
                           moreErrors: set<int>, moreUnknown: set<int>, tabletId: int,
                           backendId: int, otherTablet: int, otherBackend: int, replicaId: int,
                           replicaVersion: int, commitVersion: int)
    ensures CheckReplicaNeedSkip(state, None, errorReplicas, unknownReplicas, tabletId,
                                 backendId, replicaId, replicaVersion, commitVersion)
            <==> (state == NORMAL || state == CLONE) && replicaVersion < commitVersion
                 && replicaId in errorReplicas + unknownReplicas
    ensures CheckReplicaNeedSkip(state, None, errorReplicas, unknownReplicas, tabletId,
                                 backendId, replicaId, replicaVersion, commitVersion)
            == CheckReplicaNeedSkip(state, None, errorReplicas, unknownReplicas, otherTablet,
                                    otherBackend, replicaId, replicaVersion, commitVersion)
    ensures CheckReplicaNeedSkip(state, None, errorReplicas, unknownReplicas, tabletId,
                                 backendId, replicaId, replicaVersion, commitVersion)
            ==> CheckReplicaNeedSkip(state, None, errorReplicas + moreErrors, unknownReplicas + moreUnknown,
                                     tabletId, backendId, replicaId, replicaVersion, commitVersion)
  {
  }

  datatype PartitionCommitInfo = PartitionCommitInfo(physicalPartitionId: int, version: int, isDoubleWrite: bool)

  datatype TableCommitInfo = TableCommitInfo(tableId: int, partitions: seq<PartitionCommitInfo>)

  /** The (partition, version, version hash, double-write) record a publish task carries. */
  datatype PartitionVersionInfo = PartitionVersionInfo(partitionId: int, version: int, versionHash: int, isDoubleWrite: bool)

  function ToVersionInfo(p: PartitionCommitInfo): PartitionVersionInfo {
    PartitionVersionInfo(p.physicalPartitionId, p.version, 0, p.isDoubleWrite)
  }

  function PartitionVersionsOfTable(ps: seq<PartitionCommitInfo>): (r: seq<PartitionVersionInfo>)
    ensures |r| == |ps|
    ensures forall i :: 0 <= i < |ps| ==> r[i] == ToVersionInfo(ps[i])
  {
    if ps == [] then [] else [ToVersionInfo(ps[0])] + PartitionVersionsOfTable(ps[1..])
  }

  /** Every partition of every table, in iteration order, as a version record. */
  function PartitionVersions(tables: seq<TableCommitInfo>): seq<PartitionVersionInfo> {
    if tables == [] then [] else PartitionVersionsOfTable(tables[0].partitions) + PartitionVersions(tables[1..])
  }

  /** The publish payload is exactly the transaction's partitions: each is in it with its version, and nothing else is. */
  lemma {:induction false} PartitionVersionsExact(tables: seq<TableCommitInfo>, v: PartitionVersionInfo)
    ensures v in PartitionVersions(tables) <==>
            exists t, p :: t in tables && p in t.partitions && v == ToVersionInfo(p)
  {
    if tables != [] {
      PartitionVersionsExact(tables[1..], v);
      var head := PartitionVersionsOfTable(tables[0].partitions);
      if v in head {
        var i :| 0 <= i < |head| && head[i] == v;
        assert tables[0] in tables && tables[0].partitions[i] in tables[0].partitions;
      }
      if exists t, p :: t in tables && p in t.partitions && v == ToVersionInfo(p) {
        var t, p :| t in tables && p in t.partitions && v == ToVersionInfo(p);
        if t == tables[0] {
          var i :| 0 <= i < |t.partitions| && t.partitions[i] == p;
          assert head[i] == v;
        } else {
          assert t in tables[1..];
        }
      }
    }
  }

  /**
   * A per-backend publish task. The agent-task class is not part of this model: a task's
   * queue signature is its transaction id, and `isFinished`/`errorReplicas` are what the
   * backend's report sets.
   */
  datatype PublishVersionTask = PublishVersionTask(
    backendId: int, transactionId: int, partitionVersions: seq<PartitionVersionInfo>,
    createTime: int, isFinished: bool, errorReplicas: set<int>)
  {
    function Signature(): int { transactionId }
  }

  /** The task a transaction creates for backend `b`: every partition's version, unfinished, no errors. */
  function NewTask(b: int, transactionId: int, tables: seq<TableCommitInfo>, now: int): PublishVersionTask {
    PublishVersionTask(b, transactionId, PartitionVersions(tables), now, false, {})
  }

  /**
   * One new task per backend of `order` (the iteration order of the target backends), each
   * also registered in the task map under its backend; the tasks already registered for other
   * backends stay.
   */
  method BuildPublishTasks(existing: map<int, PublishVersionTask>, order: seq<int>, transactionId: int,
                           payload: seq<PartitionVersionInfo>, now: int)
    returns (tasks: seq<PublishVersionTask>, m: map<int, PublishVersionTask>)
    requires forall k :: k in existing ==> existing[k].backendId == k
    ensures forall k :: k in m ==> m[k].backendId == k
    ensures |tasks| == |order|
    ensures forall i :: 0 <= i < |tasks| ==> tasks[i] == PublishVersionTask(order[i], transactionId, payload, now, false, {})
    ensures forall k :: k in m <==> k in existing || k in order
    ensures forall k :: k in order ==> m[k] == PublishVersionTask(k, transactionId, payload, now, false, {})
    ensures forall k :: k in existing && k !in order ==> m[k] == existing[k]
  {
    tasks := [];
    m := existing;
    for i := 0 to |order|
      invariant |tasks| == i
      invariant forall j :: 0 <= j < i ==> tasks[j] == PublishVersionTask(order[j], transactionId, payload, now, false, {})
      invariant forall k :: k in m ==> m[k].backendId == k
      invariant forall k :: k in m <==> k in existing || k in order[..i]
      invariant forall k :: k in order[..i] ==> m[k] == PublishVersionTask(k, transactionId, payload, now, false, {})
      invariant forall k :: k in existing && k !in order[..i] ==> m[k] == existing[k]
    {
      var task := PublishVersionTask(order[i], transactionId, payload, now, false, {});
      assert order[..i + 1] == order[..i] + [order[i]];
      m := m[order[i] := task];
      tasks := tasks + [task];
    }
    assert order[..|order|] == order;
  }

  /** Some element of a non-empty set. */
  ghost function PickOne<T>(s: set<T>): (x: T)
    requires s != {}
    ensures x in s
  {
    var x :| x in s; x
  }

  /** The backends a publish goes to: those that already have a task, else every backend. */
  function PublishTargets(existing: map<int, PublishVersionTask>, allBackends: set<int>): set<int> {
    if existing.Keys != {} then existing.Keys else allBackends
  }

  /** The error replicas of the finished tasks met in `order` before the first unfinished one. */
  function FinishedErrors(tasks: map<int, PublishVersionTask>, order: seq<int>): set<int>
    requires forall i :: 0 <= i < |order| ==> order[i] in tasks
  {
    if order == [] then {}
    else if !tasks[order[0]].isFinished then {}
    else tasks[order[0]].errorReplicas + FinishedErrors(tasks, order[1..])
  }

  /** One iteration of the error-gathering loop keeps both of its accumulator equations. */
  lemma ErrorsStep(tasks: map<int, PublishVersionTask>, order: seq<int>, i: nat, errors: set<int>,
                   base: set<int>, timeout: bool)
    requires i < |order| && forall k :: 0 <= k < |order| ==> order[k] in tasks
    requires tasks[order[i]].isFinished || timeout
    requires !timeout ==> errors + FinishedErrors(tasks, order[i..]) == base + FinishedErrors(tasks, order)
    requires errors + AllFinishedErrors(tasks, order[i..]) == base + AllFinishedErrors(tasks, order)
    ensures var t := tasks[order[i]];
            var next := if t.isFinished then errors + t.errorReplicas else errors;
            && (!timeout ==> next + FinishedErrors(tasks, order[i + 1..]) == base + FinishedErrors(tasks, order))
            && next + AllFinishedErrors(tasks, order[i + 1..]) == base + AllFinishedErrors(tasks, order)
  {
    assert order[i..][0] == order[i] && order[i..][1..] == order[i + 1..];
  }

  /** Over an order that lists every task, every listed task finished iff every task did. */
  lemma AllListedFinished(tasks: map<int, PublishVersionTask>, order: seq<int>)
    requires forall i :: 0 <= i < |order| ==> order[i] in tasks
    requires forall b :: b in tasks ==> b in order
    ensures (forall k :: 0 <= k < |order| ==> tasks[order[k]].isFinished)
            <==> (forall b :: b in tasks ==> tasks[b].isFinished)
  {
    if forall k :: 0 <= k < |order| ==> tasks[order[k]].isFinished {
      forall b | b in tasks ensures tasks[b].isFinished {
        var k :| 0 <= k < |order| && order[k] == b;
      }
    } else {
      var k :| 0 <= k < |order| && !tasks[order[k]].isFinished;
      var b := order[k];
      assert b in tasks && !tasks[b].isFinished;
    }
  }

  /** Every finished task's error replicas, whatever their position. */
  function AllFinishedErrors(tasks: map<int, PublishVersionTask>, order: seq<int>): set<int>
    requires forall i :: 0 <= i < |order| ==> order[i] in tasks
  {
    if order == [] then {}
    else (if tasks[order[0]].isFinished then tasks[order[0]].errorReplicas else {})
         + AllFinishedErrors(tasks, order[1..])
  }

  /** When every task has finished, the errors gathered before the first unfinished task are all of them. */
  lemma {:induction false} FinishedErrorsAllFinished(tasks: map<int, PublishVersionTask>, order: seq<int>)
    requires forall i :: 0 <= i < |order| ==> order[i] in tasks
    requires forall i :: 0 <= i < |order| ==> tasks[order[i]].isFinished
    ensures FinishedErrors(tasks, order) == AllFinishedErrors(tasks, order)
  {
    if order != [] {
      FinishedErrorsAllFinished(tasks, order[1..]);
    }
  }

  /** The outcome of the before-transition hooks: the callback ids whose hook ran, or the id that failed. */
  function BeforeTransform(ids: seq<int>, callbacks: map<int, bool>, target: TransactionStatus,
                           sourceType: LoadJobSourceType): Result<seq<int>, int>
  {
    if ids == [] then Ok([])
    else
      var id := ids[0];
      if id in callbacks then
        if target == ABORTED || target == COMMITTED || target == PREPARED then
          if !callbacks[id] then Err(id)
          else match BeforeTransform(ids[1..], callbacks, target, sourceType)
               case Ok(ran) => Ok([id] + ran)
               case Err(e) => Err(e)
        else BeforeTransform(ids[1..], callbacks, target, sourceType)
      else if id > 0 && target == COMMITTED && sourceType != BACKEND_STREAMING then Err(id)
      else BeforeTransform(ids[1..], callbacks, target, sourceType)
  }

  /**
   * With every registered hook succeeding, a transition fails exactly when it commits a
   * transaction that is not a backend stream load and some positive callback id is unregistered.
   */
  lemma {:induction false} MissingCallbackBlocksOnlyCommit(ids: seq<int>, callbacks: map<int, bool>,
                                                           target: TransactionStatus, sourceType: LoadJobSourceType)
    requires forall id :: id in callbacks ==> callbacks[id]
    ensures BeforeTransform(ids, callbacks, target, sourceType).Err? <==>
            target == COMMITTED && sourceType != BACKEND_STREAMING &&
            exists i :: 0 <= i < |ids| && ids[i] > 0 && ids[i] !in callbacks
  {
    if ids != [] {
      MissingCallbackBlocksOnlyCommit(ids[1..], callbacks, target, sourceType);
      var blocked := target == COMMITTED && sourceType != BACKEND_STREAMING;
      if blocked && (exists i :: 0 <= i < |ids[1..]| && ids[1..][i] > 0 && ids[1..][i] !in callbacks) {
        var i :| 0 <= i < |ids[1..]| && ids[1..][i] > 0 && ids[1..][i] !in callbacks;
        assert ids[i + 1] == ids[1..][i];
      }
      if exists i :: 0 <= i < |ids| && ids[i] > 0 && ids[i] !in callbacks {
        var i :| 0 <= i < |ids| && ids[i] > 0 && ids[i] !in callbacks;
        if i > 0 {
          assert ids[1..][i - 1] == ids[i];
        }
      }
    }
  }

  /** `r` with the ids in `ran` put in front of its hooks, when it succeeded. */
  function PrependRan(ran: seq<int>, r: Result<seq<int>, int>): Result<seq<int>, int> {
    match r
    case Ok(rest) => Ok(ran + rest)
    case Err(e) => Err(e)
  }

  /** getCallbackId: the callback list, or the legacy single id when the list is empty. */
  function GetCallbackId(callbackIdList: seq<int>, callbackId: int): (r: seq<int>)
    ensures |r| >= 1
    ensures callbackIdList != [] ==> r == callbackIdList
    ensures callbackIdList == [] ==> r == [callbackId]
  {
    if callbackIdList == [] then [callbackId] else callbackIdList
  }

  /** The latch count after notifyVisible: counted down once, only when visible and not yet zero. */
  function NotifiedLatch(status: TransactionStatus, latch: Option<nat>): (r: Option<nat>)
    ensures r.None? <==> latch.None?
    ensures latch.Some? && r.Some? ==> r.value <= latch.value <= r.value + 1
    ensures latch.Some? && r.Some? && r.value < latch.value ==> status == VISIBLE
  {
    if status == VISIBLE && latch.Some? && latch.value != 0 then Some(latch.value - 1) else latch
  }

  /** The latch starts at one, so a second notification changes nothing. */
  lemma NotifyVisibleOnce(status: TransactionStatus, latch: Option<nat>)
    requires latch.Some? ==> latch.value <= 1
    ensures NotifiedLatch(status, NotifiedLatch(status, latch)) == NotifiedLatch(status, latch)
  {
  }

  /**
   * The task map once backend `b` has reported its publish task finished: that task, if
   * registered, is finished; the other tasks and the set of backends are unchanged.
   */
  function MarkedFinished(tasks: map<int, PublishVersionTask>, b: int): (r: map<int, PublishVersionTask>)
    ensures r.Keys == tasks.Keys
    ensures b in r ==> r[b].isFinished && r[b].backendId == tasks[b].backendId
    ensures forall k :: k in r && k != b ==> r[k] == tasks[k]
  {
    if b in tasks then tasks[b := tasks[b].(isFinished := true)] else tasks
  }

  class Txn {
    var transactionId: int
    var status: TransactionStatus
    var sourceType: LoadJobSourceType
    var tableCommitInfos: seq<TableCommitInfo>
    var errorReplicas: set<int>
    var unknownReplicas: set<int>
    var tabletCommitInfos: Option<set<TabletCommitInfo>>
    var latch: Option<nat>
    var publishVersionTasks: map<int, PublishVersionTask>
    var hasSendTask: bool
    var publishVersionTime: int
    var publishVersionFinishTime: int
    var commitTime: int
    var callbackId: int
    var callbackIdList: seq<int>
    var hasFinishChecker: bool

    /** Every registered task sits under its own backend id. */
    ghost predicate Valid()
      reads this
    {
      forall b :: b in publishVersionTasks ==> publishVersionTasks[b].backendId == b
    }

    /** The constructor that takes a load job's callback id. */
    constructor (transactionId: int, sourceType: LoadJobSourceType, callbackId: int)
      ensures Valid()
      ensures this.transactionId == transactionId && this.sourceType == sourceType
      ensures status == PREPARE && commitTime == -1 && publishVersionTime == -1 && publishVersionFinishTime == -1
      ensures errorReplicas == {} && unknownReplicas == {} && tabletCommitInfos.None?
      ensures publishVersionTasks == map[] && !hasSendTask && latch == Some(1)
      ensures callbackIdList == [callbackId] && this.callbackId == -1 && tableCommitInfos == []
    {
      this.transactionId := transactionId;
      this.sourceType := sourceType;
      status := PREPARE;
      tableCommitInfos := [];
      errorReplicas := {};
      unknownReplicas := {};
      tabletCommitInfos := None;
      latch := Some(1);
      publishVersionTasks := map[];
      hasSendTask := false;
      publishVersionTime := -1;
      publishVersionFinishTime := -1;
      commitTime := -1;
      this.callbackId := -1;
      callbackIdList := [callbackId];
      hasFinishChecker := false;
    }

    method SetTabletCommitInfos(infos: seq<TabletCommitInfo>)
      modifies this`tabletCommitInfos
      ensures tabletCommitInfos == Some(old(tabletCommitInfos).GetOr({}) + set i | i in infos)
    {
      var current := if tabletCommitInfos.Some? then tabletCommitInfos.value else {};
      tabletCommitInfos := Some(current + set i | i in infos);
    }

    method ResetTabletCommitInfos()
      modifies this`tabletCommitInfos
      ensures tabletCommitInfos.None?
    {
      tabletCommitInfos := None;
    }

    /**
     * The report side of a publish task: the task registered for `backendId`, when it is this
     * transaction's, is marked finished (the queue and the transaction share the task object),
     * and the publish finish time is stamped.
     */
    method MarkPublishTaskFinished(backendId: int, now: int)
      requires Valid()
      modifies this`publishVersionTasks, this`publishVersionFinishTime
      ensures Valid()
      ensures publishVersionFinishTime == now
      ensures publishVersionTasks == MarkedFinished(old(publishVersionTasks), backendId)
    {
      if backendId in publishVersionTasks {
        publishVersionTasks := publishVersionTasks[backendId := publishVersionTasks[backendId].(isFinished := true)];
      }
      publishVersionFinishTime := now;
    }

    method AddPublishVersionTask(backendId: int, task: PublishVersionTask)
      requires Valid() && task.backendId == backendId
      modifies this`publishVersionTasks
      ensures Valid()
      ensures publishVersionTasks == old(publishVersionTasks)[backendId := task]
    {
      publishVersionTasks := publishVersionTasks[backendId := task];
    }

    method SetHasSendTask(flag: bool, now: int)
      modifies this`hasSendTask, this`publishVersionTime
      ensures hasSendTask == flag && publishVersionTime == now
    {
      hasSendTask := flag;
      publishVersionTime := now;
    }

    method UpdateSendTaskTime(now: int)
      modifies this`publishVersionTime
      ensures publishVersionTime == now
    {
      publishVersionTime := now;
    }

    method SetTransactionStatus(s: TransactionStatus)
      modifies this`status
      ensures status == s
    {
      status := s;
    }

    method NotifyVisible()
      modifies this`latch
      ensures latch == NotifiedLatch(status, old(latch))
    {
      if status == VISIBLE && latch.Some? && latch.value != 0 {
        latch := Some(latch.value - 1);
      }
    }

    method RemoveTable(tableId: int)
      modifies this`tableCommitInfos
      ensures tableCommitInfos == Without(old(tableCommitInfos), tableId)
    {
      tableCommitInfos := Without(tableCommitInfos, tableId);
    }

    method ClearAfterPublished()
      requires Valid()
      modifies this`publishVersionTasks, this`hasFinishChecker
      ensures Valid() && publishVersionTasks == map[] && !hasFinishChecker
    {
      publishVersionTasks := map[];
      hasFinishChecker := false;
    }

    /** checkCanFinish: a dropped database counts as finished; otherwise the finish checker decides. */
    method CheckCanFinish(dbExists: bool, checkerFinished: bool) returns (r: bool)
      modifies this`hasFinishChecker
      ensures r == (!dbExists || checkerFinished)
      ensures hasFinishChecker == (old(hasFinishChecker) || dbExists)
    {
      if !dbExists {
        return true;
      }
      hasFinishChecker := true;
      r := checkerFinished;
    }

    /**
     * beforeStateTransform: runs the before-hook of every registered callback in turn;
     * `callbacks` maps each registered id to whether its hook succeeds.
     */
    method BeforeStateTransform(target: TransactionStatus, callbacks: map<int, bool>)
      returns (r: Result<seq<int>, int>)
      ensures r == BeforeTransform(GetCallbackId(callbackIdList, callbackId), callbacks, target, sourceType)
    {
      var ids := GetCallbackId(callbackIdList, callbackId);
      var i := 0;
      var ran: seq<int> := [];
      assert ids[0..] == ids;
      assert PrependRan([], BeforeTransform(ids, callbacks, target, sourceType)) == BeforeTransform(ids, callbacks, target, sourceType) by {
        var whole := BeforeTransform(ids, callbacks, target, sourceType);
        if whole.Ok? {
          assert [] + whole.value == whole.value;
        }
      }
      while i < |ids|
        invariant 0 <= i <= |ids|
        invariant BeforeTransform(ids, callbacks, target, sourceType) ==
                  PrependRan(ran, BeforeTransform(ids[i..], callbacks, target, sourceType))
      {
        var id := ids[i];
        ghost var rest := BeforeTransform(ids[i + 1..], callbacks, target, sourceType);
        assert ids[i..][0] == id && ids[i..][1..] == ids[i + 1..];
        if id in callbacks {
          if target == ABORTED || target == COMMITTED || target == PREPARED {
            if !callbacks[id] {
              return Err(id);
            }
            if rest.Ok? {
              assert ran + ([id] + rest.value) == (ran + [id]) + rest.value;
            }
            ran := ran + [id];
          }
        } else if id > 0 && target == COMMITTED && sourceType != BACKEND_STREAMING {
          return Err(id);
        }
        i := i + 1;
      }
      assert ids[i..] == [];
      assert ran + [] == ran;
      r := Ok(ran);
    }

    /**
     * createPublishVersionTask: once tasks were sent nothing happens; otherwise exactly one
     * task per target backend is registered under that backend and returned, each carrying
     * every partition's version. The caller, not this method, sets the sent flag.
     */
    method CreatePublishVersionTask(allBackends: set<int>, order: seq<int>, now: int) returns (tasks: seq<PublishVersionTask>)
      requires Valid()
      requires Distinct(order) && forall b :: b in order <==> b in PublishTargets(publishVersionTasks, allBackends)
      modifies this`publishVersionTasks
      ensures Valid()
      ensures old(hasSendTask) ==> tasks == [] && publishVersionTasks == old(publishVersionTasks)
      ensures !old(hasSendTask) ==>
        var targets := PublishTargets(old(publishVersionTasks), allBackends);
        && |tasks| == |order|
        && (forall i :: 0 <= i < |tasks| ==> tasks[i] == NewTask(order[i], transactionId, tableCommitInfos, now))
        && (forall k :: k in publishVersionTasks <==> k in old(publishVersionTasks) || k in targets)
        && (forall b :: b in targets ==> publishVersionTasks[b] == NewTask(b, transactionId, tableCommitInfos, now))
    {
      tasks := [];
      if hasSendTask {
        return;
      }
      var m;
      tasks, m := BuildPublishTasks(publishVersionTasks, order, transactionId, PartitionVersions(tableCommitInfos), now);
      publishVersionTasks := m;
    }

    /**
     * allPublishTasksFinishedOrQuorumWaitTimeout over the tasks in iteration order `order`:
     * false iff some task is unfinished and the quorum wait has not expired; the out-set gains
     * the error replicas of the finished tasks visited before returning.
     */
    method AllPublishTasksFinishedOrQuorumWaitTimeout(now: int, quorumPublishWaitMs: int, order: seq<int>,
                                                      publishErrorReplicas: set<int>)
      returns (r: bool, errorsOut: set<int>)
      requires (forall i :: 0 <= i < |order| ==> order[i] in publishVersionTasks)
      requires forall b :: b in publishVersionTasks ==> b in order
      ensures r <==> now - commitTime > quorumPublishWaitMs
                     || forall b :: b in publishVersionTasks ==> publishVersionTasks[b].isFinished
      ensures r ==> errorsOut == publishErrorReplicas + AllFinishedErrors(publishVersionTasks, order)
      ensures !r ==> errorsOut == publishErrorReplicas + FinishedErrors(publishVersionTasks, order)
    {
      var timeout := now - commitTime > quorumPublishWaitMs;
      var tasks := publishVersionTasks;
      errorsOut := publishErrorReplicas;
      var i := 0;
      while i < |order|
        invariant 0 <= i <= |order|
        invariant forall j :: 0 <= j < i ==> timeout || tasks[order[j]].isFinished
        invariant !timeout ==> errorsOut + FinishedErrors(tasks, order[i..])
                               == publishErrorReplicas + FinishedErrors(tasks, order)
        invariant errorsOut + AllFinishedErrors(tasks, order[i..])
                  == publishErrorReplicas + AllFinishedErrors(tasks, order)
      {
        var task := tasks[order[i]];
        if task.isFinished || timeout {
          ErrorsStep(tasks, order, i, errorsOut, publishErrorReplicas, timeout);
          if task.isFinished {
            errorsOut := errorsOut + task.errorReplicas;
          }
        } else {
          assert order[i..][0] == order[i];
          assert order[i] in tasks && !tasks[order[i]].isFinished;
          return false, errorsOut;
        }
        i := i + 1;
      }
      assert order[i..] == [];
      r := true;
      AllListedFinished(tasks, order);
    }
  }

  /** The table commit infos without the entries of one table. */
  function Without(tables: seq<TableCommitInfo>, tableId: int): (r: seq<TableCommitInfo>)
    ensures forall t :: t in r <==> t in tables && t.tableId != tableId
  {
    if tables == [] then []
    else if tables[0].tableId == tableId then Without(tables[1..], tableId)
    else [tables[0]] + Without(tables[1..], tableId)
  }
}
