/**
 * The leader front end's handling of a backend's finish-task report and of a remote
 * transaction commit. A report is looked up in the agent task queue; a failed report bumps
 * the task's failure count; the task type then decides which finish handler runs, and the
 * handler's exceptions become the status returned to the backend. The handlers of task
 * types outside the publish, push, consistency-check and housekeeping paths are given by
 * their outcome.
 */
module Leader {
  import opened Wrappers
  import opened AgentTasks
  import opened Strings
  import TransactionState

  datatype StatusCode =
    | OK | CANCELLED | TOO_MANY_TASKS | LEADER_TRANSFERRED | INTERNAL_ERROR | NOT_FOUND | TIMEOUT
    | OtherCode(name: string)

  datatype TStatus = TStatus(code: StatusCode, errorMsgs: seq<string>)

  function CodeName(c: StatusCode): string {
    match c
    case OK => "OK"
    case CANCELLED => "CANCELLED"
    case TOO_MANY_TASKS => "TOO_MANY_TASKS"
    case LEADER_TRANSFERRED => "LEADER_TRANSFERRED"
    case INTERNAL_ERROR => "INTERNAL_ERROR"
    case NOT_FOUND => "NOT_FOUND"
    case TIMEOUT => "TIMEOUT"
    case OtherCode(name) => name
  }

  function TaskTypeName(t: TaskType): string {
    match t
    case CREATE => "CREATE"
    case DROP => "DROP"
    case REALTIME_PUSH => "REALTIME_PUSH"
    case PUBLISH_VERSION => "PUBLISH_VERSION"
    case CLEAR_ALTER_TASK => "CLEAR_ALTER_TASK"
    case CLONE => "CLONE"
    case STORAGE_MEDIUM_MIGRATE => "STORAGE_MEDIUM_MIGRATE"
    case CHECK_CONSISTENCY => "CHECK_CONSISTENCY"
    case MAKE_SNAPSHOT => "MAKE_SNAPSHOT"
    case UPLOAD => "UPLOAD"
    case DOWNLOAD => "DOWNLOAD"
    case MOVE => "MOVE"
    case RECOVER_TABLET => "RECOVER_TABLET"
    case ALTER => "ALTER"
    case UPDATE_TABLET_META_INFO => "UPDATE_TABLET_META_INFO"
    case DROP_AUTO_INCREMENT_MAP => "DROP_AUTO_INCREMENT_MAP"
    case COMPACTION => "COMPACTION"
    case COMPACTION_CONTROL => "COMPACTION_CONTROL"
    case REMOTE_SNAPSHOT => "REMOTE_SNAPSHOT"
    case REPLICATE_SNAPSHOT => "REPLICATE_SNAPSHOT"
    case UPDATE_SCHEMA => "UPDATE_SCHEMA"
    case RELEASE_SNAPSHOT => "RELEASE_SNAPSHOT"
    case CLEAR_TRANSACTION_TASK => "CLEAR_TRANSACTION_TASK"
    case SCHEMA_CHANGE => "SCHEMA_CHANGE"
    case ROLLUP => "ROLLUP"
    case OTHER_TASK => "OTHER_TASK"
  }

  datatype TabletInfo = TabletInfo(tabletId: int, partitionId: int)

  /**
   * A finish-task report. `backendId` is the backend (or, in shared-data mode, compute node)
   * registered at the report's host and port, None when there is none.
   */
  datatype FinishTaskRequest = FinishTaskRequest(
    backendId: Option<int>, taskType: TaskType, signature: int, taskStatus: TStatus,
    finishTabletInfos: seq<TabletInfo>, hasReportVersion: bool,
    errorTabletIds: Option<seq<int>>, requestVersion: int)

  /** The exception, if any, a finish handler ends with. */
  datatype Raise = NoRaise | RejectedExecution | OtherException

  /** What the catalog holds for a finished push: looked up in this order. */
  datatype PushCatalog =
    | DbMissing        // the push's database is gone
    | TableMetaMissing // table, physical partition or index is gone
    | JobMissing       // the delete job or load job is gone
    | JobFound

  /**
   * What the environment decides for one report: the catalog for a push, and the outcome of
   * the finish handler of a task type whose handler is not part of this model (whether it
   * removed the task, and the exception it ended with).
   */
  datatype HandlerEnv = HandlerEnv(pushCatalog: PushCatalog, otherRaise: Raise, otherRemoves: bool)

  /** The queue after a handler, with the exception it ended with. */
  datatype Handled = Handled(raise: Raise, tasks: map<TaskKey, AgentTask>)

  /** The status returned to the backend, with the queue afterwards. */
  datatype Outcome = Outcome(status: TStatus, tasks: map<TaskKey, AgentTask>)

  const OkStatus := TStatus(OK, [])

  ghost predicate QueueValid(tasks: map<TaskKey, AgentTask>) {
    forall k :: k in tasks ==> tasks[k].Key() == k
  }

  // ---------------------------------------------------------------------------------------
  // Push finish type
  // ---------------------------------------------------------------------------------------

  datatype PushState = PushNormal | PushSchemaChange | PushRollup

  /**
   * The finish type of a push: one tablet report is a plain push, two reports for the same
   * tablet a schema change, two for different tablets a rollup; any other count is invalid.
   */
  function PushFinishState(infos: seq<TabletInfo>): (r: Option<PushState>)
    ensures r.None? <==> |infos| != 1 && |infos| != 2
    ensures r == Some(PushNormal) <==> |infos| == 1
    ensures r == Some(PushSchemaChange) <==> |infos| == 2 && infos[0].tabletId == infos[1].tabletId
    ensures r == Some(PushRollup) <==> |infos| == 2 && infos[0].tabletId != infos[1].tabletId
  {
    if |infos| == 1 then Some(PushNormal)
    else if |infos| == 2 then
      if infos[0].tabletId == infos[1].tabletId then Some(PushSchemaChange) else Some(PushRollup)
    else None
  }

  /**
   * The queue after a realtime-push report: a vanished database or metadata drops the task,
   * an invalid report count keeps it, a LOAD or LOAD_DELETE push fails its argument check
   * once its table is found, and a delete or load-v2 push completes and drops the task.
   */
  function FinishRealtimePush(tasks: map<TaskKey, AgentTask>, key: TaskKey, infos: seq<TabletInfo>,
                              catalog: PushCatalog): (h: Handled)
    requires key in tasks
    ensures h.raise != RejectedExecution
    ensures h.raise == OtherException ==> h.tasks == tasks
    ensures h.raise == NoRaise ==> (h.tasks == tasks - {key} || h.tasks == tasks)
    ensures h.tasks == tasks <==>
              catalog != DbMissing && (PushFinishState(infos).None? || h.raise == OtherException)
  {
    if catalog == DbMissing then Handled(NoRaise, tasks - {key})
    else if PushFinishState(infos).None? then Handled(NoRaise, tasks)
    else if catalog == TableMetaMissing then Handled(NoRaise, tasks - {key})
    else if tasks[key].pushType == LOAD || tasks[key].pushType == LOAD_DELETE then Handled(OtherException, tasks)
    else Handled(NoRaise, tasks - {key})
  }

  /**
   * The queue after a publish report: the task records the reported error tablets and is
   * finished; it leaves the queue only when the report is OK, so a failed publish is retried.
   */
  function FinishPublishVersion(tasks: map<TaskKey, AgentTask>, key: TaskKey, req: FinishTaskRequest)
    : (t: map<TaskKey, AgentTask>)
    requires key in tasks
    ensures t.Keys == if req.taskStatus.code == OK then tasks.Keys - {key} else tasks.Keys
    ensures key in t ==> t[key].isFinished && t[key].errorTablets == req.errorTabletIds.GetOr([])
    ensures forall k :: k in t && k != key ==> t[k] == tasks[k]
  {
    if req.taskStatus.code == OK then tasks - {key}
    else tasks[key := tasks[key].(errorTablets := req.errorTabletIds.GetOr([]), isFinished := true)]
  }

  /**
   * Task types whose finish handler drops the task in a `finally` block, so the task leaves
   * the queue even when the handler throws.
   */
  predicate RemovesInFinally(t: TaskType) {
    t == CREATE || t == UPDATE_TABLET_META_INFO || t == REMOTE_SNAPSHOT || t == REPLICATE_SNAPSHOT
    || t == UPDATE_SCHEMA || t == STORAGE_MEDIUM_MIGRATE || t == DROP_AUTO_INCREMENT_MAP
  }

  /**
   * A handler this model does not contain: it may throw; one that drops its task in a
   * `finally` block always drops it, any other removes the task or not and leaves the queue
   * alone when it throws.
   */
  function OtherHandler(tasks: map<TaskKey, AgentTask>, key: TaskKey, t: TaskType, env: HandlerEnv): Handled {
    if RemovesInFinally(t) then Handled(env.otherRaise, tasks - {key})
    else if env.otherRaise != NoRaise then Handled(env.otherRaise, tasks)
    else Handled(NoRaise, if env.otherRemoves then tasks - {key} else tasks)
  }

  /**
   * The finish handler chosen by the reported task type, run on the queued task `key`.
   * Report-version and tablet-info preconditions throw; the old alter types always throw.
   */
  function Dispatch(tasks: map<TaskKey, AgentTask>, key: TaskKey, req: FinishTaskRequest, env: HandlerEnv)
    : (h: Handled)
    requires key in tasks
    ensures h.tasks.Keys <= tasks.Keys && tasks.Keys - {key} <= h.tasks.Keys
    ensures forall k :: k in h.tasks && k != key ==> h.tasks[k] == tasks[k]
    ensures QueueValid(tasks) ==> QueueValid(h.tasks)
    ensures req.taskType != PUBLISH_VERSION ==> h.tasks == tasks || h.tasks == tasks - {key}
    ensures h.raise != NoRaise && !RemovesInFinally(req.taskType) ==> h.tasks == tasks
    ensures RemovesInFinally(req.taskType) && (req.taskType == CREATE ==> req.hasReportVersion) ==>
              h == Handled(env.otherRaise, tasks - {key})
    ensures req.taskType == CREATE && !req.hasReportVersion ==> h == Handled(OtherException, tasks)
  {
    match req.taskType
    case CREATE =>
      if !req.hasReportVersion then Handled(OtherException, tasks) else OtherHandler(tasks, key, CREATE, env)
    case REALTIME_PUSH =>
      if |req.finishTabletInfos| == 0 || !req.hasReportVersion then Handled(OtherException, tasks)
      else FinishRealtimePush(tasks, key, req.finishTabletInfos, env.pushCatalog)
    case PUBLISH_VERSION => Handled(NoRaise, FinishPublishVersion(tasks, key, req))
    case CLEAR_ALTER_TASK => Handled(NoRaise, tasks - {key})
    case DROP => Handled(NoRaise, tasks - {key})
    case SCHEMA_CHANGE => Handled(OtherException, tasks)
    case ROLLUP => Handled(OtherException, tasks)
    case CHECK_CONSISTENCY =>
      Handled(NoRaise, if tasks[key].version != req.requestVersion then tasks else tasks - {key})
    case COMPACTION => Handled(NoRaise, tasks - {key})
    case COMPACTION_CONTROL => Handled(NoRaise, tasks - {key})
    case CLONE | STORAGE_MEDIUM_MIGRATE | MAKE_SNAPSHOT | UPLOAD | DOWNLOAD | MOVE | RECOVER_TABLET
       | ALTER | UPDATE_TABLET_META_INFO | DROP_AUTO_INCREMENT_MAP | REMOTE_SNAPSHOT
       | REPLICATE_SNAPSHOT | UPDATE_SCHEMA =>
      OtherHandler(tasks, key, req.taskType, env)
    case RELEASE_SNAPSHOT | CLEAR_TRANSACTION_TASK | OTHER_TASK => Handled(NoRaise, tasks)
  }

  // ---------------------------------------------------------------------------------------
  // finishTask
  // ---------------------------------------------------------------------------------------

  /** Task types whose report is accepted even when the task is no longer queued. */
  predicate IgnoredWhenMissing(t: TaskType) {
    t == DROP || t == STORAGE_MEDIUM_MIGRATE || t == RELEASE_SNAPSHOT || t == CLEAR_TRANSACTION_TASK
  }

  /** Task types whose finish handler still runs after a failed report. */
  predicate HandlesOwnFailure(t: TaskType) {
    t == MAKE_SNAPSHOT || t == UPLOAD || t == DOWNLOAD || t == MOVE || t == CLONE
    || t == PUBLISH_VERSION || t == CREATE || t == UPDATE_TABLET_META_INFO
    || t == DROP_AUTO_INCREMENT_MAP || t == STORAGE_MEDIUM_MIGRATE || t == REMOTE_SNAPSHOT
    || t == REPLICATE_SNAPSHOT || t == UPDATE_SCHEMA
  }

  function NotLeaderStatus(leaderTransferred: bool): TStatus {
    TStatus(if leaderTransferred then LEADER_TRANSFERRED else INTERNAL_ERROR, ["current fe is not master"])
  }

  function CannotFindTaskMessage(t: TaskType, backendId: int, signature: int): string {
    "cannot find task. type: " + TaskTypeName(t) + ", backendId: " + IntToString(backendId)
    + ", signature: " + IntToString(signature)
  }

  /** The error message a failed report leaves on its task. */
  function FailureMessage(req: FinishTaskRequest, backendId: int): string {
    "task type: " + TaskTypeName(req.taskType) + ", status_code: " + CodeName(req.taskStatus.code) + ", "
    + Join(req.taskStatus.errorMsgs, ",") + ", backendId: " + IntToString(backendId)
    + ", signature: " + IntToString(req.signature)
  }

  /** A task after one more failed report. */
  function Failed(task: AgentTask, message: string): (t: AgentTask)
    ensures t.failedTimes == task.failedTimes + 1 && t.Key() == task.Key()
  {
    task.(failedTimes := task.failedTimes + 1, errorMsg := message)
  }

  function RaiseStatus(r: Raise): TStatus {
    match r
    case NoRaise => OkStatus
    case RejectedExecution => TStatus(TOO_MANY_TASKS, ["task queue full"])
    case OtherException => TStatus(CANCELLED, ["finish agent task error."])
  }

  /** The queue key a report names, once its backend is known. */
  function ReportKey(req: FinishTaskRequest): TaskKey
    requires req.backendId.Some?
  {
    TaskKey(req.backendId.value, req.taskType, req.signature)
  }

  /** The report reaches the publish handler: leader, known backend, queued publish task. */
  predicate ReachesPublish(tasks: map<TaskKey, AgentTask>, isLeader: bool, req: FinishTaskRequest) {
    isLeader && req.backendId.Some? && req.taskType == PUBLISH_VERSION && ReportKey(req) in tasks
  }

  /**
   * The leader's answer to a finish-task report and the task queue afterwards. Only the
   * reported task can change or leave the queue, no task is ever added, and the answer is
   * one of five codes.
   */
  function FinishTaskSpec(tasks: map<TaskKey, AgentTask>, isLeader: bool, leaderTransferred: bool,
                          req: FinishTaskRequest, env: HandlerEnv): (o: Outcome)
    requires QueueValid(tasks)
    ensures QueueValid(o.tasks)
    ensures o.tasks.Keys <= tasks.Keys
    ensures forall k :: k in o.tasks && !(req.backendId.Some? && k == ReportKey(req)) ==> o.tasks[k] == tasks[k]
    ensures o.status.code in {OK, CANCELLED, TOO_MANY_TASKS, LEADER_TRANSFERRED, INTERNAL_ERROR}
    ensures o.status.code in {LEADER_TRANSFERRED, INTERNAL_ERROR} <==> !isLeader
    ensures !isLeader || req.backendId.None? ==> o.tasks == tasks
    ensures o.status.code != OK ==> |o.status.errorMsgs| == 1
  {
    if !isLeader then Outcome(NotLeaderStatus(leaderTransferred), tasks)
    else if req.backendId.None? then Outcome(TStatus(CANCELLED, ["backend not exist."]), tasks)
    else
      var backendId := req.backendId.value;
      var key := ReportKey(req);
      if key !in tasks then
        if IgnoredWhenMissing(req.taskType) then Outcome(OkStatus, tasks)
        else Outcome(TStatus(CANCELLED, [CannotFindTaskMessage(req.taskType, backendId, req.signature)]), tasks)
      else FinishQueuedTask(tasks, req, env)
  }

  /**
   * A report for a queued task: a failed report counts the failure on the task; unless the
   * type handles its own failure, the report is then acknowledged (a failed delete push
   * leaves the queue); otherwise the type's finish handler runs.
   */
  function FinishQueuedTask(tasks: map<TaskKey, AgentTask>, req: FinishTaskRequest, env: HandlerEnv): (o: Outcome)
    requires QueueValid(tasks) && req.backendId.Some? && ReportKey(req) in tasks
    ensures QueueValid(o.tasks)
    ensures o.tasks.Keys <= tasks.Keys && tasks.Keys - {ReportKey(req)} <= o.tasks.Keys
    ensures forall k :: k in o.tasks && k != ReportKey(req) ==> o.tasks[k] == tasks[k]
    ensures o.status.code in {OK, CANCELLED, TOO_MANY_TASKS}
    ensures o.status.code != OK ==> |o.status.errorMsgs| == 1
  {
    var key := ReportKey(req);
    var tasks1 := tasks[key := CountFailure(tasks[key], req)];
    if Acknowledged(req) then Outcome(OkStatus, AcknowledgeFailure(tasks1, key))
    else
      var h := Dispatch(tasks1, key, req, env);
      Outcome(RaiseStatus(h.raise), h.tasks)
  }

  /** The task after the report: one more failure, with its message, when the report failed. */
  function CountFailure(task: AgentTask, req: FinishTaskRequest): (t: AgentTask)
    requires req.backendId.Some?
    ensures t.Key() == task.Key()
    ensures t.failedTimes == if req.taskStatus.code != OK then task.failedTimes + 1 else task.failedTimes
  {
    if req.taskStatus.code != OK then Failed(task, FailureMessage(req, req.backendId.value)) else task
  }

  /** The report failed and its type does not handle failures: it is only acknowledged. */
  predicate Acknowledged(req: FinishTaskRequest) {
    req.taskStatus.code != OK && !HandlesOwnFailure(req.taskType)
  }

  /** An acknowledged failure drops the task only when it is a delete push. */
  function AcknowledgeFailure(tasks: map<TaskKey, AgentTask>, key: TaskKey): (t: map<TaskKey, AgentTask>)
    requires key in tasks
    ensures key !in t <==> key.taskType == REALTIME_PUSH && tasks[key].pushType == DELETE
    ensures t == tasks || t == tasks - {key}
  {
    if key.taskType == REALTIME_PUSH && tasks[key].pushType == DELETE then tasks - {key} else tasks
  }

  // ---------------------------------------------------------------------------------------
  // Properties of a report
  // ---------------------------------------------------------------------------------------

  /** A report for a task that is not queued changes nothing and is refused unless its type is tolerated. */
  lemma MissingTaskReport(tasks: map<TaskKey, AgentTask>, transferred: bool, req: FinishTaskRequest, env: HandlerEnv)
    requires QueueValid(tasks) && req.backendId.Some? && ReportKey(req) !in tasks
    ensures FinishTaskSpec(tasks, true, transferred, req, env).tasks == tasks
    ensures FinishTaskSpec(tasks, true, transferred, req, env).status.code == OK <==> IgnoredWhenMissing(req.taskType)
  {
  }

  /**
   * A failed report for a type that does not handle its own failure is acknowledged OK; it
   * counts the failure on the task and drops only a failed delete push.
   */
  lemma FailedReportAcknowledged(tasks: map<TaskKey, AgentTask>, transferred: bool, req: FinishTaskRequest,
                                 env: HandlerEnv)
    requires QueueValid(tasks) && req.backendId.Some? && ReportKey(req) in tasks
    requires req.taskStatus.code != OK && !HandlesOwnFailure(req.taskType)
    ensures var o := FinishTaskSpec(tasks, true, transferred, req, env);
            o.status == OkStatus &&
            (ReportKey(req) !in o.tasks <==> req.taskType == REALTIME_PUSH && tasks[ReportKey(req)].pushType == DELETE) &&
            (ReportKey(req) in o.tasks ==> o.tasks[ReportKey(req)].failedTimes == tasks[ReportKey(req)].failedTimes + 1)
  {
  }

  /**
   * A queued publish task is finished by its report and leaves the queue exactly when the
   * report is OK; a failed report keeps it, with one more failure, for the retry.
   */
  lemma PublishReportRemovesOnlyOnSuccess(tasks: map<TaskKey, AgentTask>, transferred: bool,
                                          req: FinishTaskRequest, env: HandlerEnv)
    requires QueueValid(tasks) && ReachesPublish(tasks, true, req)
    ensures var o := FinishTaskSpec(tasks, true, transferred, req, env);
            o.status == OkStatus &&
            (ReportKey(req) in o.tasks <==> req.taskStatus.code != OK) &&
            (ReportKey(req) in o.tasks ==>
               o.tasks[ReportKey(req)].isFinished &&
               o.tasks[ReportKey(req)].failedTimes == tasks[ReportKey(req)].failedTimes + 1)
  {
  }

  /**
   * Once an OK publish report has been handled, the same report again finds no task and is
   * refused: a backend cannot finish a publish twice.
   */
  lemma RepeatedPublishReportRefused(tasks: map<TaskKey, AgentTask>, transferred: bool,
                                     req: FinishTaskRequest, env: HandlerEnv)
    requires QueueValid(tasks) && ReachesPublish(tasks, true, req) && req.taskStatus.code == OK
    ensures var o1 := FinishTaskSpec(tasks, true, transferred, req, env);
            var o2 := FinishTaskSpec(o1.tasks, true, transferred, req, env);
            o1.status == OkStatus && o2.status.code == CANCELLED && o2.tasks == o1.tasks
  {
    var o1 := FinishTaskSpec(tasks, true, transferred, req, env);
    assert ReportKey(req) !in o1.tasks;
  }

  /**
   * A report that reaches a handler dropping its task in a `finally` block removes the task
   * whatever the handler ends with; the exception only decides the status returned.
   */
  lemma {:induction false} FinallyHandlerAlwaysRemoves(tasks: map<TaskKey, AgentTask>, transferred: bool,
                                                       req: FinishTaskRequest, env: HandlerEnv)
    requires QueueValid(tasks) && req.backendId.Some? && ReportKey(req) in tasks
    requires RemovesInFinally(req.taskType) && (req.taskType == CREATE ==> req.hasReportVersion)
    ensures var o := FinishTaskSpec(tasks, true, transferred, req, env);
            o.tasks == tasks - {ReportKey(req)} && o.status == RaiseStatus(env.otherRaise)
  {
    var key := ReportKey(req);
    var tasks1 := tasks[key := CountFailure(tasks[key], req)];
    assert !Acknowledged(req);
    assert tasks1 - {key} == tasks - {key};
  }

  /**
   * A handler without such a `finally` block that throws leaves the queue as the report's
   * failure count left it, so the task is sent again.
   */
  lemma {:induction false} ThrowingHandlerKeepsTask(tasks: map<TaskKey, AgentTask>, transferred: bool,
                                                    req: FinishTaskRequest, env: HandlerEnv)
    requires QueueValid(tasks) && req.backendId.Some? && ReportKey(req) in tasks
    requires !RemovesInFinally(req.taskType) && !Acknowledged(req)
    ensures var o := FinishTaskSpec(tasks, true, transferred, req, env);
            o.status.code != OK ==>
              (ReportKey(req) in o.tasks && o.tasks[ReportKey(req)] == CountFailure(tasks[ReportKey(req)], req))
  {
  }

  /** A consistency-check report for another version leaves the task queued. */
  lemma StaleConsistencyReportKeepsTask(tasks: map<TaskKey, AgentTask>, transferred: bool,
                                        req: FinishTaskRequest, env: HandlerEnv)
    requires QueueValid(tasks) && req.backendId.Some? && ReportKey(req) in tasks
    requires req.taskType == CHECK_CONSISTENCY && req.taskStatus.code == OK
    ensures var o := FinishTaskSpec(tasks, true, transferred, req, env);
            o.status == OkStatus &&
            (ReportKey(req) in o.tasks <==> tasks[ReportKey(req)].version != req.requestVersion)
  {
  }

  // ---------------------------------------------------------------------------------------
  // The report handler, step by step on the queue
  // ---------------------------------------------------------------------------------------

  /** finishPublishVersion: marks the task, mirrors it into its transaction and drops it when OK. */
  method PublishVersionStep(queue: AgentTaskQueue, txn: TransactionState.Txn?, key: TaskKey,
                            req: FinishTaskRequest, now: int)
    requires queue.Valid() && key in queue.tasks && key.taskType == PUBLISH_VERSION
    requires txn != null ==> txn.Valid()
    modifies queue, txn
    ensures queue.Valid()
    ensures queue.tasks == FinishPublishVersion(old(queue.tasks), key, req)
    ensures txn != null ==> txn.Valid() && txn.publishVersionFinishTime == now
    ensures txn != null ==> txn.publishVersionTasks == TransactionState.MarkedFinished(old(txn.publishVersionTasks), key.backendId)
    ensures txn != null ==> unchanged(txn`status, txn`hasSendTask, txn`transactionId)
  {
    var task := queue.tasks[key];
    queue.PutTask(task.(errorTablets := req.errorTabletIds.GetOr([]), isFinished := true));
    if txn != null {
      txn.MarkPublishTaskFinished(key.backendId, now);
    }
    if req.taskStatus.code == OK {
      queue.RemoveTask(key.backendId, key.taskType, key.signature);
    }
  }

  /** The finish handler for the reported type, run on the queue. */
  method DispatchStep(queue: AgentTaskQueue, txn: TransactionState.Txn?, key: TaskKey, req: FinishTaskRequest,
                      env: HandlerEnv, now: int) returns (raise: Raise)
    requires queue.Valid() && key in queue.tasks && key.taskType == req.taskType
    requires txn != null ==> txn.Valid()
    modifies queue, txn
    ensures queue.Valid()
    ensures Handled(raise, queue.tasks) == Dispatch(old(queue.tasks), key, req, env)
    ensures txn != null && req.taskType == PUBLISH_VERSION ==>
              txn.Valid() && txn.publishVersionFinishTime == now &&
              txn.publishVersionTasks == TransactionState.MarkedFinished(old(txn.publishVersionTasks), key.backendId)
    ensures txn != null && req.taskType != PUBLISH_VERSION ==> unchanged(txn)
    ensures txn != null ==> unchanged(txn`status, txn`hasSendTask, txn`transactionId)
  {
    var h := Dispatch(queue.tasks, key, req, env);
    if req.taskType == PUBLISH_VERSION {
      PublishVersionStep(queue, txn, key, req, now);
      return NoRaise;
    }
    // Every other handler leaves the queue as it was or drops the task.
    raise := h.raise;
    if h.tasks != queue.tasks {
      queue.RemoveTask(key.backendId, key.taskType, key.signature);
    }
  }

  /**
   * finishTask: the leader's answer to a report, with the queue and (for a publish report)
   * the task's transaction updated as the source does step by step.
   */
  method FinishTask(queue: AgentTaskQueue, txn: TransactionState.Txn?, isLeader: bool, leaderTransferred: bool,
                    req: FinishTaskRequest, env: HandlerEnv, now: int) returns (status: TStatus)
    requires queue.Valid()
    requires txn != null ==> txn.Valid()
    modifies queue, txn
    ensures queue.Valid()
    ensures Outcome(status, queue.tasks) == FinishTaskSpec(old(queue.tasks), isLeader, leaderTransferred, req, env)
    ensures txn != null && ReachesPublish(old(queue.tasks), isLeader, req) ==>
              txn.publishVersionFinishTime == now &&
              txn.publishVersionTasks == TransactionState.MarkedFinished(old(txn.publishVersionTasks), req.backendId.value)
    ensures txn != null && !ReachesPublish(old(queue.tasks), isLeader, req) ==> unchanged(txn)
  {
    if !isLeader {
      return NotLeaderStatus(leaderTransferred);
    }
    if req.backendId.None? {
      return TStatus(CANCELLED, ["backend not exist."]);
    }
    var backendId := req.backendId.value;
    var found := queue.GetTask(backendId, req.taskType, req.signature);
    if found.None? {
      if IgnoredWhenMissing(req.taskType) {
        return OkStatus;
      }
      return TStatus(CANCELLED, [CannotFindTaskMessage(req.taskType, backendId, req.signature)]);
    }
    status := FinishQueuedTaskStep(queue, txn, req, env, now);
  }

  /** The part of finishTask after the reported task was found in the queue. */
  method FinishQueuedTaskStep(queue: AgentTaskQueue, txn: TransactionState.Txn?, req: FinishTaskRequest,
                              env: HandlerEnv, now: int) returns (status: TStatus)
    requires queue.Valid() && req.backendId.Some? && ReportKey(req) in queue.tasks
    requires txn != null ==> txn.Valid()
    modifies queue, txn
    ensures queue.Valid()
    ensures Outcome(status, queue.tasks) == FinishQueuedTask(old(queue.tasks), req, env)
    ensures txn != null && req.taskType == PUBLISH_VERSION ==>
              txn.publishVersionFinishTime == now &&
              txn.publishVersionTasks == TransactionState.MarkedFinished(old(txn.publishVersionTasks), req.backendId.value)
    ensures txn != null && req.taskType != PUBLISH_VERSION ==> unchanged(txn)
  {
    var key := ReportKey(req);
    var task := queue.tasks[key];
    if req.taskStatus.code != OK {
      task := CountFailure(task, req);
      queue.PutTask(task);
      if !HandlesOwnFailure(req.taskType) {
        if req.taskType == REALTIME_PUSH && task.pushType == DELETE {
          queue.RemoveTask(task.backendId, REALTIME_PUSH, task.signature);
        }
        return OkStatus;
      }
    } else {
      assert queue.tasks == queue.tasks[key := CountFailure(task, req)];
    }
    var raise := DispatchStep(queue, txn, key, req, env, now);
    status := RaiseStatus(raise);
  }

  // ---------------------------------------------------------------------------------------
  // commitRemoteTxn
  // ---------------------------------------------------------------------------------------

  /** How the leader's commit-and-publish of a remote transaction ends. */
  datatype CommitOutcome = Visible | NotVisible | CommitFailed(message: string) | LockTimeout(message: string)

  /**
   * The answer to a remote commit. A follower forwards it and returns the leader's answer,
   * or INTERNAL_ERROR when forwarding fails (`forwarded` is None). The leader answers
   * NOT_FOUND for a missing database, TIMEOUT when the transaction did not become visible in
   * time, INTERNAL_ERROR with the commit's message when it failed, and re-raises a lock
   * timeout as an error (Err).
   */
  function CommitRemoteTxn(isLeader: bool, forwarded: Option<TStatus>, dbExists: bool, commit: CommitOutcome)
    : (r: Result<TStatus, string>)
    ensures !isLeader ==> r.Ok? && (forwarded.Some? ==> r.value == forwarded.value)
    ensures !isLeader && forwarded.None? ==> r.value.code == INTERNAL_ERROR
    ensures isLeader ==> (r.Err? <==> dbExists && commit.LockTimeout?)
    ensures isLeader ==> (r == Ok(OkStatus) <==> dbExists && commit == Visible)
    ensures isLeader && r.Ok? ==> (r.value.code == NOT_FOUND <==> !dbExists)
    ensures isLeader && r.Ok? && r.value.code != OK ==> |r.value.errorMsgs| == 1
  {
    if !isLeader then
      Ok(if forwarded.Some? then forwarded.value
         else TStatus(INTERNAL_ERROR, ["forward request to fe master failed"]))
    else if !dbExists then Ok(TStatus(NOT_FOUND, ["db not exist or already deleted"]))
    else
      match commit
      case NotVisible => Ok(TStatus(TIMEOUT, ["commit and publish txn timeout"]))
      case CommitFailed(msg) => Ok(TStatus(INTERNAL_ERROR, [msg]))
      case LockTimeout(msg) => Err(msg)
      case Visible => Ok(OkStatus)
  }
}
