/**
 * The agent tasks the front end sends to backends and the queue that holds them until the
 * backend reports back. The queue is a map keyed by (backend, task type, signature); its own
 * class is not part of this model, so only the operations the publish path and the report
 * handler use are given, with the meaning their callers rely on.
 */
module AgentTasks {
  import opened Wrappers

  datatype TaskType =
    | CREATE | DROP | REALTIME_PUSH | PUBLISH_VERSION | CLEAR_ALTER_TASK | CLONE
    | STORAGE_MEDIUM_MIGRATE | CHECK_CONSISTENCY | MAKE_SNAPSHOT | UPLOAD | DOWNLOAD | MOVE
    | RECOVER_TABLET | ALTER | UPDATE_TABLET_META_INFO | DROP_AUTO_INCREMENT_MAP | COMPACTION
    | COMPACTION_CONTROL | REMOTE_SNAPSHOT | REPLICATE_SNAPSHOT | UPDATE_SCHEMA | RELEASE_SNAPSHOT
    | CLEAR_TRANSACTION_TASK | SCHEMA_CHANGE | ROLLUP | OTHER_TASK

  datatype PushType = LOAD | LOAD_DELETE | DELETE | LOAD_V2 | NOT_A_PUSH

  datatype TaskKey = TaskKey(backendId: int, taskType: TaskType, signature: int)

  /** A queued task with the fields the report handler reads and writes. */
  datatype AgentTask = AgentTask(
    backendId: int, taskType: TaskType, signature: int,
    failedTimes: nat, errorMsg: string, isFinished: bool, errorTablets: seq<int>,
    pushType: PushType, version: int)
  {
    function Key(): TaskKey { TaskKey(backendId, taskType, signature) }
  }

  class AgentTaskQueue {
    var tasks: map<TaskKey, AgentTask>

    /** Every task is filed under its own key. */
    ghost predicate Valid()
      reads this
    {
      forall k :: k in tasks ==> tasks[k].Key() == k
    }

    constructor ()
      ensures Valid() && tasks == map[]
    {
      tasks := map[];
    }

    function GetTask(backendId: int, taskType: TaskType, signature: int): (r: Option<AgentTask>)
      reads this
      ensures r.Some? <==> TaskKey(backendId, taskType, signature) in tasks
      ensures r.Some? ==> r.value == tasks[TaskKey(backendId, taskType, signature)]
    {
      var k := TaskKey(backendId, taskType, signature);
      if k in tasks then Some(tasks[k]) else None
    }

    /** Adds a task unless one with the same key is queued already. */
    method AddTask(task: AgentTask) returns (added: bool)
      requires Valid()
      modifies this
      ensures Valid()
      ensures added <==> task.Key() !in old(tasks)
      ensures tasks == if added then old(tasks)[task.Key() := task] else old(tasks)
    {
      if task.Key() in tasks {
        return false;
      }
      tasks := tasks[task.Key() := task];
      return true;
    }

    method RemoveTask(backendId: int, taskType: TaskType, signature: int)
      requires Valid()
      modifies this
      ensures Valid()
      ensures tasks == old(tasks) - {TaskKey(backendId, taskType, signature)}
    {
      tasks := tasks - {TaskKey(backendId, taskType, signature)};
    }

    /** Replaces a queued task by its updated copy. */
    method PutTask(task: AgentTask)
      requires Valid()
      modifies this
      ensures Valid()
      ensures tasks == old(tasks)[task.Key() := task]
    {
      tasks := tasks[task.Key() := task];
    }
  }
}
