/** The registry of scheduled cron tasks: one process-wide table from task
    id to the scheduled task, in the order the tasks were scheduled.
    Scheduling an id that is already present changes nothing and warns;
    removing a task stops it and drops it, removing an unknown id warns.
    Starting and stopping a task, and the console lines, are recorded in a
    ghost log; the scheduler that runs the jobs is not part of this model. */
module CronTasks {
  import opened JsMaps

  /** The function a task runs, known to the model only by identity. */
  type JobRef = nat

  /** A started `node-cron` task, named after its id. */
  datatype ScheduledTask = ScheduledTask(name: string, expression: string, job: JobRef)

  datatype ConsoleLine = Info(message: string) | Warn(message: string)

  datatype CronEvent =
    | Started(task: ScheduledTask)      // cron.schedule(..., { scheduled: true })
    | Stopped(task: ScheduledTask)      // task.stop()
    | Console(line: ConsoleLine)

  type TaskTable = JsMap<string, ScheduledTask>

  /** Every task is stored under its own name. */
  ghost predicate TableValid(tasks: TaskTable) {
    && tasks.Valid()
    && forall id | id in tasks.entries :: tasks.entries[id].name == id
  }

  /** The table after `scheduleTask`: unchanged when the id is present,
      otherwise the new task is added last. */
  function Schedule(tasks: TaskTable, taskId: string, cronExpression: string, job: JobRef): (r: TaskTable)
    requires TableValid(tasks)
    ensures TableValid(r)
  {
    if taskId in tasks.entries then tasks
    else tasks.Set(taskId, ScheduledTask(taskId, cronExpression, job))
  }

  /** The first schedule of an id wins: scheduling it again, with any
      expression and job, leaves the table as it is. */
  lemma ScheduleFirstWins(tasks: TaskTable, taskId: string, e1: string, j1: JobRef, e2: string, j2: JobRef)
    requires TableValid(tasks)
    ensures Schedule(Schedule(tasks, taskId, e1, j1), taskId, e2, j2) == Schedule(tasks, taskId, e1, j1)
    ensures taskId in Schedule(tasks, taskId, e1, j1).entries
    ensures taskId !in tasks.entries ==> Schedule(tasks, taskId, e1, j1).entries[taskId] == ScheduledTask(taskId, e1, j1)
    ensures taskId in tasks.entries ==> Schedule(tasks, taskId, e1, j1).entries[taskId] == tasks.entries[taskId]
  {
    var once := Schedule(tasks, taskId, e1, j1);
    assert taskId in once.entries;
  }

  /** A new id is listed after all earlier ones; the others keep their
      tasks. */
  lemma ScheduleAppends(tasks: TaskTable, taskId: string, cronExpression: string, job: JobRef)
    requires TableValid(tasks) && taskId !in tasks.entries
    ensures Schedule(tasks, taskId, cronExpression, job).keys == tasks.keys + [taskId]
    ensures forall id | id in tasks.entries :: Schedule(tasks, taskId, cronExpression, job).entries[id] == tasks.entries[id]
  {
  }

  /** Removing a task that was just scheduled under a new id gives back the
      table as it was, order included. */
  lemma RemoveUndoesSchedule(tasks: TaskTable, taskId: string, cronExpression: string, job: JobRef)
    requires TableValid(tasks) && taskId !in tasks.entries
    ensures Schedule(tasks, taskId, cronExpression, job).Delete(taskId) == tasks
  {
    DeleteUndoesSet(tasks, taskId, ScheduledTask(taskId, cronExpression, job));
  }

  class CronTaskService {
    var tasks: TaskTable
    ghost var log: seq<CronEvent>

    ghost predicate Valid()
      reads this
    {
      TableValid(tasks)
    }

    /** The empty table the process starts with. */
    constructor ()
      ensures Valid() && tasks == Empty() && log == []
    {
      tasks := Empty();
      log := [];
    }

    /** `scheduleTask`: start the task and register it, unless the id is
        already taken. */
    method ScheduleTask(taskId: string, cronExpression: string, job: JobRef)
      requires Valid()
      modifies this
      ensures Valid()
      ensures tasks == Schedule(old(tasks), taskId, cronExpression, job)
      ensures log == old(log) +
                (if taskId in old(tasks).entries
                 then [Console(Warn("Task with ID " + taskId + " is already scheduled."))]
                 else [Started(ScheduledTask(taskId, cronExpression, job)),
                       Console(Info("Task " + taskId + " scheduled with expression: " + cronExpression))])
    {
      if taskId in tasks.entries {
        log := log + [Console(Warn("Task with ID " + taskId + " is already scheduled."))];
        return;
      }
      var scheduledTask := ScheduledTask(taskId, cronExpression, job);
      log := log + [Started(scheduledTask)];
      tasks := tasks.Set(taskId, scheduledTask);
      log := log + [Console(Info("Task " + taskId + " scheduled with expression: " + cronExpression))];
    }

    /** `removeTask`: stop and drop the task, or warn that there is none. */
    method RemoveTask(taskId: string)
      requires Valid()
      modifies this
      ensures Valid()
      ensures tasks == old(tasks).Delete(taskId)
      ensures log == old(log) +
                (if taskId in old(tasks).entries
                 then [Stopped(old(tasks).entries[taskId]), Console(Info("Task " + taskId + " removed."))]
                 else [Console(Warn("Task with ID " + taskId + " not found."))])
    {
      var task := tasks.Get(taskId);
      if task.Some? {
        log := log + [Stopped(task.value)];
        tasks := tasks.Delete(taskId);
        log := log + [Console(Info("Task " + taskId + " removed."))];
      } else {
        log := log + [Console(Warn("Task with ID " + taskId + " not found."))];
      }
    }

    /** `taskExists`: the id is one of the listed tasks. */
    function TaskExists(taskId: string): (r: bool)
      requires Valid()
      reads this
      ensures r <==> taskId in ListTasks()
    {
      taskId in tasks.entries
    }

    /** `listTasks`: every registered id once, in scheduling order. */
    function ListTasks(): (r: seq<string>)
      requires Valid()
      reads this
      ensures Distinct(r)
      ensures forall id :: id in r <==> id in tasks.entries
    {
      tasks.keys
    }
  }
}
