/** The thread pool's shared state, and what its threads do to it under the locks. */
module Executor {
  import opened ActionGraph
  import opened ExecutorSpec
  import opened Options

  /** `list.remove`: the first such item goes. */
  method Remove<T(==)>(list: seq<T>, x: T) returns (rest: seq<T>)
    requires x in list
    ensures rest == Removed(list, x)
  {
    var i := 0;
    while list[i] != x
      invariant i < |list| && x !in list[..i]
      decreases |list| - i
    {
      assert list == list[..i + 1] + list[i + 1..];
      i := i + 1;
    }
    RemovedAt(list, x, i);
    rest := list[..i] + list[i + 1..];
  }

  lemma {:induction false} RemovedAt<T>(list: seq<T>, x: T, i: nat)
    requires i < |list| && list[i] == x && x !in list[..i]
    ensures Removed(list, x) == list[..i] + list[i + 1..]
  {
    if i > 0 {
      assert list[0] in list[..i] && list[..i] == [list[0]] + list[1..][..i - 1];
      RemovedAt(list[1..], x, i - 1);
    }
  }

  class HoodExecutor {
    const dependants: map<Node, seq<Node>>
    const delay: set<Node>
    var waiting: map<Node, int>
    var taskQueue: seq<Node>
    var newTaskEvent: bool
    var delayedQueue: seq<Parked>
    var alreadyDelayed: seq<Node>
    var newDelayedTaskEvent: bool

    constructor (job: Job)
      ensures dependants == job.dependants && delay == job.delayed
      ensures waiting == map n | n in job.predecessors :: |job.predecessors[n]|
      ensures taskQueue == [] && !newTaskEvent && delayedQueue == [] && alreadyDelayed == [] && !newDelayedTaskEvent
    {
      dependants, delay := job.dependants, job.delayed;
      waiting := map n | n in job.predecessors :: |job.predecessors[n]|;
      taskQueue, newTaskEvent := [], false;
      delayedQueue, alreadyDelayed, newDelayedTaskEvent := [], [], false;
    }

    /** `queue_multiple`, before the lock: the tasks that wait for nothing. */
    method Filter(taskList: seq<Node>) returns (tasks: seq<Node>)
      ensures tasks == Filtered(waiting, taskList)
    {
      tasks := [];
      for i := 0 to |taskList|
        invariant tasks == Filtered(waiting, taskList[..i])
      {
        assert taskList[..i + 1][..i] == taskList[..i];
        if !(taskList[i] in waiting && waiting[taskList[i]] != 0) {
          tasks := tasks + [taskList[i]];
        }
      }
      assert taskList[..|taskList|] == taskList;
    }

    /** `queue_multiple`: under the lock the tasks are appended, and after it the event is set. */
    method QueueMultiple(taskList: seq<Node>)
      modifies `taskQueue, `newTaskEvent
      ensures taskQueue == old(taskQueue) + Filtered(waiting, taskList) && newTaskEvent
    {
      var tasks := Filter(taskList);
      taskQueue := taskQueue + tasks;
      newTaskEvent := true;
    }

    method GetTask() returns (task: Option<Node>)
      modifies `taskQueue
      ensures old(taskQueue) == [] ==> task == None && taskQueue == []
      ensures old(taskQueue) != [] ==> task.Some? && old(taskQueue) == [task.value] + taskQueue
    {
      if |taskQueue| > 0 {
        task := Some(taskQueue[0]);
        taskQueue := taskQueue[1..];
      } else {
        task := None;
      }
    }

    /** `__delay_task_if_not_has_been`: whether the task may run now; if not it is put off until `end`. */
    method DelayTaskIfNotHasBeen(task: Node, end: int) returns (run: bool)
      modifies `delayedQueue, `alreadyDelayed, `newDelayedTaskEvent
      ensures run <==> task !in delay || task in old(alreadyDelayed)
      ensures alreadyDelayed == if run && task in delay then Removed(old(alreadyDelayed), task) else old(alreadyDelayed)
      ensures delayedQueue == if run then old(delayedQueue) else old(delayedQueue) + [Parked(task, end)]
      ensures newDelayedTaskEvent == (!run || old(newDelayedTaskEvent))
    {
      if task !in delay {
        return true;
      }
      if task in alreadyDelayed {
        alreadyDelayed := Remove(alreadyDelayed, task);
        return true;
      }
      delayedQueue := delayedQueue + [Parked(task, end)];
      newDelayedTaskEvent := true;
      return false;
    }

    /** The loop over a task's dependants, under the lock: those that wait for no more are collected. */
    method UpdateCountdown(task: Node) returns (newTasks: seq<Node>)
      requires task in dependants && forall d :: d in dependants[task] ==> d in waiting
      modifies `waiting
      ensures (waiting, newTasks) == CountedDown(old(waiting), dependants[task])
    {
      var list := dependants[task];
      newTasks := [];
      for i := 0 to |list|
        invariant (waiting, newTasks) == CountedDown(old(waiting), list[..i])
        invariant forall d :: d in list ==> d in waiting
      {
        assert list[..i + 1][..i] == list[..i];
        waiting := waiting[list[i] := waiting[list[i]] - 1];
        if waiting[list[i]] == 0 {
          newTasks := newTasks + [list[i]];
        }
      }
      assert list[..|list|] == list;
    }

    /** After a task has run: its dependants count down, and what that sets free is queued. */
    method Complete(task: Node)
      requires task in dependants && forall d :: d in dependants[task] ==> d in waiting
      modifies `waiting, `taskQueue, `newTaskEvent
      ensures waiting == Freed(old(waiting), dependants[task]).0
      ensures dependants[task] == [] ==> taskQueue == old(taskQueue) && newTaskEvent == old(newTaskEvent)
      ensures dependants[task] != [] ==>
        taskQueue == old(taskQueue) + Freed(old(waiting), dependants[task]).1.tasks && newTaskEvent
    {
      if |dependants[task]| > 0 {
        var newTasks := UpdateCountdown(task);
        QueueMultiple(newTasks);
      }
    }

    /** The scheduler's pass under the lock: the items whose delay has ended are found, and then removed. */
    method ScanDelayed(now: int) returns (finished: seq<Node>)
      modifies `delayedQueue, `alreadyDelayed
      ensures finished == TasksOf(Expired(old(delayedQueue), now))
      ensures delayedQueue == StillDelayed(old(delayedQueue), now)
      ensures alreadyDelayed == old(alreadyDelayed) + finished
    {
      var toRemove: seq<Parked> := [];
      finished := [];
      for i := 0 to |delayedQueue|
        invariant delayedQueue == old(delayedQueue)
        invariant toRemove == Expired(delayedQueue[..i], now) && finished == TasksOf(toRemove)
        invariant alreadyDelayed == old(alreadyDelayed) + finished
      {
        var item := delayedQueue[i];
        assert delayedQueue[..i + 1][..i] == delayedQueue[..i];
        if now > item.end {
          toRemove := toRemove + [item];
          alreadyDelayed := alreadyDelayed + [item.task];
          finished := finished + [item.task];
        }
      }
      assert delayedQueue[..|delayedQueue|] == delayedQueue;
      for i := 0 to |toRemove|
        invariant Expired(delayedQueue, now) == toRemove[i..]
        invariant StillDelayed(delayedQueue, now) == StillDelayed(old(delayedQueue), now)
        invariant alreadyDelayed == old(alreadyDelayed) + finished
      {
        RemovedExpired(delayedQueue, now);
        delayedQueue := Remove(delayedQueue, toRemove[i]);
      }
      NoneExpired(delayedQueue, now);
    }
  }

  /** Removing the first item whose delay has ended leaves the others as they are. */
  lemma {:induction false} RemovedExpired(list: seq<Parked>, now: int)
    requires Expired(list, now) != []
    ensures var item := Expired(list, now)[0];
            && item in list
            && Expired(Removed(list, item), now) == Expired(list, now)[1..]
            && StillDelayed(Removed(list, item), now) == StillDelayed(list, now)
  {
    var item := Expired(list, now)[0];
    SplitFirst(list, now);
    if now > list[0].end {
      assert Removed(list, item) == list[1..];
    } else {
      RemovedExpired(list[1..], now);
      ItemExpired(list, now, item);
      var rest := [list[0]] + Removed(list[1..], item);
      SplitFirst(rest, now);
      assert rest[1..] == Removed(list[1..], item);
    }
  }

  lemma {:induction false} ItemExpired(list: seq<Parked>, now: int, item: Parked)
    requires item in Expired(list, now)
    ensures now > item.end && item in list
  {
    if item !in Expired(list[..|list| - 1], now) {
      assert item == list[|list| - 1];
    } else {
      ItemExpired(list[..|list| - 1], now, item);
    }
  }

  /** The two lists by their first item. */
  lemma {:induction false} SplitFirst(list: seq<Parked>, now: int)
    requires list != []
    ensures Expired(list, now) == (if now > list[0].end then [list[0]] else []) + Expired(list[1..], now)
    ensures StillDelayed(list, now) == (if now > list[0].end then [] else [list[0]]) + StillDelayed(list[1..], now)
  {
    var last := |list| - 1;
    if last > 0 {
      SplitFirst(list[..last], now);
      assert list[1..][..last - 1] == list[..last][1..];
    }
  }

  lemma {:induction false} NoneExpired(list: seq<Parked>, now: int)
    requires Expired(list, now) == []
    ensures StillDelayed(list, now) == list
  {
    if list != [] {
      NoneExpired(list[..|list| - 1], now);
    }
  }
}
