/** The state of the thread pool as a value, and every step a thread may take. */
module ExecutorSpec {
  import opened ActionGraph

  /** What is to be run: the tasks that wait for each, those that each waits for, and those with a delay. */
  datatype Job = Job(
    roots: seq<Node>,                       // those queued at first
    dependants: map<Node, seq<Node>>,
    predecessors: map<Node, multiset<Node>>,
    delayed: set<Node>)

  /** A delayed task, and the time its delay ends. */
  datatype Parked = Parked(task: Node, end: int)

  // ---- what happens under the locks

  /** `filter` in `queue_multiple`: only what waits for nothing is queued. */
  function Filtered(waiting: map<Node, int>, tasks: seq<Node>): seq<Node> {
    if tasks == [] then []
    else
      var last := tasks[|tasks| - 1];
      Filtered(waiting, tasks[..|tasks| - 1]) + if last in waiting && waiting[last] != 0 then [] else [last]
  }

  /** Each dependant waits for one task less; those that wait for no more are collected. */
  function CountedDown(waiting: map<Node, int>, dependants: seq<Node>): (r: (map<Node, int>, seq<Node>))
    requires forall d :: d in dependants ==> d in waiting
    ensures r.0.Keys == waiting.Keys
  {
    if dependants == [] then (waiting, [])
    else
      var front, d := dependants[..|dependants| - 1], dependants[|dependants| - 1];
      var (w, ready) := CountedDown(waiting, front);
      (w[d := w[d] - 1], if w[d] - 1 == 0 then ready + [d] else ready)
  }

  function Removed<T(==)>(list: seq<T>, x: T): seq<T> {
    if list == [] then [] else if list[0] == x then list[1..] else [list[0]] + Removed(list[1..], x)
  }

  /** The delayed tasks whose delay has ended. */
  function Expired(delayed: seq<Parked>, now: int): seq<Parked> {
    if delayed == [] then []
    else
      var last := delayed[|delayed| - 1];
      Expired(delayed[..|delayed| - 1], now) + if now > last.end then [last] else []
  }

  function StillDelayed(delayed: seq<Parked>, now: int): seq<Parked> {
    if delayed == [] then []
    else
      var last := delayed[|delayed| - 1];
      StillDelayed(delayed[..|delayed| - 1], now) + if now > last.end then [] else [last]
  }

  function TasksOf(parked: seq<Parked>): (tasks: seq<Node>)
    ensures |tasks| == |parked|
  {
    seq(|parked|, i requires 0 <= i < |parked| => parked[i].task)
  }

  // ---- threads

  /** Where a thread is between two steps. */
  datatype Phase =
    // a worker: before the wait for a task, before the event is cleared, before the queue is looked at or taken from
    | Waiting | Woken | Checking | Getting
    // with a task: before its delay is looked at, before it is run, before its dependants count down
    | Holding(task: Node) | Running(task: Node) | Updating(task: Node)
    // any thread in `queue_multiple`: before the tasks are appended, before the event is set
    | Appending(tasks: seq<Node>) | Signalling
    // a worker that has delayed a task, before it tells the scheduler
    | SignallingDelay
    // the scheduler: before it looks for delayed tasks, in its wait, before the event is cleared, before the scan
    | Idle | Asleep | Clearing | Scanning
    // the thread that queued the roots
    | Finished

  datatype Executor = Executor(
    waiting: map<Node, int>,
    queue: seq<Node>,
    event: bool,                 // `new_task_event`
    notified: set<nat>,          // the workers that were in their wait when it was last set, and have not woken since
    delayEvent: bool,            // `new_delayed_task_event`
    delayed: seq<Parked>,
    alreadyDelayed: seq<Node>,
    threads: seq<Phase>,         // the workers, the scheduler, and the thread that queues the roots
    ran: seq<Node>,              // the tasks run, in the order they were
    completed: seq<Node>,        // those whose dependants have counted down
    rested: seq<Node>)           // those whose delay has ended

  datatype Step =
    | Wake(i: nat) | Clear(i: nat) | Check(i: nat) | Get(i: nat)
    | Delay(i: nat, end: int) | RunTask(i: nat) | Update(i: nat)
    | Append(i: nat) | Signal(i: nat) | SignalDelay(i: nat)
    | Look(i: nat) | Rouse(i: nat, timedOut: bool) | ClearDelay(i: nat) | Scan(i: nat, now: int)

  function Initial(job: Job, workers: nat): Executor {
    Executor(map n | n in job.predecessors :: |job.predecessors[n]|, [], false, {}, false, [], [],
             seq(workers, _ => Waiting) + [Idle, Appending(job.roots)], [], [], [])
  }

  function Scheduler(s: Executor): int {
    |s.threads| - 2
  }

  /** Where a thread goes on after `queue_multiple`. */
  function Afterwards(s: Executor, i: nat): Phase {
    if i < Scheduler(s) then Checking else if i == Scheduler(s) then Idle else Finished
  }

  /**
   * The workers in their wait, or about to be: setting the event notifies those in it, so that they may wake even if
   * it is cleared meanwhile.
   */
  function Sleepers(threads: seq<Phase>): set<nat> {
    set i: nat | i < |threads| && threads[i].Waiting?
  }

  predicate Enabled(job: Job, s: Executor, step: Step) {
    step.i < |s.threads| &&
    var p := s.threads[step.i];
    match step
    case Wake(i) => p == Waiting && (s.event || i in s.notified)
    case Clear(_) => p == Woken
    case Check(_) => p == Checking
    case Get(_) => p == Getting
    case Delay(_, _) => p.Holding?
    case RunTask(_) => p.Running?
    case Update(_) => p.Updating? && p.task in job.dependants && forall d :: d in job.dependants[p.task] ==> d in s.waiting
    case Append(_) => p.Appending?
    case Signal(_) => p == Signalling
    case SignalDelay(_) => p == SignallingDelay
    case Look(_) => p == Idle
    case Rouse(_, timedOut) => p == Asleep && (s.delayEvent || timedOut)
    case ClearDelay(_) => p == Clearing
    case Scan(_, _) => p == Scanning
  }

  /** A worker looks at the delay of the task it holds. */
  function DelayStep(job: Job, s: Executor, i: nat, end: int): Executor
    requires i < |s.threads| && s.threads[i].Holding?
  {
    var task := s.threads[i].task;
    if task !in job.delayed then s.(threads := s.threads[i := Running(task)])
    else if task in s.alreadyDelayed then
      s.(alreadyDelayed := Removed(s.alreadyDelayed, task), threads := s.threads[i := Running(task)])
    else s.(delayed := s.delayed + [Parked(task, end)], threads := s.threads[i := SignallingDelay])
  }

  /** The counters once the dependants have counted down, and what their worker does next. */
  function Freed(waiting: map<Node, int>, dependants: seq<Node>): (map<Node, int>, Phase)
    requires forall d :: d in dependants ==> d in waiting
  {
    if dependants == [] then (waiting, Checking)
    else var (after, ready) := CountedDown(waiting, dependants); (after, Appending(Filtered(after, ready)))
  }

  /** A task that has run counts its dependants down. */
  function UpdateStep(job: Job, s: Executor, i: nat): Executor
    requires Enabled(job, s, Update(i))
  {
    var task := s.threads[i].task;
    var (waiting, next) := Freed(s.waiting, job.dependants[task]);
    s.(completed := s.completed + [task], waiting := waiting, threads := s.threads[i := next])
  }

  /** The scheduler takes out the tasks whose delay has ended. */
  function ScanStep(s: Executor, i: nat, now: int): Executor
    requires i < |s.threads|
  {
    var finished := TasksOf(Expired(s.delayed, now));
    s.(delayed := StillDelayed(s.delayed, now), alreadyDelayed := s.alreadyDelayed + finished,
       rested := s.rested + finished,
       threads := s.threads[i := if finished == [] then Idle else Appending(Filtered(s.waiting, finished))])
  }

  function Next(job: Job, s: Executor, step: Step): Executor {
    if !Enabled(job, s, step) then s
    else
      var i := step.i;
      match step
      case Wake(_) => s.(notified := s.notified - {i}, threads := s.threads[i := Woken])
      case Clear(_) => s.(event := false, threads := s.threads[i := Checking])
      case Check(_) => s.(threads := s.threads[i := if s.queue == [] then Waiting else Getting])
      case Get(_) =>
        if s.queue == [] then s.(threads := s.threads[i := Checking])
        else s.(queue := s.queue[1..], threads := s.threads[i := Holding(s.queue[0])])
      case Delay(_, end) => DelayStep(job, s, i, end)
      case RunTask(_) => s.(ran := s.ran + [s.threads[i].task], threads := s.threads[i := Updating(s.threads[i].task)])
      case Update(_) => UpdateStep(job, s, i)
      case Append(_) => s.(queue := s.queue + s.threads[i].tasks, threads := s.threads[i := Signalling])
      case Signal(_) => s.(event := true, notified := Sleepers(s.threads), threads := s.threads[i := Afterwards(s, i)])
      case SignalDelay(_) => s.(delayEvent := true, threads := s.threads[i := Checking])
      case Look(_) => s.(threads := s.threads[i := if s.delayed == [] then Asleep else Scanning])
      case Rouse(_, _) => s.(threads := s.threads[i := Clearing])
      case ClearDelay(_) => s.(delayEvent := false, threads := s.threads[i := Scanning])
      case Scan(_, now) => ScanStep(s, i, now)
  }

  /** Any number of steps by any threads. */
  function Run(job: Job, workers: nat, steps: seq<Step>): Executor
    decreases |steps|
  {
    if steps == [] then Initial(job, workers)
    else Next(job, Run(job, workers, steps[..|steps| - 1]), steps[|steps| - 1])
  }
}
