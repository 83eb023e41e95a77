/** What every run of the thread pool keeps, and that it runs every task once and in order. */
module ExecutorRuns {
  import opened ActionGraph
  import opened ExecutorSpec

  /** How many times a list holds a task. */
  function Count(list: seq<Node>, n: Node): nat {
    if list == [] then 0 else Count(list[..|list| - 1], n) + Once(list[|list| - 1] == n)
  }

  lemma {:induction false} CountAppend(a: seq<Node>, b: seq<Node>, n: Node)
    ensures Count(a + b, n) == Count(a, n) + Count(b, n)
  {
    if b == [] {
      assert a + b == a;
    } else {
      CountAppend(a, b[..|b| - 1], n);
      assert (a + b)[..|a + b| - 1] == a + b[..|b| - 1];
    }
  }

  lemma {:induction false} CountMember(list: seq<Node>, n: Node)
    ensures Count(list, n) > 0 <==> n in list
  {
    if list != [] {
      CountMember(list[..|list| - 1], n);
      assert list == list[..|list| - 1] + [list[|list| - 1]];
    }
  }

  lemma CountLast(list: seq<Node>, x: Node, n: Node)
    ensures Count(list + [x], n) == Count(list, n) + Once(x == n)
  {
  }

  lemma CountFirst(list: seq<Node>, n: Node)
    requires list != []
    ensures Count(list, n) == Once(list[0] == n) + Count(list[1..], n)
  {
    assert [list[0]] + list[1..] == list && [] + [list[0]] == [list[0]];
    CountLast([], list[0], n);
    CountAppend([list[0]], list[1..], n);
  }

  lemma {:induction false} CountIsMultiset(list: seq<Node>, n: Node)
    ensures Count(list, n) == multiset(list)[n]
  {
    if list != [] {
      CountIsMultiset(list[..|list| - 1], n);
      assert list == list[..|list| - 1] + [list[|list| - 1]];
    }
  }

  /** Predecessors and dependants agree; the roots wait for nothing. */
  ghost predicate Consistent(job: Job) {
    && job.dependants.Keys == job.predecessors.Keys
    && (forall a, b :: a in job.dependants && b in job.dependants ==>
          Count(job.dependants[a], b) == job.predecessors[b][a])
    && (forall a, b :: a in job.dependants && b in job.dependants[a] ==> b in job.dependants)
    && (forall a, b :: b in job.predecessors && a in job.predecessors[b] ==> a in job.predecessors)
    && NoRepeats(job.roots)
    && (forall n :: n in job.roots ==> n in job.predecessors && job.predecessors[n] == multiset{})
  }

  // ---- what each task still waits for

  /** The predecessors that have not completed. */
  function Remaining(predecessors: multiset<Node>, completed: seq<Node>): multiset<Node> {
    if completed == [] then predecessors
    else Remaining(predecessors, completed[..|completed| - 1])[completed[|completed| - 1] := 0]
  }

  lemma {:induction false} RemainingExactly(predecessors: multiset<Node>, completed: seq<Node>)
    ensures forall a :: Remaining(predecessors, completed)[a] == if a in completed then 0 else predecessors[a]
  {
    if completed != [] {
      RemainingExactly(predecessors, completed[..|completed| - 1]);
    }
  }

  lemma RemainingNext(predecessors: multiset<Node>, completed: seq<Node>, task: Node)
    requires task !in completed
    ensures var was, now := Remaining(predecessors, completed), Remaining(predecessors, completed + [task]);
            |now| == |was| - predecessors[task] && was[task] == predecessors[task] && now == was[task := 0]
  {
  }

  lemma {:induction false} CountedDownWaiting(waiting: map<Node, int>, dependants: seq<Node>)
    requires forall d :: d in dependants ==> d in waiting
    ensures forall n :: n in waiting ==> CountedDown(waiting, dependants).0[n] == waiting[n] - Count(dependants, n)
  {
    if dependants != [] {
      var front, d := dependants[..|dependants| - 1], dependants[|dependants| - 1];
      CountedDownWaiting(waiting, front);
      assert dependants == front + [d];
    }
  }

  /** Collected are those, once each, that waited for nothing else. */
  lemma {:induction false} CountedDownReady(waiting: map<Node, int>, dependants: seq<Node>, n: Node)
    requires forall d :: d in dependants ==> d in waiting
    requires n in waiting ==> waiting[n] >= Count(dependants, n)
    ensures Count(CountedDown(waiting, dependants).1, n)
         == Once(n in dependants && waiting[n] == Count(dependants, n))
  {
    if dependants != [] {
      var front, d := dependants[..|dependants| - 1], dependants[|dependants| - 1];
      assert dependants == front + [d];
      CountedDownWaiting(waiting, front);
      CountedDownReady(waiting, front, n);
      CountMember(front, n);
      CountLast(CountedDown(waiting, front).1, d, n);
    }
  }

  lemma {:induction false} FilteredAll(waiting: map<Node, int>, tasks: seq<Node>)
    requires forall t :: t in tasks ==> t !in waiting || waiting[t] == 0
    ensures Filtered(waiting, tasks) == tasks
  {
    if tasks != [] {
      FilteredAll(waiting, tasks[..|tasks| - 1]);
    }
  }

  // ---- where each task is

  /** What a thread may have to do with a task: have it in hand, have it to run, or have run it just now. */
  datatype Hand = Any | ToRun | JustRan

  function By(hand: Hand, p: Phase, n: Node): nat {
    match hand
    case Any =>
      (match p
       case Holding(task) => Once(task == n)
       case Running(task) => Once(task == n)
       case Updating(task) => Once(task == n)
       case Appending(tasks) => Count(tasks, n)
       case _ => 0)
    case ToRun => Once(p == Running(n))
    case JustRan => Once(p == Updating(n))
  }

  function Total(hand: Hand, threads: seq<Phase>, n: Node): nat {
    if threads == [] then 0
    else Total(hand, threads[..|threads| - 1], n) + By(hand, threads[|threads| - 1], n)
  }

  lemma {:induction false} TotalUpdate(hand: Hand, threads: seq<Phase>, i: nat, p: Phase, n: Node)
    requires i < |threads|
    ensures By(hand, threads[i], n) <= Total(hand, threads, n)
    ensures Total(hand, threads[i := p], n) == Total(hand, threads, n) - By(hand, threads[i], n) + By(hand, p, n)
  {
    var last := |threads| - 1;
    if i < last {
      TotalUpdate(hand, threads[..last], i, p, n);
      assert threads[i := p][..last] == threads[..last][i := p];
    } else {
      assert threads[i := p][..last] == threads[..last];
    }
  }

  lemma {:induction false} InHandAtAll(threads: seq<Phase>, n: Node)
    ensures Total(ToRun, threads, n) + Total(JustRan, threads, n) <= Total(Any, threads, n)
  {
    if threads != [] {
      InHandAtAll(threads[..|threads| - 1], n);
    }
  }

  /** How many times the task is somewhere, of all the places it can be in once it waits for nothing. */
  function Places(s: Executor, n: Node): nat {
    Count(s.queue, n) + Count(TasksOf(s.delayed), n) + Total(Any, s.threads, n) + Count(s.completed, n)
  }

  /** The task waits for nothing more, and it once did or was queued at first. */
  predicate IsReady(job: Job, completed: seq<Node>, n: Node) {
    && n in job.predecessors
    && Remaining(job.predecessors[n], completed) == multiset{}
    && (job.predecessors[n] != multiset{} || n in job.roots)
  }

  // ---- the invariant

  /** The phases of a worker, of the scheduler, and of the thread that queues the roots. */
  predicate MayBe(threads: nat, i: nat, p: Phase) {
    if i + 2 < threads then !(p.Idle? || p.Asleep? || p.Clearing? || p.Scanning? || p.Finished?)
    else if i + 2 == threads then p.Idle? || p.Asleep? || p.Clearing? || p.Scanning? || p.Appending? || p.Signalling?
    else p.Appending? || p.Signalling? || p.Finished?
  }

  predicate Roles(s: Executor) {
    |s.threads| >= 2 && forall i :: 0 <= i < |s.threads| ==> MayBe(|s.threads|, i, s.threads[i])
  }

  /** A counter is the number of predecessors, each as often as it is one, that have not completed. */
  predicate Counted(job: Job, s: Executor) {
    && s.waiting.Keys == job.predecessors.Keys
    && forall n :: n in s.waiting ==> s.waiting[n] == |Remaining(job.predecessors[n], s.completed)|
  }

  /** A task that is ready is in one place, and any other in none. */
  ghost predicate InOnePlace(job: Job, s: Executor) {
    forall n :: Places(s, n) == Once(IsReady(job, s.completed, n))
  }

  ghost predicate RanOnce(s: Executor) {
    forall n :: Count(s.ran, n) == Count(s.completed, n) + Total(JustRan, s.threads, n)
  }

  /** Each task has run after all its predecessors. */
  predicate InOrder(job: Job, ran: seq<Node>) {
    forall k :: 0 <= k < |ran| ==> AfterPredecessors(job, ran, k)
  }

  predicate AfterPredecessors(job: Job, ran: seq<Node>, k: nat)
    requires k < |ran|
  {
    ran[k] in job.predecessors && forall a :: a in job.predecessors[ran[k]] ==> a in ran[..k]
  }

  /**
   * No wake-up is lost: with a task in the queue the event is set, or some worker is not in its wait and will look
   * at the queue, or another thread has appended and will set the event.
   */
  ghost predicate NoLostWakeUp(s: Executor) {
    s.queue != [] ==>
      s.event || exists i :: Stirs(s.threads, i)
  }

  predicate Stirs(threads: seq<Phase>, i: int) {
    0 <= i < |threads| && if i < |threads| - 2 then !threads[i].Waiting? else threads[i].Signalling?
  }

  /** The same for the scheduler: with a task delayed it is told, or not in its wait, or about to be told. */
  ghost predicate NoLostDelay(s: Executor) {
    s.delayed != [] && |s.threads| >= 2 ==>
      s.delayEvent || !s.threads[|s.threads| - 2].Asleep? || exists i :: Tells(s.threads, i)
  }

  predicate Tells(threads: seq<Phase>, i: int) {
    0 <= i < |threads| && threads[i].SignallingDelay?
  }

  /** The delay of a task ends once, after which it is on its way to run, to be run, or has run. */
  predicate RestedOnce(s: Executor, n: Node) {
    && Count(s.rested, n) == Count(s.alreadyDelayed, n) + Total(ToRun, s.threads, n) + Count(s.ran, n) <= 1
    && (Count(TasksOf(s.delayed), n) > 0 ==> Count(s.rested, n) == 0)
  }

  ghost predicate Rested(job: Job, s: Executor) {
    forall n :: n in job.delayed ==> RestedOnce(s, n)
  }

  ghost predicate Invariant(job: Job, s: Executor) {
    && Roles(s) && Counted(job, s) && InOnePlace(job, s) && RanOnce(s) && InOrder(job, s.ran) && Rested(job, s)
    && NoLostWakeUp(s) && NoLostDelay(s)
  }

  // ---- each step keeps it: the places

  lemma {:induction false} ScanSplits(delayed: seq<Parked>, now: int, n: Node)
    ensures Count(TasksOf(delayed), n)
         == Count(TasksOf(Expired(delayed, now)), n) + Count(TasksOf(StillDelayed(delayed, now)), n)
  {
    if delayed != [] {
      var front, last := delayed[..|delayed| - 1], delayed[|delayed| - 1];
      ScanSplits(front, now, n);
      TasksAppend(front, last);
      assert front + [last] == delayed;
      if now > last.end {
        TasksAppend(Expired(front, now), last);
        assert StillDelayed(delayed, now) == StillDelayed(front, now) + [] == StillDelayed(front, now);
      } else {
        TasksAppend(StillDelayed(front, now), last);
        assert Expired(delayed, now) == Expired(front, now) + [] == Expired(front, now);
      }
    }
  }

  lemma TasksAppend(parked: seq<Parked>, more: Parked)
    ensures TasksOf(parked + [more]) == TasksOf(parked) + [more.task]
  {
  }

  /** A thread with a task in hand holds one that is ready, and nothing else has it. */
  lemma InHand(job: Job, s: Executor, i: nat, task: Node)
    requires InOnePlace(job, s) && i < |s.threads| && By(Any, s.threads[i], task) > 0
    ensures IsReady(job, s.completed, task)
    ensures task !in s.completed && task !in s.queue && task !in TasksOf(s.delayed)
    ensures By(Any, s.threads[i], task) == 1 == Total(Any, s.threads, task)
  {
    TotalUpdate(Any, s.threads, i, Waiting, task);
    assert Places(s, task) == 1;
    CountMember(s.completed, task);
    CountMember(s.queue, task);
    CountMember(TasksOf(s.delayed), task);
  }

  lemma GetPlaces(s: Executor, i: nat, n: Node)
    requires i < |s.threads| && s.threads[i].Getting? && s.queue != []
    ensures Places(s.(queue := s.queue[1..], threads := s.threads[i := Holding(s.queue[0])]), n) == Places(s, n)
  {
    TotalUpdate(Any, s.threads, i, Holding(s.queue[0]), n);
    CountFirst(s.queue, n);
  }

  lemma DelayPlaces(s: Executor, i: nat, end: int, n: Node)
    requires i < |s.threads| && s.threads[i].Holding?
    ensures Places(s.(delayed := s.delayed + [Parked(s.threads[i].task, end)],
                      threads := s.threads[i := SignallingDelay]), n)
         == Places(s, n)
  {
    TotalUpdate(Any, s.threads, i, SignallingDelay, n);
    TasksAppend(s.delayed, Parked(s.threads[i].task, end));
    CountLast(TasksOf(s.delayed), s.threads[i].task, n);
  }

  /** What the scheduler finds is ready, so that the filter keeps it. */
  lemma ExpiredReady(job: Job, s: Executor, now: int)
    requires Counted(job, s) && InOnePlace(job, s)
    ensures var finished := TasksOf(Expired(s.delayed, now)); Filtered(s.waiting, finished) == finished
  {
    var finished := TasksOf(Expired(s.delayed, now));
    forall task | task in finished
      ensures task !in s.waiting || s.waiting[task] == 0
    {
      ScanSplits(s.delayed, now, task);
      CountMember(finished, task);
      assert Places(s, task) > 0;
      assert IsReady(job, s.completed, task);
    }
    FilteredAll(s.waiting, finished);
  }

  lemma ScanPlaces(s: Executor, i: nat, now: int, n: Node)
    requires i < |s.threads| && s.threads[i].Scanning?
    requires var finished := TasksOf(Expired(s.delayed, now)); Filtered(s.waiting, finished) == finished
    ensures Places(ScanStep(s, i, now), n) == Places(s, n)
  {
    var finished := TasksOf(Expired(s.delayed, now));
    var next := if finished == [] then Idle else Appending(finished);
    assert ScanStep(s, i, now).threads == s.threads[i := next];
    assert By(Any, next, n) == Count(finished, n);
    TotalUpdate(Any, s.threads, i, next, n);
    ScanSplits(s.delayed, now, n);
  }

  /** A thread goes on with the same tasks in hand. */
  lemma SameInHand(s: Executor, t: Executor, i: nat, n: Node)
    requires i < |s.threads| == |t.threads| && t.threads == s.threads[i := t.threads[i]]
    requires By(Any, t.threads[i], n) == By(Any, s.threads[i], n)
    requires t.queue == s.queue && t.delayed == s.delayed && t.completed == s.completed
    ensures Places(t, n) == Places(s, n)
  {
    TotalUpdate(Any, s.threads, i, t.threads[i], n);
  }

  lemma AppendPlaces(s: Executor, i: nat, n: Node)
    requires i < |s.threads| && s.threads[i].Appending?
    ensures Places(s.(queue := s.queue + s.threads[i].tasks, threads := s.threads[i := Signalling]), n) == Places(s, n)
  {
    TotalUpdate(Any, s.threads, i, Signalling, n);
    CountAppend(s.queue, s.threads[i].tasks, n);
  }

  lemma StepPlaces(job: Job, s: Executor, step: Step, n: Node)
    requires Counted(job, s) && InOnePlace(job, s) && Enabled(job, s, step) && !step.Update?
    ensures Places(Next(job, s, step), n) == Places(s, n)
  {
    var i := step.i;
    if step.Get? && s.queue != [] {
      GetPlaces(s, i, n);
    } else if step.Delay? && Next(job, s, step).threads[i].SignallingDelay? {
      DelayPlaces(s, i, step.end, n);
    } else if step.Scan? {
      ExpiredReady(job, s, step.now);
      ScanPlaces(s, i, step.now, n);
    } else if step.Append? {
      AppendPlaces(s, i, n);
    } else {
      SameInHand(s, Next(job, s, step), i, n);
    }
  }

  lemma PlacesKept(job: Job, s: Executor, step: Step)
    requires Counted(job, s) && InOnePlace(job, s) && Enabled(job, s, step) && !step.Update?
    requires Next(job, s, step).completed == s.completed
    ensures InOnePlace(job, Next(job, s, step))
  {
    var t := Next(job, s, step);
    forall n
      ensures Places(t, n) == Once(IsReady(job, t.completed, n))
    {
      StepPlaces(job, s, step, n);
      assert Places(s, n) == Once(IsReady(job, s.completed, n));
    }
  }

  // ---- the countdown

  /** What becomes ready when a task completes: those that waited for it alone. */
  lemma ReadyNext(job: Job, s: Executor, task: Node, n: Node)
    requires Consistent(job) && Counted(job, s) && IsReady(job, s.completed, task) && task !in s.completed
    ensures task in job.dependants
    ensures n in s.waiting ==>
              s.waiting[n] - Count(job.dependants[task], n)
              == |Remaining(job.predecessors[n], s.completed + [task])| >= 0
    ensures var freed := n in job.dependants[task] && s.waiting[n] == Count(job.dependants[task], n);
            && (IsReady(job, s.completed + [task], n) <==> IsReady(job, s.completed, n) || freed)
            && !(IsReady(job, s.completed, n) && freed)
  {
    if n in job.predecessors {
      RemainingNext(job.predecessors[n], s.completed, task);
      assert Count(job.dependants[task], n) == job.predecessors[n][task];
      CountMember(job.dependants[task], n);
    }
  }

  lemma UpdateCounts(job: Job, s: Executor, i: nat)
    requires Consistent(job) && Counted(job, s) && Enabled(job, s, Update(i))
    requires IsReady(job, s.completed, s.threads[i].task) && s.threads[i].task !in s.completed
    ensures Counted(job, UpdateStep(job, s, i))
  {
    var task := s.threads[i].task;
    CountedDownWaiting(s.waiting, job.dependants[task]);
    forall n | n in s.waiting
      ensures UpdateStep(job, s, i).waiting[n] == |Remaining(job.predecessors[n], s.completed + [task])|
    {
      ReadyNext(job, s, task, n);
    }
  }

  /** Only completing a task changes a counter. */
  lemma CountersStay(job: Job, s: Executor, step: Step)
    requires Enabled(job, s, step) && !step.Update?
    ensures Next(job, s, step).waiting == s.waiting && Next(job, s, step).completed == s.completed
  {
  }

  /** The tasks a completed one sets free are appended all. */
  lemma FreedAppended(waiting: map<Node, int>, dependants: seq<Node>, n: Node)
    requires forall d :: d in dependants ==> d in waiting
    requires forall m :: m in waiting ==> waiting[m] >= Count(dependants, m)
    ensures By(Any, Freed(waiting, dependants).1, n) == Once(n in dependants && waiting[n] == Count(dependants, n))
  {
    CountedDownWaiting(waiting, dependants);
    CountedDownReady(waiting, dependants, n);
    var (after, ready) := CountedDown(waiting, dependants);
    forall t | t in ready
      ensures t !in after || after[t] == 0
    {
      CountMember(ready, t);
      CountedDownReady(waiting, dependants, t);
    }
    FilteredAll(after, ready);
  }

  /** The counters are never below what is to be counted down. */
  lemma EnoughToCount(job: Job, s: Executor, task: Node)
    requires Consistent(job) && Counted(job, s) && IsReady(job, s.completed, task) && task !in s.completed
    ensures task in job.dependants
    ensures forall m :: m in s.waiting ==> s.waiting[m] >= Count(job.dependants[task], m)
  {
    forall m | m in s.waiting
      ensures s.waiting[m] >= Count(job.dependants[task], m)
    {
      ReadyNext(job, s, task, m);
    }
  }

  lemma UpdateAppends(job: Job, s: Executor, i: nat, n: Node)
    requires Consistent(job) && Counted(job, s) && Enabled(job, s, Update(i))
    requires IsReady(job, s.completed, s.threads[i].task) && s.threads[i].task !in s.completed
    ensures By(Any, UpdateStep(job, s, i).threads[i], n)
         == Once(n in job.dependants[s.threads[i].task] && s.waiting[n] == Count(job.dependants[s.threads[i].task], n))
  {
    EnoughToCount(job, s, s.threads[i].task);
    FreedAppended(s.waiting, job.dependants[s.threads[i].task], n);
  }

  /** The task moves to the completed ones, and what the thread has in hand now is added. */
  lemma UpdateMoves(job: Job, s: Executor, i: nat, n: Node)
    requires Enabled(job, s, Update(i))
    ensures Places(UpdateStep(job, s, i), n) == Places(s, n) + By(Any, UpdateStep(job, s, i).threads[i], n)
    ensures UpdateStep(job, s, i).completed == s.completed + [s.threads[i].task]
  {
    TotalUpdate(Any, s.threads, i, UpdateStep(job, s, i).threads[i], n);
    CountLast(s.completed, s.threads[i].task, n);
  }

  lemma UpdatePlace(job: Job, s: Executor, i: nat, n: Node)
    requires Consistent(job) && Counted(job, s) && Enabled(job, s, Update(i))
    requires IsReady(job, s.completed, s.threads[i].task) && s.threads[i].task !in s.completed
    ensures var now, was := IsReady(job, UpdateStep(job, s, i).completed, n), IsReady(job, s.completed, n);
            Places(UpdateStep(job, s, i), n) - Places(s, n) == Once(now) - Once(was)
  {
    UpdateMoves(job, s, i, n);
    UpdateAppends(job, s, i, n);
    ReadyNext(job, s, s.threads[i].task, n);
  }

  lemma UpdatePlaces(job: Job, s: Executor, i: nat)
    requires Consistent(job) && Counted(job, s) && InOnePlace(job, s) && Enabled(job, s, Update(i))
    ensures InOnePlace(job, UpdateStep(job, s, i))
  {
    var t := UpdateStep(job, s, i);
    InHand(job, s, i, s.threads[i].task);
    forall n
      ensures Places(t, n) == Once(IsReady(job, t.completed, n))
    {
      UpdatePlace(job, s, i, n);
      assert Places(s, n) == Once(IsReady(job, s.completed, n));
    }
  }

  // ---- the runs

  lemma RanKept(job: Job, s: Executor, step: Step)
    requires Enabled(job, s, step) && RanOnce(s)
    ensures RanOnce(Next(job, s, step))
  {
    hide Total, Count, By, Freed, CountedDown, Removed, TasksOf, Expired, StillDelayed, Filtered;
    var t := Next(job, s, step);
    forall n
      ensures Count(t.ran, n) == Count(t.completed, n) + Total(JustRan, t.threads, n)
    {
      TotalUpdate(JustRan, s.threads, step.i, t.threads[step.i], n);
      RanMoves(job, s, step, n);
    }
  }

  lemma RanMoves(job: Job, s: Executor, step: Step, n: Node)
    requires Enabled(job, s, step)
    ensures var t := Next(job, s, step);
            && t.threads == s.threads[step.i := t.threads[step.i]]
            && Count(t.ran, n) + By(JustRan, s.threads[step.i], n) + Count(s.completed, n)
               == Count(s.ran, n) + By(JustRan, t.threads[step.i], n) + Count(t.completed, n)
  {
    if step.RunTask? {
      CountLast(s.ran, s.threads[step.i].task, n);
    } else if step.Update? {
      CountLast(s.completed, s.threads[step.i].task, n);
    } else {
      NothingRuns(job, s, step, n);
    }
  }

  lemma NothingRuns(job: Job, s: Executor, step: Step, n: Node)
    requires Enabled(job, s, step) && !step.RunTask? && !step.Update?
    ensures var t := Next(job, s, step);
            && t.threads == s.threads[step.i := t.threads[step.i]]
            && t.ran == s.ran && t.completed == s.completed
            && By(JustRan, s.threads[step.i], n) == By(JustRan, t.threads[step.i], n) == 0
  {
    hide Freed, Removed, TasksOf, Expired, StillDelayed, Filtered;
  }

  lemma OrderKept(job: Job, s: Executor, step: Step)
    requires Invariant(job, s) && Enabled(job, s, step)
    ensures InOrder(job, Next(job, s, step).ran)
  {
    if step.RunTask? {
      var task := s.threads[step.i].task;
      InHand(job, s, step.i, task);
      CompletedRan(s);
      RemainingExactly(job.predecessors[task], s.completed);
      forall a | a in job.predecessors[task]
        ensures a in s.ran
      {
        assert Remaining(job.predecessors[task], s.completed)[a] == 0;
      }
      OrderAppend(job, s.ran, task);
    }
  }

  lemma CompletedRan(s: Executor)
    requires RanOnce(s)
    ensures forall a :: a in s.completed ==> a in s.ran
  {
    forall a | a in s.completed
      ensures a in s.ran
    {
      CountMember(s.completed, a);
      CountMember(s.ran, a);
    }
  }

  lemma OrderAppend(job: Job, ran: seq<Node>, task: Node)
    requires InOrder(job, ran) && task in job.predecessors && forall a :: a in job.predecessors[task] ==> a in ran
    ensures InOrder(job, ran + [task])
  {
    forall k | 0 <= k < |ran| + 1
      ensures AfterPredecessors(job, ran + [task], k)
    {
      assert (ran + [task])[..k] == ran[..k];
      assert k < |ran| ==> AfterPredecessors(job, ran, k);
    }
  }

  // ---- delays

  lemma {:induction false} CountRemoved(list: seq<Node>, x: Node, n: Node)
    requires x in list
    ensures Count(Removed(list, x), n) == Count(list, n) - Once(x == n)
  {
    CountFirst(list, n);
    if list[0] != x {
      CountRemoved(list[1..], x, n);
      var removed := [list[0]] + Removed(list[1..], x);
      CountFirst(removed, n);
      assert removed[1..] == Removed(list[1..], x);
    }
  }

  /** A task in hand that is not to be run has not run, nor is it to. */
  lemma HoldingNotRun(job: Job, s: Executor, i: nat)
    requires InOnePlace(job, s) && RanOnce(s) && i < |s.threads| && s.threads[i].Holding?
    ensures var n := s.threads[i].task; Count(s.ran, n) == 0 && Total(ToRun, s.threads, n) == 0
  {
    var n := s.threads[i].task;
    InHand(job, s, i, n);
    CountMember(s.completed, n);
    TotalUpdate(Any, s.threads, i, Waiting, n);
    TotalUpdate(ToRun, s.threads, i, Waiting, n);
    TotalUpdate(JustRan, s.threads, i, Waiting, n);
    InHandAtAll(s.threads[i := Waiting], n);
  }

  lemma DelayRests(job: Job, s: Executor, i: nat, end: int, n: Node)
    requires InOnePlace(job, s) && RanOnce(s) && Enabled(job, s, Delay(i, end)) && n in job.delayed && RestedOnce(s, n)
    ensures RestedOnce(DelayStep(job, s, i, end), n)
  {
    hide InOnePlace, RanOnce, Total, Count, TasksOf, Removed;
    var t, task := DelayStep(job, s, i, end), s.threads[i].task;
    TotalUpdate(ToRun, s.threads, i, t.threads[i], n);
    HoldingNotRun(job, s, i);
    if task in job.delayed {
      CountMember(s.alreadyDelayed, task);
      if task in s.alreadyDelayed {
        CountRemoved(s.alreadyDelayed, task, n);
      } else {
        TasksAppend(s.delayed, Parked(task, end));
        CountLast(TasksOf(s.delayed), task, n);
      }
    }
  }

  lemma ScanRests(job: Job, s: Executor, i: nat, now: int, n: Node)
    requires InOnePlace(job, s) && Enabled(job, s, Scan(i, now)) && RestedOnce(s, n)
    ensures RestedOnce(ScanStep(s, i, now), n)
  {
    var finished := TasksOf(Expired(s.delayed, now));
    TotalUpdate(ToRun, s.threads, i, ScanStep(s, i, now).threads[i], n);
    ScanSplits(s.delayed, now, n);
    CountAppend(s.alreadyDelayed, finished, n);
    CountAppend(s.rested, finished, n);
    assert Places(s, n) <= 1;
  }

  lemma RunRests(s: Executor, i: nat, n: Node)
    requires i < |s.threads| && s.threads[i].Running? && RestedOnce(s, n)
    ensures RestedOnce(s.(ran := s.ran + [s.threads[i].task], threads := s.threads[i := Updating(s.threads[i].task)]), n)
  {
    TotalUpdate(ToRun, s.threads, i, Updating(s.threads[i].task), n);
    CountLast(s.ran, s.threads[i].task, n);
  }

  lemma OtherRests(job: Job, s: Executor, step: Step, n: Node)
    requires Enabled(job, s, step) && !step.Delay? && !step.Scan? && !step.RunTask? && RestedOnce(s, n)
    ensures RestedOnce(Next(job, s, step), n)
  {
    var t := Next(job, s, step);
    DelaysStay(job, s, step);
    TotalUpdate(ToRun, s.threads, step.i, t.threads[step.i], n);
  }

  lemma DelaysStay(job: Job, s: Executor, step: Step)
    requires Enabled(job, s, step) && !step.Delay? && !step.Scan? && !step.RunTask?
    ensures var t := Next(job, s, step);
            && t.delayed == s.delayed && t.alreadyDelayed == s.alreadyDelayed && t.rested == s.rested && t.ran == s.ran
            && t.threads == s.threads[step.i := t.threads[step.i]]
            && !s.threads[step.i].Running? && !t.threads[step.i].Running?
  {
  }

  lemma RestedKept(job: Job, s: Executor, step: Step)
    requires InOnePlace(job, s) && RanOnce(s) && Rested(job, s) && Enabled(job, s, step)
    ensures Rested(job, Next(job, s, step))
  {
    forall n | n in job.delayed
      ensures RestedOnce(Next(job, s, step), n)
    {
      assert RestedOnce(s, n);
      match step
      case Delay(i, end) => DelayRests(job, s, i, end, n);
      case Scan(i, now) => ScanRests(job, s, i, now, n);
      case RunTask(i) => RunRests(s, i, n);
      case _ => OtherRests(job, s, step, n);
    }
  }

  // ---- wake-ups

  lemma RolesKept(job: Job, s: Executor, step: Step)
    requires Roles(s) && Enabled(job, s, step)
    ensures Roles(Next(job, s, step))
  {
    RoleKept(job, s, step);
  }

  lemma RoleKept(job: Job, s: Executor, step: Step)
    requires Roles(s) && Enabled(job, s, step)
    ensures var t := Next(job, s, step);
            && t.threads == s.threads[step.i := t.threads[step.i]]
            && MayBe(|s.threads|, step.i, t.threads[step.i])
  {
    assert MayBe(|s.threads|, step.i, s.threads[step.i]);
  }

  lemma WakeUpKept(job: Job, s: Executor, step: Step)
    requires Roles(s) && NoLostWakeUp(s) && Enabled(job, s, step)
    ensures NoLostWakeUp(Next(job, s, step))
  {
    var t := Next(job, s, step);
    if t.queue != [] && !t.event && !Stirs(t.threads, step.i) {
      var j :| Stirs(s.threads, j);
      assert Stirs(t.threads, j);
    }
  }

  lemma DelayKept(job: Job, s: Executor, step: Step)
    requires Roles(s) && NoLostDelay(s) && Enabled(job, s, step)
    ensures NoLostDelay(Next(job, s, step))
  {
    hide Freed, Removed, TasksOf, Expired, Filtered;
    var t := Next(job, s, step);
    if t.delayed != [] && !t.delayEvent && t.threads[|t.threads| - 2].Asleep? && !Tells(t.threads, step.i) {
      var j :| Tells(s.threads, j);
      assert Tells(t.threads, j);
    }
  }

  lemma TasksKept(job: Job, s: Executor, step: Step)
    requires Consistent(job) && Counted(job, s) && InOnePlace(job, s) && Enabled(job, s, step)
    ensures Counted(job, Next(job, s, step)) && InOnePlace(job, Next(job, s, step))
  {
    if step.Update? {
      InHand(job, s, step.i, s.threads[step.i].task);
      UpdateCounts(job, s, step.i);
      UpdatePlaces(job, s, step.i);
    } else {
      CountersStay(job, s, step);
      PlacesKept(job, s, step);
    }
  }

  lemma NextKeeps(job: Job, s: Executor, step: Step)
    requires Consistent(job) && Invariant(job, s)
    ensures Invariant(job, Next(job, s, step))
  {
    if Enabled(job, s, step) {
      RolesKept(job, s, step);
      RanKept(job, s, step);
      OrderKept(job, s, step);
      RestedKept(job, s, step);
      WakeUpKept(job, s, step);
      DelayKept(job, s, step);
      TasksKept(job, s, step);
    }
  }

  // ---- every run

  lemma {:induction false} NothingHeld(hand: Hand, workers: nat, n: Node)
    ensures Total(hand, seq(workers, _ => Waiting), n) == 0
  {
    if workers > 0 {
      NothingHeld(hand, workers - 1, n);
      assert seq(workers, _ => Waiting)[..workers - 1] == seq(workers - 1, _ => Waiting);
    }
  }

  lemma {:induction false} CountsOnce(list: seq<Node>, n: Node)
    requires NoRepeats(list)
    ensures Count(list, n) == Once(n in list)
  {
    if list != [] {
      var front, last := list[..|list| - 1], list[|list| - 1];
      CountsOnce(front, n);
      assert list == front + [last];
      assert last !in front;
    }
  }

  lemma InitialHeld(hand: Hand, job: Job, workers: nat, n: Node)
    ensures Total(hand, Initial(job, workers).threads, n) == if hand == Any then Count(job.roots, n) else 0
  {
    var all, idle := Initial(job, workers).threads, seq(workers, _ => Waiting);
    NothingHeld(hand, workers, n);
    assert all[..workers + 1] == idle + [Idle] && (idle + [Idle])[..workers] == idle;
    assert Total(hand, idle + [Idle], n) == 0;
  }

  lemma InitialKeeps(job: Job, workers: nat)
    requires Consistent(job)
    ensures Invariant(job, Initial(job, workers))
  {
    var s := Initial(job, workers);
    forall n
      ensures Places(s, n) == Once(IsReady(job, [], n))
      ensures Total(JustRan, s.threads, n) == Total(ToRun, s.threads, n) == 0
    {
      InitialHeld(Any, job, workers, n);
      InitialHeld(JustRan, job, workers, n);
      InitialHeld(ToRun, job, workers, n);
      CountsOnce(job.roots, n);
    }
  }

  lemma {:induction false} RunKeeps(job: Job, workers: nat, steps: seq<Step>)
    requires Consistent(job)
    ensures Invariant(job, Run(job, workers, steps))
    decreases |steps|
  {
    if steps == [] {
      InitialKeeps(job, workers);
    } else {
      RunKeeps(job, workers, steps[..|steps| - 1]);
      NextKeeps(job, Run(job, workers, steps[..|steps| - 1]), steps[|steps| - 1]);
    }
  }

  lemma {:induction false} NoRepeatsFromCount(list: seq<Node>)
    requires forall n :: Count(list, n) <= 1
    ensures NoRepeats(list)
  {
    if list != [] {
      var front, last := list[..|list| - 1], list[|list| - 1];
      forall n
        ensures Count(front, n) <= 1
      {
        assert Count(list, n) <= 1;
      }
      NoRepeatsFromCount(front);
      CountMember(front, last);
      assert Count(list, last) <= 1;
    }
  }

  /** A task's counter is the number of its predecessors, each as often as it is one, that have not completed. */
  lemma WaitingIsRemaining(job: Job, workers: nat, steps: seq<Step>, n: Node)
    requires Consistent(job) && n in job.predecessors
    ensures var s := Run(job, workers, steps);
            && n in s.waiting && s.waiting[n] == |Remaining(job.predecessors[n], s.completed)|
            && forall a :: Remaining(job.predecessors[n], s.completed)[a]
                        == if a in s.completed then 0 else job.predecessors[n][a]
  {
    RunKeeps(job, workers, steps);
    RemainingExactly(job.predecessors[n], Run(job, workers, steps).completed);
  }

  /** Queued, delayed, in a thread's hand or completed: a task is at no more than one of these at any time. */
  lemma AtMostOnePlace(job: Job, workers: nat, steps: seq<Step>, n: Node)
    requires Consistent(job)
    ensures var s := Run(job, workers, steps); Places(s, n) == Once(IsReady(job, s.completed, n))
  {
    RunKeeps(job, workers, steps);
  }

  /** No task runs twice, and each runs after all its predecessors. */
  lemma RunsOnceInOrder(job: Job, workers: nat, steps: seq<Step>)
    requires Consistent(job)
    ensures NoRepeats(Run(job, workers, steps).ran) && InOrder(job, Run(job, workers, steps).ran)
  {
    RunKeeps(job, workers, steps);
    var s := Run(job, workers, steps);
    forall n
      ensures Count(s.ran, n) <= 1
    {
      InHandAtAll(s.threads, n);
      assert Places(s, n) <= 1;
    }
    NoRepeatsFromCount(s.ran);
  }

  /** A task with a delay runs once its delay has ended, and no task's delay ends twice. */
  lemma DelayedOnce(job: Job, workers: nat, steps: seq<Step>, n: Node)
    requires Consistent(job) && n in job.delayed
    ensures var s := Run(job, workers, steps);
            Count(s.rested, n) <= 1 && (n in s.ran ==> Count(s.rested, n) == 1)
  {
    RunKeeps(job, workers, steps);
    var s := Run(job, workers, steps);
    assert RestedOnce(s, n);
    CountMember(s.ran, n);
  }

  /** No wake-up of the workers or of the scheduler is lost. */
  lemma WakeUpsNotLost(job: Job, workers: nat, steps: seq<Step>)
    requires Consistent(job)
    ensures NoLostWakeUp(Run(job, workers, steps)) && NoLostDelay(Run(job, workers, steps))
  {
    RunKeeps(job, workers, steps);
  }
}
