/** Every step that is not the scheduler's idling brings the thread pool nearer to rest. */
module ExecutorMeasure {
  import opened ActionGraph
  import opened ExecutorSpec
  import opened ExecutorRuns
  import opened ExecutorProgress

  /** What the cost of a thread's phase depends on. */
  datatype Costs = Costs(job: Job, rested: seq<Node>, threads: nat, event: bool, empty: bool)

  function CostsOf(job: Job, s: Executor): Costs {
    Costs(job, s.rested, |s.threads|, s.event, s.queue == [])
  }

  // ---- what is still to be done for a thread or task, as a number of steps at most

  /** Setting the event may wake every thread, twice if it is in its wait. */
  function SignalCost(threads: nat): nat {
    8 * threads + 3
  }

  /** For a task in the queue. */
  function QueueCost(threads: nat): nat {
    SignalCost(threads) + 2 * threads + 4
  }

  /** For a task that is delayed. */
  function DelayCost(threads: nat): nat {
    QueueCost(threads) + SignalCost(threads) + 3
  }

  /** For a task that is not ready. */
  function BlockedCost(threads: nat): nat {
    DelayCost(threads) + QueueCost(threads) + 2
  }

  /** For a task's delay, if it has one before it. */
  function RestCost(c: Costs, n: Node): nat {
    if n in c.job.delayed && n !in c.rested then DelayCost(c.threads) else 0
  }

  /** For tasks, each by its delay and so much more; all were counted as not ready. */
  function ListCost(c: Costs, each: nat, list: seq<Node>): int {
    if list == [] then 0
    else ListCost(c, each, list[..|list| - 1]) + RestCost(c, list[|list| - 1]) + each - BlockedCost(c.threads)
  }

  function PhaseCost(c: Costs, p: Phase): int {
    (if c.event && p != Woken then 4 else 0) +
    match p
    case Woken => 3
    case Checking => 2
    case Getting => if c.empty then 3 else 1
    case Holding(task) => SignalCost(c.threads) + 4 + RestCost(c, task) - BlockedCost(c.threads)
    case Running(_) => SignalCost(c.threads) + 3 - BlockedCost(c.threads)
    case Updating(_) => SignalCost(c.threads) + 2 - BlockedCost(c.threads)
    case Appending(tasks) => SignalCost(c.threads) + 1 + ListCost(c, QueueCost(c.threads) + 1, tasks)
    case Signalling => SignalCost(c.threads)
    case SignallingDelay => 3
    case _ => 0
  }

  function ThreadsCost(c: Costs, threads: seq<Phase>): int {
    if threads == [] then 0
    else ThreadsCost(c, threads[..|threads| - 1]) + PhaseCost(c, threads[|threads| - 1])
  }

  function Times(n: nat, each: int): int {
    if n == 0 then 0 else Times(n - 1, each) + each
  }

  function Cost(c: Costs, threads: seq<Phase>, queue: seq<Node>, delayed: nat, completed: nat): int {
    Times(|c.job.predecessors|, BlockedCost(c.threads)) + ThreadsCost(c, threads)
    + ListCost(c, QueueCost(c.threads), queue)
    + Times(delayed, DelayCost(c.threads) - BlockedCost(c.threads))
    + Times(completed, 0 - BlockedCost(c.threads))
  }

  /** An upper bound on the steps still to come, but for the scheduler's idling. */
  function Measure(job: Job, s: Executor): int {
    Cost(CostsOf(job, s), s.threads, s.queue, |s.delayed|, |s.completed|) + 4 * |s.notified|
  }

  // ---- how costs change

  lemma {:induction false} ThreadsUpdate(c: Costs, threads: seq<Phase>, i: nat, p: Phase)
    requires i < |threads|
    ensures ThreadsCost(c, threads[i := p]) == ThreadsCost(c, threads) - PhaseCost(c, threads[i]) + PhaseCost(c, p)
  {
    var last := |threads| - 1;
    if i < last {
      ThreadsUpdate(c, threads[..last], i, p);
      assert threads[i := p][..last] == threads[..last][i := p];
    } else {
      assert threads[i := p][..last] == threads[..last];
    }
  }

  /** `d` costs no more than `c` but for `more` a thread. */
  ghost predicate NoDearer(c: Costs, d: Costs, more: nat) {
    forall p :: PhaseCost(d, p) <= PhaseCost(c, p) + more
  }

  lemma {:induction false} ThreadsNoDearer(c: Costs, d: Costs, more: nat, threads: seq<Phase>)
    requires NoDearer(c, d, more)
    ensures ThreadsCost(d, threads) <= ThreadsCost(c, threads) + Times(|threads|, more)
  {
    if threads != [] {
      var last := |threads| - 1;
      ThreadsNoDearer(c, d, more, threads[..last]);
      assert PhaseCost(d, threads[last]) <= PhaseCost(c, threads[last]) + more;
    }
  }

  lemma {:induction false} TimesFew(n: nat)
    ensures Times(n, 0) == 0 && Times(n, 2) == 2 * n && Times(n, 4) == 4 * n
  {
    if n > 0 {
      TimesFew(n - 1);
    }
  }

  lemma {:induction false} ListAppend(c: Costs, each: nat, a: seq<Node>, b: seq<Node>)
    ensures ListCost(c, each, a + b) == ListCost(c, each, a) + ListCost(c, each, b)
  {
    if b == [] {
      assert a + b == a;
    } else {
      ListAppend(c, each, a, b[..|b| - 1]);
      assert (a + b)[..|a + b| - 1] == a + b[..|b| - 1];
    }
  }

  lemma {:induction false} ListOne(c: Costs, each: nat, n: Node)
    ensures ListCost(c, each, [n]) == RestCost(c, n) + each - BlockedCost(c.threads)
  {
  }

  /** Of lists, the costs grow with those of each task, and with what has not rested. */
  lemma {:induction false} ListLess(c: Costs, d: Costs, low: nat, high: nat, list: seq<Node>)
    requires c.job == d.job && c.threads == d.threads && low <= high
    requires forall n :: n in c.rested ==> n in d.rested
    ensures ListCost(d, low, list) <= ListCost(c, high, list)
    decreases |list|
  {
    if list != [] {
      ListLess(c, d, low, high, list[..|list| - 1]);
    }
  }

  /** No task costs more than one that is not ready. */
  lemma {:induction false} ListBelow(c: Costs, each: nat, list: seq<Node>)
    requires each <= QueueCost(c.threads) + 2
    ensures ListCost(c, each, list) <= 0
  {
    if list != [] {
      ListBelow(c, each, list[..|list| - 1]);
    }
  }

  /** Lists cost the same whatever the event and the queue. */
  lemma SameLists(c: Costs, d: Costs, p: Phase)
    requires c.job == d.job && c.threads == d.threads && forall n :: n in c.rested ==> n in d.rested
    ensures p.Appending? ==>
      ListCost(d, QueueCost(c.threads) + 1, p.tasks) <= ListCost(c, QueueCost(c.threads) + 1, p.tasks)
  {
    if p.Appending? {
      ListLess(c, d, QueueCost(c.threads) + 1, QueueCost(c.threads) + 1, p.tasks);
    }
  }

  /** Setting the event costs four steps a thread, emptying the queue two, and the converse nothing. */
  lemma Dearer(c: Costs, d: Costs)
    requires c.job == d.job && c.threads == d.threads && forall n :: n in c.rested ==> n in d.rested
    ensures NoDearer(c, d, (if d.event && !c.event then 4 else 0) + (if d.empty && !c.empty then 2 else 0))
  {
    forall p
      ensures PhaseCost(d, p)
           <= PhaseCost(c, p) + ((if d.event && !c.event then 4 else 0) + (if d.empty && !c.empty then 2 else 0))
    {
      SameLists(c, d, p);
    }
  }

  // ---- each step

  lemma WakeLess(job: Job, s: Executor, i: nat)
    requires Enabled(job, s, Wake(i))
    ensures Measure(job, Next(job, s, Wake(i))) < Measure(job, s)
  {
    var t := Next(job, s, Wake(i));
    PhaseChange(job, s, s.(threads := t.threads), i);
    if i in s.notified {
      assert |t.notified| == |s.notified| - 1;
    } else {
      assert t.notified == s.notified;
    }
  }

  lemma ClearLess(job: Job, s: Executor, i: nat)
    requires Enabled(job, s, Clear(i))
    ensures Measure(job, Next(job, s, Clear(i))) < Measure(job, s)
  {
    var c := CostsOf(job, s);
    var d := c.(event := false);
    hide ThreadsCost;
    ThreadsGoOn(c, d, 0, s.threads, i, Checking);
    ListLess(c, d, QueueCost(c.threads), QueueCost(c.threads), s.queue);
  }

  /** A step that changes nothing that costs but one thread's phase. */
  lemma PhaseChange(job: Job, s: Executor, t: Executor, i: nat)
    requires i < |s.threads| == |t.threads| && t.threads == s.threads[i := t.threads[i]]
    requires t.queue == s.queue && t.event == s.event && t.rested == s.rested && t.notified == s.notified
    requires |t.delayed| == |s.delayed| && |t.completed| == |s.completed|
    ensures Measure(job, t)
         == Measure(job, s) - PhaseCost(CostsOf(job, s), s.threads[i]) + PhaseCost(CostsOf(job, s), t.threads[i])
  {
    ThreadsUpdate(CostsOf(job, s), s.threads, i, t.threads[i]);
  }

  /** A thread goes on at other costs. */
  lemma ThreadsGoOn(c: Costs, d: Costs, more: nat, threads: seq<Phase>, i: nat, p: Phase)
    requires c.job == d.job && c.threads == d.threads && forall n :: n in c.rested ==> n in d.rested
    requires i < |threads| && more == (if d.event && !c.event then 4 else 0) + (if d.empty && !c.empty then 2 else 0)
    requires !(d.event && !c.event && d.empty && !c.empty)
    ensures ThreadsCost(d, threads[i := p])
         <= ThreadsCost(c, threads) + (if more == 0 then 0 else if more == 2 then 2 * |threads| else 4 * |threads|)
            - PhaseCost(d, threads[i]) + PhaseCost(d, p)
  {
    Dearer(c, d);
    ThreadsNoDearer(c, d, more, threads);
    TimesFew(|threads|);
    ThreadsUpdate(d, threads, i, p);
  }

  lemma GetQueue(c: Costs, d: Costs, queue: seq<Node>)
    requires c.job == d.job && c.threads == d.threads && c.rested == d.rested && queue != []
    ensures ListCost(d, QueueCost(c.threads), queue[1..])
         <= ListCost(c, QueueCost(c.threads), queue) - RestCost(c, queue[0]) - QueueCost(c.threads) + BlockedCost(c.threads)
  {
    ListLess(c, d, QueueCost(c.threads), QueueCost(c.threads), queue[1..]);
    ListAppend(c, QueueCost(c.threads), [queue[0]], queue[1..]);
    ListOne(c, QueueCost(c.threads), queue[0]);
    assert [queue[0]] + queue[1..] == queue;
  }

  lemma GetCost(c: Costs, s: Executor, i: nat)
    requires i < |s.threads| == c.threads && s.threads[i].Getting? && s.queue != [] && !c.empty
    ensures (Cost(c.(empty := s.queue[1..] == []), s.threads[i := Holding(s.queue[0])], s.queue[1..],
                  |s.delayed|, |s.completed|)
             < Cost(c, s.threads, s.queue, |s.delayed|, |s.completed|))
  {
    var d := c.(empty := s.queue[1..] == []);
    ThreadsGoOn(c, d, if d.empty then 2 else 0, s.threads, i, Holding(s.queue[0]));
    GetQueue(c, d, s.queue);
  }

  lemma GetLess(job: Job, s: Executor, i: nat)
    requires Enabled(job, s, Get(i)) && s.queue != []
    ensures Measure(job, Next(job, s, Get(i))) < Measure(job, s)
  {
    GetCost(CostsOf(job, s), s, i);
  }

  /** A task in hand has rested if it is among those that are not delayed again. */
  lemma AlreadyRested(job: Job, s: Executor, i: nat)
    requires InOnePlace(job, s) && RanOnce(s) && Rested(job, s)
    requires i < |s.threads| && s.threads[i].Holding? && s.threads[i].task in job.delayed
    ensures s.threads[i].task in s.alreadyDelayed <==> s.threads[i].task in s.rested
  {
    var task := s.threads[i].task;
    assert RestedOnce(s, task);
    HoldingNotRun(job, s, i);
    CountMember(s.alreadyDelayed, task);
    CountMember(s.rested, task);
  }

  lemma DelayLess(job: Job, s: Executor, i: nat, end: int)
    requires InOnePlace(job, s) && RanOnce(s) && Rested(job, s) && Enabled(job, s, Delay(i, end))
    ensures Measure(job, Next(job, s, Delay(i, end))) < Measure(job, s)
  {
    if s.threads[i].task in job.delayed {
      AlreadyRested(job, s, i);
    }
    hide InOnePlace, RanOnce, Rested, Measure;
    if s.threads[i].task in job.delayed && s.threads[i].task !in s.alreadyDelayed {
      PutOffLess(job, s, i, end);
    } else {
      NoDelayLess(job, s, i, end);
    }
  }

  /** A task put off costs less in the list of delayed ones than in hand. */
  lemma PutOffLess(job: Job, s: Executor, i: nat, end: int)
    requires Enabled(job, s, Delay(i, end))
    requires s.threads[i].task in job.delayed && s.threads[i].task !in s.alreadyDelayed && s.threads[i].task !in s.rested
    ensures Measure(job, Next(job, s, Delay(i, end))) < Measure(job, s)
  {
    ThreadsUpdate(CostsOf(job, s), s.threads, i, SignallingDelay);
  }

  lemma NoDelayLess(job: Job, s: Executor, i: nat, end: int)
    requires Enabled(job, s, Delay(i, end)) && (s.threads[i].task !in job.delayed || s.threads[i].task in s.alreadyDelayed)
    ensures Measure(job, Next(job, s, Delay(i, end))) < Measure(job, s)
  {
    PhaseChange(job, s, DelayStep(job, s, i, end), i);
  }

  lemma RunTaskLess(job: Job, s: Executor, i: nat)
    requires Enabled(job, s, RunTask(i))
    ensures Measure(job, Next(job, s, RunTask(i))) < Measure(job, s)
  {
    PhaseChange(job, s, Next(job, s, RunTask(i)), i);
  }

  lemma UpdateCost(c: Costs, s: Executor, i: nat, p: Phase)
    requires i < |s.threads| && s.threads[i].Updating? && (p.Checking? || p.Appending?)
    ensures (Cost(c, s.threads[i := p], s.queue, |s.delayed|, |s.completed| + 1)
             < Cost(c, s.threads, s.queue, |s.delayed|, |s.completed|))
  {
    ThreadsUpdate(c, s.threads, i, p);
    if p.Appending? {
      ListBelow(c, QueueCost(c.threads) + 1, p.tasks);
    }
  }

  lemma UpdateLess(job: Job, s: Executor, i: nat)
    requires Enabled(job, s, Update(i))
    ensures Measure(job, Next(job, s, Update(i))) < Measure(job, s)
  {
    UpdateCost(CostsOf(job, s), s, i, UpdateStep(job, s, i).threads[i]);
  }

  lemma AppendQueue(c: Costs, d: Costs, queue: seq<Node>, tasks: seq<Node>)
    requires c.job == d.job && c.threads == d.threads && c.rested == d.rested
    ensures ListCost(d, QueueCost(c.threads), queue + tasks)
         <= ListCost(c, QueueCost(c.threads), queue) + ListCost(c, QueueCost(c.threads) + 1, tasks)
  {
    ListLess(c, d, QueueCost(c.threads), QueueCost(c.threads), queue);
    ListLess(c, d, QueueCost(c.threads), QueueCost(c.threads) + 1, tasks);
    ListAppend(d, QueueCost(c.threads), queue, tasks);
  }

  lemma AppendThreads(c: Costs, d: Costs, threads: seq<Phase>, i: nat)
    requires d == c.(empty := d.empty) && (d.empty ==> c.empty) && i < |threads| && threads[i].Appending?
    ensures ThreadsCost(d, threads[i := Signalling])
         <= ThreadsCost(c, threads) - 1 - ListCost(c, QueueCost(c.threads) + 1, threads[i].tasks)
  {
    ThreadsUpdate(c, threads, i, Signalling);
    Dearer(c, d);
    ThreadsNoDearer(c, d, 0, threads[i := Signalling]);
    TimesFew(|threads|);
  }

  lemma AppendCost(c: Costs, s: Executor, i: nat)
    requires i < |s.threads| && s.threads[i].Appending? && c.empty == (s.queue == [])
    ensures var d, queue := c.(empty := s.queue + s.threads[i].tasks == []), s.queue + s.threads[i].tasks;
            (Cost(d, s.threads[i := Signalling], queue, |s.delayed|, |s.completed|)
             < Cost(c, s.threads, s.queue, |s.delayed|, |s.completed|))
  {
    var d := c.(empty := s.queue + s.threads[i].tasks == []);
    AppendThreads(c, d, s.threads, i);
    AppendQueue(c, d, s.queue, s.threads[i].tasks);
  }

  lemma AppendLess(job: Job, s: Executor, i: nat)
    requires Enabled(job, s, Append(i))
    ensures Measure(job, Next(job, s, Append(i))) < Measure(job, s)
  {
    AppendCost(CostsOf(job, s), s, i);
  }

  lemma SignalThreads(c: Costs, threads: seq<Phase>, i: nat, p: Phase)
    requires i < |threads| == c.threads && threads[i].Signalling? && (p.Checking? || p.Idle? || p.Finished?)
    ensures ThreadsCost(c.(event := true), threads[i := p]) + 4 * |threads| < ThreadsCost(c, threads)
  {
    var d := c.(event := true);
    ThreadsGoOn(c, d, if c.event then 0 else 4, threads, i, p);
    assert PhaseCost(d, p) + SignalCost(c.threads) <= PhaseCost(d, threads[i]) + 2;
  }

  lemma {:induction false} FewSleepers(threads: seq<Phase>)
    ensures |Sleepers(threads)| <= |threads|
  {
    if threads != [] {
      var last := |threads| - 1;
      FewSleepers(threads[..last]);
      assert Sleepers(threads) <= Sleepers(threads[..last]) + {last};
      FewerWorkers(Sleepers(threads), Sleepers(threads[..last]) + {last});
    }
  }

  lemma {:induction false} FewerWorkers(some: set<nat>, all: set<nat>)
    requires some <= all
    ensures |some| <= |all|
  {
    if some != {} {
      var i :| i in some;
      FewerWorkers(some - {i}, all - {i});
    }
  }

  lemma SignalLess(job: Job, s: Executor, i: nat)
    requires Enabled(job, s, Signal(i))
    ensures Measure(job, Next(job, s, Signal(i))) < Measure(job, s)
  {
    hide ThreadsCost, PhaseCost, Sleepers;
    var c := CostsOf(job, s);
    FewSleepers(s.threads);
    SignalThreads(c, s.threads, i, Afterwards(s, i));
    ListLess(c, c.(event := true), QueueCost(c.threads), QueueCost(c.threads), s.queue);
  }

  lemma {:induction false} ExpiredSplits(delayed: seq<Parked>, now: int)
    ensures |Expired(delayed, now)| + |StillDelayed(delayed, now)| == |delayed|
    ensures Expired(delayed, now) == [] ==> StillDelayed(delayed, now) == delayed
  {
    if delayed != [] {
      ExpiredSplits(delayed[..|delayed| - 1], now);
    }
  }

  lemma {:induction false} TimesSum(m: nat, n: nat, each: int)
    ensures Times(m + n, each) == Times(m, each) + Times(n, each)
  {
    if n > 0 {
      TimesSum(m, n - 1, each);
    }
  }

  /** Tasks that have rested cost the same each. */
  lemma {:induction false} RestedCost(c: Costs, each: nat, list: seq<Node>)
    requires forall n :: n in list ==> n in c.rested
    ensures ListCost(c, each, list) == Times(|list|, each - BlockedCost(c.threads))
  {
    if list != [] {
      RestedCost(c, each, list[..|list| - 1]);
    }
  }

  lemma {:induction false} TimesLess(n: nat, low: int, high: int)
    requires n > 0 && low <= high
    ensures Times(n, low) + (high - low) <= Times(n, high)
  {
    if n > 1 {
      TimesLess(n - 1, low, high);
    }
  }

  /** What the tasks whose delay has ended cost less. */
  lemma ScanCosts(c: Costs, delayed: seq<Parked>, now: int)
    requires var finished := TasksOf(Expired(delayed, now)); finished != [] && forall n :: n in finished ==> n in c.rested
    ensures ListCost(c, QueueCost(c.threads) + 1, TasksOf(Expired(delayed, now)))
            + Times(|StillDelayed(delayed, now)|, DelayCost(c.threads) - BlockedCost(c.threads))
         <= Times(|delayed|, DelayCost(c.threads) - BlockedCost(c.threads)) - SignalCost(c.threads) - 2
  {
    var finished, n := TasksOf(Expired(delayed, now)), c.threads;
    RestedCost(c, QueueCost(n) + 1, finished);
    ExpiredSplits(delayed, now);
    TimesSum(|StillDelayed(delayed, now)|, |finished|, DelayCost(n) - BlockedCost(n));
    TimesLess(|finished|, QueueCost(n) + 1 - BlockedCost(n), DelayCost(n) - BlockedCost(n));
  }

  lemma ScanCost(c: Costs, s: Executor, i: nat, now: int)
    requires i < |s.threads| && s.threads[i].Scanning? && TasksOf(Expired(s.delayed, now)) != []
    ensures var finished := TasksOf(Expired(s.delayed, now));
            (Cost(c.(rested := c.rested + finished), s.threads[i := Appending(finished)], s.queue,
                  |StillDelayed(s.delayed, now)|, |s.completed|)
             < Cost(c, s.threads, s.queue, |s.delayed|, |s.completed|))
  {
    var finished := TasksOf(Expired(s.delayed, now));
    var d := c.(rested := c.rested + finished);
    hide ThreadsCost, TasksOf, Expired, StillDelayed;
    ThreadsGoOn(c, d, 0, s.threads, i, Appending(finished));
    ListLess(c, d, QueueCost(c.threads), QueueCost(c.threads), s.queue);
    ScanCosts(d, s.delayed, now);
  }

  lemma ScanLess(job: Job, s: Executor, i: nat, now: int)
    requires Counted(job, s) && InOnePlace(job, s) && Enabled(job, s, Scan(i, now)) && Expired(s.delayed, now) != []
    ensures Measure(job, Next(job, s, Scan(i, now))) < Measure(job, s)
  {
    ExpiredReady(job, s, now);
    ScanCost(CostsOf(job, s), s, i, now);
  }

  lemma CheckLess(job: Job, s: Executor, i: nat)
    requires Enabled(job, s, Check(i))
    ensures Measure(job, Next(job, s, Check(i))) < Measure(job, s)
  {
    PhaseChange(job, s, Next(job, s, Check(i)), i);
  }

  lemma GetNothingLess(job: Job, s: Executor, i: nat)
    requires Enabled(job, s, Get(i)) && s.queue == []
    ensures Measure(job, Next(job, s, Get(i))) < Measure(job, s)
  {
    PhaseChange(job, s, Next(job, s, Get(i)), i);
  }

  lemma SignalDelayLess(job: Job, s: Executor, i: nat)
    requires Enabled(job, s, SignalDelay(i))
    ensures Measure(job, Next(job, s, SignalDelay(i))) < Measure(job, s)
  {
    PhaseChange(job, s, Next(job, s, SignalDelay(i)), i);
  }

  /** A step that moves the run on brings it nearer to rest. */
  lemma MoveLess(job: Job, s: Executor, step: Step)
    requires Invariant(job, s) && CanMove(job, s, step)
    ensures Measure(job, Next(job, s, step)) < Measure(job, s)
  {
    match step
    case Wake(i) => WakeLess(job, s, i);
    case Clear(i) => ClearLess(job, s, i);
    case Check(i) => CheckLess(job, s, i);
    case Get(i) => if s.queue != [] { GetLess(job, s, i); } else { GetNothingLess(job, s, i); }
    case Delay(i, end) => DelayLess(job, s, i, end);
    case RunTask(i) => RunTaskLess(job, s, i);
    case Update(i) => UpdateLess(job, s, i);
    case Append(i) => AppendLess(job, s, i);
    case Signal(i) => SignalLess(job, s, i);
    case SignalDelay(i) => SignalDelayLess(job, s, i);
    case Scan(i, now) => ScanLess(job, s, i, now);
    case _ =>
  }

  lemma LookSame(job: Job, s: Executor, step: Step)
    requires Enabled(job, s, step) && (step.Look? || step.Rouse? || step.ClearDelay?)
    ensures Measure(job, Next(job, s, step)) == Measure(job, s)
  {
    PhaseChange(job, s, Next(job, s, step), step.i);
  }

  lemma NothingMore(list: seq<Node>, more: seq<Node>)
    requires more == []
    ensures list + more == list
  {
  }

  lemma EmptyScan(s: Executor, i: nat, now: int)
    requires i < |s.threads| && Expired(s.delayed, now) == []
    ensures ScanStep(s, i, now) == s.(threads := s.threads[i := Idle])
  {
    ExpiredSplits(s.delayed, now);
    NothingMore(s.rested, TasksOf(Expired(s.delayed, now)));
    NothingMore(s.alreadyDelayed, TasksOf(Expired(s.delayed, now)));
  }

  lemma EmptyScanSame(job: Job, s: Executor, i: nat, now: int)
    requires Enabled(job, s, Scan(i, now)) && Expired(s.delayed, now) == []
    ensures Measure(job, Next(job, s, Scan(i, now))) == Measure(job, s)
  {
    EmptyScan(s, i, now);
    PhaseChange(job, s, ScanStep(s, i, now), i);
  }

  lemma IdleSame(job: Job, s: Executor, step: Step)
    requires Enabled(job, s, step) && IsIdle(s, step)
    ensures Measure(job, Next(job, s, step)) == Measure(job, s)
  {
    match step
    case Scan(i, now) => EmptyScanSame(job, s, i, now);
    case _ => LookSame(job, s, step);
  }

  // ---- no run goes on for ever

  function TasksInHand(p: Phase): seq<Node> {
    match p
    case Holding(task) => [task]
    case Running(task) => [task]
    case Updating(task) => [task]
    case Appending(tasks) => tasks
    case _ => []
  }

  function AllInHand(threads: seq<Phase>): seq<Node> {
    if threads == [] then [] else AllInHand(threads[..|threads| - 1]) + TasksInHand(threads[|threads| - 1])
  }

  lemma InHandCount(p: Phase, n: Node)
    ensures Count(TasksInHand(p), n) == By(Any, p, n)
  {
  }

  lemma {:induction false} AllInHandCount(threads: seq<Phase>, n: Node)
    ensures Count(AllInHand(threads), n) == Total(Any, threads, n)
  {
    if threads != [] {
      var front, p := threads[..|threads| - 1], threads[|threads| - 1];
      AllInHandCount(front, n);
      CountAppend(AllInHand(front), TasksInHand(p), n);
      InHandCount(p, n);
    }
  }

  /** A list without repeats is no longer than a set it comes from. */
  lemma {:induction false} Fits(list: seq<Node>, keys: set<Node>)
    requires forall n :: Count(list, n) <= Once(n in keys)
    ensures |list| <= |keys|
  {
    if list != [] {
      var front, last := list[..|list| - 1], list[|list| - 1];
      assert Count(list, last) <= Once(last in keys);
      forall n
        ensures Count(front, n) <= Once(n in keys - {last})
      {
        assert Count(list, n) <= Once(n in keys);
      }
      Fits(front, keys - {last});
    }
  }

  /** There are no more tasks in all places together than there are. */
  lemma PlacesFit(job: Job, s: Executor)
    requires InOnePlace(job, s)
    ensures |s.queue| + |s.delayed| + |AllInHand(s.threads)| + |s.completed| <= |job.predecessors|
  {
    var all := s.queue + TasksOf(s.delayed) + AllInHand(s.threads) + s.completed;
    forall n
      ensures Count(all, n) <= Once(n in job.predecessors.Keys)
    {
      AllInHandCount(s.threads, n);
      CountAppend(s.queue + TasksOf(s.delayed) + AllInHand(s.threads), s.completed, n);
      CountAppend(s.queue + TasksOf(s.delayed), AllInHand(s.threads), n);
      CountAppend(s.queue, TasksOf(s.delayed), n);
      assert Places(s, n) == Once(IsReady(job, s.completed, n));
    }
    Fits(all, job.predecessors.Keys);
  }

  lemma {:induction false} ListAtLeast(c: Costs, each: nat, list: seq<Node>)
    ensures ListCost(c, each, list) >= Times(|list|, 0 - BlockedCost(c.threads))
  {
    if list != [] {
      ListAtLeast(c, each, list[..|list| - 1]);
    }
  }

  lemma {:induction false} ThreadsAtLeast(c: Costs, threads: seq<Phase>)
    ensures ThreadsCost(c, threads) >= Times(|AllInHand(threads)|, 0 - BlockedCost(c.threads))
  {
    if threads != [] {
      var front, p := threads[..|threads| - 1], threads[|threads| - 1];
      ThreadsAtLeast(c, front);
      TimesSum(|AllInHand(front)|, |TasksInHand(p)|, 0 - BlockedCost(c.threads));
      if p.Appending? {
        ListAtLeast(c, QueueCost(c.threads) + 1, p.tasks);
      } else if TasksInHand(p) != [] {
        assert Times(1, 0 - BlockedCost(c.threads)) == Times(0, 0 - BlockedCost(c.threads)) - BlockedCost(c.threads);
      }
    }
  }

  lemma {:induction false} TimesGrows(n: nat, low: int, high: int)
    requires low <= high
    ensures Times(n, low) <= Times(n, high)
  {
    if n > 0 {
      TimesGrows(n - 1, low, high);
    }
  }

  lemma {:induction false} TimesCancel(n: nat, m: nat, each: nat)
    requires m <= n
    ensures Times(n, each) + Times(m, 0 - each) >= 0
  {
    if m > 0 {
      TimesCancel(n - 1, m - 1, each);
    } else if n > 0 {
      TimesCancel(n - 1, 0, each);
    }
  }

  lemma MeasureAtLeast(job: Job, s: Executor)
    requires InOnePlace(job, s)
    ensures Measure(job, s) >= 0
  {
    var c, hands := CostsOf(job, s), |AllInHand(s.threads)|;
    var blocked: int := BlockedCost(c.threads);
    PlacesFit(job, s);
    ThreadsAtLeast(c, s.threads);
    ListAtLeast(c, QueueCost(c.threads), s.queue);
    TimesGrows(|s.delayed|, 0 - blocked, DelayCost(c.threads) - blocked);
    TimesSum(|s.queue|, |s.delayed|, 0 - blocked);
    TimesSum(|s.queue| + |s.delayed|, hands, 0 - blocked);
    TimesSum(|s.queue| + |s.delayed| + hands, |s.completed|, 0 - blocked);
    TimesCancel(|job.predecessors|, |s.queue| + |s.delayed| + hands + |s.completed|, blocked);
  }

  /** The steps of a run that moved it on. */
  function Moves(job: Job, workers: nat, steps: seq<Step>): nat {
    if steps == [] then 0
    else
      var front := steps[..|steps| - 1];
      Moves(job, workers, front) + Once(CanMove(job, Run(job, workers, front), steps[|steps| - 1]))
  }

  lemma {:induction false} MovesCounted(job: Job, workers: nat, steps: seq<Step>)
    requires Consistent(job)
    ensures Moves(job, workers, steps) + Measure(job, Run(job, workers, steps)) <= Measure(job, Initial(job, workers))
    decreases |steps|
  {
    if steps != [] {
      var front, step := steps[..|steps| - 1], steps[|steps| - 1];
      MovesCounted(job, workers, front);
      RunKeeps(job, workers, front);
      var s := Run(job, workers, front);
      if CanMove(job, s, step) {
        MoveLess(job, s, step);
      } else if Enabled(job, s, step) {
        IdleSame(job, s, step);
      }
    }
  }

  /** However long a run, no more of its steps than this move it on; so every run comes to rest but for idling. */
  lemma MovesBounded(job: Job, workers: nat, steps: seq<Step>)
    requires Consistent(job)
    ensures Moves(job, workers, steps) <= Measure(job, Initial(job, workers))
  {
    MovesCounted(job, workers, steps);
    RunKeeps(job, workers, steps);
    MeasureAtLeast(job, Run(job, workers, steps));
  }
}
