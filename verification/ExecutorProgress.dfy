/** The thread pool comes to rest, and then it has run everything there is an order for. */
module ExecutorProgress {
  import opened ActionGraph
  import opened ExecutorSpec
  import opened ExecutorRuns

  // ---- at rest

  /** Workers and scheduler wait, nothing is delayed, and the roots have been queued. */
  predicate AtRest(s: Executor) {
    && |s.threads| >= 2 && !s.event && s.delayed == []
    && (forall i :: 0 <= i < |s.threads| - 2 ==> s.threads[i].Waiting?)
    && !s.threads[|s.threads| - 2].Appending? && !s.threads[|s.threads| - 2].Signalling?
    && s.threads[|s.threads| - 1].Finished?
  }

  /** The tasks can be numbered so that each has a higher number than those it waits for. */
  ghost predicate Acyclic(job: Job) {
    exists rank: map<Node, nat> :: Ranks(job, rank)
  }

  ghost predicate Ranks(job: Job, rank: map<Node, nat>) {
    && rank.Keys == job.predecessors.Keys
    && forall b, a :: b in job.predecessors && a in job.predecessors[b] ==> a in rank && rank[a] < rank[b]
  }

  /** What waits for nothing is queued at first. */
  predicate Rooted(job: Job) {
    forall n :: n in job.predecessors && job.predecessors[n] == multiset{} ==> n in job.roots
  }

  lemma {:induction false} NothingInHand(threads: seq<Phase>, n: Node)
    requires forall i :: 0 <= i < |threads| ==> By(Any, threads[i], n) == 0
    ensures Total(Any, threads, n) == 0
  {
    if threads != [] {
      NothingInHand(threads[..|threads| - 1], n);
    }
  }

  /** At rest every task that is ready has run. */
  lemma ReadyHasRun(job: Job, s: Executor, n: Node)
    requires Invariant(job, s) && AtRest(s) && IsReady(job, s.completed, n)
    ensures n in s.completed && n in s.ran
  {
    assert s.queue == [] by {
      assert forall i :: !Stirs(s.threads, i);
    }
    forall i | 0 <= i < |s.threads|
      ensures By(Any, s.threads[i], n) == 0
    {
      assert MayBe(|s.threads|, i, s.threads[i]);
    }
    NothingInHand(s.threads, n);
    assert TasksOf(s.delayed) == [];
    assert Places(s, n) == 1;
    CountMember(s.completed, n);
    CompletedRan(s);
  }

  lemma {:induction false} RankedHasRun(job: Job, s: Executor, rank: map<Node, nat>, n: Node)
    requires Consistent(job) && Invariant(job, s) && AtRest(s) && Ranks(job, rank) && Rooted(job) && n in rank
    ensures n in s.completed && n in s.ran
    decreases rank[n]
  {
    forall a | a in job.predecessors[n]
      ensures a in s.completed
    {
      RankedHasRun(job, s, rank, a);
    }
    RemainingExactly(job.predecessors[n], s.completed);
    assert Remaining(job.predecessors[n], s.completed) == multiset{};
    ReadyHasRun(job, s, n);
  }

  predicate AllRan(job: Job, s: Executor) {
    forall n :: n in job.predecessors ==> n in s.ran
  }

  function IndexOf(list: seq<Node>, n: Node): (k: nat)
    requires n in list
    ensures k < |list| && list[k] == n
  {
    if list[|list| - 1] == n then |list| - 1 else IndexOf(list[..|list| - 1], n)
  }

  lemma IndexBefore(list: seq<Node>, k: nat, n: Node)
    requires NoRepeats(list) && k < |list| && n in list[..k]
    ensures n in list && IndexOf(list, n) < k
  {
  }

  lemma Precedes(job: Job, ran: seq<Node>, b: Node, a: Node)
    requires InOrder(job, ran) && NoRepeats(ran) && b in ran && b in job.predecessors && a in job.predecessors[b]
    ensures a in ran && IndexOf(ran, a) < IndexOf(ran, b)
  {
    var k := IndexOf(ran, b);
    assert AfterPredecessors(job, ran, k);
    IndexBefore(ran, k, a);
  }

  /** The order in which everything ran is an order for the tasks. */
  lemma RanRanks(job: Job, s: Executor)
    requires Consistent(job) && InOrder(job, s.ran) && NoRepeats(s.ran) && AllRan(job, s)
    ensures Acyclic(job)
  {
    var rank: map<Node, nat> := map n | n in job.predecessors :: IndexOf(s.ran, n);
    forall b, a | b in job.predecessors && a in job.predecessors[b]
      ensures a in rank && rank[a] < rank[b]
    {
      Precedes(job, s.ran, b, a);
    }
    assert Ranks(job, rank);
  }

  /** A task that has run is ready. */
  lemma RanIsReady(job: Job, s: Executor, n: Node)
    requires Invariant(job, s) && n in s.ran
    ensures IsReady(job, s.completed, n)
  {
    CountMember(s.ran, n);
    InHandAtAll(s.threads, n);
    assert Places(s, n) >= Count(s.ran, n);
  }

  /**
   * A run that has come to rest has run everything exactly if the tasks wait for each other in no circle, and all
   * that wait for nothing were queued.
   */
  lemma RestExactly(job: Job, workers: nat, steps: seq<Step>)
    requires Consistent(job) && AtRest(Run(job, workers, steps))
    ensures AllRan(job, Run(job, workers, steps)) <==> Acyclic(job) && Rooted(job)
  {
    var s := Run(job, workers, steps);
    RunKeeps(job, workers, steps);
    if Acyclic(job) && Rooted(job) {
      var rank :| Ranks(job, rank);
      forall n | n in job.predecessors
        ensures n in s.ran
      {
        RankedHasRun(job, s, rank, n);
      }
    }
    if AllRan(job, s) {
      RunsOnceInOrder(job, workers, steps);
      RanRanks(job, s);
      forall n | n in job.predecessors && job.predecessors[n] == multiset{}
        ensures n in job.roots
      {
        RanIsReady(job, s, n);
      }
    }
  }

  // ---- until then something moves

  /** A step of the scheduler that finds nothing to do. */
  predicate IsIdle(s: Executor, step: Step) {
    step.Look? || step.Rouse? || step.ClearDelay? || (step.Scan? && Expired(s.delayed, step.now) == [])
  }

  predicate CanMove(job: Job, s: Executor, step: Step) {
    Enabled(job, s, step) && !IsIdle(s, step)
  }

  /** The scheduler goes on to its scan. */
  function Roused(job: Job, s: Executor): Executor {
    if |s.threads| < 2 then s
    else
      var i := |s.threads| - 2;
      match s.threads[i]
      case Idle => Next(job, s, Look(i))
      case Asleep => Next(job, Next(job, s, Rouse(i, false)), ClearDelay(i))
      case Clearing => Next(job, s, ClearDelay(i))
      case _ => s
  }

  lemma UpdateEnabled(job: Job, s: Executor, i: nat)
    requires Consistent(job) && Invariant(job, s) && i < |s.threads| && s.threads[i].Updating?
    ensures Enabled(job, s, Update(i))
  {
    InHand(job, s, i, s.threads[i].task);
  }

  /** Every thread that is not in a wait, and is not the scheduler between scans, can take a step. */
  lemma ThreadMoves(job: Job, s: Executor, i: nat) returns (step: Step)
    requires Consistent(job) && Invariant(job, s) && i < |s.threads|
    requires !s.threads[i].Waiting? && !s.threads[i].Finished?
    requires !s.threads[i].Idle? && !s.threads[i].Asleep? && !s.threads[i].Clearing? && !s.threads[i].Scanning?
    ensures CanMove(job, s, step)
  {
    match s.threads[i]
    case Woken => step := Clear(i);
    case Checking => step := Check(i);
    case Getting => step := Get(i);
    case Holding(_) => step := Delay(i, 0);
    case Running(_) => step := RunTask(i);
    case Updating(_) => UpdateEnabled(job, s, i); step := Update(i);
    case Appending(_) => step := Append(i);
    case Signalling => step := Signal(i);
    case SignallingDelay => step := SignalDelay(i);
  }

  lemma {:induction false} ExpiresAt(delayed: seq<Parked>, now: int)
    requires exists i :: 0 <= i < |delayed| && now > delayed[i].end
    ensures Expired(delayed, now) != []
  {
    var i :| 0 <= i < |delayed| && now > delayed[i].end;
    if i < |delayed| - 1 {
      ExpiresAt(delayed[..|delayed| - 1], now);
    }
  }

  /** The scheduler comes to its scan, when it is told of tasks or has them before it. */
  lemma RousedScans(job: Job, s: Executor)
    requires |s.threads| >= 2 && s.delayed != []
    requires var p := s.threads[|s.threads| - 2];
             p.Idle? || (p.Asleep? && s.delayEvent) || p.Clearing? || p.Scanning?
    ensures var t := Roused(job, s);
            |t.threads| == |s.threads| && t.threads[|s.threads| - 2].Scanning? && t.delayed == s.delayed
  {
  }

  /** With tasks delayed and no thread able to move, the scheduler can: at some time its scan finds one. */
  lemma SchedulerMoves(job: Job, s: Executor) returns (step: Step)
    requires Consistent(job) && Invariant(job, s) && s.delayed != []
    requires var p := s.threads[|s.threads| - 2]; !p.Appending? && !p.Signalling?
    requires forall i :: !Tells(s.threads, i)
    ensures CanMove(job, Roused(job, s), step)
  {
    hide Consistent, Counted, InOnePlace, RanOnce, InOrder, Rested, NoLostWakeUp;
    var i, now := |s.threads| - 2, s.delayed[0].end + 1;
    assert MayBe(|s.threads|, i, s.threads[i]);
    ExpiresAt(s.delayed, now);
    step := Scan(i, now);
    hide Invariant, Roused;
    RousedScans(job, s);
  }

  /**
   * There is no deadlock: with a worker, a state that is not at rest has a step that moves it on, now or when the
   * scheduler, with a task delayed, has come to its scan.
   */
  lemma SomethingMoves(job: Job, workers: nat, steps: seq<Step>)
    requires Consistent(job) && workers > 0
    ensures var s := Run(job, workers, steps);
            AtRest(s) || (exists step :: CanMove(job, s, step)) || (exists step :: CanMove(job, Roused(job, s), step))
  {
    var s := Run(job, workers, steps);
    RunKeeps(job, workers, steps);
    ThreadCount(job, workers, steps);
    if !AtRest(s) {
      var _ := FindsMove(job, s);
    }
  }

  lemma FindsMove(job: Job, s: Executor) returns (step: Step)
    requires Consistent(job) && Invariant(job, s) && |s.threads| >= 3 && !AtRest(s)
    ensures CanMove(job, s, step) || CanMove(job, Roused(job, s), step)
  {
    var last := |s.threads| - 1;
    assert MayBe(|s.threads|, last - 1, s.threads[last - 1]) && MayBe(|s.threads|, last, s.threads[last]);
    if i :| 0 <= i < last - 1 && !s.threads[i].Waiting? {
      assert MayBe(|s.threads|, i, s.threads[i]);
      step := ThreadMoves(job, s, i);
    } else if s.event {
      step := Wake(0);
      assert s.threads[0].Waiting?;
    } else if !s.threads[last].Finished? {
      step := ThreadMoves(job, s, last);
    } else if s.threads[last - 1].Appending? || s.threads[last - 1].Signalling? {
      step := ThreadMoves(job, s, last - 1);
    } else {
      step := SchedulerMoves(job, s);
    }
  }

  lemma {:induction false} ThreadCount(job: Job, workers: nat, steps: seq<Step>)
    ensures |Run(job, workers, steps).threads| == workers + 2
    decreases |steps|
  {
    if steps != [] {
      hide Next;
      ThreadCount(job, workers, steps[..|steps| - 1]);
      SameThreads(job, Run(job, workers, steps[..|steps| - 1]), steps[|steps| - 1]);
    }
  }

  lemma SameThreads(job: Job, s: Executor, step: Step)
    ensures |Next(job, s, step).threads| == |s.threads|
  {
    hide Freed, Removed, TasksOf, Expired, StillDelayed, Filtered, Afterwards;
  }
}
