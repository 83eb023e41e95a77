/** The order in which tasks are queued, taken, collected and woken. */
module ExecutorOrder {
  import opened Sequences
  import opened ActionGraph
  import opened ExecutorSpec
  import opened ExecutorRuns

  // ---- what is filtered out, and whose delay has ended

  /** Queued is just what waits for nothing or is not waited on at all, in order. */
  lemma {:induction false} FilteredInOrder(waiting: map<Node, int>, tasks: seq<Node>, keep: Node -> bool)
    requires forall n :: keep(n) <==> n !in waiting || waiting[n] == 0
    ensures Keeps(tasks, keep, Filtered(waiting, tasks))
  {
    hide Keeps;
    if tasks == [] {
      KeepsNone(keep);
    } else {
      var front, last := tasks[..|tasks| - 1], tasks[|tasks| - 1];
      FilteredInOrder(waiting, front, keep);
      KeepsNext(keep, front, Filtered(waiting, front), last);
      assert tasks == front + [last];
      assert Filtered(waiting, front) + [] == Filtered(waiting, front);
    }
  }

  /** Taken out are just the items whose end is before `now`, and kept the others, both in order. */
  lemma {:induction false} ExpiredInOrder(delayed: seq<Parked>, now: int, ended: Parked -> bool, runs: Parked -> bool)
    requires forall item :: ended(item) <==> item.end < now
    requires forall item :: runs(item) <==> item.end >= now
    ensures Keeps(delayed, ended, Expired(delayed, now))
    ensures Keeps(delayed, runs, StillDelayed(delayed, now))
  {
    hide Keeps;
    if delayed == [] {
      KeepsNone(ended);
      KeepsNone(runs);
    } else {
      var front, last := delayed[..|delayed| - 1], delayed[|delayed| - 1];
      ExpiredInOrder(front, now, ended, runs);
      KeepsNext(ended, front, Expired(front, now), last);
      KeepsNext(runs, front, StillDelayed(front, now), last);
      assert delayed == front + [last];
      assert Expired(front, now) + [] == Expired(front, now);
      assert StillDelayed(front, now) + [] == StillDelayed(front, now);
    }
  }

  // ---- what counting down collects

  /** Counting down the dependant at `k` is what its counter waited for. */
  predicate LastCount(waiting: map<Node, int>, dependants: seq<Node>, k: nat)
    requires k < |dependants|
  {
    dependants[k] in waiting && Count(dependants[..k + 1], dependants[k]) == waiting[dependants[k]]
  }

  ghost predicate LastCounts(waiting: map<Node, int>, dependants: seq<Node>, ready: seq<Node>) {
    exists places: seq<nat> :: Rising(places) && StandAt(dependants, ready, places)
                               && forall k :: 0 <= k < |dependants| ==> (k in places <==> LastCount(waiting, dependants, k))
  }

  /** A dependant is collected where its counter comes down to nothing, in the order in which they are counted down. */
  lemma {:induction false} CollectedInOrder(waiting: map<Node, int>, dependants: seq<Node>)
    requires forall d :: d in dependants ==> d in waiting
    ensures LastCounts(waiting, dependants, CountedDown(waiting, dependants).1)
  {
    hide LastCount;
    if dependants == [] {
      assert Rising([]) && StandAt(dependants, CountedDown(waiting, dependants).1, []);
    } else {
      var n := |dependants| - 1;
      var front, d := dependants[..n], dependants[n];
      assert dependants == front + [d];
      CollectedInOrder(waiting, front);
      var ready := CountedDown(waiting, front).1;
      var places: seq<nat> :| Rising(places) && StandAt(front, ready, places)
                              && forall k :: 0 <= k < |front| ==> (k in places <==> LastCount(waiting, front, k));
      forall k | 0 <= k < n
        ensures LastCount(waiting, dependants, k) <==> LastCount(waiting, front, k)
      {
        CountsFront(waiting, front, d, k);
      }
      CountsLast(waiting, front, d);
      PlacesNext(front, ready, places, d);
      if LastCount(waiting, dependants, n) {
        assert CountedDown(waiting, dependants).1 == ready + [d];
        assert forall k :: 0 <= k <= n ==> (k in places + [n] <==> k in places || k == n);
      }
    }
  }

  lemma CountsFront(waiting: map<Node, int>, front: seq<Node>, d: Node, k: nat)
    requires k < |front|
    ensures LastCount(waiting, front + [d], k) <==> LastCount(waiting, front, k)
  {
    assert (front + [d])[..k + 1] == front[..k + 1];
  }

  lemma CountsLast(waiting: map<Node, int>, front: seq<Node>, d: Node)
    requires d in waiting && forall x :: x in front ==> x in waiting
    ensures LastCount(waiting, front + [d], |front|) <==> CountedDown(waiting, front).0[d] == 1
  {
    CountedDownWaiting(waiting, front);
    CountLast(front, d, d);
    assert (front + [d])[..|front| + 1] == front + [d];
  }

  /** Places in a list are places in a longer one. */
  lemma PlacesNext(front: seq<Node>, ready: seq<Node>, places: seq<nat>, d: Node)
    requires Rising(places) && StandAt(front, ready, places)
    ensures StandAt(front + [d], ready, places)
    ensures Rising(places + [|front|]) && StandAt(front + [d], ready + [d], places + [|front|])
    ensures |front| !in places
  {
  }

  // ---- first in, first out

  /** What a step puts into the queue. */
  function Put(job: Job, s: Executor, step: Step): seq<Node> {
    if Enabled(job, s, step) && step.Append? then s.threads[step.i].tasks else []
  }

  /** What a worker has in hand after a step that gets a task. */
  function Got(job: Job, s: Executor, step: Step): seq<Node> {
    var t := Next(job, s, step);
    if Enabled(job, s, step) && step.Get? && step.i < |t.threads| && t.threads[step.i].Holding?
    then [t.threads[step.i].task] else []
  }

  lemma QueueNext(job: Job, s: Executor, step: Step)
    ensures Got(job, s, step) + Next(job, s, step).queue == s.queue + Put(job, s, step)
  {
  }

  /** All that was ever put into the queue, in order. */
  function Queued(job: Job, workers: nat, steps: seq<Step>): seq<Node>
    decreases |steps|
  {
    if steps == [] then []
    else
      var front, step := steps[..|steps| - 1], steps[|steps| - 1];
      Queued(job, workers, front) + Put(job, Run(job, workers, front), step)
  }

  /** All that the workers ever got out of it, in order. */
  function Taken(job: Job, workers: nat, steps: seq<Step>): seq<Node>
    decreases |steps|
  {
    if steps == [] then []
    else
      var front, step := steps[..|steps| - 1], steps[|steps| - 1];
      Taken(job, workers, front) + Got(job, Run(job, workers, front), step)
  }

  /** Whatever the threads do, tasks leave the queue in the order they came into it; none is dropped or doubled there. */
  lemma {:induction false} FirstInFirstOut(job: Job, workers: nat, steps: seq<Step>)
    ensures Taken(job, workers, steps) + Run(job, workers, steps).queue == Queued(job, workers, steps)
    decreases |steps|
  {
    hide Next, Put, Got;
    if steps != [] {
      var front, step := steps[..|steps| - 1], steps[|steps| - 1];
      FirstInFirstOut(job, workers, front);
      var s := Run(job, workers, front);
      QueueNext(job, s, step);
      Shifted(Taken(job, workers, front), Got(job, s, step), Next(job, s, step).queue, s.queue, Put(job, s, step));
    }
  }

  lemma Shifted(taken: seq<Node>, got: seq<Node>, after: seq<Node>, before: seq<Node>, put: seq<Node>)
    requires got + after == before + put
    ensures (taken + got) + after == (taken + before) + put
  {
    assert (taken + got) + after == taken + (got + after);
    assert (taken + before) + put == taken + (before + put);
  }

  // ---- setting the event

  /** A worker that was in its wait when the event was set can wake, whatever the other threads do meanwhile. */
  lemma {:induction false} SetWakesAll(job: Job, s: Executor, j: nat, i: nat, steps: seq<Step>)
    requires Enabled(job, s, Signal(j)) && i < |s.threads| && s.threads[i] == Waiting
    requires forall k :: 0 <= k < |steps| ==> steps[k].i != i
    ensures Enabled(job, After(job, Next(job, s, Signal(j)), steps), Wake(i))
    ensures Notified(After(job, Next(job, s, Signal(j)), steps), i)
    decreases |steps|
  {
    if steps != [] {
      hide Enabled;
      var front, step := steps[..|steps| - 1], steps[|steps| - 1];
      SetWakesAll(job, s, j, i, front);
      StaysNotified(job, After(job, Next(job, s, Signal(j)), front), step, i);
    }
    CanWake(job, After(job, Next(job, s, Signal(j)), steps), i);
  }

  /** Any number of steps from a state on. */
  function After(job: Job, s: Executor, steps: seq<Step>): Executor
    decreases |steps|
  {
    if steps == [] then s else Next(job, After(job, s, steps[..|steps| - 1]), steps[|steps| - 1])
  }

  predicate Notified(s: Executor, i: nat) {
    i < |s.threads| && s.threads[i] == Waiting && i in s.notified
  }

  lemma StaysNotified(job: Job, s: Executor, step: Step, i: nat)
    requires Notified(s, i) && step.i != i
    ensures Notified(Next(job, s, step), i)
  {
    hide Freed, Filtered, Removed, Expired, StillDelayed;
  }

  lemma CanWake(job: Job, s: Executor, i: nat)
    requires Notified(s, i)
    ensures Enabled(job, s, Wake(i))
  {
  }

  // ---- when a delay ends

  /** Step `k` put the task off until that time: a worker held it then. */
  predicate PutOffAt(job: Job, workers: nat, steps: seq<Step>, k: nat, item: Parked)
    requires k < |steps|
  {
    var s, step := Run(job, workers, steps[..k]), steps[k];
    step.Delay? && step.end == item.end && step.i < |s.threads| && s.threads[step.i] == Holding(item.task)
  }

  predicate PutOff(job: Job, workers: nat, steps: seq<Step>, item: Parked) {
    exists k :: 0 <= k < |steps| && PutOffAt(job, workers, steps, k, item)
  }

  /** Step `k` is a scan after the end of a delay that the task was put off for before. */
  ghost predicate RoseAt(job: Job, workers: nat, steps: seq<Step>, k: nat, n: Node)
    requires k < |steps|
  {
    steps[k].Scan? && exists end :: end < steps[k].now && PutOff(job, workers, steps[..k], Parked(n, end))
  }

  lemma PutOffLonger(job: Job, workers: nat, steps: seq<Step>, step: Step, item: Parked)
    requires PutOff(job, workers, steps, item)
    ensures PutOff(job, workers, steps + [step], item)
  {
    hide Run;
    var k :| 0 <= k < |steps| && PutOffAt(job, workers, steps, k, item);
    var longer := steps + [step];
    assert longer[..k] == steps[..k] && longer[k] == steps[k];
    assert PutOffAt(job, workers, longer, k, item);
  }

  lemma RoseLonger(job: Job, workers: nat, steps: seq<Step>, step: Step, k: nat, n: Node)
    requires k < |steps| && RoseAt(job, workers, steps, k, n)
    ensures RoseAt(job, workers, steps + [step], k, n)
  {
    var longer := steps + [step];
    assert longer[..k] == steps[..k] && longer[k] == steps[k];
  }

  /** A step parks nothing but what it puts off, and wakes nothing but what is parked until before its scan. */
  lemma StepParks(job: Job, s: Executor, step: Step)
    ensures var t := Next(job, s, step);
            && (forall item :: item in t.delayed ==>
                  || item in s.delayed
                  || (step.Delay? && step.end == item.end && step.i < |s.threads|
                      && s.threads[step.i] == Holding(item.task)))
            && (forall n :: n in t.rested ==>
                  n in s.rested || (step.Scan? && exists end :: end < step.now && Parked(n, end) in s.delayed))
  {
    hide Freed, Filtered, Removed, Expired, StillDelayed;
    if step.Scan? {
      ScanParks(s.delayed, step.now);
    }
  }

  lemma {:induction false} ScanSelects(delayed: seq<Parked>, now: int)
    ensures forall item :: item in StillDelayed(delayed, now) ==> item in delayed
    ensures forall item :: item in Expired(delayed, now) ==> item in delayed && item.end < now
  {
    if delayed != [] {
      var front, last := delayed[..|delayed| - 1], delayed[|delayed| - 1];
      ScanSelects(front, now);
      assert delayed == front + [last];
    }
  }

  lemma ScanParks(delayed: seq<Parked>, now: int)
    ensures forall item :: item in StillDelayed(delayed, now) ==> item in delayed
    ensures forall n :: n in TasksOf(Expired(delayed, now)) ==> exists end :: end < now && Parked(n, end) in delayed
  {
    ScanSelects(delayed, now);
    hide Expired, StillDelayed;
    var expired := Expired(delayed, now);
    forall n | n in TasksOf(expired)
      ensures exists end :: end < now && Parked(n, end) in delayed
    {
      var i :| 0 <= i < |expired| && expired[i].task == n;
      assert expired[i] == Parked(n, expired[i].end) && expired[i] in expired;
    }
  }

  /** Every parked task was put off until its time; every delay that has ended did so at a scan after its time. */
  lemma {:induction false} WokenAfterEnd(job: Job, workers: nat, steps: seq<Step>)
    ensures forall item :: item in Run(job, workers, steps).delayed ==> PutOff(job, workers, steps, item)
    ensures forall n :: n in Run(job, workers, steps).rested ==>
              exists k :: 0 <= k < |steps| && RoseAt(job, workers, steps, k, n)
    decreases |steps|
  {
    if steps != [] {
      var last := |steps| - 1;
      var front, step := steps[..last], steps[last];
      assert steps == front + [step];
      WokenAfterEnd(job, workers, front);
      var s, t := Run(job, workers, front), Run(job, workers, steps);
      StepParks(job, s, step);
      hide Run, Next, PutOff, PutOffAt, RoseAt;
      forall item | item in t.delayed
        ensures PutOff(job, workers, steps, item)
      {
        if item in s.delayed {
          PutOffLonger(job, workers, front, step, item);
        } else {
          PutOffNow(job, workers, front, step, item);
        }
      }
      forall n | n in t.rested
        ensures exists k :: 0 <= k < |steps| && RoseAt(job, workers, steps, k, n)
      {
        if n in s.rested {
          var k :| 0 <= k < |front| && RoseAt(job, workers, front, k, n);
          RoseLonger(job, workers, front, step, k, n);
        } else {
          RoseNow(job, workers, front, step, n);
        }
      }
    }
  }

  lemma PutOffNow(job: Job, workers: nat, front: seq<Step>, step: Step, item: Parked)
    requires var s := Run(job, workers, front);
             step.Delay? && step.end == item.end && step.i < |s.threads| && s.threads[step.i] == Holding(item.task)
    ensures PutOff(job, workers, front + [step], item)
  {
    hide Run;
    assert (front + [step])[..|front|] == front;
    assert PutOffAt(job, workers, front + [step], |front|, item);
  }

  lemma RoseNow(job: Job, workers: nat, front: seq<Step>, step: Step, n: Node)
    requires step.Scan? && exists end :: end < step.now && Parked(n, end) in Run(job, workers, front).delayed
    requires forall item :: item in Run(job, workers, front).delayed ==> PutOff(job, workers, front, item)
    ensures RoseAt(job, workers, front + [step], |front|, n)
  {
    hide Run;
    assert (front + [step])[..|front|] == front;
  }
}
