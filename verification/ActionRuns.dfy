/** Playing an action: its graph in the thread pool. */
module ActionRuns {
  import opened ActionGraph
  import opened ExecutorSpec
  import opened ExecutorRuns
  import opened ExecutorProgress

  // ---- the predecessors of each node

  /** The ends of the first `n` tasks, as often as the start of task `j` waits for them. */
  function EndsInto(names: seq<Name>, wired: seq<Wiring>, j: nat, n: nat): multiset<Node>
    requires |names| == |wired| && j < |names| && n <= |names|
  {
    if n == 0 then multiset{}
    else EndsInto(names, wired, j, n - 1)[End(n - 1) := Edges(names, wired, End(n - 1), Start(j))]
  }

  function AllEnds(n: nat): multiset<Node> {
    if n == 0 then multiset{} else AllEnds(n - 1)[End(n - 1) := 1]
  }

  function Predecessors(names: seq<Name>, wired: seq<Wiring>, b: Node): multiset<Node>
    requires |names| == |wired| && IsNode(wired, b)
  {
    match b
    case Done => AllEnds(|wired|)
    case Start(j) => EndsInto(names, wired, j, |wired|)
    case End(j) => multiset{Start(j)} + if wired[j].closed then multiset{Previous(j, wired[j].actions)} else multiset{}
    case Act(i, k) => multiset{Previous(i, k)}
  }

  lemma {:induction false} EndsIntoExactly(names: seq<Name>, wired: seq<Wiring>, j: nat, n: nat, a: Node)
    requires |names| == |wired| && j < |names| && n <= |names|
    ensures EndsInto(names, wired, j, n)[a]
         == if a.End? && a.task < n then Edges(names, wired, a, Start(j)) else 0
  {
    if n > 0 {
      EndsIntoExactly(names, wired, j, n - 1, a);
    }
  }

  lemma {:induction false} AllEndsExactly(n: nat, a: Node)
    ensures AllEnds(n)[a] == Once(a.End? && a.task < n)
    ensures |AllEnds(n)| == n
  {
    if n > 0 {
      AllEndsExactly(n - 1, a);
      AllEndsExactly(n - 1, End(n - 1));
    }
  }

  /** How often the first `n` of the names stand in a list. */
  function Times(names: seq<Name>, some: seq<Name>, n: nat): nat
    requires n <= |names|
  {
    if n == 0 then 0 else Times(names, some, n - 1) + multiset(some)[names[n - 1]]
  }

  lemma {:induction false} TimesOneMore(names: seq<Name>, some: seq<Name>, j: nat, n: nat)
    requires Distinct(names) && j < |names| && n <= |names|
    ensures Times(names, some + [names[j]], n) == Times(names, some, n) + Once(j < n)
  {
    if n > 0 {
      TimesOneMore(names, some, j, n - 1);
    }
  }

  lemma {:induction false} TimesNone(names: seq<Name>, n: nat)
    requires n <= |names|
    ensures Times(names, [], n) == 0
  {
    if n > 0 {
      TimesNone(names, n - 1);
    }
  }

  /** A list of names is as long as they are often in it. */
  lemma {:induction false} TimesAll(names: seq<Name>, some: seq<Name>)
    requires Distinct(names) && KnownIn(names, some)
    ensures Times(names, some, |names|) == |some|
  {
    if some == [] {
      TimesNone(names, |names|);
    } else {
      var front, last := some[..|some| - 1], some[|some| - 1];
      TimesAll(names, front);
      var j := Position(names, last).value;
      TimesOneMore(names, front, j, |names|);
      assert some == front + [names[j]];
    }
  }

  lemma {:induction false} EndsIntoSize(names: seq<Name>, wired: seq<Wiring>, j: nat, n: nat)
    requires |names| == |wired| && j < |names| && n <= |names|
    ensures |EndsInto(names, wired, j, n)| == Befores(wired[..n], names[j]) + Times(names, wired[j].after, n)
  {
    if n > 0 {
      EndsIntoSize(names, wired, j, n - 1);
      EndsIntoExactly(names, wired, j, n - 1, End(n - 1));
      assert wired[..n][..n - 1] == wired[..n - 1];
    }
  }

  /** Each node waits for its predecessors, as often as there is an edge from them. */
  lemma PredecessorsExactly(names: seq<Name>, wired: seq<Wiring>, b: Node, a: Node)
    requires |names| == |wired| && IsNode(wired, b)
    requires forall i :: 0 <= i < |wired| ==> (wired[i].closed <==> wired[i].actions > 0)
    ensures Predecessors(names, wired, b)[a] == if IsNode(wired, a) then Edges(names, wired, a, b) else 0
  {
    match b
    case Done => AllEndsExactly(|wired|, a);
    case Start(j) => EndsIntoExactly(names, wired, j, |wired|, a);
    case End(j) =>
    case Act(i, k) =>
  }

  lemma PredecessorsSize(names: seq<Name>, wired: seq<Wiring>, b: Node)
    requires |names| == |wired| && IsNode(wired, b) && Distinct(names)
    requires forall i :: 0 <= i < |wired| ==> KnownIn(names, wired[i].after)
    ensures |Predecessors(names, wired, b)| == WaitsFor(names, wired, b)
  {
    match b
    case Done => AllEndsExactly(|wired|, Done);
    case Start(j) =>
      EndsIntoSize(names, wired, j, |wired|);
      TimesAll(names, wired[j].after);
      assert wired[..|wired|] == wired;
    case End(j) =>
    case Act(i, k) =>
  }

  // ---- the job

  /** What `play_in_action` hands to the thread pool: all but the end of everything, filtered. */
  function JobOf(tasks: seq<Task>, g: Graph): Job
    requires forall n :: n in g.table.waiting ==> IsNode(Wired(tasks), n)
  {
    Job(Filtered(g.table.waiting, g.order), g.table.dependants,
        map n | n in g.table.waiting :: Predecessors(Names(tasks), Wired(tasks), n),
        g.delayed)
  }

  /** The graph that is built for these tasks. */
  ghost predicate Plays(tasks: seq<Task>, g: Graph) {
    Distinct(Names(tasks)) && Known(tasks) && Graphs(tasks, Wired(tasks), g)
  }

  lemma {:induction false} FilteredExactly(waiting: map<Node, int>, tasks: seq<Node>, n: Node)
    ensures n in Filtered(waiting, tasks) <==> n in tasks && (n in waiting ==> waiting[n] == 0)
    ensures NoRepeats(tasks) ==> NoRepeats(Filtered(waiting, tasks))
  {
    if tasks != [] {
      var front, last := tasks[..|tasks| - 1], tasks[|tasks| - 1];
      FilteredExactly(waiting, front, n);
      FilteredExactly(waiting, front, last);
      assert tasks == front + [last];
      if NoRepeats(tasks) {
        assert last !in front;
      }
    }
  }

  lemma JobCounts(tasks: seq<Task>, g: Graph, a: Node, b: Node)
    requires Plays(tasks, g) && a in g.table.dependants && b in g.table.dependants
    ensures Count(g.table.dependants[a], b) == Predecessors(Names(tasks), Wired(tasks), b)[a]
  {
    CountIsMultiset(g.table.dependants[a], b);
    PredecessorsExactly(Names(tasks), Wired(tasks), b, a);
  }

  /** A counter of the table is the number of predecessors. */
  lemma JobWaits(tasks: seq<Task>, g: Graph, n: Node)
    requires Plays(tasks, g) && n in g.table.waiting
    ensures g.table.waiting[n] == |Predecessors(Names(tasks), Wired(tasks), n)|
  {
    PredecessorsSize(Names(tasks), Wired(tasks), n);
  }

  lemma JobRoots(tasks: seq<Task>, g: Graph)
    requires Plays(tasks, g)
    ensures NoRepeats(JobOf(tasks, g).roots)
    ensures forall n :: n in JobOf(tasks, g).roots <==>
              n in g.table.waiting && n != Done && Predecessors(Names(tasks), Wired(tasks), n) == multiset{}
  {
    FilteredExactly(g.table.waiting, g.order, Done);
    forall n
      ensures n in JobOf(tasks, g).roots <==>
                n in g.table.waiting && n != Done && Predecessors(Names(tasks), Wired(tasks), n) == multiset{}
    {
      FilteredExactly(g.table.waiting, g.order, n);
      if n in g.table.waiting {
        JobWaits(tasks, g, n);
      }
    }
  }

  /** What is built for an action is fit for the thread pool. */
  lemma JobConsistent(tasks: seq<Task>, g: Graph)
    requires Plays(tasks, g)
    ensures Consistent(JobOf(tasks, g))
    ensures Rooted(JobOf(tasks, g)) <==> tasks != []
  {
    var job := JobOf(tasks, g);
    forall a, b | a in job.dependants && b in job.dependants
      ensures Count(job.dependants[a], b) == job.predecessors[b][a]
    {
      JobCounts(tasks, g, a, b);
    }
    forall a, b | b in job.predecessors && a in job.predecessors[b]
      ensures a in job.predecessors
    {
      PredecessorsExactly(Names(tasks), Wired(tasks), b, a);
    }
    JobRoots(tasks, g);
    PredecessorsSize(Names(tasks), Wired(tasks), Done);
  }

  /** The job's nodes and predecessors are those of the tasks. */
  ghost predicate IsJobOf(tasks: seq<Task>, job: Job) {
    && (forall n :: n in job.predecessors <==> IsNode(Wired(tasks), n))
    && forall n :: n in job.predecessors ==> job.predecessors[n] == Predecessors(Names(tasks), Wired(tasks), n)
  }

  lemma JobIsOf(tasks: seq<Task>, g: Graph)
    requires Plays(tasks, g)
    ensures IsJobOf(tasks, JobOf(tasks, g))
  {
  }

  /** A predecessor is a node there is an edge from. */
  lemma EdgeFrom(tasks: seq<Task>, job: Job, a: Node, b: Node)
    requires IsJobOf(tasks, job) && b in job.predecessors
    ensures a in job.predecessors[b] <==> a in job.predecessors && Edges(Names(tasks), Wired(tasks), a, b) > 0
  {
    PredecessorsExactly(Names(tasks), Wired(tasks), b, a);
  }

  /** The pool starts from the counters of the table. */
  lemma JobStarts(tasks: seq<Task>, g: Graph, workers: nat, n: Node)
    requires Plays(tasks, g) && n in g.table.waiting
    ensures Initial(JobOf(tasks, g), workers).waiting[n] == g.table.waiting[n]
  {
    JobWaits(tasks, g, n);
  }

  // ---- what that means for the tasks

  /** If `b` has run, `a` ran before it. */
  predicate RanFirst(ran: seq<Node>, a: Node, b: Node) {
    b in ran ==> a in ran && IndexOf(ran, a) < IndexOf(ran, b)
  }

  /** Nodes run in the order of the edges. */
  ghost predicate Respects(tasks: seq<Task>, ran: seq<Node>) {
    forall a, b :: IsNode(Wired(tasks), a) && IsNode(Wired(tasks), b) && Edges(Names(tasks), Wired(tasks), a, b) > 0 ==>
      RanFirst(ran, a, b)
  }

  lemma EdgeRanFirst(tasks: seq<Task>, job: Job, ran: seq<Node>, a: Node, b: Node)
    requires IsJobOf(tasks, job) && IsNode(Wired(tasks), a) && IsNode(Wired(tasks), b)
    requires Edges(Names(tasks), Wired(tasks), a, b) > 0
    requires NoRepeats(ran) && InOrder(job, ran)
    ensures RanFirst(ran, a, b)
  {
    EdgeFrom(tasks, job, a, b);
    if b in ran {
      Precedes(job, ran, b, a);
    }
  }

  lemma OrderRespects(tasks: seq<Task>, job: Job, ran: seq<Node>)
    requires IsJobOf(tasks, job) && NoRepeats(ran) && InOrder(job, ran)
    ensures Respects(tasks, ran)
  {
    forall a, b | IsNode(Wired(tasks), a) && IsNode(Wired(tasks), b) && Edges(Names(tasks), Wired(tasks), a, b) > 0
      ensures RanFirst(ran, a, b)
    {
      EdgeRanFirst(tasks, job, ran, a, b);
    }
  }

  lemma RunRespects(tasks: seq<Task>, g: Graph, workers: nat, steps: seq<Step>)
    requires Plays(tasks, g)
    ensures Respects(tasks, Run(JobOf(tasks, g), workers, steps).ran)
  {
    var job := JobOf(tasks, g);
    JobConsistent(tasks, g);
    JobIsOf(tasks, g);
    RunsOnceInOrder(job, workers, steps);
    OrderRespects(tasks, job, Run(job, workers, steps).ran);
  }

  lemma PreviousEdge(tasks: seq<Task>, i: nat, k: nat)
    requires i < |tasks| && k < tasks[i].actions
    ensures IsNode(Wired(tasks), Previous(i, k)) && IsNode(Wired(tasks), Act(i, k))
    ensures Edges(Names(tasks), Wired(tasks), Previous(i, k), Act(i, k)) == 1
  {
  }

  lemma LastEdge(tasks: seq<Task>, i: nat)
    requires i < |tasks| && tasks[i].actions > 0
    ensures Edges(Names(tasks), Wired(tasks), Act(i, tasks[i].actions - 1), End(i)) == 1
  {
  }

  /** A task's actions run in their order, after its start. */
  lemma {:induction false} StartRanFirst(tasks: seq<Task>, ran: seq<Node>, i: nat, k: nat)
    requires Respects(tasks, ran) && i < |tasks| && k < tasks[i].actions
    ensures RanFirst(ran, Start(i), Act(i, k))
    decreases k
  {
    PreviousEdge(tasks, i, k);
    assert RanFirst(ran, Previous(i, k), Act(i, k));
    if k > 0 {
      StartRanFirst(tasks, ran, i, k - 1);
    }
  }

  /** And before its end. */
  lemma {:induction false} ActionRanFirst(tasks: seq<Task>, ran: seq<Node>, i: nat, k: nat)
    requires Respects(tasks, ran) && i < |tasks| && k < tasks[i].actions
    ensures RanFirst(ran, Act(i, k), End(i))
    decreases tasks[i].actions - k
  {
    if k + 1 < tasks[i].actions {
      ActionRanFirst(tasks, ran, i, k + 1);
      PreviousEdge(tasks, i, k + 1);
      assert RanFirst(ran, Previous(i, k + 1), Act(i, k + 1));
    } else {
      LastEdge(tasks, i);
    }
  }

  /** Task `i` is to be finished before task `j`, by its own `before` or the other's `after`. */
  predicate ComesBefore(tasks: seq<Task>, i: nat, j: nat)
    requires i < |tasks| && j < |tasks|
  {
    tasks[j].name in tasks[i].before || tasks[i].name in tasks[j].after
  }

  lemma EndBeforeStart(tasks: seq<Task>, i: nat, j: nat)
    requires i < |tasks| && j < |tasks|
    ensures Edges(Names(tasks), Wired(tasks), End(i), Start(j)) > 0 <==> ComesBefore(tasks, i, j)
  {
  }

  /** The actions of a task run one after the other. */
  lemma ActionsRunInOrder(tasks: seq<Task>, g: Graph, workers: nat, steps: seq<Step>, i: nat, k: nat)
    requires Plays(tasks, g) && i < |tasks| && 0 < k < tasks[i].actions
    ensures RanFirst(Run(JobOf(tasks, g), workers, steps).ran, Act(i, k - 1), Act(i, k))
  {
    RunRespects(tasks, g, workers, steps);
    PreviousEdge(tasks, i, k);
  }

  /** Every action of a task that comes before another runs before each of the other's. */
  lemma TasksRunInOrder(tasks: seq<Task>, g: Graph, workers: nat, steps: seq<Step>, i: nat, j: nat, k: nat, l: nat)
    requires Plays(tasks, g) && i < |tasks| && j < |tasks| && ComesBefore(tasks, i, j)
    requires k < tasks[i].actions && l < tasks[j].actions
    ensures RanFirst(Run(JobOf(tasks, g), workers, steps).ran, Act(i, k), Act(j, l))
  {
    RunRespects(tasks, g, workers, steps);
    var ran := Run(JobOf(tasks, g), workers, steps).ran;
    ActionRanFirst(tasks, ran, i, k);
    EndBeforeStart(tasks, i, j);
    assert RanFirst(ran, End(i), Start(j));
    StartRanFirst(tasks, ran, j, l);
  }

  lemma DoneRanLast(tasks: seq<Task>, ran: seq<Node>, n: Node)
    requires Respects(tasks, ran) && IsNode(Wired(tasks), n) && n != Done
    ensures RanFirst(ran, n, Done)
  {
    var i := n.task;
    assert RanFirst(ran, End(i), Done);
    match n
    case Start(_) => assert RanFirst(ran, Start(i), End(i));
    case End(_) =>
    case Act(_, k) => ActionRanFirst(tasks, ran, i, k);
  }

  /** The action is reported done only after everything of every task has run. */
  lemma DoneAfterAll(tasks: seq<Task>, g: Graph, workers: nat, steps: seq<Step>, n: Node)
    requires Plays(tasks, g) && IsNode(Wired(tasks), n) && n != Done
    ensures RanFirst(Run(JobOf(tasks, g), workers, steps).ran, n, Done)
  {
    RunRespects(tasks, g, workers, steps);
    DoneRanLast(tasks, Run(JobOf(tasks, g), workers, steps).ran, n);
  }

  // ---- when it is done

  /** The tasks can be numbered so that each has a higher number than those that come before it. */
  ghost predicate Orders(tasks: seq<Task>, rank: seq<nat>) {
    |rank| == |tasks| &&
    forall i, j {:trigger ComesBefore(tasks, i, j)} ::
      0 <= i < |tasks| && 0 <= j < |tasks| && ComesBefore(tasks, i, j) ==> rank[i] < rank[j]
  }

  function MostActions(tasks: seq<Task>): (most: nat)
    ensures forall i :: 0 <= i < |tasks| ==> tasks[i].actions <= most
  {
    if tasks == [] then 0
    else
      var most := MostActions(tasks[..|tasks| - 1]);
      if tasks[|tasks| - 1].actions > most then tasks[|tasks| - 1].actions else most
  }

  function Highest(rank: seq<nat>): (top: nat)
    ensures forall i :: 0 <= i < |rank| ==> rank[i] <= top
  {
    if rank == [] then 0
    else
      var top := Highest(rank[..|rank| - 1]);
      if rank[|rank| - 1] > top then rank[|rank| - 1] else top
  }

  function Base(rank: nat, width: nat): nat {
    if rank == 0 then 0 else Base(rank - 1, width) + width + 2
  }

  /** The nodes of a task numbered together, with room for those of any. */
  function NodeRank(rank: seq<nat>, width: nat, n: Node): nat
    requires n == Done || n.task < |rank|
  {
    match n
    case Done => Base(Highest(rank) + 1, width)
    case Start(i) => Base(rank[i], width)
    case Act(i, k) => Base(rank[i], width) + 1 + k
    case End(i) => Base(rank[i], width) + 1 + width
  }

  lemma {:induction false} Room(low: nat, high: nat, width: nat)
    requires low < high
    ensures Base(low, width) + width + 2 <= Base(high, width)
  {
    if low + 1 < high {
      Room(low, high - 1, width);
    }
  }

  lemma EdgeRises(tasks: seq<Task>, rank: seq<nat>, a: Node, b: Node)
    requires Orders(tasks, rank) && IsNode(Wired(tasks), a) && IsNode(Wired(tasks), b)
    requires Edges(Names(tasks), Wired(tasks), a, b) > 0
    ensures NodeRank(rank, MostActions(tasks), a) < NodeRank(rank, MostActions(tasks), b)
  {
    if a.End? {
      if b == Done {
        Room(rank[a.task], Highest(rank) + 1, MostActions(tasks));
      } else {
        EndBeforeStart(tasks, a.task, b.task);
        Room(rank[a.task], rank[b.task], MostActions(tasks));
      }
    }
  }

  /** The nodes wait for each other in a circle exactly if the tasks do. */
  lemma AcyclicExactly(tasks: seq<Task>, g: Graph)
    requires Plays(tasks, g)
    ensures Acyclic(JobOf(tasks, g)) <==> exists rank :: Orders(tasks, rank)
  {
    var job := JobOf(tasks, g);
    JobIsOf(tasks, g);
    if rank :| Orders(tasks, rank) {
      AllEdgesRise(tasks, rank);
      JobOnlyEdges(tasks, job);
      NodesRanked(tasks, job, rank);
    }
    if ranks :| Ranks(job, ranks) {
      TasksRanked(tasks, job, ranks);
    }
  }

  /** Along every edge the numbers of the nodes rise. */
  ghost predicate EdgesRise(tasks: seq<Task>, rank: seq<nat>) {
    |rank| == |tasks| &&
    forall a, b :: IsNode(Wired(tasks), a) && IsNode(Wired(tasks), b) && Edges(Names(tasks), Wired(tasks), a, b) > 0 ==>
      NodeRank(rank, MostActions(tasks), a) < NodeRank(rank, MostActions(tasks), b)
  }

  lemma AllEdgesRise(tasks: seq<Task>, rank: seq<nat>)
    requires Orders(tasks, rank)
    ensures EdgesRise(tasks, rank)
  {
    forall a, b | IsNode(Wired(tasks), a) && IsNode(Wired(tasks), b) && Edges(Names(tasks), Wired(tasks), a, b) > 0
      ensures NodeRank(rank, MostActions(tasks), a) < NodeRank(rank, MostActions(tasks), b)
    {
      EdgeRises(tasks, rank, a, b);
    }
  }

  /** Only where there is an edge is a node a predecessor. */
  ghost predicate OnlyEdges(tasks: seq<Task>, job: Job) {
    && (forall n :: n in job.predecessors ==> IsNode(Wired(tasks), n))
    && forall b, a :: b in job.predecessors && a in job.predecessors[b] ==>
         a in job.predecessors && Edges(Names(tasks), Wired(tasks), a, b) > 0
  }

  lemma JobOnlyEdges(tasks: seq<Task>, job: Job)
    requires IsJobOf(tasks, job)
    ensures OnlyEdges(tasks, job)
  {
    forall b, a | b in job.predecessors && a in job.predecessors[b]
      ensures a in job.predecessors && Edges(Names(tasks), Wired(tasks), a, b) > 0
    {
      EdgeFrom(tasks, job, a, b);
    }
  }

  lemma NodesRanked(tasks: seq<Task>, job: Job, rank: seq<nat>)
    requires OnlyEdges(tasks, job) && EdgesRise(tasks, rank)
    ensures Acyclic(job)
  {
    var ranks: map<Node, nat> := map n | n in job.predecessors :: NodeRank(rank, MostActions(tasks), n);
    assert Ranks(job, ranks);
  }

  lemma TaskRises(tasks: seq<Task>, job: Job, ranks: map<Node, nat>, i: nat, j: nat)
    requires IsJobOf(tasks, job) && Ranks(job, ranks) && i < |tasks| && j < |tasks| && ComesBefore(tasks, i, j)
    ensures Start(i) in ranks && Start(j) in ranks && ranks[Start(i)] < ranks[Start(j)]
  {
    EndBeforeStart(tasks, i, j);
    EdgeFrom(tasks, job, End(i), Start(j));
    EdgeFrom(tasks, job, Start(i), End(i));
  }

  lemma TasksRanked(tasks: seq<Task>, job: Job, ranks: map<Node, nat>)
    requires IsJobOf(tasks, job) && Ranks(job, ranks)
    ensures exists rank :: Orders(tasks, rank)
  {
    var rank: seq<nat> := seq(|tasks|, i requires 0 <= i < |tasks| => if Start(i) in ranks then ranks[Start(i)] else 0);
    forall i, j | 0 <= i < |tasks| && 0 <= j < |tasks| && ComesBefore(tasks, i, j)
      ensures rank[i] < rank[j]
    {
      TaskRises(tasks, job, ranks, i, j);
    }
    assert Orders(tasks, rank);
  }

  /**
   * A run that has come to rest has reported the action done exactly if there is a task and no tasks come before
   * each other in a circle.
   */
  lemma DoneExactly(tasks: seq<Task>, g: Graph, workers: nat, steps: seq<Step>)
    requires Plays(tasks, g) && AtRest(Run(JobOf(tasks, g), workers, steps))
    ensures Done in Run(JobOf(tasks, g), workers, steps).ran <==> (tasks != [] && exists rank :: Orders(tasks, rank))
  {
    var job := JobOf(tasks, g);
    JobConsistent(tasks, g);
    RestExactly(job, workers, steps);
    AcyclicExactly(tasks, g);
    if Done in Run(job, workers, steps).ran {
      forall n | n in job.predecessors
        ensures n in Run(job, workers, steps).ran
      {
        if n != Done {
          DoneAfterAll(tasks, g, workers, steps, n);
        }
      }
    }
  }

  /** Without a task the action is never reported done, whatever the threads do. */
  lemma NoTasksNeverDone(g: Graph, workers: nat, steps: seq<Step>)
    requires Plays([], g)
    ensures Done !in Run(JobOf([], g), workers, steps).ran
  {
    var job := JobOf([], g);
    JobConsistent([], g);
    RunKeeps(job, workers, steps);
    JobRoots([], g);
    if Done in Run(job, workers, steps).ran {
      RanIsReady(job, Run(job, workers, steps), Done);
    }
  }
}
