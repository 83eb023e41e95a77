/** The graph of queued tasks that `play_in_action` makes of an action's tasks. */
module ActionGraph {
  import opened Options

  type Name = string

  /** A task of an action file; `delay` says whether it sets a delay between its actions. */
  datatype Task = Task(name: Name, before: seq<Name>, after: seq<Name>, actions: nat, delay: bool)

  /** What is queued for the tasks, by their position in the file. */
  datatype Node = Done | Start(task: nat) | End(task: nat) | Act(task: nat, index: nat)

  function Names(tasks: seq<Task>): (names: seq<Name>)
    ensures |names| == |tasks| && forall i :: 0 <= i < |tasks| ==> names[i] == tasks[i].name
  {
    seq(|tasks|, i requires 0 <= i < |tasks| => tasks[i].name)
  }

  predicate Distinct(names: seq<Name>) {
    forall i, j :: 0 <= i < j < |names| ==> names[i] != names[j]
  }

  /** Every task named in `before` or `after` exists. */
  predicate Known(tasks: seq<Task>) {
    forall i :: 0 <= i < |tasks| ==> KnownIn(Names(tasks), tasks[i].before) && KnownIn(Names(tasks), tasks[i].after)
  }

  predicate KnownIn(names: seq<Name>, some: seq<Name>) {
    forall n :: n in some ==> n in names
  }

  // ---- which task comes before which

  /** How much of a task has been wired up. */
  datatype Wiring = Wiring(before: seq<Name>, after: seq<Name>, actions: nat, closed: bool)

  predicate IsNode(wired: seq<Wiring>, n: Node) {
    match n
    case Done => true
    case Start(i) => i < |wired|
    case End(i) => i < |wired|
    case Act(i, k) => i < |wired| && k < wired[i].actions
  }

  /**
   * How many times `b` waits for `a`: a task's actions run in their order between its start and its end, all ends
   * come before the one end of everything, and `before` and `after` put one task's end before another's start.
   */
  function Edges(names: seq<Name>, wired: seq<Wiring>, a: Node, b: Node): nat
    requires |names| == |wired| && IsNode(wired, a) && IsNode(wired, b)
  {
    match a
    case Done => 0
    case Start(i) => if b == End(i) || b == Act(i, 0) then 1 else 0
    case Act(i, k) =>
      if b == Act(i, k + 1) || (b == End(i) && wired[i].closed && k + 1 == wired[i].actions) then 1 else 0
    case End(i) =>
      if b == Done then 1
      else if b.Start? then multiset(wired[i].before)[names[b.task]] + multiset(wired[b.task].after)[names[i]]
      else 0
  }

  /** How many tasks name this one in `before`, counted as often as they do. */
  function Befores(wired: seq<Wiring>, name: Name): nat {
    if wired == [] then 0
    else Befores(wired[..|wired| - 1], name) + multiset(wired[|wired| - 1].before)[name]
  }

  /** How many nodes it waits for at first. */
  function WaitsFor(names: seq<Name>, wired: seq<Wiring>, b: Node): nat
    requires |names| == |wired| && IsNode(wired, b)
  {
    match b
    case Done => |wired|
    case Start(j) => |wired[j].after| + Befores(wired, names[j])
    case End(j) => if wired[j].closed then 2 else 1
    case Act(_, _) => 1
  }

  /** The wiring of whole tasks. */
  function Wired(tasks: seq<Task>): (wired: seq<Wiring>)
    ensures |wired| == |tasks|
  {
    seq(|tasks|, i requires 0 <= i < |tasks| =>
      Wiring(tasks[i].before, tasks[i].after, tasks[i].actions, tasks[i].actions > 0))
  }

  // ---- the dictionaries of the program

  datatype Table = Table(waiting: map<Node, nat>, dependants: map<Node, seq<Node>>)

  ghost predicate Counters(names: seq<Name>, wired: seq<Wiring>, t: Table)
    requires |names| == |wired|
  {
    && (forall n :: n in t.waiting <==> IsNode(wired, n))
    && (forall b :: b in t.waiting ==> t.waiting[b] == WaitsFor(names, wired, b))
  }

  ghost predicate Dependants(names: seq<Name>, wired: seq<Wiring>, t: Table)
    requires |names| == |wired|
  {
    && (forall n :: n in t.dependants <==> IsNode(wired, n))
    && (forall a, b :: a in t.dependants && b in t.dependants ==>
          multiset(t.dependants[a])[b] == Edges(names, wired, a, b))
    && Closed(t)
  }

  ghost predicate Closed(t: Table) {
    forall a, b :: a in t.dependants && b in t.dependants[a] ==> b in t.dependants
  }

  /** The counters and dependants in the table are those of the wiring. */
  ghost predicate Wires(names: seq<Name>, wired: seq<Wiring>, t: Table) {
    |names| == |wired| && Counters(names, wired, t) && Dependants(names, wired, t)
  }

  /** `b` waits for `a` once more. */
  function Linked(t: Table, a: Node, b: Node): Table
    requires a in t.dependants && b in t.waiting
  {
    t.(waiting := t.waiting[b := t.waiting[b] + 1], dependants := t.dependants[a := t.dependants[a] + [b]])
  }

  function Once(yes: bool): nat {
    if yes then 1 else 0
  }

  /** The wiring `more` differs by one edge, from `x` to `y`. */
  ghost predicate GainsEdge(names: seq<Name>, wired: seq<Wiring>, more: seq<Wiring>, x: Node, y: Node)
    requires |names| == |wired| == |more| && forall n :: IsNode(wired, n) <==> IsNode(more, n)
  {
    forall a, b :: IsNode(wired, a) && IsNode(wired, b) ==>
      Edges(names, more, a, b) == Edges(names, wired, a, b) + Once(a == x && b == y)
  }

  ghost predicate GainsWait(names: seq<Name>, wired: seq<Wiring>, more: seq<Wiring>, y: Node)
    requires |names| == |wired| == |more| && forall n :: IsNode(wired, n) <==> IsNode(more, n)
  {
    forall b :: IsNode(wired, b) ==> WaitsFor(names, more, b) == WaitsFor(names, wired, b) + Once(b == y)
  }

  lemma LinkedWires(names: seq<Name>, wired: seq<Wiring>, more: seq<Wiring>, t: Table, x: Node, y: Node)
    requires Wires(names, wired, t) && |more| == |wired| && forall n :: IsNode(wired, n) <==> IsNode(more, n)
    requires IsNode(wired, x) && IsNode(wired, y)
    requires GainsEdge(names, wired, more, x, y) && GainsWait(names, wired, more, y)
    ensures Wires(names, more, Linked(t, x, y))
  {
    LinkedDependants(names, wired, more, t, x, y);
  }

  lemma LinkedDependants(names: seq<Name>, wired: seq<Wiring>, more: seq<Wiring>, t: Table, x: Node, y: Node)
    requires |names| == |more| == |wired| && forall n :: IsNode(wired, n) <==> IsNode(more, n)
    requires Dependants(names, wired, t) && GainsEdge(names, wired, more, x, y)
    requires x in t.dependants && y in t.dependants && y in t.waiting
    ensures Dependants(names, more, Linked(t, x, y))
  {
  }

  lemma {:induction false} BeforesUpdate(wired: seq<Wiring>, i: nat, w: Wiring, name: Name)
    requires i < |wired|
    ensures Befores(wired[i := w], name)
         == Befores(wired, name) - multiset(wired[i].before)[name] + multiset(w.before)[name]
  {
    var n := |wired| - 1;
    if i < n {
      BeforesUpdate(wired[..n], i, w, name);
      assert wired[i := w][..n] == wired[..n][i := w];
    } else {
      assert wired[i := w][..n] == wired[..n];
    }
  }

  lemma OneMoreName(names: seq<Name>, some: seq<Name>, j: nat)
    requires Distinct(names) && j < |names|
    ensures forall k :: 0 <= k < |names| ==>
      multiset(some + [names[j]])[names[k]] == multiset(some)[names[k]] + Once(k == j)
  {
  }

  lemma BeforeGainsWait(names: seq<Name>, wired: seq<Wiring>, i: nat, j: nat)
    requires Distinct(names) && |names| == |wired| && i < |names| && j < |names|
    ensures GainsWait(names, wired, wired[i := wired[i].(before := wired[i].before + [names[j]])], Start(j))
  {
    var more := wired[i := wired[i].(before := wired[i].before + [names[j]])];
    OneMoreName(names, wired[i].before, j);
    forall k | 0 <= k < |names|
      ensures Befores(more, names[k]) == Befores(wired, names[k]) + Once(k == j)
    {
      BeforesUpdate(wired, i, more[i], names[k]);
    }
  }

  lemma BeforeGains(names: seq<Name>, wired: seq<Wiring>, i: nat, j: nat)
    requires Distinct(names) && |names| == |wired| && i < |names| && j < |names|
    ensures var more := wired[i := wired[i].(before := wired[i].before + [names[j]])];
            && (forall n :: IsNode(wired, n) <==> IsNode(more, n))
            && GainsEdge(names, wired, more, End(i), Start(j)) && GainsWait(names, wired, more, Start(j))
  {
    BeforeGainsWait(names, wired, i, j);
    OneMoreName(names, wired[i].before, j);
  }

  lemma AfterGains(names: seq<Name>, wired: seq<Wiring>, i: nat, j: nat)
    requires Distinct(names) && |names| == |wired| && i < |names| && j < |names|
    ensures var more := wired[i := wired[i].(after := wired[i].after + [names[j]])];
            && (forall n :: IsNode(wired, n) <==> IsNode(more, n))
            && GainsEdge(names, wired, more, End(j), Start(i)) && GainsWait(names, wired, more, Start(i))
  {
    AfterGainsWait(names, wired, i, j);
    hide WaitsFor;
    OneMoreName(names, wired[i].after, j);
  }

  lemma AfterGainsWait(names: seq<Name>, wired: seq<Wiring>, i: nat, j: nat)
    requires |names| == |wired| && i < |names| && j < |names|
    ensures GainsWait(names, wired, wired[i := wired[i].(after := wired[i].after + [names[j]])], Start(i))
  {
    var more := wired[i := wired[i].(after := wired[i].after + [names[j]])];
    forall k | 0 <= k < |names|
      ensures Befores(more, names[k]) == Befores(wired, names[k])
    {
      BeforesUpdate(wired, i, more[i], names[k]);
    }
  }

  /** One more name in `before`. */
  lemma BeforeWires(names: seq<Name>, wired: seq<Wiring>, t: Table, i: nat, j: nat)
    requires Distinct(names) && Wires(names, wired, t) && i < |names| && j < |names|
    ensures Wires(names, wired[i := wired[i].(before := wired[i].before + [names[j]])], Linked(t, End(i), Start(j)))
  {
    BeforeGains(names, wired, i, j);
    LinkedWires(names, wired, wired[i := wired[i].(before := wired[i].before + [names[j]])], t, End(i), Start(j));
  }

  /** One more name in `after`. */
  lemma AfterWires(names: seq<Name>, wired: seq<Wiring>, t: Table, i: nat, j: nat)
    requires Distinct(names) && Wires(names, wired, t) && i < |names| && j < |names|
    ensures Wires(names, wired[i := wired[i].(after := wired[i].after + [names[j]])], Linked(t, End(j), Start(i)))
  {
    AfterGains(names, wired, i, j);
    LinkedWires(names, wired, wired[i := wired[i].(after := wired[i].after + [names[j]])], t, End(j), Start(i));
  }

  /** The node an action waits for. */
  function Previous(i: nat, k: nat): Node {
    if k == 0 then Start(i) else Act(i, k - 1)
  }

  /** The table with one more node, which waits for another. */
  function Extended(t: Table, a: Node, b: Node): Table
    requires a in t.dependants && a != b
  {
    Table(t.waiting[b := 1], t.dependants[b := []][a := t.dependants[a] + [b]])
  }

  /** The wiring `more` has one node more, `y`, which waits for `x` alone and has none wait for it. */
  ghost predicate GainsNode(names: seq<Name>, wired: seq<Wiring>, more: seq<Wiring>, x: Node, y: Node)
    requires |names| == |wired| == |more|
  {
    && IsNode(wired, x) && !IsNode(wired, y)
    && (forall n :: IsNode(more, n) <==> IsNode(wired, n) || n == y)
    && (forall a, b :: IsNode(more, a) && IsNode(more, b) ==>
          Edges(names, more, a, b) == if a == y then 0
                                      else if b == y then Once(a == x)
                                      else Edges(names, wired, a, b))
    && (forall b :: IsNode(more, b) ==> WaitsFor(names, more, b) == if b == y then 1 else WaitsFor(names, wired, b))
  }

  lemma ExtendedCount(t: Table, x: Node, y: Node, a: Node, b: Node)
    requires x in t.dependants && y !in t.dependants && Closed(t) && (a in t.dependants || a == y)
    ensures multiset(Extended(t, x, y).dependants[a])[b]
         == if a == y then 0
            else if b == y then Once(a == x)
            else multiset(t.dependants[a])[b]
  {
    if a != y {
      assert y !in t.dependants[a];
    }
  }

  lemma ExtendedDependants(names: seq<Name>, wired: seq<Wiring>, more: seq<Wiring>, t: Table, x: Node, y: Node)
    requires |names| == |wired| == |more| && Dependants(names, wired, t) && GainsNode(names, wired, more, x, y)
    ensures Dependants(names, more, Extended(t, x, y))
  {
    var u := Extended(t, x, y);
    forall a, b | a in u.dependants && b in u.dependants
      ensures multiset(u.dependants[a])[b] == Edges(names, more, a, b)
    {
      ExtendedCount(t, x, y, a, b);
    }
  }

  lemma ActionGains(names: seq<Name>, wired: seq<Wiring>, i: nat)
    requires |names| == |wired| && i < |names| && !wired[i].closed
    ensures var k := wired[i].actions;
            GainsNode(names, wired, wired[i := wired[i].(actions := k + 1)], Previous(i, k), Act(i, k))
  {
    var k := wired[i].actions;
    var more := wired[i := wired[i].(actions := k + 1)];
    forall j | 0 <= j < |names|
      ensures Befores(more, names[j]) == Befores(wired, names[j])
    {
      BeforesUpdate(wired, i, more[i], names[j]);
    }
    ActionEdges(names, wired, i);
  }

  lemma ActionEdges(names: seq<Name>, wired: seq<Wiring>, i: nat)
    requires |names| == |wired| && i < |names| && !wired[i].closed
    ensures var k := wired[i].actions;
            var more := wired[i := wired[i].(actions := k + 1)];
            forall a, b :: IsNode(more, a) && IsNode(more, b) ==>
              Edges(names, more, a, b) == if a == Act(i, k) then 0
                                          else if b == Act(i, k) then Once(a == Previous(i, k))
                                          else Edges(names, wired, a, b)
  {
  }

  /** One more action. */
  lemma ActionWires(names: seq<Name>, wired: seq<Wiring>, t: Table, i: nat)
    requires Wires(names, wired, t) && i < |names| && !wired[i].closed
    ensures var k := wired[i].actions;
            Wires(names, wired[i := wired[i].(actions := k + 1)], Extended(t, Previous(i, k), Act(i, k)))
  {
    hide Counters, Dependants, GainsNode, Extended;
    var k := wired[i].actions;
    var more := wired[i := wired[i].(actions := k + 1)];
    InTable(names, wired, t, Previous(i, k));
    ActionGains(names, wired, i);
    ExtendedDependants(names, wired, more, t, Previous(i, k), Act(i, k));
    ExtendedCounters(names, wired, more, t, Previous(i, k), Act(i, k));
  }

  lemma InTable(names: seq<Name>, wired: seq<Wiring>, t: Table, n: Node)
    requires Wires(names, wired, t) && IsNode(wired, n)
    ensures n in t.dependants
  {
  }

  lemma ExtendedCounters(names: seq<Name>, wired: seq<Wiring>, more: seq<Wiring>, t: Table, x: Node, y: Node)
    requires |names| == |wired| == |more| && Counters(names, wired, t) && GainsNode(names, wired, more, x, y)
    requires x in t.dependants
    ensures Counters(names, more, Extended(t, x, y))
  {
  }

  lemma CloseGains(names: seq<Name>, wired: seq<Wiring>, i: nat)
    requires |names| == |wired| && i < |names| && !wired[i].closed && wired[i].actions > 0
    ensures var more := wired[i := wired[i].(closed := true)];
            && (forall n :: IsNode(wired, n) <==> IsNode(more, n))
            && GainsEdge(names, wired, more, Previous(i, wired[i].actions), End(i))
            && GainsWait(names, wired, more, End(i))
  {
    forall j | 0 <= j < |names|
      ensures Befores(wired[i := wired[i].(closed := true)], names[j]) == Befores(wired, names[j])
    {
      BeforesUpdate(wired, i, wired[i].(closed := true), names[j]);
    }
  }

  /** The end waits for the last action too. */
  lemma CloseWires(names: seq<Name>, wired: seq<Wiring>, t: Table, i: nat)
    requires Wires(names, wired, t) && i < |names| && !wired[i].closed && wired[i].actions > 0
    ensures Wires(names, wired[i := wired[i].(closed := true)], Linked(t, Previous(i, wired[i].actions), End(i)))
  {
    CloseGains(names, wired, i);
    LinkedWires(names, wired, wired[i := wired[i].(closed := true)], t, Previous(i, wired[i].actions), End(i));
  }

  // ---- play_in_action

  /** All that is queued: the table, its nodes in the order they were put in, and those that are delayed. */
  datatype Graph = Graph(table: Table, order: seq<Node>, delayed: set<Node>)

  predicate NoRepeats(order: seq<Node>) {
    forall i, j :: 0 <= i < j < |order| ==> order[i] != order[j]
  }

  /** Of a task that sets a delay, every action but the first is delayed. */
  predicate IsDelayed(tasks: seq<Task>, n: Node) {
    n.Act? && n.index > 0 && n.task < |tasks| && tasks[n.task].delay
  }

  ghost predicate Graphs(tasks: seq<Task>, wired: seq<Wiring>, g: Graph) {
    && Wires(Names(tasks), wired, g.table)
    && Listed(wired, g.order)
    && DelayedIn(tasks, wired, g.delayed)
  }

  /** All but the end of everything, each once. */
  ghost predicate Listed(wired: seq<Wiring>, order: seq<Node>) {
    NoRepeats(order) && forall n :: n in order <==> IsNode(wired, n) && n != Done
  }

  ghost predicate DelayedIn(tasks: seq<Task>, wired: seq<Wiring>, delayed: set<Node>) {
    forall n :: n in delayed <==> IsNode(wired, n) && IsDelayed(tasks, n)
  }

  /** No task wired beyond its start and end. */
  function Bare(n: nat): (wired: seq<Wiring>)
    ensures |wired| == n
  {
    seq(n, _ => Wiring([], [], 0, false))
  }

  predicate IsAnchor(n: nat, m: Node) {
    match m
    case Done => true
    case Start(i) => i < n
    case End(i) => i < n
    case Act(_, _) => false
  }

  /** The start and the end of each of the first `n` tasks. */
  ghost predicate Anchored(n: nat, g: Graph) {
    && (forall m :: m in g.table.waiting <==> IsAnchor(n, m))
    && (forall m :: m in g.table.dependants <==> IsAnchor(n, m))
    && (forall i :: 0 <= i < n ==>
          && g.table.dependants[End(i)] == [Done] && g.table.waiting[End(i)] == 1
          && g.table.dependants[Start(i)] == [End(i)] && g.table.waiting[Start(i)] == 0)
    && g.table.dependants[Done] == []
    && AnchorsListed(n, g.order) && g.delayed == {}
  }

  ghost predicate AnchorsListed(n: nat, order: seq<Node>) {
    NoRepeats(order) && forall m :: m in order <==> IsAnchor(n, m) && m != Done
  }

  lemma NextAnchors(n: nat)
    ensures forall m :: IsAnchor(n + 1, m) <==> (IsAnchor(n, m) || m == End(n) || m == Start(n))
  {
  }

  lemma NextListed(n: nat, order: seq<Node>)
    requires AnchorsListed(n, order)
    ensures AnchorsListed(n + 1, order + [End(n), Start(n)])
  {
    NextAnchors(n);
    assert End(n) !in order && Start(n) !in order;
    assert forall m :: m in order + [End(n), Start(n)] <==> m in order || m == End(n) || m == Start(n);
  }

  lemma {:induction false} NoBefores(n: nat, name: Name)
    ensures Befores(Bare(n), name) == 0
  {
    if n > 0 {
      NoBefores(n - 1, name);
      assert Bare(n)[..n - 1] == Bare(n - 1);
    }
  }

  lemma AnchoredGraphs(tasks: seq<Task>, g: Graph)
    requires Anchored(|tasks|, g) && g.table.waiting[Done] == |tasks|
    ensures Graphs(tasks, Bare(|tasks|), g)
  {
    var names, n := Names(tasks), |tasks|;
    forall j | 0 <= j < n
      ensures Befores(Bare(n), names[j]) == 0
    {
      NoBefores(n, names[j]);
    }
    assert forall m :: IsAnchor(n, m) <==> IsNode(Bare(n), m);
    forall a, b | a in g.table.dependants && b in g.table.dependants
      ensures multiset(g.table.dependants[a])[b] == Edges(names, Bare(n), a, b)
    {
    }
  }

  function Position(names: seq<Name>, name: Name): (j: Option<nat>)
    ensures j.Some? <==> name in names
    ensures j.Some? ==> j.value < |names| && names[j.value] == name
  {
    if names == [] then None
    else if names[|names| - 1] == name then Some(|names| - 1)
    else Position(names[..|names| - 1], name)
  }

  /** The ends and starts of the first `n` tasks, as they are put in. */
  function AnchorList(n: nat): seq<Node> {
    if n == 0 then [] else AnchorList(n - 1) + [End(n - 1), Start(n - 1)]
  }

  function ActionList(i: nat, n: nat): (list: seq<Node>)
    ensures |list| == n
  {
    seq(n, k requires 0 <= k => Act(i, k))
  }

  /** The actions of the tasks, one task after the other. */
  function ActionLists(tasks: seq<Task>): seq<Node> {
    if tasks == [] then []
    else ActionLists(tasks[..|tasks| - 1]) + ActionList(|tasks| - 1, tasks[|tasks| - 1].actions)
  }

  lemma NoActions(tasks: seq<Task>)
    ensures AnchorList(|tasks|) + ActionLists(tasks[..0]) == AnchorList(|tasks|)
  {
  }

  lemma NextActions(tasks: seq<Task>, i: nat)
    requires i < |tasks|
    ensures AnchorList(|tasks|) + ActionLists(tasks[..i]) + ActionList(i, tasks[i].actions)
         == AnchorList(|tasks|) + ActionLists(tasks[..i + 1])
  {
    assert tasks[..i + 1][..i] == tasks[..i];
  }

  lemma DelayedExactly(tasks: seq<Task>, g: Graph)
    requires Graphs(tasks, Wired(tasks), g)
    ensures forall n :: n in g.delayed <==>
              exists i: nat, k: nat :: n == Act(i, k) && i < |tasks| && 0 < k < tasks[i].actions && tasks[i].delay
  {
  }

  lemma NextAction(order: seq<Node>, i: nat, k: nat)
    ensures order + ActionList(i, 0) == order
    ensures order + ActionList(i, k) + [Act(i, k)] == order + ActionList(i, k + 1)
  {
  }

  /** The nodes of a task's start and end. */
  method Anchors(tasks: seq<Task>) returns (g: Graph)
    ensures Graphs(tasks, Bare(|tasks|), g) && g.order == AnchorList(|tasks|)
  {
    g := Graph(Table(map[Done := |tasks|], map[Done := []]), [], {});
    for i := 0 to |tasks|
      invariant Anchored(i, g) && g.table.waiting[Done] == |tasks| && g.order == AnchorList(i)
    {
      g := WithAnchors(i, g);
    }
    AnchoredGraphs(tasks, g);
  }

  /** The anchors of one task. */
  method WithAnchors(i: nat, g: Graph) returns (h: Graph)
    requires Anchored(i, g)
    ensures Anchored(i + 1, h) && h.table.waiting[Done] == g.table.waiting[Done]
    ensures h.order == g.order + [End(i), Start(i)]
  {
    var Table(waiting, dependants) := g.table;
    waiting, dependants := waiting[End(i) := 1], dependants[End(i) := [Done]];
    waiting, dependants := waiting[Start(i) := 0], dependants[Start(i) := [End(i)]];
    h := Graph(Table(waiting, dependants), g.order + [End(i), Start(i)], g.delayed);
    NextAnchors(i);
    NextListed(i, g.order);
  }

  /** A table with another wiring of the same nodes. */
  lemma Rewired(tasks: seq<Task>, wired: seq<Wiring>, more: seq<Wiring>, g: Graph, t: Table)
    requires Graphs(tasks, wired, g) && Wires(Names(tasks), more, t)
    requires forall n :: IsNode(wired, n) <==> IsNode(more, n)
    ensures Graphs(tasks, more, g.(table := t))
  {
    hide Wires;
  }

  lemma BeforeGraphs(tasks: seq<Task>, wired: seq<Wiring>, g: Graph, i: nat, x: nat, j: nat)
    requires i < |tasks| == |wired| && x < |tasks[i].before| && Distinct(Names(tasks))
    requires Graphs(tasks, wired[i := wired[i].(before := tasks[i].before[..x])], g)
    requires j < |tasks| && tasks[j].name == tasks[i].before[x]
    ensures Graphs(tasks, wired[i := wired[i].(before := tasks[i].before[..x + 1])],
                   g.(table := Linked(g.table, End(i), Start(j))))
  {
    var names, so := Names(tasks), wired[i := wired[i].(before := tasks[i].before[..x])];
    var more := wired[i := wired[i].(before := tasks[i].before[..x + 1])];
    assert more == so[i := so[i].(before := so[i].before + [names[j]])] by {
      assert tasks[i].before[..x + 1] == tasks[i].before[..x] + [names[j]];
    }
    hide Listed, DelayedIn, Counters, Dependants;
    BeforeWires(names, so, g.table, i, j);
    Rewired(tasks, so, more, g, Linked(g.table, End(i), Start(j)));
  }

  /** The loop over `before`; false if a name is unknown. */
  method WireBefore(tasks: seq<Task>, i: nat, g: Graph, ghost wired: seq<Wiring>) returns (known: bool, h: Graph)
    requires i < |tasks| && Distinct(Names(tasks)) && Graphs(tasks, wired, g) && wired[i].before == []
    ensures known <==> KnownIn(Names(tasks), tasks[i].before)
    ensures known ==> Graphs(tasks, wired[i := wired[i].(before := tasks[i].before)], h) && h.order == g.order
  {
    var names, before := Names(tasks), tasks[i].before;
    h := g;
    assert wired[i := wired[i].(before := before[..0])] == wired;
    for x := 0 to |before|
      invariant KnownIn(names, before[..x])
      invariant Graphs(tasks, wired[i := wired[i].(before := before[..x])], h) && h.order == g.order
    {
      var j := Position(names, before[x]);
      if j.None? {
        return false, h;
      }
      BeforeGraphs(tasks, wired, h, i, x, j.value);
      h := h.(table := Linked(h.table, End(i), Start(j.value)));
    }
    assert before[..|before|] == before;
    known := true;
  }

  lemma AfterGraphs(tasks: seq<Task>, wired: seq<Wiring>, g: Graph, i: nat, x: nat, j: nat)
    requires i < |tasks| == |wired| && x < |tasks[i].after| && Distinct(Names(tasks))
    requires Graphs(tasks, wired[i := wired[i].(after := tasks[i].after[..x])], g)
    requires j < |tasks| && tasks[j].name == tasks[i].after[x]
    ensures Graphs(tasks, wired[i := wired[i].(after := tasks[i].after[..x + 1])],
                   g.(table := Linked(g.table, End(j), Start(i))))
  {
    var names, so := Names(tasks), wired[i := wired[i].(after := tasks[i].after[..x])];
    var more := wired[i := wired[i].(after := tasks[i].after[..x + 1])];
    assert more == so[i := so[i].(after := so[i].after + [names[j]])] by {
      assert tasks[i].after[..x + 1] == tasks[i].after[..x] + [names[j]];
    }
    hide Listed, DelayedIn, Counters, Dependants;
    AfterWires(names, so, g.table, i, j);
    Rewired(tasks, so, more, g, Linked(g.table, End(j), Start(i)));
  }

  /** The loop over `after`; false if a name is unknown. */
  method WireAfter(tasks: seq<Task>, i: nat, g: Graph, ghost wired: seq<Wiring>) returns (known: bool, h: Graph)
    requires i < |tasks| && Distinct(Names(tasks)) && Graphs(tasks, wired, g) && wired[i].after == []
    ensures known <==> KnownIn(Names(tasks), tasks[i].after)
    ensures known ==> Graphs(tasks, wired[i := wired[i].(after := tasks[i].after)], h) && h.order == g.order
  {
    var names, after := Names(tasks), tasks[i].after;
    h := g;
    assert wired[i := wired[i].(after := after[..0])] == wired;
    for x := 0 to |after|
      invariant KnownIn(names, after[..x])
      invariant Graphs(tasks, wired[i := wired[i].(after := after[..x])], h) && h.order == g.order
    {
      var j := Position(names, after[x]);
      if j.None? {
        return false, h;
      }
      AfterGraphs(tasks, wired, h, i, x, j.value);
      h := h.(table := Linked(h.table, End(j.value), Start(i)));
    }
    assert after[..|after|] == after;
    known := true;
  }

  /** The loop over the actions, each after the one before it, and the end after the last. */
  method WireActions(tasks: seq<Task>, i: nat, g: Graph, ghost wired: seq<Wiring>) returns (h: Graph)
    requires i < |tasks| && Graphs(tasks, wired, g) && wired[i].actions == 0 && !wired[i].closed
    ensures var n := tasks[i].actions; Graphs(tasks, wired[i := wired[i].(actions := n, closed := n > 0)], h)
    ensures h.order == g.order + ActionList(i, tasks[i].actions)
  {
    hide ActionList, Listed, DelayedIn, Counters, Dependants;
    var n := tasks[i].actions;
    h := g;
    var previous := Start(i);
    NextAction(g.order, i, 0);
    assert wired[i := wired[i].(actions := 0)] == wired;
    for k := 0 to n
      invariant previous == Previous(i, k)
      invariant Graphs(tasks, wired[i := wired[i].(actions := k)], h) && h.order == g.order + ActionList(i, k)
    {
      h := WithAction(tasks, i, k, h, wired[i := wired[i].(actions := k)]);
      assert wired[i := wired[i].(actions := k)][i := wired[i].(actions := k + 1)]
          == wired[i := wired[i].(actions := k + 1)];
      NextAction(g.order, i, k);
      previous := Act(i, k);
    }
    if previous != Start(i) {
      ghost var so := wired[i := wired[i].(actions := n)];
      CloseGraphs(tasks, so, h, i);
      h := h.(table := Linked(h.table, previous, End(i)));
      assert so[i := so[i].(closed := true)] == wired[i := wired[i].(actions := n, closed := true)];
    }
  }

  lemma CloseGraphs(tasks: seq<Task>, wired: seq<Wiring>, g: Graph, i: nat)
    requires Graphs(tasks, wired, g) && i < |tasks| == |wired| && !wired[i].closed && wired[i].actions > 0
    ensures var last := Previous(i, wired[i].actions);
            && last in g.table.dependants && End(i) in g.table.waiting
            && Graphs(tasks, wired[i := wired[i].(closed := true)], g.(table := Linked(g.table, last, End(i))))
  {
    hide Listed, DelayedIn;
    var last := Previous(i, wired[i].actions);
    CloseWires(Names(tasks), wired, g.table, i);
    Rewired(tasks, wired, wired[i := wired[i].(closed := true)], g, Linked(g.table, last, End(i)));
  }

  lemma ActionListed(wired: seq<Wiring>, order: seq<Node>, i: nat, k: nat)
    requires i < |wired| && Listed(wired, order) && wired[i].actions == k
    ensures Listed(wired[i := wired[i].(actions := k + 1)], order + [Act(i, k)])
  {
    assert Act(i, k) !in order;
    assert forall m :: m in order + [Act(i, k)] <==> m in order || m == Act(i, k);
  }

  lemma ActionDelayed(tasks: seq<Task>, wired: seq<Wiring>, delayed: set<Node>, i: nat, k: nat)
    requires i < |tasks| == |wired| && DelayedIn(tasks, wired, delayed) && wired[i].actions == k
    ensures DelayedIn(tasks, wired[i := wired[i].(actions := k + 1)],
                      if k > 0 && tasks[i].delay then delayed + {Act(i, k)} else delayed)
  {
  }

  method WithAction(tasks: seq<Task>, i: nat, k: nat, g: Graph, ghost wired: seq<Wiring>) returns (h: Graph)
    requires i < |tasks| && Graphs(tasks, wired, g) && wired[i].actions == k && !wired[i].closed
    ensures Graphs(tasks, wired[i := wired[i].(actions := k + 1)], h) && h.order == g.order + [Act(i, k)]
  {
    hide Listed, DelayedIn;
    ActionWires(Names(tasks), wired, g.table, i);
    ActionListed(wired, g.order, i, k);
    ActionDelayed(tasks, wired, g.delayed, i, k);
    h := Graph(Extended(g.table, Previous(i, k), Act(i, k)), g.order + [Act(i, k)],
               if k > 0 && tasks[i].delay then g.delayed + {Act(i, k)} else g.delayed);
  }

  /** The tasks before `i` wired up, the others not. */
  function WiredUpTo(tasks: seq<Task>, i: nat): (wired: seq<Wiring>)
    requires i <= |tasks|
    ensures |wired| == |tasks|
  {
    Wired(tasks)[..i] + Bare(|tasks| - i)
  }

  /** Ends and starts come before all actions, by tasks; a task's end before its start, its actions in their order. */
  predicate PutBefore(a: Node, b: Node) {
    match (a, b)
    case (Start(i), Start(j)) => i < j
    case (Start(i), End(j)) => i < j
    case (End(i), Start(j)) => i <= j
    case (End(i), End(j)) => i < j
    case (Act(i, k), Act(j, l)) => i < j || (i == j && k < l)
    case (Act(_, _), _) => false
    case (_, Act(_, _)) => true
    case _ => false
  }

  /** Nodes are put in in this order. */
  predicate PutInOrder(order: seq<Node>) {
    forall x, y :: 0 <= x < y < |order| ==> PutBefore(order[x], order[y])
  }

  lemma {:induction false} AnchorsInOrder(n: nat)
    ensures PutInOrder(AnchorList(n))
    ensures forall m :: m in AnchorList(n) ==> (m.Start? || m.End?) && m.task < n
  {
    if n > 0 {
      AnchorsInOrder(n - 1);
    }
  }

  lemma {:induction false} ActionsInOrder(tasks: seq<Task>)
    ensures PutInOrder(ActionLists(tasks))
    ensures forall m :: m in ActionLists(tasks) ==> m.Act? && m.task < |tasks|
  {
    if tasks != [] {
      ActionsInOrder(tasks[..|tasks| - 1]);
    }
  }

  /** All that is queued is queued in this order. */
  lemma QueuedInOrder(tasks: seq<Task>)
    ensures PutInOrder(AnchorList(|tasks|) + ActionLists(tasks))
  {
    AnchorsInOrder(|tasks|);
    ActionsInOrder(tasks);
    InOrderJoin(AnchorList(|tasks|), ActionLists(tasks));
  }

  lemma InOrderJoin(a: seq<Node>, b: seq<Node>)
    requires PutInOrder(a) && PutInOrder(b) && forall m, n :: m in a && n in b ==> PutBefore(m, n)
    ensures PutInOrder(a + b)
  {
  }

  /**
   * The whole graph, or nothing where a name in `before` or `after` is that of no task. The end of everything is not
   * among what is queued.
   */
  method PlayInAction(tasks: seq<Task>) returns (graph: Option<Graph>)
    requires Distinct(Names(tasks))
    ensures graph.Some? <==> Known(tasks)
    ensures graph.Some? ==> Graphs(tasks, Wired(tasks), graph.value)
    ensures graph.Some? ==> graph.value.order == AnchorList(|tasks|) + ActionLists(tasks)
    ensures graph.Some? ==> forall n :: n in graph.value.delayed <==>
              exists i: nat, k: nat :: n == Act(i, k) && i < |tasks| && 0 < k < tasks[i].actions && tasks[i].delay
  {
    hide Graphs, ActionLists, ActionList, AnchorList;
    var g := Anchors(tasks);
    assert WiredUpTo(tasks, 0) == Bare(|tasks|);
    NoActions(tasks);
    for i := 0 to |tasks|
      invariant Graphs(tasks, WiredUpTo(tasks, i), g)
      invariant g.order == AnchorList(|tasks|) + ActionLists(tasks[..i])
      invariant forall j :: 0 <= j < i ==> KnownIn(Names(tasks), tasks[j].before) && KnownIn(Names(tasks), tasks[j].after)
    {
      var known;
      ghost var wired := WiredUpTo(tasks, i);
      known, g := WireBefore(tasks, i, g, wired);
      if !known {
        return None;
      }
      wired := wired[i := wired[i].(before := tasks[i].before)];
      known, g := WireAfter(tasks, i, g, wired);
      if !known {
        return None;
      }
      wired := wired[i := wired[i].(after := tasks[i].after)];
      g := WireActions(tasks, i, g, wired);
      wired := wired[i := wired[i].(actions := tasks[i].actions, closed := tasks[i].actions > 0)];
      assert wired == WiredUpTo(tasks, i + 1);
      NextActions(tasks, i);
    }
    assert tasks[..|tasks|] == tasks;
    assert WiredUpTo(tasks, |tasks|) == Wired(tasks);
    DelayedExactly(tasks, g);
    return Some(g);
  }
}
