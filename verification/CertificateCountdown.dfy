/** The countdown of a worker, over the runs of the checker: which result is marked the last, and what it brings. */
module CertificateCountdown {
  import opened HostOrder
  import opened Network
  import opened CertificateStore
  import opened CertificateRuns

  /** The event is a result of this worker. */
  predicate IsResult(s: System, e: Event, id: nat) {
    Enabled(s, e) && e.Checked? && s.workers[e.worker].id == id
  }

  function ResultOf(s: System, e: Event): Endpoint
    requires Enabled(s, e) && e.Checked?
  {
    s.workers[e.worker].open[e.index]
  }

  /** The endpoints a worker has reported on in a run. */
  function Reported(blocks: seq<Block>, events: seq<Event>, id: nat): multiset<Endpoint>
    decreases |events|
  {
    if events == [] then multiset{}
    else
      var before, e := events[..|events| - 1], events[|events| - 1];
      var s := Run(INITIAL, blocks, before);
      Reported(blocks, before, id) + if IsResult(s, e, id) then multiset{ResultOf(s, e)} else multiset{}
  }

  /** Workers are told apart by their numbers, which say where they were made. */
  predicate Numbered(s: System) {
    && (forall k :: 0 <= k < |s.made| ==> s.made[k].id == k)
    && (forall w :: 0 <= w < |s.workers| ==>
          s.workers[w].id < |s.made| && s.made[s.workers[w].id].host == s.workers[w].host)
    && (forall v, w :: 0 <= v < w < |s.workers| ==> s.workers[v].id != s.workers[w].id)
  }

  /** The worker has endpoints left. */
  predicate AtWork(s: System, id: nat) {
    exists w :: 0 <= w < |s.workers| && s.workers[w].id == id
  }

  /** What was reported and what is left make up what the worker was made with. */
  predicate Tallied(s: System, id: nat, reported: multiset<Endpoint>) {
    if id >= |s.made| then reported == multiset{}
    else
      && (forall w :: 0 <= w < |s.workers| && s.workers[w].id == id ==>
            reported + multiset(s.workers[w].open) == multiset(s.made[id].open))
      && (!AtWork(s, id) ==> reported == multiset(s.made[id].open))
  }

  lemma NumberedChecking(s: System, host: Host, endpoints: seq<Endpoint>)
    requires Numbered(s)
    ensures Numbered(Checking(s, host, endpoints))
  {
  }

  lemma NumberedChecked(s: System, w: nat, i: nat, ok: bool)
    requires Numbered(s) && w < |s.workers| && i < |s.workers[w].open|
    ensures Numbered(OnChecked(s, w, i, ok))
  {
    hide Report;
  }

  lemma TalliedChecking(s: System, host: Host, endpoints: seq<Endpoint>, id: nat, reported: multiset<Endpoint>)
    requires Numbered(s) && Tallied(s, id, reported)
    ensures Tallied(Checking(s, host, endpoints), id, reported)
  {
    var t, n := Checking(s, host, endpoints), |s.workers|;
    assert forall w :: 0 <= w < n ==> t.workers[w] == s.workers[w];
    assert t.workers[n].id == |s.made|;
    if AtWork(s, id) {
      assert AtWork(t, id);
    }
  }

  lemma WithoutOne(open: seq<Endpoint>, i: nat)
    requires i < |open|
    ensures multiset(open[..i] + open[i + 1..]) + multiset{open[i]} == multiset(open)
  {
    assert open == open[..i] + [open[i]] + open[i + 1..];
  }

  lemma TalliedOwn(s: System, w: nat, i: nat, ok: bool, reported: multiset<Endpoint>)
    requires Numbered(s) && w < |s.workers| && i < |s.workers[w].open|
    requires Tallied(s, s.workers[w].id, reported)
    ensures Tallied(OnChecked(s, w, i, ok), s.workers[w].id, reported + multiset{s.workers[w].open[i]})
  {
    hide Report;
    WithoutOne(s.workers[w].open, i);
    var t, id := OnChecked(s, w, i, ok), s.workers[w].id;
    if |t.workers| == |s.workers| {
      assert t.workers[w].id == id;
    }
  }

  lemma TalliedOther(s: System, w: nat, i: nat, ok: bool, id: nat, reported: multiset<Endpoint>)
    requires Numbered(s) && w < |s.workers| && i < |s.workers[w].open| && id != s.workers[w].id
    requires Tallied(s, id, reported)
    ensures Tallied(OnChecked(s, w, i, ok), id, reported)
  {
    hide Report;
    var t := OnChecked(s, w, i, ok);
    if AtWork(s, id) {
      var v :| 0 <= v < |s.workers| && s.workers[v].id == id;
      assert t.workers[if |t.workers| == |s.workers| || v < w then v else v - 1] == s.workers[v];
    }
  }

  /** The workers are as they were. */
  lemma TalliedStill(s: System, t: System, id: nat, reported: multiset<Endpoint>)
    requires t.workers == s.workers && t.made == s.made
    ensures Numbered(s) ==> Numbered(t)
    ensures Tallied(s, id, reported) ==> Tallied(t, id, reported)
  {
  }

  lemma NumberedStep(s: System, blocks: seq<Block>, e: Event)
    requires Numbered(s)
    ensures Numbered(Next(s, blocks, e))
  {
    if Enabled(s, e) && e.Checked? {
      NumberedChecked(s, e.worker, e.index, e.ok);
    } else if Enabled(s, e) && e.CallBack? {
      NumberedResolved(CalledBack(s, e.name, e.again), blocks, e.name, e.outcome);
    } else {
      TalliedStill(s, Next(s, blocks, e), 0, multiset{});
    }
  }

  lemma NumberedResolved(s: System, blocks: seq<Block>, host: Host, outcome: Outcome)
    requires Numbered(s)
    ensures Numbered(OnResolved(s, blocks, host, outcome))
  {
    hide Report, Kept;
    var next := FollowUpOf(blocks, host, outcome);
    if next.CheckAll? {
      NumberedChecking(s, host, next.endpoints);
    }
  }

  lemma TalliedResolved(
      s: System, blocks: seq<Block>, host: Host, outcome: Outcome, id: nat, reported: multiset<Endpoint>)
    requires Numbered(s) && Tallied(s, id, reported)
    ensures Tallied(OnResolved(s, blocks, host, outcome), id, reported)
  {
    hide Report, Kept, Tallied;
    var next := FollowUpOf(blocks, host, outcome);
    if next.CheckAll? {
      TalliedChecking(s, host, next.endpoints, id, reported);
    } else {
      TalliedStill(s, OnResolved(s, blocks, host, outcome), id, reported);
    }
  }

  lemma TalliedStep(s: System, blocks: seq<Block>, e: Event, id: nat, reported: multiset<Endpoint>)
    requires Numbered(s) && Tallied(s, id, reported)
    ensures Tallied(Next(s, blocks, e), id,
                    reported + if IsResult(s, e, id) then multiset{ResultOf(s, e)} else multiset{})
  {
    hide Tallied, Numbered, Report, OnChecked, OnResolved, Request;
    assert reported + multiset{} == reported;
    if Enabled(s, e) && e.Checked? {
      if IsResult(s, e, id) {
        TalliedOwn(s, e.worker, e.index, e.ok, reported);
      } else {
        TalliedOther(s, e.worker, e.index, e.ok, id, reported);
      }
    } else if Enabled(s, e) && e.CallBack? {
      var called := CalledBack(s, e.name, e.again);
      TalliedStill(s, called, id, reported);
      TalliedResolved(called, blocks, e.name, e.outcome, id, reported);
    } else {
      TalliedStill(s, Next(s, blocks, e), id, reported);
    }
  }

  lemma {:induction false} RunTallied(blocks: seq<Block>, events: seq<Event>, id: nat)
    ensures Numbered(Run(INITIAL, blocks, events))
    ensures Tallied(Run(INITIAL, blocks, events), id, Reported(blocks, events, id))
    decreases |events|
  {
    if events != [] {
      hide Tallied, Numbered, IsResult, Next;
      var before, e := events[..|events| - 1], events[|events| - 1];
      RunTallied(blocks, before, id);
      NumberedStep(Run(INITIAL, blocks, before), blocks, e);
      TalliedStep(Run(INITIAL, blocks, before), blocks, e, id, Reported(blocks, before, id));
    }
  }

  // ---- main results, for every run

  /**
   * A worker reports on each endpoint it was made with once. It is at work exactly as long as it has reported fewer
   * results than it was made with endpoints.
   */
  lemma EachEndpointOnce(blocks: seq<Block>, events: seq<Event>, id: nat)
    requires id < |Run(INITIAL, blocks, events).made|
    ensures var s, reported := Run(INITIAL, blocks, events), Reported(blocks, events, id);
            && reported <= multiset(s.made[id].open)
            && (AtWork(s, id) <==> |reported| < |s.made[id].open|)
            && (!AtWork(s, id) <==> reported == multiset(s.made[id].open))
  {
    RunTallied(blocks, events, id);
    RunKeeps(INITIAL, blocks, events);
    hide Run, Reported, Sound;
    var s, reported := Run(INITIAL, blocks, events), Reported(blocks, events, id);
    if AtWork(s, id) {
      var w :| 0 <= w < |s.workers| && s.workers[w].id == id;
      assert reported + multiset(s.workers[w].open) == multiset(s.made[id].open);
    }
  }

  /** The result is marked the last of its worker. */
  predicate MarkedLast(s: System, e: Event)
    requires Enabled(s, e) && e.Checked?
  {
    s.workers[e.worker].countdown - 1 == 0
  }

  /** Of the results of a worker made with n endpoints exactly the n-th is marked the last. */
  lemma LastExactly(blocks: seq<Block>, events: seq<Event>, e: Event, id: nat)
    requires IsResult(Run(INITIAL, blocks, events), e, id)
    ensures var s := Run(INITIAL, blocks, events);
            && id < |s.made|
            && (MarkedLast(s, e) <==> |Reported(blocks, events + [e], id)| == |s.made[id].open|)
  {
    hide Run, Reported, Sound, Numbered, Attended, IsResult, MarkedLast;
    RunTallied(blocks, events, id);
    RunKeeps(INITIAL, blocks, events);
    ReportedMore(blocks, events, e, id);
    CountdownIsLeft(Run(INITIAL, blocks, events), e, id, Reported(blocks, events, id));
  }

  lemma ReportedMore(blocks: seq<Block>, events: seq<Event>, e: Event, id: nat)
    requires IsResult(Run(INITIAL, blocks, events), e, id)
    ensures Reported(blocks, events + [e], id)
         == Reported(blocks, events, id) + multiset{ResultOf(Run(INITIAL, blocks, events), e)}
  {
    hide Run, IsResult;
    assert (events + [e])[..|events|] == events;
  }

  lemma CountdownIsLeft(s: System, e: Event, id: nat, reported: multiset<Endpoint>)
    requires Numbered(s) && Attended(s, {}) && Tallied(s, id, reported) && IsResult(s, e, id)
    ensures id < |s.made| && (MarkedLast(s, e) <==> |reported| + 1 == |s.made[id].open|)
  {
    var open := s.workers[e.worker].open;
    assert reported + multiset(open) == multiset(s.made[id].open);
    assert |multiset(open)| == |open| && |multiset(s.made[id].open)| == |s.made[id].open|;
  }

  /**
   * With a worker's last result, or a good one, every handler that has asked for its host by then has been called:
   * those that waited when the worker was made, and those that joined them.
   */
  lemma ResultCallsAll(blocks: seq<Block>, events: seq<Event>, e: Event, handler: Handler)
    requires Enabled(Run(INITIAL, blocks, events), e) && e.Checked?
    requires e.ok || MarkedLast(Run(INITIAL, blocks, events), e)
    requires var s := Run(INITIAL, blocks, events);
             handler < |s.hosts| && s.hosts[handler] == s.workers[e.worker].host
    ensures IsCalled(Next(Run(INITIAL, blocks, events), blocks, e).store.calls, handler)
  {
    RunKeeps(INITIAL, blocks, events);
    hide Run, Reported;
    var s := Run(INITIAL, blocks, events);
    var t := Next(s, blocks, e);
    NextKeeps(s, blocks, e);
    assert t.hosts == s.hosts && s.workers[e.worker].host !in t.store.pending;
  }
}
