/** Rounds of dispatching and reporting: when a DAG can be finished, and how soon. */
module Convergence {
  import opened DagTypes
  import opened Graph
  import opened Validator
  import opened Text
  import opened Mutations
  import opened Scheduling

  predicate Converged(dag: DagData) {
    |dag.nodes| != 0 && forall i :: 0 <= i < |dag.nodes| ==> IsTerminal(dag.nodes[i].status)
  }

  /** A live agent owns the node, so that the manager takes its reports. */
  ghost predicate HasLiveOwner(n: DagNode, active: set<string>) {
    exists a :: a in active && OwnerMayUpdate(n, a)
  }

  /** Nothing keeps this node by itself from finishing: whatever its status, a live owner can report it done, and
      otherwise it must be pending and get an agent once its predecessors have finished. */
  ghost predicate NodeCanFinish(dag: DagData, active: set<string>, i: nat)
    requires i < |dag.nodes|
  {
    var n := dag.nodes[i];
    || IsTerminal(n.status)
    || HasLiveOwner(n, active)
    || (n.status == STATUS_PENDING && AgentFor(n.domainID) in active && PredecessorsExist(dag, n.id))
  }

  /** The names of the pending nodes that no live agent owns. */
  ghost function Unowned(nodes: seq<DagNode>, active: set<string>): set<string> {
    set i | 0 <= i < |nodes| && nodes[i].status == STATUS_PENDING && !HasLiveOwner(nodes[i], active) :: nodes[i].id
  }

  /** A DAG that dispatching and reporting can finish. */
  ghost predicate CanFinish(dag: DagData, active: set<string>) {
    && dag.nodes != []
    && Acyclic(Unowned(dag.nodes, active), dag.edges)
    && (forall i :: 0 <= i < |dag.nodes| ==> NodeCanFinish(dag, active, i))
  }

  /** An agent's report on a node. */
  datatype Report = Report(id: string, agentID: string, status: NodeStatus, metrics: Option<NodeMetrics>, times: Times)

  function ReportCommand(r: Report): Command {
    UpdateNode(r.id, r.agentID, r.status, r.metrics, true)
  }

  /** A live agent reports, whatever it reports, and the manager accepts the report. */
  ghost predicate ReportFits(dag: DagData, active: set<string>, r: Report) {
    Accepts(dag, ReportCommand(r)) && r.agentID in active
  }

  function Reported(dag: DagData, r: Report): DagData {
    LiveEffect(dag, ReportCommand(r), 0, r.times)
  }

  ghost predicate AllFit(dag: DagData, active: set<string>, reports: seq<Report>)
    decreases |reports|
  {
    reports == [] || (ReportFits(dag, active, reports[0]) && AllFit(Reported(dag, reports[0]), active, reports[1..]))
  }

  function AfterReports(dag: DagData, reports: seq<Report>): DagData
    decreases |reports|
  {
    if reports == [] then dag else AfterReports(Reported(dag, reports[0]), reports[1..])
  }

  /** A round: one dispatch pass, then any number of accepted reports. */
  datatype Round = Round(clock: nat -> Times, reports: seq<Report>)

  ghost predicate RoundFits(dag: DagData, active: set<string>, r: Round) {
    AllFit(Dispatched(dag, active, r.clock), active, r.reports)
  }

  function AfterRound(dag: DagData, active: set<string>, r: Round): DagData {
    AfterReports(Dispatched(dag, active, r.clock), r.reports)
  }

  ghost predicate AllRoundsFit(dag: DagData, active: set<string>, rounds: seq<Round>)
    decreases |rounds|
  {
    rounds == []
        || (RoundFits(dag, active, rounds[0]) && AllRoundsFit(AfterRound(dag, active, rounds[0]), active, rounds[1..]))
  }

  function AfterRounds(dag: DagData, active: set<string>, rounds: seq<Round>): DagData
    decreases |rounds|
  {
    if rounds == [] then dag else AfterRounds(AfterRound(dag, active, rounds[0]), active, rounds[1..])
  }

  /** The run of rounds fits and ends converged. */
  ghost predicate Finishes(dag: DagData, active: set<string>, rounds: seq<Round>) {
    AllRoundsFit(dag, active, rounds) && Converged(AfterRounds(dag, active, rounds))
  }

  /** The report turns an unfinished node into a Done or Failed one. */
  predicate Completes(dag: DagData, r: Report) {
    var f := FirstIndex(dag.nodes, r.id);
    f < |dag.nodes| && !IsTerminal(dag.nodes[f].status) && IsTerminal(r.status)
  }

  /** The report takes a finished node up again. */
  predicate Revives(dag: DagData, r: Report) {
    var f := FirstIndex(dag.nodes, r.id);
    f < |dag.nodes| && IsTerminal(dag.nodes[f].status) && !IsTerminal(r.status)
  }

  predicate NoneRevives(dag: DagData, reports: seq<Report>)
    decreases |reports|
  {
    reports == [] || (!Revives(dag, reports[0]) && NoneRevives(Reported(dag, reports[0]), reports[1..]))
  }

  function Completions(dag: DagData, reports: seq<Report>): nat
    decreases |reports|
  {
    if reports == [] then 0
    else (if Completes(dag, reports[0]) then 1 else 0) + Completions(Reported(dag, reports[0]), reports[1..])
  }

  /** Some report of the round completes a node, and none takes one up again. */
  ghost predicate Productive(dag: DagData, active: set<string>, r: Round) {
    var d := Dispatched(dag, active, r.clock);
    RoundFits(dag, active, r) && NoneRevives(d, r.reports) && Completions(d, r.reports) > 0
  }

  ghost predicate AllProductive(dag: DagData, active: set<string>, rounds: seq<Round>)
    decreases |rounds|
  {
    rounds == []
        || (Productive(dag, active, rounds[0])
            && AllProductive(AfterRound(dag, active, rounds[0]), active, rounds[1..]))
  }

  // ---------- what dispatching and reporting keep ----------

  /** The same names in the same places, and the same edges. */
  ghost predicate SamePlan(a: DagData, b: DagData) {
    && |a.nodes| == |b.nodes| && a.edges == b.edges
    && (forall i :: 0 <= i < |a.nodes| ==> a.nodes[i].id == b.nodes[i].id)
  }

  lemma SamePlanSameNames(a: DagData, b: DagData)
    requires SamePlan(a, b)
    ensures Ids(a.nodes) == Ids(b.nodes) && (UniqueIds(a.nodes) <==> UniqueIds(b.nodes))
        && (a.nodes == [] <==> b.nodes == [])
    ensures forall id :: PredecessorsExist(a, id) <==> PredecessorsExist(b, id)
  {
    assert forall i :: 0 <= i < |a.nodes| ==> a.nodes[i].id == b.nodes[i].id;
  }

  lemma {:induction false} CountActiveSameTerminality(a: seq<DagNode>, b: seq<DagNode>)
    requires |a| == |b|
    requires forall i :: 0 <= i < |a| ==> (IsTerminal(a[i].status) <==> IsTerminal(b[i].status))
    ensures CountActive(a) == CountActive(b)
  {
    if a != [] {
      CountActiveSameTerminality(a[..|a| - 1], b[..|b| - 1]);
    }
  }

  /** An agent name is never blank. */
  lemma AgentOwnsItsNode(n: DagNode)
    requires n.assignedAgent == AgentFor(n.domainID)
    ensures OwnerMayUpdate(n, AgentFor(n.domainID))
  {
    var s := AgentFor(n.domainID);
    assert s[0] == 'a' && !IsSpace(s[0]);
    TrimKeepsStart(s);
  }

  /** The nodes that dispatching starts wait for no pending node. */
  lemma ReadyWaitsForNothing(dag: DagData, i: nat, u: string)
    requires UniqueIds(dag.nodes) && i < |dag.nodes| && IsReady(dag, dag.nodes[i]) && u in Waiting(dag.nodes)
    ensures !HasEdge(dag.edges, u, dag.nodes[i].id)
  {
    ReadyPositionsComplete(dag, |dag.nodes|, i);
    ReadyMeaning(dag, i);
    var k :| 0 <= k < |dag.nodes| && dag.nodes[k].id == u && dag.nodes[k].status == STATUS_PENDING;
    assert forall j :: 0 <= j < |dag.nodes| && dag.nodes[j].id == u ==> j == k;
    assert !FinishedNode(dag.nodes, u);
  }

  /** Dispatching keeps the unowned pending nodes acyclic, and cannot make them so. */
  lemma DispatchKeepsUnownedAcyclic(dag: DagData, active: set<string>, clock: nat -> Times)
    requires UniqueIds(dag.nodes)
    ensures Acyclic(Unowned(dag.nodes, active), dag.edges) <==>
        Acyclic(Unowned(Dispatched(dag, active, clock).nodes, active), dag.edges)
  {
    hide Dispatched, IsReady, BusyAgents, AgentFor, Sooner, Acyclic, HasLiveOwner;
    DispatchStartsChosen(dag, active, clock);
    var after := Dispatched(dag, active, clock);
    var before, left := Unowned(dag.nodes, active), Unowned(after.nodes, active);
    forall x | x in left ensures x in before {
      var i :| 0 <= i < |dag.nodes| && after.nodes[i].status == STATUS_PENDING && after.nodes[i].id == x
          && !HasLiveOwner(after.nodes[i], active);
      assert !Chosen(dag, active, i);
    }
    var started := before - left;
    forall u, x | u in left + started && x in started ensures !HasEdge(dag.edges, u, x) {
      var i :| 0 <= i < |dag.nodes| && dag.nodes[i].status == STATUS_PENDING && dag.nodes[i].id == x
          && !HasLiveOwner(dag.nodes[i], active);
      assert Chosen(dag, active, i) by {
        assert after.nodes[i].id == x;
      }
      assert u in before;
      ReadyWaitsForNothing(dag, i, u);
    }
    assert left + started == before;
    if Acyclic(before, dag.edges) {
      AcyclicAntitone(before, dag.edges, left, dag.edges);
    }
    if Acyclic(left, dag.edges) {
      AcyclicWithSources(left, dag.edges, started);
    }
  }

  lemma DispatchKeepsPlan(dag: DagData, active: set<string>, clock: nat -> Times)
    requires UniqueIds(dag.nodes)
    ensures SamePlan(dag, Dispatched(dag, active, clock))
    ensures CountActive(Dispatched(dag, active, clock).nodes) == CountActive(dag.nodes)
  {
    DispatchStartsChosen(dag, active, clock);
    CountActiveSameTerminality(dag.nodes, Dispatched(dag, active, clock).nodes);
  }

  lemma StartedIsOwned(n: DagNode, active: set<string>)
    requires n.assignedAgent == AgentFor(n.domainID) && n.assignedAgent in active
    ensures HasLiveOwner(n, active)
  {
    AgentOwnsItsNode(n);
  }

  lemma StartedCanFinish(dag: DagData, after: DagData, active: set<string>, i: nat)
    requires UniqueIds(dag.nodes) && SamePlan(dag, after) && i < |dag.nodes|
    requires Chosen(dag, active, i) && IsStarted(dag.nodes[i], after.nodes[i])
    ensures NodeCanFinish(dag, active, i) && NodeCanFinish(after, active, i)
  {
    StartedIsOwned(after.nodes[i], active);
    ReadyPositionsComplete(dag, |dag.nodes|, i);
    ReadyMeaning(dag, i);
    forall u | HasEdge(dag.edges, u, dag.nodes[i].id) ensures u in Ids(dag.nodes) {
      var j :| 0 <= j < |dag.nodes| && dag.nodes[j].id == u && IsTerminal(dag.nodes[j].status);
    }
  }

  lemma SameNodeCanFinish(a: DagData, b: DagData, active: set<string>, i: nat)
    requires SamePlan(a, b) && i < |a.nodes| && a.nodes[i] == b.nodes[i]
    ensures NodeCanFinish(a, active, i) <==> NodeCanFinish(b, active, i)
  {
    SamePlanSameNames(a, b);
  }

  /** A dispatch pass neither makes nor breaks the ability to finish. */
  lemma DispatchKeepsCanFinish(dag: DagData, active: set<string>, clock: nat -> Times)
    requires UniqueIds(dag.nodes)
    ensures CanFinish(dag, active) <==> CanFinish(Dispatched(dag, active, clock), active)
  {
    hide Dispatched, Unowned, Acyclic, Chosen, IsStarted, NodeCanFinish;
    var after := Dispatched(dag, active, clock);
    DispatchStartsChosen(dag, active, clock);
    DispatchKeepsPlan(dag, active, clock);
    DispatchKeepsUnownedAcyclic(dag, active, clock);
    forall i | 0 <= i < |dag.nodes| ensures NodeCanFinish(dag, active, i) <==> NodeCanFinish(after, active, i) {
      if Chosen(dag, active, i) {
        StartedCanFinish(dag, after, active, i);
      } else {
        SameNodeCanFinish(dag, after, active, i);
      }
    }
  }

  /** An accepted report changes one node, which keeps its owner, and touches no other. */
  lemma ReportChangesOne(dag: DagData, active: set<string>, r: Report)
    requires ReportFits(dag, active, r)
    ensures SamePlan(dag, Reported(dag, r))
    ensures var f := FirstIndex(dag.nodes, r.id); var after := Reported(dag, r);
      && f < |dag.nodes| && HasLiveOwner(dag.nodes[f], active) && HasLiveOwner(after.nodes[f], active)
      && forall i :: 0 <= i < |dag.nodes| && i != f ==> after.nodes[i] == dag.nodes[i]
    ensures CountActive(Reported(dag, r).nodes)
         == CountActive(dag.nodes) - (if Completes(dag, r) then 1 else 0) + (if Revives(dag, r) then 1 else 0)
  {
    hide TrimSpace, CountActive;
    var f := FirstIndex(dag.nodes, r.id);
    var after := Reported(dag, r);
    assert OwnerMayUpdate(dag.nodes[f], r.agentID) && OwnerMayUpdate(after.nodes[f], r.agentID);
    CountActiveUpdate(dag.nodes, f, Changed(dag.nodes[f], Update(r.status, r.metrics, r.times.now)));
  }

  /** An accepted report, whatever its status, neither makes nor breaks the ability to finish. */
  lemma ReportKeepsCanFinish(dag: DagData, active: set<string>, r: Report)
    requires ReportFits(dag, active, r)
    ensures CanFinish(dag, active) <==> CanFinish(Reported(dag, r), active)
  {
    hide Reported, ReportFits, Acyclic, HasLiveOwner;
    ReportChangesOne(dag, active, r);
    var after := Reported(dag, r);
    var f := FirstIndex(dag.nodes, r.id);
    assert Unowned(dag.nodes, active) == Unowned(after.nodes, active) by {
      assert forall i :: 0 <= i < |dag.nodes| && i != f ==> dag.nodes[i] == after.nodes[i];
    }
    hide FirstIndex, Unowned;
    forall i | 0 <= i < |dag.nodes| ensures NodeCanFinish(dag, active, i) <==> NodeCanFinish(after, active, i) {
      if i != f {
        SameNodeCanFinish(dag, after, active, i);
      }
    }
  }

  lemma {:induction false} ReportsKeepCanFinish(dag: DagData, active: set<string>, reports: seq<Report>)
    requires AllFit(dag, active, reports)
    ensures SamePlan(dag, AfterReports(dag, reports))
    ensures CanFinish(dag, active) <==> CanFinish(AfterReports(dag, reports), active)
    decreases |reports|
  {
    hide ReportFits, Reported, CanFinish;
    if reports != [] {
      ReportChangesOne(dag, active, reports[0]);
      ReportKeepsCanFinish(dag, active, reports[0]);
      ReportsKeepCanFinish(Reported(dag, reports[0]), active, reports[1..]);
    }
  }

  lemma {:induction false} ReportsCount(dag: DagData, active: set<string>, reports: seq<Report>)
    requires AllFit(dag, active, reports) && NoneRevives(dag, reports)
    ensures CountActive(AfterReports(dag, reports).nodes) == CountActive(dag.nodes) - Completions(dag, reports)
    decreases |reports|
  {
    hide ReportFits, Reported, CountActive, Completes, Revives;
    if reports != [] {
      ReportChangesOne(dag, active, reports[0]);
      ReportsCount(Reported(dag, reports[0]), active, reports[1..]);
    }
  }

  /** A round of accepted reports neither makes nor breaks the ability to finish. */
  lemma RoundKeepsCanFinish(dag: DagData, active: set<string>, r: Round)
    requires UniqueIds(dag.nodes) && RoundFits(dag, active, r)
    ensures UniqueIds(AfterRound(dag, active, r).nodes) && |AfterRound(dag, active, r).nodes| == |dag.nodes|
    ensures CanFinish(dag, active) <==> CanFinish(AfterRound(dag, active, r), active)
  {
    hide Dispatched, AllFit, AfterReports, CanFinish;
    var d := Dispatched(dag, active, r.clock);
    DispatchKeepsPlan(dag, active, r.clock);
    DispatchKeepsCanFinish(dag, active, r.clock);
    ReportsKeepCanFinish(d, active, r.reports);
    SamePlanSameNames(dag, d);
    SamePlanSameNames(d, AfterReports(d, r.reports));
  }

  lemma ProductiveRoundCounts(dag: DagData, active: set<string>, r: Round)
    requires UniqueIds(dag.nodes) && Productive(dag, active, r)
    ensures RoundFits(dag, active, r)
    ensures CountActive(AfterRound(dag, active, r).nodes) < CountActive(dag.nodes)
  {
    hide Dispatched, AllFit, AfterReports, CountActive, NoneRevives, Completions;
    DispatchKeepsPlan(dag, active, r.clock);
    ReportsCount(Dispatched(dag, active, r.clock), active, r.reports);
  }

  // ---------- convergence ----------

  lemma {:induction false} RunKeepsCanFinish(dag: DagData, active: set<string>, rounds: seq<Round>)
    requires UniqueIds(dag.nodes) && AllRoundsFit(dag, active, rounds)
    ensures UniqueIds(AfterRounds(dag, active, rounds).nodes) && |AfterRounds(dag, active, rounds).nodes| == |dag.nodes|
    ensures CanFinish(dag, active) <==> CanFinish(AfterRounds(dag, active, rounds), active)
    decreases |rounds|
  {
    hide RoundFits, AfterRound, CanFinish;
    if rounds != [] {
      RoundKeepsCanFinish(dag, active, rounds[0]);
      RunKeepsCanFinish(AfterRound(dag, active, rounds[0]), active, rounds[1..]);
    }
  }

  /** Every run of productive rounds is at most as long as the number of unfinished nodes, and a run of that length has
      converged. */
  lemma {:induction false} ConvergesInTime(dag: DagData, active: set<string>, rounds: seq<Round>)
    requires UniqueIds(dag.nodes) && dag.nodes != [] && AllProductive(dag, active, rounds)
    ensures AllRoundsFit(dag, active, rounds)
    ensures |rounds| <= CountActive(dag.nodes)
    ensures |rounds| == CountActive(dag.nodes) ==> Converged(AfterRounds(dag, active, rounds))
    decreases |rounds|
  {
    hide RoundFits, AfterRound, Productive;
    if rounds == [] {
      CountActiveBound(dag.nodes);
    } else {
      ProductiveRoundCounts(dag, active, rounds[0]);
      RoundKeepsCanFinish(dag, active, rounds[0]);
      hide CanFinish;
      ConvergesInTime(AfterRound(dag, active, rounds[0]), active, rounds[1..]);
    }
  }

  /** After a pass over a DAG that can finish, some unfinished node has a live owner. */
  ghost predicate SomeoneWorks(nodes: seq<DagNode>, active: set<string>) {
    exists i :: 0 <= i < |nodes| && !IsTerminal(nodes[i].status) && HasLiveOwner(nodes[i], active)
  }

  lemma NobodyBusy(nodes: seq<DagNode>)
    requires forall i :: 0 <= i < |nodes| ==> nodes[i].status != STATUS_IN_PROGRESS
    ensures BusyAgents(nodes) == {}
  {}

  lemma OwnedStaysOwned(dag: DagData, active: set<string>, clock: nat -> Times, w: nat)
    requires UniqueIds(dag.nodes) && w < |dag.nodes| && !IsTerminal(dag.nodes[w].status)
    requires HasLiveOwner(dag.nodes[w], active) || Chosen(dag, active, w)
    ensures SomeoneWorks(Dispatched(dag, active, clock).nodes, active)
  {
    hide Dispatched, IsReady, Sooner;
    DispatchStartsChosen(dag, active, clock);
    var after := Dispatched(dag, active, clock);
    if Chosen(dag, active, w) {
      StartedIsOwned(after.nodes[w], active);
    }
    assert HasLiveOwner(after.nodes[w], active);
  }

  /** While work is left that can finish, every dispatch pass leaves some agent an unfinished node of its own. */
  lemma SomebodyWorks(dag: DagData, active: set<string>, clock: nat -> Times)
    requires UniqueIds(dag.nodes) && CanFinish(dag, active) && !Converged(dag)
    ensures SomeoneWorks(Dispatched(dag, active, clock).nodes, active)
  {
    if w: nat :| w < |dag.nodes| && !IsTerminal(dag.nodes[w].status) && HasLiveOwner(dag.nodes[w], active) {
      OwnedStaysOwned(dag, active, clock, w);
    } else {
      hide DependencyMet, Dispatched, PredecessorsExist, Acyclic, HasLiveOwner;
      forall i | 0 <= i < |dag.nodes|
        ensures IsTerminal(dag.nodes[i].status)
             || (dag.nodes[i].status == STATUS_PENDING && PredecessorsExist(dag, dag.nodes[i].id)
                 && AgentFor(dag.nodes[i].domainID) in active)
      {
        assert NodeCanFinish(dag, active, i);
      }
      assert Unowned(dag.nodes, active) == Waiting(dag.nodes);
      SomethingIsReady(dag);
      var i := ReadyPositions(dag, |dag.nodes|)[0];
      NobodyBusy(dag.nodes);
      var c := IdleAgentGetsWork(dag, active, i);
      OwnedStaysOwned(dag, active, clock, c);
    }
  }

  /** While work is left that can finish, some live agent can complete a round with a report that is accepted. */
  lemma AnotherRoundIsPossible(dag: DagData, active: set<string>) returns (r: Round)
    requires UniqueIds(dag.nodes) && CanFinish(dag, active) && !Converged(dag)
    ensures Productive(dag, active, r)
  {
    hide Dispatched, OwnerMayUpdate, Acyclic, Unowned;
    var clock := (k: nat) => Times(0, 0, 0);
    var d := Dispatched(dag, active, clock);
    SomebodyWorks(dag, active, clock);
    DispatchKeepsPlan(dag, active, clock);
    SamePlanSameNames(dag, d);
    var i :| 0 <= i < |d.nodes| && !IsTerminal(d.nodes[i].status) && HasLiveOwner(d.nodes[i], active);
    FirstIndexIs(d.nodes, d.nodes[i].id, i);
    var a :| a in active && OwnerMayUpdate(d.nodes[i], a);
    var report := Report(d.nodes[i].id, a, STATUS_DONE, None, Times(0, 0, 0));
    r := Round(clock, [report]);
    assert ReportFits(d, active, report) && Completes(d, report);
    assert [report][1..] == [];
    assert AllFit(d, active, [report]) && NoneRevives(d, [report]);
    assert Completions(d, [report]) == 1 + Completions(Reported(d, report), [report][1..]);
  }

  lemma {:induction false} NothingActive(nodes: seq<DagNode>)
    requires forall i :: 0 <= i < |nodes| ==> IsTerminal(nodes[i].status)
    ensures CountActive(nodes) == 0
  {
    if nodes != [] {
      NothingActive(nodes[..|nodes| - 1]);
    }
  }

  /** Any run over a DAG that can finish can be continued by a productive round exactly until it has converged. */
  lemma RoundsEndAtConvergence(dag: DagData, active: set<string>, rounds: seq<Round>)
    requires UniqueIds(dag.nodes) && CanFinish(dag, active) && AllRoundsFit(dag, active, rounds)
    ensures Converged(AfterRounds(dag, active, rounds)) <==>
        forall r :: !Productive(AfterRounds(dag, active, rounds), active, r)
  {
    hide CanFinish, Productive, AfterRounds, AllRoundsFit;
    RunKeepsCanFinish(dag, active, rounds);
    var after := AfterRounds(dag, active, rounds);
    if Converged(after) {
      NothingActive(after.nodes);
      forall r ensures !Productive(after, active, r) {
        if Productive(after, active, r) {
          ProductiveRoundCounts(after, active, r);
        }
      }
    } else {
      var r := AnotherRoundIsPossible(after, active);
    }
  }

  lemma {:induction false} FinishingRun(dag: DagData, active: set<string>) returns (rounds: seq<Round>)
    requires UniqueIds(dag.nodes) && CanFinish(dag, active)
    ensures AllProductive(dag, active, rounds) && Converged(AfterRounds(dag, active, rounds))
    decreases CountActive(dag.nodes)
  {
    hide CanFinish, AfterRound, Productive, Converged, CountActive;
    if Converged(dag) {
      rounds := [];
    } else {
      var r := AnotherRoundIsPossible(dag, active);
      ProductiveRoundCounts(dag, active, r);
      RoundKeepsCanFinish(dag, active, r);
      var rest := FinishingRun(AfterRound(dag, active, r), active);
      rounds := [r] + rest;
      assert rounds[1..] == rest;
    }
  }

  lemma ConvergedCanFinish(dag: DagData, active: set<string>)
    requires Converged(dag)
    ensures CanFinish(dag, active)
  {
    assert Unowned(dag.nodes, active) == {};
    EmptyGraphIsAcyclic(dag.edges);
  }

  /** Some run of accepted reports, whatever they report, converges exactly when every unfinished node without a live
      owner is pending, with a live agent for its domain, existing predecessors and no cycle among such nodes. Then a
      run of productive rounds does, one for each unfinished node at most. */
  lemma ConvergenceCriterion(dag: DagData, active: set<string>)
    requires UniqueIds(dag.nodes)
    ensures (exists rounds :: Finishes(dag, active, rounds)) <==> CanFinish(dag, active)
    ensures CanFinish(dag, active) ==> exists rounds ::
        Finishes(dag, active, rounds) && AllProductive(dag, active, rounds) && |rounds| <= CountActive(dag.nodes)
  {
    if CanFinish(dag, active) {
      var rounds := FinishingRun(dag, active);
      ConvergesInTime(dag, active, rounds);
      assert Finishes(dag, active, rounds);
    }
    if exists rounds :: Finishes(dag, active, rounds) {
      var rounds :| Finishes(dag, active, rounds);
      hide CanFinish, AllRoundsFit;
      ConvergedCanFinish(AfterRounds(dag, active, rounds), active);
      RunKeepsCanFinish(dag, active, rounds);
    }
  }

  /** One node in progress without an owner, as a split may leave it: no agent's report on it is ever accepted. */
  lemma OwnerlessNodeStalls(dag: DagData, n: DagNode, active: set<string>, rounds: seq<Round>)
    requires dag.nodes == [n] && n.status == STATUS_IN_PROGRESS && n.assignedAgent == ""
    ensures forall agentID, status, metrics :: !Accepts(dag, UpdateNode(n.id, agentID, status, metrics, true))
    ensures !Finishes(dag, active, rounds)
  {
    assert forall a :: !OwnerMayUpdate(n, a);
    FirstIndexIs(dag.nodes, n.id, 0);
    assert !NodeCanFinish(dag, active, 0);
    ConvergenceCriterion(dag, active);
  }

  /** A blocked node is no obstacle to its owner, who may report it done. */
  lemma BlockedNodeFinishes(dag: DagData, n: DagNode, active: set<string>)
    requires dag.nodes == [n] && n.status == 4
    requires n.assignedAgent == AgentFor(n.domainID) && n.assignedAgent in active
    ensures exists rounds :: Finishes(dag, active, rounds)
  {
    StartedIsOwned(n, active);
    assert Unowned(dag.nodes, active) == {};
    EmptyGraphIsAcyclic(dag.edges);
    ConvergenceCriterion(dag, active);
  }

  /** Without an owner it stays blocked: no pass starts it and no report on it is accepted. */
  lemma OwnerlessBlockedStalls(dag: DagData, n: DagNode, active: set<string>, rounds: seq<Round>)
    requires dag.nodes == [n] && n.status == 4 && n.assignedAgent == ""
    ensures !Finishes(dag, active, rounds)
  {
    assert forall a :: !OwnerMayUpdate(n, a);
    assert !NodeCanFinish(dag, active, 0);
    ConvergenceCriterion(dag, active);
  }
}
