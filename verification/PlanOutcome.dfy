/** What becomes of an accepted plan: the DAG it leaves and whether the build can finish. */
module PlanOutcome {
  import opened DagTypes
  import opened Graph
  import opened Validator
  import opened Text
  import opened Mutations
  import opened Scheduling
  import opened Convergence
  import opened Planning

  // ---------- the committed plan in words ----------

  /** A planned node as the DAG holds it: pending (0), nobody's, dated by its own call, with no figures yet. */
  function HeldNode(n: TaskNode, time: int): DagNode {
    DagNode(n.id, n.domainID, n.taskSpec, 0, "", n.targetFiles, n.priority, time, time, 0, 0, 0, 0)
  }

  /** After a whole commit to an empty DAG, node i is the plan's node i, and edge k the plan's edge k as a
      dependency. */
  lemma CommittedInWords(dag: DagData, plan: PlanResponse, clock: nat -> Times)
    requires dag.nodes == [] && dag.edges == []
    ensures var d := Committed(dag, plan, |plan.nodes|, |plan.edges|, clock);
      && |d.nodes| == |plan.nodes| && |d.edges| == |plan.edges|
      && (forall i :: 0 <= i < |d.nodes| ==> d.nodes[i] == HeldNode(plan.nodes[i], clock(i).now))
      && (forall k :: 0 <= k < |d.edges| ==>
            d.edges[k] == DagEdge(plan.edges[k].fromNode, plan.edges[k].toNode, Dependency, ""))
  {
    CommittedEdges(dag, plan, |plan.edges|, clock);
    hide Committed, StoredNodes;
  }

  // ---------- padded names ----------

  /** Some edge of the plan names this node. */
  ghost predicate Mentioned(plan: PlanResponse, id: string) {
    exists k :: 0 <= k < |plan.edges| && (plan.edges[k].fromNode == id || plan.edges[k].toNode == id)
  }

  /** Every node an edge names is written without surrounding blanks. */
  ghost predicate MentionedAreTrimmed(plan: PlanResponse) {
    forall u :: 0 <= u < |plan.nodes| && Mentioned(plan, TrimSpace(plan.nodes[u].id)) ==> IsTrimmed(plan.nodes[u].id)
  }

  /** A committed plan has distinct names, no cycle and one owner per file; its edges all have real endpoints exactly
      when the nodes they name are written without surrounding blanks. */
  lemma CommittedPlanCriterion(dag: DagData, plan: PlanResponse, excluded: string -> bool, clock: nat -> Times)
    requires dag.nodes == [] && dag.edges == [] && ValidPlan(plan, excluded)
    ensures var d := Committed(dag, plan, |plan.nodes|, |plan.edges|, clock);
      && UniqueIds(d.nodes) && Acyclic(Ids(d.nodes), d.edges) && OneOwnerPerFile(d.nodes)
      && (NoDangling(d.nodes, d.edges) <==> MentionedAreTrimmed(plan))
  {
    hide TrimSpace, IsTrimmed, Acyclic, ValidDomains, NamesDomain, StoredNodes, PlannedNodes, PlannedEdges, Committed,
        Mentioned;
    CommittedEdges(dag, plan, |plan.edges|, clock);
    StoredIds(plan, clock);
    var nodes, edges := StoredNodes(plan, |plan.nodes|, clock), PlannedEdges(plan);
    assert PlannedEdges(plan)[..|plan.edges|] == edges;
    assert forall i :: 0 <= i < |nodes| ==> nodes[i].id == plan.nodes[i].id;
    FewerOwners(PlannedNodes(plan), nodes);
    if MentionedAreTrimmed(plan) {
      forall k | 0 <= k < |edges| ensures edges[k].fromNode in Ids(nodes) && edges[k].toNode in Ids(nodes) {
        assert Mentioned(plan, plan.edges[k].fromNode) && Mentioned(plan, plan.edges[k].toNode) by {
          MentionedByItsEdges(plan, k);
        }
        TrimmedEndpoint(plan, nodes, plan.edges[k].fromNode);
        TrimmedEndpoint(plan, nodes, plan.edges[k].toNode);
      }
    }
    if NoDangling(nodes, edges) {
      forall u | 0 <= u < |plan.nodes| && Mentioned(plan, TrimSpace(plan.nodes[u].id))
          ensures IsTrimmed(plan.nodes[u].id) {
        assert TrimSpace(plan.nodes[u].id) in Ids(nodes) by {
          MentionedHasEdge(plan, TrimSpace(plan.nodes[u].id));
        }
        EndpointIsTrimmed(plan, nodes, u);
      }
    }
  }

  lemma MentionedByItsEdges(plan: PlanResponse, k: nat)
    requires k < |plan.edges|
    ensures Mentioned(plan, plan.edges[k].fromNode) && Mentioned(plan, plan.edges[k].toNode)
  {}

  lemma MentionedHasEdge(plan: PlanResponse, id: string)
    requires Mentioned(plan, id)
    ensures exists k :: 0 <= k < |plan.edges| && id in {PlannedEdges(plan)[k].fromNode, PlannedEdges(plan)[k].toNode}
  {
    var k :| 0 <= k < |plan.edges| && (plan.edges[k].fromNode == id || plan.edges[k].toNode == id);
    assert PlannedEdges(plan)[k].fromNode == plan.edges[k].fromNode;
  }

  lemma TrimmedEndpoint(plan: PlanResponse, nodes: seq<DagNode>, id: string)
    requires |nodes| == |plan.nodes| && forall i :: 0 <= i < |nodes| ==> nodes[i].id == plan.nodes[i].id
    requires NamesNode(plan.nodes, id) && Mentioned(plan, id) && MentionedAreTrimmed(plan)
    ensures id in Ids(nodes)
  {
    hide TrimSpace, IsTrimmed, Mentioned;
    var u :| 0 <= u < |plan.nodes| && TrimSpace(plan.nodes[u].id) == id;
    TrimmedIsFixed(plan.nodes[u].id);
    assert nodes[u].id == id;
  }

  lemma EndpointIsTrimmed(plan: PlanResponse, nodes: seq<DagNode>, u: nat)
    requires |nodes| == |plan.nodes| && forall i :: 0 <= i < |nodes| ==> nodes[i].id == plan.nodes[i].id
    requires forall i, j :: 0 <= i < j < |plan.nodes| ==> TrimSpace(plan.nodes[i].id) != TrimSpace(plan.nodes[j].id)
    requires u < |plan.nodes| && TrimSpace(plan.nodes[u].id) in Ids(nodes)
    ensures IsTrimmed(plan.nodes[u].id)
  {
    hide TrimSpace, IsTrimmed;
    var id := TrimSpace(plan.nodes[u].id);
    var w :| 0 <= w < |nodes| && nodes[w].id == id;
    TrimmedAfterTrim(plan.nodes[u].id);
    TrimmedIsFixed(id);
    assert TrimSpace(plan.nodes[w].id) == id;
    assert w == u;
  }

  // ---------- from an accepted plan to the end of the build ----------

  /** The agents that are started for a plan: one per domain, named after the domain as it is written. */
  function PlanAgents(plan: PlanResponse): set<string> {
    set i | 0 <= i < |plan.domains| :: AgentFor(plan.domains[i].domainID)
  }

  ghost predicate WrittenNode(plan: PlanResponse, id: string) {
    exists u :: 0 <= u < |plan.nodes| && plan.nodes[u].id == id
  }

  ghost predicate WrittenDomain(plan: PlanResponse, id: string) {
    exists j :: 0 <= j < |plan.domains| && plan.domains[j].domainID == id
  }

  /** Every node's domain is written as in the list of domains, and no edge leads from a name that is no node's as
      written to one that is. */
  ghost predicate Runnable(plan: PlanResponse) {
    && (forall i :: 0 <= i < |plan.nodes| ==> WrittenDomain(plan, plan.nodes[i].domainID))
    && (forall k :: 0 <= k < |plan.edges| && WrittenNode(plan, plan.edges[k].toNode) ==>
        WrittenNode(plan, plan.edges[k].fromNode))
  }

  /** The DAG holds just the plan: all nodes, pending and without an owner, and all edges. */
  ghost predicate HoldsPlan(d: DagData, plan: PlanResponse) {
    && |d.nodes| == |plan.nodes| && |d.edges| == |plan.edges|
    && (forall i :: 0 <= i < |d.nodes| ==>
          && d.nodes[i].id == plan.nodes[i].id && d.nodes[i].domainID == plan.nodes[i].domainID
          && d.nodes[i].status == STATUS_PENDING && d.nodes[i].assignedAgent == "")
    && (forall k :: 0 <= k < |d.edges| ==>
          d.edges[k].fromNode == plan.edges[k].fromNode && d.edges[k].toNode == plan.edges[k].toNode)
  }

  lemma WholePlanIsHeld(dag: DagData, plan: PlanResponse, excluded: string -> bool, n: nat, e: nat, clock: nat -> Times)
    requires dag.nodes == [] && dag.edges == [] && ValidPlan(plan, excluded)
    requires |plan.nodes| <= dag.header.maxNodes && StopsAt(dag, plan, n, e, clock)
    ensures n == |plan.nodes| && e == |plan.edges| && HoldsPlan(Committed(dag, plan, n, e, clock), plan)
  {
    hide ValidPlan, StopsAt, Committed;
    ValidPlanCommits(dag, plan, excluded, n, e, clock);
  }

  lemma AgentIsStarted(plan: PlanResponse, id: string)
    ensures AgentFor(id) in PlanAgents(plan) <==> WrittenDomain(plan, id)
  {
    hide AgentFor;
    if AgentFor(id) in PlanAgents(plan) {
      var j :| 0 <= j < |plan.domains| && AgentFor(plan.domains[j].domainID) == AgentFor(id);
      AgentForInjective(plan.domains[j].domainID, id);
    }
  }

  lemma HeldNames(d: DagData, plan: PlanResponse)
    requires HoldsPlan(d, plan)
    ensures forall active :: Unowned(d.nodes, active) == Ids(d.nodes)
    ensures forall i, active :: 0 <= i < |d.nodes| ==> !HasLiveOwner(d.nodes[i], active)
    ensures forall id :: id in Ids(d.nodes) <==> WrittenNode(plan, id)
  {
    forall id ensures id in Ids(d.nodes) <==> WrittenNode(plan, id) {
      if WrittenNode(plan, id) {
        var u :| 0 <= u < |plan.nodes| && plan.nodes[u].id == id;
        assert d.nodes[u].id == id;
      }
    }
  }

  lemma HeldEdges(d: DagData, plan: PlanResponse)
    requires HoldsPlan(d, plan)
    ensures (forall id :: id in Ids(d.nodes) ==> PredecessorsExist(d, id))
       <==> (forall k :: 0 <= k < |plan.edges| && WrittenNode(plan, plan.edges[k].toNode) ==>
           WrittenNode(plan, plan.edges[k].fromNode))
  {
    HeldNames(d, plan);
    hide WrittenNode, Ids, Unowned;
    if forall id :: id in Ids(d.nodes) ==> PredecessorsExist(d, id) {
      forall k | 0 <= k < |plan.edges| && WrittenNode(plan, plan.edges[k].toNode)
        ensures WrittenNode(plan, plan.edges[k].fromNode)
      {
        assert d.edges[k].toNode in Ids(d.nodes) && HasEdge(d.edges, d.edges[k].fromNode, d.edges[k].toNode);
      }
    }
  }

  lemma HeldNodeCriterion(d: DagData, plan: PlanResponse, i: nat)
    requires HoldsPlan(d, plan) && i < |d.nodes|
    ensures NodeCanFinish(d, PlanAgents(plan), i) <==>
        WrittenDomain(plan, plan.nodes[i].domainID) && PredecessorsExist(d, d.nodes[i].id)
  {
    HeldNames(d, plan);
    AgentIsStarted(plan, plan.nodes[i].domainID);
    hide PlanAgents, AgentFor, PredecessorsExist, WrittenDomain, WrittenNode, Unowned, HasLiveOwner;
  }

  /** A domain for every node, and predecessors for every node, in either order of asking. */
  lemma HeldNodesCriterion(d: DagData, plan: PlanResponse)
    requires HoldsPlan(d, plan)
    ensures (forall i :: 0 <= i < |d.nodes| ==> NodeCanFinish(d, PlanAgents(plan), i)) <==>
      && (forall i :: 0 <= i < |plan.nodes| ==> WrittenDomain(plan, plan.nodes[i].domainID))
      && (forall id :: id in Ids(d.nodes) ==> PredecessorsExist(d, id))
  {
    forall i | 0 <= i < |d.nodes|
      ensures d.nodes[i].id in Ids(d.nodes)
      ensures NodeCanFinish(d, PlanAgents(plan), i) <==>
        WrittenDomain(plan, plan.nodes[i].domainID) && PredecessorsExist(d, d.nodes[i].id)
    {
      HeldNodeCriterion(d, plan, i);
    }
    hide NodeCanFinish, PlanAgents, PredecessorsExist, WrittenDomain;
  }

  lemma HeldPlanCriterion(d: DagData, plan: PlanResponse)
    requires HoldsPlan(d, plan) && d.nodes != [] && Acyclic(Ids(d.nodes), d.edges)
    ensures CanFinish(d, PlanAgents(plan)) <==> Runnable(plan)
  {
    HeldNames(d, plan);
    HeldEdges(d, plan);
    HeldNodesCriterion(d, plan);
    hide PlanAgents, PredecessorsExist, Acyclic, WrittenDomain, WrittenNode, Unowned, HasLiveOwner, NodeCanFinish, Ids;
    hide HoldsPlan;
  }

  /** On an empty DAG with room for it, an accepted plan is committed whole, and with an agent for each of its domains
      some run of accepted reports finishes it exactly when it is runnable as written. */
  lemma AcceptedPlanCriterion(dag: DagData, plan: PlanResponse, excluded: string -> bool, n: nat, e: nat,
                              clock: nat -> Times)
    requires dag.nodes == [] && dag.edges == [] && ValidPlan(plan, excluded)
    requires |plan.nodes| <= dag.header.maxNodes && StopsAt(dag, plan, n, e, clock)
    ensures (exists rounds :: Finishes(Committed(dag, plan, n, e, clock), PlanAgents(plan), rounds)) <==> Runnable(plan)
    ensures Runnable(plan) ==> CanFinish(Committed(dag, plan, n, e, clock), PlanAgents(plan))
  {
    assert plan.nodes != [];
    hide ValidDomains, ValidNodes, ValidEdges, StopsAt, Committed, Runnable, CanFinish, Finishes, MentionedAreTrimmed;
    WholePlanIsHeld(dag, plan, excluded, n, e, clock);
    CommittedPlanCriterion(dag, plan, excluded, clock);
    var d := Committed(dag, plan, n, e, clock);
    HeldPlanCriterion(d, plan);
    ConvergenceCriterion(d, PlanAgents(plan));
  }

  /** A runnable plan finishes in at most one round per node, and its rounds can be continued exactly until then. */
  lemma AcceptedPlanFinishes(dag: DagData, plan: PlanResponse, excluded: string -> bool, n: nat, e: nat,
                             clock: nat -> Times, rounds: seq<Round>)
    requires dag.nodes == [] && dag.edges == [] && ValidPlan(plan, excluded)
    requires |plan.nodes| <= dag.header.maxNodes && StopsAt(dag, plan, n, e, clock) && Runnable(plan)
    requires AllProductive(Committed(dag, plan, n, e, clock), PlanAgents(plan), rounds)
    ensures |rounds| <= |plan.nodes|
    ensures var after := AfterRounds(Committed(dag, plan, n, e, clock), PlanAgents(plan), rounds);
      Converged(after) <==> forall r :: !Productive(after, PlanAgents(plan), r)
  {
    assert plan.nodes != [];
    hide ValidDomains, ValidNodes, ValidEdges, Acyclic, StopsAt, AllProductive, AllRoundsFit, AfterRounds, Productive,
         Converged, Committed,
         CanFinish, Runnable, MentionedAreTrimmed;
    AcceptedPlanCriterion(dag, plan, excluded, n, e, clock);
    WholePlanIsHeld(dag, plan, excluded, n, e, clock);
    CommittedPlanCriterion(dag, plan, excluded, clock);
    var d := Committed(dag, plan, n, e, clock);
    AllActive(d.nodes);
    ConvergesInTime(d, PlanAgents(plan), rounds);
    RoundsEndAtConvergence(d, PlanAgents(plan), rounds);
  }

  // ---------- two accepted plans that stall ----------

  const PADDED_PLAN: PlanResponse :=
    PlanResponse([Domain("d", [])], [TaskNode(" a", "d", "", [], 0), TaskNode("b", "d", "", [], 0)],
        [TaskEdge("a", "b")])

  lemma PaddedTrims()
    ensures TrimSpace(" a") == "a" && TrimSpace("b") == "b" && TrimSpace("d") == "d"
  {
    assert TrimLeft(" a", IsSpace) == "a" by {
      assert " a"[1..] == "a";
    }
  }

  /** A padded node name passes validation, but its edge dangles and the dependent node can never become ready. */
  lemma PaddedNameStalls(dag: DagData, excluded: string -> bool, clock: nat -> Times)
    requires dag.nodes == [] && dag.edges == []
    ensures ValidPlan(PADDED_PLAN, excluded)
    ensures var d := Committed(dag, PADDED_PLAN, 2, 1, clock);
      && !NoDangling(d.nodes, d.edges)
      && forall later: DagData :: later.edges == d.edges && Ids(later.nodes) == Ids(d.nodes) ==>
           forall i :: 0 <= i < |later.nodes| && later.nodes[i].id == "b" ==> !IsReady(later, later.nodes[i])
  {
    PaddedTrims();
    PaddedPlanIsValid(excluded);
    CommittedEdges(dag, PADDED_PLAN, 1, clock);
    var d := Committed(dag, PADDED_PLAN, 2, 1, clock);
    assert d.edges == [PlannedEdge(TaskEdge("a", "b"))];
    assert d.edges[0].fromNode == "a" && d.edges[0].toNode == "b";
    assert "a" !in Ids(d.nodes) by {
      assert d.nodes[0].id == " a" && d.nodes[1].id == "b";
      assert |" a"| != |"a"| && "b"[0] != "a"[0];
    }
    forall later: DagData | later.edges == d.edges && Ids(later.nodes) == Ids(d.nodes)
      ensures forall i :: 0 <= i < |later.nodes| && later.nodes[i].id == "b" ==> !IsReady(later, later.nodes[i])
    {
      LastStatusExists(later.nodes, "a");
      assert !DependencyMet(later.nodes, later.edges[0].fromNode);
    }
  }

  lemma PaddedPlanIsValid(excluded: string -> bool)
    ensures ValidPlan(PADDED_PLAN, excluded)
  {
    PaddedTrims();
    hide TrimSpace;
    var p := PADDED_PLAN;
    assert NamesDomain(p.domains, "d") by {
      assert TrimSpace(p.domains[0].domainID) == TrimSpace("d");
    }
    assert NamesNode(p.nodes, "a") by {
      assert TrimSpace(p.nodes[0].id) == "a";
    }
    assert NamesNode(p.nodes, "b") by {
      assert TrimSpace(p.nodes[1].id) == "b";
    }
    PaddedPlanIsAcyclic();
    hide NamesDomain, NamesNode, Acyclic;
  }

  lemma PaddedPlanIsAcyclic()
    ensures Acyclic(Ids(PlannedNodes(PADDED_PLAN)), PlannedEdges(PADDED_PLAN))
  {
    var nodes, edges := PlannedNodes(PADDED_PLAN), PlannedEdges(PADDED_PLAN);
    assert nodes[0].id == " a" && nodes[1].id == "b" && |nodes| == 2;
    assert "a" !in Ids(nodes) by {
      assert |" a"| != |"a"| && "b"[0] != "a"[0];
    }
    assert forall u, v :: u in Ids(nodes) ==> !HasEdge(edges, u, v);
    forall c ensures !Cycle(Ids(nodes), edges, c) {
      assert |c| > 1 && c[0] in Ids(nodes) ==> !HasEdge(edges, c[0], c[1]);
    }
  }

  const PADDED_DOMAIN: PlanResponse := PlanResponse([Domain("d", [])], [TaskNode("a", " d", "", [], 0)], [])

  /** A node that writes its domain with a blank passes validation, but nobody is ever started for it. */
  lemma PaddedDomainStalls(dag: DagData, excluded: string -> bool, clock: nat -> Times, dispatch: nat -> Times,
                           rounds: seq<Round>)
    requires dag.nodes == [] && dag.edges == []
    ensures ValidPlan(PADDED_DOMAIN, excluded) && MentionedAreTrimmed(PADDED_DOMAIN)
    ensures var d := Committed(dag, PADDED_DOMAIN, 1, 0, clock);
      && Dispatched(d, PlanAgents(PADDED_DOMAIN), dispatch).nodes == d.nodes
      && !Finishes(d, PlanAgents(PADDED_DOMAIN), rounds)
  {
    PaddedDomainIsValid(excluded);
    var d := Committed(dag, PADDED_DOMAIN, 1, 0, clock);
    CommittedPlanCriterion(dag, PADDED_DOMAIN, excluded, clock);
    CommittedNodes(dag, PADDED_DOMAIN, 1, clock);
    NobodyForPaddedDomain();
    hide PlanAgents, AgentFor, Committed, ValidPlan, Dispatched;
    assert d.nodes[0].domainID == " d" && d.nodes[0].status == STATUS_PENDING && |d.nodes| == 1;
    NodeWithoutAgentStalls(d, PlanAgents(PADDED_DOMAIN), dispatch, rounds);
  }

  lemma NobodyForPaddedDomain()
    ensures AgentFor(" d") !in PlanAgents(PADDED_DOMAIN)
  {
    AgentIsStarted(PADDED_DOMAIN, " d");
    hide AgentFor, PlanAgents;
    assert |"d"| != |" d"|;
  }

  lemma NodeWithoutAgentStalls(d: DagData, active: set<string>, dispatch: nat -> Times, rounds: seq<Round>)
    requires |d.nodes| == 1 && d.nodes[0].status == STATUS_PENDING && AgentFor(d.nodes[0].domainID) !in active
    requires !HasLiveOwner(d.nodes[0], active)
    ensures Dispatched(d, active, dispatch).nodes == d.nodes && !Finishes(d, active, rounds)
  {
    hide AgentFor, Dispatched, Finishes, HasLiveOwner;
    DispatchStartsChosen(d, active, dispatch);
    assert !Chosen(d, active, 0) && !NodeCanFinish(d, active, 0);
    ConvergenceCriterion(d, active);
  }

  lemma PaddedDomainIsValid(excluded: string -> bool)
    ensures ValidPlan(PADDED_DOMAIN, excluded) && MentionedAreTrimmed(PADDED_DOMAIN)
  {
    var p := PADDED_DOMAIN;
    assert TrimSpace("a") == "a" && TrimSpace("d") == "d" && TrimSpace(" d") == "d" by {
      assert TrimLeft(" d", IsSpace) == "d" by {
        assert " d"[1..] == "d";
      }
    }
    hide TrimSpace;
    assert NamesDomain(p.domains, " d") by {
      assert TrimSpace(p.domains[0].domainID) == TrimSpace(" d");
    }
    var nodes, edges := PlannedNodes(p), PlannedEdges(p);
    assert |edges| == 0;
    assert forall u, v :: !HasEdge(edges, u, v);
    forall c ensures !Cycle(Ids(nodes), edges, c) {
      assert |c| > 1 ==> !HasEdge(edges, c[0], c[1]);
    }
  }
}
