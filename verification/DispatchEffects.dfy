/** A dispatch pass in words: who is started, with which fields, and who is not. */
module DispatchEffects {
  import opened DagTypes
  import opened Graph
  import opened Mutations
  import opened Scheduling

  /** Pending (0), and whatever it depends on exists and is Done (2) or Failed (3). */
  ghost predicate MayStart(dag: DagData, i: nat)
    requires i < |dag.nodes|
  {
    && dag.nodes[i].status == 0
    && forall k :: 0 <= k < |dag.edges| && dag.edges[k].toNode == dag.nodes[i].id ==>
        Settled(dag, dag.edges[k].fromNode)
  }

  ghost predicate Settled(dag: DagData, id: string) {
    exists j :: 0 <= j < |dag.nodes| && dag.nodes[j].id == id && (dag.nodes[j].status == 2 || dag.nodes[j].status == 3)
  }

  /** The agent works on a node in progress (1): one assigned to it, or one of its domain that is assigned to nobody. */
  ghost predicate Engaged(dag: DagData, agentID: string) {
    exists j :: 0 <= j < |dag.nodes| && dag.nodes[j].status == 1
      && (dag.nodes[j].assignedAgent == agentID
          || (dag.nodes[j].assignedAgent == "" && "agent-" + dag.nodes[j].domainID == agentID))
  }

  /** A lower number is more urgent; among equals the earlier node goes first. */
  predicate MoreUrgent(nodes: seq<DagNode>, i: nat, j: nat)
    requires i < |nodes| && j < |nodes|
  {
    nodes[i].priority < nodes[j].priority || (nodes[i].priority == nodes[j].priority && i < j)
  }

  /** The node the pass starts for its domain's agent. */
  ghost predicate Starts(dag: DagData, active: set<string>, i: nat)
    requires i < |dag.nodes|
  {
    && MayStart(dag, i)
    && "agent-" + dag.nodes[i].domainID in active
    && !Engaged(dag, "agent-" + dag.nodes[i].domainID)
    && forall j | 0 <= j < |dag.nodes| && j != i && dag.nodes[j].domainID == dag.nodes[i].domainID
        && MayStart(dag, j) ::
         MoreUrgent(dag.nodes, i, j)
  }

  /** The last node of the name is Done (2) or Failed (3). */
  ghost predicate SettledLast(nodes: seq<DagNode>, id: string) {
    exists j :: 0 <= j < |nodes| && LastOfName(nodes, id, j) && (nodes[j].status == 2 || nodes[j].status == 3)
  }

  predicate LastOfName(nodes: seq<DagNode>, id: string, j: nat)
    requires j < |nodes|
  {
    nodes[j].id == id && forall k :: j < k < |nodes| ==> nodes[k].id != id
  }

  lemma {:induction false} LastStatusMeaning(nodes: seq<DagNode>, id: string)
    ensures DependencyMet(nodes, id) <==> SettledLast(nodes, id)
  {
    if nodes != [] {
      var last := |nodes| - 1;
      var init := nodes[..last];
      LastStatusMeaning(init, id);
      if nodes[last].id == id {
        assert forall j :: 0 <= j < |nodes| && LastOfName(nodes, id, j) ==> j == last;
        assert LastOfName(nodes, id, last);
      } else {
        assert forall j :: 0 <= j < last ==> (LastOfName(nodes, id, j) <==> LastOfName(init, id, j)) by {
          forall j | 0 <= j < last ensures LastOfName(nodes, id, j) <==> LastOfName(init, id, j) {
            assert forall k :: 0 <= k < last ==> init[k] == nodes[k];
          }
        }
      }
    }
  }

  /** Whatever the names, a node is ready exactly when it is pending (0) and for every edge into its name the last node
      of the name it comes from is settled. */
  lemma ReadyInWords(dag: DagData, n: DagNode)
    ensures IsReady(dag, n) <==>
      && n.status == 0
      && forall k :: 0 <= k < |dag.edges| && dag.edges[k].toNode == n.id ==>
           SettledLast(dag.nodes, dag.edges[k].fromNode)
  {
    forall id ensures DependencyMet(dag.nodes, id) <==> SettledLast(dag.nodes, id) {
      LastStatusMeaning(dag.nodes, id);
    }
    hide DependencyMet, SettledLast;
  }

  lemma MayStartMeaning(dag: DagData, i: nat)
    requires UniqueIds(dag.nodes) && i < |dag.nodes|
    ensures IsReady(dag, dag.nodes[i]) <==> MayStart(dag, i)
  {
    ReadyMeaning(dag, i);
    if IsReady(dag, dag.nodes[i]) {
      ReadyPositionsComplete(dag, |dag.nodes|, i);
      forall k | 0 <= k < |dag.edges| && dag.edges[k].toNode == dag.nodes[i].id
          ensures Settled(dag, dag.edges[k].fromNode) {
        assert HasEdge(dag.edges, dag.edges[k].fromNode, dag.nodes[i].id);
        FinishedIsSettled(dag, dag.edges[k].fromNode);
      }
    }
    if MayStart(dag, i) {
      forall u | HasEdge(dag.edges, u, dag.nodes[i].id) ensures FinishedNode(dag.nodes, u) {
        FinishedIsSettled(dag, u);
      }
    }
  }

  lemma FinishedIsSettled(dag: DagData, id: string)
    ensures FinishedNode(dag.nodes, id) <==> Settled(dag, id)
  {}

  lemma EngagedMeaning(dag: DagData, agentID: string)
    requires agentID != ""
    ensures agentID in BusyAgents(dag.nodes) <==> Engaged(dag, agentID)
  {
    if j :| 0 <= j < |dag.nodes| && dag.nodes[j].status == 1 && AgentOf(dag.nodes[j]) == agentID {
      assert Engaged(dag, agentID);
    }
    if Engaged(dag, agentID) {
      var j :| 0 <= j < |dag.nodes| && dag.nodes[j].status == 1
        && (dag.nodes[j].assignedAgent == agentID
            || (dag.nodes[j].assignedAgent == "" && "agent-" + dag.nodes[j].domainID == agentID));
      assert AgentOf(dag.nodes[j]) == agentID;
    }
  }

  lemma StartsMeaning(dag: DagData, active: set<string>, i: nat)
    requires UniqueIds(dag.nodes) && i < |dag.nodes|
    ensures Chosen(dag, active, i) <==> Starts(dag, active, i)
  {
    EngagedMeaning(dag, "agent-" + dag.nodes[i].domainID);
    forall j | 0 <= j < |dag.nodes| ensures IsReady(dag, dag.nodes[j]) <==> MayStart(dag, j) {
      MayStartMeaning(dag, j);
    }
    hide IsReady, MayStart, BusyAgents, Engaged;
  }

  /** The node in progress (1), assigned to its domain's agent, and otherwise as it was but for the update time. */
  function InProgress(n: DagNode, time: int): DagNode {
    DagNode(n.id, n.domainID, n.taskSpec, 1, "agent-" + n.domainID, n.targetFiles, n.priority, n.createdAt, time,
            n.startedAt, n.completedAt, n.promptTokens, n.completionTokens)
  }

  /** A pass puts exactly the nodes that start into progress and leaves every other node and all edges alone. */
  lemma DispatchInWords(dag: DagData, active: set<string>, clock: nat -> Times)
    requires UniqueIds(dag.nodes)
    ensures var after := Dispatched(dag, active, clock);
      && |after.nodes| == |dag.nodes| && after.edges == dag.edges
      && forall i :: 0 <= i < |dag.nodes| ==>
           after.nodes[i] == if Starts(dag, active, i)
               then InProgress(dag.nodes[i], after.nodes[i].updatedAt) else dag.nodes[i]
  {
    hide Dispatched;
    DispatchStartsChosen(dag, active, clock);
    var after := Dispatched(dag, active, clock);
    forall i | 0 <= i < |dag.nodes|
      ensures after.nodes[i] == if Starts(dag, active, i)
          then InProgress(dag.nodes[i], after.nodes[i].updatedAt) else dag.nodes[i]
    {
      StartsMeaning(dag, active, i);
      hide Chosen, Starts;
    }
  }

  /** Whatever the pass, an agent never has two nodes in progress if it did not before. */
  lemma NobodyWorksTwice(dag: DagData, active: set<string>, clock: nat -> Times, i: nat, j: nat)
    requires UniqueIds(dag.nodes) && i < j < |dag.nodes|
    requires OneTaskPerAgent(dag.nodes)
    ensures var after := Dispatched(dag, active, clock);
      && |after.nodes| == |dag.nodes|
      && (after.nodes[i].status == 1 && after.nodes[j].status == 1 && after.nodes[i].assignedAgent != "" ==>
            after.nodes[i].assignedAgent != after.nodes[j].assignedAgent)
  {
    hide Dispatched, IsReady, Chosen, BusyAgents;
    DispatchStartsChosen(dag, active, clock);
    DispatchKeepsOneTaskPerAgent(dag, active, clock);
  }
}
