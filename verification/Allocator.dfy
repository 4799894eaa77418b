/** The scheduler's tick: dispatch ready nodes to idle agents, then test for convergence. */
module Allocation {
  import opened DagTypes
  import opened Mutations
  import opened WalFormat
  import opened Scheduling
  import opened Convergence
  import opened DagManager

  /** Stable insertion sort by ascending priority, standing for the library's stable sort. */
  method SortStable(nodes: seq<DagNode>) returns (r: seq<DagNode>)
    ensures r == StableSorted(nodes)
  {
    hide Insert;
    r := [];
    for i := 0 to |nodes|
      invariant r == StableSorted(nodes[..i])
    {
      assert nodes[..i + 1][..i] == nodes[..i];
      r := InsertStable(r, nodes[i]);
    }
    assert nodes[..|nodes|] == nodes;
  }

  method InsertStable(sorted: seq<DagNode>, x: DagNode) returns (r: seq<DagNode>)
    ensures r == Insert(sorted, x)
  {
    hide Insert;
    var k := |sorted|;
    assert sorted[..k] == sorted && sorted[k..] == [];
    while k > 0 && sorted[k - 1].priority > x.priority
      invariant 0 <= k <= |sorted|
      invariant Insert(sorted, x) == Insert(sorted[..k], x) + sorted[k..]
    {
      InsertPasses(sorted, k, x);
      k := k - 1;
    }
    InsertStops(sorted[..k], x);
    r := sorted[..k] + [x] + sorted[k..];
  }

  lemma InsertPasses(sorted: seq<DagNode>, k: nat, x: DagNode)
    requires 0 < k <= |sorted| && sorted[k - 1].priority > x.priority
    ensures Insert(sorted[..k], x) + sorted[k..] == Insert(sorted[..k - 1], x) + sorted[k - 1..]
  {
    assert sorted[..k][..k - 1] == sorted[..k - 1];
    assert Insert(sorted[..k], x) == Insert(sorted[..k - 1], x) + [sorted[k - 1]];
    assert sorted[k - 1..] == [sorted[k - 1]] + sorted[k..];
  }

  lemma InsertStops(sorted: seq<DagNode>, x: DagNode)
    requires sorted == [] || sorted[|sorted| - 1].priority <= x.priority
    ensures Insert(sorted, x) == sorted + [x]
  {}

  /** The two log entries that starting a node writes can be encoded. */
  predicate StartEncodable(codec: Codec, node: DagNode, t: Times, ceiling: nat) {
    && Encodable(codec, LogEntry(AssignNode(node.id, AgentFor(node.domainID)), ceiling, t))
    && Encodable(codec, LogEntry(UpdateNode(node.id, "", STATUS_IN_PROGRESS, None, false), ceiling, t))
  }

  /** The same for every node at every clock reading of one pass. */
  ghost predicate StartsEncodable(codec: Codec, nodes: seq<DagNode>, clock: nat -> Times, ceiling: nat) {
    forall i: nat, k: nat :: i < |nodes| && k < 2 * |nodes| ==> StartEncodable(codec, nodes[i], clock(k), ceiling)
  }

  lemma StartedKeepsIds(dag: DagData, node: DagNode, binding: Times, starting: Times)
    ensures Ids(Started(dag, node, binding, starting).nodes) == Ids(dag.nodes)
  {
    var after := Started(dag, node, binding, starting);
    assert |after.nodes| == |dag.nodes|;
    assert forall i :: 0 <= i < |dag.nodes| ==> after.nodes[i].id == dag.nodes[i].id;
  }

  lemma StableSortedMembers(nodes: seq<DagNode>, n: DagNode)
    ensures n in StableSorted(nodes) ==> n in nodes
    ensures |StableSorted(nodes)| == |nodes|
  {
    if nodes != [] {
      var init, last := nodes[..|nodes| - 1], nodes[|nodes| - 1];
      StableSortedMembers(init, n);
      InsertMembers(StableSorted(init), last, n);
    }
  }

  lemma InsertMembers(sorted: seq<DagNode>, x: DagNode, n: DagNode)
    ensures n in Insert(sorted, x) <==> n in sorted || n == x
    ensures |Insert(sorted, x)| == |sorted| + 1
  {
    if sorted != [] && sorted[|sorted| - 1].priority > x.priority {
      InsertMembers(sorted[..|sorted| - 1], x, n);
      assert sorted == sorted[..|sorted| - 1] + [sorted[|sorted| - 1]];
    }
  }

  class Allocator {
    const manager: Manager
    var activeAgents: set<string>

    constructor (manager: Manager, activeAgents: set<string>)
      ensures this.manager == manager && this.activeAgents == activeAgents
    {
      this.manager, this.activeAgents := manager, activeAgents;
    }

    method BusyNow(nodes: seq<DagNode>) returns (busy: set<string>)
      ensures busy == BusyAgents(nodes)
    {
      busy := {};
      for i := 0 to |nodes|
        invariant forall a :: a in busy <==>
            exists j :: 0 <= j < i && nodes[j].status == STATUS_IN_PROGRESS && AgentOf(nodes[j]) == a
      {
        if nodes[i].status == STATUS_IN_PROGRESS {
          busy := busy + {if nodes[i].assignedAgent != "" then nodes[i].assignedAgent else AgentFor(nodes[i].domainID)};
        }
      }
    }

    /** One dispatch pass over the manager's DAG. */
    method DispatchReadyTasks(clock: nat -> Times)
      requires manager.Valid() && !manager.wal.closed
      requires StartsEncodable(manager.wal.codec, manager.dag.nodes, clock, manager.ceiling)
      modifies manager`dag, manager.wal
      ensures manager.Valid() && !manager.wal.closed
      ensures manager.dag == Dispatched(old(manager.dag), activeAgents, clock)
    {
      var snap := manager.Snapshot();
      var ready := manager.GetReadyNodes();
      var agentBusy := BusyNow(snap.nodes);
      var sorted := SortStable(ready);
      assert sorted[..0] == [];
      for k := 0 to |sorted|
        invariant manager.Valid() && !manager.wal.closed
        invariant DispatchOver(snap, sorted[..k], activeAgents, clock) == Sweep(manager.dag, agentBusy)
        invariant Ids(manager.dag.nodes) == Ids(snap.nodes)
      {
        hide Started, StartEncodable, StartsEncodable, ReadyNodes, StableSorted, DispatchOver;
        var node := sorted[k];
        DispatchUnfolds(snap, sorted, activeAgents, k, clock);
        var agentID := AgentFor(node.domainID);
        if agentID !in activeAgents || agentID in agentBusy {
          continue;
        }
        EachStartEncodable(manager.wal.codec, snap, sorted, k, clock, manager.ceiling);
        StartNode(node, agentID, clock(2 * k), clock(2 * k + 1));
        agentBusy := agentBusy + {agentID};
      }
      assert sorted[..|sorted|] == sorted;
    }

    method StartNode(node: DagNode, agentID: string, binding: Times, starting: Times)
      requires manager.Valid() && !manager.wal.closed && agentID == AgentFor(node.domainID)
      requires node.id in Ids(manager.dag.nodes)
      requires StartEncodable(manager.wal.codec, node, binding, manager.ceiling)
      requires StartEncodable(manager.wal.codec, node, starting, manager.ceiling)
      modifies manager`dag, manager.wal
      ensures manager.Valid() && !manager.wal.closed
      ensures manager.dag == Started(old(manager.dag), node, binding, starting)
      ensures Ids(manager.dag.nodes) == Ids(old(manager.dag).nodes)
    {
      ghost var dag := manager.dag;
      NamedNodeIsFound(dag.nodes, node.id);
      StartedKeepsIds(dag, node, binding, starting);
      var bound := manager.AssignNode(node.id, agentID, binding);
      BoundKeepsIds(dag, node.id, agentID, binding);
      NamedNodeIsFound(manager.dag.nodes, node.id);
      var started := manager.UpdateNode(node.id, "", STATUS_IN_PROGRESS, None, false, starting);
    }

    method CheckConvergence() returns (converged: bool)
      ensures converged == Converged(manager.dag)
      ensures converged <==> (
        && |manager.dag.nodes| > 0
        && forall n :: n in manager.dag.nodes ==> n.status == 2 || n.status == 3)
    {
      var snap := manager.Snapshot();
      if |snap.nodes| == 0 {
        return false;
      }
      for i := 0 to |snap.nodes|
        invariant forall j :: 0 <= j < i ==> IsTerminal(snap.nodes[j].status)
      {
        if !IsTerminal(snap.nodes[i].status) {
          return false;
        }
      }
      return true;
    }

    /** One tick of the execution monitor: dispatch, then test. */
    method Tick(clock: nat -> Times) returns (converged: bool)
      requires manager.Valid() && !manager.wal.closed
      requires StartsEncodable(manager.wal.codec, manager.dag.nodes, clock, manager.ceiling)
      modifies manager`dag, manager.wal
      ensures manager.Valid() && !manager.wal.closed
      ensures manager.dag == Dispatched(old(manager.dag), activeAgents, clock)
      ensures converged == Converged(manager.dag)
    {
      DispatchReadyTasks(clock);
      converged := CheckConvergence();
    }
  }

  lemma EachStartEncodable(codec: Codec, dag: DagData, order: seq<DagNode>, k: nat, clock: nat -> Times, ceiling: nat)
    requires StartsEncodable(codec, dag.nodes, clock, ceiling) && order == StableSorted(ReadyNodes(dag)) && k < |order|
    ensures StartEncodable(codec, order[k], clock(2 * k), ceiling)
        && StartEncodable(codec, order[k], clock(2 * k + 1), ceiling)
    ensures order[k].id in Ids(dag.nodes)
  {
    hide StartEncodable, StableSorted, ReadyNodes;
    ReadyAreNodes(dag);
    assert order[k] in order;
    var i :| 0 <= i < |dag.nodes| && dag.nodes[i] == order[k];
  }

  lemma NamedNodeIsFound(nodes: seq<DagNode>, id: string)
    requires id in Ids(nodes)
    ensures FirstIndex(nodes, id) < |nodes|
  {
    var i :| 0 <= i < |nodes| && nodes[i].id == id;
  }

  lemma BoundKeepsIds(dag: DagData, id: string, agentID: string, t: Times)
    ensures forall ceiling :: Ids(LiveEffect(dag, AssignNode(id, agentID), ceiling, t).nodes) == Ids(dag.nodes)
  {
    var after := ChangeFirst(dag.nodes, id, Bind(agentID, Some(t.now)));
    assert forall i :: 0 <= i < |dag.nodes| ==> after[i].id == dag.nodes[i].id;
    assert Ids(after) == Ids(dag.nodes);
  }

  lemma ReadyAreNodes(dag: DagData)
    ensures forall n :: n in StableSorted(ReadyNodes(dag)) ==> exists i :: 0 <= i < |dag.nodes| && dag.nodes[i] == n
    ensures |StableSorted(ReadyNodes(dag))| <= |dag.nodes|
  {
    forall n | n in StableSorted(ReadyNodes(dag)) ensures exists i :: 0 <= i < |dag.nodes| && dag.nodes[i] == n {
      StableSortedMembers(ReadyNodes(dag), n);
      var k :| 0 <= k < |ReadyNodes(dag)| && ReadyNodes(dag)[k] == n;
      assert dag.nodes[ReadyPositions(dag, |dag.nodes|)[k]] == n;
    }
    var ready := ReadyNodes(dag);
    if ready != [] {
      StableSortedMembers(ready, ready[0]);
    }
    ReadyPositionsBounded(dag, |dag.nodes|);
  }

  lemma ReadyPositionsBounded(dag: DagData, n: nat)
    requires n <= |dag.nodes|
    ensures |ReadyPositions(dag, n)| <= n
  {
    if n > 0 {
      ReadyPositionsBounded(dag, n - 1);
    }
  }
}
