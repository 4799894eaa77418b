/** The values of the task DAG: nodes, edges, header and the whole container. */
module DagTypes {

  datatype Option<+T> = None | Some(value: T)

  datatype Outcome<+E> = Pass | Fail(error: E)

  /** The source keeps a status in one byte. 4 is Blocked, which nothing modelled tests for; values above it print as
      "Unknown". None of these is terminal. */
  newtype NodeStatus = x: int | 0 <= x < 256

  const STATUS_PENDING: NodeStatus := 0
  const STATUS_IN_PROGRESS: NodeStatus := 1
  const STATUS_DONE: NodeStatus := 2
  const STATUS_FAILED: NodeStatus := 3

  predicate IsTerminal(s: NodeStatus) {
    s == STATUS_DONE || s == STATUS_FAILED
  }

  datatype EdgeType = Dependency | StubContract

  datatype DagNode = DagNode(
    id: string,
    domainID: string,
    taskSpec: string,
    status: NodeStatus,
    assignedAgent: string,
    targetFiles: seq<string>,
    priority: int,
    createdAt: int,
    updatedAt: int,
    startedAt: int,
    completedAt: int,
    promptTokens: int,
    completionTokens: int)

  datatype DagEdge = DagEdge(fromNode: string, toNode: string, edgeType: EdgeType, stubID: string)

  datatype DagHeader = DagHeader(schemaVersion: nat, activeNodeCount: nat, maxNodes: nat, lastModified: int)

  datatype DagData = DagData(header: DagHeader, nodes: seq<DagNode>, edges: seq<DagEdge>)

  const CURRENT_SCHEMA_VERSION: nat := 1

  function NewDagData(maxNodes: nat): DagData {
    DagData(DagHeader(CURRENT_SCHEMA_VERSION, 0, maxNodes, 0), [], [])
  }

  /** The identifiers that occur in a list of nodes. */
  function Ids(nodes: seq<DagNode>): set<string> {
    set i | 0 <= i < |nodes| :: nodes[i].id
  }

  ghost predicate UniqueIds(nodes: seq<DagNode>) {
    forall i, j :: 0 <= i < j < |nodes| ==> nodes[i].id != nodes[j].id
  }

  /** Every edge joins two nodes of the DAG. */
  ghost predicate NoDangling(nodes: seq<DagNode>, edges: seq<DagEdge>) {
    forall k :: 0 <= k < |edges| ==> edges[k].fromNode in Ids(nodes) && edges[k].toNode in Ids(nodes)
  }

  /** How many nodes are not in a terminal status. */
  function CountActive(nodes: seq<DagNode>): nat {
    if nodes == [] then 0
    else CountActive(nodes[..|nodes| - 1]) + if IsTerminal(nodes[|nodes| - 1].status) then 0 else 1
  }

  lemma {:induction false} CountActiveConcat(a: seq<DagNode>, b: seq<DagNode>)
    ensures CountActive(a + b) == CountActive(a) + CountActive(b)
  {
    if b == [] {
      assert a + b == a;
    } else {
      CountActiveConcat(a, b[..|b| - 1]);
      assert (a + b)[..|a + b| - 1] == a + b[..|b| - 1];
    }
  }

  /** Changing one status changes the count by that node alone. */
  lemma {:induction false} CountActiveUpdate(nodes: seq<DagNode>, i: nat, n: DagNode)
    requires i < |nodes|
    ensures CountActive(nodes[i := n])
         == CountActive(nodes) - (if IsTerminal(nodes[i].status) then 0 else 1)
             + (if IsTerminal(n.status) then 0 else 1)
  {
    var last := |nodes| - 1;
    if i == last {
      assert nodes[i := n][..last] == nodes[..last];
    } else {
      CountActiveUpdate(nodes[..last], i, n);
      assert nodes[i := n][..last] == nodes[..last][i := n];
    }
  }

  lemma {:induction false} CountActiveBound(nodes: seq<DagNode>)
    ensures CountActive(nodes) <= |nodes|
    ensures CountActive(nodes) == 0 <==> forall i :: 0 <= i < |nodes| ==> IsTerminal(nodes[i].status)
  {
    if nodes != [] {
      CountActiveBound(nodes[..|nodes| - 1]);
      assert forall i :: 0 <= i < |nodes| - 1 ==> nodes[..|nodes| - 1][i] == nodes[i];
    }
  }

  /** Only statuses matter to the count. */
  lemma {:induction false} CountActiveCongruence(a: seq<DagNode>, b: seq<DagNode>)
    requires |a| == |b|
    requires forall i :: 0 <= i < |a| ==> a[i].status == b[i].status
    ensures CountActive(a) == CountActive(b)
  {
    if a != [] {
      CountActiveCongruence(a[..|a| - 1], b[..|b| - 1]);
    }
  }
}
