/** Every mutation twice: what a live manager does to its DAG, and what replaying the logged entry does. */
module Mutations {
  import opened DagTypes
  import opened Graph
  import opened Validator
  import opened Text

  datatype NodeMetrics = NodeMetrics(startedAt: int, completedAt: int, promptTokens: int, completionTokens: int)

  datatype Mutation =
    | MutAddNode(node: DagNode)
    | MutUpdateNode(id: string, status: NodeStatus, metrics: Option<NodeMetrics>)
    | MutAddEdge(edge: DagEdge)
    | MutRemoveEdge(fromNode: string, toNode: string)
    | MutSplitNode(parentID: string, subNodes: seq<DagNode>)
    | MutBulkLoad(dag: DagData)
    | MutAssignNode(id: string, agentID: string)
    | MutUnknown(code: nat)

  datatype WalEntry = WalEntry(mutation: Mutation, timestamp: int)

  /** The index of the first node called id, or |nodes|. */
  function FirstIndex(nodes: seq<DagNode>, id: string): (i: nat)
    ensures i <= |nodes|
    ensures i < |nodes| ==> nodes[i].id == id
    ensures forall j :: 0 <= j < i ==> nodes[j].id != id
  {
    if nodes == [] then 0
    else
      var i := FirstIndex(nodes[..|nodes| - 1], id);
      if i < |nodes| - 1 || nodes[|nodes| - 1].id == id then i else |nodes|
  }

  lemma FirstIndexIs(nodes: seq<DagNode>, id: string, i: nat)
    requires i <= |nodes| && (i < |nodes| ==> nodes[i].id == id)
    requires forall j :: 0 <= j < i ==> nodes[j].id != id
    ensures FirstIndex(nodes, id) == i
  {}

  /** What one mutation may do to one existing node. A finished node gives up its task specification. */
  datatype NodeChange =
    | Update(status: NodeStatus, metrics: Option<NodeMetrics>, time: int)
    | Finish
    | Bind(agentID: string, bindTime: Option<int>)

  function WithStatus(n: DagNode, status: NodeStatus): DagNode {
    n.(status := status, taskSpec := if status == STATUS_DONE then "" else n.taskSpec)
  }

  function WithMetrics(n: DagNode, metrics: Option<NodeMetrics>): DagNode {
    match metrics
    case None => n
    case Some(m) => n.(startedAt := m.startedAt, completedAt := m.completedAt,
                       promptTokens := m.promptTokens, completionTokens := m.completionTokens)
  }

  function Changed(n: DagNode, change: NodeChange): DagNode {
    match change
    case Update(status, metrics, time) => WithMetrics(WithStatus(n, status).(updatedAt := time), metrics)
    case Finish => WithStatus(n, STATUS_DONE)
    case Bind(agentID, None) => n.(assignedAgent := agentID)
    case Bind(agentID, Some(time)) => n.(assignedAgent := agentID, updatedAt := time)
  }

  /** Changes the first node called id, if there is one. */
  function ChangeFirst(nodes: seq<DagNode>, id: string, change: NodeChange): seq<DagNode> {
    var i := FirstIndex(nodes, id);
    if i < |nodes| then nodes[i := Changed(nodes[i], change)] else nodes
  }

  function Recounted(dag: DagData, nodes: seq<DagNode>): DagData {
    dag.(nodes := nodes, header := dag.header.(activeNodeCount := CountActive(nodes)))
  }

  function Touched(dag: DagData, time: int): DagData {
    dag.(header := dag.header.(lastModified := time))
  }

  function FilterEdges(edges: seq<DagEdge>, fromNode: string, toNode: string): seq<DagEdge> {
    if edges == [] then []
    else
      var e := edges[|edges| - 1];
      FilterEdges(edges[..|edges| - 1], fromNode, toNode) + if e.fromNode != fromNode || e.toNode != toNode
          then [e] else []
  }

  /** The effect of one mutation during replay, before the modification time is set. */
  function Applied(dag: DagData, entry: WalEntry): DagData {
    match entry.mutation
    case MutAddNode(node) => Recounted(dag, dag.nodes + [node])
    case MutUpdateNode(id, status, metrics) =>
      Recounted(dag, ChangeFirst(dag.nodes, id, Update(status, metrics, entry.timestamp)))
    case MutAddEdge(edge) => dag.(edges := dag.edges + [edge])
    case MutRemoveEdge(fromNode, toNode) => dag.(edges := FilterEdges(dag.edges, fromNode, toNode))
    case MutSplitNode(parentID, subNodes) =>
      Recounted(dag, ChangeFirst(dag.nodes, parentID, Finish) + subNodes)
    case MutBulkLoad(loaded) => loaded
    case MutAssignNode(id, agentID) => dag.(nodes := ChangeFirst(dag.nodes, id, Bind(agentID, None)))
    case MutUnknown(_) => dag
  }

  function ApplyMutation(dag: DagData, entry: WalEntry): DagData {
    Touched(Applied(dag, entry), entry.timestamp)
  }

  function Replay(dag: DagData, log: seq<WalEntry>): DagData {
    if log == [] then dag else ApplyMutation(Replay(dag, log[..|log| - 1]), log[|log| - 1])
  }

  lemma ReplayOne(dag: DagData, log: seq<WalEntry>, e: WalEntry)
    ensures Replay(dag, log + [e]) == ApplyMutation(Replay(dag, log), e)
  {
    assert (log + [e])[..|log|] == log;
  }

  // ---------- the live side ----------

  datatype Command =
    | AddNode(node: DagNode)
    | UpdateNode(id: string, agentID: string, status: NodeStatus, metrics: Option<NodeMetrics>, enforceOwner: bool)
    | AssignNode(id: string, agentID: string)
    | AddEdge(edge: DagEdge)
    | SplitNode(parentID: string, subNodes: seq<DagNode>)
    | BulkLoad(dag: DagData)

  /** The clock readings of one call: at entry, by the log, and after the log write. */
  datatype Times = Times(now: int, logged: int, later: int)

  /** The stored form of a new node. */
  function Stamped(node: DagNode, now: int): DagNode {
    var created := if node.createdAt == 0 then now else node.createdAt;
    node.(createdAt := created, updatedAt := created)
  }

  function StampedSub(node: DagNode, now: int): DagNode {
    node.(createdAt := if node.createdAt == 0 then now else node.createdAt, updatedAt := now)
  }

  function StampedSubs(nodes: seq<DagNode>, now: int): (r: seq<DagNode>)
    ensures |r| == |nodes|
    ensures forall i :: 0 <= i < |nodes| ==> r[i] == StampedSub(nodes[i], now)
  {
    if nodes == [] then [] else StampedSubs(nodes[..|nodes| - 1], now) + [StampedSub(nodes[|nodes| - 1], now)]
  }

  /** The document a bulk load stores: the configured ceiling replaces the caller's. */
  function Prepared(dag: DagData, ceiling: nat, now: int): DagData {
    dag.(header := dag.header.(maxNodes := ceiling, schemaVersion := CURRENT_SCHEMA_VERSION, lastModified := now))
  }

  /** All nodes called id are counted as done in the ceiling test of a split. */
  function MarkAllDone(nodes: seq<DagNode>, id: string): (r: seq<DagNode>)
    ensures |r| == |nodes|
    ensures forall i :: 0 <= i < |nodes| ==>
        r[i] == if nodes[i].id == id then nodes[i].(status := STATUS_DONE) else nodes[i]
  {
    if nodes == [] then []
    else
      var n := nodes[|nodes| - 1];
      MarkAllDone(nodes[..|nodes| - 1], id) + [if n.id == id then n.(status := STATUS_DONE) else n]
  }

  predicate OwnerMayUpdate(node: DagNode, agentID: string) {
    TrimSpace(agentID) != "" && TrimSpace(node.assignedAgent) == TrimSpace(agentID)
  }

  /** The validation that precedes the log write. */
  ghost predicate Accepts(dag: DagData, c: Command) {
    match c
    case AddNode(node) => CountActive(dag.nodes + [node]) <= dag.header.maxNodes && OneOwnerPerFile(dag.nodes + [node])
    case UpdateNode(id, agentID, _, _, enforceOwner) =>
      var i := FirstIndex(dag.nodes, id);
      i < |dag.nodes| && (enforceOwner ==> OwnerMayUpdate(dag.nodes[i], agentID))
    case AssignNode(id, _) => FirstIndex(dag.nodes, id) < |dag.nodes|
    case AddEdge(edge) => Acyclic(Ids(dag.nodes), dag.edges + [edge])
    case SplitNode(parentID, subNodes) =>
      && FirstIndex(dag.nodes, parentID) < |dag.nodes|
      && CountActive(MarkAllDone(dag.nodes, parentID) + subNodes) <= dag.header.maxNodes
    case BulkLoad(loaded) => Admissible(loaded)
  }

  /** What an accepted command writes to the log. */
  function Logged(c: Command, ceiling: nat, t: Times): Mutation {
    match c
    case AddNode(node) => MutAddNode(Stamped(node, t.now))
    case UpdateNode(id, _, status, metrics, _) => MutUpdateNode(id, status, metrics)
    case AssignNode(id, agentID) => MutAssignNode(id, agentID)
    case AddEdge(edge) => MutAddEdge(edge)
    case SplitNode(parentID, subNodes) => MutSplitNode(parentID, StampedSubs(subNodes, t.now))
    case BulkLoad(loaded) => MutBulkLoad(Prepared(loaded, ceiling, t.now))
  }

  function LogEntry(c: Command, ceiling: nat, t: Times): WalEntry {
    WalEntry(Logged(c, ceiling, t), t.logged)
  }

  /** What an accepted command does to the DAG in memory. */
  function LiveEffect(dag: DagData, c: Command, ceiling: nat, t: Times): DagData {
    match c
    case AddNode(node) => Touched(Recounted(dag, dag.nodes + [Stamped(node, t.now)]), t.later)
    case UpdateNode(id, _, status, metrics, _) =>
      Touched(Recounted(dag, ChangeFirst(dag.nodes, id, Update(status, metrics, t.now))), t.now)
    case AssignNode(id, agentID) =>
      Touched(dag.(nodes := ChangeFirst(dag.nodes, id, Bind(agentID, Some(t.now)))), t.now)
    case AddEdge(edge) => Touched(dag.(edges := dag.edges + [edge]), t.later)
    case SplitNode(parentID, subNodes) =>
      Touched(Recounted(dag, ChangeFirst(dag.nodes, parentID, Finish) + StampedSubs(subNodes, t.now)), t.now)
    case BulkLoad(loaded) => Recounted(Prepared(loaded, ceiling, t.now), loaded.nodes)
  }

  // ---------- live and replay agree ----------

  predicate SameNode(a: DagNode, b: DagNode) {
    a.(updatedAt := 0) == b.(updatedAt := 0)
  }

  predicate SameNodes(a: seq<DagNode>, b: seq<DagNode>) {
    |a| == |b| && forall i :: 0 <= i < |a| ==> SameNode(a[i], b[i])
  }

  /** Equal up to update times, modification time and the cached active count. */
  predicate SameContent(a: DagData, b: DagData) {
    && SameNodes(a.nodes, b.nodes)
    && a.edges == b.edges
    && a.header.maxNodes == b.header.maxNodes
    && a.header.schemaVersion == b.header.schemaVersion
  }

  lemma SameFirstIndex(a: seq<DagNode>, b: seq<DagNode>, id: string)
    requires SameNodes(a, b)
    ensures FirstIndex(a, id) == FirstIndex(b, id)
  {
    var i := FirstIndex(a, id);
    assert forall j :: 0 <= j < |a| ==> SameNode(a[j], b[j]) && a[j].id == b[j].id;
    FirstIndexIs(b, id, i);
  }

  /** The same change at two different times. */
  predicate SameChange(x: NodeChange, y: NodeChange) {
    match x
    case Update(status, metrics, _) => y.Update? && y.status == status && y.metrics == metrics
    case Finish => y.Finish?
    case Bind(agentID, _) => y.Bind? && y.agentID == agentID
  }

  lemma SameAfterChange(a: seq<DagNode>, b: seq<DagNode>, id: string, x: NodeChange, y: NodeChange)
    requires SameNodes(a, b) && SameChange(x, y)
    ensures SameNodes(ChangeFirst(a, id, x), ChangeFirst(b, id, y))
  {
    SameFirstIndex(a, b, id);
    var i := FirstIndex(a, id);
    if i < |a| {
      assert SameNode(a[i], b[i]);
      assert SameNode(Changed(a[i], x), Changed(b[i], y));
    }
  }

  lemma SameAfterAppend(a: seq<DagNode>, b: seq<DagNode>, more: seq<DagNode>)
    requires SameNodes(a, b)
    ensures SameNodes(a + more, b + more)
  {
    forall i | 0 <= i < |a + more| ensures SameNode((a + more)[i], (b + more)[i]) {
      if i < |a| {
        assert SameNode(a[i], b[i]);
      }
    }
  }

  /** Replaying one entry onto equal contents gives equal contents. */
  lemma ApplyRespectsContent(a: DagData, b: DagData, e: WalEntry)
    requires SameContent(a, b)
    ensures SameContent(ApplyMutation(a, e), ApplyMutation(b, e))
  {
    match e.mutation
    case MutAddNode(node) => SameAfterAppend(a.nodes, b.nodes, [node]);
    case MutUpdateNode(id, status, metrics) =>
      SameAfterChange(a.nodes, b.nodes, id, Update(status, metrics, e.timestamp), Update(status, metrics, e.timestamp));
    case MutAddEdge(_) =>
    case MutRemoveEdge(_, _) =>
    case MutSplitNode(id, subNodes) =>
      SameAfterChange(a.nodes, b.nodes, id, Finish, Finish);
      SameAfterAppend(ChangeFirst(a.nodes, id, Finish), ChangeFirst(b.nodes, id, Finish), subNodes);
    case MutBulkLoad(_) =>
    case MutAssignNode(id, agentID) => SameAfterChange(a.nodes, b.nodes, id, Bind(agentID, None), Bind(agentID, None));
    case MutUnknown(_) =>
  }

  lemma {:induction false} ReplayRespectsContent(a: DagData, b: DagData, log: seq<WalEntry>)
    requires SameContent(a, b)
    ensures SameContent(Replay(a, log), Replay(b, log))
  {
    if log != [] {
      ReplayRespectsContent(a, b, log[..|log| - 1]);
      ApplyRespectsContent(Replay(a, log[..|log| - 1]), Replay(b, log[..|log| - 1]), log[|log| - 1]);
    }
  }

  /** The second implementation agrees with the first: replaying the entry of a command has the command's effect. */
  lemma ReplayMatchesLive(live: DagData, replayed: DagData, c: Command, ceiling: nat, t: Times)
    requires SameContent(live, replayed)
    ensures SameContent(LiveEffect(live, c, ceiling, t), ApplyMutation(replayed, LogEntry(c, ceiling, t)))
  {
    hide ChangeFirst, CountActive, Stamped, StampedSubs;
    match c
    case AddNode(node) => SameAfterAppend(live.nodes, replayed.nodes, [Stamped(node, t.now)]);
    case UpdateNode(id, _, status, metrics, _) =>
      SameAfterChange(live.nodes, replayed.nodes, id, Update(status, metrics, t.now),
          Update(status, metrics, t.logged));
    case AssignNode(id, agentID) =>
      SameAfterChange(live.nodes, replayed.nodes, id, Bind(agentID, Some(t.now)), Bind(agentID, None));
    case AddEdge(_) =>
    case SplitNode(id, subNodes) =>
      SameAfterChange(live.nodes, replayed.nodes, id, Finish, Finish);
      SameAfterAppend(ChangeFirst(live.nodes, id, Finish), ChangeFirst(replayed.nodes, id, Finish),
          StampedSubs(subNodes, t.now));
    case BulkLoad(_) =>
  }

  lemma SameIds(a: seq<DagNode>, b: seq<DagNode>)
    requires SameNodes(a, b)
    ensures Ids(a) == Ids(b)
  {
    assert forall i :: 0 <= i < |a| ==> SameNode(a[i], b[i]) && a[i].id == b[i].id;
  }

  lemma SameOwners(a: seq<DagNode>, b: seq<DagNode>)
    requires SameNodes(a, b)
    ensures OneOwnerPerFile(a) == OneOwnerPerFile(b)
  {
    assert forall i :: 0 <= i < |a| ==>
        SameNode(a[i], b[i]) && a[i].targetFiles == b[i].targetFiles && a[i].domainID == b[i].domainID;
  }

  lemma SameCount(a: seq<DagNode>, b: seq<DagNode>)
    requires SameNodes(a, b)
    ensures CountActive(a) == CountActive(b)
  {
    assert forall i :: 0 <= i < |a| ==> SameNode(a[i], b[i]) && a[i].status == b[i].status;
    CountActiveCongruence(a, b);
  }

  lemma SameAnswers(a: DagData, b: DagData, c: Command)
    requires SameContent(a, b)
    ensures Accepts(a, c) <==> Accepts(b, c)
  {
    match c
    case AddNode(node) =>
      SameAfterAppend(a.nodes, b.nodes, [node]);
      SameOwners(a.nodes + [node], b.nodes + [node]);
      SameCount(a.nodes + [node], b.nodes + [node]);
    case UpdateNode(id, _, _, _, _) =>
      SameFirstIndex(a.nodes, b.nodes, id);
      var i := FirstIndex(a.nodes, id);
      assert i < |a.nodes| ==> SameNode(a.nodes[i], b.nodes[i]);
    case AssignNode(id, _) => SameFirstIndex(a.nodes, b.nodes, id);
    case AddEdge(_) => SameIds(a.nodes, b.nodes);
    case SplitNode(id, subNodes) =>
      SameFirstIndex(a.nodes, b.nodes, id);
      assert forall i :: 0 <= i < |a.nodes| ==> SameNode(a.nodes[i], b.nodes[i]);
      SameAfterAppend(MarkAllDone(a.nodes, id), MarkAllDone(b.nodes, id), subNodes);
      SameCount(MarkAllDone(a.nodes, id) + subNodes, MarkAllDone(b.nodes, id) + subNodes);
    case BulkLoad(_) =>
  }

  /** The ignored fields never influence an answer: equal contents accept the same commands and stay equal. */
  lemma SameContentIsBisimulation(a: DagData, b: DagData, c: Command, ceiling: nat, t: Times)
    requires SameContent(a, b)
    ensures Accepts(a, c) <==> Accepts(b, c)
    ensures SameContent(LiveEffect(a, c, ceiling, t), LiveEffect(b, c, ceiling, t))
  {
    SameAnswers(a, b, c);
    ReplayMatchesLive(a, a, c, ceiling, t);
    ReplayMatchesLive(b, b, c, ceiling, t);
    ApplyRespectsContent(a, b, LogEntry(c, ceiling, t));
  }
}
