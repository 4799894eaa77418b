/** Which logs may be replayed twice: closed forms of replay, and an exact criterion. */
module Idempotence {
  import opened DagTypes
  import opened Mutations

  ghost predicate HasBulkLoad(log: seq<WalEntry>) {
    exists k :: 0 <= k < |log| && log[k].mutation.MutBulkLoad?
  }

  /** The log removes, somewhere, the edges between these endpoints. */
  predicate Removes(log: seq<WalEntry>, fromNode: string, toNode: string) {
    exists k :: 0 <= k < |log| && log[k].mutation == MutRemoveEdge(fromNode, toNode)
  }

  /** An entry that adds no node and is not a bulk load. */
  predicate KeepsNodeList(m: Mutation) {
    !m.MutAddNode? && !m.MutBulkLoad? && (m.MutSplitNode? ==> m.subNodes == [])
  }

  ghost predicate InPlace(log: seq<WalEntry>) {
    forall k :: 0 <= k < |log| ==> KeepsNodeList(log[k].mutation)
  }

  /** A log that can be replayed over its own result: it bulk-loads, or it adds no node and every edge it adds it also
      removes. */
  ghost predicate ReplaysTwice(log: seq<WalEntry>) {
    HasBulkLoad(log) || (InPlace(log) && SurvivorFree(log))
  }

  ghost predicate SurvivorFree(log: seq<WalEntry>) {
    forall k :: 0 <= k < |log| && log[k].mutation.MutAddEdge?
      ==> Removes(log, log[k].mutation.edge.fromNode, log[k].mutation.edge.toNode)
  }

  // ---------- a bulk load forgets ----------

  lemma {:induction false} BulkLoadForgets(a: DagData, b: DagData, log: seq<WalEntry>)
    requires HasBulkLoad(log)
    ensures Replay(a, log) == Replay(b, log)
  {
    var last := |log| - 1;
    if !log[last].mutation.MutBulkLoad? {
      var k :| 0 <= k < |log| && log[k].mutation.MutBulkLoad?;
      assert log[..last][k].mutation.MutBulkLoad?;
      BulkLoadForgets(a, b, log[..last]);
    }
  }

  // ---------- node counts ----------

  function NodesAdded(log: seq<WalEntry>): nat {
    if log == [] then 0
    else
      var before := NodesAdded(log[..|log| - 1]);
      match log[|log| - 1].mutation
      case MutAddNode(_) => before + 1
      case MutSplitNode(_, subNodes) => before + |subNodes|
      case _ => before
  }

  lemma NodesAddedByOne(dag: DagData, e: WalEntry)
    requires !e.mutation.MutBulkLoad?
    ensures |ApplyMutation(dag, e).nodes| == |dag.nodes| +
      (if e.mutation.MutAddNode? then 1 else if e.mutation.MutSplitNode? then |e.mutation.subNodes| else 0)
  {}

  lemma {:induction false} NodeCountAfter(dag: DagData, log: seq<WalEntry>)
    requires !HasBulkLoad(log)
    ensures |Replay(dag, log).nodes| == |dag.nodes| + NodesAdded(log)
  {
    if log != [] {
      var init := log[..|log| - 1];
      assert forall k :: 0 <= k < |init| ==> init[k] == log[k];
      NodeCountAfter(dag, init);
      NodesAddedByOne(Replay(dag, init), log[|log| - 1]);
      hide ApplyMutation;
    }
  }

  lemma {:induction false} NoNodesAddedIffInPlace(log: seq<WalEntry>)
    requires !HasBulkLoad(log)
    ensures NodesAdded(log) == 0 <==> InPlace(log)
  {
    if log != [] {
      var init := log[..|log| - 1];
      assert forall k :: 0 <= k < |init| ==> init[k] == log[k];
      NoNodesAddedIffInPlace(init);
      assert InPlace(log) <==> InPlace(init) && KeepsNodeList(log[|log| - 1].mutation);
    }
  }

  // ---------- the closed form of the nodes: the last writer of each field wins ----------

  /** The field values a log leaves behind on one node; None means untouched. */
  datatype Patch = Patch(status: Option<NodeStatus>, updatedAt: Option<int>, clearsSpec: bool,
                         metrics: Option<NodeMetrics>, agent: Option<string>)

  function PatchOf(log: seq<WalEntry>, id: string): Patch {
    if log == [] then Patch(None, None, false, None, None)
    else Extended(PatchOf(log[..|log| - 1], id), log[|log| - 1], id)
  }

  function Extended(p: Patch, e: WalEntry, id: string): Patch {
    match e.mutation
    case MutUpdateNode(id', status, metrics) =>
      if id' != id then p
      else p.(status := Some(status), updatedAt := Some(e.timestamp),
              clearsSpec := p.clearsSpec || status == 2,
              metrics := if metrics.Some? then metrics else p.metrics)
    case MutSplitNode(id', _) => if id' != id then p else p.(status := Some(STATUS_DONE), clearsSpec := true)
    case MutAssignNode(id', agentID) => if id' != id then p else p.(agent := Some(agentID))
    case _ => p
  }

  /** The change an in-place entry makes, and the name of the node it concerns. */
  datatype Target = Nothing | Target(id: string, change: NodeChange)

  function TargetOf(e: WalEntry): Target {
    match e.mutation
    case MutUpdateNode(id, status, metrics) => Target(id, Update(status, metrics, e.timestamp))
    case MutSplitNode(id, _) => Target(id, Finish)
    case MutAssignNode(id, agentID) => Target(id, Bind(agentID, None))
    case _ => Nothing
  }

  function Retouched(n: DagNode, e: WalEntry): DagNode {
    match TargetOf(e)
    case Nothing => n
    case Target(id, change) => if id == n.id then Changed(n, change) else n
  }

  function Or<T>(x: Option<T>, default: T): T {
    if x.Some? then x.value else default
  }

  function Patched(n: DagNode, p: Patch): DagNode {
    DagNode(n.id, n.domainID, if p.clearsSpec then "" else n.taskSpec, Or(p.status, n.status),
            Or(p.agent, n.assignedAgent), n.targetFiles, n.priority, n.createdAt, Or(p.updatedAt, n.updatedAt),
            if p.metrics.Some? then p.metrics.value.startedAt else n.startedAt,
            if p.metrics.Some? then p.metrics.value.completedAt else n.completedAt,
            if p.metrics.Some? then p.metrics.value.promptTokens else n.promptTokens,
            if p.metrics.Some? then p.metrics.value.completionTokens else n.completionTokens)
  }

  /** Node i after the log: patched if it is the first node with its name, untouched otherwise. */
  function NodeAfter(nodes: seq<DagNode>, log: seq<WalEntry>, i: nat): DagNode
    requires i < |nodes|
  {
    if FirstIndex(nodes, nodes[i].id) == i then Patched(nodes[i], PatchOf(log, nodes[i].id)) else nodes[i]
  }

  lemma SameNamesSameFirst(a: seq<DagNode>, b: seq<DagNode>, id: string)
    requires |a| == |b| && forall i :: 0 <= i < |a| ==> a[i].id == b[i].id
    ensures FirstIndex(a, id) == FirstIndex(b, id)
  {
    FirstIndexIs(b, id, FirstIndex(a, id));
  }

  /** One entry changes the patch of the node it names as it changes the node. */
  lemma PatchStep(n: DagNode, p: Patch, e: WalEntry)
    ensures Patched(n, Extended(p, e, n.id)) == Retouched(Patched(n, p), e)
  {
    match e.mutation
    case MutUpdateNode(id, _, _) =>
    case _ =>
  }

  /** An in-place entry retouches the first node of its name and no other. */
  lemma OneChange(dag: DagData, e: WalEntry, i: nat)
    requires i < |dag.nodes| && KeepsNodeList(e.mutation)
    ensures |ApplyMutation(dag, e).nodes| == |dag.nodes|
    ensures ApplyMutation(dag, e).nodes[i]
         == if FirstIndex(dag.nodes, dag.nodes[i].id) == i then Retouched(dag.nodes[i], e) else dag.nodes[i]
  {
  }

  lemma {:induction false} NodesClosedForm(dag: DagData, log: seq<WalEntry>)
    requires InPlace(log)
    ensures |Replay(dag, log).nodes| == |dag.nodes|
    ensures forall i :: 0 <= i < |dag.nodes| ==> Replay(dag, log).nodes[i] == NodeAfter(dag.nodes, log, i)
  {
    if log != [] {
      hide ApplyMutation, Patched, Extended, Retouched, KeepsNodeList;
      var init, e := log[..|log| - 1], log[|log| - 1];
      NodesClosedForm(dag, init);
      var before := Replay(dag, init).nodes;
      forall i | 0 <= i < |dag.nodes|
        ensures |Replay(dag, log).nodes| == |dag.nodes| && Replay(dag, log).nodes[i] == NodeAfter(dag.nodes, log, i)
      {
        PatchKeepsName(dag.nodes, init);
        SameNamesSameFirst(before, dag.nodes, dag.nodes[i].id);
        PatchStep(dag.nodes[i], PatchOf(init, dag.nodes[i].id), e);
        OneChange(Replay(dag, init), e, i);
      }
      if dag.nodes == [] {
        NodeCountKept(Replay(dag, init), e);
      }
    }
  }

  lemma PatchKeepsName(nodes: seq<DagNode>, log: seq<WalEntry>)
    ensures forall i :: 0 <= i < |nodes| ==> NodeAfter(nodes, log, i).id == nodes[i].id
  {}

  lemma NodeCountKept(dag: DagData, e: WalEntry)
    requires KeepsNodeList(e.mutation)
    ensures |ApplyMutation(dag, e).nodes| == |dag.nodes|
  {}

  // ---------- the closed form of the edges ----------

  /** The edges that no removal in the log concerns. */
  function Unremoved(edges: seq<DagEdge>, log: seq<WalEntry>): seq<DagEdge> {
    if log == [] then edges
    else
      var rest := Unremoved(edges, log[..|log| - 1]);
      match log[|log| - 1].mutation
      case MutRemoveEdge(fromNode, toNode) => FilterEdges(rest, fromNode, toNode)
      case _ => rest
  }

  /** The added edges that no later entry removes. */
  function Survivors(log: seq<WalEntry>): seq<DagEdge> {
    if log == [] then []
    else
      var rest := Survivors(log[..|log| - 1]);
      match log[|log| - 1].mutation
      case MutAddEdge(edge) => rest + [edge]
      case MutRemoveEdge(fromNode, toNode) => FilterEdges(rest, fromNode, toNode)
      case _ => rest
  }

  lemma {:induction false} FilterConcat(a: seq<DagEdge>, b: seq<DagEdge>, u: string, v: string)
    ensures FilterEdges(a + b, u, v) == FilterEdges(a, u, v) + FilterEdges(b, u, v)
  {
    if b == [] {
      assert a + b == a;
    } else {
      FilterConcat(a, b[..|b| - 1], u, v);
      assert (a + b)[..|a + b| - 1] == a + b[..|b| - 1];
    }
  }

  lemma {:induction false} FilterMembers(edges: seq<DagEdge>, u: string, v: string, e: DagEdge)
    ensures e in FilterEdges(edges, u, v) <==> e in edges && (e.fromNode != u || e.toNode != v)
  {
    if edges != [] {
      FilterMembers(edges[..|edges| - 1], u, v, e);
      assert edges == edges[..|edges| - 1] + [edges[|edges| - 1]];
    }
  }

  lemma {:induction false} FilterNothing(edges: seq<DagEdge>, u: string, v: string)
    requires forall k :: 0 <= k < |edges| ==> edges[k].fromNode != u || edges[k].toNode != v
    ensures FilterEdges(edges, u, v) == edges
  {
    if edges != [] {
      FilterNothing(edges[..|edges| - 1], u, v);
    }
  }

  lemma {:induction false} UnremovedConcat(a: seq<DagEdge>, b: seq<DagEdge>, log: seq<WalEntry>)
    ensures Unremoved(a + b, log) == Unremoved(a, log) + Unremoved(b, log)
  {
    if log != [] {
      var init, m := log[..|log| - 1], log[|log| - 1].mutation;
      UnremovedConcat(a, b, init);
      if m.MutRemoveEdge? {
        FilterConcat(Unremoved(a, init), Unremoved(b, init), m.fromNode, m.toNode);
      }
    }
  }

  lemma RemovesStep(log: seq<WalEntry>, u: string, v: string)
    requires log != []
    ensures Removes(log, u, v) <==> Removes(log[..|log| - 1], u, v) || log[|log| - 1].mutation == MutRemoveEdge(u, v)
  {
    var init := log[..|log| - 1];
    if Removes(log, u, v) {
      var k :| 0 <= k < |log| && log[k].mutation == MutRemoveEdge(u, v);
      assert k < |init| ==> init[k].mutation == MutRemoveEdge(u, v);
    }
    if Removes(init, u, v) {
      var k :| 0 <= k < |init| && init[k].mutation == MutRemoveEdge(u, v);
      assert log[k].mutation == MutRemoveEdge(u, v);
    }
  }

  lemma {:induction false} UnremovedMembers(edges: seq<DagEdge>, log: seq<WalEntry>, e: DagEdge)
    ensures e in Unremoved(edges, log) <==> e in edges && !Removes(log, e.fromNode, e.toNode)
  {
    if log != [] {
      var init, m := log[..|log| - 1], log[|log| - 1].mutation;
      UnremovedMembers(edges, init, e);
      RemovesStep(log, e.fromNode, e.toNode);
      if m.MutRemoveEdge? {
        FilterMembers(Unremoved(edges, init), m.fromNode, m.toNode, e);
      }
    }
  }

  lemma {:induction false} UnremovedNothing(edges: seq<DagEdge>, log: seq<WalEntry>)
    requires forall k :: 0 <= k < |edges| ==> !Removes(log, edges[k].fromNode, edges[k].toNode)
    ensures Unremoved(edges, log) == edges
  {
    if log != [] {
      var init, m := log[..|log| - 1], log[|log| - 1].mutation;
      forall k | 0 <= k < |edges|
          ensures !Removes(init, edges[k].fromNode, edges[k].toNode)
              && m != MutRemoveEdge(edges[k].fromNode, edges[k].toNode) {
        RemovesStep(log, edges[k].fromNode, edges[k].toNode);
      }
      UnremovedNothing(edges, init);
      if m.MutRemoveEdge? {
        FilterNothing(edges, m.fromNode, m.toNode);
      }
    }
  }

  lemma UnremovedTwice(edges: seq<DagEdge>, log: seq<WalEntry>)
    ensures Unremoved(Unremoved(edges, log), log) == Unremoved(edges, log)
  {
    var once := Unremoved(edges, log);
    forall k | 0 <= k < |once| ensures !Removes(log, once[k].fromNode, once[k].toNode) {
      UnremovedMembers(edges, log, once[k]);
    }
    UnremovedNothing(once, log);
  }

  lemma EdgesStep(dag: DagData, e: WalEntry)
    requires !e.mutation.MutBulkLoad?
    ensures ApplyMutation(dag, e).edges ==
      match e.mutation
      case MutAddEdge(edge) => dag.edges + [edge]
      case MutRemoveEdge(fromNode, toNode) => FilterEdges(dag.edges, fromNode, toNode)
      case _ => dag.edges
  {
    hide ChangeFirst, CountActive, FilterEdges;
  }

  lemma {:induction false} EdgesClosedForm(dag: DagData, log: seq<WalEntry>)
    requires !HasBulkLoad(log)
    ensures Replay(dag, log).edges == Unremoved(dag.edges, log) + Survivors(log)
  {
    if log != [] {
      hide ApplyMutation, FilterEdges;
      var init, m := log[..|log| - 1], log[|log| - 1].mutation;
      assert forall k :: 0 <= k < |init| ==> init[k] == log[k];
      EdgesClosedForm(dag, init);
      EdgesStep(Replay(dag, init), log[|log| - 1]);
      if m.MutRemoveEdge? {
        FilterConcat(Unremoved(dag.edges, init), Survivors(init), m.fromNode, m.toNode);
      }
    }
  }

  /** A surviving edge was added; an added edge that is removed nowhere survives. */
  lemma {:induction false} SurvivorMembers(log: seq<WalEntry>, e: DagEdge)
    ensures e in Survivors(log) ==> exists k :: 0 <= k < |log| && log[k].mutation == MutAddEdge(e)
    ensures (exists k :: 0 <= k < |log| && log[k].mutation == MutAddEdge(e)) && !Removes(log, e.fromNode, e.toNode) ==>
        e in Survivors(log)
  {
    if log != [] {
      var init, m := log[..|log| - 1], log[|log| - 1].mutation;
      SurvivorMembers(init, e);
      RemovesStep(log, e.fromNode, e.toNode);
      if exists k :: 0 <= k < |init| && init[k].mutation == MutAddEdge(e) {
        var k :| 0 <= k < |init| && init[k].mutation == MutAddEdge(e);
        assert log[k].mutation == MutAddEdge(e);
      }
      if exists k :: 0 <= k < |log| && log[k].mutation == MutAddEdge(e) {
        var k :| 0 <= k < |log| && log[k].mutation == MutAddEdge(e);
        assert k < |init| ==> init[k].mutation == MutAddEdge(e);
      }
      if m.MutRemoveEdge? {
        FilterMembers(Survivors(init), m.fromNode, m.toNode, e);
      }
    }
  }

  lemma SurvivorFreeIff(log: seq<WalEntry>)
    ensures Unremoved(Survivors(log), log) == [] <==> SurvivorFree(log)
  {
    var left := Unremoved(Survivors(log), log);
    if SurvivorFree(log) && left != [] {
      UnremovedMembers(Survivors(log), log, left[0]);
      SurvivorMembers(log, left[0]);
    }
    if !SurvivorFree(log) {
      var k :| 0 <= k < |log| && log[k].mutation.MutAddEdge?
        && !Removes(log, log[k].mutation.edge.fromNode, log[k].mutation.edge.toNode);
      SurvivorMembers(log, log[k].mutation.edge);
      UnremovedMembers(Survivors(log), log, log[k].mutation.edge);
    }
  }

  // ---------- the header ----------

  predicate Counts(m: Mutation) {
    m.MutAddNode? || m.MutUpdateNode? || m.MutSplitNode?
  }

  ghost predicate HasCounting(log: seq<WalEntry>) {
    exists k :: 0 <= k < |log| && Counts(log[k].mutation)
  }

  lemma QuietEntryKeepsCount(dag: DagData, e: WalEntry)
    requires !Counts(e.mutation) && !e.mutation.MutBulkLoad?
    ensures CountActive(ApplyMutation(dag, e).nodes) == CountActive(dag.nodes)
    ensures ApplyMutation(dag, e).header.activeNodeCount == dag.header.activeNodeCount
  {
    var after := ApplyMutation(dag, e).nodes;
    assert forall i :: 0 <= i < |after| ==> after[i].status == dag.nodes[i].status;
    CountActiveCongruence(after, dag.nodes);
  }

  /** What one entry does to the header. */
  lemma HeaderStep(dag: DagData, e: WalEntry)
    requires !e.mutation.MutBulkLoad?
    ensures ApplyMutation(dag, e).header == dag.header.(lastModified := e.timestamp,
      activeNodeCount := if Counts(e.mutation)
          then CountActive(ApplyMutation(dag, e).nodes) else dag.header.activeNodeCount)
  {}

  lemma NoBulkLoadInit(log: seq<WalEntry>)
    requires !HasBulkLoad(log) && log != []
    ensures !HasBulkLoad(log[..|log| - 1]) && !log[|log| - 1].mutation.MutBulkLoad?
  {
    assert forall k :: 0 <= k < |log| - 1 ==> log[..|log| - 1][k] == log[k];
  }

  lemma CountingStep(log: seq<WalEntry>)
    requires log != []
    ensures HasCounting(log) <==> HasCounting(log[..|log| - 1]) || Counts(log[|log| - 1].mutation)
  {
    hide Counts;
    var init := log[..|log| - 1];
    if HasCounting(init) {
      var k :| 0 <= k < |init| && Counts(init[k].mutation);
      assert Counts(log[k].mutation);
    }
    if HasCounting(log) {
      var k :| 0 <= k < |log| && Counts(log[k].mutation);
      assert k < |init| ==> Counts(init[k].mutation);
    }
  }

  /** Without a bulk load, the cached count is right once any entry has recounted, and otherwise untouched. */
  lemma {:induction false} HeaderClosedForm(dag: DagData, log: seq<WalEntry>)
    requires !HasBulkLoad(log)
    ensures Replay(dag, log).header == dag.header.(
      lastModified := if log == [] then dag.header.lastModified else log[|log| - 1].timestamp,
      activeNodeCount := if HasCounting(log) then CountActive(Replay(dag, log).nodes) else dag.header.activeNodeCount)
    ensures !HasCounting(log) ==> CountActive(Replay(dag, log).nodes) == CountActive(dag.nodes)
  {
    if log == [] {
      assert !HasCounting(log);
    } else {
      hide ApplyMutation, Counts, HasCounting, HasBulkLoad, CountActive;
      var init, e := log[..|log| - 1], log[|log| - 1];
      NoBulkLoadInit(log);
      CountingStep(log);
      HeaderClosedForm(dag, init);
      HeaderStep(Replay(dag, init), e);
      if !Counts(e.mutation) {
        QuietEntryKeepsCount(Replay(dag, init), e);
      }
    }
  }

  // ---------- the criterion ----------

  lemma NodesReplayedTwice(dag: DagData, log: seq<WalEntry>)
    requires InPlace(log)
    ensures Replay(Replay(dag, log), log).nodes == Replay(dag, log).nodes
  {
    var once := Replay(dag, log);
    var twice := Replay(once, log);
    NodesClosedForm(dag, log);
    NodesClosedForm(once, log);
    forall i | 0 <= i < |dag.nodes| ensures twice.nodes[i] == once.nodes[i] {
      assert once.nodes[i] == NodeAfter(dag.nodes, log, i);
      SameNamesSameFirst(once.nodes, dag.nodes, dag.nodes[i].id);
    }
  }

  lemma EdgesReplayedTwice(dag: DagData, log: seq<WalEntry>)
    requires !HasBulkLoad(log)
    ensures |Replay(Replay(dag, log), log).edges| == |Replay(dag, log).edges| + |Unremoved(Survivors(log), log)|
    ensures SurvivorFree(log) ==> Replay(Replay(dag, log), log).edges == Replay(dag, log).edges
  {
    EdgesClosedForm(dag, log);
    EdgesClosedForm(Replay(dag, log), log);
    UnremovedConcat(Unremoved(dag.edges, log), Survivors(log), log);
    UnremovedTwice(dag.edges, log);
    SurvivorFreeIff(log);
  }

  /** Replaying a log over its own result changes nothing exactly when ReplaysTwice holds; otherwise even the contents
      differ. */
  lemma ReplayTwiceCriterion(dag: DagData, log: seq<WalEntry>)
    ensures ReplaysTwice(log) ==> Replay(Replay(dag, log), log) == Replay(dag, log)
    ensures SameContent(Replay(Replay(dag, log), log), Replay(dag, log)) ==> ReplaysTwice(log)
  {
    var once := Replay(dag, log);
    if HasBulkLoad(log) {
      BulkLoadForgets(once, dag, log);
    } else {
      NodeCountAfter(once, log);
      NoNodesAddedIffInPlace(log);
      EdgesReplayedTwice(dag, log);
      SurvivorFreeIff(log);
      if InPlace(log) {
        NodesReplayedTwice(dag, log);
        HeaderClosedForm(dag, log);
        HeaderClosedForm(once, log);
      }
    }
  }

  // ---------- the closed form of the nodes, additions included ----------

  /** A node, and the position in the log behind the entry that brought it in. */
  datatype Born = Born(node: DagNode, since: nat)

  function BornAt(nodes: seq<DagNode>, since: nat): (r: seq<Born>)
    ensures |r| == |nodes| && forall i :: 0 <= i < |r| ==> r[i] == Born(nodes[i], since)
  {
    seq(|nodes|, i requires 0 <= i < |nodes| => Born(nodes[i], since))
  }

  function AddedBy(e: WalEntry): seq<DagNode> {
    match e.mutation
    case MutAddNode(node) => [node]
    case MutSplitNode(_, subNodes) => subNodes
    case _ => []
  }

  /** All nodes there ever are, in the order of their positions, as they came in. */
  function Births(nodes: seq<DagNode>, log: seq<WalEntry>): (r: seq<Born>)
    ensures forall i :: 0 <= i < |r| ==> r[i].since <= |log|
  {
    if log == [] then BornAt(nodes, 0)
    else Births(nodes, log[..|log| - 1]) + BornAt(AddedBy(log[|log| - 1]), |log|)
  }

  function AsBorn(births: seq<Born>): (r: seq<DagNode>)
    ensures |r| == |births| && forall i :: 0 <= i < |r| ==> r[i] == births[i].node
  {
    seq(|births|, i requires 0 <= i < |births| => births[i].node)
  }

  /** Node i after the log: patched by the entries since it came in if it is the first of its name, untouched
      otherwise. */
  function GrownNode(births: seq<Born>, log: seq<WalEntry>, i: nat): DagNode
    requires i < |births| && births[i].since <= |log|
  {
    var n := births[i].node;
    if FirstIndex(AsBorn(births), n.id) == i then Patched(n, PatchOf(log[births[i].since..], n.id)) else n
  }

  /** An entry other than a bulk load retouches the first node of its name and appends what it adds. */
  lemma EntryGrows(dag: DagData, e: WalEntry)
    requires !e.mutation.MutBulkLoad?
    ensures var after := ApplyMutation(dag, e).nodes;
      && |after| == |dag.nodes| + |AddedBy(e)|
      && (forall i :: 0 <= i < |dag.nodes| ==>
            after[i]
            == if FirstIndex(dag.nodes, dag.nodes[i].id) == i then Retouched(dag.nodes[i], e) else dag.nodes[i])
      && (forall i :: 0 <= i < |AddedBy(e)| ==> after[|dag.nodes| + i] == AddedBy(e)[i])
  {
    hide Changed, CountActive;
  }

  lemma GrownKeepsName(births: seq<Born>, log: seq<WalEntry>, i: nat)
    requires i < |births| && births[i].since <= |log|
    ensures GrownNode(births, log, i).id == births[i].node.id
  {}

  lemma FirstIndexInPrefix(nodes: seq<DagNode>, more: seq<DagNode>, i: nat)
    requires i < |nodes| && nodes <= more
    ensures FirstIndex(more, nodes[i].id) == FirstIndex(nodes, nodes[i].id)
  {
    FirstIndexIs(more, nodes[i].id, FirstIndex(nodes, nodes[i].id));
  }

  lemma NothingPatched(n: DagNode)
    ensures Patched(n, PatchOf([], n.id)) == n
  {}

  /** One more entry extends the patch of every node that is already there. */
  lemma GrownStep(births: seq<Born>, more: seq<Born>, log: seq<WalEntry>, i: nat)
    requires log != [] && i < |births| && births <= more && births[i].since < |log| && more[i].since <= |log|
    ensures var before := GrownNode(births, log[..|log| - 1], i);
      GrownNode(more, log, i)
      == if FirstIndex(AsBorn(births), births[i].node.id) == i then Retouched(before, log[|log| - 1]) else before
  {
    var init, n := log[..|log| - 1], births[i].node;
    FirstIndexInPrefix(AsBorn(births), AsBorn(more), i);
    var tail := log[births[i].since..];
    assert tail[..|tail| - 1] == init[births[i].since..] && tail[|tail| - 1] == log[|log| - 1];
    PatchStep(n, PatchOf(init[births[i].since..], n.id), log[|log| - 1]);
    hide Patched, Extended, Retouched;
  }

  /** The nodes are the births, grown over the log. */
  ghost predicate Grown(nodes: seq<DagNode>, births: seq<Born>, log: seq<WalEntry>)
    requires forall i :: 0 <= i < |births| ==> births[i].since <= |log|
  {
    |nodes| == |births| && forall i :: 0 <= i < |births| ==> nodes[i] == GrownNode(births, log, i)
  }

  lemma GrowthBegins(nodes: seq<DagNode>)
    ensures Grown(nodes, Births(nodes, []), [])
  {
    var births := Births(nodes, []);
    forall i | 0 <= i < |births| ensures nodes[i] == GrownNode(births, [], i) {
      NewbornIsUntouched(births, [], i);
    }
  }

  lemma GrowthStep(dag: DagData, births: seq<Born>, log: seq<WalEntry>)
    requires log != [] && !log[|log| - 1].mutation.MutBulkLoad?
    requires forall i :: 0 <= i < |births| ==> births[i].since <= |log| - 1
    requires Grown(dag.nodes, births, log[..|log| - 1])
    ensures Grown(ApplyMutation(dag, log[|log| - 1]).nodes, births + BornAt(AddedBy(log[|log| - 1]), |log|), log)
  {
    hide ApplyMutation, GrownNode, Retouched, AddedBy;
    var init, e := log[..|log| - 1], log[|log| - 1];
    var more := births + BornAt(AddedBy(e), |log|);
    EntryGrows(dag, e);
    forall i | 0 <= i < |more| ensures ApplyMutation(dag, e).nodes[i] == GrownNode(more, log, i) {
      if i < |births| {
        GrownStep(births, more, log, i);
        BirthsKeepNames(dag.nodes, births, init, i);
      } else {
        NewbornIsUntouched(more, log, i);
      }
    }
  }

  /** Replay leaves each node with the last value written to each field since it came in, by an entry that names it
      first. */
  lemma {:induction false} GrowthClosedForm(dag: DagData, log: seq<WalEntry>)
    requires !HasBulkLoad(log)
    ensures Grown(Replay(dag, log).nodes, Births(dag.nodes, log), log)
  {
    if log == [] {
      GrowthBegins(dag.nodes);
    } else {
      hide ApplyMutation, AddedBy, Grown;
      var init := log[..|log| - 1];
      assert forall k :: 0 <= k < |init| ==> init[k] == log[k];
      GrowthClosedForm(dag, init);
      GrowthStep(Replay(dag, init), Births(dag.nodes, init), log);
    }
  }

  lemma NewbornIsUntouched(births: seq<Born>, log: seq<WalEntry>, i: nat)
    requires i < |births| && births[i].since == |log|
    ensures GrownNode(births, log, i) == births[i].node
  {
    assert log[|log|..] == [];
    NothingPatched(births[i].node);
  }

  lemma BirthsKeepNames(nodes: seq<DagNode>, births: seq<Born>, log: seq<WalEntry>, i: nat)
    requires |nodes| == |births| && i < |births| && forall k :: 0 <= k < |births| ==> births[k].since <= |log|
    requires forall k :: 0 <= k < |births| ==> nodes[k] == GrownNode(births, log, k)
    ensures nodes[i].id == births[i].node.id
    ensures FirstIndex(nodes, nodes[i].id) == FirstIndex(AsBorn(births), nodes[i].id)
  {
    hide GrownNode;
    forall k | 0 <= k < |births| ensures nodes[k].id == AsBorn(births)[k].id {
      GrownKeepsName(births, log, k);
    }
    SameNamesSameFirst(nodes, AsBorn(births), nodes[i].id);
  }

  // ---------- when a log makes no difference ----------

  /** The position behind the last bulk load, or 0. */
  function BehindLoads(log: seq<WalEntry>): (k: nat)
    ensures k <= |log| && (k > 0 ==> log[k - 1].mutation.MutBulkLoad?)
    ensures forall j :: k <= j < |log| ==> !log[j].mutation.MutBulkLoad?
  {
    if log == [] then 0
    else if log[|log| - 1].mutation.MutBulkLoad? then |log|
    else BehindLoads(log[..|log| - 1])
  }

  /** The document the log builds on: the last one it loads, or else the stored one. */
  function Ground(stored: DagData, log: seq<WalEntry>): DagData {
    var k := BehindLoads(log);
    if k > 0 then Touched(log[k - 1].mutation.dag, log[k - 1].timestamp) else stored
  }

  /** The entries behind it. */
  function Rest(log: seq<WalEntry>): (r: seq<WalEntry>)
    ensures !HasBulkLoad(r)
  {
    log[BehindLoads(log)..]
  }

  /** Losing the log loses nothing: what it builds is what is stored, node by node and edge by edge. */
  ghost predicate ChangesNothing(stored: DagData, log: seq<WalEntry>) {
    var ground, rest := Ground(stored, log), Rest(log);
    var births := Births(ground.nodes, rest);
    && |births| == |stored.nodes|
    && (forall i :: 0 <= i < |births| ==> SameNode(GrownNode(births, rest, i), stored.nodes[i]))
    && Unremoved(ground.edges, rest) + Survivors(rest) == stored.edges
    && ground.header.maxNodes == stored.header.maxNodes && ground.header.schemaVersion == stored.header.schemaVersion
  }

  lemma UnfoldReplay(dag: DagData, log: seq<WalEntry>)
    requires log != []
    ensures Replay(dag, log) == ApplyMutation(Replay(dag, log[..|log| - 1]), log[|log| - 1])
  {}

  lemma ReplayNothing(dag: DagData)
    ensures Replay(dag, []) == dag
  {}

  lemma {:induction false} ReplayFrom(dag: DagData, log: seq<WalEntry>, k: nat)
    requires k <= |log|
    ensures Replay(dag, log) == Replay(Replay(dag, log[..k]), log[k..])
    decreases |log|
  {
    if k == |log| {
      assert log[..k] == log && log[k..] == [];
      ReplayNothing(Replay(dag, log));
    } else {
      var init, tail := log[..|log| - 1], log[k..];
      ReplayFrom(dag, init, k);
      assert init[..k] == log[..k];
      assert tail == init[k..] + [log[|log| - 1]];
      UnfoldReplay(dag, log);
      ReplayOne(Replay(dag, log[..k]), init[k..], log[|log| - 1]);
      hide ApplyMutation, Replay;
    }
  }

  lemma LoadReplays(dag: DagData, log: seq<WalEntry>)
    requires log != [] && log[|log| - 1].mutation.MutBulkLoad?
    ensures Replay(dag, log) == Touched(log[|log| - 1].mutation.dag, log[|log| - 1].timestamp)
  {}

  lemma ReplayFromGround(stored: DagData, log: seq<WalEntry>)
    ensures Replay(stored, log) == Replay(Ground(stored, log), Rest(log))
  {
    hide BehindLoads, Replay;
    var k := BehindLoads(log);
    ReplayFrom(stored, log, k);
    if k > 0 {
      LoadReplays(stored, log[..k]);
    } else {
      ReplayNothing(stored);
    }
  }

  lemma ChangesNothingCriterion(stored: DagData, log: seq<WalEntry>)
    ensures SameContent(Replay(stored, log), stored) <==> ChangesNothing(stored, log)
  {
    hide GrownNode, Births, Unremoved, Survivors, Replay, SameNode, HasCounting, Ground, Rest;
    ReplayFromGround(stored, log);
    GrowthClosedForm(Ground(stored, log), Rest(log));
    EdgesClosedForm(Ground(stored, log), Rest(log));
    HeaderClosedForm(Ground(stored, log), Rest(log));
  }

  /** A log replayed onto an empty DAG and onto another gives equal contents exactly when it bulk-loads or neither has
      nodes. */
  lemma FreshStartCriterion(dag: DagData, log: seq<WalEntry>, ceiling: nat)
    requires dag.nodes == [] ==> dag == NewDagData(ceiling)
    ensures SameContent(Replay(NewDagData(ceiling), log), Replay(dag, log)) <==> HasBulkLoad(log) || dag.nodes == []
  {
    hide Replay;
    if HasBulkLoad(log) {
      BulkLoadForgets(dag, NewDagData(ceiling), log);
    } else {
      NodeCountAfter(dag, log);
      NodeCountAfter(NewDagData(ceiling), log);
    }
  }

  // ---------- the cached count after recovery ----------

  /** The last bulk load carries a wrong count and no later entry recounts. */
  ghost predicate StaleCount(log: seq<WalEntry>) {
    exists k :: 0 <= k < |log| && StaleFrom(log, k)
  }

  ghost predicate StaleFrom(log: seq<WalEntry>, k: nat)
    requires k < |log|
  {
    && log[k].mutation.MutBulkLoad?
    && log[k].mutation.dag.header.activeNodeCount != CountActive(log[k].mutation.dag.nodes)
    && forall j :: k < j < |log| ==> !Counts(log[j].mutation) && !log[j].mutation.MutBulkLoad?
  }

  /** Staleness is decided by the last entry, or by the log before it. */
  lemma StaleStep(log: seq<WalEntry>)
    requires log != []
    ensures var m := log[|log| - 1].mutation;
      StaleCount(log) <==>
        if m.MutBulkLoad? then m.dag.header.activeNodeCount != CountActive(m.dag.nodes)
        else !Counts(m) && StaleCount(log[..|log| - 1])
  {
    hide Counts, CountActive;
    var last := |log| - 1;
    var init, m := log[..last], log[last].mutation;
    if m.MutBulkLoad? {
      assert StaleFrom(log, last) <==> m.dag.header.activeNodeCount != CountActive(m.dag.nodes);
      assert forall k :: 0 <= k < last ==> !StaleFrom(log, k);
    } else if Counts(m) {
      assert forall k :: 0 <= k < |log| ==> !StaleFrom(log, k);
    } else {
      assert forall k :: 0 <= k < last ==> (StaleFrom(log, k) <==> StaleFrom(init, k));
    }
  }

  /** Replay onto a correctly counted DAG yields a correct count exactly when the log is not stale. */
  lemma {:induction false} CountAfterReplay(dag: DagData, log: seq<WalEntry>)
    requires dag.header.activeNodeCount == CountActive(dag.nodes)
    ensures Replay(dag, log).header.activeNodeCount == CountActive(Replay(dag, log).nodes) <==> !StaleCount(log)
  {
    if log != [] {
      var init, e := log[..|log| - 1], log[|log| - 1];
      CountAfterReplay(dag, init);
      StaleStep(log);
      if e.mutation.MutBulkLoad? {
        assert Replay(dag, log) == Touched(e.mutation.dag, e.timestamp);
      } else {
        hide ApplyMutation, Counts, StaleCount;
        HeaderStep(Replay(dag, init), e);
        if !Counts(e.mutation) {
          QuietEntryKeepsCount(Replay(dag, init), e);
        }
      }
    }
  }
}
