/** The checks that a mutation must pass: Kahn's cycle check, file ownership, node ceiling, stub edges. */
module Validator {
  import opened DagTypes
  import opened Graph

  datatype ValidationError =
    | CycleDetected(nodes: seq<string>)
    | FileConflict(file: string, first: string, second: string)
    | CeilingExceeded(active: nat, maxNodes: nat)
    | StubEndpointMissing(node: string)

  /** Edges from members of s to v, counted with multiplicity. */
  function InDegreeFrom(edges: seq<DagEdge>, s: set<string>, v: string): nat {
    if edges == [] then 0
    else
      var e := edges[|edges| - 1];
      InDegreeFrom(edges[..|edges| - 1], s, v) + if e.fromNode in s && e.toNode == v then 1 else 0
  }

  /** Targets of the edges leaving u, in edge order, restricted to the vertices in vs. */
  function Targets(edges: seq<DagEdge>, vs: set<string>, u: string): seq<string> {
    if edges == [] then []
    else
      var e := edges[|edges| - 1];
      Targets(edges[..|edges| - 1], vs, u) + if e.fromNode == u && u in vs && e.toNode in vs then [e.toNode] else []
  }

  lemma {:induction false} InDegreeZero(edges: seq<DagEdge>, s: set<string>, v: string)
    ensures InDegreeFrom(edges, s, v) == 0 <==> !HasPredecessor(edges, s, v)
  {
    if edges == [] {
    } else {
      var init, e := edges[..|edges| - 1], edges[|edges| - 1];
      InDegreeZero(init, s, v);
      if HasPredecessor(init, s, v) {
        var u :| u in s && HasEdge(init, u, v);
        var k :| 0 <= k < |init| && init[k].fromNode == u && init[k].toNode == v;
        assert edges[k] == init[k];
        assert HasEdge(edges, u, v);
      }
      if e.fromNode in s && e.toNode == v {
        assert HasEdge(edges, e.fromNode, v);
      }
      if HasPredecessor(edges, s, v) {
        var u :| u in s && HasEdge(edges, u, v);
        var k :| 0 <= k < |edges| && edges[k].fromNode == u && edges[k].toNode == v;
        assert k < |init| ==> init[k] == edges[k] && HasEdge(init, u, v);
      }
    }
  }

  /** Taking u out of the sources removes exactly u's edges into v. */
  lemma {:induction false} InDegreeWithout(edges: seq<DagEdge>, vs: set<string>, s: set<string>, u: string, v: string)
    requires u in s && s <= vs && v in vs
    ensures InDegreeFrom(edges, s, v) == InDegreeFrom(edges, s - {u}, v) + multiset(Targets(edges, vs, u))[v]
  {
    if edges != [] {
      InDegreeWithout(edges[..|edges| - 1], vs, s, u, v);
    }
  }

  lemma {:induction false} TargetsAreVertices(edges: seq<DagEdge>, vs: set<string>, u: string)
    ensures forall k :: 0 <= k < |Targets(edges, vs, u)| ==> Targets(edges, vs, u)[k] in vs
  {
    if edges != [] {
      TargetsAreVertices(edges[..|edges| - 1], vs, u);
    }
  }

  ghost predicate AdjacencyOf(edges: seq<DagEdge>, vs: set<string>, inDegree: map<string, nat>,
                              adj: map<string, seq<string>>) {
    && inDegree.Keys == vs
    && (forall v :: v in vs ==> inDegree[v] == InDegreeFrom(edges, vs, v))
    && (forall u :: Neighbors(adj, u) == Targets(edges, vs, u))
  }

  function Neighbors(adj: map<string, seq<string>>, u: string): seq<string> {
    if u in adj then adj[u] else []
  }

  lemma InDegreeSnoc(edges: seq<DagEdge>, e: DagEdge, s: set<string>, v: string)
    ensures InDegreeFrom(edges + [e], s, v)
        == InDegreeFrom(edges, s, v) + (if e.fromNode in s && e.toNode == v then 1 else 0)
  {
    assert (edges + [e])[..|edges|] == edges;
  }

  lemma TargetsSnoc(edges: seq<DagEdge>, e: DagEdge, vs: set<string>, u: string)
    ensures Targets(edges + [e], vs, u)
         == Targets(edges, vs, u) + (if e.fromNode == u && u in vs && e.toNode in vs then [e.toNode] else [])
  {
    assert (edges + [e])[..|edges|] == edges;
  }

  lemma AdjacencySkip(edges: seq<DagEdge>, e: DagEdge, vs: set<string>, inDegree: map<string, nat>,
                      adj: map<string, seq<string>>)
    requires AdjacencyOf(edges, vs, inDegree, adj) && (e.fromNode !in vs || e.toNode !in vs)
    ensures AdjacencyOf(edges + [e], vs, inDegree, adj)
  {
    hide InDegreeFrom, Targets;
    forall v | v in vs ensures inDegree[v] == InDegreeFrom(edges + [e], vs, v) {
      InDegreeSnoc(edges, e, vs, v);
    }
    forall u ensures Neighbors(adj, u) == Targets(edges + [e], vs, u) {
      TargetsSnoc(edges, e, vs, u);
    }
  }

  lemma AdjacencyAdd(edges: seq<DagEdge>, e: DagEdge, vs: set<string>, inDegree: map<string, nat>,
                     adj: map<string, seq<string>>)
    requires AdjacencyOf(edges, vs, inDegree, adj) && e.fromNode in vs && e.toNode in vs
    ensures AdjacencyOf(edges + [e], vs, inDegree[e.toNode := inDegree[e.toNode] + 1],
                        adj[e.fromNode := Neighbors(adj, e.fromNode) + [e.toNode]])
  {
    hide InDegreeFrom, Targets;
    var inDegree', adj' := inDegree[e.toNode := inDegree[e.toNode] + 1],
        adj[e.fromNode := Neighbors(adj, e.fromNode) + [e.toNode]];
    forall v | v in vs ensures inDegree'[v] == InDegreeFrom(edges + [e], vs, v) {
      InDegreeSnoc(edges, e, vs, v);
    }
    forall u ensures Neighbors(adj', u) == Targets(edges + [e], vs, u) {
      TargetsSnoc(edges, e, vs, u);
    }
  }

  /** In-degrees and adjacency lists of the edges between existing nodes. */
  method BuildAdjacency(nodeSet: set<string>, edges: seq<DagEdge>)
    returns (inDegree: map<string, nat>, adj: map<string, seq<string>>)
    ensures AdjacencyOf(edges, nodeSet, inDegree, adj)
  {
    inDegree := map id | id in nodeSet :: 0;
    adj := map[];
    assert AdjacencyOf(edges[..0], nodeSet, inDegree, adj);
    for i := 0 to |edges|
      invariant inDegree.Keys == nodeSet
      invariant AdjacencyOf(edges[..i], nodeSet, inDegree, adj)
    {
      var e := edges[i];
      assert edges[..i + 1] == edges[..i] + [e];
      if e.fromNode !in nodeSet || e.toNode !in nodeSet {
        AdjacencySkip(edges[..i], e, nodeSet, inDegree, adj);
        continue;
      }
      AdjacencyAdd(edges[..i], e, nodeSet, inDegree, adj);
      adj := adj[e.fromNode := Neighbors(adj, e.fromNode) + [e.toNode]];
      inDegree := inDegree[e.toNode := inDegree[e.toNode] + 1];
    }
    assert edges[..|edges|] == edges;
  }

  /** The keys whose value satisfies the test, each once, in the unspecified order of a map range. */
  method KeysByDegree(degrees: map<string, nat>, zero: bool) returns (keys: seq<string>)
    ensures forall i, j :: 0 <= i < j < |keys| ==> keys[i] != keys[j]
    ensures forall v :: v in keys <==> v in degrees && (degrees[v] == 0 <==> zero)
  {
    keys := [];
    var todo := degrees.Keys;
    while todo != {}
      invariant todo <= degrees.Keys
      invariant forall i, j :: 0 <= i < j < |keys| ==> keys[i] != keys[j]
      invariant forall v :: v in keys <==> v in degrees && v !in todo && (degrees[v] == 0 <==> zero)
    {
      var id :| id in todo;
      todo := todo - {id};
      if degrees[id] == 0 <==> zero {
        keys := keys + [id];
      }
    }
  }

  /** What holds between dequeues: order is the dequeued sequence, rest the vertices not dequeued. */
  ghost predicate KahnState(vs: set<string>, edges: seq<DagEdge>, order: seq<string>, queue: seq<string>,
                            inDegree: map<string, nat>) {
    && TopologicalPrefix(vs, edges, order)
    && inDegree.Keys == vs
    && (forall v :: v in vs ==> inDegree[v] == InDegreeFrom(edges, vs - Elements(order), v))
    && Frontier(vs, order, queue, inDegree)
  }

  /** The queue holds, once each, the vertices of degree zero that are not dequeued. */
  ghost predicate Frontier(vs: set<string>, order: seq<string>, queue: seq<string>, inDegree: map<string, nat>)
    requires inDegree.Keys == vs
  {
    && (forall i, j :: 0 <= i < j < |queue| ==> queue[i] != queue[j])
    && (forall v :: v in queue <==> v in vs && inDegree[v] == 0 && v !in order)
    && (forall v :: v in order && v in vs ==> inDegree[v] == 0)
  }

  lemma DequeueExtendsOrder(vs: set<string>, edges: seq<DagEdge>, order: seq<string>, queue: seq<string>,
                            inDegree: map<string, nat>)
    requires KahnState(vs, edges, order, queue, inDegree) && queue != []
    ensures TopologicalPrefix(vs, edges, order + [queue[0]])
  {
    var u, next := queue[0], order + [queue[0]];
    InDegreeZero(edges, vs - Elements(order), u);
    forall k, w | 0 <= k < |next| && w in vs && HasEdge(edges, w, next[k]) ensures w in next[..k] {
      if k < |order| {
        assert next[k] == order[k] && next[..k] == order[..k];
      } else {
        assert next[..k] == order;
        assert w !in vs - Elements(order);
      }
    }
  }

  lemma FrontierAfterDequeue(vs: set<string>, order: seq<string>, queue: seq<string>, inDegree: map<string, nat>)
    requires inDegree.Keys == vs && Frontier(vs, order, queue, inDegree) && queue != []
    ensures Frontier(vs, order + [queue[0]], queue[1..], inDegree)
  {
    var u, tail := queue[0], queue[1..];
    assert queue == [u] + tail;
    assert u in queue;
    forall v ensures v in tail <==> v in queue && v != u {
      if v in tail {
        var k :| 0 <= k < |tail| && tail[k] == v;
        assert queue[k + 1] == v;
      }
    }
  }

  lemma FrontierAfterDecrement(vs: set<string>, order: seq<string>, queue: seq<string>, inDegree: map<string, nat>,
                               v: string)
    requires inDegree.Keys == vs && Frontier(vs, order, queue, inDegree)
    requires v in vs && inDegree[v] > 0
    ensures Frontier(vs, order, if inDegree[v] == 1 then queue + [v] else queue, inDegree[v := inDegree[v] - 1])
  {
    assert v !in queue && v !in order;
  }

  /** Decrements the in-degree of each target in turn, enqueueing those that reach zero. */
  method DecrementTargets(ghost order: seq<string>, ghost left: map<string, nat>,
                          queue0: seq<string>, inDegree0: map<string, nat>, targets: seq<string>)
    returns (queue: seq<string>, inDegree: map<string, nat>)
    requires inDegree0.Keys == left.Keys && Frontier(left.Keys, order, queue0, inDegree0)
    requires forall k :: 0 <= k < |targets| ==> targets[k] in left
    requires forall v :: v in left ==> inDegree0[v] == left[v] + multiset(targets)[v]
    ensures inDegree == left
    ensures Frontier(left.Keys, order, queue, inDegree)
  {
    hide Frontier;
    queue, inDegree := queue0, inDegree0;
    assert targets[0..] == targets;
    for j := 0 to |targets|
      invariant inDegree.Keys == left.Keys
      invariant forall v :: v in left ==> inDegree[v] == left[v] + multiset(targets[j..])[v]
      invariant Frontier(left.Keys, order, queue, inDegree)
    {
      var neighbor := targets[j];
      assert targets[j..] == [neighbor] + targets[j + 1..];
      FrontierAfterDecrement(left.Keys, order, queue, inDegree, neighbor);
      inDegree := inDegree[neighbor := inDegree[neighbor] - 1];
      if inDegree[neighbor] == 0 {
        queue := queue + [neighbor];
      }
    }
  }

  lemma DegreesAfterDequeue(vs: set<string>, edges: seq<DagEdge>, order: seq<string>, u: string, v: string)
    requires u in vs && u !in order && v in vs
    ensures InDegreeFrom(edges, vs - Elements(order), v)
         == InDegreeFrom(edges, vs - Elements(order + [u]), v) + multiset(Targets(edges, vs, u))[v]
  {
    InDegreeWithout(edges, vs, vs - Elements(order), u, v);
    assert vs - Elements(order) - {u} == vs - Elements(order + [u]);
  }

  lemma BoundedOrder(vs: set<string>, order: seq<string>)
    requires forall i, j :: 0 <= i < j < |order| ==> order[i] != order[j]
    requires forall k :: 0 <= k < |order| ==> order[k] in vs
    ensures |order| <= |vs|
  {
    DistinctCardinality(order);
    SubsetCardinality(Elements(order), vs);
  }

  /** What the decrements of one dequeue start from and lead to. */
  lemma KahnDequeue(vs: set<string>, edges: seq<DagEdge>, order: seq<string>, queue: seq<string>,
                    inDegree: map<string, nat>)
    returns (left: map<string, nat>)
    requires KahnState(vs, edges, order, queue, inDegree) && queue != []
    ensures queue[0] in vs && queue[0] !in order
    ensures |order| < |vs| && inDegree.Keys == vs
    ensures left.Keys == vs && Frontier(vs, order + [queue[0]], queue[1..], inDegree)
    ensures forall k :: 0 <= k < |Targets(edges, vs, queue[0])| ==> Targets(edges, vs, queue[0])[k] in vs
    ensures forall v :: v in vs ==> inDegree[v] == left[v] + multiset(Targets(edges, vs, queue[0]))[v]
    ensures forall q :: Frontier(vs, order + [queue[0]], q, left) ==> KahnState(vs, edges, order + [queue[0]], q, left)
  {
    var u := queue[0];
    assert u in queue;
    DequeueExtendsOrder(vs, edges, order, queue, inDegree);
    FrontierAfterDequeue(vs, order, queue, inDegree);
    TargetsAreVertices(edges, vs, u);
    BoundedOrder(vs, order + [u]);
    left := map v | v in vs :: InDegreeFrom(edges, vs - Elements(order + [u]), v);
    forall v | v in vs ensures inDegree[v] == left[v] + multiset(Targets(edges, vs, u))[v] {
      DegreesAfterDequeue(vs, edges, order, u, v);
    }
  }

  /** Dequeues until the queue is empty; visited counts the dequeues. */
  method DrainQueue(ghost vs: set<string>, ghost edges: seq<DagEdge>, adj: map<string, seq<string>>,
                    queue0: seq<string>, inDegree0: map<string, nat>)
    returns (visited: nat, inDegree: map<string, nat>, ghost order: seq<string>)
    requires forall u :: Neighbors(adj, u) == Targets(edges, vs, u)
    requires KahnState(vs, edges, [], queue0, inDegree0)
    ensures KahnState(vs, edges, order, [], inDegree) && visited == |order|
  {
    hide KahnState, Frontier;
    var queue := queue0;
    inDegree, order, visited := inDegree0, [], 0;
    while queue != []
      invariant KahnState(vs, edges, order, queue, inDegree)
      invariant visited == |order|
      decreases |vs| - visited
    {
      var node := queue[0];
      ghost var left := KahnDequeue(vs, edges, order, queue, inDegree);
      assert Neighbors(adj, node) == Targets(edges, vs, node);
      order := order + [node];
      queue, inDegree := DecrementTargets(order, left, queue[1..], inDegree, Neighbors(adj, node));
      visited := visited + 1;
    }
  }

  lemma EmptyGraphIsAcyclic(edges: seq<DagEdge>)
    ensures Acyclic({}, edges)
  {
    forall c ensures !Cycle({}, edges, c) {
      assert c != [] ==> c[0] !in {};
    }
  }

  /** Kahn's algorithm: accepts exactly the acyclic graphs, and on rejection names exactly the nodes on or after a
      cycle. */
  method ValidateCycles(nodes: seq<DagNode>, edges: seq<DagEdge>) returns (r: Outcome<ValidationError>)
    ensures r.Pass? <==> Acyclic(Ids(nodes), edges)
    ensures r.Fail? ==> r.error.CycleDetected?
    ensures r.Fail? ==> forall v :: v in r.error.nodes <==> v in Ids(nodes) && OnOrAfterCycle(Ids(nodes), edges, v)
    ensures r.Fail? ==> forall i, j :: 0 <= i < j < |r.error.nodes| ==> r.error.nodes[i] != r.error.nodes[j]
  {
    if |nodes| == 0 {
      assert Ids(nodes) == {};
      EmptyGraphIsAcyclic(edges);
      return Pass;
    }
    var nodeSet := Ids(nodes);
    var inDegree, adj := BuildAdjacency(nodeSet, edges);
    var queue := KeysByDegree(inDegree, true);
    assert nodeSet - Elements([]) == nodeSet;
    ghost var order;
    var visited;
    visited, inDegree, order := DrainQueue(nodeSet, edges, adj, queue, inDegree);
    KahnVerdict(nodeSet, edges, order, inDegree);
    if visited != |nodeSet| {
      var cycleNodes := KeysByDegree(inDegree, false);
      return Fail(CycleDetected(cycleNodes));
    }
    return Pass;
  }

  lemma KahnVertex(vs: set<string>, edges: seq<DagEdge>, order: seq<string>, inDegree: map<string, nat>, v: string)
    requires KahnState(vs, edges, order, [], inDegree) && v in vs
    ensures inDegree[v] > 0 <==> v !in order
    ensures v !in order <==> OnOrAfterCycle(vs, edges, v)
  {
    assert v !in [];
    if v in order {
      OrderedIsNotAfterCycle(vs, edges, order, v);
    } else {
      var rest := vs - Elements(order);
      forall w | w in rest ensures HasPredecessor(edges, rest, w) {
        InDegreeZero(edges, rest, w);
        assert w !in [];
      }
      FedSetHasCycle(vs, edges, rest, v);
    }
  }

  /** With the queue empty, the vertices of positive degree are exactly those on or after a cycle. */
  lemma KahnVerdict(vs: set<string>, edges: seq<DagEdge>, order: seq<string>, inDegree: map<string, nat>)
    requires KahnState(vs, edges, order, [], inDegree)
    ensures forall v :: v in vs ==> (inDegree[v] > 0 <==> OnOrAfterCycle(vs, edges, v))
    ensures |order| == |vs| <==> Acyclic(vs, edges)
  {
    forall v | v in vs ensures inDegree[v] > 0 <==> OnOrAfterCycle(vs, edges, v) {
      KahnVertex(vs, edges, order, inDegree, v);
    }
    DistinctCardinality(order);
    assert Elements(order) <= vs;
    if Elements(order) == vs {
      AcyclicIffOrdered(vs, edges);
    } else {
      var v :| v in vs && v !in order;
      KahnVertex(vs, edges, order, inDegree, v);
      var c, p :| CycleReaches(vs, edges, c, p, v);
      SubsetCardinality(Elements(order), vs - {v});
    }
  }

  /** Two domains never target the same file. */
  ghost predicate OneOwnerPerFile(nodes: seq<DagNode>) {
    forall i, j, f :: 0 <= i < |nodes| && 0 <= j < |nodes| && f in nodes[i].targetFiles && f in nodes[j].targetFiles
      ==> nodes[i].domainID == nodes[j].domainID
  }

  ghost predicate Targeted(nodes: seq<DagNode>, file: string, domain: string) {
    exists k :: 0 <= k < |nodes| && file in nodes[k].targetFiles && nodes[k].domainID == domain
  }

  /** owner records, for the files of the first i nodes, the domain that targets them, and nothing else. */
  ghost predicate OwnerTable(nodes: seq<DagNode>, i: nat, owner: map<string, string>)
    requires i <= |nodes|
  {
    && (forall k, f :: 0 <= k < i && f in nodes[k].targetFiles ==> f in owner && owner[f] == nodes[k].domainID)
    && (forall f :: f in owner ==> Targeted(nodes, f, owner[f]))
  }

  /** The same with the first j files of node i added. */
  ghost predicate OwnerTableWithin(nodes: seq<DagNode>, i: nat, j: nat, owner: map<string, string>)
    requires i < |nodes| && j <= |nodes[i].targetFiles|
  {
    && OwnerTable(nodes, i, owner)
    && (forall l :: 0 <= l < j ==>
        nodes[i].targetFiles[l] in owner && owner[nodes[i].targetFiles[l]] == nodes[i].domainID)
  }

  lemma OwnerStep(nodes: seq<DagNode>, i: nat, j: nat, owner: map<string, string>)
    requires i < |nodes| && j < |nodes[i].targetFiles| && OwnerTableWithin(nodes, i, j, owner)
    requires var f := nodes[i].targetFiles[j]; f in owner ==> owner[f] == nodes[i].domainID
    ensures OwnerTableWithin(nodes, i, j + 1, owner[nodes[i].targetFiles[j] := nodes[i].domainID])
  {
    assert Targeted(nodes, nodes[i].targetFiles[j], nodes[i].domainID);
  }

  lemma OwnersAgree(nodes: seq<DagNode>, owner: map<string, string>)
    requires OwnerTable(nodes, |nodes|, owner)
    ensures OneOwnerPerFile(nodes)
  {
    forall i, j, f | 0 <= i < |nodes| && 0 <= j < |nodes| && f in nodes[i].targetFiles && f in nodes[j].targetFiles
      ensures nodes[i].domainID == nodes[j].domainID
    {
      assert owner[f] == nodes[i].domainID;
    }
  }

  method ValidateAssignments(nodes: seq<DagNode>) returns (r: Outcome<ValidationError>)
    ensures r.Pass? <==> OneOwnerPerFile(nodes)
    ensures r.Fail? ==> r.error.FileConflict? && r.error.first != r.error.second
    ensures r.Fail? ==> Targeted(nodes, r.error.file, r.error.first) && Targeted(nodes, r.error.file, r.error.second)
  {
    var fileOwner: map<string, string> := map[];
    for i := 0 to |nodes|
      invariant OwnerTable(nodes, i, fileOwner)
    {
      var node := nodes[i];
      for j := 0 to |node.targetFiles|
        invariant OwnerTableWithin(nodes, i, j, fileOwner)
      {
        var file := node.targetFiles[j];
        if file in fileOwner && fileOwner[file] != node.domainID {
          assert Targeted(nodes, file, fileOwner[file]) && Targeted(nodes, file, node.domainID);
          return Fail(FileConflict(file, fileOwner[file], node.domainID));
        }
        OwnerStep(nodes, i, j, fileOwner);
        fileOwner := fileOwner[file := node.domainID];
      }
    }
    OwnersAgree(nodes, fileOwner);
    return Pass;
  }

  method ValidateNodeCeiling(nodes: seq<DagNode>, maxNodes: nat) returns (r: Outcome<ValidationError>)
    ensures r.Pass? <==> CountActive(nodes) <= maxNodes
    ensures r.Fail? ==> r.error == CeilingExceeded(CountActive(nodes), maxNodes)
  {
    var activeCount := CountNonTerminal(nodes);
    if activeCount > maxNodes {
      return Fail(CeilingExceeded(activeCount, maxNodes));
    }
    return Pass;
  }

  method CountNonTerminal(nodes: seq<DagNode>) returns (count: nat)
    ensures count == CountActive(nodes)
  {
    count := 0;
    for i := 0 to |nodes|
      invariant count == CountActive(nodes[..i])
    {
      assert nodes[..i + 1][..i] == nodes[..i];
      if !IsTerminal(nodes[i].status) {
        count := count + 1;
      }
    }
    assert nodes[..|nodes|] == nodes;
  }

  ghost predicate StubEdgesExist(nodes: seq<DagNode>, edges: seq<DagEdge>) {
    forall k :: 0 <= k < |edges| && edges[k].edgeType == StubContract
      ==> edges[k].fromNode in Ids(nodes) && edges[k].toNode in Ids(nodes)
  }

  method ValidateStubEdges(nodes: seq<DagNode>, edges: seq<DagEdge>) returns (r: Outcome<ValidationError>)
    ensures r.Pass? <==> StubEdgesExist(nodes, edges)
    ensures r.Fail? ==> r.error.StubEndpointMissing? && r.error.node !in Ids(nodes)
  {
    var nodeSet := Ids(nodes);
    for k := 0 to |edges|
      invariant StubEdgesExist(nodes, edges[..k])
    {
      var e := edges[k];
      if e.edgeType != StubContract {
        continue;
      }
      if e.fromNode !in nodeSet {
        assert edges[k] == e;
        return Fail(StubEndpointMissing(e.fromNode));
      }
      if e.toNode !in nodeSet {
        assert edges[k] == e;
        return Fail(StubEndpointMissing(e.toNode));
      }
    }
    assert edges[..|edges|] == edges;
    return Pass;
  }

  /** What a bulk-loaded DAG must satisfy. */
  ghost predicate Admissible(dag: DagData) {
    && Acyclic(Ids(dag.nodes), dag.edges)
    && OneOwnerPerFile(dag.nodes)
    && CountActive(dag.nodes) <= dag.header.maxNodes
    && StubEdgesExist(dag.nodes, dag.edges)
  }

  method ValidateAll(dag: DagData) returns (r: Outcome<ValidationError>)
    ensures r.Pass? <==> Admissible(dag)
    ensures r.Fail? && r.error.CycleDetected? <==> !Acyclic(Ids(dag.nodes), dag.edges)
    ensures r.Fail? && r.error.FileConflict? <==> Acyclic(Ids(dag.nodes), dag.edges) && !OneOwnerPerFile(dag.nodes)
  {
    hide Acyclic, OneOwnerPerFile;
    r := ValidateCycles(dag.nodes, dag.edges);
    if r.Pass? {
      r := ValidateAssignments(dag.nodes);
    }
    if r.Pass? {
      r := ValidateNodeCeiling(dag.nodes, dag.header.maxNodes);
    }
    if r.Pass? {
      r := ValidateStubEdges(dag.nodes, dag.edges);
    }
  }
}
