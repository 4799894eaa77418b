/** Ready nodes, one dispatch pass, and convergence, as functions of the DAG. */
module Scheduling {
  import opened DagTypes
  import opened Graph
  import opened Mutations

  // ---------- readiness ----------

  /** The status a name maps to when later nodes overwrite earlier ones. */
  function LastStatus(nodes: seq<DagNode>, id: string): Option<NodeStatus> {
    if nodes == [] then None
    else if nodes[|nodes| - 1].id == id then Some(nodes[|nodes| - 1].status)
    else LastStatus(nodes[..|nodes| - 1], id)
  }

  predicate DependencyMet(nodes: seq<DagNode>, id: string) {
    var s := LastStatus(nodes, id);
    s.Some? && IsTerminal(s.value)
  }

  predicate IsReady(dag: DagData, n: DagNode) {
    n.status == STATUS_PENDING &&
    forall k :: 0 <= k < |dag.edges| && dag.edges[k].toNode == n.id ==> DependencyMet(dag.nodes, dag.edges[k].fromNode)
  }

  /** Positions of the ready nodes among the first n, ascending. */
  function ReadyPositions(dag: DagData, n: nat): (r: seq<nat>)
    requires n <= |dag.nodes|
    ensures forall k :: 0 <= k < |r| ==> r[k] < n && IsReady(dag, dag.nodes[r[k]])
    ensures forall j, k :: 0 <= j < k < |r| ==> r[j] < r[k]
  {
    if n == 0 then [] else ReadyPositions(dag, n - 1) + if IsReady(dag, dag.nodes[n - 1]) then [n - 1] else []
  }

  lemma {:induction false} ReadyPositionsComplete(dag: DagData, n: nat, i: nat)
    requires i < n <= |dag.nodes| && IsReady(dag, dag.nodes[i])
    ensures i in ReadyPositions(dag, n)
  {
    if i < n - 1 {
      ReadyPositionsComplete(dag, n - 1, i);
    }
  }

  function NodesAt(nodes: seq<DagNode>, positions: seq<nat>): (r: seq<DagNode>)
    requires forall k :: 0 <= k < |positions| ==> positions[k] < |nodes|
    ensures |r| == |positions|
    ensures forall k :: 0 <= k < |r| ==> r[k] == nodes[positions[k]]
  {
    if positions == [] then []
    else NodesAt(nodes, positions[..|positions| - 1]) + [nodes[positions[|positions| - 1]]]
  }

  function ReadyNodes(dag: DagData): seq<DagNode> {
    NodesAt(dag.nodes, ReadyPositions(dag, |dag.nodes|))
  }

  /** The ready nodes among the first n. */
  function ReadyAmong(dag: DagData, n: nat): seq<DagNode>
    requires n <= |dag.nodes|
  {
    NodesAt(dag.nodes, ReadyPositions(dag, n))
  }

  lemma ReadyAmongNone(dag: DagData)
    ensures ReadyAmong(dag, 0) == []
  {}

  lemma ReadyAmongAll(dag: DagData)
    ensures ReadyAmong(dag, |dag.nodes|) == ReadyNodes(dag)
  {}

  lemma ReadyAmongMore(dag: DagData, i: nat)
    requires i < |dag.nodes|
    ensures ReadyAmong(dag, i + 1)
         == if IsReady(dag, dag.nodes[i]) then ReadyAmong(dag, i) + [dag.nodes[i]] else ReadyAmong(dag, i)
  {
    hide NodesAt, IsReady;
    NodesAtSnoc(dag.nodes, ReadyPositions(dag, i), i);
    assert ReadyPositions(dag, i) + [] == ReadyPositions(dag, i);
  }

  lemma {:induction false} LastStatusOfUnique(nodes: seq<DagNode>, i: nat)
    requires UniqueIds(nodes) && i < |nodes|
    ensures LastStatus(nodes, nodes[i].id) == Some(nodes[i].status)
  {
    var last := |nodes| - 1;
    if i < last {
      LastStatusOfUnique(nodes[..last], i);
    }
  }

  lemma {:induction false} LastStatusExists(nodes: seq<DagNode>, id: string)
    ensures LastStatus(nodes, id).Some? <==> id in Ids(nodes)
    ensures LastStatus(nodes, id).Some? ==>
        exists i :: 0 <= i < |nodes| && nodes[i].id == id && Some(nodes[i].status) == LastStatus(nodes, id)
  {
    if nodes != [] {
      var init := nodes[..|nodes| - 1];
      LastStatusExists(init, id);
      if LastStatus(init, id).Some? {
        var i :| 0 <= i < |init| && init[i].id == id && Some(init[i].status) == LastStatus(init, id);
        assert nodes[i] == init[i];
      }
      if id in Ids(nodes) {
        var i :| 0 <= i < |nodes| && nodes[i].id == id;
        assert i < |init| ==> init[i].id == id;
      }
    }
  }

  /** A finished node called id. */
  ghost predicate FinishedNode(nodes: seq<DagNode>, id: string) {
    exists j :: 0 <= j < |nodes| && nodes[j].id == id && IsTerminal(nodes[j].status)
  }

  /** With unique names the ready nodes are the pending ones whose predecessors all exist and are Done or Failed. */
  lemma ReadyMeaning(dag: DagData, i: nat)
    requires UniqueIds(dag.nodes) && i < |dag.nodes|
    ensures i in ReadyPositions(dag, |dag.nodes|) <==>
      dag.nodes[i].status == STATUS_PENDING && forall u :: HasEdge(dag.edges, u, dag.nodes[i].id) ==>
          FinishedNode(dag.nodes, u)
  {
    var n := dag.nodes[i];
    if n.status == STATUS_PENDING && forall u :: HasEdge(dag.edges, u, n.id) ==> FinishedNode(dag.nodes, u) {
      forall k | 0 <= k < |dag.edges| && dag.edges[k].toNode == n.id
          ensures DependencyMet(dag.nodes, dag.edges[k].fromNode) {
        var u := dag.edges[k].fromNode;
        assert HasEdge(dag.edges, u, n.id);
        var j :| 0 <= j < |dag.nodes| && dag.nodes[j].id == u && IsTerminal(dag.nodes[j].status);
        LastStatusOfUnique(dag.nodes, j);
      }
      ReadyPositionsComplete(dag, |dag.nodes|, i);
    }
    if IsReady(dag, n) {
      forall u | HasEdge(dag.edges, u, n.id) ensures FinishedNode(dag.nodes, u) {
        LastStatusExists(dag.nodes, u);
      }
    }
  }

  /** The names of the pending nodes. */
  function Waiting(nodes: seq<DagNode>): set<string> {
    set i | 0 <= i < |nodes| && nodes[i].status == STATUS_PENDING :: nodes[i].id
  }

  ghost predicate PredecessorsExist(dag: DagData, id: string) {
    forall u :: HasEdge(dag.edges, u, id) ==> u in Ids(dag.nodes)
  }

  /** No deadlock: if work is left, all of it pending and nothing it waits for missing or waiting for itself, some node
      is ready. */
  lemma SomethingIsReady(dag: DagData)
    requires UniqueIds(dag.nodes) && Acyclic(Waiting(dag.nodes), dag.edges)
    requires forall i :: 0 <= i < |dag.nodes| ==>
      IsTerminal(dag.nodes[i].status)
          || (dag.nodes[i].status == STATUS_PENDING && PredecessorsExist(dag, dag.nodes[i].id))
    requires exists i :: 0 <= i < |dag.nodes| && dag.nodes[i].status == STATUS_PENDING
    ensures ReadyNodes(dag) != []
  {
    var waiting := Waiting(dag.nodes);
    var w :| 0 <= w < |dag.nodes| && dag.nodes[w].status == STATUS_PENDING;
    assert dag.nodes[w].id in waiting;
    var v := AcyclicHasSource(waiting, dag.edges, waiting);
    var i :| 0 <= i < |dag.nodes| && dag.nodes[i].status == STATUS_PENDING && dag.nodes[i].id == v;
    forall u | HasEdge(dag.edges, u, v) ensures FinishedNode(dag.nodes, u) {
      assert u in Ids(dag.nodes);
      var j :| 0 <= j < |dag.nodes| && dag.nodes[j].id == u;
      assert dag.nodes[j].status == STATUS_PENDING ==> u in waiting;
    }
    ReadyMeaning(dag, i);
  }

  // ---------- stable sort by priority ----------

  /** Inserts x behind everything of the same or a more urgent priority. */
  function Insert(sorted: seq<DagNode>, x: DagNode): seq<DagNode> {
    if sorted == [] || sorted[|sorted| - 1].priority <= x.priority then sorted + [x]
    else Insert(sorted[..|sorted| - 1], x) + [sorted[|sorted| - 1]]
  }

  /** The result of any stable sort by ascending priority. */
  function StableSorted(xs: seq<DagNode>): seq<DagNode> {
    if xs == [] then [] else Insert(StableSorted(xs[..|xs| - 1]), xs[|xs| - 1])
  }

  predicate Sooner(nodes: seq<DagNode>, i: nat, j: nat)
    requires i < |nodes| && j < |nodes|
  {
    nodes[i].priority < nodes[j].priority || (nodes[i].priority == nodes[j].priority && i < j)
  }

  /** Positions in strictly ascending (priority, position) order. */
  ghost predicate InOrder(nodes: seq<DagNode>, positions: seq<nat>) {
    && (forall k :: 0 <= k < |positions| ==> positions[k] < |nodes|)
    && (forall j, k :: 0 <= j < k < |positions| ==> Sooner(nodes, positions[j], positions[k]))
  }

  lemma SoonerTransitive(nodes: seq<DagNode>, i: nat, j: nat, k: nat)
    requires i < |nodes| && j < |nodes| && k < |nodes| && Sooner(nodes, i, j) && Sooner(nodes, j, k)
    ensures Sooner(nodes, i, k)
  {}

  lemma SoonerByPriority(nodes: seq<DagNode>, i: nat, j: nat)
    requires i < |nodes| && j < |nodes|
    ensures nodes[i].priority < nodes[j].priority ==> Sooner(nodes, i, j)
    ensures nodes[i].priority <= nodes[j].priority && i < j ==> Sooner(nodes, i, j)
  {}

  /** A position later than the last one goes to the end of the order. */
  lemma OrderSnoc(nodes: seq<DagNode>, positions: seq<nat>, i: nat)
    requires InOrder(nodes, positions) && i < |nodes|
    requires positions != [] ==> Sooner(nodes, positions[|positions| - 1], i)
    ensures InOrder(nodes, positions + [i])
  {
    hide Sooner;
    var r, last := positions + [i], |positions| - 1;
    forall j, k | 0 <= j < k < |r| ensures Sooner(nodes, r[j], r[k]) {
      if k <= last {
        assert r[j] == positions[j] && r[k] == positions[k];
      } else if j < last {
        SoonerTransitive(nodes, positions[j], positions[last], i);
      }
    }
  }

  lemma NodesAtInit(nodes: seq<DagNode>, positions: seq<nat>)
    requires (forall k :: 0 <= k < |positions| ==> positions[k] < |nodes|) && positions != []
    ensures var last := |positions| - 1;
      NodesAt(nodes, positions)[..last] == NodesAt(nodes, positions[..last])
          && NodesAt(nodes, positions)[last] == nodes[positions[last]]
  {
    hide NodesAt;
    var all, last := NodesAt(nodes, positions), |positions| - 1;
    var short := NodesAt(nodes, positions[..last]);
    assert |all| == last + 1 && |short| == last;
    forall k | 0 <= k < last ensures all[..last][k] == short[k] {
      assert positions[..last][k] == positions[k];
    }
  }

  lemma NodesAtSnoc(nodes: seq<DagNode>, positions: seq<nat>, i: nat)
    requires (forall k :: 0 <= k < |positions| ==> positions[k] < |nodes|) && i < |nodes|
    ensures NodesAt(nodes, positions + [i]) == NodesAt(nodes, positions) + [nodes[i]]
  {
    hide NodesAt;
  }

  lemma {:induction false} InsertKeepsOrder(nodes: seq<DagNode>, positions: seq<nat>, i: nat) returns (r: seq<nat>)
    requires InOrder(nodes, positions) && i < |nodes|
    requires forall k :: 0 <= k < |positions| ==> positions[k] < i
    ensures InOrder(nodes, r) && Insert(NodesAt(nodes, positions), nodes[i]) == NodesAt(nodes, r)
    ensures forall p :: p in r <==> p in positions || p == i
  {
    hide Sooner, NodesAt;
    if positions == [] {
      r := [i];
      NodesAtSnoc(nodes, [], i);
    } else {
      var last := |positions| - 1;
      NodesAtInit(nodes, positions);
      if nodes[positions[last]].priority <= nodes[i].priority {
        r := positions + [i];
        SoonerByPriority(nodes, positions[last], i);
        OrderSnoc(nodes, positions, i);
        NodesAtSnoc(nodes, positions, i);
      } else {
        var q := InsertKeepsOrder(nodes, positions[..last], i);
        r := q + [positions[last]];
        NodesAtSnoc(nodes, q, positions[last]);
        assert positions == positions[..last] + [positions[last]];
        assert q[|q| - 1] in q;
        SoonerByPriority(nodes, i, positions[last]);
        assert q[|q| - 1] in positions[..last] || q[|q| - 1] == i;
        OrderSnoc(nodes, q, positions[last]);
      }
    }
  }

  /** Stable sorting turns ascending positions into (priority, position) order. */
  lemma {:induction false} SortedPositions(nodes: seq<DagNode>, positions: seq<nat>) returns (r: seq<nat>)
    requires forall k :: 0 <= k < |positions| ==> positions[k] < |nodes|
    requires forall j, k :: 0 <= j < k < |positions| ==> positions[j] < positions[k]
    ensures InOrder(nodes, r) && StableSorted(NodesAt(nodes, positions)) == NodesAt(nodes, r)
    ensures forall p :: p in r <==> p in positions
  {
    hide Sooner, NodesAt, Insert;
    if positions == [] {
      r := [];
    } else {
      var last := |positions| - 1;
      NodesAtInit(nodes, positions);
      var q := SortedPositions(nodes, positions[..last]);
      forall k | 0 <= k < |q| ensures q[k] < positions[last] {
        assert q[k] in q;
      }
      r := InsertKeepsOrder(nodes, q, positions[last]);
      assert positions == positions[..last] + [positions[last]];
    }
  }

  // ---------- one dispatch pass ----------

  function AgentFor(domainID: string): string {
    "agent-" + domainID
  }

  /** The agent an in-progress node keeps busy. */
  function AgentOf(n: DagNode): string {
    if n.assignedAgent != "" then n.assignedAgent else AgentFor(n.domainID)
  }

  function BusyAgents(nodes: seq<DagNode>): set<string> {
    set i | 0 <= i < |nodes| && nodes[i].status == STATUS_IN_PROGRESS :: AgentOf(nodes[i])
  }

  /** Binding and starting one node: two manager calls. */
  function Started(dag: DagData, node: DagNode, binding: Times, starting: Times): DagData {
    var bound := LiveEffect(dag, AssignNode(node.id, AgentFor(node.domainID)), 0, binding);
    LiveEffect(bound, UpdateNode(node.id, "", STATUS_IN_PROGRESS, None, false), 0, starting)
  }

  datatype Sweep = Sweep(dag: DagData, busy: set<string>)

  /** The pass over a prefix of the sorted ready nodes. */
  function DispatchOver(dag: DagData, order: seq<DagNode>, active: set<string>, clock: nat -> Times): Sweep {
    if order == [] then Sweep(dag, BusyAgents(dag.nodes))
    else
      var p := DispatchOver(dag, order[..|order| - 1], active, clock);
      var node := order[|order| - 1];
      var agent := AgentFor(node.domainID);
      if agent !in active || agent in p.busy then p
      else Sweep(Started(p.dag, node, clock(2 * (|order| - 1)), clock(2 * |order| - 1)), p.busy + {agent})
  }

  function Dispatched(dag: DagData, active: set<string>, clock: nat -> Times): DagData {
    DispatchOver(dag, StableSorted(ReadyNodes(dag)), active, clock).dag
  }

  /** The node is ready, its agent is live and idle, and no ready node of its domain comes sooner. */
  ghost predicate Chosen(dag: DagData, active: set<string>, i: nat)
    requires i < |dag.nodes|
  {
    && IsReady(dag, dag.nodes[i])
    && AgentFor(dag.nodes[i].domainID) in active - BusyAgents(dag.nodes)
    && forall j | 0 <= j < |dag.nodes| && IsReady(dag, dag.nodes[j])
                  && dag.nodes[j].domainID == dag.nodes[i].domainID && j != i ::
         Sooner(dag.nodes, i, j)
  }

  /** The node in progress for its domain's agent, and otherwise as it was but for the update time. */
  predicate IsStarted(before: DagNode, after: DagNode) {
    after == before.(status := STATUS_IN_PROGRESS, assignedAgent := AgentFor(before.domainID),
        updatedAt := after.updatedAt)
  }

  /** Node order[k] is the first of its domain in the order and its agent is live and idle. */
  ghost predicate TakenAt(nodes: seq<DagNode>, order: seq<nat>, active: set<string>, k: nat)
    requires k < |order| && forall l :: 0 <= l < |order| ==> order[l] < |nodes|
  {
    && AgentFor(nodes[order[k]].domainID) in active - BusyAgents(nodes)
    && forall l :: 0 <= l < k ==> nodes[order[l]].domainID != nodes[order[k]].domainID
  }

  /** What a pass over the first m positions has done. */
  ghost predicate PassState(dag: DagData, order: seq<nat>, active: set<string>, m: nat, p: Sweep)
    requires m <= |order| && forall l :: 0 <= l < |order| ==> order[l] < |dag.nodes|
  {
    && |p.dag.nodes| == |dag.nodes| && p.dag.edges == dag.edges && p.dag.header.maxNodes == dag.header.maxNodes
    && (forall k :: 0 <= k < m ==>
          if TakenAt(dag.nodes, order, active, k) then IsStarted(dag.nodes[order[k]], p.dag.nodes[order[k]])
          else p.dag.nodes[order[k]] == dag.nodes[order[k]])
    && (forall i :: 0 <= i < |dag.nodes| && i !in order[..m] ==> p.dag.nodes[i] == dag.nodes[i])
    && (forall a :: a in p.busy <==> a in BusyAgents(dag.nodes) || (a in active && SeenAgent(dag.nodes, order, m, a)))
  }

  ghost predicate SeenAgent(nodes: seq<DagNode>, order: seq<nat>, m: nat, a: string)
    requires m <= |order| && forall l :: 0 <= l < |order| ==> order[l] < |nodes|
  {
    exists k :: 0 <= k < m && AgentFor(nodes[order[k]].domainID) == a
  }

  lemma SeenOneMore(nodes: seq<DagNode>, order: seq<nat>, m: nat, a: string)
    requires m < |order| && forall l :: 0 <= l < |order| ==> order[l] < |nodes|
    ensures SeenAgent(nodes, order, m + 1, a) <==>
      SeenAgent(nodes, order, m, a) || AgentFor(nodes[order[m]].domainID) == a
  {
    if SeenAgent(nodes, order, m + 1, a) {
      var k :| 0 <= k < m + 1 && AgentFor(nodes[order[k]].domainID) == a;
      assert k < m || k == m;
    }
    assert AgentFor(nodes[order[m]].domainID) == a ==> SeenAgent(nodes, order, m + 1, a);
  }

  lemma AgentForInjective(c: string, d: string)
    ensures AgentFor(c) == AgentFor(d) ==> c == d
  {
    assert AgentFor(c)[6..] == c && AgentFor(d)[6..] == d;
  }

  /** Starting a node touches the node of that name only. */
  lemma StartedTouchesOne(dag: DagData, node: DagNode, binding: Times, starting: Times, i: nat)
    requires i < |dag.nodes| && dag.nodes[i].id == node.id && FirstIndex(dag.nodes, node.id) == i
    ensures var after := Started(dag, node, binding, starting);
      && |after.nodes| == |dag.nodes| && after.edges == dag.edges && after.header.maxNodes == dag.header.maxNodes
      && after.nodes[i]
          == dag.nodes[i].(status := STATUS_IN_PROGRESS, assignedAgent := AgentFor(node.domainID),
              updatedAt := starting.now)
      && forall j :: 0 <= j < |dag.nodes| && j != i ==> after.nodes[j] == dag.nodes[j]
  {
    var bound := LiveEffect(dag, AssignNode(node.id, AgentFor(node.domainID)), 0, binding);
    assert forall j :: 0 <= j < |dag.nodes| ==> bound.nodes[j].id == dag.nodes[j].id;
    FirstIndexIs(bound.nodes, node.id, i);
  }

  lemma TakenIffIdle(dag: DagData, order: seq<nat>, active: set<string>, m: nat, p: Sweep)
    requires m < |order| && forall l :: 0 <= l < |order| ==> order[l] < |dag.nodes|
    requires PassState(dag, order, active, m, p)
    ensures var a := AgentFor(dag.nodes[order[m]].domainID);
      TakenAt(dag.nodes, order, active, m) <==> a in active && a !in p.busy
  {
    var a := AgentFor(dag.nodes[order[m]].domainID);
    forall l | 0 <= l < m
        ensures AgentFor(dag.nodes[order[l]].domainID) == a <==>
            dag.nodes[order[l]].domainID == dag.nodes[order[m]].domainID {
      AgentForInjective(dag.nodes[order[l]].domainID, dag.nodes[order[m]].domainID);
    }
  }

  lemma PassStep(dag: DagData, order: seq<nat>, active: set<string>, m: nat, p: Sweep, clock: nat -> Times)
    requires UniqueIds(dag.nodes) && m < |order|
    requires forall l :: 0 <= l < |order| ==> order[l] < |dag.nodes|
    requires forall k, l :: 0 <= k < l < |order| ==> order[k] != order[l]
    requires PassState(dag, order, active, m, p)
    ensures var node := dag.nodes[order[m]];
      var agent := AgentFor(node.domainID);
      PassState(dag, order, active, m + 1,
        if agent !in active || agent in p.busy
            then p else Sweep(Started(p.dag, node, clock(2 * m), clock(2 * m + 1)), p.busy + {agent}))
  {
    hide Started, BusyAgents, AgentFor, TakenAt;
    var i := order[m];
    var node := dag.nodes[i];
    var agent := AgentFor(node.domainID);
    TakenIffIdle(dag, order, active, m, p);
    assert order[..m + 1] == order[..m] + [i];
    assert i !in order[..m];
    forall a ensures SeenAgent(dag.nodes, order, m + 1, a) <==> SeenAgent(dag.nodes, order, m, a) || a == agent {
      SeenOneMore(dag.nodes, order, m, a);
    }
    if agent in active && agent !in p.busy {
      NamesKept(dag, order, active, m, p);
      FirstIndexIs(p.dag.nodes, node.id, i);
      StartedTouchesOne(p.dag, node, clock(2 * m), clock(2 * m + 1), i);
    }
  }

  lemma NamesKept(dag: DagData, order: seq<nat>, active: set<string>, m: nat, p: Sweep)
    requires m <= |order| && forall l :: 0 <= l < |order| ==> order[l] < |dag.nodes|
    requires PassState(dag, order, active, m, p)
    ensures forall i :: 0 <= i < |dag.nodes| ==>
      p.dag.nodes[i].id == dag.nodes[i].id && p.dag.nodes[i].domainID == dag.nodes[i].domainID
      && p.dag.nodes[i].targetFiles == dag.nodes[i].targetFiles
  {
    forall i | 0 <= i < |dag.nodes|
        ensures p.dag.nodes[i].id == dag.nodes[i].id && p.dag.nodes[i].domainID == dag.nodes[i].domainID
                                         && p.dag.nodes[i].targetFiles == dag.nodes[i].targetFiles {
      if i in order[..m] {
        var k :| 0 <= k < m && order[k] == i;
      }
    }
  }

  lemma DispatchUnfolds(dag: DagData, all: seq<DagNode>, active: set<string>, m: nat, clock: nat -> Times)
    requires m < |all|
    ensures var p := DispatchOver(dag, all[..m], active, clock);
      var agent := AgentFor(all[m].domainID);
      DispatchOver(dag, all[..m + 1], active, clock)
      == if agent !in active || agent in p.busy
          then p else Sweep(Started(p.dag, all[m], clock(2 * m), clock(2 * m + 1)), p.busy + {agent})
  {
    hide Started, AgentFor, BusyAgents;
    assert all[..m + 1][..m] == all[..m];
  }

  lemma {:induction false} PassReaches(dag: DagData, order: seq<nat>, active: set<string>, m: nat, clock: nat -> Times)
    requires UniqueIds(dag.nodes) && m <= |order|
    requires forall l :: 0 <= l < |order| ==> order[l] < |dag.nodes|
    requires forall k, l :: 0 <= k < l < |order| ==> order[k] != order[l]
    ensures PassState(dag, order, active, m, DispatchOver(dag, NodesAt(dag.nodes, order)[..m], active, clock))
    decreases m
  {
    hide NodesAt, Started, AgentFor, DispatchOver, PassState;
    var all := NodesAt(dag.nodes, order);
    if m == 0 {
      assert all[..0] == [];
      PassBegins(dag, order, active, clock);
    } else {
      PassReaches(dag, order, active, m - 1, clock);
      PassStep(dag, order, active, m - 1, DispatchOver(dag, all[..m - 1], active, clock), clock);
      DispatchUnfolds(dag, all, active, m - 1, clock);
    }
  }

  lemma PassBegins(dag: DagData, order: seq<nat>, active: set<string>, clock: nat -> Times)
    requires forall l :: 0 <= l < |order| ==> order[l] < |dag.nodes|
    ensures PassState(dag, order, active, 0, DispatchOver(dag, [], active, clock))
  {}

  /** A pass starts exactly the chosen nodes and leaves every other node alone. */
  lemma DispatchStartsChosen(dag: DagData, active: set<string>, clock: nat -> Times)
    requires UniqueIds(dag.nodes)
    ensures var after := Dispatched(dag, active, clock);
      && |after.nodes| == |dag.nodes| && after.edges == dag.edges && after.header.maxNodes == dag.header.maxNodes
      && forall i :: 0 <= i < |dag.nodes| ==>
           if Chosen(dag, active, i) then IsStarted(dag.nodes[i], after.nodes[i]) else after.nodes[i] == dag.nodes[i]
  {
    var positions := ReadyPositions(dag, |dag.nodes|);
    var order := SortedPositions(dag.nodes, positions);
    var all := NodesAt(dag.nodes, order);
    assert all[..|order|] == all;
    PassReaches(dag, order, active, |order|, clock);
    var after := Dispatched(dag, active, clock);
    forall i | 0 <= i < |dag.nodes|
      ensures if Chosen(dag, active, i) then IsStarted(dag.nodes[i], after.nodes[i]) else after.nodes[i] == dag.nodes[i]
    {
      if IsReady(dag, dag.nodes[i]) {
        ReadyPositionsComplete(dag, |dag.nodes|, i);
        var k :| 0 <= k < |order| && order[k] == i;
        ChosenIffTaken(dag, active, order, k);
      } else {
        assert i !in positions;
      }
    }
  }

  lemma ChosenIffTaken(dag: DagData, active: set<string>, order: seq<nat>, k: nat)
    requires InOrder(dag.nodes, order) && k < |order|
    requires forall p :: p in order <==> p in ReadyPositions(dag, |dag.nodes|)
    ensures Chosen(dag, active, order[k]) <==> TakenAt(dag.nodes, order, active, k)
  {
    var i := order[k];
    assert i in order;
    if TakenAt(dag.nodes, order, active, k) {
      forall j | 0 <= j < |dag.nodes| && IsReady(dag, dag.nodes[j]) && dag.nodes[j].domainID == dag.nodes[i].domainID
          && j != i
        ensures Sooner(dag.nodes, i, j)
      {
        ReadyPositionsComplete(dag, |dag.nodes|, j);
        var l :| 0 <= l < |order| && order[l] == j;
      }
    }
    if Chosen(dag, active, i) {
      forall l | 0 <= l < k ensures dag.nodes[order[l]].domainID != dag.nodes[i].domainID {
        assert order[l] in order;
        assert Sooner(dag.nodes, order[l], i);
      }
    }
  }

  /** No agent works on two nodes. */
  ghost predicate OneTaskPerAgent(nodes: seq<DagNode>) {
    forall i, j :: 0 <= i < j < |nodes| && nodes[i].status == STATUS_IN_PROGRESS
        && nodes[j].status == STATUS_IN_PROGRESS
      ==> AgentOf(nodes[i]) != AgentOf(nodes[j])
  }

  lemma DispatchKeepsOneTaskPerAgent(dag: DagData, active: set<string>, clock: nat -> Times)
    requires UniqueIds(dag.nodes) && OneTaskPerAgent(dag.nodes)
    ensures OneTaskPerAgent(Dispatched(dag, active, clock).nodes)
  {
    DispatchStartsChosen(dag, active, clock);
    var after := Dispatched(dag, active, clock).nodes;
    forall i, j | 0 <= i < j < |after| && after[i].status == STATUS_IN_PROGRESS && after[j].status == STATUS_IN_PROGRESS
      ensures AgentOf(after[i]) != AgentOf(after[j])
    {
      if Chosen(dag, active, i) && Chosen(dag, active, j) {
        AgentForInjective(dag.nodes[i].domainID, dag.nodes[j].domainID);
      } else if Chosen(dag, active, i) {
        assert AgentOf(dag.nodes[j]) in BusyAgents(dag.nodes);
      } else if Chosen(dag, active, j) {
        assert AgentOf(dag.nodes[i]) in BusyAgents(dag.nodes);
      }
    }
  }

  /** Each idle live agent with a ready node in its domain gets one. */
  lemma IdleAgentGetsWork(dag: DagData, active: set<string>, i: nat) returns (c: nat)
    requires i < |dag.nodes| && IsReady(dag, dag.nodes[i])
    requires AgentFor(dag.nodes[i].domainID) in active - BusyAgents(dag.nodes)
    ensures c < |dag.nodes| && Chosen(dag, active, c) && dag.nodes[c].domainID == dag.nodes[i].domainID
  {
    hide IsReady, BusyAgents, AgentFor, Sooner, NodesAt, StableSorted, Chosen;
    var order := SortedPositions(dag.nodes, ReadyPositions(dag, |dag.nodes|));
    ReadyPositionsComplete(dag, |dag.nodes|, i);
    assert exists k :: 0 <= k < |order| && order[k] == i;
    var k := 0;
    while dag.nodes[order[k]].domainID != dag.nodes[i].domainID
      invariant k < |order|
      invariant forall l :: 0 <= l < k ==> dag.nodes[order[l]].domainID != dag.nodes[i].domainID
      decreases |order| - k
    {
      k := k + 1;
    }
    c := order[k];
    assert c in order;
    ChosenIffTaken(dag, active, order, k);
  }
}
