/** The DAG manager: validates, logs, then applies every mutation; recovers by replaying the log. */
module DagManager {
  import opened DagTypes
  import opened Graph
  import opened Validator
  import opened Text
  import opened Mutations
  import opened Crc32
  import opened WalFormat
  import opened WriteAheadLog
  import opened Recovery
  import opened Scheduling

  datatype ManagerError =
    | Invalid(reason: ValidationError)
    | NodeNotFound(id: string)
    | NotOwner(id: string)
    | LogClosed
    | LogUnreadable(cause: ReadError)
    | StoreTooSmall

  const DEFAULT_MAX_NODES: nat := 200

  /** The stored document; fits tells which documents the region can hold. odd is the parity of the region's counter
      while nobody writes; a whole write leaves it as it is. */
  class Store {
    const fits: DagData -> bool
    var document: Option<DagData>
    var odd: bool

    constructor (fits: DagData -> bool, document: Option<DagData>, odd: bool)
      ensures this.fits == fits && this.document == document && this.odd == odd
    {
      this.fits, this.document, this.odd := fits, document, odd;
    }

    /** None while the counter is odd. A region without a document reads as an empty DAG. */
    method Read() returns (dag: Option<DagData>)
      ensures dag == if odd
          then None else Some(if document.Some? then document.value else NewDagData(DEFAULT_MAX_NODES))
    {
      if odd {
        return None;
      }
      match document
      case None => return Some(NewDagData(DEFAULT_MAX_NODES));
      case Some(d) => return Some(d);
    }

    method Write(dag: DagData) returns (ok: bool)
      modifies this`document
      ensures ok == fits(dag)
      ensures document == if ok then Some(dag) else old(document)
    {
      ok := fits(dag);
      if ok {
        document := Some(dag);
      }
    }
  }

  /** One of the first k edges leads from u to v. */
  ghost predicate EdgeAmong(edges: seq<DagEdge>, k: nat, u: string, v: string)
    requires k <= |edges|
  {
    exists l :: 0 <= l < k && edges[l].fromNode == u && edges[l].toNode == v
  }

  /** Keeps, in place, the edges with other endpoints; n is the new length of the slice. */
  method FilterInPlace(edges: array<DagEdge>, fromNode: string, toNode: string) returns (n: nat)
    modifies edges
    ensures n <= edges.Length
    ensures edges[..n] == FilterEdges(old(edges[..]), fromNode, toNode)
  {
    n := 0;
    ghost var all := edges[..];
    for i := 0 to edges.Length
      invariant n <= i
      invariant forall j :: i <= j < edges.Length ==> edges[j] == all[j]
      invariant edges[..n] == FilterEdges(all[..i], fromNode, toNode)
    {
      var e := edges[i];
      assert e == all[i] && all[..i + 1][..i] == all[..i];
      if e.fromNode != fromNode || e.toNode != toNode {
        edges[n] := e;
        assert edges[..n + 1] == edges[..n] + [e];
        n := n + 1;
      }
    }
    assert all[..edges.Length] == all;
  }

  /** The table lists for each node exactly what it depends on. */
  ghost predicate ListsDependencies(edges: seq<DagEdge>, deps: map<string, seq<string>>) {
    forall id, u :: u in Neighbors(deps, id) <==> EdgeAmong(edges, |edges|, u, id)
  }

  /** The table holds for each name the status of the last node called so. */
  ghost predicate HoldsStatuses(nodes: seq<DagNode>, status: map<string, NodeStatus>) {
    forall id :: LastStatus(nodes, id) == if id in status then Some(status[id]) else None
  }

  method DependencyLists(edges: seq<DagEdge>) returns (deps: map<string, seq<string>>)
    ensures ListsDependencies(edges, deps)
  {
    deps := map[];
    for k := 0 to |edges|
      invariant forall id, u :: u in Neighbors(deps, id) <==> EdgeAmong(edges, k, u, id)
    {
      var e := edges[k];
      ghost var before := deps;
      deps := deps[e.toNode := Neighbors(deps, e.toNode) + [e.fromNode]];
      forall id, u ensures u in Neighbors(deps, id) <==> EdgeAmong(edges, k + 1, u, id) {
        assert u in Neighbors(deps, id) <==> u in Neighbors(before, id) || (u == e.fromNode && id == e.toNode);
      }
    }
  }

  method StatusTable(nodes: seq<DagNode>) returns (status: map<string, NodeStatus>)
    ensures HoldsStatuses(nodes, status)
  {
    status := map[];
    for i := 0 to |nodes|
      invariant forall id :: LastStatus(nodes[..i], id) == if id in status then Some(status[id]) else None
    {
      assert nodes[..i + 1][..i] == nodes[..i];
      status := status[nodes[i].id := nodes[i].status];
    }
    assert nodes[..|nodes|] == nodes;
  }

  method AllDependenciesMet(dag: DagData, n: DagNode, deps: map<string, seq<string>>, status: map<string, NodeStatus>)
    returns (ready: bool)
    requires ListsDependencies(dag.edges, deps) && HoldsStatuses(dag.nodes, status)
    ensures ready == IsReady(dag, n)
  {
    if n.status != STATUS_PENDING {
      return false;
    }
    hide IsReady;
    EdgesDecideReadiness(dag, n);
    var needed := Neighbors(deps, n.id);
    for d := 0 to |needed|
      invariant forall l :: 0 <= l < d ==> DependencyMet(dag.nodes, needed[l])
    {
      if needed[d] !in status || !IsTerminal(status[needed[d]]) {
        assert needed[d] in needed && !DependencyMet(dag.nodes, needed[d]);
        return false;
      }
    }
    return true;
  }

  /** Every node called id counts as done in the ceiling test of a split. */
  method MarkDone(nodes: seq<DagNode>, id: string) returns (r: seq<DagNode>)
    ensures r == MarkAllDone(nodes, id)
  {
    r := nodes;
    for i := 0 to |nodes|
      invariant |r| == |nodes|
      invariant forall j :: 0 <= j < i ==> r[j] == MarkAllDone(nodes, id)[j]
      invariant forall j :: i <= j < |nodes| ==> r[j] == nodes[j]
    {
      if r[i].id == id {
        r := r[i := r[i].(status := STATUS_DONE)];
      }
    }
  }

  method StampAll(nodes: seq<DagNode>, now: int) returns (r: seq<DagNode>)
    ensures r == StampedSubs(nodes, now)
  {
    r := nodes;
    for i := 0 to |nodes|
      invariant |r| == |nodes|
      invariant forall j :: 0 <= j < i ==> r[j] == StampedSubs(nodes, now)[j]
      invariant forall j :: i <= j < |nodes| ==> r[j] == nodes[j]
    {
      if r[i].createdAt == 0 {
        r := r[i := r[i].(createdAt := now)];
      }
      r := r[i := r[i].(updatedAt := now)];
    }
  }

  class Manager {
    const ceiling: nat
    const store: Store
    const wal: Wal
    var dag: DagData

    ghost predicate Valid()
      reads this, wal
    {
      wal.Valid() && wal.buffer == []
    }

    /** The state of the recovery machine that this manager is in. */
    ghost function State(): System
      reads this, wal, store
    {
      System(if wal.closed then None else Some(dag), store.document, store.odd, wal.appended)
    }

    constructor (ceiling: nat, store: Store, wal: Wal)
      ensures this.ceiling == ceiling && this.store == store && this.wal == wal && dag == NewDagData(ceiling)
    {
      this.ceiling, this.store, this.wal, this.dag := ceiling, store, wal, NewDagData(ceiling);
    }

    /** What a previous process left behind; a broken log counts as far as it can be read. */
    static ghost function LeftBehind(store: Store, wal: Wal): System
      reads store, wal
    {
      System(None, store.document, store.odd, Decode(wal.codec, wal.file, 0).entries)
    }

    /** Opens a manager on whatever a previous process left behind, be the store readable or not. Fails on a broken log,
        or when the replayed DAG outgrows the store. */
    static method NewManager(maxNodes: nat, store: Store, wal: Wal) returns (r: Outcome<ManagerError>, m: Manager)
      requires wal.buffer == [] && !wal.closed
      requires wal.file == [] ==> wal.Valid() && wal.appended == []
      modifies store`document, wal
      ensures fresh(m) && m.store == store && m.wal == wal
      ensures m.ceiling == if maxNodes == 0 then 200 else maxNodes
      ensures r.Fail? <==> old(
        var s := LeftBehind(store, wal);
        || Decode(wal.codec, wal.file, 0).error.Some?
        || (s.log != []
            && !store.fits(Recovered(Readable(s), s.log, if maxNodes == 0 then DEFAULT_MAX_NODES else maxNodes))))
      ensures r.Pass? ==> m.Valid()
      ensures r.Pass? ==> m.State() == Next(old(LeftBehind(store, wal)), Open, m.ceiling)
      ensures r.Fail? ==> store.document == old(store.document) && wal.file == old(wal.file)
    {
      hide Decode, Encodable, EncodeLog, Mutations.Replay;
      m := new Manager(if maxNodes == 0 then DEFAULT_MAX_NODES else maxNodes, store, wal);
      var existing := store.Read();
      if existing.Some? && |existing.value.nodes| > 0 {
        m.dag := existing.value;
      }
      var log := wal.Replay();
      if log.error.Some? {
        return Fail(LogUnreadable(log.error.value)), m;
      }
      if log.entries == [] {
        EmptyLogIsEmptyFile(wal.codec, wal.file);
      }
      assert m.dag == Base(Readable(LeftBehind(store, wal)), m.ceiling);
      r := m.ReplayEntries(log.entries);
    }

    /** Applies the entries in order, stores the outcome and empties the log. */
    method ReplayEntries(entries: seq<WalEntry>) returns (r: Outcome<ManagerError>)
      requires wal.buffer == [] && !wal.closed
      modifies this`dag, store`document, wal
      ensures dag == Replay(old(dag), entries)
      ensures r.Fail? <==> entries != [] && !store.fits(dag)
      ensures entries == [] ==> unchanged(store) && unchanged(wal)
      ensures entries != [] && r.Pass? ==> store.document == Some(dag) && Valid() && wal.appended == [] && !wal.closed
      ensures r.Fail? ==> store.document == old(store.document) && unchanged(wal)
    {
      for i := 0 to |entries|
        invariant dag == Replay(old(dag), entries[..i])
        invariant unchanged(store) && unchanged(wal)
      {
        assert entries[..i + 1] == entries[..i] + [entries[i]];
        ReplayOne(old(dag), entries[..i], entries[i]);
        ApplyMutation(entries[i]);
      }
      assert entries[..|entries|] == entries;
      if |entries| > 0 {
        var ok := store.Write(dag);
        if !ok {
          return Fail(StoreTooSmall);
        }
        var t := wal.Truncate();
      }
      return Pass;
    }

    /** The index of the first node called id, or -1. */
    method FindNode(id: string) returns (idx: int)
      ensures idx == if FirstIndex(dag.nodes, id) < |dag.nodes| then FirstIndex(dag.nodes, id) else -1
    {
      for i := 0 to |dag.nodes|
        invariant forall j :: 0 <= j < i ==> dag.nodes[j].id != id
      {
        if dag.nodes[i].id == id {
          FirstIndexIs(dag.nodes, id, i);
          return i;
        }
      }
      FirstIndexIs(dag.nodes, id, |dag.nodes|);
      return -1;
    }

    method SetNode(idx: nat, n: DagNode)
      requires idx < |dag.nodes|
      modifies this`dag
      ensures dag == old(dag).(nodes := old(dag).nodes[idx := n])
    {
      dag := dag.(nodes := dag.nodes[idx := n]);
    }

    method UpdateActiveCount()
      modifies this`dag
      ensures dag == Recounted(old(dag), old(dag).nodes)
    {
      var count := CountNonTerminal(dag.nodes);
      dag := dag.(header := dag.header.(activeNodeCount := count));
    }

    method Touch(time: int)
      modifies this`dag
      ensures dag == Touched(old(dag), time)
    {
      dag := dag.(header := dag.header.(lastModified := time));
    }

    /** The second implementation of the mutations, used on recovery. */
    method ApplyMutation(entry: WalEntry)
      modifies this`dag
      ensures dag == Mutations.ApplyMutation(old(dag), entry)
    {
      match entry.mutation {
      case MutAddNode(node) =>
        dag := dag.(nodes := dag.nodes + [node]);
        UpdateActiveCount();
      case MutUpdateNode(id, status, metrics) =>
        var i := FindNode(id);
        if i >= 0 {
          SetNode(i, Changed(dag.nodes[i], Update(status, metrics, entry.timestamp)));
        }
        UpdateActiveCount();
      case MutAddEdge(edge) =>
        dag := dag.(edges := dag.edges + [edge]);
      case MutRemoveEdge(fromNode, toNode) =>
        var slice := new DagEdge[|dag.edges|](i requires 0 <= i < |dag.edges| reads this => dag.edges[i]);
        assert slice[..] == dag.edges;
        var n := FilterInPlace(slice, fromNode, toNode);
        dag := dag.(edges := slice[..n]);
      case MutSplitNode(parentID, subNodes) =>
        var i := FindNode(parentID);
        if i >= 0 {
          SetNode(i, Changed(dag.nodes[i], Finish));
        }
        dag := dag.(nodes := dag.nodes + subNodes);
        UpdateActiveCount();
      case MutBulkLoad(loaded) =>
        dag := loaded;
      case MutAssignNode(id, agentID) =>
        var i := FindNode(id);
        if i >= 0 {
          SetNode(i, Changed(dag.nodes[i], Bind(agentID, None)));
        }
      case MutUnknown(_) =>
      }
      Touch(entry.timestamp);
    }

    /** Writes one mutation to the log; it is on disk when this returns Pass. */
    method Commit(mutation: Mutation, now: int) returns (r: Outcome<ManagerError>)
      requires Valid() && Encodable(wal.codec, WalEntry(mutation, now))
      modifies wal
      ensures Valid() && wal.closed == old(wal.closed)
      ensures r == if old(wal.closed) then Fail(LogClosed) else Pass
      ensures wal.appended == if r.Pass? then old(wal.appended) + [WalEntry(mutation, now)] else old(wal.appended)
    {
      hide Encodable;
      var appended := wal.AppendSync(WalEntry(mutation, 0), now);
      if appended.Fail? {
        return Fail(LogClosed);
      }
      return Pass;
    }

    method AddNode(node: DagNode, t: Times) returns (r: Outcome<ManagerError>)
      requires Valid() && Encodable(wal.codec, LogEntry(Mutations.AddNode(node), ceiling, t))
      modifies this`dag, wal
      ensures Valid()
      ensures r.Pass? <==> !old(wal.closed) && Accepts(old(dag), Mutations.AddNode(node))
      ensures r == Fail(LogClosed) <==> old(wal.closed) && Accepts(old(dag), Mutations.AddNode(node))
      ensures r.Fail? ==> dag == old(dag)
      ensures wal.closed == old(wal.closed)
      ensures r.Pass? ==> dag == LiveEffect(old(dag), Mutations.AddNode(node), ceiling, t)
      ensures State() == Next(old(State()), Submit(Mutations.AddNode(node), t), ceiling)
    {
      hide Acyclic, OneOwnerPerFile, Admissible, Encodable, EncodeLog, AllEncodable, Replay, Recovered;
      var stamped := node;
      if stamped.createdAt == 0 {
        stamped := stamped.(createdAt := t.now);
      }
      stamped := stamped.(updatedAt := stamped.createdAt);
      var testNodes := dag.nodes + [stamped];
      StampedChecksAlike(dag.nodes, node, t.now);
      var checked := ValidateNodeCeiling(testNodes, dag.header.maxNodes);
      if checked.Fail? {
        return Fail(Invalid(checked.error));
      }
      checked := ValidateAssignments(testNodes);
      if checked.Fail? {
        return Fail(Invalid(checked.error));
      }
      r := Commit(MutAddNode(stamped), t.logged);
      if r.Pass? {
        dag := dag.(nodes := dag.nodes + [stamped]);
        UpdateActiveCount();
        Touch(t.later);
      }
    }

    method UpdateNode(id: string, agentID: string, status: NodeStatus, metrics: Option<NodeMetrics>, enforceOwner: bool,
                      t: Times)
      returns (r: Outcome<ManagerError>)
      requires Valid()
          && Encodable(wal.codec,
              LogEntry(Mutations.UpdateNode(id, agentID, status, metrics, enforceOwner), ceiling, t))
      modifies this`dag, wal
      ensures Valid()
      ensures r.Pass? <==>
          !old(wal.closed) && Accepts(old(dag), Mutations.UpdateNode(id, agentID, status, metrics, enforceOwner))
      ensures r == Fail(LogClosed) <==>
          old(wal.closed) && Accepts(old(dag), Mutations.UpdateNode(id, agentID, status, metrics, enforceOwner))
      ensures r == Fail(NodeNotFound(id)) <==> FirstIndex(old(dag).nodes, id) == |old(dag).nodes|
      ensures r.Fail? ==> dag == old(dag)
      ensures wal.closed == old(wal.closed)
      ensures r.Pass? ==>
          dag == LiveEffect(old(dag), Mutations.UpdateNode(id, agentID, status, metrics, enforceOwner), ceiling, t)
      ensures State()
          == Next(old(State()), Submit(Mutations.UpdateNode(id, agentID, status, metrics, enforceOwner), t), ceiling)
    {
      hide Acyclic, OneOwnerPerFile, Admissible, Encodable, EncodeLog, AllEncodable, Replay, Recovered;
      var idx := FindNode(id);
      if idx == -1 {
        return Fail(NodeNotFound(id));
      }
      if enforceOwner {
        var agent := TrimSpace(agentID);
        var owner := TrimSpace(dag.nodes[idx].assignedAgent);
        if agent == "" || owner == "" || owner != agent {
          return Fail(NotOwner(id));
        }
      }
      r := Commit(MutUpdateNode(id, status, metrics), t.logged);
      if r.Pass? {
        SetNode(idx, Changed(dag.nodes[idx], Update(status, metrics, t.now)));
        UpdateActiveCount();
        Touch(t.now);
      }
    }

    method AssignNode(id: string, agentID: string, t: Times) returns (r: Outcome<ManagerError>)
      requires Valid() && Encodable(wal.codec, LogEntry(Mutations.AssignNode(id, agentID), ceiling, t))
      modifies this`dag, wal
      ensures Valid()
      ensures r.Pass? <==> !old(wal.closed) && Accepts(old(dag), Mutations.AssignNode(id, agentID))
      ensures r == Fail(LogClosed) <==> old(wal.closed) && Accepts(old(dag), Mutations.AssignNode(id, agentID))
      ensures r == Fail(NodeNotFound(id)) <==> FirstIndex(old(dag).nodes, id) == |old(dag).nodes|
      ensures r.Fail? ==> dag == old(dag)
      ensures wal.closed == old(wal.closed)
      ensures r.Pass? ==> dag == LiveEffect(old(dag), Mutations.AssignNode(id, agentID), ceiling, t)
      ensures State() == Next(old(State()), Submit(Mutations.AssignNode(id, agentID), t), ceiling)
    {
      var idx := FindNode(id);
      if idx == -1 {
        return Fail(NodeNotFound(id));
      }
      r := Commit(MutAssignNode(id, agentID), t.logged);
      if r.Pass? {
        SetNode(idx, Changed(dag.nodes[idx], Bind(agentID, Some(t.now))));
        Touch(t.now);
      }
    }

    method AddEdge(edge: DagEdge, t: Times) returns (r: Outcome<ManagerError>)
      requires Valid() && Encodable(wal.codec, LogEntry(Mutations.AddEdge(edge), ceiling, t))
      modifies this`dag, wal
      ensures Valid()
      ensures r.Pass? <==> !old(wal.closed) && Accepts(old(dag), Mutations.AddEdge(edge))
      ensures r == Fail(LogClosed) <==> old(wal.closed) && Accepts(old(dag), Mutations.AddEdge(edge))
      ensures r.Fail? ==> dag == old(dag)
      ensures wal.closed == old(wal.closed)
      ensures r.Pass? ==> dag == LiveEffect(old(dag), Mutations.AddEdge(edge), ceiling, t)
      ensures State() == Next(old(State()), Submit(Mutations.AddEdge(edge), t), ceiling)
    {
      var checked := ValidateCycles(dag.nodes, dag.edges + [edge]);
      if checked.Fail? {
        return Fail(Invalid(checked.error));
      }
      r := Commit(MutAddEdge(edge), t.logged);
      if r.Pass? {
        dag := dag.(edges := dag.edges + [edge]);
        Touch(t.later);
      }
    }

    method SplitNode(parentID: string, subNodes: seq<DagNode>, t: Times) returns (r: Outcome<ManagerError>)
      requires Valid() && Encodable(wal.codec, LogEntry(Mutations.SplitNode(parentID, subNodes), ceiling, t))
      modifies this`dag, wal
      ensures Valid()
      ensures r.Pass? <==> !old(wal.closed) && Accepts(old(dag), Mutations.SplitNode(parentID, subNodes))
      ensures r == Fail(LogClosed) <==> old(wal.closed) && Accepts(old(dag), Mutations.SplitNode(parentID, subNodes))
      ensures r == Fail(NodeNotFound(parentID)) <==> FirstIndex(old(dag).nodes, parentID) == |old(dag).nodes|
      ensures r.Fail? ==> dag == old(dag)
      ensures wal.closed == old(wal.closed)
      ensures r.Pass? ==> dag == LiveEffect(old(dag), Mutations.SplitNode(parentID, subNodes), ceiling, t)
      ensures State() == Next(old(State()), Submit(Mutations.SplitNode(parentID, subNodes), t), ceiling)
    {
      hide Acyclic, OneOwnerPerFile, Admissible, Encodable, EncodeLog, AllEncodable, Replay, Recovered;
      var idx := FindNode(parentID);
      if idx == -1 {
        return Fail(NodeNotFound(parentID));
      }
      var testNodes := MarkDone(dag.nodes, parentID);
      var checked := ValidateNodeCeiling(testNodes + subNodes, dag.header.maxNodes);
      if checked.Fail? {
        return Fail(Invalid(checked.error));
      }
      var stamped := StampAll(subNodes, t.now);
      r := Commit(MutSplitNode(parentID, stamped), t.logged);
      if r.Pass? {
        SetNode(idx, Changed(dag.nodes[idx], Finish));
        dag := dag.(nodes := dag.nodes + stamped);
        UpdateActiveCount();
        Touch(t.now);
      }
    }

    method BulkLoad(loaded: DagData, t: Times) returns (r: Outcome<ManagerError>)
      requires Valid() && Encodable(wal.codec, LogEntry(Mutations.BulkLoad(loaded), ceiling, t))
      modifies this`dag, wal
      ensures Valid()
      ensures r.Pass? <==> !old(wal.closed) && Accepts(old(dag), Mutations.BulkLoad(loaded))
      ensures r == Fail(LogClosed) <==> old(wal.closed) && Accepts(old(dag), Mutations.BulkLoad(loaded))
      ensures r.Fail? ==> dag == old(dag)
      ensures wal.closed == old(wal.closed)
      ensures r.Pass? ==> dag == LiveEffect(old(dag), Mutations.BulkLoad(loaded), ceiling, t)
      ensures State() == Next(old(State()), Submit(Mutations.BulkLoad(loaded), t), ceiling)
    {
      var checked := ValidateAll(loaded);
      if checked.Fail? {
        return Fail(Invalid(checked.error));
      }
      var prepared := loaded.(header := loaded.header.(maxNodes := ceiling, schemaVersion := CURRENT_SCHEMA_VERSION,
          lastModified := t.now));
      r := Commit(MutBulkLoad(prepared), t.logged);
      if r.Pass? {
        dag := prepared;
        UpdateActiveCount();
      }
    }

    /** The pending nodes whose dependencies are all finished, in DAG order. */
    method GetReadyNodes() returns (ready: seq<DagNode>)
      ensures ready == ReadyNodes(dag)
    {
      hide IsReady, ListsDependencies, HoldsStatuses, ReadyAmong, ReadyNodes;
      var deps := DependencyLists(dag.edges);
      var status := StatusTable(dag.nodes);
      ready := [];
      ReadyAmongNone(dag);
      for i := 0 to |dag.nodes|
        invariant ready == ReadyAmong(dag, i)
      {
        var isReady := AllDependenciesMet(dag, dag.nodes[i], deps, status);
        ReadyAmongMore(dag, i);
        if isReady {
          ready := ready + [dag.nodes[i]];
        }
      }
      assert ReadyNodes(dag) == ReadyAmong(dag, |dag.nodes|) by {
        ReadyAmongAll(dag);
      }
    }

    method Snapshot() returns (snapshot: DagData)
      ensures snapshot == dag
    {
      return DagData(dag.header, dag.nodes, dag.edges);
    }

    /** Stores the DAG and truncates the log, the latter even when the store refused. */
    method Close() returns (r: Outcome<ManagerError>)
      requires Valid() && !wal.closed
      modifies store`document, wal
      ensures Valid() && dag == old(dag)
      ensures r.Pass? <==> store.fits(dag)
      ensures State() == Next(old(State()), if r.Pass? then Event.Close else CloseRefused, ceiling)
    {
      var ok := store.Write(dag);
      var t := wal.Truncate();
      wal.Close();
      return if ok then Pass else Fail(StoreTooSmall);
    }
  }

  lemma EdgesDecideReadiness(dag: DagData, n: DagNode)
    requires n.status == STATUS_PENDING
    ensures IsReady(dag, n) <==> forall u :: EdgeAmong(dag.edges, |dag.edges|, u, n.id) ==> DependencyMet(dag.nodes, u)
  {
    hide DependencyMet;
    forall k | 0 <= k < |dag.edges| && dag.edges[k].toNode == n.id
        ensures EdgeAmong(dag.edges, |dag.edges|, dag.edges[k].fromNode, n.id) {
    }
  }

  lemma EmptyLogIsEmptyFile(codec: Codec, file: seq<byte>)
    requires Decode(codec, file, 0) == ReadResult([], None)
    ensures file == []
  {
    hide Number, FromLittleEndian, ChecksumIEEE;
  }

  /** Stamping a node changes nothing that the checks look at. */
  lemma StampedChecksAlike(nodes: seq<DagNode>, node: DagNode, now: int)
    ensures CountActive(nodes + [Stamped(node, now)]) == CountActive(nodes + [node])
    ensures OneOwnerPerFile(nodes + [Stamped(node, now)]) == OneOwnerPerFile(nodes + [node])
  {
    var a, b := nodes + [Stamped(node, now)], nodes + [node];
    forall i | 0 <= i < |a|
        ensures a[i].status == b[i].status && a[i].targetFiles == b[i].targetFiles && a[i].domainID == b[i].domainID {
    }
    CountActiveCongruence(a, b);
  }
}
