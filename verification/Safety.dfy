/** What runs of live commands keep: unique names, real endpoints, no cycle, one owner per file, the ceiling, the
    count. */
module Safety {
  import opened DagTypes
  import opened Graph
  import opened Validator
  import opened Mutations
  import opened Idempotence
  import opened Recovery

  ghost predicate WellFormed(dag: DagData) {
    && UniqueIds(dag.nodes)
    && NoDangling(dag.nodes, dag.edges)
    && Acyclic(Ids(dag.nodes), dag.edges)
    && OneOwnerPerFile(dag.nodes)
    && CountActive(dag.nodes) <= dag.header.maxNodes
  }

  ghost predicate CountIsExact(dag: DagData) {
    dag.header.activeNodeCount == CountActive(dag.nodes)
  }

  /** The new node's name is free, and no list repeats a name. */
  ghost predicate FreshNames(nodes: seq<DagNode>, more: seq<DagNode>) {
    UniqueIds(more) && forall i :: 0 <= i < |more| ==> more[i].id !in Ids(nodes)
  }

  /** What the manager leaves to its callers: the tests it does not make. */
  ghost predicate Careful(dag: DagData, c: Command, ceiling: nat) {
    match c
    case AddNode(node) => FreshNames(dag.nodes, [node])
    case UpdateNode(id, _, status, _, _) => KeepsCeiling(dag, id, status)
    case AssignNode(_, _) => true
    case AddEdge(edge) => edge.fromNode in Ids(dag.nodes) && edge.toNode in Ids(dag.nodes)
    case SplitNode(_, subNodes) => FreshNames(dag.nodes, subNodes) && OneOwnerPerFile(dag.nodes + subNodes)
    case BulkLoad(loaded) =>
      UniqueIds(loaded.nodes) && NoDangling(loaded.nodes, loaded.edges) && CountActive(loaded.nodes) <= ceiling
  }

  /** A status change that does not revive a finished node while every place is taken. */
  ghost predicate KeepsCeiling(dag: DagData, id: string, status: NodeStatus) {
    var i := FirstIndex(dag.nodes, id);
    i < |dag.nodes| && IsTerminal(dag.nodes[i].status) && !IsTerminal(status) ==>
        CountActive(dag.nodes) < dag.header.maxNodes
  }

  /** A sub-node takes over the parent's domain and some of its files. */
  ghost predicate CarvedFrom(nodes: seq<DagNode>, parentID: string, sub: DagNode) {
    var i := FirstIndex(nodes, parentID);
    i < |nodes| && sub.domainID == nodes[i].domainID && forall f :: f in sub.targetFiles ==> f in nodes[i].targetFiles
  }

  lemma IdsAfterAppend(nodes: seq<DagNode>, more: seq<DagNode>)
    ensures Ids(nodes + more) == Ids(nodes) + Ids(more)
  {
    forall i | 0 <= i < |nodes| ensures nodes[i].id in Ids(nodes + more) {
      assert (nodes + more)[i] == nodes[i];
    }
    forall i | 0 <= i < |more| ensures more[i].id in Ids(nodes + more) {
      assert (nodes + more)[|nodes| + i] == more[i];
    }
  }

  lemma IdsAfterChange(nodes: seq<DagNode>, id: string, change: NodeChange)
    ensures |ChangeFirst(nodes, id, change)| == |nodes|
    ensures forall i :: 0 <= i < |nodes| ==>
      var n := ChangeFirst(nodes, id, change)[i];
      n.id == nodes[i].id && n.domainID == nodes[i].domainID && n.targetFiles == nodes[i].targetFiles
    ensures Ids(ChangeFirst(nodes, id, change)) == Ids(nodes)
  {
    var after := ChangeFirst(nodes, id, change);
    assert forall i :: 0 <= i < |nodes| ==> after[i].id == nodes[i].id;
  }

  /** Appending fresh nodes that own nothing new keeps the structure. */
  lemma AppendKeepsStructure(nodes: seq<DagNode>, edges: seq<DagEdge>, more: seq<DagNode>)
    requires UniqueIds(nodes) && NoDangling(nodes, edges) && Acyclic(Ids(nodes), edges) && FreshNames(nodes, more)
    ensures UniqueIds(nodes + more) && NoDangling(nodes + more, edges) && Acyclic(Ids(nodes + more), edges)
  {
    IdsAfterAppend(nodes, more);
    forall i, j | 0 <= i < j < |nodes + more| ensures (nodes + more)[i].id != (nodes + more)[j].id {
      if i < |nodes| <= j {
        assert more[j - |nodes|].id !in Ids(nodes);
      }
    }
    forall k | 0 <= k < |edges| ensures edges[k].toNode !in Ids(more) {
      assert edges[k].toNode in Ids(nodes);
    }
    AcyclicWithSources(Ids(nodes), edges, Ids(more));
  }

  /** With unique names to start with, appending keeps them unique exactly when the new names are fresh. */
  lemma AppendNamesCriterion(nodes: seq<DagNode>, more: seq<DagNode>)
    requires UniqueIds(nodes)
    ensures UniqueIds(nodes + more) <==> FreshNames(nodes, more)
  {
    var all := nodes + more;
    if UniqueIds(all) {
      forall i, j | 0 <= i < j < |more| ensures more[i].id != more[j].id {
        assert all[|nodes| + i] == more[i] && all[|nodes| + j] == more[j];
      }
      forall i | 0 <= i < |more| ensures more[i].id !in Ids(nodes) {
        assert all[|nodes| + i] == more[i];
        assert forall k :: 0 <= k < |nodes| ==> all[k] == nodes[k];
      }
    }
    if FreshNames(nodes, more) {
      forall i, j | 0 <= i < j < |all| ensures all[i].id != all[j].id {
        if i < |nodes| <= j {
          assert more[j - |nodes|].id !in Ids(nodes);
        }
      }
    }
  }

  lemma StampedSubsKeepNames(nodes: seq<DagNode>, subs: seq<DagNode>, now: int)
    ensures FreshNames(nodes, StampedSubs(subs, now)) <==> FreshNames(nodes, subs)
  {
    var r := StampedSubs(subs, now);
    assert forall i :: 0 <= i < |subs| ==> r[i].id == subs[i].id;
  }

  /** Only domains and files matter to ownership. */
  lemma OwnersCongruence(a: seq<DagNode>, b: seq<DagNode>)
    requires |a| == |b|
    requires forall i :: 0 <= i < |a| ==> a[i].domainID == b[i].domainID && a[i].targetFiles == b[i].targetFiles
    ensures OneOwnerPerFile(a) <==> OneOwnerPerFile(b)
  {}

  lemma OwnersAfterSplit(nodes: seq<DagNode>, parentID: string, subs: seq<DagNode>, now: int)
    ensures OneOwnerPerFile(ChangeFirst(nodes, parentID, Finish) + StampedSubs(subs, now)) <==>
        OneOwnerPerFile(nodes + subs)
  {
    IdsAfterChange(nodes, parentID, Finish);
    hide ChangeFirst, OneOwnerPerFile;
    OwnersCongruence(ChangeFirst(nodes, parentID, Finish) + StampedSubs(subs, now), nodes + subs);
  }

  /** Sub-nodes that keep the parent's domain and share out its files never split a file's ownership. */
  lemma CarvingKeepsOwners(nodes: seq<DagNode>, parentID: string, subs: seq<DagNode>)
    requires OneOwnerPerFile(nodes)
    requires forall i :: 0 <= i < |subs| ==> CarvedFrom(nodes, parentID, subs[i])
    ensures OneOwnerPerFile(nodes + subs)
  {
    var all := nodes + subs;
    var p := FirstIndex(nodes, parentID);
    forall i | 0 <= i < |all| ensures exists k :: 0 <= k < |nodes| && Within(all[i], nodes[k]) {
      if i < |nodes| {
        assert Within(all[i], nodes[i]);
      } else {
        assert CarvedFrom(nodes, parentID, subs[i - |nodes|]);
        assert Within(all[i], nodes[p]);
      }
    }
    forall i, j, f | 0 <= i < |all| && 0 <= j < |all| && f in all[i].targetFiles && f in all[j].targetFiles
      ensures all[i].domainID == all[j].domainID
    {
      var k :| 0 <= k < |nodes| && Within(all[i], nodes[k]);
      var l :| 0 <= l < |nodes| && Within(all[j], nodes[l]);
      assert f in nodes[k].targetFiles && f in nodes[l].targetFiles;
    }
  }

  ghost predicate Within(n: DagNode, owner: DagNode) {
    n.domainID == owner.domainID && forall f :: f in n.targetFiles ==> f in owner.targetFiles
  }

  lemma CountAfterChange(nodes: seq<DagNode>, id: string, change: NodeChange)
    ensures var i := FirstIndex(nodes, id);
      CountActive(ChangeFirst(nodes, id, change)) ==
        if i == |nodes| then CountActive(nodes)
        else CountActive(nodes) - (if IsTerminal(nodes[i].status) then 0 else 1)
                                + (if IsTerminal(Changed(nodes[i], change).status) then 0 else 1)
  {
    var i := FirstIndex(nodes, id);
    if i < |nodes| {
      CountActiveUpdate(nodes, i, Changed(nodes[i], change));
    }
  }

  /** With unique names the ceiling test of a split counts what the split leaves. */
  lemma SplitCount(nodes: seq<DagNode>, parentID: string, subs: seq<DagNode>, now: int)
    requires UniqueIds(nodes)
    ensures CountActive(ChangeFirst(nodes, parentID, Finish) + StampedSubs(subs, now))
        == CountActive(MarkAllDone(nodes, parentID) + subs)
  {
    var a, b := ChangeFirst(nodes, parentID, Finish), MarkAllDone(nodes, parentID);
    var p := FirstIndex(nodes, parentID);
    forall i | 0 <= i < |nodes| ensures a[i].status == b[i].status {
      if nodes[i].id == parentID {
        assert i == p;
      }
    }
    CountActiveCongruence(a + StampedSubs(subs, now), b + subs);
  }

  /** A status update keeps the ceiling exactly when it does not revive a finished node at the ceiling. */
  lemma UpdateCeilingCriterion(dag: DagData, id: string, status: NodeStatus, metrics: Option<NodeMetrics>, now: int)
    requires CountActive(dag.nodes) <= dag.header.maxNodes
    ensures CountActive(ChangeFirst(dag.nodes, id, Update(status, metrics, now))) <= dag.header.maxNodes <==>
        KeepsCeiling(dag, id, status)
  {
    CountAfterChange(dag.nodes, id, Update(status, metrics, now));
    CountIncludes(dag.nodes, FirstIndex(dag.nodes, id));
  }

  lemma {:induction false} CountIncludes(nodes: seq<DagNode>, i: nat)
    ensures i < |nodes| && !IsTerminal(nodes[i].status) ==> CountActive(nodes) > 0
  {
    CountActiveBound(nodes);
  }

  lemma ChangeKeepsStructure(dag: DagData, id: string, change: NodeChange)
    requires WellFormed(dag)
    ensures UniqueIds(ChangeFirst(dag.nodes, id, change)) && NoDangling(ChangeFirst(dag.nodes, id, change), dag.edges)
    ensures Acyclic(Ids(ChangeFirst(dag.nodes, id, change)), dag.edges)
        && OneOwnerPerFile(ChangeFirst(dag.nodes, id, change))
  {
    IdsAfterChange(dag.nodes, id, change);
  }

  lemma AddNodeCriterion(dag: DagData, node: DagNode, t: Times)
    requires WellFormed(dag) && Accepts(dag, AddNode(node))
    ensures WellFormed(LiveEffect(dag, AddNode(node), 0, t)) <==> FreshNames(dag.nodes, [node])
  {
    var stamped := Stamped(node, t.now);
    var checked, stored := dag.nodes + [node], dag.nodes + [stamped];
    OwnersCongruence(stored, checked);
    CountActiveCongruence(stored, checked);
    AppendNamesCriterion(dag.nodes, [stamped]);
    hide Acyclic, NoDangling, OneOwnerPerFile, UniqueIds, CountActive;
    if FreshNames(dag.nodes, [node]) {
      assert FreshNames(dag.nodes, [stamped]);
      AppendKeepsStructure(dag.nodes, dag.edges, [stamped]);
    }
  }

  lemma AddEdgeCriterion(dag: DagData, edge: DagEdge, t: Times)
    requires WellFormed(dag) && Accepts(dag, AddEdge(edge))
    ensures WellFormed(LiveEffect(dag, AddEdge(edge), 0, t)) <==>
        edge.fromNode in Ids(dag.nodes) && edge.toNode in Ids(dag.nodes)
  {
    hide Acyclic, OneOwnerPerFile, Ids;
    var edges := dag.edges + [edge];
    assert edges[|dag.edges|] == edge && forall k :: 0 <= k < |dag.edges| ==> edges[k] == dag.edges[k];
  }

  lemma SplitStructure(dag: DagData, parentID: string, subs: seq<DagNode>, now: int)
    requires WellFormed(dag)
    ensures var after := ChangeFirst(dag.nodes, parentID, Finish) + StampedSubs(subs, now);
      && (UniqueIds(after) <==> FreshNames(dag.nodes, subs))
      && (FreshNames(dag.nodes, subs) ==> NoDangling(after, dag.edges) && Acyclic(Ids(after), dag.edges))
  {
    var changed, stamped := ChangeFirst(dag.nodes, parentID, Finish), StampedSubs(subs, now);
    ChangeKeepsStructure(dag, parentID, Finish);
    IdsAfterChange(dag.nodes, parentID, Finish);
    StampedSubsKeepNames(dag.nodes, subs, now);
    hide ChangeFirst, StampedSubs;
    hide Acyclic, NoDangling, OneOwnerPerFile, UniqueIds, CountActive, Ids, FreshNames;
    FreshNamesDependOnIds(dag.nodes, changed, stamped);
    AppendNamesCriterion(changed, stamped);
    if FreshNames(dag.nodes, subs) {
      AppendKeepsStructure(changed, dag.edges, stamped);
    }
  }

  lemma SplitCriterion(dag: DagData, parentID: string, subs: seq<DagNode>, t: Times)
    requires WellFormed(dag) && Accepts(dag, SplitNode(parentID, subs))
    ensures WellFormed(LiveEffect(dag, SplitNode(parentID, subs), 0, t)) <==> Careful(dag, SplitNode(parentID, subs), 0)
  {
    hide Acyclic, NoDangling, OneOwnerPerFile, UniqueIds, CountActive, ChangeFirst, Ids, FreshNames, MarkAllDone,
        StampedSubs;
    SplitStructure(dag, parentID, subs, t.now);
    OwnersAfterSplit(dag.nodes, parentID, subs, t.now);
    SplitCount(dag.nodes, parentID, subs, t.now);
  }

  lemma FreshNamesDependOnIds(a: seq<DagNode>, b: seq<DagNode>, more: seq<DagNode>)
    requires Ids(a) == Ids(b)
    ensures FreshNames(a, more) <==> FreshNames(b, more)
  {}

  /** An accepted command keeps the DAG well formed exactly when its caller was careful. */
  lemma CommandKeepsWellFormed(dag: DagData, c: Command, ceiling: nat, t: Times)
    requires WellFormed(dag) && Accepts(dag, c)
    ensures WellFormed(LiveEffect(dag, c, ceiling, t)) <==> Careful(dag, c, ceiling)
  {
    match c
    case AddNode(node) => AddNodeCriterion(dag, node, t);
    case UpdateNode(id, _, status, metrics, _) =>
      ChangeKeepsStructure(dag, id, Update(status, metrics, t.now));
      UpdateCeilingCriterion(dag, id, status, metrics, t.now);
    case AssignNode(id, agentID) =>
      ChangeKeepsStructure(dag, id, Bind(agentID, Some(t.now)));
      CountAfterChange(dag.nodes, id, Bind(agentID, Some(t.now)));
    case AddEdge(edge) => AddEdgeCriterion(dag, edge, t);
    case SplitNode(parentID, subs) => SplitCriterion(dag, parentID, subs, t);
    case BulkLoad(_) =>
  }

  /** Careful or not, every accepted command keeps the cached count exact. */
  lemma CommandKeepsCount(dag: DagData, c: Command, ceiling: nat, t: Times)
    requires CountIsExact(dag)
    ensures CountIsExact(LiveEffect(dag, c, ceiling, t))
  {
    if c.AssignNode? {
      CountAfterChange(dag.nodes, c.id, Bind(c.agentID, Some(t.now)));
    }
  }

  /** The caller of every accepted command was careful. */
  ghost predicate CarefulRun(events: seq<Event>, ceiling: nat) {
    forall k :: 0 <= k < |events| ==> CarefulStep(events[..k], events[k], ceiling)
  }

  ghost predicate CarefulStep(before: seq<Event>, ev: Event, ceiling: nat) {
    var ideal := Ideal(FRESH, before, ceiling);
    ev.Submit? && Run(FRESH, before, ceiling).memory.Some? && Accepts(ideal, ev.command) ==>
        Careful(ideal, ev.command, ceiling)
  }

  lemma {:induction false} IdealIsWellFormed(events: seq<Event>, ceiling: nat)
    requires CarefulRun(events, ceiling)
    ensures WellFormed(Ideal(FRESH, events, ceiling)) && CountIsExact(Ideal(FRESH, events, ceiling))
  {
    if events == [] {
      assert Ids([]) == {};
      EmptyGraphIsAcyclic([]);
    } else {
      var last := |events| - 1;
      var init, ev := events[..last], events[last];
      assert forall k :: 0 <= k < last ==> init[..k] == events[..k] && init[k] == events[k];
      IdealIsWellFormed(init, ceiling);
      var ideal := Ideal(FRESH, init, ceiling);
      if ev.Submit? && Run(FRESH, init, ceiling).memory.Some? && Accepts(ideal, ev.command) {
        CommandKeepsWellFormed(ideal, ev.command, ceiling, ev.times);
        CommandKeepsCount(ideal, ev.command, ceiling, ev.times);
      }
    }
  }

  lemma WellFormedIsContent(a: DagData, b: DagData)
    requires SameContent(a, b) && WellFormed(b)
    ensures WellFormed(a)
  {
    SameIds(a.nodes, b.nodes);
    SameOwners(a.nodes, b.nodes);
    SameCount(a.nodes, b.nodes);
    assert forall i :: 0 <= i < |a.nodes| ==> SameNode(a.nodes[i], b.nodes[i]) && a.nodes[i].id == b.nodes[i].id;
  }

  /** The DAG in memory is well formed throughout every disciplined, careful run, crashes included. */
  lemma MemoryIsWellFormed(events: seq<Event>, ceiling: nat)
    requires Disciplined(events, ceiling) && CarefulRun(events, ceiling)
    requires Run(FRESH, events, ceiling).memory.Some?
    ensures WellFormed(Run(FRESH, events, ceiling).memory.value)
  {
    DisciplinedIsConsistent(events, ceiling);
    IdealIsWellFormed(events, ceiling);
    WellFormedIsContent(Run(FRESH, events, ceiling).memory.value, Ideal(FRESH, events, ceiling));
  }

  // ---------- the cached count over crashes ----------

  /** No reopening recovers from a log whose last recount was a bulk load with a wrong count, and no tear makes a
      document with a wrong count readable. */
  ghost predicate OpensCounted(events: seq<Event>, ceiling: nat) {
    forall k :: 0 <= k < |events| ==> OpenCounts(Run(FRESH, events[..k], ceiling), events[k], ceiling)
  }

  ghost predicate OpenCounts(s: System, ev: Event, ceiling: nat) {
    && ((ev.Open? || ev.CrashInOpen?) && s.memory.None? ==> !StaleCount(s.log))
    && ((ev.TornInClose? || ev.TornInOpen?) && s.odd ==> CountIsExact(Base(ev.left, ceiling)))
  }

  /** The counts in memory and in what a reopening starts from are exact. */
  ghost predicate Counted(s: System, ceiling: nat) {
    CountIsExact(Base(Readable(s), ceiling)) && (s.memory.Some? ==> CountIsExact(s.memory.value))
  }

  /** Reopening gives an exact count exactly when the log is not stale. */
  lemma OpenCountCriterion(s: System, ceiling: nat)
    requires Counted(s, ceiling) && s.memory.None?
    ensures Counted(Next(s, Open, ceiling), ceiling) <==> !StaleCount(s.log)
  {
    CountAfterReplay(Base(Readable(s), ceiling), s.log);
    if !StaleCount(s.log) {
      hide StaleCount, Replay;
      CountsRecovered(s, ceiling);
    }
  }

  lemma BaseCount(dag: DagData, ceiling: nat)
    requires CountIsExact(dag)
    ensures CountIsExact(Base(Some(dag), ceiling))
  {}

  /** Over every run, careful or not, whose reopenings meet no stale log, the count in memory is the true one. */
  lemma {:induction false} MemoryCountIsExact(events: seq<Event>, ceiling: nat)
    requires OpensCounted(events, ceiling)
    ensures Counted(Run(FRESH, events, ceiling), ceiling)
  {
    if events != [] {
      var last := |events| - 1;
      var init, ev := events[..last], events[last];
      assert forall k :: 0 <= k < last ==> init[..k] == events[..k] && init[k] == events[k];
      MemoryCountIsExact(init, ceiling);
      StepKeepsCount(Run(FRESH, init, ceiling), ev, ceiling);
    }
  }

  lemma StepKeepsCount(s: System, ev: Event, ceiling: nat)
    requires Counted(s, ceiling) && OpenCounts(s, ev, ceiling)
    ensures Counted(Next(s, ev, ceiling), ceiling)
  {
    hide StaleCount, Replay, Accepts, LiveEffect, CountIsExact;
    match ev
    case Submit(c, t) =>
      if s.memory.Some? {
        CommandKeepsCount(s.memory.value, c, ceiling, t);
      }
    case Close | CrashInClose =>
      if s.memory.Some? {
        BaseCount(s.memory.value, ceiling);
      }
    case Open | CrashInOpen =>
      if s.memory.None? {
        CountsRecovered(s, ceiling);
      }
    case TornInClose(_) | TornInOpen(_) => NothingStoredCounts(ceiling);
    case CloseRefused | Crash =>
  }

  lemma NothingStoredCounts(ceiling: nat)
    ensures CountIsExact(Base(None, ceiling))
  {}

  lemma CountsRecovered(s: System, ceiling: nat)
    requires Counted(s, ceiling) && !StaleCount(s.log)
    ensures CountIsExact(Recovered(Readable(s), s.log, ceiling))
    ensures CountIsExact(Base(Some(Recovered(Readable(s), s.log, ceiling)), ceiling))
  {
    CountAfterReplay(Base(Readable(s), ceiling), s.log);
    BaseCount(Recovered(Readable(s), s.log, ceiling), ceiling);
  }

  // ---------- why careful callers are needed ----------

  /** AddNode keeps the graph acyclic exactly when the waiting edges do not already lead from the new name back to
      it. */
  lemma AddNodeCycleCriterion(vs: set<string>, edges: seq<DagEdge>, id: string)
    requires Acyclic(vs, edges) && id !in vs
    ensures Acyclic(vs + {id}, edges) <==> !WaitingLoop(vs, edges, id)
  {
    if WaitingLoop(vs, edges, id) {
      if HasEdge(edges, id, id) {
        assert Cycle(vs + {id}, edges, [id, id]);
      } else {
        var p :| Path(vs, edges, p) && HasEdge(edges, id, p[0]) && HasEdge(edges, p[|p| - 1], id);
        assert Cycle(vs + {id}, edges, [id] + p + [id]);
      }
    }
    if !Acyclic(vs + {id}, edges) {
      var c :| Cycle(vs + {id}, edges, c);
      if id !in c {
        assert Cycle(vs, edges, c);
      } else {
        var k :| 0 <= k < |c| && c[k] == id;
        var r := c[k..] + c[1..k + 1];
        RotatedCycle(vs + {id}, edges, c, k);
        LoopThrough(vs, edges, id, r);
      }
    }
  }

  /** Among the edges already present, one leads out of id, through existing nodes, back into id. */
  ghost predicate WaitingLoop(vs: set<string>, edges: seq<DagEdge>, id: string) {
    || HasEdge(edges, id, id)
    || exists p :: Path(vs, edges, p) && HasEdge(edges, id, p[0]) && HasEdge(edges, p[|p| - 1], id)
  }

  lemma RotatedStep(edges: seq<DagEdge>, c: seq<string>, k: nat, i: nat)
    requires |c| > 1 && k < |c| && c[0] == c[|c| - 1] && i < |c| - 1
    requires forall j, l :: 0 <= j < l < |c| && l == j + 1 ==> HasEdge(edges, c[j], c[l])
    ensures var r := c[k..] + c[1..k + 1]; HasEdge(edges, r[i], r[i + 1])
  {
    hide HasEdge;
    var r := c[k..] + c[1..k + 1];
    if i + 1 < |c| - k {
      assert r[i] == c[k + i] && r[i + 1] == c[k + i + 1];
    } else if i < |c| - k {
      assert r[i] == c[|c| - 1] == c[0] && r[i + 1] == c[1];
    } else {
      var l := i - (|c| - k) + 1;
      assert r[i] == c[l] && r[i + 1] == c[l + 1];
    }
  }

  lemma RotatedCycle(vs: set<string>, edges: seq<DagEdge>, c: seq<string>, k: nat)
    requires Cycle(vs, edges, c) && k < |c|
    ensures Cycle(vs, edges, c[k..] + c[1..k + 1])
  {
    hide HasEdge;
    var r := c[k..] + c[1..k + 1];
    forall i, j | 0 <= i < j < |r| && j == i + 1 ensures HasEdge(edges, r[i], r[j]) {
      RotatedStep(edges, c, k, i);
    }
    forall i | 0 <= i < |r| ensures r[i] in vs {
      assert r[i] == if i < |c| - k then c[k + i] else c[i - (|c| - k) + 1];
    }
    assert r[|r| - 1] == c[k] == r[0];
  }

  lemma LoopThrough(vs: set<string>, edges: seq<DagEdge>, id: string, r: seq<string>)
    requires Cycle(vs + {id}, edges, r) && r[0] == id && id !in vs
    ensures WaitingLoop(vs, edges, id)
  {
    var n := 1;
    while r[n] != id
      invariant 1 <= n < |r|
      invariant forall k :: 1 <= k < n ==> r[k] in vs
      decreases |r| - n
    {
      n := n + 1;
    }
    if n == 1 {
      assert HasEdge(edges, r[0], r[1]);
    } else {
      var p := r[1..n];
      assert HasEdge(edges, r[0], r[1]) && HasEdge(edges, r[n - 1], r[n]);
      assert p[0] == r[1] && p[|p| - 1] == r[n - 1];
      assert Path(vs, edges, p);
    }
  }

  const EDGE_BA: DagEdge := DagEdge("b", "a", Dependency, "")

  /** The DAG after the first k of: edge a-b, edge b-a, node a, node b. */
  function Backwards(k: nat, t: Times): DagData {
    if k == 0 then NewDagData(2) else LiveEffect(Backwards(k - 1, t), BackwardsStep(k - 1), 2, t)
  }

  function BackwardsStep(k: nat): Command {
    if k == 0 then AddEdge(EDGE_AB)
    else if k == 1 then AddEdge(EDGE_BA)
    else AddNode(Plain(if k == 2 then "a" else "b"))
  }

  lemma BackwardsContent(t: Times)
    ensures Backwards(1, t).nodes == [] && Backwards(1, t).edges == [EDGE_AB]
    ensures Backwards(2, t).nodes == [] && Backwards(2, t).edges == [EDGE_AB, EDGE_BA]
    ensures Backwards(3, t).nodes == [Plain("a")] && Backwards(3, t).edges == [EDGE_AB, EDGE_BA]
    ensures Backwards(4, t).nodes == [Plain("a"), Plain("b")] && Backwards(4, t).edges == [EDGE_AB, EDGE_BA]
    ensures Backwards(2, t).header.maxNodes == 2 && Backwards(3, t).header.maxNodes == 2
  {}

  /** Edges submitted before their endpoints: four accepted commands that end in a cycle. */
  lemma DanglingEdgesCloseACycle(t: Times)
    ensures forall k: nat :: k < 4 ==> Accepts(Backwards(k, t), BackwardsStep(k))
    ensures !Acyclic(Ids(Backwards(4, t).nodes), Backwards(4, t).edges)
  {
    BackwardsContent(t);
    assert Backwards(0, t) == NewDagData(2);
    hide Backwards, Acyclic;
    assert Accepts(Backwards(0, t), AddEdge(EDGE_AB)) && Accepts(Backwards(1, t), AddEdge(EDGE_BA)) by {
      EmptyGraphIsAcyclic([] + [EDGE_AB]);
      EmptyGraphIsAcyclic([EDGE_AB] + [EDGE_BA]);
      assert Ids([]) == {};
    }
    assert Accepts(Backwards(2, t), AddNode(Plain("a"))) by {
      assert CountActive([] + [Plain("a")]) <= 2;
    }
    assert Accepts(Backwards(3, t), AddNode(Plain("b"))) by {
      assert CountActive([Plain("a")] + [Plain("b")]) <= 2;
    }
    ThereAndBack(Backwards(4, t));
  }

  lemma ThereAndBack(d: DagData)
    requires d.nodes == [Plain("a"), Plain("b")] && d.edges == [EDGE_AB, EDGE_BA]
    ensures !Acyclic(Ids(d.nodes), d.edges)
  {
    assert d.nodes[0].id == "a" && d.nodes[1].id == "b";
    assert d.edges[0] == EDGE_AB && d.edges[1] == EDGE_BA;
    assert HasEdge(d.edges, "a", "b") && HasEdge(d.edges, "b", "a");
    assert Cycle(Ids(d.nodes), d.edges, ["a", "b", "a"]);
  }
}
