/** Paths, cycles and topological orders of the edge multigraph restricted to a set of vertices. */
module Graph {
  import opened DagTypes

  predicate HasEdge(edges: seq<DagEdge>, u: string, v: string) {
    exists k :: 0 <= k < |edges| && edges[k].fromNode == u && edges[k].toNode == v
  }

  ghost predicate Path(vs: set<string>, edges: seq<DagEdge>, p: seq<string>) {
    && p != []
    && (forall k :: 0 <= k < |p| ==> p[k] in vs)
    && (forall j, k :: 0 <= j < k < |p| && k == j + 1 ==> HasEdge(edges, p[j], p[k]))
  }

  ghost predicate Cycle(vs: set<string>, edges: seq<DagEdge>, c: seq<string>) {
    |c| > 1 && Path(vs, edges, c) && c[0] == c[|c| - 1]
  }

  ghost predicate Acyclic(vs: set<string>, edges: seq<DagEdge>) {
    forall c :: !Cycle(vs, edges, c)
  }

  /** Some cycle c and path p witness that v lies on a cycle or is reached from one. */
  ghost predicate CycleReaches(vs: set<string>, edges: seq<DagEdge>, c: seq<string>, p: seq<string>, v: string) {
    Cycle(vs, edges, c) && Path(vs, edges, p) && p[0] == c[0] && p[|p| - 1] == v
  }

  ghost predicate OnOrAfterCycle(vs: set<string>, edges: seq<DagEdge>, v: string) {
    exists c, p :: CycleReaches(vs, edges, c, p, v)
  }

  lemma OnCycleIsAfterIt(vs: set<string>, edges: seq<DagEdge>, c: seq<string>)
    requires Cycle(vs, edges, c)
    ensures OnOrAfterCycle(vs, edges, c[0])
  {
    assert CycleReaches(vs, edges, c, c, c[0]);
  }

  /** Every vertex of m has a predecessor in m. */
  ghost predicate FedFromWithin(edges: seq<DagEdge>, m: set<string>) {
    forall v {:trigger HasPredecessor(edges, m, v)} :: v in m ==> HasPredecessor(edges, m, v)
  }

  predicate HasPredecessor(edges: seq<DagEdge>, m: set<string>, v: string) {
    exists u :: u in m && HasEdge(edges, u, v)
  }

  lemma {:induction false} BackwardWalk(vs: set<string>, edges: seq<DagEdge>, m: set<string>, v: string, n: nat)
    returns (p: seq<string>)
    requires m <= vs && v in m && FedFromWithin(edges, m)
    ensures |p| == n + 1 && Path(vs, edges, p) && p[n] == v
    ensures forall k :: 0 <= k < |p| ==> p[k] in m
    decreases n
  {
    if n == 0 {
      p := [v];
    } else {
      assert HasPredecessor(edges, m, v);
      var u :| u in m && HasEdge(edges, u, v);
      var q := BackwardWalk(vs, edges, m, u, n - 1);
      p := q + [v];
    }
  }

  function Elements(p: seq<string>): set<string> {
    set x | x in p
  }

  lemma {:induction false} DistinctCardinality(p: seq<string>)
    requires forall i, j :: 0 <= i < j < |p| ==> p[i] != p[j]
    ensures |Elements(p)| == |p|
  {
    if p != [] {
      var q := p[..|p| - 1];
      DistinctCardinality(q);
      assert Elements(p) == Elements(q) + {p[|p| - 1]};
    }
  }

  lemma {:induction false} SubsetCardinality(a: set<string>, b: set<string>)
    requires a <= b
    ensures |a| <= |b|
  {
    if a != {} {
      var x :| x in a;
      SubsetCardinality(a - {x}, b - {x});
    }
  }

  lemma Pigeonhole(p: seq<string>, m: set<string>)
    requires forall k :: 0 <= k < |p| ==> p[k] in m
    requires |p| > |m|
    ensures exists i, j :: 0 <= i < j < |p| && p[i] == p[j]
  {
    if forall i, j :: 0 <= i < j < |p| ==> p[i] != p[j] {
      DistinctCardinality(p);
      SubsetCardinality(Elements(p), m);
    }
  }

  /** A set in which every vertex has a predecessor is entirely on or after cycles. */
  lemma FedSetHasCycle(vs: set<string>, edges: seq<DagEdge>, m: set<string>, v: string)
    requires m <= vs && v in m && FedFromWithin(edges, m)
    ensures OnOrAfterCycle(vs, edges, v)
  {
    var p := BackwardWalk(vs, edges, m, v, |m|);
    Pigeonhole(p, m);
    var i, j :| 0 <= i < j < |p| && p[i] == p[j];
    var c, q := p[i..j + 1], p[i..];
    assert Path(vs, edges, c);
    assert Path(vs, edges, q);
    assert CycleReaches(vs, edges, c, q, v);
  }

  /** In an acyclic graph every nonempty set of vertices has a member with no predecessor in the set. */
  lemma AcyclicHasSource(vs: set<string>, edges: seq<DagEdge>, m: set<string>) returns (v: string)
    requires Acyclic(vs, edges) && m <= vs && m != {}
    ensures v in m && forall u :: u in m ==> !HasEdge(edges, u, v)
  {
    if FedFromWithin(edges, m) {
      var w :| w in m;
      FedSetHasCycle(vs, edges, m, w);
      assert false;
    }
    v :| v in m && !HasPredecessor(edges, m, v);
  }

  /** Distinct vertices, each listed only after all its predecessors. */
  ghost predicate TopologicalPrefix(vs: set<string>, edges: seq<DagEdge>, order: seq<string>) {
    && (forall i, j :: 0 <= i < j < |order| ==> order[i] != order[j])
    && (forall k :: 0 <= k < |order| ==> order[k] in vs)
    && (forall k, u :: 0 <= k < |order| && u in vs && HasEdge(edges, u, order[k]) ==> u in order[..k])
  }

  /** A path into position k of a topological prefix climbs it: it starts at least |p| - 1 places earlier. */
  lemma {:induction false} PathClimbs(vs: set<string>, edges: seq<DagEdge>, order: seq<string>, p: seq<string>, k: nat)
    returns (m: nat)
    requires TopologicalPrefix(vs, edges, order) && Path(vs, edges, p)
    requires k < |order| && p[|p| - 1] == order[k]
    ensures m < |order| && order[m] == p[0] && m + |p| - 1 <= k
    decreases |p|
  {
    if |p| == 1 {
      m := k;
    } else {
      var q := p[..|p| - 1];
      assert HasEdge(edges, p[|p| - 2], p[|p| - 1]);
      var k' :| 0 <= k' < k && order[k'] == p[|p| - 2];
      m := PathClimbs(vs, edges, order, q, k');
    }
  }

  lemma OrderedIsNotAfterCycle(vs: set<string>, edges: seq<DagEdge>, order: seq<string>, v: string)
    requires TopologicalPrefix(vs, edges, order) && v in order
    ensures !OnOrAfterCycle(vs, edges, v)
  {
    forall c, p | CycleReaches(vs, edges, c, p, v) ensures false {
      var k :| 0 <= k < |order| && order[k] == v;
      var m := PathClimbs(vs, edges, order, p, k);
      var m' := PathClimbs(vs, edges, order, c, m);
    }
  }

  /** Acyclicity is the existence of a topological order. */
  lemma AcyclicIffOrdered(vs: set<string>, edges: seq<DagEdge>)
    ensures Acyclic(vs, edges) <==>
        exists order :: TopologicalPrefix(vs, edges, order) && (forall v :: v in vs ==> v in order)
  {
    if Acyclic(vs, edges) {
      var order := GrowOrder(vs, edges, []);
    }
    if exists order :: TopologicalPrefix(vs, edges, order) && (forall v :: v in vs ==> v in order) {
      var order :| TopologicalPrefix(vs, edges, order) && (forall v :: v in vs ==> v in order);
      forall c ensures !Cycle(vs, edges, c) {
        if Cycle(vs, edges, c) {
          OnCycleIsAfterIt(vs, edges, c);
          OrderedIsNotAfterCycle(vs, edges, order, c[0]);
        }
      }
    }
  }

  lemma {:induction false} GrowOrder(vs: set<string>, edges: seq<DagEdge>, start: seq<string>)
    returns (order: seq<string>)
    requires Acyclic(vs, edges) && TopologicalPrefix(vs, edges, start)
    ensures TopologicalPrefix(vs, edges, order) && forall v :: v in vs ==> v in order
    decreases vs - Elements(start)
  {
    var done := Elements(start);
    assert forall v :: v in done <==> v in start;
    if vs <= done {
      order := start;
    } else {
      var w :| w in vs && w !in done;
      assert w in vs - done;
      var v := AcyclicHasSource(vs, edges, vs - done);
      var next := start + [v];
      assert forall x :: x in next <==> x in start || x == v;
      assert v !in done;
      forall k, u | 0 <= k < |next| && u in vs && HasEdge(edges, u, next[k]) ensures u in next[..k] {
        if k < |start| {
          assert next[k] == start[k] && next[..k] == start[..k];
        } else {
          assert next[..k] == start;
        }
      }
      order := GrowOrder(vs, edges, next);
    }
  }

  /** Fewer vertices and fewer edges keep acyclicity. */
  lemma AcyclicAntitone(vs: set<string>, edges: seq<DagEdge>, vs': set<string>, edges': seq<DagEdge>)
    requires Acyclic(vs, edges) && vs' <= vs
    requires forall u, v :: u in vs' && v in vs' && HasEdge(edges', u, v) ==> HasEdge(edges, u, v)
    ensures Acyclic(vs', edges')
  {
    forall c ensures !Cycle(vs', edges', c) {
      CycleOfMore(vs, edges, vs', edges', c);
      hide Cycle;
    }
  }

  lemma CycleOfMore(vs: set<string>, edges: seq<DagEdge>, vs': set<string>, edges': seq<DagEdge>, c: seq<string>)
    requires vs' <= vs
    requires forall u, v :: u in vs' && v in vs' && HasEdge(edges', u, v) ==> HasEdge(edges, u, v)
    ensures Cycle(vs', edges', c) ==> Cycle(vs, edges, c)
  {}

  /** Vertices that no edge of the enlarged graph enters cannot close a cycle. */
  lemma AcyclicWithSources(vs: set<string>, edges: seq<DagEdge>, extra: set<string>)
    requires Acyclic(vs, edges)
    requires forall u, x :: u in vs + extra && x in extra ==> !HasEdge(edges, u, x)
    ensures Acyclic(vs + extra, edges)
  {
    forall c ensures !Cycle(vs + extra, edges, c) {
      CycleAvoidsSources(vs, edges, extra, c);
      hide Cycle;
    }
  }

  lemma CycleAvoidsSources(vs: set<string>, edges: seq<DagEdge>, extra: set<string>, c: seq<string>)
    requires forall u, x :: u in vs + extra && x in extra ==> !HasEdge(edges, u, x)
    ensures Cycle(vs + extra, edges, c) ==> Cycle(vs, edges, c)
  {
    if Cycle(vs + extra, edges, c) {
      forall k | 0 <= k < |c| ensures c[k] in vs {
        var j := if k == 0 then |c| - 1 else k;
        assert HasEdge(edges, c[j - 1], c[j]);
      }
    }
  }

  // ---------- cycles edge by edge ----------

  /** Edges at these positions, each starting at an existing vertex where the one before it ends, the first one where
      the last one ends. */
  ghost predicate ClosedWalk(vs: set<string>, edges: seq<DagEdge>, ks: seq<nat>) {
    && ks != []
    && (forall j :: 0 <= j < |ks| ==> ks[j] < |edges| && edges[ks[j]].fromNode in vs)
    && (forall i, j :: 0 <= i < |ks| && 0 <= j < |ks| && j == (if i == |ks| - 1 then 0 else i + 1) ==>
          edges[ks[i]].toNode == edges[ks[j]].fromNode)
  }

  lemma WalkIsCycle(vs: set<string>, edges: seq<DagEdge>, ks: seq<nat>)
    requires ClosedWalk(vs, edges, ks)
    ensures !Acyclic(vs, edges)
  {
    var n := |ks|;
    var c := seq(n + 1, j requires 0 <= j < n + 1 => edges[ks[if j == n then 0 else j]].fromNode);
    forall j, k | 0 <= j < k < |c| && k == j + 1 ensures HasEdge(edges, c[j], c[k]) {
      assert edges[ks[j]].fromNode == c[j] && edges[ks[j]].toNode == c[k];
    }
    assert Cycle(vs, edges, c);
  }

  /** The positions of the edges of a path. */
  lemma {:induction false} PathEdges(vs: set<string>, edges: seq<DagEdge>, p: seq<string>) returns (ks: seq<nat>)
    requires Path(vs, edges, p)
    ensures |ks| == |p| - 1
    ensures forall j :: 0 <= j < |ks| ==> ks[j] < |edges| && edges[ks[j]].fromNode == p[j]
    ensures forall j :: 0 <= j < |ks| ==> edges[ks[j]].toNode == p[j + 1]
  {
    if |p| == 1 {
      ks := [];
    } else {
      var last := |p| - 1;
      assert Path(vs, edges, p[..last]);
      var before := PathEdges(vs, edges, p[..last]);
      assert HasEdge(edges, p[last - 1], p[last]);
      var k :| 0 <= k < |edges| && edges[k].fromNode == p[last - 1] && edges[k].toNode == p[last];
      ks := before + [k];
    }
  }

  /** No cycle means: no edges, of whatever type, lead from existing vertex to existing vertex back to the first. */
  lemma AcyclicInWords(vs: set<string>, edges: seq<DagEdge>)
    ensures Acyclic(vs, edges) <==> forall ks :: !ClosedWalk(vs, edges, ks)
  {
    if ks :| ClosedWalk(vs, edges, ks) {
      WalkIsCycle(vs, edges, ks);
    }
    if c :| Cycle(vs, edges, c) {
      var ks := PathEdges(vs, edges, c);
      assert ClosedWalk(vs, edges, ks);
    }
  }
}
