/** What the plan validator refuses, fault by fault, and that it refuses nothing else. */
module PlanFaults {
  import opened DagTypes
  import opened Graph
  import opened Validator
  import opened Text
  import opened Planning

  /** No name once trimmed, or the placeholder of the prompt. */
  predicate Nameless(id: string) {
    TrimSpace(id) == "" || TrimSpace(id) == "..."
  }

  ghost predicate BadDomain(plan: PlanResponse, excluded: string -> bool, i: nat)
    requires i < |plan.domains|
  {
    var d := plan.domains[i];
    || Nameless(d.domainID)
    || (exists j :: 0 <= j < i && TrimSpace(plan.domains[j].domainID) == TrimSpace(d.domainID))
    || (exists p :: p in d.assignedPaths && (excluded(p) || TrimSpace(p) == "."))
  }

  ghost predicate BadNode(plan: PlanResponse, excluded: string -> bool, i: nat)
    requires i < |plan.nodes|
  {
    var n := plan.nodes[i];
    || Nameless(n.id)
    || (exists j :: 0 <= j < i && TrimSpace(plan.nodes[j].id) == TrimSpace(n.id))
    || (forall j :: 0 <= j < |plan.domains| ==> TrimSpace(plan.domains[j].domainID) != TrimSpace(n.domainID))
    || (exists p :: p in n.targetFiles && excluded(p))
  }

  /** An empty endpoint, a loop, or an endpoint that is no node's trimmed name. */
  ghost predicate BadEdgeAt(plan: PlanResponse, k: nat)
    requires k < |plan.edges|
  {
    var e := plan.edges[k];
    || e.fromNode == "" || e.toNode == "" || e.fromNode == e.toNode
    || (forall i :: 0 <= i < |plan.nodes| ==> TrimSpace(plan.nodes[i].id) != e.fromNode)
    || (forall i :: 0 <= i < |plan.nodes| ==> TrimSpace(plan.nodes[i].id) != e.toNode)
  }

  /** Two nodes of different domains, as written, target one file. */
  ghost predicate SharedFile(plan: PlanResponse, i: nat, j: nat)
    requires i < |plan.nodes| && j < |plan.nodes|
  {
    && plan.nodes[i].domainID != plan.nodes[j].domainID
    && exists f :: f in plan.nodes[i].targetFiles && f in plan.nodes[j].targetFiles
  }

  lemma DomainsAreSound(plan: PlanResponse, excluded: string -> bool)
    ensures ValidDomains(plan.domains, excluded) <==>
      forall i :: 0 <= i < |plan.domains| ==> !BadDomain(plan, excluded, i)
  {
    hide TrimSpace;
    if ValidDomains(plan.domains, excluded) {
      forall i | 0 <= i < |plan.domains| ensures !BadDomain(plan, excluded, i) {
        assert UsableName(plan.domains[i].domainID);
      }
    }
    if forall i :: 0 <= i < |plan.domains| ==> !BadDomain(plan, excluded, i) {
      forall i | 0 <= i < |plan.domains| ensures UsableName(plan.domains[i].domainID) {
        assert !BadDomain(plan, excluded, i);
      }
      forall i, j | 0 <= i < j < |plan.domains|
        ensures TrimSpace(plan.domains[i].domainID) != TrimSpace(plan.domains[j].domainID)
      {
        assert !BadDomain(plan, excluded, j);
      }
      forall i, p | 0 <= i < |plan.domains| && p in plan.domains[i].assignedPaths
        ensures !excluded(p) && TrimSpace(p) != "."
      {
        assert !BadDomain(plan, excluded, i);
      }
    }
  }

  lemma NodesAreSound(plan: PlanResponse, excluded: string -> bool)
    ensures ValidNodes(plan.domains, plan.nodes, excluded) <==>
      forall i :: 0 <= i < |plan.nodes| ==> !BadNode(plan, excluded, i)
  {
    hide TrimSpace;
    if ValidNodes(plan.domains, plan.nodes, excluded) {
      forall i | 0 <= i < |plan.nodes| ensures !BadNode(plan, excluded, i) {
        assert UsableName(plan.nodes[i].id) && NamesDomain(plan.domains, plan.nodes[i].domainID);
      }
    }
    if forall i :: 0 <= i < |plan.nodes| ==> !BadNode(plan, excluded, i) {
      forall i | 0 <= i < |plan.nodes|
        ensures UsableName(plan.nodes[i].id) && NamesDomain(plan.domains, plan.nodes[i].domainID)
      {
        assert !BadNode(plan, excluded, i);
      }
      forall i, j | 0 <= i < j < |plan.nodes| ensures TrimSpace(plan.nodes[i].id) != TrimSpace(plan.nodes[j].id) {
        assert !BadNode(plan, excluded, j);
      }
      forall i, p | 0 <= i < |plan.nodes| && p in plan.nodes[i].targetFiles ensures !excluded(p) {
        assert !BadNode(plan, excluded, i);
      }
    }
  }

  ghost predicate GoodEdge(plan: PlanResponse, k: nat)
    requires k < |plan.edges|
  {
    var e := plan.edges[k];
    && e.fromNode != "" && e.toNode != "" && e.fromNode != e.toNode
    && NamesNode(plan.nodes, e.fromNode) && NamesNode(plan.nodes, e.toNode)
  }

  lemma EdgesAreSound(plan: PlanResponse)
    ensures ValidEdges(plan.nodes, plan.edges) <==> forall k :: 0 <= k < |plan.edges| ==> !BadEdgeAt(plan, k)
  {
    hide TrimSpace;
    forall k | 0 <= k < |plan.edges| ensures BadEdgeAt(plan, k) <==> !GoodEdge(plan, k) {}
    if forall k :: 0 <= k < |plan.edges| ==> GoodEdge(plan, k) {
      forall k | 0 <= k < |plan.edges|
        ensures plan.edges[k].fromNode != "" && plan.edges[k].toNode != ""
        ensures plan.edges[k].fromNode != plan.edges[k].toNode
        ensures NamesNode(plan.nodes, plan.edges[k].fromNode) && NamesNode(plan.nodes, plan.edges[k].toNode)
      {
        assert GoodEdge(plan, k);
      }
    }
    hide GoodEdge, BadEdgeAt;
  }

  lemma OwnersAreSound(plan: PlanResponse)
    ensures OneOwnerPerFile(PlannedNodes(plan)) <==>
      forall i, j :: 0 <= i < |plan.nodes| && 0 <= j < |plan.nodes| ==> !SharedFile(plan, i, j)
  {
    var nodes := PlannedNodes(plan);
    assert forall i :: 0 <= i < |nodes| ==>
      nodes[i].domainID == plan.nodes[i].domainID && nodes[i].targetFiles == plan.nodes[i].targetFiles;
    hide PlannedNodes;
    if forall i, j :: 0 <= i < |plan.nodes| && 0 <= j < |plan.nodes| ==> !SharedFile(plan, i, j) {
      forall i, j, f | 0 <= i < |nodes| && 0 <= j < |nodes| && f in nodes[i].targetFiles && f in nodes[j].targetFiles
        ensures nodes[i].domainID == nodes[j].domainID
      {
        assert !SharedFile(plan, i, j);
      }
    }
  }

  /** A plan is valid exactly when it has domains and nodes, no domain, node or edge of it is faulty, its edges between
      nodes as written form no cycle, and no file is shared between domains. */
  lemma ValidPlanCriterion(plan: PlanResponse, excluded: string -> bool)
    ensures ValidPlan(plan, excluded) <==>
      && |plan.domains| > 0 && |plan.nodes| > 0
      && (forall i :: 0 <= i < |plan.domains| ==> !BadDomain(plan, excluded, i))
      && (forall i :: 0 <= i < |plan.nodes| ==> !BadNode(plan, excluded, i))
      && (forall k :: 0 <= k < |plan.edges| ==> !BadEdgeAt(plan, k))
      && Acyclic(Ids(PlannedNodes(plan)), PlannedEdges(plan))
      && (forall i, j :: 0 <= i < |plan.nodes| && 0 <= j < |plan.nodes| ==> !SharedFile(plan, i, j))
  {
    DomainsAreSound(plan, excluded);
    NodesAreSound(plan, excluded);
    EdgesAreSound(plan);
    OwnersAreSound(plan);
    hide ValidDomains, ValidNodes, ValidEdges, OneOwnerPerFile, Acyclic, BadDomain, BadNode, BadEdgeAt, SharedFile;
  }
}
