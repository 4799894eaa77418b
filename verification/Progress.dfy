/** Build progress: every node of the snapshot is counted under exactly one milestone. */
module Progress {
  import opened DagTypes
  import opened Text
  import opened Scheduling

  datatype Milestone = Milestone(id: string, nodeIDs: seq<string>)

  datatype Source = Coordinator | Fallback

  datatype Seed = Seed(id: string, nodeIDs: seq<string>, source: Source)

  // ---------- counting occurrences ----------

  /** How many of the names, counted with repetition, are in p. */
  function Hits(names: seq<string>, p: set<string>): nat {
    if names == [] then 0 else Hits(names[..|names| - 1], p) + if names[|names| - 1] in p then 1 else 0
  }

  function HitsIn(seeds: seq<Seed>, p: set<string>): nat {
    if seeds == [] then 0 else HitsIn(seeds[..|seeds| - 1], p) + Hits(seeds[|seeds| - 1].nodeIDs, p)
  }

  function HitsOver(keys: seq<string>, m: map<string, Seed>, p: set<string>): nat
    requires forall k :: 0 <= k < |keys| ==> keys[k] in m
  {
    if keys == [] then 0 else HitsOver(keys[..|keys| - 1], m, p) + Hits(m[keys[|keys| - 1]].nodeIDs, p)
  }

  function Names(nodes: seq<DagNode>): (r: seq<string>)
    ensures |r| == |nodes| && forall i :: 0 <= i < |r| ==> r[i] == nodes[i].id
  {
    seq(|nodes|, i requires 0 <= i < |nodes| => nodes[i].id)
  }

  lemma HitsSnoc(names: seq<string>, x: string, p: set<string>)
    ensures Hits(names + [x], p) == Hits(names, p) + if x in p then 1 else 0
  {
    assert (names + [x])[..|names|] == names;
  }

  lemma HitsInSnoc(seeds: seq<Seed>, s: Seed, p: set<string>)
    ensures HitsIn(seeds + [s], p) == HitsIn(seeds, p) + Hits(s.nodeIDs, p)
  {
    assert (seeds + [s])[..|seeds|] == seeds;
  }

  lemma {:induction false} HitsInConcat(a: seq<Seed>, b: seq<Seed>, p: set<string>)
    ensures HitsIn(a + b, p) == HitsIn(a, p) + HitsIn(b, p)
  {
    if b == [] {
      assert a + b == a;
    } else {
      HitsInConcat(a, b[..|b| - 1], p);
      assert (a + b)[..|a + b| - 1] == a + b[..|b| - 1];
    }
  }

  lemma HitsOverSnoc(keys: seq<string>, key: string, m: map<string, Seed>, p: set<string>)
    requires (forall k :: 0 <= k < |keys| ==> keys[k] in m) && key in m
    ensures HitsOver(keys + [key], m, p) == HitsOver(keys, m, p) + Hits(m[key].nodeIDs, p)
  {
    assert (keys + [key])[..|keys|] == keys;
  }

  lemma {:induction false} HitsOverConcat(a: seq<string>, b: seq<string>, m: map<string, Seed>, p: set<string>)
    requires (forall k :: 0 <= k < |a| ==> a[k] in m) && (forall k :: 0 <= k < |b| ==> b[k] in m)
    ensures HitsOver(a + b, m, p) == HitsOver(a, m, p) + HitsOver(b, m, p)
  {
    if b == [] {
      assert a + b == a;
    } else {
      HitsOverConcat(a, b[..|b| - 1], m, p);
      assert (a + b)[..|a + b| - 1] == a + b[..|b| - 1];
    }
  }

  lemma {:induction false} HitsOverUnchanged(keys: seq<string>, m: map<string, Seed>, n: map<string, Seed>,
                                             p: set<string>)
    requires forall k :: 0 <= k < |keys| ==> keys[k] in m && keys[k] in n && m[keys[k]] == n[keys[k]]
    ensures HitsOver(keys, m, p) == HitsOver(keys, n, p)
  {
    if keys != [] {
      HitsOverUnchanged(keys[..|keys| - 1], m, n, p);
    }
  }

  ghost predicate Distinct(keys: seq<string>) {
    forall i, j :: 0 <= i < j < |keys| ==> keys[i] != keys[j]
  }

  /** Appending one name to one seed of the map adds that name. */
  lemma {:induction false} HitsOverAdds(keys: seq<string>, m: map<string, Seed>, key: string, s: Seed, name: string,
                                        p: set<string>)
    requires Distinct(keys) && key in keys && (forall k :: 0 <= k < |keys| ==> keys[k] in m)
    requires s.nodeIDs == m[key].nodeIDs + [name]
    ensures HitsOver(keys, m[key := s], p) == HitsOver(keys, m, p) + if name in p then 1 else 0
  {
    var last := |keys| - 1;
    var init := keys[..last];
    if keys[last] == key {
      HitsOverUnchanged(init, m, m[key := s], p);
      HitsSnoc(m[key].nodeIDs, name, p);
    } else {
      HitsOverAdds(init, m, key, s, name, p);
    }
  }

  function Overlap(k: set<string>, p: set<string>): nat {
    |k * p|
  }

  lemma OverlapPlus(k: set<string>, x: string, p: set<string>)
    requires x !in k
    ensures Overlap(k + {x}, p) == Overlap(k, p) + if x in p then 1 else 0
  {
    if x in p {
      assert (k + {x}) * p == k * p + {x};
    } else {
      assert (k + {x}) * p == k * p;
    }
  }

  // ---------- the coordinator's milestones ----------

  ghost predicate ListedAmong(listed: seq<string>, n: nat, id: string)
    requires n <= |listed|
  {
    exists j :: 0 <= j < n && TrimSpace(listed[j]) == id
  }

  /** A named milestone lists the node. */
  ghost predicate Lists(m: Milestone, id: string) {
    TrimSpace(m.id) != "" && ListedAmong(m.nodeIDs, |m.nodeIDs|, id)
  }

  ghost predicate ListedBy(milestones: seq<Milestone>, n: nat, id: string)
    requires n <= |milestones|
  {
    exists k :: 0 <= k < n && Lists(milestones[k], id)
  }

  /** The first named milestone to list x carries this name. */
  ghost predicate FirstClaim(milestones: seq<Milestone>, n: nat, x: string, id: string)
    requires n <= |milestones|
  {
    exists k :: 0 <= k < n && Lists(milestones[k], x) && !ListedBy(milestones, k, x)
        && TrimSpace(milestones[k].id) == id
  }

  /** Claimed are exactly the known names some of the first n milestones list, each by the first to do so. */
  ghost predicate ClaimsMatch(milestones: seq<Milestone>, n: nat, valid: set<string>, claims: map<string, string>)
    requires n <= |milestones|
  {
    && (forall x :: x in claims <==> x in valid && ListedBy(milestones, n, x))
    && (forall x :: x in claims ==> FirstClaim(milestones, n, x, claims[x]))
  }

  /** The seeds hold exactly the claimed names, once each and under the milestone that claimed them. */
  ghost predicate SeedsMatch(seeds: seq<Seed>, claims: map<string, string>) {
    && (forall p :: HitsIn(seeds, p) == Overlap(claims.Keys, p))
    && (forall i, x :: 0 <= i < |seeds| && x in seeds[i].nodeIDs ==> x in claims && claims[x] == seeds[i].id)
  }

  /** Known nodes only, each under the first milestone that lists it. */
  method CoordinatorSeeds(milestones: seq<Milestone>, valid: set<string>)
    returns (seeds: seq<Seed>, claims: map<string, string>)
    ensures SeedsMatch(seeds, claims)
    ensures ClaimsMatch(milestones, |milestones|, valid, claims)
    ensures forall s :: s in seeds ==> s.source == Coordinator
  {
    hide TrimSpace, Lists, FirstClaim;
    seeds, claims := [], map[];
    for k := 0 to |milestones|
      invariant SeedsMatch(seeds, claims)
      invariant ClaimsMatch(milestones, k, valid, claims)
      invariant forall s :: s in seeds ==> s.source == Coordinator
    {
      hide SeedsMatch, ClaimsMatch, Extends, ListedAmong;
      var id := TrimSpace(milestones[k].id);
      if id == "" {
        NamelessClaimsNothing(milestones, k, valid, claims);
        continue;
      }
      var nodeIDs, more := ClaimNodes(id, milestones[k].nodeIDs, valid, claims);
      NamedClaims(milestones, k, valid, claims, Seed(id, nodeIDs, Coordinator), more);
      SeedAdded(seeds, claims, Seed(id, nodeIDs, Coordinator), more);
      claims := more;
      if |nodeIDs| > 0 {
        seeds := seeds + [Seed(id, nodeIDs, Coordinator)];
      }
    }
  }

  lemma NamelessListsNothing(m: Milestone)
    requires TrimSpace(m.id) == ""
    ensures forall x :: !Lists(m, x)
  {}

  lemma NamedLists(m: Milestone)
    requires TrimSpace(m.id) != ""
    ensures forall x :: Lists(m, x) <==> ListedAmong(m.nodeIDs, |m.nodeIDs|, x)
  {}

  lemma ListedSnoc(milestones: seq<Milestone>, k: nat)
    requires k < |milestones|
    ensures forall x :: ListedBy(milestones, k + 1, x) <==> ListedBy(milestones, k, x) || Lists(milestones[k], x)
  {
    hide Lists;
  }

  lemma FirstClaimSnoc(milestones: seq<Milestone>, k: nat)
    requires k < |milestones|
    ensures forall x, id :: FirstClaim(milestones, k, x, id) ==> FirstClaim(milestones, k + 1, x, id)
    ensures forall x :: (Lists(milestones[k], x) && !ListedBy(milestones, k, x)) ==>
        FirstClaim(milestones, k + 1, x, TrimSpace(milestones[k].id))
  {
    hide Lists, ListedBy, TrimSpace;
  }

  lemma NamelessClaimsNothing(milestones: seq<Milestone>, k: nat, valid: set<string>, claims: map<string, string>)
    requires k < |milestones| && TrimSpace(milestones[k].id) == "" && ClaimsMatch(milestones, k, valid, claims)
    ensures ClaimsMatch(milestones, k + 1, valid, claims)
  {
    NamelessListsNothing(milestones[k]);
    ListedSnoc(milestones, k);
    FirstClaimSnoc(milestones, k);
    hide Lists, ListedBy, TrimSpace, FirstClaim;
  }

  lemma NamedClaims(milestones: seq<Milestone>, k: nat, valid: set<string>, claims: map<string, string>, s: Seed,
                    more: map<string, string>)
    requires k < |milestones| && s.id == TrimSpace(milestones[k].id) != "" && ClaimsMatch(milestones, k, valid, claims)
    requires Extends(claims, s, more)
    requires forall x :: x in more <==>
        x in claims || (x in valid && ListedAmong(milestones[k].nodeIDs, |milestones[k].nodeIDs|, x))
    ensures ClaimsMatch(milestones, k + 1, valid, more)
  {
    forall x ensures x in more <==> x in valid && ListedBy(milestones, k + 1, x) {
      NamedLists(milestones[k]);
      ListedSnoc(milestones, k);
      hide *;
    }
    forall x | x in more ensures FirstClaim(milestones, k + 1, x, more[x]) {
      NewClaim(milestones, k, valid, claims, s, more, x);
    }
  }

  lemma NewClaim(milestones: seq<Milestone>, k: nat, valid: set<string>, claims: map<string, string>, s: Seed,
                 more: map<string, string>, x: string)
    requires k < |milestones| && s.id == TrimSpace(milestones[k].id) != "" && ClaimsMatch(milestones, k, valid, claims)
    requires Extends(claims, s, more) && x in more
    requires x in more <==>
        x in claims || (x in valid && ListedAmong(milestones[k].nodeIDs, |milestones[k].nodeIDs|, x))
    ensures FirstClaim(milestones, k + 1, x, more[x])
  {
    hide ListedBy, TrimSpace, FirstClaim, ListedAmong, Overlap, Hits;
    FirstClaimSnoc(milestones, k);
  }

  /** The new claims are those of one seed more. */
  ghost predicate Extends(claims: map<string, string>, s: Seed, more: map<string, string>) {
    && (forall p :: Overlap(more.Keys, p) == Overlap(claims.Keys, p) + Hits(s.nodeIDs, p))
    && (forall x :: x in claims ==> x in more && more[x] == claims[x])
    && (forall x :: x in s.nodeIDs ==> x in more && more[x] == s.id)
    && (forall x :: x in more ==> x in claims || more[x] == s.id)
  }

  lemma NoHits()
    ensures forall p :: Hits([], p) == 0
  {}

  lemma SeedAdded(seeds: seq<Seed>, claims: map<string, string>, s: Seed, more: map<string, string>)
    requires SeedsMatch(seeds, claims) && Extends(claims, s, more)
    ensures SeedsMatch(if s.nodeIDs == [] then seeds else seeds + [s], more)
  {
    hide Overlap, Hits;
    assert forall p :: Hits([], p) == 0 by {
      NoHits();
    }
    forall p ensures HitsIn(if s.nodeIDs == [] then seeds else seeds + [s], p) == Overlap(more.Keys, p) {
      HitsInSnoc(seeds, s, p);
    }
  }

  /** Claims, for one milestone, the known nodes it lists that no earlier one has. */
  method ClaimNodes(id: string, listed: seq<string>, valid: set<string>, claims0: map<string, string>)
    returns (nodeIDs: seq<string>, claims: map<string, string>)
    ensures Extends(claims0, Seed(id, nodeIDs, Coordinator), claims)
    ensures forall x :: x in claims <==> x in claims0 || (x in valid && ListedAmong(listed, |listed|, x))
  {
    hide TrimSpace, Overlap;
    nodeIDs, claims := [], claims0;
    assert Extends(claims0, Seed(id, nodeIDs, Coordinator), claims);
    for j := 0 to |listed|
      invariant Extends(claims0, Seed(id, nodeIDs, Coordinator), claims)
      invariant forall x :: x in claims <==> x in claims0 || (x in valid && ListedAmong(listed, j, x))
    {
      hide Extends, ListedAmong;
      var nodeID := TrimSpace(listed[j]);
      AmongSnoc(listed, j);
      if nodeID !in valid || nodeID in claims {
        continue;
      }
      NameClaimed(claims0, Seed(id, nodeIDs, Coordinator), claims, nodeID);
      claims := claims[nodeID := id];
      nodeIDs := nodeIDs + [nodeID];
    }
  }

  lemma AmongSnoc(listed: seq<string>, j: nat)
    requires j < |listed|
    ensures forall x :: ListedAmong(listed, j + 1, x) <==> ListedAmong(listed, j, x) || x == TrimSpace(listed[j])
  {
    hide TrimSpace;
    forall x ensures ListedAmong(listed, j + 1, x) <==> ListedAmong(listed, j, x) || x == TrimSpace(listed[j]) {
      if ListedAmong(listed, j + 1, x) {
        var k :| 0 <= k < j + 1 && TrimSpace(listed[k]) == x;
      }
    }
  }

  lemma NameClaimed(claims0: map<string, string>, s: Seed, claims: map<string, string>, x: string)
    requires Extends(claims0, s, claims) && x !in claims
    ensures Extends(claims0, s.(nodeIDs := s.nodeIDs + [x]), claims[x := s.id])
  {
    hide Overlap, Hits;
    var more := claims[x := s.id];
    assert more.Keys == claims.Keys + {x};
    forall p ensures Overlap(more.Keys, p) == Overlap(claims0.Keys, p) + Hits(s.nodeIDs + [x], p) {
      OverlapPlus(claims.Keys, x, p);
      HitsSnoc(s.nodeIDs, x, p);
    }
  }

  // ---------- the fallback milestones ----------

  function Unclaimed(nodes: seq<DagNode>, claimed: set<string>): seq<string> {
    if nodes == [] then []
    else
      var n := nodes[|nodes| - 1];
      Unclaimed(nodes[..|nodes| - 1], claimed) + if n.id in claimed then [] else [n.id]
  }

  /** The map's seeds hold exactly these names; order lists its keys once each. */
  ghost predicate MapMatches(order: seq<string>, m: map<string, Seed>, names: seq<string>) {
    && Distinct(order) && (forall k :: k in order <==> k in m)
    && (forall p :: HitsOver(order, m, p) == Hits(names, p))
  }

  lemma ClassAdded(order: seq<string>, m: map<string, Seed>, names: seq<string>, key: string)
    requires MapMatches(order, m, names) && key !in m
    ensures MapMatches(order + [key], m[key := Seed(key, [], Fallback)], names)
  {
    var m' := m[key := Seed(key, [], Fallback)];
    forall p ensures HitsOver(order + [key], m', p) == Hits(names, p) {
      HitsOverUnchanged(order, m, m', p);
      HitsOverSnoc(order, key, m', p);
    }
  }

  lemma NodeClassed(order: seq<string>, m: map<string, Seed>, names: seq<string>, key: string, name: string)
    requires MapMatches(order, m, names) && key in m
    ensures MapMatches(order, m[key := m[key].(nodeIDs := m[key].nodeIDs + [name])], names + [name])
  {
    var s := m[key].(nodeIDs := m[key].nodeIDs + [name]);
    forall p ensures HitsOver(order, m[key := s], p) == Hits(names + [name], p) {
      HitsOverAdds(order, m, key, s, name, p);
      HitsSnoc(names, name, p);
    }
  }

  /** A node of this name falls into the class. */
  ghost predicate InClass(nodes: seq<DagNode>, x: string, key: string, classify: DagNode -> string) {
    exists i :: 0 <= i < |nodes| && nodes[i].id == x && classify(nodes[i]) == key
  }

  /** The seed of one class holds unclaimed nodes of that class only. */
  ghost predicate ClassSeed(s: Seed, key: string, nodes: seq<DagNode>, claims: map<string, string>,
                            classify: DagNode -> string) {
    && s.id == key && s.source == Fallback
    && (forall x :: x in s.nodeIDs ==> x in Ids(nodes) && x !in claims && InClass(nodes, x, key, classify))
  }

  ghost predicate AllClassed(m: map<string, Seed>, nodes: seq<DagNode>, claims: map<string, string>,
                             classify: DagNode -> string) {
    forall key :: key in m ==> ClassSeed(m[key], key, nodes, claims, classify)
  }

  lemma ClassOpened(m: map<string, Seed>, key: string, nodes: seq<DagNode>, claims: map<string, string>,
                    classify: DagNode -> string)
    requires AllClassed(m, nodes, claims, classify)
    ensures AllClassed(m[key := Seed(key, [], Fallback)], nodes, claims, classify)
  {}

  lemma ClassExtended(m: map<string, Seed>, i: nat, nodes: seq<DagNode>, claims: map<string, string>,
                      classify: DagNode -> string)
    requires AllClassed(m, nodes, claims, classify) && i < |nodes| && classify(nodes[i]) in m && nodes[i].id !in claims
    ensures var s := m[classify(nodes[i])];
      AllClassed(m[s.id := s.(nodeIDs := s.nodeIDs + [nodes[i].id])], nodes, claims, classify)
    ensures m[classify(nodes[i])].id == classify(nodes[i])
  {
    assert InClass(nodes, nodes[i].id, classify(nodes[i]), classify);
    assert nodes[i].id in Ids(nodes);
    hide InClass, Ids;
  }

  /** One seed per class, holding the nodes nobody claimed; order lists the classes as they appear. */
  method FallbackSeeds(nodes: seq<DagNode>, claims: map<string, string>, classify: DagNode -> string)
    returns (fallbacks: map<string, Seed>, order: seq<string>)
    ensures MapMatches(order, fallbacks, Unclaimed(nodes, claims.Keys))
    ensures AllClassed(fallbacks, nodes, claims, classify)
  {
    fallbacks, order := map[], [];
    for i := 0 to |nodes|
      invariant MapMatches(order, fallbacks, Unclaimed(nodes[..i], claims.Keys))
      invariant AllClassed(fallbacks, nodes, claims, classify)
    {
      hide MapMatches, AllClassed;
      var node := nodes[i];
      assert nodes[..i + 1][..i] == nodes[..i];
      if node.id in claims {
        assert Unclaimed(nodes[..i + 1], claims.Keys) == Unclaimed(nodes[..i], claims.Keys);
        continue;
      }
      assert Unclaimed(nodes[..i + 1], claims.Keys) == Unclaimed(nodes[..i], claims.Keys) + [node.id];
      var id := classify(node);
      if id !in fallbacks {
        ClassAdded(order, fallbacks, Unclaimed(nodes[..i], claims.Keys), id);
        ClassOpened(fallbacks, id, nodes, claims, classify);
        fallbacks := fallbacks[id := Seed(id, [], Fallback)];
        order := order + [id];
      }
      NodeClassed(order, fallbacks, Unclaimed(nodes[..i], claims.Keys), id, node.id);
      ClassExtended(fallbacks, i, nodes, claims, classify);
      fallbacks := fallbacks[id := fallbacks[id].(nodeIDs := fallbacks[id].nodeIDs + [node.id])];
    }
    assert nodes[..|nodes|] == nodes;
  }

  lemma OverlapNothing(k: set<string>, p: set<string>)
    requires k == {}
    ensures Overlap(k, p) == 0
  {
    assert k * p == {};
  }

  function ClaimedIds(nodes: seq<DagNode>, claimed: set<string>): set<string> {
    claimed * Ids(nodes)
  }

  lemma ClaimedIdsSplit(nodes: seq<DagNode>, claimed: set<string>)
    requires UniqueIds(nodes) && nodes != []
    ensures var last := |nodes| - 1; var init, id := nodes[..last], nodes[last].id;
      && id !in ClaimedIds(init, claimed)
      && ClaimedIds(nodes, claimed) == ClaimedIds(init, claimed) + if id in claimed then {id} else {}
  {
    IdsSplit(nodes);
    hide Ids, UniqueIds;
  }

  lemma NamesSplit(nodes: seq<DagNode>, p: set<string>)
    requires nodes != []
    ensures var last := |nodes| - 1;
      Hits(Names(nodes), p) == Hits(Names(nodes[..last]), p) + if nodes[last].id in p then 1 else 0
  {
    var last := |nodes| - 1;
    assert Names(nodes) == Names(nodes[..last]) + [nodes[last].id];
    HitsSnoc(Names(nodes[..last]), nodes[last].id, p);
  }

  lemma UnclaimedSplit(nodes: seq<DagNode>, claimed: set<string>, p: set<string>)
    requires nodes != []
    ensures var last := |nodes| - 1; var id := nodes[last].id;
      Hits(Unclaimed(nodes, claimed), p) == Hits(Unclaimed(nodes[..last], claimed), p) + if id !in claimed && id in p
          then 1 else 0
  {
    var last := |nodes| - 1;
    var before := Unclaimed(nodes[..last], claimed);
    HitsSnoc(before, nodes[last].id, p);
    assert before + [] == before;
  }

  /** Claimed and unclaimed names together are the names. */
  lemma {:induction false} ClaimedAndUnclaimed(nodes: seq<DagNode>, claimed: set<string>, p: set<string>)
    requires UniqueIds(nodes)
    ensures Hits(Names(nodes), p) == Hits(Unclaimed(nodes, claimed), p) + Overlap(ClaimedIds(nodes, claimed), p)
  {
    if nodes == [] {
      OverlapNothing(ClaimedIds(nodes, claimed), p);
    } else {
      hide Overlap, Hits, Names, Unclaimed, ClaimedIds;
      var last := |nodes| - 1;
      ClaimedAndUnclaimed(nodes[..last], claimed, p);
      NamesSplit(nodes, p);
      UnclaimedSplit(nodes, claimed, p);
      ClaimedIdsSplit(nodes, claimed);
      if nodes[last].id in claimed {
        OverlapPlus(ClaimedIds(nodes[..last], claimed), nodes[last].id, p);
      } else {
        assert ClaimedIds(nodes[..last], claimed) + {} == ClaimedIds(nodes[..last], claimed);
      }
    }
  }

  lemma IdsSplit(nodes: seq<DagNode>)
    requires UniqueIds(nodes) && nodes != []
    ensures var last := |nodes| - 1;
      Ids(nodes) == Ids(nodes[..last]) + {nodes[last].id} && nodes[last].id !in Ids(nodes[..last])
  {
    var init := nodes[..|nodes| - 1];
    assert forall i :: 0 <= i < |init| ==> init[i].id == nodes[i].id;
  }

  // ---------- putting the seeds together ----------

  ghost predicate Asymmetric(less: (string, string) -> bool) {
    forall a, b :: less(a, b) ==> !less(b, a)
  }

  ghost predicate Ascending(seeds: seq<Seed>, less: (string, string) -> bool) {
    forall i, j :: 0 <= i && j == i + 1 && j < |seeds| ==> !less(seeds[j].id, seeds[i].id)
  }

  /** The same seeds, holding the same names. */
  ghost predicate SameSeeds(r: seq<Seed>, seeds: seq<Seed>) {
    && |r| == |seeds|
    && (forall p :: HitsIn(r, p) == HitsIn(seeds, p))
    && (forall s :: s in r <==> s in seeds)
  }

  /** Stable insertion sort by name; less is the byte order of the source's strings. */
  method SortSeeds(seeds: seq<Seed>, less: (string, string) -> bool) returns (r: seq<Seed>)
    ensures SameSeeds(r, seeds)
    ensures Asymmetric(less) ==> Ascending(r, less)
  {
    r := [];
    for i := 0 to |seeds|
      invariant SameSeeds(r, seeds[..i])
      invariant Asymmetric(less) ==> Ascending(r, less)
    {
      hide HitsIn, SameSeeds, Ascending, Asymmetric;
      var k := |r|;
      while k > 0 && less(seeds[i].id, r[k - 1].id)
        invariant 0 <= k <= |r| && (k < |r| ==> less(seeds[i].id, r[k].id))
      {
        k := k - 1;
      }
      SeedInserted(r, k, seeds, i);
      if Asymmetric(less) {
        StillAscending(r, k, seeds[i], less);
      }
      r := r[..k] + [seeds[i]] + r[k..];
    }
    assert seeds[..|seeds|] == seeds;
  }

  lemma StillAscending(r: seq<Seed>, k: nat, s: Seed, less: (string, string) -> bool)
    requires k <= |r| && Asymmetric(less) && Ascending(r, less)
    requires (k < |r| ==> less(s.id, r[k].id)) && (0 < k ==> !less(s.id, r[k - 1].id))
    ensures Ascending(r[..k] + [s] + r[k..], less)
  {}

  lemma SeedInserted(r: seq<Seed>, k: nat, seeds: seq<Seed>, i: nat)
    requires k <= |r| && i < |seeds| && SameSeeds(r, seeds[..i])
    ensures SameSeeds(r[..k] + [seeds[i]] + r[k..], seeds[..i + 1])
  {
    assert r == r[..k] + r[k..] && seeds[..i + 1] == seeds[..i] + [seeds[i]];
    forall p ensures HitsIn(r[..k] + [seeds[i]] + r[k..], p) == HitsIn(seeds[..i + 1], p) {
      HitsInSnoc(seeds[..i], seeds[i], p);
      HitsInSnoc(r[..k], seeds[i], p);
      HitsInConcat(r[..k], r[k..], p);
      HitsInConcat(r[..k] + [seeds[i]], r[k..], p);
    }
  }

  /** Sorts the class names; what the map holds under them stays the same. */
  method SortKeys(keys: seq<string>, ghost m: map<string, Seed>, less: (string, string) -> bool)
    returns (r: seq<string>)
    requires forall k :: 0 <= k < |keys| ==> keys[k] in m
    ensures forall k :: 0 <= k < |r| ==> r[k] in m
    ensures forall p :: HitsOver(r, m, p) == HitsOver(keys, m, p)
    ensures |r| == |keys|
  {
    r := [];
    for i := 0 to |keys|
      invariant |r| == i && forall k :: 0 <= k < |r| ==> r[k] in m
      invariant forall p :: HitsOver(r, m, p) == HitsOver(keys[..i], m, p)
    {
      var k := |r|;
      while k > 0 && less(keys[i], r[k - 1])
        invariant 0 <= k <= |r|
      {
        k := k - 1;
      }
      KeyInserted(r, k, keys, i, m);
      r := r[..k] + [keys[i]] + r[k..];
    }
    assert keys[..|keys|] == keys;
  }

  lemma KeyInserted(r: seq<string>, k: nat, keys: seq<string>, i: nat, m: map<string, Seed>)
    requires k <= |r| && i < |keys|
    requires (forall j :: 0 <= j < |r| ==> r[j] in m) && (forall j :: 0 <= j < |keys| ==> keys[j] in m)
    requires forall p :: HitsOver(r, m, p) == HitsOver(keys[..i], m, p)
    ensures forall p :: HitsOver(r[..k] + [keys[i]] + r[k..], m, p) == HitsOver(keys[..i + 1], m, p)
  {
    forall p ensures HitsOver(r[..k] + [keys[i]] + r[k..], m, p) == HitsOver(keys[..i + 1], m, p) {
      assert r == r[..k] + r[k..] && keys[..i + 1] == keys[..i] + [keys[i]];
      HitsOverSnoc(keys[..i], keys[i], m, p);
      HitsOverSnoc(r[..k], keys[i], m, p);
      HitsOverConcat(r[..k], r[k..], m, p);
      HitsOverConcat(r[..k] + [keys[i]], r[k..], m, p);
    }
  }

  /** The seeds hold every node name exactly as often as the snapshot does. */
  ghost predicate Partitions(seeds: seq<Seed>, nodes: seq<DagNode>) {
    forall p :: HitsIn(seeds, p) == Hits(Names(nodes), p)
  }

  /** Appends the map's seeds in the order of the keys. */
  method AppendSeeds(seeds: seq<Seed>, keys: seq<string>, m: map<string, Seed>) returns (r: seq<Seed>)
    requires forall k :: 0 <= k < |keys| ==> keys[k] in m
    ensures forall p :: HitsIn(r, p) == HitsIn(seeds, p) + HitsOver(keys, m, p)
    ensures forall s :: s in r ==> s in seeds || exists key :: key in m && s == m[key]
  {
    r := seeds;
    for k := 0 to |keys|
      invariant forall s :: s in r ==> s in seeds || exists key :: key in m && s == m[key]
      invariant forall p :: HitsIn(r, p) == HitsIn(seeds, p) + HitsOver(keys[..k], m, p)
    {
      ghost var before := r;
      r := r + [m[keys[k]]];
      forall p ensures HitsIn(r, p) == HitsIn(seeds, p) + HitsOver(keys[..k + 1], m, p) {
        assert keys[..k + 1] == keys[..k] + [keys[k]];
        HitsOverSnoc(keys[..k], keys[k], m, p);
        HitsInSnoc(before, m[keys[k]], p);
      }
    }
    assert keys[..|keys|] == keys;
  }

  ghost predicate FirstListed(s: Seed, milestones: seq<Milestone>) {
    forall x :: x in s.nodeIDs ==> FirstClaim(milestones, |milestones|, x, s.id)
  }

  ghost predicate LeftToClass(s: Seed, milestones: seq<Milestone>, nodes: seq<DagNode>, classify: DagNode -> string) {
    forall x :: x in s.nodeIDs ==> !ListedBy(milestones, |milestones|, x) && InClass(nodes, x, s.id, classify)
  }

  /** Under a coordinator seed stand nodes that milestone was the first to list; under a class seed, nodes of the
      class that no milestone lists. */
  ghost predicate Placed(s: Seed, milestones: seq<Milestone>, nodes: seq<DagNode>, classify: DagNode -> string) {
    if s.source.Coordinator? then FirstListed(s, milestones) else LeftToClass(s, milestones, nodes, classify)
  }

  lemma ClaimedArePlaced(seeds: seq<Seed>, s: Seed, claims: map<string, string>, milestones: seq<Milestone>,
                         nodes: seq<DagNode>, classify: DagNode -> string)
    requires s in seeds && s.source == Coordinator
    requires SeedsMatch(seeds, claims) && ClaimsMatch(milestones, |milestones|, Ids(nodes), claims)
    ensures Placed(s, milestones, nodes, classify)
  {
    hide HitsIn, Overlap, ListedBy, FirstClaim;
    var i :| 0 <= i < |seeds| && seeds[i] == s;
    assert forall x :: x in seeds[i].nodeIDs ==> x in claims;
  }

  lemma ClassIsPlaced(s: Seed, key: string, claims: map<string, string>, milestones: seq<Milestone>,
                      nodes: seq<DagNode>, classify: DagNode -> string)
    requires ClassSeed(s, key, nodes, claims, classify) && ClaimsMatch(milestones, |milestones|, Ids(nodes), claims)
    ensures Placed(s, milestones, nodes, classify)
  {
    hide FirstClaim, ListedBy, InClass, Ids;
  }

  /** The node names that some named milestone lists. */
  ghost function ListedIds(milestones: seq<Milestone>, nodes: seq<DagNode>): set<string> {
    set x | x in Ids(nodes) && ListedBy(milestones, |milestones|, x)
  }

  /** The seeds hold every listed name once and every other name as often as the snapshot does. */
  ghost predicate Accounts(seeds: seq<Seed>, nodes: seq<DagNode>, listed: set<string>) {
    forall p :: HitsIn(seeds, p) == Overlap(listed, p) + Hits(Unclaimed(nodes, listed), p)
  }

  /** With unique names that is a partition of the snapshot's nodes. */
  lemma AccountsPartition(seeds: seq<Seed>, nodes: seq<DagNode>, listed: set<string>)
    requires UniqueIds(nodes) && listed <= Ids(nodes) && Accounts(seeds, nodes, listed)
    ensures Partitions(seeds, nodes)
  {
    hide Hits, HitsIn, Unclaimed, Overlap;
    assert ClaimedIds(nodes, listed) == listed;
    forall p ensures HitsIn(seeds, p) == Hits(Names(nodes), p) {
      ClaimedAndUnclaimed(nodes, listed, p);
    }
  }

  /** Whatever the milestones list, overlapping, repeated or unknown, and whatever names the snapshot repeats, the seeds
      hold every listed name once and every other name as often as the snapshot does. */
  method ProgressMilestoneSeeds(milestones: seq<Milestone>, nodes: seq<DagNode>, classify: DagNode -> string,
                                less: (string, string) -> bool)
    returns (seeds: seq<Seed>)
    ensures Accounts(seeds, nodes, ListedIds(milestones, nodes))
    ensures UniqueIds(nodes) ==> Partitions(seeds, nodes)
    ensures forall s :: s in seeds ==> Placed(s, milestones, nodes, classify)
    ensures Asymmetric(less) ==> Ascending(seeds, less)
  {
    hide Hits, HitsIn, HitsOver, Unclaimed, ListedBy, FirstClaim, Asymmetric, Ascending, Placed, Partitions;
    var claims, fallbacks, order;
    seeds, claims := CoordinatorSeeds(milestones, Ids(nodes));
    assert claims.Keys == ListedIds(milestones, nodes);
    fallbacks, order := FallbackSeeds(nodes, claims, classify);
    assert forall k :: 0 <= k < |order| ==> order[k] in order;
    var sorted := SortKeys(order, fallbacks, less);
    forall s | s in seeds ensures Placed(s, milestones, nodes, classify) {
      ClaimedArePlaced(seeds, s, claims, milestones, nodes, classify);
    }
    forall key | key in fallbacks ensures Placed(fallbacks[key], milestones, nodes, classify) {
      ClassIsPlaced(fallbacks[key], key, claims, milestones, nodes, classify);
    }
    var all := AppendSeeds(seeds, sorted, fallbacks);
    seeds := SortSeeds(all, less);
    if UniqueIds(nodes) {
      AccountsPartition(seeds, nodes, ListedIds(milestones, nodes));
    }
  }

  // ---------- the counts ----------

  function DoneIds(nodes: seq<DagNode>): set<string> {
    set i | 0 <= i < |nodes| && nodes[i].status == STATUS_DONE :: nodes[i].id
  }

  function CountDone(nodes: seq<DagNode>): nat {
    if nodes == [] then 0 else CountDone(nodes[..|nodes| - 1]) + if nodes[|nodes| - 1].status == STATUS_DONE
        then 1 else 0
  }

  /** The positions of the nodes that are Done (2). */
  function DonePositions(nodes: seq<DagNode>): set<nat> {
    set i: nat | i < |nodes| && nodes[i].status == 2
  }

  lemma {:induction false} CountDoneMeaning(nodes: seq<DagNode>)
    ensures CountDone(nodes) == |DonePositions(nodes)|
  {
    if nodes != [] {
      var last := |nodes| - 1;
      CountDoneMeaning(nodes[..last]);
      assert DonePositions(nodes) == DonePositions(nodes[..last]) + if nodes[last].status == 2 then {last} else {};
    }
  }

  lemma {:induction false} DoneHits(nodes: seq<DagNode>, all: seq<DagNode>)
    requires UniqueIds(all) && nodes <= all
    ensures Hits(Names(nodes), DoneIds(all)) == CountDone(nodes)
    ensures Hits(Names(nodes), Ids(all)) == |nodes|
  {
    if nodes != [] {
      var last := |nodes| - 1;
      DoneHits(nodes[..last], all);
      assert Names(nodes)[..last] == Names(nodes[..last]);
      assert nodes[last] == all[last];
      if nodes[last].id in DoneIds(all) {
        var i :| 0 <= i < |all| && all[i].status == STATUS_DONE && all[i].id == nodes[last].id;
        assert i == last;
      }
    }
  }

  /** Node and done counts of one milestone; names that are not in the table are skipped. */
  method ComputeMilestoneProgress(seed: Seed, nodesByID: map<string, DagNode>) returns (total: nat, done: nat)
    ensures total == Hits(seed.nodeIDs, nodesByID.Keys)
    ensures done == Hits(seed.nodeIDs, set x | x in nodesByID && nodesByID[x].status == 2)
  {
    total, done := 0, 0;
    ghost var finished := set x | x in nodesByID && nodesByID[x].status == STATUS_DONE;
    for i := 0 to |seed.nodeIDs|
      invariant total == Hits(seed.nodeIDs[..i], nodesByID.Keys) && done == Hits(seed.nodeIDs[..i], finished)
    {
      assert seed.nodeIDs[..i + 1][..i] == seed.nodeIDs[..i];
      if seed.nodeIDs[i] !in nodesByID {
        continue;
      }
      total := total + 1;
      if nodesByID[seed.nodeIDs[i]].status == STATUS_DONE {
        done := done + 1;
      }
    }
    assert seed.nodeIDs[..|seed.nodeIDs|] == seed.nodeIDs;
  }

  method NodesByID(nodes: seq<DagNode>) returns (byID: map<string, DagNode>)
    ensures byID.Keys == Ids(nodes)
    ensures forall x :: LastStatus(nodes, x) == if x in byID then Some(byID[x].status) else None
  {
    byID := map[];
    for i := 0 to |nodes|
      invariant forall x :: x in byID <==> exists j :: 0 <= j < i && nodes[j].id == x
      invariant forall x :: LastStatus(nodes[..i], x) == if x in byID then Some(byID[x].status) else None
    {
      assert nodes[..i + 1][..i] == nodes[..i];
      byID := byID[nodes[i].id := nodes[i]];
    }
    assert nodes[..|nodes|] == nodes;
  }

  /** The names whose last node is Done. */
  function LastDone(nodes: seq<DagNode>): set<string> {
    set x | x in Ids(nodes) && LastStatus(nodes, x) == Some(STATUS_DONE)
  }

  /** Totals over all milestones: every listed name counts once and every other node by itself, and each as Done when
      the last node of its name is. With unique names that is the DAG's node count and its Done count. */
  method ComputeBuildProgress(milestones: seq<Milestone>, nodes: seq<DagNode>, classify: DagNode -> string,
                              less: (string, string) -> bool)
    returns (total: nat, done: nat)
    ensures var listed := ListedIds(milestones, nodes); var others := Unclaimed(nodes, listed);
      && total == |listed| + |others|
      && done == |listed * LastDone(nodes)| + Hits(others, LastDone(nodes))
    ensures UniqueIds(nodes) ==> total == |nodes| && done == |DonePositions(nodes)|
  {
    hide Hits, ListedIds, Partitions;
    CountDoneMeaning(nodes);
    hide CountDone, DonePositions;
    var seeds := ProgressMilestoneSeeds(milestones, nodes, classify, less);
    var byID := NodesByID(nodes);
    ghost var finished := set x | x in byID && byID[x].status == STATUS_DONE;
    total, done := 0, 0;
    for k := 0 to |seeds|
      invariant total == HitsIn(seeds[..k], byID.Keys) && done == HitsIn(seeds[..k], finished)
    {
      assert seeds[..k + 1] == seeds[..k] + [seeds[k]];
      HitsInSnoc(seeds[..k], seeds[k], byID.Keys);
      HitsInSnoc(seeds[..k], seeds[k], finished);
      var t, d := ComputeMilestoneProgress(seeds[k], byID);
      total, done := total + t, done + d;
    }
    assert seeds[..|seeds|] == seeds;
    assert finished == LastDone(nodes);
    AllCounted(milestones, nodes);
    if UniqueIds(nodes) {
      LastDoneOfUnique(nodes);
      PartitionCounts(seeds, nodes);
    }
  }

  /** Every name of the snapshot is known to the table. */
  lemma AllCounted(milestones: seq<Milestone>, nodes: seq<DagNode>)
    ensures var listed := ListedIds(milestones, nodes);
      && Overlap(listed, Ids(nodes)) == |listed|
      && Hits(Unclaimed(nodes, listed), Ids(nodes)) == |Unclaimed(nodes, listed)|
  {
    var listed := ListedIds(milestones, nodes);
    assert listed * Ids(nodes) == listed;
    UnclaimedAreIds(nodes, listed);
    hide ListedIds;
    HitsAll(Unclaimed(nodes, listed), Ids(nodes));
  }

  lemma {:induction false} UnclaimedAreIds(nodes: seq<DagNode>, listed: set<string>)
    ensures forall x :: x in Unclaimed(nodes, listed) ==> x in Ids(nodes)
  {
    if nodes != [] {
      var init := nodes[..|nodes| - 1];
      UnclaimedAreIds(init, listed);
      forall x | x in Ids(init) ensures x in Ids(nodes) {
        var i :| 0 <= i < |init| && init[i].id == x;
        assert nodes[i].id == x;
      }
    }
  }

  lemma {:induction false} HitsAll(names: seq<string>, p: set<string>)
    requires forall x :: x in names ==> x in p
    ensures Hits(names, p) == |names|
  {
    if names != [] {
      HitsAll(names[..|names| - 1], p);
    }
  }

  lemma PartitionCounts(seeds: seq<Seed>, nodes: seq<DagNode>)
    requires UniqueIds(nodes) && Partitions(seeds, nodes)
    ensures HitsIn(seeds, Ids(nodes)) == |nodes| && HitsIn(seeds, DoneIds(nodes)) == CountDone(nodes)
  {
    hide Hits, HitsIn;
    DoneHits(nodes, nodes);
  }

  lemma LastDoneOfUnique(nodes: seq<DagNode>)
    requires UniqueIds(nodes)
    ensures LastDone(nodes) == DoneIds(nodes)
  {
    forall x ensures x in LastDone(nodes) <==> x in DoneIds(nodes) {
      if x in Ids(nodes) {
        var i :| 0 <= i < |nodes| && nodes[i].id == x;
        LastStatusOfUnique(nodes, i);
      }
    }
  }
}
