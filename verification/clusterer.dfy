/**
 * pubmed/pubmed_clustering_lib.py, the entry points of
 * `PubMedTermBasedClusterer`: `_process_assignments` (build, then traverse),
 * `assign_best_abstracts` (a fresh cluster for every abstract the traversal
 * missed) and `build_clusters` (the abstracts grouped by cluster).
 */
module Clusterer {
  import opened Wrappers
  import opened Counts
  import opened ClusterLib
  import opened MutualBestMatch
  import opened PubMedClustering

  /**
   * What the traversal leaves on `n >= 2` abstracts: one cluster per root,
   * in the roots' order and all different; the assigned abstracts are the
   * reached ones; each shares the cluster of its root.
   */
  ghost predicate TreeAssignment(abstracts: seq<Abstract>, score: ScoreFn, clusters: seq<Cluster>,
                                 clusterOf: map<nat, Cluster>)
    requires 2 <= |abstracts|
  {
    var roots := BuildForest(abstracts, score).roots;
    && |clusters| == |roots|
    && Distinct(clusters)
    && (forall i :: 0 <= i < |roots| ==> roots[i] in clusterOf && clusterOf[roots[i]] == clusters[i])
    && (forall j: nat :: j in clusterOf <==> j < |abstracts| && Reached(abstracts, score, j))
    && (forall j: nat {:trigger Root(abstracts, score, j)} :: j in clusterOf ==>
          && j < |abstracts| && Reached(abstracts, score, j)
          && Root(abstracts, score, j) in clusterOf
          && clusterOf[j] == clusterOf[Root(abstracts, score, j)])
  }

  /**
   * The counters of each listed cluster: its id is its position, and it has
   * absorbed one abstract and that abstract's counts per member.
   */
  ghost predicate ClusterTotals(abstracts: seq<Abstract>, a: Assignment)
    reads Elems(a.clusters)
  {
    && (forall j :: j in a.clusterOf ==> j < |abstracts|)
    && (forall i :: 0 <= i < |a.clusters| ==>
          && a.clusters[i].id == i
          && a.clusters[i].numAbstracts == |MembersIn(a.clusterOf, a.clusterOf.Keys, a.clusters[i])|
          && a.clusters[i].counts == SumCountsOf(abstracts, MembersIn(a.clusterOf, a.clusterOf.Keys, a.clusters[i])))
  }

  /** After the traversal each root still has the cluster the build gave it. */
  lemma ProcessedRoots(roots: seq<nat>, clusters: seq<Cluster>, n: nat, childrenOf: map<nat, set<nat>>,
                       clusterOf0: map<nat, Cluster>, clusterOf: map<nat, Cluster>, depth: map<nat, nat>)
    requires |clusters| == |roots|
    requires forall i :: 0 <= i < |roots| ==> roots[i] in clusterOf0 && clusterOf0[roots[i]] == clusters[i]
    requires Traversed(n, childrenOf, clusterOf0, clusterOf, depth)
    ensures forall i :: 0 <= i < |roots| ==> roots[i] in clusterOf && clusterOf[roots[i]] == clusters[i]
  {
  }

  /** The traversal of the built forest assigns exactly the reached abstracts, each to its root's cluster. */
  lemma ProcessedReach(abstracts: seq<Abstract>, score: ScoreFn,
                       clusterOf0: map<nat, Cluster>, clusterOf: map<nat, Cluster>, depth: map<nat, nat>)
    requires 2 <= |abstracts|
    requires clusterOf0.Keys == Elems(BuildForest(abstracts, score).roots)
    requires Traversed(|abstracts|, BuildForest(abstracts, score).childrenOf, clusterOf0, clusterOf, depth)
    ensures forall j: nat :: j in clusterOf <==> j < |abstracts| && Reached(abstracts, score, j)
    ensures forall j: nat {:trigger Root(abstracts, score, j)} :: j in clusterOf ==>
      && j < |abstracts| && Reached(abstracts, score, j)
      && Root(abstracts, score, j) in clusterOf
      && clusterOf[j] == clusterOf[Root(abstracts, score, j)]
  {
    TraversedIsReached(abstracts, score, clusterOf0, clusterOf, depth);
    forall j: nat | j in clusterOf
      ensures j < |abstracts| && Reached(abstracts, score, j)
      ensures Root(abstracts, score, j) in clusterOf
      ensures clusterOf[j] == clusterOf[Root(abstracts, score, j)]
    {
      var d: nat :| ReachedAt(abstracts, score, j, d);
      var a := Ancestor(abstracts, score, j, d);
      assert a in clusterOf0 && clusterOf[j] == clusterOf0[a];
    }
  }

  /** Both halves together: the traversal of the built forest leaves a `TreeAssignment`. */
  lemma ProcessedTree(abstracts: seq<Abstract>, score: ScoreFn, clusters: seq<Cluster>,
                      clusterOf0: map<nat, Cluster>, clusterOf: map<nat, Cluster>, depth: map<nat, nat>)
    requires 2 <= |abstracts|
    requires clusterOf0.Keys == Elems(BuildForest(abstracts, score).roots)
    requires |clusters| == |BuildForest(abstracts, score).roots| && Distinct(clusters)
    requires forall i :: 0 <= i < |clusters| ==>
      clusterOf0[BuildForest(abstracts, score).roots[i]] == clusters[i]
    requires Traversed(|abstracts|, BuildForest(abstracts, score).childrenOf, clusterOf0, clusterOf, depth)
    ensures TreeAssignment(abstracts, score, clusters, clusterOf)
  {
    var f := BuildForest(abstracts, score);
    ProcessedRoots(f.roots, clusters, |abstracts|, f.childrenOf, clusterOf0, clusterOf, depth);
    ProcessedReach(abstracts, score, clusterOf0, clusterOf, depth);
  }

  /**
   * Clusters handed down from distinct root clusters: when every key of
   * `top` shares the cluster of its root `top[j]`, two keys share a cluster
   * exactly when they share a root.
   */
  lemma SharedRoots(roots: seq<nat>, clusters: seq<Cluster>, clusterOf: map<nat, Cluster>, top: map<nat, nat>)
    requires |clusters| == |roots| && Distinct(clusters)
    requires forall i :: 0 <= i < |roots| ==> roots[i] in clusterOf && clusterOf[roots[i]] == clusters[i]
    requires forall j :: j in top ==> j in clusterOf && top[j] in roots && clusterOf[j] == clusterOf[top[j]]
    ensures forall j :: j in top ==> clusterOf[j] in clusters
    ensures forall j, k :: j in top && k in top ==> (clusterOf[j] == clusterOf[k] <==> top[j] == top[k])
  {
    forall j, k | j in top && k in top && clusterOf[j] == clusterOf[k]
      ensures top[j] == top[k]
    {
      var a :| 0 <= a < |roots| && roots[a] == top[j];
      var b :| 0 <= b < |roots| && roots[b] == top[k];
      assert clusters[a] == clusters[b];
    }
  }

  /** Under the traversal, abstracts share a cluster exactly when they share a root; every cluster is listed. */
  lemma TreeClusters(abstracts: seq<Abstract>, score: ScoreFn, clusters: seq<Cluster>, clusterOf: map<nat, Cluster>)
    requires 2 <= |abstracts|
    requires TreeAssignment(abstracts, score, clusters, clusterOf)
    ensures forall j :: j in clusterOf ==> clusterOf[j] in clusters
    ensures forall j: nat, k: nat :: j in clusterOf && k in clusterOf ==>
      (clusterOf[j] == clusterOf[k] <==> Root(abstracts, score, j) == Root(abstracts, score, k))
  {
    var roots := BuildForest(abstracts, score).roots;
    BuiltLinks(abstracts, score);
    var top := map j: nat | j in clusterOf :: Root(abstracts, score, j);
    forall j | j in top
      ensures j in clusterOf && top[j] in roots && clusterOf[j] == clusterOf[top[j]]
    {
      assert top[j] in MutualRoots(abstracts, score);
    }
    SharedRoots(roots, clusters, clusterOf, top);
    forall j: nat, k: nat | j in clusterOf && k in clusterOf
      ensures clusterOf[j] == clusterOf[k] <==> Root(abstracts, score, j) == Root(abstracts, score, k)
    {
      assert j in top && k in top;
    }
  }

  /**
   * The loop of `_process_assignments`: `_build_assignment_tree` on every
   * abstract in order, from empty containers. The result is the forest
   * `BuildForest` describes, with a new, empty cluster numbered by its
   * position for each root.
   */
  method BuildAll(abstracts: seq<Abstract>, score: ScoreFn) returns (r: Result<BuildState, ClusteringError>)
    ensures r.Failure? <==> |abstracts| == 1
    ensures r.Success? ==> Seeded(r.value, |abstracts|)
    ensures r.Success? && 2 <= |abstracts| ==>
      Forest(r.value.childrenOf, r.value.agenda) == BuildForest(abstracts, score)
    ensures r.Success? && |abstracts| < 2 ==> r.value == BuildState([], map[], map[], [])
    ensures r.Success? ==> forall i :: 0 <= i < |r.value.clusters| ==> fresh(r.value.clusters[i])
    ensures r.Success? ==> Blank(r.value.clusters)
  {
    var s := BuildState([], map[], map[], []);
    for x := 0 to |abstracts|
      invariant 0 < x ==> 2 <= |abstracts|
      invariant 2 <= |abstracts| ==> Forest(s.childrenOf, s.agenda) == BuildPrefix(abstracts, score, x)
      invariant x == 0 ==> s == BuildState([], map[], map[], [])
      invariant Seeded(s, x)
      invariant forall i :: 0 <= i < |s.clusters| ==> fresh(s.clusters[i])
      invariant Blank(s.clusters)
    {
      var step := BuildAssignmentTree(abstracts, score, x, s);
      if step.Failure? {
        return Failure(step.error);
      }
      s := step.value;
    }
    r := Success(s);
  }

  /**
   * The traversal of `_process_assignments`, run on the clusters the build
   * phase created empty: afterwards each cluster counts exactly the
   * abstracts assigned to it and holds the sum of their counts.
   */
  method TallyTree(abstracts: seq<Abstract>, s: BuildState) returns (clusterOf: map<nat, Cluster>, ghost depth: map<nat, nat>)
    requires Seeded(s, |abstracts|) && Blank(s.clusters)
    requires IsForest(|abstracts|, s.childrenOf, s.agenda, s.clusterOf)
    modifies Elems(s.clusters)
    ensures Traversed(|abstracts|, s.childrenOf, s.clusterOf, clusterOf, depth)
    ensures ClusterTotals(abstracts, Assignment(s.clusters, clusterOf))
  {
    SeededValues(s, |abstracts|);
    label Blank:
    clusterOf, depth := TraverseAssignmentTree(abstracts, s.agenda, s.clusterOf, s.childrenOf);
    forall i | 0 <= i < |s.clusters|
      ensures s.clusters[i].numAbstracts == |MembersIn(clusterOf, clusterOf.Keys, s.clusters[i])|
      ensures s.clusters[i].counts == SumCountsOf(abstracts, MembersIn(clusterOf, clusterOf.Keys, s.clusters[i]))
    {
      var c := s.clusters[i];
      assert c in s.clusterOf.Values;
      assert old@Blank(c.numAbstracts) == 0 && old@Blank(c.counts) == map[];
      UpdateEmptyLeft(SumCountsOf(abstracts, MembersIn(clusterOf, clusterOf.Keys, c)));
    }
  }

  /**
   * `_process_assignments`: build the forest, then traverse it from the
   * roots the build queued. Fails, as `max()` does, exactly when there is a
   * single abstract; no abstracts give no clusters.
   */
  method ProcessAssignments(abstracts: seq<Abstract>, score: ScoreFn) returns (r: Result<Assignment, ClusteringError>)
    ensures r.Failure? <==> |abstracts| == 1
    ensures |abstracts| == 0 ==> r == Success(Assignment([], map[]))
    ensures r.Success? && 2 <= |abstracts| ==> TreeAssignment(abstracts, score, r.value.clusters, r.value.clusterOf)
    ensures r.Success? ==> ClusterTotals(abstracts, r.value)
  {
    var built := BuildAll(abstracts, score);
    if built.Failure? {
      return Failure(built.error);
    }
    var s := built.value;
    SeededValues(s, |abstracts|);
    if 2 <= |abstracts| {
      BuiltIsForest(abstracts, score, s.clusterOf);
    }
    var clusterOf, depth := TallyTree(abstracts, s);
    r := Success(Assignment(s.clusters, clusterOf));
    if 2 <= |abstracts| {
      ProcessedTree(abstracts, score, s.clusters, s.clusterOf, clusterOf, depth);
    }
  }

  /**
   * The relation `build_clusters` groups by, on `n >= 2` abstracts: an
   * abstract is grouped with itself, and two reached abstracts are grouped
   * when they hang from the same root.
   */
  ghost predicate SameCluster(abstracts: seq<Abstract>, score: ScoreFn, j: nat, k: nat)
    requires 2 <= |abstracts| && j < |abstracts| && k < |abstracts|
  {
    j == k || (Reached(abstracts, score, j) && Reached(abstracts, score, k) && Root(abstracts, score, j) == Root(abstracts, score, k))
  }

  /**
   * The assignment once every abstract has a cluster, on `n >= 2`
   * abstracts: the roots keep their listed clusters, every abstract is
   * assigned, exactly the reached ones have a listed cluster, and two
   * abstracts share a cluster exactly when `SameCluster` relates them.
   */
  ghost predicate FullAssignment(abstracts: seq<Abstract>, score: ScoreFn, a: Assignment)
    requires 2 <= |abstracts|
  {
    var roots := BuildForest(abstracts, score).roots;
    && |a.clusters| == |roots|
    && (forall i :: 0 <= i < |roots| ==> roots[i] in a.clusterOf && a.clusterOf[roots[i]] == a.clusters[i])
    && (forall j: nat :: j in a.clusterOf <==> j < |abstracts|)
    && (forall j: nat :: j in a.clusterOf ==> (a.clusterOf[j] in a.clusters <==> Reached(abstracts, score, j)))
    && (forall j: nat, k: nat :: j in a.clusterOf && k in a.clusterOf ==>
          (a.clusterOf[j] == a.clusterOf[k] <==> SameCluster(abstracts, score, j, k)))
  }

  /**
   * Giving every abstract the traversal missed a cluster of its own, not
   * listed and shared with no other abstract, turns the traversal's
   * assignment into a `FullAssignment`.
   */
  lemma OrphansSeparate(abstracts: seq<Abstract>, score: ScoreFn, clusters: seq<Cluster>,
                        tree: map<nat, Cluster>, clusterOf: map<nat, Cluster>)
    requires 2 <= |abstracts|
    requires TreeAssignment(abstracts, score, clusters, tree)
    requires forall j: nat :: j in clusterOf <==> j < |abstracts|
    requires forall j :: j in tree ==> j in clusterOf && clusterOf[j] == tree[j]
    requires forall j :: j in clusterOf && j !in tree ==> clusterOf[j] !in clusters
    requires forall j, k :: j in clusterOf && k in clusterOf && j !in tree && j != k ==> clusterOf[j] != clusterOf[k]
    ensures FullAssignment(abstracts, score, Assignment(clusters, clusterOf))
  {
    TreeClusters(abstracts, score, clusters, tree);
    forall j: nat | j in clusterOf
      ensures clusterOf[j] in clusters <==> Reached(abstracts, score, j)
    {
    }
    forall j: nat, k: nat | j in clusterOf && k in clusterOf
      ensures clusterOf[j] == clusterOf[k] <==> SameCluster(abstracts, score, j, k)
    {
      if j in tree && k in tree {
        assert clusterOf[j] == tree[j] && clusterOf[k] == tree[k];
      } else if j != k && j !in tree {
        assert clusterOf[j] != clusterOf[k];
      } else if j != k {
        assert clusterOf[k] != clusterOf[j];
      }
    }
  }

  /** Orphans' clusters are not listed, so the listed clusters keep their members. */
  lemma MembersWithOrphans(tree: map<nat, Cluster>, clusterOf: map<nat, Cluster>, c: Cluster)
    requires forall j :: j in tree ==> j in clusterOf && clusterOf[j] == tree[j]
    requires forall j :: j in clusterOf && j !in tree ==> clusterOf[j] != c
    ensures MembersIn(clusterOf, clusterOf.Keys, c) == MembersIn(tree, tree.Keys, c)
  {
  }

  /** Orphans' clusters are not listed, so every listed cluster keeps its members and its totals. */
  lemma TotalsWithOrphans(abstracts: seq<Abstract>, clusters: seq<Cluster>, tree: map<nat, Cluster>,
                          clusterOf: map<nat, Cluster>)
    requires ClusterTotals(abstracts, Assignment(clusters, tree))
    requires forall j :: j in clusterOf ==> j < |abstracts|
    requires forall j :: j in tree ==> j in clusterOf && clusterOf[j] == tree[j]
    requires forall j :: j in clusterOf && j !in tree ==> clusterOf[j] !in clusters
    ensures ClusterTotals(abstracts, Assignment(clusters, clusterOf))
  {
    forall i | 0 <= i < |clusters|
      ensures MembersIn(clusterOf, clusterOf.Keys, clusters[i]) == MembersIn(tree, tree.Keys, clusters[i])
    {
      MembersWithOrphans(tree, clusterOf, clusters[i]);
    }
  }

  /**
   * The loop of `assign_best_abstracts`: every abstract below `n` that
   * `tree` leaves unassigned gets a new cluster numbered `|clusters|`,
   * which is not added to `clusters`; the assigned ones keep theirs.
   */
  method AddOrphans(n: nat, clusters: seq<Cluster>, tree: map<nat, Cluster>) returns (clusterOf: map<nat, Cluster>)
    ensures forall j: nat :: j in clusterOf <==> j in tree || j < n
    ensures forall j :: j in tree ==> clusterOf[j] == tree[j]
    ensures forall j :: j in clusterOf && j !in tree ==>
      && fresh(clusterOf[j])
      && clusterOf[j].id == |clusters|
      && clusterOf[j].counts == map[]
      && clusterOf[j].numAbstracts == 0
    ensures forall j, k :: j in clusterOf && k in clusterOf && j !in tree && j != k ==> clusterOf[j] != clusterOf[k]
  {
    clusterOf := tree;
    var unassigned := set j: nat | j < n && j !in tree;
    while unassigned != {}
      invariant forall j :: j in unassigned ==> j !in clusterOf
      invariant forall j: nat :: j in clusterOf <==> j in tree || (j < n && j !in unassigned)
      invariant forall j :: j in tree ==> clusterOf[j] == tree[j]
      invariant forall j :: j in clusterOf && j !in tree ==>
        && fresh(clusterOf[j])
        && clusterOf[j].id == |clusters|
        && clusterOf[j].counts == map[]
        && clusterOf[j].numAbstracts == 0
      invariant forall j, k :: j in clusterOf && k in clusterOf && j !in tree && j != k ==> clusterOf[j] != clusterOf[k]
      decreases unassigned
    {
      var j :| j in unassigned;
      var cluster := new Cluster(|clusters|);
      clusterOf := clusterOf[j := cluster];
      unassigned := unassigned - {j};
    }
  }

  /**
   * `assign_best_abstracts`: after `_process_assignments`, every abstract
   * without a cluster gets a new cluster numbered after the listed ones; it
   * is not added to the list, so orphans all carry the same id, but each
   * is a cluster of its own.
   */
  method AssignBestAbstracts(abstracts: seq<Abstract>, score: ScoreFn) returns (r: Result<Assignment, ClusteringError>)
    ensures r.Failure? <==> |abstracts| == 1
    ensures |abstracts| == 0 ==> r == Success(Assignment([], map[]))
    ensures r.Success? && 2 <= |abstracts| ==> FullAssignment(abstracts, score, r.value)
    ensures r.Success? ==> ClusterTotals(abstracts, r.value)
    ensures r.Success? ==> forall j :: j in r.value.clusterOf && r.value.clusterOf[j] !in r.value.clusters ==>
      && r.value.clusterOf[j].id == |r.value.clusters|
      && r.value.clusterOf[j].counts == map[]
      && r.value.clusterOf[j].numAbstracts == 0
  {
    var processed := ProcessAssignments(abstracts, score);
    if processed.Failure? {
      return processed;
    }
    var clusters, tree := processed.value.clusters, processed.value.clusterOf;
    var clusterOf := AddOrphans(|abstracts|, clusters, tree);
    r := Success(Assignment(clusters, clusterOf));
    TotalsWithOrphans(abstracts, clusters, tree, clusterOf);
    if 2 <= |abstracts| {
      OrphansSeparate(abstracts, score, clusters, tree, clusterOf);
    }
  }

  /** Some group holds `j`. */
  ghost predicate InSomeGroup(groups: seq<set<nat>>, j: nat)
  {
    exists i :: 0 <= i < |groups| && j in groups[i]
  }

  /** `groups` are non-empty, pairwise disjoint, and together hold exactly the abstracts below `n`. */
  ghost predicate IsPartition(groups: seq<set<nat>>, n: nat)
  {
    && (forall i :: 0 <= i < |groups| ==> groups[i] != {})
    && (forall i, k :: 0 <= i < k < |groups| ==> groups[i] !! groups[k])
    && (forall j: nat :: j < n <==> InSomeGroup(groups, j))
  }

  /**
   * `groups` lists, once per cluster, the abstracts `clusterOf` assigns to
   * it: no group is empty, two groups never share an abstract, every
   * assigned abstract is in some group, and a group holds exactly the
   * abstracts that share the cluster of any one of its members.
   */
  ghost predicate GroupsClusters(clusterOf: map<nat, Cluster>, groups: seq<set<nat>>)
  {
    && (forall i :: 0 <= i < |groups| ==> groups[i] != {})
    && (forall i, k :: 0 <= i < k < |groups| ==> groups[i] !! groups[k])
    && (forall j: nat :: j in clusterOf <==> InSomeGroup(groups, j))
    && (forall i, j, k :: 0 <= i < |groups| && j in groups[i] ==>
          (k in groups[i] <==> j in clusterOf && k in clusterOf && clusterOf[k] == clusterOf[j]))
  }

  /**
   * The `assignments` dictionary of `build_clusters` after the abstracts
   * `done` were visited: one entry per cluster met so far, in the order
   * `order` first met them, holding that cluster's members among `done`.
   */
  ghost predicate Collected(clusterOf: map<nat, Cluster>, done: set<nat>, order: seq<Cluster>,
                            assignments: map<Cluster, set<nat>>)
  {
    && done <= clusterOf.Keys
    && Distinct(order) && assignments.Keys == Elems(order)
    && (forall c :: c in assignments ==> assignments[c] == MembersIn(clusterOf, done, c) && assignments[c] != {})
    && (forall j :: j in done ==> clusterOf[j] in assignments)
  }

  /** Adding one abstract to its cluster's entry, creating the entry if needed, keeps the entries exact. */
  lemma CollectStep(clusterOf: map<nat, Cluster>, done: set<nat>, order: seq<Cluster>,
                    assignments: map<Cluster, set<nat>>, j: nat)
    requires Collected(clusterOf, done, order, assignments)
    requires j in clusterOf && j !in done
    ensures clusterOf[j] in assignments ==>
      Collected(clusterOf, done + {j}, order, assignments[clusterOf[j] := assignments[clusterOf[j]] + {j}])
    ensures clusterOf[j] !in assignments ==>
      Collected(clusterOf, done + {j}, order + [clusterOf[j]], assignments[clusterOf[j] := {j}])
  {
    var c := clusterOf[j];
    forall c' | c' in assignments || c' == c
      ensures MembersIn(clusterOf, done + {j}, c') ==
        if c' == c then MembersIn(clusterOf, done, c') + {j} else MembersIn(clusterOf, done, c')
    {
      MembersStep(clusterOf, clusterOf, done, j, c');
    }
    if c !in assignments {
      assert MembersIn(clusterOf, done, c) == {};
      assert Elems(order + [c]) == Elems(order) + {c};
    }
  }

  /** Listing the complete dictionary's entries, in `order`, yields the groups of `clusterOf`. */
  lemma CollectedGroups(clusterOf: map<nat, Cluster>, order: seq<Cluster>, assignments: map<Cluster, set<nat>>,
                        groups: seq<set<nat>>)
    requires Collected(clusterOf, clusterOf.Keys, order, assignments)
    requires |groups| == |order| && forall i :: 0 <= i < |order| ==> groups[i] == assignments[order[i]]
    ensures GroupsClusters(clusterOf, groups)
  {
    forall i | 0 <= i < |groups|
      ensures groups[i] == MembersIn(clusterOf, clusterOf.Keys, order[i]) && groups[i] != {}
    {
      assert order[i] in assignments;
    }
    forall j: nat | j in clusterOf
      ensures InSomeGroup(groups, j)
    {
      var i :| 0 <= i < |order| && order[i] == clusterOf[j];
      assert j in groups[i];
    }
    forall i, k | 0 <= i < k < |groups|
      ensures groups[i] !! groups[k]
    {
      assert order[i] != order[k];
    }
    forall i, j, k | 0 <= i < |groups| && j in groups[i]
      ensures k in groups[i] <==> j in clusterOf && k in clusterOf && clusterOf[k] == clusterOf[j]
    {
      assert clusterOf[j] == order[i];
    }
  }


  /**
   * The loop of `build_clusters`: collect, per cluster, the abstracts
   * assigned to it, then list the collections. The source visits the
   * assignment in insertion order; this model visits it in an arbitrary
   * order, so the order of the groups is left open.
   */
  method GroupByCluster(clusterOf: map<nat, Cluster>) returns (groups: seq<set<nat>>)
    ensures GroupsClusters(clusterOf, groups)
  {
    var assignments: map<Cluster, set<nat>> := map[];
    var order: seq<Cluster> := [];
    var remaining := clusterOf.Keys;
    while remaining != {}
      invariant remaining <= clusterOf.Keys
      invariant Collected(clusterOf, clusterOf.Keys - remaining, order, assignments)
      decreases remaining
    {
      var j :| j in remaining;
      CollectStep(clusterOf, clusterOf.Keys - remaining, order, assignments, j);
      assert clusterOf.Keys - (remaining - {j}) == (clusterOf.Keys - remaining) + {j};
      var c := clusterOf[j];
      if c in assignments {
        assignments := assignments[c := assignments[c] + {j}];
      } else {
        assignments := assignments[c := {j}];
        order := order + [c];
      }
      remaining := remaining - {j};
    }
    assert clusterOf.Keys - remaining == clusterOf.Keys;
    groups := seq(|order|, i requires 0 <= i < |order| => assignments[order[i]]);
    CollectedGroups(clusterOf, order, assignments, groups);
  }

  /** A group holds exactly the abstracts `SameCluster` relates to any one of its members. */
  ghost predicate GroupedBySameCluster(abstracts: seq<Abstract>, score: ScoreFn, groups: seq<set<nat>>)
    requires 2 <= |abstracts|
  {
    forall i, j: nat, k: nat :: 0 <= i < |groups| && j in groups[i] && j < |abstracts| && k < |abstracts| ==>
      (k in groups[i] <==> SameCluster(abstracts, score, j, k))
  }

  /** On a full assignment, the groups of its clusters are the classes of `SameCluster`. */
  lemma GroupsAreClusters(abstracts: seq<Abstract>, score: ScoreFn, a: Assignment, groups: seq<set<nat>>)
    requires 2 <= |abstracts|
    requires FullAssignment(abstracts, score, a)
    requires GroupsClusters(a.clusterOf, groups)
    ensures IsPartition(groups, |abstracts|)
    ensures GroupedBySameCluster(abstracts, score, groups)
  {
    forall i, j: nat, k: nat | 0 <= i < |groups| && j in groups[i] && j < |abstracts| && k < |abstracts|
      ensures k in groups[i] <==> SameCluster(abstracts, score, j, k)
    {
      assert j in a.clusterOf && k in a.clusterOf;
    }
  }

  /**
   * `build_clusters`: the abstracts grouped by the cluster
   * `assign_best_abstracts` gives them. The groups partition the
   * abstracts, and two abstracts share a group exactly when `SameCluster`
   * relates them.
   */
  method BuildClusters(abstracts: seq<Abstract>, score: ScoreFn) returns (r: Result<seq<set<nat>>, ClusteringError>)
    ensures r.Failure? <==> |abstracts| == 1
    ensures r.Success? ==> IsPartition(r.value, |abstracts|)
    ensures r.Success? && 2 <= |abstracts| ==> GroupedBySameCluster(abstracts, score, r.value)
  {
    var assignment := AssignBestAbstracts(abstracts, score);
    if assignment.Failure? {
      return Failure(assignment.error);
    }
    var groups := GroupByCluster(assignment.value.clusterOf);
    r := Success(groups);
    if 2 <= |abstracts| {
      GroupsAreClusters(abstracts, score, assignment.value, groups);
    }
  }
}
