/**
 * pubmed/pubmed_clustering_lib.py, `PubMedTermBasedClusterer`: the build
 * loop, the breadth-first traversal that hands each root's cluster down to
 * its descendants, orphan promotion, and the grouping of abstracts by
 * cluster. Abstracts are identified by their index in the input list; the
 * scorer strategy is the function parameter `score`.
 */
module PubMedClustering {
  import opened Wrappers
  import opened Counts
  import opened ClusterLib
  import opened MutualBestMatch

  /** The `ValueError` of `max()` when an abstract has no other abstract to compare with. */
  datatype ClusteringError = NoOtherAbstract

  /** The containers `_process_assignments` threads through the build loop. */
  datatype BuildState = BuildState(
    clusters: seq<Cluster>,
    clusterOf: map<nat, Cluster>,
    childrenOf: map<nat, set<nat>>,
    agenda: seq<nat>)

  /** `(clusters, cluster_by_abstract)`. */
  datatype Assignment = Assignment(clusters: seq<Cluster>, clusterOf: map<nat, Cluster>)

  ghost predicate Distinct<T>(s: seq<T>)
  {
    forall i, k :: 0 <= i < k < |s| ==> s[i] != s[k]
  }

  function Elems<T>(s: seq<T>): set<T>
  {
    set x | x in s
  }

  /** The abstracts among `among` that `clusterOf` assigns to `c`. */
  ghost function MembersIn(clusterOf: map<nat, Cluster>, among: set<nat>, c: Cluster): set<nat>
  {
    set j | j in among && j in clusterOf && clusterOf[j] == c
  }

  /** The elementwise sum of the counts of the abstracts `members`, in no fixed order. */
  ghost function SumCountsOf(abstracts: seq<Abstract>, members: set<nat>): Counts
    requires forall j :: j in members ==> j < |abstracts|
    decreases members
  {
    if members == {} then map[]
    else
      var j :| j in members;
      Update(abstracts[j].counts, SumCountsOf(abstracts, members - {j}))
  }

  /** The sum may take any member first. */
  lemma {:induction false} SumCountsPick(abstracts: seq<Abstract>, members: set<nat>, j: nat)
    requires forall k :: k in members ==> k < |abstracts|
    requires j in members
    ensures SumCountsOf(abstracts, members) == Update(abstracts[j].counts, SumCountsOf(abstracts, members - {j}))
    decreases members
  {
    var u :| u in members && SumCountsOf(abstracts, members) ==
      Update(abstracts[u].counts, SumCountsOf(abstracts, members - {u}));
    if u != j {
      var rest := members - {u} - {j};
      assert members - {j} - {u} == rest;
      SumCountsPick(abstracts, members - {u}, j);
      SumCountsPick(abstracts, members - {j}, u);
      var cu, cj, s := abstracts[u].counts, abstracts[j].counts, SumCountsOf(abstracts, rest);
      calc {
        Update(cu, Update(cj, s));
        { UpdateAssociates(cu, cj, s); }
        Update(Update(cu, cj), s);
        { UpdateCommutes(cu, cj); }
        Update(Update(cj, cu), s);
        { UpdateAssociates(cj, cu, s); }
        Update(cj, Update(cu, s));
      }
    }
  }

  /**
   * The build loop's containers after the abstracts below `x`: one cluster
   * per queued root, in the same order and all different; the roots are
   * exactly the assigned abstracts.
   */
  ghost predicate Seeded(s: BuildState, x: nat)
  {
    && |s.clusters| == |s.agenda|
    && s.clusterOf.Keys == Elems(s.agenda)
    && (forall j :: j in s.clusterOf ==> j < x)
    && (forall i :: 0 <= i < |s.agenda| ==> s.clusterOf[s.agenda[i]] == s.clusters[i])
    && Distinct(s.clusters)
  }

  /** One build step keeps `Seeded`: either nothing is queued, or `x` is queued with a new cluster. */
  lemma SeededStep(s: BuildState, s': BuildState, x: nat)
    requires Seeded(s, x)
    requires
      || (s'.clusters == s.clusters && s'.clusterOf == s.clusterOf && s'.agenda == s.agenda)
      || (&& s'.agenda == s.agenda + [x]
          && |s'.clusters| == |s.clusters| + 1 && s'.clusters[..|s.clusters|] == s.clusters
          && s'.clusters[|s.clusters|] !in s.clusters
          && s'.clusterOf == s.clusterOf[x := s'.clusters[|s.clusters|]])
    ensures Seeded(s', x + 1)
  {
    if s'.agenda != s.agenda {
      var n := |s.clusters|;
      assert x !in s.clusterOf;
      forall y | y in s'.agenda
        ensures y in s'.clusterOf
      {
        if y != x {
          var i :| 0 <= i < |s'.agenda| && s'.agenda[i] == y;
          assert i < n && s.agenda[i] == y;
        }
      }
      forall i | 0 <= i < |s'.agenda|
        ensures s'.clusterOf[s'.agenda[i]] == s'.clusters[i]
      {
        if i < n {
          assert s'.agenda[i] == s.agenda[i] && s.agenda[i] != x;
          assert s'.clusters[i] == s.clusters[i];
        }
      }
      forall i, k | 0 <= i < k < |s'.clusters|
        ensures s'.clusters[i] != s'.clusters[k]
      {
        assert s'.clusters[i] == s.clusters[i];
        if k < n {
          assert s'.clusters[k] == s.clusters[k];
        }
      }
    }
  }

  /** The clusters the build assigns are the ones it lists. */
  lemma SeededValues(s: BuildState, x: nat)
    requires Seeded(s, x)
    ensures s.clusterOf.Values == Elems(s.clusters)
  {
    forall c | c in s.clusterOf.Values
      ensures c in s.clusters
    {
      var j :| j in s.clusterOf && s.clusterOf[j] == c;
      var i :| 0 <= i < |s.agenda| && s.agenda[i] == j;
    }
    forall c | c in s.clusters
      ensures c in s.clusterOf.Values
    {
      var i :| 0 <= i < |s.clusters| && s.clusters[i] == c;
      assert s.agenda[i] in s.clusterOf;
    }
  }

  /** Clusters as `Cluster(cluster_id=len(clusters))` leaves them: numbered by position, nothing absorbed. */
  ghost predicate Blank(clusters: seq<Cluster>)
    reads Elems(clusters)
  {
    forall i :: 0 <= i < |clusters| ==>
      clusters[i].id == i && clusters[i].counts == map[] && clusters[i].numAbstracts == 0
  }

  /** Appending a new cluster numbered by its position keeps the clusters `Blank`. */
  lemma BlankStep(clusters: seq<Cluster>, c: Cluster)
    requires Blank(clusters)
    requires c.id == |clusters| && c.counts == map[] && c.numAbstracts == 0
    ensures Blank(clusters + [c])
  {
    forall i | 0 <= i < |clusters| + 1
      ensures (clusters + [c])[i].id == i
    {
      if i < |clusters| {
        assert (clusters + [c])[i] == clusters[i];
      }
    }
  }

  /**
   * `_build_assignment_tree` for abstract `x`: find its best match; if that
   * match is already a child of `x` the two are mutual best matches, and `x`
   * is queued as a root with a new cluster whose id is the number of
   * clusters so far; otherwise `x` is recorded as a child of its best match
   * and nothing else changes.
   */
  method BuildAssignmentTree(abstracts: seq<Abstract>, score: ScoreFn, x: nat, s: BuildState)
    returns (r: Result<BuildState, ClusteringError>)
    requires x < |abstracts|
    ensures r.Failure? <==> |abstracts| == 1
    ensures r.Success? && Blank(s.clusters) ==> Blank(r.value.clusters)
    ensures r.Success? && Seeded(s, x) ==> Seeded(r.value, x + 1)
    ensures r.Success? ==> |s.clusters| <= |r.value.clusters| && r.value.clusters[..|s.clusters|] == s.clusters
    ensures r.Success? ==> forall i :: |s.clusters| <= i < |r.value.clusters| ==> fresh(r.value.clusters[i])
    ensures r.Success? ==>
      Forest(r.value.childrenOf, r.value.agenda) == BuildStep(abstracts, score, Forest(s.childrenOf, s.agenda), x)
    ensures r.Success? && Best(abstracts, score, x) in Children(s.childrenOf, x) ==>
      && r.value.childrenOf == s.childrenOf
      && r.value.agenda == s.agenda + [x]
      && |r.value.clusters| == |s.clusters| + 1
      && r.value.clusters[..|s.clusters|] == s.clusters
      && fresh(r.value.clusters[|s.clusters|])
      && r.value.clusters[|s.clusters|].id == |s.clusters|
      && r.value.clusters[|s.clusters|].counts == map[]
      && r.value.clusters[|s.clusters|].numAbstracts == 0
      && r.value.clusterOf == s.clusterOf[x := r.value.clusters[|s.clusters|]]
    ensures r.Success? && Best(abstracts, score, x) !in Children(s.childrenOf, x) ==>
      var b := Best(abstracts, score, x);
      r.value == s.(childrenOf := s.childrenOf[b := Children(s.childrenOf, b) + {x}])
  {
    var best := BestMatch(abstracts, score, x);
    if best.None? {
      return Failure(NoOtherAbstract);
    }
    var b := best.value;
    if b in Children(s.childrenOf, x) {
      var cluster := new Cluster(|s.clusters|);
      if Blank(s.clusters) {
        BlankStep(s.clusters, cluster);
      }
      r := Success(BuildState(s.clusters + [cluster], s.clusterOf[x := cluster], s.childrenOf, s.agenda + [x]));
      if Seeded(s, x) {
        SeededStep(s, r.value, x);
      }
    } else {
      r := Success(s.(childrenOf := s.childrenOf[b := Children(s.childrenOf, b) + {x}]));
    }
  }

  /**
   * The inner loop of the traversal: every child gets `cluster` and is
   * appended to the agenda, in no particular order (the source iterates a
   * set).
   */
  method AssignChildren(children: set<nat>, cluster: Cluster, clusterOf: map<nat, Cluster>, agenda: seq<nat>)
    returns (clusterOf': map<nat, Cluster>, agenda': seq<nat>)
    ensures clusterOf'.Keys == clusterOf.Keys + children
    ensures forall j :: j in children ==> clusterOf'[j] == cluster
    ensures forall j :: j in clusterOf && j !in children ==> clusterOf'[j] == clusterOf[j]
    ensures |agenda'| >= |agenda| && agenda'[..|agenda|] == agenda
    ensures Distinct(agenda'[|agenda|..]) && Elems(agenda'[|agenda|..]) == children
  {
    clusterOf', agenda' := clusterOf, agenda;
    ghost var added: seq<nat> := [];
    var remaining := children;
    while remaining != {}
      invariant remaining <= children
      invariant clusterOf'.Keys == clusterOf.Keys + (children - remaining)
      invariant forall j :: j in children - remaining ==> clusterOf'[j] == cluster
      invariant forall j :: j in clusterOf && j !in children - remaining ==> clusterOf'[j] == clusterOf[j]
      invariant agenda' == agenda + added
      invariant Distinct(added) && Elems(added) == children - remaining
      decreases remaining
    {
      var child :| child in remaining;
      clusterOf' := clusterOf'[child := cluster];
      agenda' := agenda' + [child];
      added := added + [child];
      remaining := remaining - {child};
    }
    assert agenda'[|agenda|..] == added;
  }

  /**
   * The shape the build loop hands to the traversal (`n` abstracts): each
   * child has exactly one parent and is not already assigned, and the agenda
   * lists the assigned abstracts (the roots) once each.
   */
  ghost predicate IsForest(n: nat, childrenOf: map<nat, set<nat>>, agenda: seq<nat>, clusterOf: map<nat, Cluster>)
  {
    && OneParent(n, childrenOf, clusterOf)
    && Distinct(agenda)
    && Elems(agenda) == clusterOf.Keys
    && (forall j :: j in clusterOf ==> j < n)
  }

  /** Each child is below `n`, has exactly one parent and is not among the roots `clusterOf` assigns. */
  ghost predicate OneParent(n: nat, childrenOf: map<nat, set<nat>>, clusterOf: map<nat, Cluster>)
  {
    && (forall p: nat, j: nat {:trigger j in Children(childrenOf, p)} :: j in Children(childrenOf, p) ==> j < n && j !in clusterOf)
    && (forall p: nat, q: nat, j: nat :: j in Children(childrenOf, p) && j in Children(childrenOf, q) ==> p == q)
  }

  /** Every assigned abstract is either processed or waiting, once, on the agenda. */
  ghost predicate AgendaInv(n: nat, agenda: seq<nat>, clusterOf: map<nat, Cluster>, processed: set<nat>)
  {
    && Distinct(agenda)
    && Elems(agenda) !! processed
    && Elems(agenda) + processed == clusterOf.Keys
    && (forall j :: j in clusterOf ==> j < n)
  }

  /**
   * The assigned abstracts are the roots and the children of processed
   * abstracts; roots keep their cluster; every cluster is a root's.
   */
  ghost predicate ReachInv(childrenOf: map<nat, set<nat>>, clusterOf0: map<nat, Cluster>,
                           clusterOf: map<nat, Cluster>, processed: set<nat>)
  {
    && (forall j: nat :: j in clusterOf <==> j in clusterOf0 || exists p :: p in processed && j in Children(childrenOf, p))
    && (forall j :: j in clusterOf0 ==> j in clusterOf && clusterOf[j] == clusterOf0[j])
    && (forall j :: j in clusterOf ==> clusterOf[j] in clusterOf0.Values)
  }

  /** `j` shares `p`'s cluster and sits one level below it. */
  ghost predicate JoinedBelow(clusterOf: map<nat, Cluster>, depth: map<nat, nat>, p: nat, j: nat)
  {
    p in clusterOf && j in clusterOf && p in depth && j in depth &&
    clusterOf[j] == clusterOf[p] && depth[j] == depth[p] + 1
  }

  /** A processed abstract's children share its cluster and sit one level below it. */
  ghost predicate PropagateInv(childrenOf: map<nat, set<nat>>, clusterOf0: map<nat, Cluster>,
                               clusterOf: map<nat, Cluster>, processed: set<nat>, depth: map<nat, nat>)
  {
    && depth.Keys == clusterOf.Keys
    && (forall j :: j in clusterOf0 ==> j in depth && depth[j] == 0)
    && (forall p: nat, j: nat :: p in processed && j in Children(childrenOf, p) ==> JoinedBelow(clusterOf, depth, p, j))
  }

  /** What the traversal loop keeps, apart from the clusters' counters. */
  ghost predicate TraversalInv(n: nat, childrenOf: map<nat, set<nat>>, clusterOf0: map<nat, Cluster>,
                               agenda: seq<nat>, clusterOf: map<nat, Cluster>, processed: set<nat>,
                               depth: map<nat, nat>)
  {
    && AgendaInv(n, agenda, clusterOf, processed)
    && ReachInv(childrenOf, clusterOf0, clusterOf, processed)
    && PropagateInv(childrenOf, clusterOf0, clusterOf, processed, depth)
  }

  /** Processing one more assigned abstract `p` adds `p` to its cluster's members and nothing else. */
  lemma MembersStep(m: map<nat, Cluster>, m': map<nat, Cluster>, among: set<nat>, p: nat, c: Cluster)
    requires among + {p} <= m.Keys && p !in among
    requires forall j :: j in m ==> j in m' && m'[j] == m[j]
    ensures p !in MembersIn(m, among, c)
    ensures MembersIn(m', among + {p}, c) ==
      if m[p] == c then MembersIn(m, among, c) + {p} else MembersIn(m, among, c)
  {
  }

  /** The children of an unprocessed abstract are not assigned yet. */
  lemma KidsUnassigned(n: nat, childrenOf: map<nat, set<nat>>, clusterOf0: map<nat, Cluster>,
                       clusterOf: map<nat, Cluster>, processed: set<nat>, parent: nat)
    requires OneParent(n, childrenOf, clusterOf0)
    requires ReachInv(childrenOf, clusterOf0, clusterOf, processed)
    requires parent !in processed
    ensures Children(childrenOf, parent) !! clusterOf.Keys
  {
    forall j | j in Children(childrenOf, parent)
      ensures j !in clusterOf
    {
      forall q | q in processed
        ensures j !in Children(childrenOf, q)
      {
        assert q != parent;
      }
    }
  }

  /** Popping the head and appending fresh, distinct children keeps every assigned abstract accounted for once. */
  lemma AgendaStep(n: nat, agenda: seq<nat>, clusterOf: map<nat, Cluster>, processed: set<nat>,
                   kids: set<nat>, agenda': seq<nat>, clusterOf': map<nat, Cluster>)
    requires AgendaInv(n, agenda, clusterOf, processed)
    requires agenda != [] && agenda[0] !in processed
    requires kids !! clusterOf.Keys && forall j :: j in kids ==> j < n
    requires clusterOf'.Keys == clusterOf.Keys + kids
    requires |agenda'| >= |agenda| - 1 && agenda'[..|agenda| - 1] == agenda[1..]
    requires Distinct(agenda'[|agenda| - 1..]) && Elems(agenda'[|agenda| - 1..]) == kids
    ensures AgendaInv(n, agenda', clusterOf', processed + {agenda[0]})
  {
    var parent, rest, added := agenda[0], agenda[1..], agenda'[|agenda| - 1..];
    assert agenda' == rest + added;
    assert Elems(rest) + {parent} == Elems(agenda) by {
      assert agenda == [parent] + rest;
    }
    assert Distinct(agenda') by {
      forall i, k | 0 <= i < k < |agenda'|
        ensures agenda'[i] != agenda'[k]
      {
        if k >= |rest| && i < |rest| {
          assert agenda'[i] == rest[i] && rest[i] in Elems(rest);
          assert agenda'[k] == added[k - |rest|] && added[k - |rest|] in Elems(added);
        } else if i < |rest| {
          assert agenda'[i] == agenda[i + 1] && agenda'[k] == agenda[k + 1];
        } else {
          assert agenda'[i] == added[i - |rest|] && agenda'[k] == added[k - |rest|];
        }
      }
    }
    ElemsConcat(rest, added);
  }

  lemma ElemsConcat<T>(a: seq<T>, b: seq<T>)
    ensures Elems(a + b) == Elems(a) + Elems(b)
  {
    forall x | x in Elems(a + b)
      ensures x in Elems(a) + Elems(b)
    {
      var i :| 0 <= i < |a + b| && (a + b)[i] == x;
      if i < |a| { assert a[i] == x; } else { assert b[i - |a|] == x; }
    }
    forall x | x in Elems(a) + Elems(b)
      ensures x in Elems(a + b)
    {
      if x in Elems(a) {
        var i :| 0 <= i < |a| && a[i] == x;
        assert (a + b)[i] == x;
      } else {
        var i :| 0 <= i < |b| && b[i] == x;
        assert (a + b)[|a| + i] == x;
      }
    }
  }

  /** The assignment `clusterOf'` made by processing `parent`: its children join its cluster. */
  ghost predicate ChildrenJoin(childrenOf: map<nat, set<nat>>, clusterOf: map<nat, Cluster>, parent: nat,
                               clusterOf': map<nat, Cluster>)
  {
    var kids := Children(childrenOf, parent);
    && parent in clusterOf
    && clusterOf'.Keys == clusterOf.Keys + kids
    && (forall j :: j in kids ==> clusterOf'[j] == clusterOf[parent])
    && (forall j :: j in clusterOf && j !in kids ==> clusterOf'[j] == clusterOf[j])
  }

  /** Processing `parent` keeps the reach invariant. */
  lemma ReachStep(childrenOf: map<nat, set<nat>>, clusterOf0: map<nat, Cluster>,
                  clusterOf: map<nat, Cluster>, processed: set<nat>, parent: nat, clusterOf': map<nat, Cluster>)
    requires ReachInv(childrenOf, clusterOf0, clusterOf, processed)
    requires parent in clusterOf && parent !in processed
    requires Children(childrenOf, parent) !! clusterOf.Keys
    requires ChildrenJoin(childrenOf, clusterOf, parent, clusterOf')
    ensures ReachInv(childrenOf, clusterOf0, clusterOf', processed + {parent})
  {
    var kids := Children(childrenOf, parent);
    var processed' := processed + {parent};
    forall j: nat
      ensures j in clusterOf' <==> j in clusterOf0 || exists p :: p in processed' && j in Children(childrenOf, p)
    {
      if j in kids {
        assert parent in processed' && j in Children(childrenOf, parent);
      }
    }
  }

  /** The depths `depth'` after processing `parent`: its children sit one level below it. */
  ghost predicate ChildrenDeeper(childrenOf: map<nat, set<nat>>, depth: map<nat, nat>, parent: nat,
                                 depth': map<nat, nat>)
  {
    var kids := Children(childrenOf, parent);
    && parent in depth
    && depth'.Keys == depth.Keys + kids
    && (forall j :: j in kids ==> depth'[j] == depth[parent] + 1)
    && (forall j :: j in depth && j !in kids ==> depth'[j] == depth[j])
  }

  /** Processing `parent` keeps the propagation invariant. */
  lemma PropagateStep(childrenOf: map<nat, set<nat>>, clusterOf0: map<nat, Cluster>,
                      clusterOf: map<nat, Cluster>, processed: set<nat>, depth: map<nat, nat>, parent: nat,
                      clusterOf': map<nat, Cluster>, depth': map<nat, nat>)
    requires PropagateInv(childrenOf, clusterOf0, clusterOf, processed, depth)
    requires parent in clusterOf && parent !in processed
    requires Children(childrenOf, parent) !! clusterOf.Keys
    requires ChildrenJoin(childrenOf, clusterOf, parent, clusterOf')
    requires ChildrenDeeper(childrenOf, depth, parent, depth')
    ensures PropagateInv(childrenOf, clusterOf0, clusterOf', processed + {parent}, depth')
  {
    var kids := Children(childrenOf, parent);
    assert depth'.Keys == clusterOf'.Keys;
    forall j | j in clusterOf0
      ensures j in depth' && depth'[j] == 0
    {
      assert j in depth && j !in kids;
    }
    forall p: nat, j: nat | p in processed + {parent} && j in Children(childrenOf, p)
      ensures JoinedBelow(clusterOf', depth', p, j)
    {
      if p == parent {
        assert j in kids && parent !in kids;
        assert clusterOf'[j] == clusterOf[parent] == clusterOf'[parent];
        assert depth'[j] == depth[parent] + 1 && depth'[parent] == depth[parent];
      } else {
        assert p in processed;
        assert p in clusterOf && j in clusterOf;
        assert clusterOf[j] == clusterOf[p] && depth[j] == depth[p] + 1;
        assert j !in kids && p !in kids;
        assert clusterOf'[j] == clusterOf[j] && clusterOf'[p] == clusterOf[p];
        assert depth'[j] == depth[j] && depth'[p] == depth[p];
      }
    }
  }

  /** `agenda'` is `agenda` without its head, followed by the children `kids`, once each. */
  ghost predicate Requeued(agenda: seq<nat>, kids: set<nat>, agenda': seq<nat>)
  {
    && agenda != []
    && |agenda'| >= |agenda| - 1 && agenda'[..|agenda| - 1] == agenda[1..]
    && Distinct(agenda'[|agenda| - 1..]) && Elems(agenda'[|agenda| - 1..]) == kids
  }

  /** The depths after processing `parent` meet `ChildrenDeeper`. */
  lemma DeeperUpdate(childrenOf: map<nat, set<nat>>, depth: map<nat, nat>, parent: nat)
    requires parent in depth
    ensures ChildrenDeeper(childrenOf, depth, parent, depth + map j | j in Children(childrenOf, parent) :: depth[parent] + 1)
  {
  }

  /** The agenda's head, when not processed yet, is assigned and its children are not. */
  lemma VisitReady(n: nat, childrenOf: map<nat, set<nat>>, clusterOf0: map<nat, Cluster>,
                   agenda: seq<nat>, clusterOf: map<nat, Cluster>, processed: set<nat>, depth: map<nat, nat>)
    requires OneParent(n, childrenOf, clusterOf0)
    requires TraversalInv(n, childrenOf, clusterOf0, agenda, clusterOf, processed, depth)
    requires agenda != [] && agenda[0] !in processed
    ensures agenda[0] in clusterOf && agenda[0] in depth
    ensures Children(childrenOf, agenda[0]) !! clusterOf.Keys
  {
    assert agenda[0] in Elems(agenda);
    KidsUnassigned(n, childrenOf, clusterOf0, clusterOf, processed, agenda[0]);
  }

  /** Processing `parent` keeps everything the traversal loop keeps, apart from the counters. */
  lemma VisitStep(n: nat, childrenOf: map<nat, set<nat>>, clusterOf0: map<nat, Cluster>,
                  agenda: seq<nat>, clusterOf: map<nat, Cluster>, processed: set<nat>, depth: map<nat, nat>,
                  agenda': seq<nat>, clusterOf': map<nat, Cluster>, depth': map<nat, nat>)
    requires OneParent(n, childrenOf, clusterOf0)
    requires TraversalInv(n, childrenOf, clusterOf0, agenda, clusterOf, processed, depth)
    requires agenda != [] && agenda[0] !in processed
    requires Requeued(agenda, Children(childrenOf, agenda[0]), agenda')
    requires ChildrenJoin(childrenOf, clusterOf, agenda[0], clusterOf')
    requires ChildrenDeeper(childrenOf, depth, agenda[0], depth')
    ensures TraversalInv(n, childrenOf, clusterOf0, agenda', clusterOf', processed + {agenda[0]}, depth')
  {
    var parent := agenda[0];
    var kids := Children(childrenOf, parent);
    KidsUnassigned(n, childrenOf, clusterOf0, clusterOf, processed, parent);
    AgendaStep(n, agenda, clusterOf, processed, kids, agenda', clusterOf');
    ReachStep(childrenOf, clusterOf0, clusterOf, processed, parent, clusterOf');
    PropagateStep(childrenOf, clusterOf0, clusterOf, processed, depth, parent, clusterOf', depth');
  }

  /**
   * A cluster's counters `num`, `counts` are its initial ones `num0`,
   * `counts0` plus, for each abstract among `processed` assigned to `c`, one
   * abstract and that abstract's counts.
   */
  ghost predicate Tallied(abstracts: seq<Abstract>, clusterOf: map<nat, Cluster>, processed: set<nat>, c: Cluster,
                          num0: nat, counts0: Counts, num: nat, counts: Counts)
  {
    && (forall j :: j in clusterOf ==> j < |abstracts|)
    && num == num0 + |MembersIn(clusterOf, processed, c)|
    && counts == Update(counts0, SumCountsOf(abstracts, MembersIn(clusterOf, processed, c)))
  }

  /** Every cluster among `clusters` is tallied against its initial counters `num0`, `counts0`. */
  ghost predicate AllTallied(abstracts: seq<Abstract>, clusters: set<Cluster>, clusterOf: map<nat, Cluster>,
                             processed: set<nat>, num0: map<Cluster, nat>, counts0: map<Cluster, Counts>)
    reads clusters
  {
    forall c :: c in clusters ==>
      (c in num0 && c in counts0 && Tallied(abstracts, clusterOf, processed, c, num0[c], counts0[c], c.numAbstracts, c.counts))
  }

  /** Before anything is processed, every cluster is tallied at its initial counters. */
  lemma TalliedNone(abstracts: seq<Abstract>, clusterOf: map<nat, Cluster>, c: Cluster, num: nat, counts: Counts)
    requires forall j :: j in clusterOf ==> j < |abstracts|
    ensures Tallied(abstracts, clusterOf, {}, c, num, counts, num, counts)
  {
    assert MembersIn(clusterOf, {}, c) == {};
    UpdateEmptyRight(counts);
  }

  /**
   * Processing `parent` adds its counts to its own cluster's running total
   * and leaves every other cluster's as it was: each cluster stays tallied.
   */
  lemma CounterStep(abstracts: seq<Abstract>, clusterOf: map<nat, Cluster>, clusterOf': map<nat, Cluster>,
                    processed: set<nat>, parent: nat, c: Cluster,
                    num0: nat, counts0: Counts, num: nat, counts: Counts, num': nat, counts': Counts)
    requires parent !in processed && processed + {parent} <= clusterOf.Keys
    requires forall j :: j in clusterOf' ==> j < |abstracts|
    requires forall j :: j in clusterOf ==> j in clusterOf' && clusterOf'[j] == clusterOf[j]
    requires Tallied(abstracts, clusterOf, processed, c, num0, counts0, num, counts)
    requires clusterOf[parent] == c ==> num' == num + 1 && counts' == Update(counts, abstracts[parent].counts)
    requires clusterOf[parent] != c ==> num' == num && counts' == counts
    ensures Tallied(abstracts, clusterOf', processed + {parent}, c, num0, counts0, num', counts')
  {
    var before := MembersIn(clusterOf, processed, c);
    MembersStep(clusterOf, clusterOf', processed, parent, c);
    if clusterOf[parent] == c {
      var pc := abstracts[parent].counts;
      var sum := SumCountsOf(abstracts, before);
      SumCountsPick(abstracts, before + {parent}, parent);
      assert before + {parent} - {parent} == before;
      UpdateAssociates(counts0, sum, pc);
      UpdateCommutes(sum, pc);
    }
  }

  /** Unvisited indices below `n`: shrinks each time an abstract is processed. */
  ghost function Unvisited(n: nat, processed: set<nat>): set<nat>
  {
    set j: nat | j < n && j !in processed
  }

  /**
   * `j` is assigned a cluster. Quantifiers guarded by this rather than by
   * `j in clusterOf` fire only where a proof names it, which keeps "every
   * assigned abstract has an assigned parent" from unfolding without end.
   */
  ghost predicate Assigned(clusterOf: map<nat, Cluster>, j: nat)
  {
    j in clusterOf
  }

  /**
   * What the traversal leaves behind: the assigned abstracts are the roots
   * and every child of an assigned abstract; roots keep their cluster; every
   * child shares its parent's cluster one level below it; clusters are the
   * roots' clusters.
   */
  ghost predicate Traversed(n: nat, childrenOf: map<nat, set<nat>>, clusterOf0: map<nat, Cluster>,
                            clusterOf: map<nat, Cluster>, depth: map<nat, nat>)
  {
    && (forall j: nat :: Assigned(clusterOf, j) ==> j in clusterOf0 || exists p :: p in clusterOf && j in Children(childrenOf, p))
    && (forall j :: j in clusterOf ==> j < n && clusterOf[j] in clusterOf0.Values)
    && (forall j :: j in clusterOf0 ==> j in clusterOf && clusterOf[j] == clusterOf0[j])
    && depth.Keys == clusterOf.Keys
    && (forall j :: j in clusterOf0 ==> j in depth && depth[j] == 0)
    && (forall p: nat, j: nat :: p in clusterOf && j in Children(childrenOf, p) ==> JoinedBelow(clusterOf, depth, p, j))
  }

  /** Once the agenda is empty every assigned abstract has been processed, and the traversal is done. */
  lemma TraversalEnd(n: nat, childrenOf: map<nat, set<nat>>, clusterOf0: map<nat, Cluster>,
                     clusterOf: map<nat, Cluster>, processed: set<nat>, depth: map<nat, nat>)
    requires TraversalInv(n, childrenOf, clusterOf0, [], clusterOf, processed, depth)
    ensures processed == clusterOf.Keys
    ensures Traversed(n, childrenOf, clusterOf0, clusterOf, depth)
  {
    assert Elems<nat>([]) == {};
  }

  /** The traversal loop's invariant holds on entry. */
  lemma TraversalStart(n: nat, childrenOf: map<nat, set<nat>>, agenda0: seq<nat>, clusterOf0: map<nat, Cluster>)
    requires IsForest(n, childrenOf, agenda0, clusterOf0)
    ensures TraversalInv(n, childrenOf, clusterOf0, agenda0, clusterOf0, {}, map j | j in clusterOf0 :: 0)
  {
  }

  lemma UnvisitedShrinks(n: nat, processed: set<nat>, parent: nat)
    requires parent < n && parent !in processed
    ensures Unvisited(n, processed + {parent}) < Unvisited(n, processed)
  {
    assert parent in Unvisited(n, processed);
  }

  /**
   * The assignment half of visiting `parent`, the agenda's head: pop it,
   * give each of its children its cluster and queue the child.
   */
  method Requeue(childrenOf: map<nat, set<nat>>, agenda: seq<nat>, clusterOf: map<nat, Cluster>,
                 ghost depth: map<nat, nat>)
    returns (agenda': seq<nat>, clusterOf': map<nat, Cluster>, ghost depth': map<nat, nat>)
    requires agenda != [] && agenda[0] in clusterOf && agenda[0] in depth
    requires Children(childrenOf, agenda[0]) !! clusterOf.Keys
    ensures Requeued(agenda, Children(childrenOf, agenda[0]), agenda')
    ensures ChildrenJoin(childrenOf, clusterOf, agenda[0], clusterOf')
    ensures ChildrenDeeper(childrenOf, depth, agenda[0], depth')
    ensures forall j :: j in clusterOf ==> j in clusterOf' && clusterOf'[j] == clusterOf[j]
  {
    var parent := agenda[0];
    var kids := Children(childrenOf, parent);
    clusterOf', agenda' := AssignChildren(kids, clusterOf[parent], clusterOf, agenda[1..]);
    depth' := depth + map j | j in kids :: depth[parent] + 1;
    DeeperUpdate(childrenOf, depth, parent);
  }

  /**
   * One iteration of `_traverse_assignment_tree` on an abstract `parent`
   * not processed yet, the agenda's head: fold its counts into its cluster,
   * then requeue.
   */
  method Visit(abstracts: seq<Abstract>, childrenOf: map<nat, set<nat>>, ghost clusterOf0: map<nat, Cluster>,
               agenda: seq<nat>, clusterOf: map<nat, Cluster>, ghost processed: set<nat>, ghost depth: map<nat, nat>,
               ghost num0: map<Cluster, nat>, ghost counts0: map<Cluster, Counts>)
    returns (agenda': seq<nat>, clusterOf': map<nat, Cluster>, ghost depth': map<nat, nat>)
    requires OneParent(|abstracts|, childrenOf, clusterOf0)
    requires TraversalInv(|abstracts|, childrenOf, clusterOf0, agenda, clusterOf, processed, depth)
    requires agenda != [] && agenda[0] !in processed
    requires AllTallied(abstracts, clusterOf0.Values, clusterOf, processed, num0, counts0)
    modifies clusterOf[agenda[0]]
    ensures TraversalInv(|abstracts|, childrenOf, clusterOf0, agenda', clusterOf', processed + {agenda[0]}, depth')
    ensures AllTallied(abstracts, clusterOf0.Values, clusterOf', processed + {agenda[0]}, num0, counts0)
  {
    var parent := agenda[0];
    assert parent in Elems(agenda);
    ghost var num1 := map c | c in clusterOf0.Values :: c.numAbstracts;
    ghost var counts1 := map c | c in clusterOf0.Values :: c.counts;
    clusterOf[parent].AddCountsFromAbstract(abstracts[parent]);
    VisitReady(|abstracts|, childrenOf, clusterOf0, agenda, clusterOf, processed, depth);
    agenda', clusterOf', depth' := Requeue(childrenOf, agenda, clusterOf, depth);
    VisitStep(|abstracts|, childrenOf, clusterOf0, agenda, clusterOf, processed, depth, agenda', clusterOf', depth');
    forall c | c in clusterOf0.Values
      ensures c in num0 && c in counts0
      ensures Tallied(abstracts, clusterOf', processed + {parent}, c, num0[c], counts0[c], c.numAbstracts, c.counts)
    {
      CounterStep(abstracts, clusterOf, clusterOf', processed, parent, c,
                  num0[c], counts0[c], num1[c], counts1[c], c.numAbstracts, c.counts);
    }
  }

  /** The front of the agenda is an assigned abstract not yet processed. */
  lemma AgendaFront(n: nat, childrenOf: map<nat, set<nat>>, clusterOf0: map<nat, Cluster>, agenda: seq<nat>,
                    clusterOf: map<nat, Cluster>, processed: set<nat>, depth: map<nat, nat>)
    requires TraversalInv(n, childrenOf, clusterOf0, agenda, clusterOf, processed, depth) && agenda != []
    ensures agenda[0] !in processed && agenda[0] in Elems(agenda)
    ensures agenda[0] in clusterOf && clusterOf[agenda[0]] in clusterOf0.Values
  {
    assert agenda[0] in Elems(agenda);
  }

  /**
   * `_traverse_assignment_tree`: pop abstracts from the agenda front; skip
   * one already processed; otherwise visit it. On return every abstract
   * reachable from a root is assigned, each child shares its parent's
   * cluster, and each cluster has absorbed one abstract and that abstract's
   * counts per member. `depth` is ghost bookkeeping: how many parent steps
   * separate an abstract from its root.
   */
  method TraverseAssignmentTree(abstracts: seq<Abstract>, agenda0: seq<nat>, clusterOf0: map<nat, Cluster>,
                                childrenOf: map<nat, set<nat>>)
    returns (clusterOf: map<nat, Cluster>, ghost depth: map<nat, nat>)
    requires IsForest(|abstracts|, childrenOf, agenda0, clusterOf0)
    modifies clusterOf0.Values
    ensures Traversed(|abstracts|, childrenOf, clusterOf0, clusterOf, depth)
    ensures forall c :: c in clusterOf0.Values ==>
      && c.numAbstracts == old(c.numAbstracts) + |MembersIn(clusterOf, clusterOf.Keys, c)|
      && c.counts == Update(old(c.counts), SumCountsOf(abstracts, MembersIn(clusterOf, clusterOf.Keys, c)))
  {
    var agenda := agenda0;
    clusterOf := clusterOf0;
    depth := map j | j in clusterOf0 :: 0;
    var processed: set<nat> := {};
    ghost var num0 := map c | c in clusterOf0.Values :: c.numAbstracts;
    ghost var counts0 := map c | c in clusterOf0.Values :: c.counts;
    TraversalStart(|abstracts|, childrenOf, agenda0, clusterOf0);
    forall c | c in clusterOf0.Values
      ensures c in num0 && c in counts0 && Tallied(abstracts, clusterOf, {}, c, num0[c], counts0[c], c.numAbstracts, c.counts)
    {
      TalliedNone(abstracts, clusterOf0, c, c.numAbstracts, c.counts);
    }
    assert AllTallied(abstracts, clusterOf0.Values, clusterOf, processed, num0, counts0);
    while agenda != []
      invariant TraversalInv(|abstracts|, childrenOf, clusterOf0, agenda, clusterOf, processed, depth)
      invariant AllTallied(abstracts, clusterOf0.Values, clusterOf, processed, num0, counts0)
      decreases Unvisited(|abstracts|, processed), |agenda|
    {
      var parent: nat := agenda[0];
      AgendaFront(|abstracts|, childrenOf, clusterOf0, agenda, clusterOf, processed, depth);
      if parent in processed {
        // The source skips an abstract it has already processed; on a forest
        // the agenda never holds one.
        assert false;
      }
      UnvisitedShrinks(|abstracts|, processed, parent);
      agenda, clusterOf, depth := Visit(abstracts, childrenOf, clusterOf0, agenda, clusterOf, processed, depth,
                                        num0, counts0);
      processed := processed + {parent};
    }
    TraversalEnd(|abstracts|, childrenOf, clusterOf0, clusterOf, processed, depth);
  }

  /** The build loop leaves a forest for the traversal, with the roots as the assigned abstracts. */
  lemma BuiltIsForest(abstracts: seq<Abstract>, score: ScoreFn, clusterOf: map<nat, Cluster>)
    requires 2 <= |abstracts|
    requires clusterOf.Keys == Elems(BuildForest(abstracts, score).roots)
    ensures var f := BuildForest(abstracts, score);
      IsForest(|abstracts|, f.childrenOf, f.roots, clusterOf)
  {
    var f := BuildForest(abstracts, score);
    BuildForestShape(abstracts, score);
    forall p: nat, j: nat {:trigger j in Children(f.childrenOf, p)} | j in Children(f.childrenOf, p)
      ensures j < |abstracts| && j !in clusterOf
    {
      assert j < |abstracts|;
      assert !IsMutualRoot(abstracts, score, j);
    }
    forall i, k | 0 <= i < k < |f.roots|
      ensures f.roots[i] != f.roots[k]
    {
      assert f.roots[i] < f.roots[k];
    }
    forall j | j in clusterOf
      ensures j < |abstracts|
    {
      assert j in f.roots;
    }
  }

  /** Every child is linked by `up` to its parent, and nothing in `roots` is linked. */
  ghost predicate LinksUp(childrenOf: map<nat, set<nat>>, up: map<nat, nat>, roots: set<nat>)
  {
    && up.Keys !! roots
    && (forall p: nat, j: nat {:trigger j in Children(childrenOf, p)} ::
          j in Children(childrenOf, p) ==> j in up && up[j] == p)
  }

  /** Every abstract linked by `up` is a child of the abstract it is linked to. */
  ghost predicate LinksDown(childrenOf: map<nat, set<nat>>, up: map<nat, nat>)
  {
    forall j :: j in up ==> j in Children(childrenOf, up[j])
  }

  /** The build loop's forest holds exactly the best-match links, and its roots are the mutual roots. */
  lemma BuiltLinks(abstracts: seq<Abstract>, score: ScoreFn)
    requires 2 <= |abstracts|
    ensures var f := BuildForest(abstracts, score);
      && Elems(f.roots) == MutualRoots(abstracts, score)
      && LinksUp(f.childrenOf, BestLinks(abstracts, score), MutualRoots(abstracts, score))
      && LinksDown(f.childrenOf, BestLinks(abstracts, score))
  {
    var f := BuildForest(abstracts, score);
    var up, roots := BestLinks(abstracts, score), MutualRoots(abstracts, score);
    BuildForestShape(abstracts, score);
    forall p: nat, j: nat {:trigger j in Children(f.childrenOf, p)} | j in Children(f.childrenOf, p)
      ensures j in up && up[j] == p
    {
      assert j < |abstracts| && !IsMutualRoot(abstracts, score, j);
    }
    forall j | j in up
      ensures j in Children(f.childrenOf, up[j])
    {
      assert j < |abstracts| && !IsMutualRoot(abstracts, score, j);
    }
  }

  /**
   * Every assigned abstract is either an initial root, at depth 0, or is
   * linked by `up` to an assigned abstract one level above it, in its
   * cluster.
   */
  ghost predicate UpClosed(up: map<nat, nat>, roots: set<nat>, clusterOf0: map<nat, Cluster>,
                           clusterOf: map<nat, Cluster>, depth: map<nat, nat>)
  {
    forall j {:trigger Assigned(clusterOf, j)} :: Assigned(clusterOf, j) ==>
      && j in depth
      && (j in clusterOf0 ==> depth[j] == 0 && j in roots && clusterOf[j] == clusterOf0[j])
      && (j !in clusterOf0 ==> j in up && j !in roots && JoinedBelow(clusterOf, depth, up[j], j))
  }

  /** What the traversal leaves, read along the child-to-parent links. */
  lemma TraversedUpClosed(childrenOf: map<nat, set<nat>>, up: map<nat, nat>, roots: set<nat>,
                          n: nat, clusterOf0: map<nat, Cluster>, clusterOf: map<nat, Cluster>, depth: map<nat, nat>)
    requires LinksUp(childrenOf, up, roots) && clusterOf0.Keys <= roots
    requires Traversed(n, childrenOf, clusterOf0, clusterOf, depth)
    ensures UpClosed(up, roots, clusterOf0, clusterOf, depth)
  {
    forall j | Assigned(clusterOf, j) && j !in clusterOf0
      ensures j in up && j !in roots && JoinedBelow(clusterOf, depth, up[j], j)
    {
      var p: nat :| p in clusterOf && j in Children(childrenOf, p);
      assert JoinedBelow(clusterOf, depth, p, j);
    }
  }

  /**
   * Every abstract the traversal assigns is linked up to a root in
   * `depth[j]` steps and carries that root's cluster.
   */
  lemma {:induction false} AssignedIsLinked(up: map<nat, nat>, roots: set<nat>, clusterOf0: map<nat, Cluster>,
                                            clusterOf: map<nat, Cluster>, depth: map<nat, nat>, j: nat, d: nat)
    requires UpClosed(up, roots, clusterOf0, clusterOf, depth)
    requires j in clusterOf && j in depth && depth[j] == d
    ensures LinkedAt(up, roots, j, d)
    ensures LinkTop(up, j, d) in clusterOf0 && clusterOf[j] == clusterOf0[LinkTop(up, j, d)]
    decreases d
  {
    assert Assigned(clusterOf, j);
    if j !in clusterOf0 {
      AssignedIsLinked(up, roots, clusterOf0, clusterOf, depth, up[j], d - 1);
      LinkStep(up, roots, j, d);
    }
  }

  /** Every abstract linked up to a root is assigned by the traversal. */
  lemma {:induction false} LinkedIsAssigned(childrenOf: map<nat, set<nat>>, up: map<nat, nat>, roots: set<nat>,
                                            n: nat, clusterOf0: map<nat, Cluster>, clusterOf: map<nat, Cluster>,
                                            depth: map<nat, nat>, j: nat, d: nat)
    requires LinksDown(childrenOf, up) && roots <= clusterOf0.Keys
    requires Traversed(n, childrenOf, clusterOf0, clusterOf, depth)
    requires LinkedAt(up, roots, j, d)
    ensures j in clusterOf
    decreases d
  {
    if d > 0 {
      LinkedIsAssigned(childrenOf, up, roots, n, clusterOf0, clusterOf, depth, up[j], d - 1);
      assert j in Children(childrenOf, up[j]);
    }
  }

  /**
   * With parents and links in agreement, the traversal assigns exactly the
   * abstracts linked up to a root, each to the cluster of that root.
   */
  lemma TraversedIsLinked(childrenOf: map<nat, set<nat>>, up: map<nat, nat>, roots: set<nat>,
                          n: nat, clusterOf0: map<nat, Cluster>, clusterOf: map<nat, Cluster>, depth: map<nat, nat>)
    requires LinksUp(childrenOf, up, roots) && LinksDown(childrenOf, up) && clusterOf0.Keys == roots
    requires Traversed(n, childrenOf, clusterOf0, clusterOf, depth)
    ensures forall j: nat, d: nat :: LinkedAt(up, roots, j, d) ==> j in clusterOf
    ensures forall j: nat :: j in clusterOf ==> j < n && j in depth && LinkedAt(up, roots, j, depth[j])
    ensures forall j: nat, d: nat :: j in clusterOf && LinkedAt(up, roots, j, d) ==>
      LinkTop(up, j, d) in clusterOf0 && clusterOf[j] == clusterOf0[LinkTop(up, j, d)]
  {
    forall j: nat, d: nat | LinkedAt(up, roots, j, d)
      ensures j in clusterOf
    {
      LinkedIsAssigned(childrenOf, up, roots, n, clusterOf0, clusterOf, depth, j, d);
    }
    TraversedUpClosed(childrenOf, up, roots, n, clusterOf0, clusterOf, depth);
    forall j: nat, d: nat | j in clusterOf && LinkedAt(up, roots, j, d)
      ensures j < n && j in depth && LinkedAt(up, roots, j, depth[j])
      ensures LinkTop(up, j, d) in clusterOf0 && clusterOf[j] == clusterOf0[LinkTop(up, j, d)]
    {
      AssignedIsLinked(up, roots, clusterOf0, clusterOf, depth, j, depth[j]);
      LinkedAtUnique(up, roots, j, d, depth[j]);
    }
    forall j: nat | j in clusterOf
      ensures j < n && j in depth && LinkedAt(up, roots, j, depth[j])
    {
      AssignedIsLinked(up, roots, clusterOf0, clusterOf, depth, j, depth[j]);
    }
  }

  /**
   * The traversal after the build loop assigns exactly the abstracts reached
   * from a mutual root, each to the cluster of the root it hangs from.
   */
  lemma TraversedIsReached(abstracts: seq<Abstract>, score: ScoreFn, clusterOf0: map<nat, Cluster>,
                           clusterOf: map<nat, Cluster>, depth: map<nat, nat>)
    requires 2 <= |abstracts|
    requires clusterOf0.Keys == Elems(BuildForest(abstracts, score).roots)
    requires Traversed(|abstracts|, BuildForest(abstracts, score).childrenOf, clusterOf0, clusterOf, depth)
    ensures forall j: nat :: j in clusterOf <==> j < |abstracts| && Reached(abstracts, score, j)
    ensures forall j: nat, d: nat :: j in clusterOf && ReachedAt(abstracts, score, j, d) ==>
      Ancestor(abstracts, score, j, d) in clusterOf0 && clusterOf[j] == clusterOf0[Ancestor(abstracts, score, j, d)]
  {
    var up, roots := BestLinks(abstracts, score), MutualRoots(abstracts, score);
    BuiltLinks(abstracts, score);
    TraversedIsLinked(BuildForest(abstracts, score).childrenOf, up, roots, |abstracts|, clusterOf0, clusterOf, depth);
    forall j: nat | j in clusterOf
      ensures j < |abstracts| && Reached(abstracts, score, j)
    {
      LinkedIsReached(abstracts, score, j, depth[j]);
    }
    forall j: nat | j < |abstracts| && Reached(abstracts, score, j)
      ensures j in clusterOf
    {
      var d: nat :| ReachedAt(abstracts, score, j, d);
      LinkedIsReached(abstracts, score, j, d);
    }
    forall j: nat, d: nat | j in clusterOf && ReachedAt(abstracts, score, j, d)
      ensures Ancestor(abstracts, score, j, d) in clusterOf0 && clusterOf[j] == clusterOf0[Ancestor(abstracts, score, j, d)]
    {
      LinkedIsReached(abstracts, score, j, d);
    }
  }
}
