/**
 * The index-level specification of the mutual-best-match engine of
 * pubmed/pubmed_clustering_lib.py: which abstract is each abstract's best
 * match, what parent/child map and root agenda the build loop leaves, and
 * which abstracts the traversal reaches from which root.
 *
 * Abstracts are identified by their position 0..n-1 in the input list.
 */
module MutualBestMatch {
  import opened Wrappers
  import opened Counts

  /** A similarity strategy: `get_score(target_abstract, model_abstract)`. */
  type ScoreFn = (Counts, Counts) -> int

  /** The score of candidate `j` against target `x`. */
  function ScoreOf(abstracts: seq<Abstract>, score: ScoreFn, x: nat, j: nat): int
    requires x < |abstracts| && j < |abstracts|
  {
    score(abstracts[x].counts, abstracts[j].counts)
  }

  /** Some index below `n` other than `x` exists. */
  predicate HasCandidate(x: nat, n: nat)
  {
    n >= 2 || (n == 1 && x != 0)
  }

  /**
   * `b` is what Python's `max(..., key=score)` returns over the candidates
   * `0..n-1` other than `x`: a candidate of maximal score, and the first one
   * in list order among those of that score.
   */
  ghost predicate IsBestAmong(abstracts: seq<Abstract>, score: ScoreFn, x: nat, n: nat, b: nat)
    requires x < |abstracts| && n <= |abstracts|
  {
    && b < n
    && b != x
    && (forall j :: 0 <= j < n && j != x ==> ScoreOf(abstracts, score, x, j) <= ScoreOf(abstracts, score, x, b))
    && (forall j :: 0 <= j < b && j != x ==> ScoreOf(abstracts, score, x, j) < ScoreOf(abstracts, score, x, b))
  }

  /**
   * The left-to-right scan of `max`: a later candidate replaces the best so
   * far only when its score is strictly greater.
   */
  function BestBelow(abstracts: seq<Abstract>, score: ScoreFn, x: nat, n: nat): (best: nat)
    requires x < |abstracts| && n <= |abstracts| && HasCandidate(x, n)
    ensures IsBestAmong(abstracts, score, x, n, best)
    decreases n
  {
    var last := n - 1;
    if last == x then BestBelow(abstracts, score, x, last)
    else if !HasCandidate(x, last) then last
    else
      var b := BestBelow(abstracts, score, x, last);
      if ScoreOf(abstracts, score, x, last) > ScoreOf(abstracts, score, x, b) then last else b
  }

  /**
   * The best match of abstract `x` among all the other abstracts; `None`
   * where the source's `max` raises `ValueError` because there is no other
   * abstract.
   */
  function BestMatch(abstracts: seq<Abstract>, score: ScoreFn, x: nat): (r: Option<nat>)
    requires x < |abstracts|
    ensures r.None? <==> |abstracts| == 1
    ensures r.Some? ==> IsBestAmong(abstracts, score, x, |abstracts|, r.value)
  {
    if HasCandidate(x, |abstracts|) then Some(BestBelow(abstracts, score, x, |abstracts|)) else None
  }

  /** The first-seen tie-break makes the best match unique. */
  lemma BestAmongUnique(abstracts: seq<Abstract>, score: ScoreFn, x: nat, n: nat, b1: nat, b2: nat)
    requires x < |abstracts| && n <= |abstracts|
    requires IsBestAmong(abstracts, score, x, n, b1) && IsBestAmong(abstracts, score, x, n, b2)
    ensures b1 == b2
  {
    // each is a maximum, so they score the same; the first-seen rule then
    // rules out either lying before the other
    assert ScoreOf(abstracts, score, x, b1) == ScoreOf(abstracts, score, x, b2);
  }

  /** The best match, where there are at least two abstracts. */
  function Best(abstracts: seq<Abstract>, score: ScoreFn, x: nat): (b: nat)
    requires 2 <= |abstracts| && x < |abstracts|
    ensures IsBestAmong(abstracts, score, x, |abstracts|, b)
  {
    BestMatch(abstracts, score, x).value
  }

  /** `children_of[p]` of a `defaultdict(set)`: empty when `p` was never a key. */
  function Children(childrenOf: map<nat, set<nat>>, p: nat): set<nat>
  {
    if p in childrenOf then childrenOf[p] else {}
  }

  /** The parent/child map and the agenda of roots, in the order they were seeded. */
  datatype Forest = Forest(childrenOf: map<nat, set<nat>>, roots: seq<nat>)

  /**
   * One call of `_build_assignment_tree` for abstract `x`, on indices: when
   * `x`'s best match is already a child of `x` the two are mutual best
   * matches and `x` becomes a root; otherwise `x` becomes a child of its best
   * match. Either way exactly one thing changes: a root is appended and
   * the parent/child map stays, or the map gains the one edge from `x`'s
   * best match to `x` and the roots stay.
   */
  function BuildStep(abstracts: seq<Abstract>, score: ScoreFn, f: Forest, x: nat): (r: Forest)
    requires 2 <= |abstracts| && x < |abstracts|
    ensures r.roots == f.roots + [x] || r.roots == f.roots
    ensures r.roots == f.roots + [x] ==> r.childrenOf == f.childrenOf
  {
    var b := Best(abstracts, score, x);
    if b in Children(f.childrenOf, x) then Forest(f.childrenOf, f.roots + [x])
    else Forest(f.childrenOf[b := Children(f.childrenOf, b) + {x}], f.roots)
  }

  /**
   * A build step removes no parent/child edge and adds at most one: the
   * edge from `x`'s best match to `x`, and only when no root is appended.
   */
  lemma BuildStepEdges(abstracts: seq<Abstract>, score: ScoreFn, f: Forest, x: nat, p: nat, j: nat)
    requires 2 <= |abstracts| && x < |abstracts|
    ensures j in Children(f.childrenOf, p) ==> j in Children(BuildStep(abstracts, score, f, x).childrenOf, p)
    ensures j in Children(BuildStep(abstracts, score, f, x).childrenOf, p) && j !in Children(f.childrenOf, p) ==>
      j == x && p == Best(abstracts, score, x) && BuildStep(abstracts, score, f, x).roots == f.roots
  {
  }

  /** The state the build loop leaves after the first `k` abstracts. */
  function BuildPrefix(abstracts: seq<Abstract>, score: ScoreFn, k: nat): Forest
    requires 2 <= |abstracts| && k <= |abstracts|
  {
    if k == 0 then Forest(map[], [])
    else BuildStep(abstracts, score, BuildPrefix(abstracts, score, k - 1), k - 1)
  }

  /** The state the whole build loop leaves. */
  function BuildForest(abstracts: seq<Abstract>, score: ScoreFn): Forest
    requires 2 <= |abstracts|
  {
    BuildPrefix(abstracts, score, |abstracts|)
  }

  /**
   * `x` seeds a cluster: it is the later of two mutual best matches (its best
   * match comes before it in the list and has `x` as its own best match).
   */
  ghost predicate IsMutualRoot(abstracts: seq<Abstract>, score: ScoreFn, x: nat)
    requires 2 <= |abstracts| && x < |abstracts|
  {
    var b := Best(abstracts, score, x);
    b < x && Best(abstracts, score, b) == x
  }

  ghost predicate StrictlyIncreasing(s: seq<nat>)
  {
    forall i, k :: 0 <= i < k < |s| ==> s[i] < s[k]
  }

  /**
   * The shape of the build state after the first `k` abstracts: the roots
   * are exactly the later members of mutual best-match pairs among them, in
   * list order, and every other one of them is a child of its best match and
   * of nothing else.
   */
  ghost predicate ShapeAt(abstracts: seq<Abstract>, score: ScoreFn, f: Forest, k: nat)
    requires 2 <= |abstracts| && k <= |abstracts|
  {
    && (forall j: nat :: j in f.roots <==> j < k && IsMutualRoot(abstracts, score, j))
    && StrictlyIncreasing(f.roots)
    && (forall p: nat, j: nat {:trigger j in Children(f.childrenOf, p)} :: j in Children(f.childrenOf, p) <==>
          j < k && !IsMutualRoot(abstracts, score, j) && p == Best(abstracts, score, j))
  }

  /** The mutual test of the source is exactly the mutual-root condition. */
  lemma MutualTest(abstracts: seq<Abstract>, score: ScoreFn, f: Forest, x: nat)
    requires 2 <= |abstracts| && x < |abstracts|
    requires ShapeAt(abstracts, score, f, x)
    ensures Best(abstracts, score, x) in Children(f.childrenOf, x) <==> IsMutualRoot(abstracts, score, x)
  {
    var b := Best(abstracts, score, x);
    assert b in Children(f.childrenOf, x) <==>
      b < x && !IsMutualRoot(abstracts, score, b) && x == Best(abstracts, score, b);
    if b < x && Best(abstracts, score, b) == x {
      assert !IsMutualRoot(abstracts, score, b);
    }
  }

  /** A mutual root is appended to the roots, after every earlier root. */
  lemma RootStepShape(abstracts: seq<Abstract>, score: ScoreFn, f: Forest, x: nat)
    requires 2 <= |abstracts| && x < |abstracts|
    requires ShapeAt(abstracts, score, f, x) && IsMutualRoot(abstracts, score, x)
    ensures ShapeAt(abstracts, score, Forest(f.childrenOf, f.roots + [x]), x + 1)
  {
    var g := Forest(f.childrenOf, f.roots + [x]);
    forall i | 0 <= i < |f.roots|
      ensures f.roots[i] < x
    {
      assert f.roots[i] in f.roots;
    }
    forall j: nat
      ensures j in g.roots <==> j < x + 1 && IsMutualRoot(abstracts, score, j)
    {
      assert j in g.roots <==> j in f.roots || j == x;
    }
  }

  /** Any other abstract becomes a child of its best match. */
  lemma ChildStepShape(abstracts: seq<Abstract>, score: ScoreFn, f: Forest, x: nat)
    requires 2 <= |abstracts| && x < |abstracts|
    requires ShapeAt(abstracts, score, f, x) && !IsMutualRoot(abstracts, score, x)
    ensures var b := Best(abstracts, score, x);
      ShapeAt(abstracts, score, Forest(f.childrenOf[b := Children(f.childrenOf, b) + {x}], f.roots), x + 1)
  {
    var b := Best(abstracts, score, x);
    var g := Forest(f.childrenOf[b := Children(f.childrenOf, b) + {x}], f.roots);
    forall p: nat, j: nat
      ensures j in Children(g.childrenOf, p) <==>
        j < x + 1 && !IsMutualRoot(abstracts, score, j) && p == Best(abstracts, score, j)
    {
      assert j in Children(g.childrenOf, p) <==> j in Children(f.childrenOf, p) || (p == b && j == x);
    }
  }

  /** One build step keeps the shape, now counting abstract `x` too. */
  lemma BuildStepShape(abstracts: seq<Abstract>, score: ScoreFn, f: Forest, x: nat)
    requires 2 <= |abstracts| && x < |abstracts|
    requires ShapeAt(abstracts, score, f, x)
    ensures ShapeAt(abstracts, score, BuildStep(abstracts, score, f, x), x + 1)
  {
    MutualTest(abstracts, score, f, x);
    if IsMutualRoot(abstracts, score, x) {
      RootStepShape(abstracts, score, f, x);
    } else {
      ChildStepShape(abstracts, score, f, x);
    }
  }

  /** Before the first abstract: no roots and no children. */
  lemma ShapeAtStart(abstracts: seq<Abstract>, score: ScoreFn)
    requires 2 <= |abstracts|
    ensures ShapeAt(abstracts, score, Forest(map[], []), 0)
  {
    forall p: nat, j: nat
      ensures j !in Children(map[], p)
    {
    }
  }

  /** The build step for abstract `k - 1` keeps the shape of the first `k - 1`. */
  lemma PrefixStepShape(abstracts: seq<Abstract>, score: ScoreFn, k: nat)
    requires 2 <= |abstracts| && 0 < k <= |abstracts|
    requires ShapeAt(abstracts, score, BuildPrefix(abstracts, score, k - 1), k - 1)
    ensures ShapeAt(abstracts, score, BuildPrefix(abstracts, score, k), k)
  {
    BuildStepShape(abstracts, score, BuildPrefix(abstracts, score, k - 1), k - 1);
  }

  /** What the build loop leaves after `k` abstracts has the shape above. */
  lemma {:induction false} BuildPrefixShape(abstracts: seq<Abstract>, score: ScoreFn, k: nat)
    requires 2 <= |abstracts| && k <= |abstracts|
    ensures ShapeAt(abstracts, score, BuildPrefix(abstracts, score, k), k)
  {
    if k == 0 {
      ShapeAtStart(abstracts, score);
    } else {
      BuildPrefixShape(abstracts, score, k - 1);
      PrefixStepShape(abstracts, score, k);
    }
  }

  /** The parent/child map and the roots the whole build loop leaves. */
  lemma BuildForestShape(abstracts: seq<Abstract>, score: ScoreFn)
    requires 2 <= |abstracts|
    ensures forall j: nat :: j in BuildForest(abstracts, score).roots <==>
      j < |abstracts| && IsMutualRoot(abstracts, score, j)
    ensures StrictlyIncreasing(BuildForest(abstracts, score).roots)
    ensures forall p: nat, j: nat {:trigger j in Children(BuildForest(abstracts, score).childrenOf, p)} ::
      j in Children(BuildForest(abstracts, score).childrenOf, p) <==>
      j < |abstracts| && !IsMutualRoot(abstracts, score, j) && p == Best(abstracts, score, j)
  {
    BuildPrefixShape(abstracts, score, |abstracts|);
    assert ShapeAt(abstracts, score, BuildForest(abstracts, score), |abstracts|);
  }

  /**
   * Every abstract is either a root or in exactly one `children_of` set,
   * never both.
   */
  lemma RootOrOneParent(abstracts: seq<Abstract>, score: ScoreFn, j: nat)
    requires 2 <= |abstracts| && j < |abstracts|
    ensures j in BuildForest(abstracts, score).roots <==>
      forall p :: j !in Children(BuildForest(abstracts, score).childrenOf, p)
    ensures forall p, q ::
      (j in Children(BuildForest(abstracts, score).childrenOf, p) &&
       j in Children(BuildForest(abstracts, score).childrenOf, q)) ==> p == q
  {
    BuildForestShape(abstracts, score);
    var f := BuildForest(abstracts, score);
    if j !in f.roots {
      assert j in Children(f.childrenOf, Best(abstracts, score, j));
    }
  }

  /**
   * `j` is reached from a root in `d` parent steps: following best matches
   * `d` times from `j` passes only non-roots and ends at a root.
   */
  ghost predicate ReachedAt(abstracts: seq<Abstract>, score: ScoreFn, j: nat, d: nat)
    requires 2 <= |abstracts| && j < |abstracts|
    decreases d
  {
    if d == 0 then IsMutualRoot(abstracts, score, j)
    else !IsMutualRoot(abstracts, score, j) && ReachedAt(abstracts, score, Best(abstracts, score, j), d - 1)
  }

  /** A non-root whose best match is reached in `d - 1` steps is reached in `d`, from the same root. */
  lemma ReachedAtStep(abstracts: seq<Abstract>, score: ScoreFn, j: nat, d: nat)
    requires 2 <= |abstracts| && j < |abstracts| && 0 < d
    requires !IsMutualRoot(abstracts, score, j) && ReachedAt(abstracts, score, Best(abstracts, score, j), d - 1)
    ensures ReachedAt(abstracts, score, j, d)
    ensures Ancestor(abstracts, score, j, d) == Ancestor(abstracts, score, Best(abstracts, score, j), d - 1)
  {
  }

  /** The abstract `d` best-match steps above `j`. */
  function Ancestor(abstracts: seq<Abstract>, score: ScoreFn, j: nat, d: nat): (a: nat)
    requires 2 <= |abstracts| && j < |abstracts|
    ensures a < |abstracts|
    decreases d
  {
    if d == 0 then j else Ancestor(abstracts, score, Best(abstracts, score, j), d - 1)
  }

  /** Some root is reached from `j`: the traversal assigns `j` a cluster. */
  ghost predicate Reached(abstracts: seq<Abstract>, score: ScoreFn, j: nat)
    requires 2 <= |abstracts| && j < |abstracts|
  {
    exists d: nat :: ReachedAt(abstracts, score, j, d)
  }

  /** The root a reached abstract hangs from. */
  lemma {:induction false} AncestorIsRoot(abstracts: seq<Abstract>, score: ScoreFn, j: nat, d: nat)
    requires 2 <= |abstracts| && j < |abstracts|
    requires ReachedAt(abstracts, score, j, d)
    ensures IsMutualRoot(abstracts, score, Ancestor(abstracts, score, j, d))
    decreases d
  {
    if d > 0 {
      AncestorIsRoot(abstracts, score, Best(abstracts, score, j), d - 1);
    }
  }

  /** A root is reached only at distance 0 and a non-root's distance is unique. */
  lemma {:induction false} ReachedAtUnique(abstracts: seq<Abstract>, score: ScoreFn, j: nat, d1: nat, d2: nat)
    requires 2 <= |abstracts| && j < |abstracts|
    requires ReachedAt(abstracts, score, j, d1) && ReachedAt(abstracts, score, j, d2)
    ensures d1 == d2
    decreases d1
  {
    if d1 > 0 && d2 > 0 {
      ReachedAtUnique(abstracts, score, Best(abstracts, score, j), d1 - 1, d2 - 1);
    }
  }

  /** A reached abstract's walk has one length only, and it ends at a mutual root. */
  lemma ReachedRoot(abstracts: seq<Abstract>, score: ScoreFn, j: nat, d: nat)
    requires 2 <= |abstracts| && j < |abstracts|
    requires ReachedAt(abstracts, score, j, d)
    ensures IsMutualRoot(abstracts, score, Ancestor(abstracts, score, j, d))
    ensures forall e: nat :: ReachedAt(abstracts, score, j, e) ==> e == d
  {
    AncestorIsRoot(abstracts, score, j, d);
    forall e: nat | ReachedAt(abstracts, score, j, e)
      ensures e == d
    {
      ReachedAtUnique(abstracts, score, j, d, e);
    }
  }

  /** The root whose cluster a reached abstract inherits. */
  ghost function Root(abstracts: seq<Abstract>, score: ScoreFn, j: nat): (r: nat)
    requires 2 <= |abstracts| && j < |abstracts| && Reached(abstracts, score, j)
    ensures r < |abstracts| && IsMutualRoot(abstracts, score, r)
    ensures forall d: nat :: ReachedAt(abstracts, score, j, d) ==> r == Ancestor(abstracts, score, j, d)
  {
    var d: nat :| ReachedAt(abstracts, score, j, d);
    ReachedRoot(abstracts, score, j, d);
    Ancestor(abstracts, score, j, d)
  }

  /**
   * A reached abstract hangs from the same root as its best match: a
   * non-root's best match is its parent, and a root's best match is its
   * mutual partner, which hangs directly below it.
   */
  lemma JoinsBestMatch(abstracts: seq<Abstract>, score: ScoreFn, j: nat)
    requires 2 <= |abstracts| && j < |abstracts| && Reached(abstracts, score, j)
    ensures Reached(abstracts, score, Best(abstracts, score, j))
    ensures Root(abstracts, score, j) == Root(abstracts, score, Best(abstracts, score, j))
  {
    var b := Best(abstracts, score, j);
    var d: nat :| ReachedAt(abstracts, score, j, d);
    if IsMutualRoot(abstracts, score, j) {
      ReachedRoot(abstracts, score, j, d);
      assert d == 0 by {
        assert ReachedAt(abstracts, score, j, 0);
      }
      assert !IsMutualRoot(abstracts, score, b);
      assert ReachedAt(abstracts, score, b, 1);
    } else {
      assert d > 0 && ReachedAt(abstracts, score, b, d - 1);
    }
  }

  /** The best-match links as a map: every abstract that is not a mutual root points to its best match. */
  ghost function BestLinks(abstracts: seq<Abstract>, score: ScoreFn): map<nat, nat>
    requires 2 <= |abstracts|
  {
    map j: nat | j < |abstracts| && !IsMutualRoot(abstracts, score, j) :: Best(abstracts, score, j)
  }

  /** The abstracts that seed a cluster. */
  ghost function MutualRoots(abstracts: seq<Abstract>, score: ScoreFn): set<nat>
    requires 2 <= |abstracts|
  {
    set j: nat | j < |abstracts| && IsMutualRoot(abstracts, score, j)
  }

  /** Following `d` links of `up` from `j` ends in `roots` and passes no member of `roots` before. */
  ghost predicate LinkedAt(up: map<nat, nat>, roots: set<nat>, j: nat, d: nat)
    decreases d
  {
    if d == 0 then j in roots else j !in roots && j in up && LinkedAt(up, roots, up[j], d - 1)
  }

  /** Where following `d` links of `up` from `j` ends. */
  ghost function LinkTop(up: map<nat, nat>, j: nat, d: nat): nat
    decreases d
  {
    if d == 0 || j !in up then j else LinkTop(up, up[j], d - 1)
  }

  /** One more link: a linked `j` whose parent is linked in `d - 1` steps is linked in `d`, to the same top. */
  lemma LinkStep(up: map<nat, nat>, roots: set<nat>, j: nat, d: nat)
    requires j in up && j !in roots && 0 < d && LinkedAt(up, roots, up[j], d - 1)
    ensures LinkedAt(up, roots, j, d) && LinkTop(up, j, d) == LinkTop(up, up[j], d - 1)
  {
  }

  /** A walk along the links reaches `roots` after one number of steps only. */
  lemma {:induction false} LinkedAtUnique(up: map<nat, nat>, roots: set<nat>, j: nat, d1: nat, d2: nat)
    requires LinkedAt(up, roots, j, d1) && LinkedAt(up, roots, j, d2)
    ensures d1 == d2
    decreases d1
  {
    if d1 > 0 && d2 > 0 {
      LinkedAtUnique(up, roots, up[j], d1 - 1, d2 - 1);
    }
  }

  /** Following the best-match links is the same walk as `ReachedAt`, ending at the same root. */
  lemma {:induction false} LinkedIsReached(abstracts: seq<Abstract>, score: ScoreFn, j: nat, d: nat)
    requires 2 <= |abstracts| && j < |abstracts|
    ensures LinkedAt(BestLinks(abstracts, score), MutualRoots(abstracts, score), j, d) <==>
      ReachedAt(abstracts, score, j, d)
    ensures ReachedAt(abstracts, score, j, d) ==>
      LinkTop(BestLinks(abstracts, score), j, d) == Ancestor(abstracts, score, j, d)
    decreases d
  {
    var up, roots := BestLinks(abstracts, score), MutualRoots(abstracts, score);
    assert j in roots <==> IsMutualRoot(abstracts, score, j);
    if d > 0 && !IsMutualRoot(abstracts, score, j) {
      var b := Best(abstracts, score, j);
      assert j in up && up[j] == b;
      LinkedIsReached(abstracts, score, b, d - 1);
    }
  }

  /** The position after `i` on a cycle of length `len`. */
  function Next(i: nat, len: nat): nat
  {
    if i + 1 < len then i + 1 else 0
  }

  /**
   * `cycle` lists a best-match cycle of length at least 3: distinct
   * abstracts, each the best match of the one before it.
   */
  ghost predicate IsLongCycle(abstracts: seq<Abstract>, score: ScoreFn, cycle: seq<nat>)
    requires 2 <= |abstracts|
  {
    && |cycle| >= 3
    && (forall i, k :: 0 <= i < k < |cycle| ==> cycle[i] != cycle[k])
    && (forall i :: 0 <= i < |cycle| ==> cycle[i] < |abstracts|)
    && (forall i :: 0 <= i < |cycle| ==> Best(abstracts, score, cycle[i]) == cycle[Next(i, |cycle|)])
  }

  /**
   * A best-match cycle of length at least 3 (no two members mutual best
   * matches): no root reaches any member of it, so each ends up an orphan.
   */
  lemma {:induction false} LongCycleIsOrphaned(abstracts: seq<Abstract>, score: ScoreFn, cycle: seq<nat>, d: nat)
    requires 2 <= |abstracts|
    requires IsLongCycle(abstracts, score, cycle)
    ensures forall i :: 0 <= i < |cycle| ==> !ReachedAt(abstracts, score, cycle[i], d)
    decreases d
  {
    var L := |cycle|;
    forall i | 0 <= i < L
      ensures !IsMutualRoot(abstracts, score, cycle[i])
    {
      var i1 := Next(i, L);
      var i2 := Next(i1, L);
      assert Best(abstracts, score, cycle[i1]) == cycle[i2];
      assert i2 != i;
    }
    if d > 0 {
      LongCycleIsOrphaned(abstracts, score, cycle, d - 1);
      forall i | 0 <= i < L
        ensures !ReachedAt(abstracts, score, cycle[i], d)
      {
        assert !ReachedAt(abstracts, score, cycle[Next(i, L)], d - 1);
      }
    }
  }

  /** Members of a best-match cycle of length at least 3 are never reached. */
  lemma LongCycleNotReached(abstracts: seq<Abstract>, score: ScoreFn, cycle: seq<nat>)
    requires 2 <= |abstracts|
    requires IsLongCycle(abstracts, score, cycle)
    ensures forall i :: 0 <= i < |cycle| ==> !Reached(abstracts, score, cycle[i])
  {
    forall i, d: nat | 0 <= i < |cycle|
      ensures !ReachedAt(abstracts, score, cycle[i], d)
    {
      LongCycleIsOrphaned(abstracts, score, cycle, d);
    }
  }
}
