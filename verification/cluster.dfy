/**
 * pubmed/cluster_lib.py: a cluster accumulates the term counts of the
 * abstracts assigned to it and how many there are.
 */
module ClusterLib {
  import opened Counts

  class Cluster {
    const id: int
    var counts: Counts
    var numAbstracts: nat

    /** `Cluster(cluster_id)`: the given id, no counts, no abstracts yet. */
    constructor (clusterId: int)
      ensures id == clusterId
      ensures counts == map[]
      ensures numAbstracts == 0
    {
      id := clusterId;
      counts := map[];
      numAbstracts := 0;
    }

    /**
     * `add_counts_from_abstract`: one more member, whose counts are added
     * term by term to the running counts (the id is a constant).
     */
    method AddCountsFromAbstract(a: Abstract)
      modifies this
      ensures numAbstracts == old(numAbstracts) + 1
      ensures counts == Update(old(counts), a.counts)
      ensures forall t :: Get(counts, t) == Get(old(counts), t) + Get(a.counts, t)
      ensures a.counts == map[] ==> counts == old(counts)
    {
      numAbstracts := numAbstracts + 1;
      counts := Update(counts, a.counts);
      UpdateEmptyRight(old(counts));
    }
  }
}
