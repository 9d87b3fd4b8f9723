/**
 * Term-count vectors (Python `collections.Counter` over strings) and the
 * `Abstract` record that carries one.
 */
module Counts {

  /** A term-frequency vector: term -> occurrence count. */
  type Counts = map<string, int>

  /** `counter[t]`: a missing term reads as 0. */
  function Get(c: Counts, t: string): int
  {
    if t in c then c[t] else 0
  }

  /** `counter[t] += 1`. */
  function Inc(c: Counts, t: string): (r: Counts)
    ensures r.Keys == c.Keys + {t}
    ensures Get(r, t) == Get(c, t) + 1
    ensures forall u :: u != t ==> Get(r, u) == Get(c, u)
  {
    c[t := Get(c, t) + 1]
  }

  /**
   * `counter.update(other)`: every term of `other` is added to the running
   * count; the keys of both survive.
   */
  function Update(c: Counts, d: Counts): (r: Counts)
    ensures r.Keys == c.Keys + d.Keys
    ensures forall t :: Get(r, t) == Get(c, t) + Get(d, t)
  {
    map t | t in c.Keys + d.Keys :: Get(c, t) + Get(d, t)
  }

  /** Two count vectors with the same keys and the same counts are equal. */
  lemma CountsExt(c: Counts, d: Counts)
    requires c.Keys == d.Keys
    requires forall t :: Get(c, t) == Get(d, t)
    ensures c == d
  {
    forall t | t in c
      ensures c[t] == d[t]
    {
      assert Get(c, t) == Get(d, t);
    }
  }

  lemma UpdateEmptyRight(c: Counts)
    ensures Update(c, map[]) == c
  {
    CountsExt(Update(c, map[]), c);
  }

  lemma UpdateEmptyLeft(d: Counts)
    ensures Update(map[], d) == d
  {
    CountsExt(Update(map[], d), d);
  }

  lemma UpdateCommutes(c: Counts, d: Counts)
    ensures Update(c, d) == Update(d, c)
  {
    CountsExt(Update(c, d), Update(d, c));
  }

  lemma UpdateAssociates(a: Counts, b: Counts, c: Counts)
    ensures Update(Update(a, b), c) == Update(a, Update(b, c))
  {
    CountsExt(Update(Update(a, b), c), Update(a, Update(b, c)));
  }

  /** Incrementing a term is updating with a one-term counter. */
  lemma IncIsUpdate(c: Counts, t: string)
    ensures Inc(c, t) == Update(c, map[t := 1])
  {
    CountsExt(Inc(c, t), Update(c, map[t := 1]));
  }

  /** Adding a one-term increment to the right operand of an update is incrementing the result. */
  lemma UpdateInc(c: Counts, d: Counts, t: string)
    ensures Update(c, Inc(d, t)) == Inc(Update(c, d), t)
  {
    CountsExt(Update(c, Inc(d, t)), Inc(Update(c, d), t));
  }

  /** Counts with no negative entry (what term counting produces). */
  ghost predicate NonNegative(c: Counts)
  {
    forall t :: t in c ==> c[t] >= 0
  }

  /**
   * An abstract (pubmed/abstract_lib.py): its PubMed id, its named text
   * fields, and the term counts its language model assigned to it.
   */
  datatype Abstract = Abstract(pmid: int, fields: map<string, string>, counts: Counts)

  /** `Abstract.DEFAULT_CATEGORY`: the field holding the abstract's text. */
  const DefaultCategory: string := "text"
}
