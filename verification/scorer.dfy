/**
 * pubmed/scorer_lib.py: the similarity score between two abstracts' term
 * counts. `BaseScorer` is the strategy interface, `SimpleAbstractScorer` the
 * dot-product strategy the clusterer uses by default.
 */
module Scorer {
  import opened Wrappers
  import opened Counts

  /** The scorer strategies the source defines. */
  datatype ScorerKind = BaseScorer | SimpleAbstractScorer

  /** `NotImplementedError`, raised by the abstract base strategy. */
  datatype ScoreError = NotImplemented

  /** The product of the two counts of one term (0 when either lacks it). */
  function TermProduct(a: Counts, b: Counts, t: string): int
  {
    Get(a, t) * Get(b, t)
  }

  /** Sum of `TermProduct` over a finite set of terms, in no fixed order. */
  ghost function SumProducts(terms: set<string>, a: Counts, b: Counts): int
    decreases terms
  {
    if terms == {} then 0
    else
      var t :| t in terms;
      TermProduct(a, b, t) + SumProducts(terms - {t}, a, b)
  }

  /** The sum may peel off any term first: it does not depend on the order. */
  lemma {:induction false} SumProductsPick(terms: set<string>, a: Counts, b: Counts, t: string)
    requires t in terms
    ensures SumProducts(terms, a, b) == TermProduct(a, b, t) + SumProducts(terms - {t}, a, b)
    decreases terms
  {
    var u :| u in terms && SumProducts(terms, a, b) == TermProduct(a, b, u) + SumProducts(terms - {u}, a, b);
    if u != t {
      SumProductsPick(terms - {u}, a, b, t);
      SumProductsPick(terms - {t}, a, b, u);
      assert terms - {u} - {t} == terms - {t} - {u};
    }
  }

  /**
   * `SimpleAbstractScorer.dot_product_score`: over the target's terms, the
   * target's count times the model's count of that term (0 if the model
   * lacks it), summed.
   */
  ghost function DotProductScore(target: Counts, model: Counts): (r: int)
    ensures target == map[] ==> r == 0
  {
    SumProducts(target.Keys, target, model)
  }

  /** Dropping terms whose product is 0 from the summed set changes nothing. */
  lemma {:induction false} SumProductsShared(terms: set<string>, a: Counts, b: Counts)
    ensures SumProducts(terms, a, b) == SumProducts(terms * b.Keys, a, b)
    decreases terms
  {
    if terms != {} {
      var t :| t in terms && SumProducts(terms, a, b) == TermProduct(a, b, t) + SumProducts(terms - {t}, a, b);
      SumProductsShared(terms - {t}, a, b);
      if t in b.Keys {
        SumProductsPick(terms * b.Keys, a, b, t);
        assert (terms * b.Keys) - {t} == (terms - {t}) * b.Keys;
      } else {
        assert TermProduct(a, b, t) == 0;
        assert (terms * b.Keys) == (terms - {t}) * b.Keys;
      }
    }
  }

  lemma {:induction false} SumProductsSwap(terms: set<string>, a: Counts, b: Counts)
    ensures SumProducts(terms, a, b) == SumProducts(terms, b, a)
    decreases terms
  {
    if terms != {} {
      var t :| t in terms && SumProducts(terms, a, b) == TermProduct(a, b, t) + SumProducts(terms - {t}, a, b);
      SumProductsPick(terms, b, a, t);
      SumProductsSwap(terms - {t}, a, b);
      assert TermProduct(a, b, t) == TermProduct(b, a, t) by {
        assert Get(a, t) * Get(b, t) == Get(b, t) * Get(a, t);
      }
    }
  }

  /** Only terms present in both abstracts contribute to the score. */
  lemma DotProductSharedTerms(target: Counts, model: Counts)
    ensures DotProductScore(target, model) == SumProducts(target.Keys * model.Keys, target, model)
  {
    SumProductsShared(target.Keys, target, model);
  }

  /** The dot product is symmetric in its two arguments. */
  lemma DotProductSymmetric(a: Counts, b: Counts)
    ensures DotProductScore(a, b) == DotProductScore(b, a)
  {
    SumProductsShared(a.Keys, a, b);
    SumProductsShared(b.Keys, b, a);
    SumProductsSwap(a.Keys * b.Keys, a, b);
    assert a.Keys * b.Keys == b.Keys * a.Keys;
  }

  /** A model with no term in common with the target scores 0. */
  lemma DotProductDisjoint(target: Counts, model: Counts)
    requires target.Keys !! model.Keys
    ensures DotProductScore(target, model) == 0
  {
    SumProductsShared(target.Keys, target, model);
    assert target.Keys * model.Keys == {};
  }

  lemma {:induction false} SumProductsNonNegative(terms: set<string>, a: Counts, b: Counts)
    requires NonNegative(a) && NonNegative(b)
    ensures SumProducts(terms, a, b) >= 0
    decreases terms
  {
    if terms != {} {
      var t :| t in terms && SumProducts(terms, a, b) == TermProduct(a, b, t) + SumProducts(terms - {t}, a, b);
      SumProductsNonNegative(terms - {t}, a, b);
      var x, y := Get(a, t), Get(b, t);
      assert x >= 0 && y >= 0;
      assert TermProduct(a, b, t) == x * y >= 0;
    }
  }

  /** With non-negative counts (as term counting produces) the score is non-negative. */
  lemma DotProductNonNegative(target: Counts, model: Counts)
    requires NonNegative(target) && NonNegative(model)
    ensures DotProductScore(target, model) >= 0
  {
    SumProductsNonNegative(target.Keys, target, model);
  }

  /**
   * `get_score(target_abstract, model_abstract)` of the chosen strategy: the
   * base strategy always raises `NotImplementedError`, the simple strategy
   * is the dot product of the same arguments.
   */
  ghost function GetScore(kind: ScorerKind, target: Counts, model: Counts): (r: Result<int, ScoreError>)
    ensures kind == BaseScorer ==> r == Failure(NotImplemented)
    ensures kind == SimpleAbstractScorer ==> r == Success(DotProductScore(target, model))
  {
    match kind
    case BaseScorer => Failure(NotImplemented)
    case SimpleAbstractScorer => Success(DotProductScore(target, model))
  }
}
