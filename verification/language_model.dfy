/**
 * pubmed/language_model_builder.py: the unigram language model of an
 * abstract is the sum of the token processor's counts over the
 * space-separated pieces of the abstract's text.
 */
module LanguageModel {
  import opened Wrappers
  import opened Counts
  import opened Text
  import opened TokenProcessor

  /** A `LanguageModelBuilder`: the token processor it built from its filter words and lemmatizer. */
  datatype LanguageModelBuilder = LanguageModelBuilder(tokenProcessor: TokenProcessor)

  /** `KeyError`, raised when the abstract has no field of that name. */
  datatype KeyError = KeyError(key: string)

  /** The counts `extract` gives each of `pieces`, summed piece by piece. */
  function SumExtracts(extract: string -> Counts, pieces: seq<string>): Counts
    decreases |pieces|
  {
    if pieces == [] then map[]
    else Update(SumExtracts(extract, pieces[..|pieces| - 1]), extract(pieces[|pieces| - 1]))
  }

  /** The sum over two lists of pieces is the sum of the two sums. */
  lemma {:induction false} SumExtractsAppend(extract: string -> Counts, a: seq<string>, b: seq<string>)
    ensures SumExtracts(extract, a + b) == Update(SumExtracts(extract, a), SumExtracts(extract, b))
    decreases |b|
  {
    if b == [] {
      assert a + b == a;
      UpdateEmptyRight(SumExtracts(extract, a));
    } else {
      var front := b[..|b| - 1];
      assert (a + b)[..|a + b| - 1] == a + front;
      SumExtractsAppend(extract, a, front);
      UpdateAssociates(SumExtracts(extract, a), SumExtracts(extract, front), extract(b[|b| - 1]));
    }
  }

  /** One more piece adds its counts. */
  lemma SumExtractsStep(extract: string -> Counts, pieces: seq<string>, i: nat)
    requires i < |pieces|
    ensures SumExtracts(extract, pieces[..i + 1]) == Update(SumExtracts(extract, pieces[..i]), extract(pieces[i]))
  {
    assert pieces[..i + 1][..i] == pieces[..i];
  }

  /** Any one piece may be summed last. */
  lemma SumExtractsRemove(extract: string -> Counts, b: seq<string>, k: nat)
    requires k < |b|
    ensures SumExtracts(extract, b) == Update(SumExtracts(extract, b[..k] + b[k + 1..]), extract(b[k]))
  {
    var left, right := SumExtracts(extract, b[..k]), SumExtracts(extract, b[k + 1..]);
    var ex := extract(b[k]);
    assert b == b[..k] + [b[k]] + b[k + 1..];
    assert SumExtracts(extract, [b[k]]) == ex by {
      assert [b[k]][..0] == [];
      UpdateEmptyLeft(ex);
    }
    SumExtractsAppend(extract, b[..k] + [b[k]], b[k + 1..]);
    SumExtractsAppend(extract, b[..k], [b[k]]);
    SumExtractsAppend(extract, b[..k], b[k + 1..]);
    UpdateAssociates(left, ex, right);
    UpdateCommutes(ex, right);
    UpdateAssociates(left, right, ex);
  }

  /** The language model does not depend on the order of the pieces. */
  lemma {:induction false} SumExtractsPermutation(extract: string -> Counts, a: seq<string>, b: seq<string>)
    requires multiset(a) == multiset(b)
    ensures SumExtracts(extract, a) == SumExtracts(extract, b)
    decreases |a|
  {
    if a == [] {
      assert b == [];
    } else {
      var x := a[|a| - 1];
      var front := a[..|a| - 1];
      assert a == front + [x];
      assert x in multiset(b);
      var k :| 0 <= k < |b| && b[k] == x;
      var rest := b[..k] + b[k + 1..];
      assert b == b[..k] + [x] + b[k + 1..];
      assert multiset(front) == multiset(rest) by {
        assert multiset(a) == multiset(front) + multiset{x};
        assert multiset(b) == multiset(b[..k]) + multiset{x} + multiset(b[k + 1..]);
        assert multiset(rest) == multiset(b[..k]) + multiset(b[k + 1..]);
        assert multiset(front) == multiset(a) - multiset{x};
        assert multiset(rest) == multiset(b) - multiset{x};
      }
      SumExtractsPermutation(extract, front, rest);
      SumExtractsRemove(extract, b, k);
    }
  }

  /** Summing non-negative counts gives non-negative counts. */
  lemma {:induction false} SumExtractsNonNegative(extract: string -> Counts, pieces: seq<string>)
    requires forall i :: 0 <= i < |pieces| ==> NonNegative(extract(pieces[i]))
    ensures NonNegative(SumExtracts(extract, pieces))
    decreases |pieces|
  {
    if pieces != [] {
      var c := SumExtracts(extract, pieces[..|pieces| - 1]);
      var d := extract(pieces[|pieces| - 1]);
      SumExtractsNonNegative(extract, pieces[..|pieces| - 1]);
      forall u | u in Update(c, d)
        ensures Update(c, d)[u] >= 0
      {
        assert Get(Update(c, d), u) == Get(c, u) + Get(d, u);
      }
    }
  }

  /** Summing empty counts gives empty counts. */
  lemma {:induction false} SumExtractsEmpty(extract: string -> Counts, pieces: seq<string>)
    requires forall i :: 0 <= i < |pieces| ==> extract(pieces[i]) == map[]
    ensures SumExtracts(extract, pieces) == map[]
    decreases |pieces|
  {
    if pieces != [] {
      SumExtractsEmpty(extract, pieces[..|pieces| - 1]);
      UpdateEmptyLeft(map[]);
    }
  }

  /** The token processor's `extract`, as a function value. */
  function ExtractOf(tp: TokenProcessor): string -> Counts
  {
    s => Extracted(tp, s)
  }

  /** Every count of a language model is non-negative. */
  lemma ModelNonNegative(tp: TokenProcessor, pieces: seq<string>)
    ensures NonNegative(SumExtracts(ExtractOf(tp), pieces))
  {
    forall i | 0 <= i < |pieces|
      ensures NonNegative(ExtractOf(tp)(pieces[i]))
    {
      TermsNonNegative(tp, TokensOf(Normalized(pieces[i])));
    }
    SumExtractsNonNegative(ExtractOf(tp), pieces);
  }

  /** Pieces all shorter than `MIN_TOKEN_LENGTH` yield an empty model; so does empty text, one empty piece. */
  lemma ShortPiecesEmpty(tp: TokenProcessor, pieces: seq<string>)
    requires forall i :: 0 <= i < |pieces| ==> |pieces[i]| < MinTokenLength
    ensures SumExtracts(ExtractOf(tp), pieces) == map[]
    ensures SumExtracts(ExtractOf(tp), Split("", Space)) == map[]
  {
    forall i | 0 <= i < |pieces|
      ensures ExtractOf(tp)(pieces[i]) == map[]
    {
      ShortTextNoTerms(tp, pieces[i]);
    }
    SumExtractsEmpty(ExtractOf(tp), pieces);
    assert Split("", Space) == [""];
    ShortTextNoTerms(tp, "");
    SumExtractsEmpty(ExtractOf(tp), [""]);
  }

  /**
   * `build_language_model`: read the abstract's `"text"` field (a missing
   * field raises `KeyError`), split it on single spaces, and add up the
   * token processor's counts of every piece.
   */
  method BuildLanguageModel(builder: LanguageModelBuilder, a: Abstract) returns (r: Result<Counts, KeyError>)
    ensures DefaultCategory !in a.fields <==> r.Failure?
    ensures r.Failure? ==> r.error == KeyError(DefaultCategory)
    ensures r.Success? ==> r.value == SumExtracts(ExtractOf(builder.tokenProcessor), Split(a.fields[DefaultCategory], Space))
  {
    if DefaultCategory !in a.fields {
      return Failure(KeyError(DefaultCategory));
    }
    var text := a.fields[DefaultCategory];
    var tokenProcessor := builder.tokenProcessor;
    var counts: Counts := map[];
    var pieces := Split(text, Space);
    assert pieces[..0] == [];
    for i := 0 to |pieces|
      invariant counts == SumExtracts(ExtractOf(tokenProcessor), pieces[..i])
    {
      var tokenCounts := Extract(tokenProcessor, pieces[i]);
      SumExtractsStep(ExtractOf(tokenProcessor), pieces, i);
      counts := Update(counts, tokenCounts);
    }
    assert pieces[..|pieces|] == pieces;
    return Success(counts);
  }
}
