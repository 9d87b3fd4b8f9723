/**
 * pubmed/token_processor_lib.py: `TokenProcessor` turns a piece of text
 * into term counts. The text is cleaned (filter characters become spaces,
 * then special characters are replaced by a common variant), split into
 * tokens, and every token long enough that is neither numeric nor
 * date-like is counted in its original and/or lower-case form and, when a
 * lemmatizer is given, in its lemmatized form.
 */
module TokenProcessor {
  import opened Wrappers
  import opened Counts
  import opened Text

  /** `TokenProcessor.MIN_TOKEN_LENGTH`. */
  const MinTokenLength := 3

  const Space := ' '
  const Dash := '-'
  const Slash := '/'

  /**
   * `TokenProcessor.filter_chars`, each turned into a space. The last
   * three are the no-break, thin and hair spaces. The source holds them in
   * a set; as each becomes the same space, the order they are visited in
   * does not matter.
   */
  const FilterChars: seq<char> := ['.', ',', ';', '%', '(', ')', '[', ']', '\U{a0}', '\U{2009}', '\U{200a}']

  /** `TokenProcessor.replacement_chars`, applied one pair after the other. */
  const ReplacementChars: seq<(char, char)> := [
    ('α', 'a'), ('β', 'B'),
    ('₀', '0'), ('₁', '1'), ('₂', '2'), ('₃', '3'), ('₄', '4'),
    ('₅', '5'), ('₆', '6'), ('₇', '7'), ('₈', '8'), ('₉', '9'),
    ('₍', '('), ('₎', ')'), ('₊', '+'), ('₋', '-'), ('₌', '='),
    ('⁰', '0'), ('¹', '1'), ('²', '2'), ('³', '3'), ('⁴', '4'),
    ('⁵', '5'), ('⁶', '6'), ('⁷', '7'), ('⁸', '8'), ('⁹', '9'),
    ('⁺', '+'), ('⁻', '-'), ('⁼', '='), ('⁽', '('), ('⁾', ')'),
    ('ⁱ', 'i'), ('ⁿ', 'n')
  ]

  /**
   * A token processor: the words dropped unless their capitalisation is
   * idiomatic, the optional lemmatizer, and `is_numeric` (whether Python's
   * `float()` accepts the token), which stays uninterpreted.
   */
  datatype TokenProcessor = TokenProcessor(filterWords: set<string>, lemmatize: Option<string -> string>,
                                           isNumeric: string -> bool)

  /** The remainder after the first character, `s[1:]` (empty for an empty string). */
  function Rest(s: string): string
  {
    if s == [] then [] else s[1..]
  }

  /**
   * `is_mixed_case`: neither all upper case nor lower case after the first
   * character. When nothing after the first character is lower case, only
   * an all upper-case string fails the test.
   */
  predicate IsMixedCase(s: string)
    ensures IsMixedCase(s) ==> !IsUpper(s)
    ensures (forall i :: 1 <= i < |s| ==> !IsLowerChar(s[i])) ==> (IsMixedCase(s) <==> !IsUpper(s))
  {
    assert forall i :: 0 <= i < |Rest(s)| ==> Rest(s)[i] == s[i + 1];
    !(IsUpper(s) || IsLower(Rest(s)))
  }

  /**
   * `is_capitalization_idiomatic`: all upper case, or mixed case; that is,
   * all upper case or not lower case after the first character.
   */
  predicate IsCapitalizationIdiomatic(s: string)
    ensures IsCapitalizationIdiomatic(s) <==> IsUpper(s) || !IsLower(Rest(s))
  {
    IsUpper(s) || IsMixedCase(s)
  }

  /** An acronym such as `"DNA"` keeps its capitalisation. */
  lemma UpperIsIdiomatic(s: string)
    requires IsUpper(s)
    ensures IsCapitalizationIdiomatic(s)
    ensures !IsMixedCase(s)
  {
  }

  /** A capitalised word (`"Protein"`) or an all lower-case word (`"protein"`) is not idiomatic. */
  lemma WordIsNotIdiomatic(s: string)
    requires |s| >= 2
    requires IsUpperChar(s[0]) || IsLowerChar(s[0])
    requires forall i :: 1 <= i < |s| ==> IsLowerChar(s[i])
    ensures !IsCapitalizationIdiomatic(s)
  {
    assert IsLowerChar(Rest(s)[0]);
    assert IsLowerChar(s[1]);
  }

  /**
   * A lower-case letter followed by no cased character counts as mixed
   * case: the remainder is not lower case because it has no cased
   * character at all.
   */
  lemma LowerThenUncasedIsMixed(s: string)
    requires s != [] && IsLowerChar(s[0])
    requires forall i :: 1 <= i < |s| ==> !IsUpperChar(s[i]) && !IsLowerChar(s[i])
    ensures IsMixedCase(s)
    ensures IsCapitalizationIdiomatic(s)
  {
    assert !IsUpperChar(s[0]);
  }

  /** Every piece of the `sep`-split is all digits. */
  predicate AllDigits(s: string, sep: char)
  {
    var parts := Split(s, sep);
    forall i :: 0 <= i < |parts| ==> IsDigit(parts[i])
  }

  /**
   * `is_date_like`: with a slash, every slash-separated piece is all
   * digits; otherwise, with one or two dashes, every dash-separated piece
   * is all digits; otherwise not a date. An empty piece is not digits, so
   * a date-like token starts with a digit.
   */
  predicate IsDateLike(s: string)
    ensures IsDateLike(s) ==> s != [] && IsDigitChar(s[0])
    ensures IsDateLike(s) && Slash !in s ==> 1 <= Count(s, Dash) <= 2
  {
    FirstPiece(s, if Slash in s then Slash else Dash);
    if Slash in s then AllDigits(s, Slash)
    else if Dash in s && Count(s, Dash) < 3 then AllDigits(s, Dash)
    else false
  }

  /** A character of a join is a character of a piece or the separator. */
  lemma {:induction false} JoinChars(parts: seq<string>, sep: char, c: char)
    requires |parts| >= 1
    requires c in Join(parts, sep)
    ensures c == sep || exists i :: 0 <= i < |parts| && c in parts[i]
    decreases |parts|
  {
    if |parts| > 1 {
      if c !in parts[0] && c != sep {
        assert c in Join(parts[1..], sep);
        JoinChars(parts[1..], sep, c);
        var i :| 0 <= i < |parts[1..]| && c in parts[1..][i];
        assert c in parts[i + 1];
      }
    }
  }

  /** All digits, apart from the separator. */
  lemma DigitsBetween(s: string, sep: char)
    requires AllDigits(s, sep)
    ensures s != []
    ensures forall i :: 0 <= i < |s| ==> IsDigitChar(s[i]) || s[i] == sep
  {
    var parts := Split(s, sep);
    JoinSplit(s, sep);
    forall i | 0 <= i < |s|
      ensures IsDigitChar(s[i]) || s[i] == sep
    {
      JoinChars(parts, sep, s[i]);
      if s[i] != sep {
        var k :| 0 <= k < |parts| && s[i] in parts[k];
        var m :| 0 <= m < |parts[k]| && parts[k][m] == s[i];
      }
    }
    assert IsDigit(parts[0]);
  }

  /** A date-like token is made of digits and slashes only, or of digits and one or two dashes only. */
  lemma DateLikeChars(s: string)
    requires IsDateLike(s)
    ensures s != []
    ensures Slash in s ==> forall i :: 0 <= i < |s| ==> IsDigitChar(s[i]) || s[i] == Slash
    ensures Slash !in s ==> 1 <= Count(s, Dash) <= 2 && forall i :: 0 <= i < |s| ==> IsDigitChar(s[i]) || s[i] == Dash
  {
    if Slash in s {
      DigitsBetween(s, Slash);
    } else {
      DigitsBetween(s, Dash);
    }
  }

  /**
   * Digit groups joined by slashes, or two or three digit groups joined by
   * dashes, are date-like.
   */
  lemma DateFromGroups(groups: seq<string>, sep: char)
    requires sep == Slash || sep == Dash
    requires |groups| >= 2
    requires forall i :: 0 <= i < |groups| ==> IsDigit(groups[i])
    requires sep == Dash ==> |groups| <= 3
    ensures IsDateLike(Join(groups, sep))
  {
    var s := Join(groups, sep);
    forall i, m | 0 <= i < |groups| && 0 <= m < |groups[i]|
      ensures groups[i][m] != sep && groups[i][m] != Slash
    {
      assert IsDigitChar(groups[i][m]);
    }
    SplitJoin(groups, sep);
    SplitCount(s, sep);
    if sep == Dash && Slash in s {
      JoinChars(groups, sep, Slash);
    }
  }

  /** `filter_dashes`: every dash removed, every other character kept, in order. */
  function FilterDashes(s: string): (r: string)
    ensures Dash !in r
    ensures |r| == |s| - Count(s, Dash)
    ensures Dash !in s ==> r == s
  {
    if s == [] then []
    else (if s[0] == Dash then [] else [s[0]]) + FilterDashes(s[1..])
  }

  lemma FilterDashesHead(s: string)
    requires s != []
    ensures FilterDashes(s) == (if s[0] == Dash then [] else [s[0]]) + FilterDashes(s[1..])
  {
  }

  /** Filtering the dashes of a concatenation filters each part, so the kept characters stay in order. */
  lemma {:induction false} FilterDashesAppend(a: string, b: string)
    ensures FilterDashes(a + b) == FilterDashes(a) + FilterDashes(b)
    decreases |a|
  {
    if a != [] {
      var head := if a[0] == Dash then [] else [a[0]];
      assert (a + b)[0] == a[0] && (a + b)[1..] == a[1..] + b;
      FilterDashesHead(a + b);
      FilterDashesHead(a);
      FilterDashesAppend(a[1..], b);
      assert head + (FilterDashes(a[1..]) + FilterDashes(b)) == (head + FilterDashes(a[1..])) + FilterDashes(b);
    } else {
      assert a + b == b;
    }
  }

  /** A filter character becomes a space. */
  function FilterChar(c: char): char
  {
    if c in FilterChars then Space else c
  }

  /** The replacement pairs applied to one character, one pair after the other. */
  function ApplyPairs(c: char, pairs: seq<(char, char)>): char
    decreases |pairs|
  {
    if pairs == [] then c
    else
      var d := ApplyPairs(c, pairs[..|pairs| - 1]);
      if d == pairs[|pairs| - 1].0 then pairs[|pairs| - 1].1 else d
  }

  /** What the cleaning steps of `_tokenize` make of one character. */
  function NormalizeChar(c: char): char
  {
    ApplyPairs(FilterChar(c), ReplacementChars)
  }

  /** The text `_tokenize` splits: every character cleaned. */
  function Normalized(s: string): (r: string)
    ensures |r| == |s|
    ensures forall i :: 0 <= i < |s| ==> r[i] == NormalizeChar(s[i])
  {
    seq(|s|, i requires 0 <= i < |s| => NormalizeChar(s[i]))
  }

  /** A character no pair replaces goes through the pairs unchanged. */
  lemma {:induction false} ApplyPairsKeeps(c: char, pairs: seq<(char, char)>)
    requires forall k :: 0 <= k < |pairs| ==> pairs[k].0 != c
    ensures ApplyPairs(c, pairs) == c
    decreases |pairs|
  {
    if pairs != [] {
      ApplyPairsKeeps(c, pairs[..|pairs| - 1]);
    }
  }

  /**
   * When no replacement produces a character a later pair replaces, a
   * character is replaced by its pair's replacement.
   */
  lemma {:induction false} ApplyPairsReplaces(c: char, pairs: seq<(char, char)>, k: nat)
    requires k < |pairs| && pairs[k].0 == c
    requires forall m :: 0 <= m < k ==> pairs[m].0 != c
    requires forall m :: k < m < |pairs| ==> pairs[m].0 != pairs[k].1
    ensures ApplyPairs(c, pairs) == pairs[k].1
    decreases |pairs|
  {
    var front := pairs[..|pairs| - 1];
    if k == |pairs| - 1 {
      ApplyPairsKeeps(c, front);
    } else {
      ApplyPairsReplaces(c, front, k);
    }
  }

  /** Every replacement is an ASCII character; every replaced character lies outside ASCII and the filter characters. */
  lemma ReplacementTable()
    ensures forall m :: 0 <= m < |ReplacementChars| ==>
      && ReplacementChars[m].1 < '\U{80}'
      && '\U{b0}' < ReplacementChars[m].0
      && (ReplacementChars[m].0 < '\U{400}' || '\U{2070}' <= ReplacementChars[m].0)
  {
  }

  /** A filter character becomes a space, which no pair touches. */
  lemma FilteredToSpace(c: char)
    requires c in FilterChars
    ensures NormalizeChar(c) == Space
  {
    ReplacementTable();
    ApplyPairsKeeps(Space, ReplacementChars);
  }

  /**
   * A special character becomes the replacement of the first pair that
   * names it. Filtering comes first, so the parentheses that `₍₎⁽⁾`
   * become are kept.
   */
  lemma SpecialToVariant(c: char, k: nat)
    requires k < |ReplacementChars| && ReplacementChars[k].0 == c
    requires forall m :: 0 <= m < k ==> ReplacementChars[m].0 != c
    ensures NormalizeChar(c) == ReplacementChars[k].1
  {
    ReplacementTable();
    assert c !in FilterChars;
    ApplyPairsReplaces(c, ReplacementChars, k);
  }

  /** Every other character is kept. */
  lemma OtherKept(c: char)
    requires c !in FilterChars
    requires forall m :: 0 <= m < |ReplacementChars| ==> ReplacementChars[m].0 != c
    ensures NormalizeChar(c) == c
  {
    ApplyPairsKeeps(c, ReplacementChars);
  }

  /** The subscript opening parenthesis survives as a parenthesis, although `(` is a filter character. */
  lemma SubscriptParenthesisKept()
    ensures NormalizeChar('₍') == '('
  {
    SpecialToVariant('₍', 12);
  }

  /** `[w.strip() for w in parts]`. */
  function StripAll(parts: seq<string>): (r: seq<string>)
    ensures |r| == |parts|
    ensures forall i :: 0 <= i < |parts| ==> r[i] == Strip(parts[i])
  {
    seq(|parts|, i requires 0 <= i < |parts| => Strip(parts[i]))
  }

  /**
   * The tokens `_tokenize` returns for the cleaned text `t`: the stripped
   * space-separated pieces, then, when `t` has a dash, the non-empty
   * stripped dash-separated pieces.
   */
  function TokensOf(t: string): (r: seq<string>)
    ensures |r| >= Count(t, Space) + 1
    ensures Dash !in t ==> |r| == Count(t, Space) + 1
  {
    SplitCount(t, Space);
    var spaced := StripAll(Split(t, Space));
    if Dash in t then spaced + NonEmpty(StripAll(Split(t, Dash))) else spaced
  }

  /** Stripping keeps a piece free of a character it lacks, and never lengthens it. */
  lemma StripKeepsOut(p: string, c: char)
    requires c !in p
    ensures c !in Strip(p)
  {
    var j := StripOffset(p);
    forall m | 0 <= m < |Strip(p)|
      ensures Strip(p)[m] != c
    {
      assert Strip(p)[m] == p[j + m];
    }
  }

  /** The stripped pieces of a `sep`-split hold no `sep` and are no longer than the text. */
  lemma StrippedPieces(t: string, sep: char)
    ensures forall i :: 0 <= i < |Split(t, sep)| ==>
      sep !in StripAll(Split(t, sep))[i] && |StripAll(Split(t, sep))[i]| <= |t|
  {
    var pieces := Split(t, sep);
    forall i | 0 <= i < |pieces|
      ensures sep !in Strip(pieces[i])
    {
      StripKeepsOut(pieces[i], sep);
    }
  }

  /**
   * The shape of the token list: one token per space-separated piece
   * (without spaces), then only non-empty dash-free tokens; no token is
   * longer than the text.
   */
  lemma TokensShape(t: string)
    ensures var tokens := TokensOf(t); var pieces := Split(t, Space);
      && |pieces| <= |tokens|
      && (forall i :: 0 <= i < |pieces| ==> tokens[i] == Strip(pieces[i]) && Space !in tokens[i])
      && (forall i :: |pieces| <= i < |tokens| ==> tokens[i] != [] && Dash !in tokens[i])
      && (Dash !in t ==> |tokens| == |pieces|)
      && (forall i :: 0 <= i < |tokens| ==> |tokens[i]| <= |t|)
  {
    var spaced := StripAll(Split(t, Space));
    StrippedPieces(t, Space);
    if Dash in t {
      var dashed := StripAll(Split(t, Dash));
      StrippedPieces(t, Dash);
      var kept := NonEmpty(dashed);
      forall i | 0 <= i < |kept|
        ensures Dash !in kept[i] && |kept[i]| <= |t|
      {
        var k :| 0 <= k < |dashed| && dashed[k] == kept[i];
      }
      assert TokensOf(t) == spaced + kept;
    }
  }

  /**
   * `_tokenize`: replace every filter character by a space, then apply the
   * replacement pairs in order, then split.
   */
  method Tokenize(s0: string) returns (tokens: seq<string>)
    ensures tokens == TokensOf(Normalized(s0))
  {
    var s := s0;
    for k := 0 to |FilterChars|
      invariant |s| == |s0|
      invariant forall i :: 0 <= i < |s0| ==> s[i] == if s0[i] in FilterChars[..k] then Space else s0[i]
    {
      assert FilterChars[..k + 1] == FilterChars[..k] + [FilterChars[k]];
      s := ReplaceChar(s, FilterChars[k], Space);
    }
    assert FilterChars[..|FilterChars|] == FilterChars;
    ghost var filtered := s;
    for k := 0 to |ReplacementChars|
      invariant |s| == |s0|
      invariant forall i :: 0 <= i < |s0| ==> s[i] == ApplyPairs(filtered[i], ReplacementChars[..k])
    {
      assert ReplacementChars[..k + 1][..k] == ReplacementChars[..k];
      s := ReplaceChar(s, ReplacementChars[k].0, ReplacementChars[k].1);
    }
    assert ReplacementChars[..|ReplacementChars|] == ReplacementChars;
    assert s == Normalized(s0);
    tokens := StripAll(Split(s, Space));
    if Dash in s {
      var dashed := StripAll(Split(s, Dash));
      tokens := tokens + NonEmpty(dashed);
    }
  }

  /** Tokens `extract` ignores: too short, numeric, or date-like. */
  predicate Skipped(tp: TokenProcessor, token: string)
  {
    |token| < MinTokenLength || tp.isNumeric(token) || IsDateLike(token)
  }

  /** The extra lemma term: present when a lemmatizer is given and its lemma differs from the lower-case form. */
  function LemmaTerm(tp: TokenProcessor, lower: string): Option<string>
  {
    if tp.lemmatize.Some? && tp.lemmatize.value(lower) != lower then Some(tp.lemmatize.value(lower)) else None
  }

  /** `c` with the lemma term of `lower`, if any, counted once more. */
  function WithLemma(tp: TokenProcessor, lower: string, c: Counts): Counts
  {
    match LemmaTerm(tp, lower)
    case Some(l) => Inc(c, l)
    case None => c
  }

  /**
   * What one token adds to the counts `extract` builds: nothing for a
   * skipped token; a counted token with idiomatic capitalisation is counted
   * under its own and its lower-case form even when that is a filter word.
   */
  function TokenTerms(tp: TokenProcessor, token: string): (r: Counts)
    ensures Skipped(tp, token) ==> r == map[]
    ensures !Skipped(tp, token) && IsCapitalizationIdiomatic(token) ==> token in r && Lower(token) in r
    ensures !Skipped(tp, token) && !IsCapitalizationIdiomatic(token) && Lower(token) !in tp.filterWords ==> Lower(token) in r
  {
    if Skipped(tp, token) then map[]
    else
      var lower := Lower(token);
      if IsCapitalizationIdiomatic(token) then WithLemma(tp, lower, Inc(Inc(map[], token), lower))
      else if lower !in tp.filterWords then WithLemma(tp, lower, Inc(map[], lower))
      else map[]
  }

  /** A token's counts are positive and only for the token, its lower-case form and its lemma. */
  lemma TokenTermsKeys(tp: TokenProcessor, token: string, u: string)
    requires u in TokenTerms(tp, token)
    ensures TokenTerms(tp, token)[u] >= 1
    ensures u == token || u == Lower(token) || LemmaTerm(tp, Lower(token)) == Some(u)
  {
    var lower := Lower(token);
    if IsCapitalizationIdiomatic(token) {
      WithLemmaCounts(tp, lower, Inc(Inc(map[], token), lower), u);
    } else {
      WithLemmaCounts(tp, lower, Inc(map[], lower), u);
    }
  }

  /** The counts of a whole token list, token by token. */
  function Terms(tp: TokenProcessor, tokens: seq<string>): Counts
    decreases |tokens|
  {
    if tokens == [] then map[]
    else Update(Terms(tp, tokens[..|tokens| - 1]), TokenTerms(tp, tokens[|tokens| - 1]))
  }

  /** `extract(s)` as a value: the counts of the tokens of the cleaned text. */
  function Extracted(tp: TokenProcessor, s: string): Counts
  {
    Terms(tp, TokensOf(Normalized(s)))
  }

  /** Short, numeric and date-like tokens add nothing. */
  lemma SkippedAddsNothing(tp: TokenProcessor, token: string)
    requires |token| < MinTokenLength || tp.isNumeric(token) || IsDateLike(token)
    ensures TokenTerms(tp, token) == map[]
  {
  }

  /** How the lemma term adds to a count. */
  lemma WithLemmaCounts(tp: TokenProcessor, lower: string, c: Counts, u: string)
    ensures Get(WithLemma(tp, lower, c), u) ==
      Get(c, u) + if LemmaTerm(tp, lower) == Some(u) then 1 else 0
    ensures forall w :: w in WithLemma(tp, lower, c) ==> w in c || LemmaTerm(tp, lower) == Some(w)
  {
  }

  /**
   * A counted token with idiomatic capitalisation adds one to its own form
   * and one to its lower-case form, even when the lower-case form is a
   * filter word, so a token equal to its lower-case form gets two; plus
   * one for its lemma when that differs. Nothing else is counted.
   */
  lemma IdiomaticTokenTerms(tp: TokenProcessor, token: string, u: string)
    requires !Skipped(tp, token) && IsCapitalizationIdiomatic(token)
    ensures Get(TokenTerms(tp, token), u) ==
      (if u == token then 1 else 0) + (if u == Lower(token) then 1 else 0)
      + (if LemmaTerm(tp, Lower(token)) == Some(u) then 1 else 0)
  {
    var lower := Lower(token);
    WithLemmaCounts(tp, lower, Inc(Inc(map[], token), lower), u);
  }

  /**
   * A counted token without idiomatic capitalisation is dropped when its
   * lower-case form is a filter word; otherwise only its lower-case form
   * gets one, plus one for its lemma when that differs.
   */
  lemma PlainTokenTerms(tp: TokenProcessor, token: string, u: string)
    requires !Skipped(tp, token) && !IsCapitalizationIdiomatic(token)
    ensures Lower(token) in tp.filterWords ==> TokenTerms(tp, token) == map[]
    ensures Lower(token) !in tp.filterWords ==>
      Get(TokenTerms(tp, token), u) ==
        (if u == Lower(token) then 1 else 0) + (if LemmaTerm(tp, Lower(token)) == Some(u) then 1 else 0)
  {
    var lower := Lower(token);
    if lower !in tp.filterWords {
      WithLemmaCounts(tp, lower, Inc(map[], lower), u);
    }
  }

  /** Without a lemmatizer, a token counts only under its own and its lower-case form. */
  lemma NoLemmatizerTerms(tp: TokenProcessor, token: string)
    requires tp.lemmatize.None?
    ensures TokenTerms(tp, token).Keys <= {token, Lower(token)}
  {
  }

  /** Every count `extract` produces is positive or absent. */
  lemma {:induction false} TermsNonNegative(tp: TokenProcessor, tokens: seq<string>)
    ensures NonNegative(Terms(tp, tokens))
    decreases |tokens|
  {
    if tokens != [] {
      var token := tokens[|tokens| - 1];
      TermsNonNegative(tp, tokens[..|tokens| - 1]);
      var d := TokenTerms(tp, token);
      forall u | u in d
        ensures d[u] >= 0
      {
        if !Skipped(tp, token) {
          if IsCapitalizationIdiomatic(token) {
            IdiomaticTokenTerms(tp, token, u);
          } else {
            PlainTokenTerms(tp, token, u);
          }
        }
      }
      var c := Terms(tp, tokens[..|tokens| - 1]);
      forall u | u in Update(c, d)
        ensures Update(c, d)[u] >= 0
      {
        assert Get(Update(c, d), u) == Get(c, u) + Get(d, u);
      }
    }
  }

  /** A token list whose every token is too short to count yields no counts. */
  lemma {:induction false} ShortTokensNoTerms(tp: TokenProcessor, tokens: seq<string>)
    requires forall i :: 0 <= i < |tokens| ==> |tokens[i]| < MinTokenLength
    ensures Terms(tp, tokens) == map[]
    decreases |tokens|
  {
    if tokens != [] {
      ShortTokensNoTerms(tp, tokens[..|tokens| - 1]);
      UpdateEmptyLeft(map[]);
    }
  }

  /** Text shorter than `MIN_TOKEN_LENGTH` yields no counts: no token is longer than the text. */
  lemma ShortTextNoTerms(tp: TokenProcessor, s: string)
    requires |s| < MinTokenLength
    ensures Extracted(tp, s) == map[]
  {
    TokensShape(Normalized(s));
    ShortTokensNoTerms(tp, TokensOf(Normalized(s)));
  }

  /** One more token adds its own counts. */
  lemma TermsStep(tp: TokenProcessor, tokens: seq<string>, i: nat)
    requires i < |tokens|
    ensures Terms(tp, tokens[..i + 1]) == Update(Terms(tp, tokens[..i]), TokenTerms(tp, tokens[i]))
  {
    assert tokens[..i + 1][..i] == tokens[..i];
  }

  /** The body of `extract`'s loop: add what one token counts to the running counts. */
  method CountToken(tp: TokenProcessor, counts: Counts, token: string) returns (terms: Counts)
    ensures terms == Update(counts, TokenTerms(tp, token))
  {
    terms := counts;
    if |token| < MinTokenLength || tp.isNumeric(token) || IsDateLike(token) {
      UpdateEmptyRight(terms);
      return;
    }
    var lower := Lower(token);
    var lemmatized := if tp.lemmatize.Some? then Some(tp.lemmatize.value(lower)) else None;
    if IsCapitalizationIdiomatic(token) {
      UpdateInc(counts, map[], token);
      UpdateEmptyRight(counts);
      UpdateInc(counts, Inc(map[], token), lower);
      terms := Inc(terms, token);
      terms := Inc(terms, lower);
      if lemmatized.Some? && lemmatized.value != lower {
        UpdateInc(counts, Inc(Inc(map[], token), lower), lemmatized.value);
        terms := Inc(terms, lemmatized.value);
      }
    } else if lower !in tp.filterWords {
      UpdateInc(counts, map[], lower);
      UpdateEmptyRight(counts);
      terms := Inc(terms, lower);
      if lemmatized.Some? && lemmatized.value != lower {
        UpdateInc(counts, Inc(map[], lower), lemmatized.value);
        terms := Inc(terms, lemmatized.value);
      }
    } else {
      UpdateEmptyRight(terms);
    }
  }

  /** `extract`: count the terms of every token of `_tokenize(s)`. */
  method Extract(tp: TokenProcessor, s: string) returns (terms: Counts)
    ensures terms == Extracted(tp, s)
  {
    terms := map[];
    var tokens := Tokenize(s);
    assert tokens[..0] == [];
    for i := 0 to |tokens|
      invariant terms == Terms(tp, tokens[..i])
    {
      TermsStep(tp, tokens, i);
      terms := CountToken(tp, terms, tokens[i]);
    }
    assert tokens[..|tokens|] == tokens;
  }
}
