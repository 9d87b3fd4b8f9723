/**
 * The handful of Python `str` operations the token processor, the language
 * model builder and the data-file parsers use, on `string` (a sequence of
 * characters): `split` on one separator character, `strip`, `replace` of
 * one character by another, `count`, `lower`, `isupper`, `islower` and `isdigit`,
 * and the comprehension `[w for w in parts if w]` that drops empty pieces.
 * Case and digit tests are ASCII-only.
 */
module Text {

  /** `s.split(sep)` for a one-character `sep`: the pieces between separators, empty ones included. */
  function Split(s: string, sep: char): (parts: seq<string>)
    ensures |parts| >= 1
    ensures forall i :: 0 <= i < |parts| ==> sep !in parts[i] && |parts[i]| <= |s|
    decreases |s|
  {
    if s == [] then [[]]
    else
      var rest := Split(s[1..], sep);
      if s[0] == sep then [[]] + rest
      else [[s[0]] + rest[0]] + rest[1..]
  }

  /** `sep.join(parts)`. */
  function Join(parts: seq<string>, sep: char): string
    requires |parts| >= 1
    decreases |parts|
  {
    if |parts| == 1 then parts[0] else parts[0] + [sep] + Join(parts[1..], sep)
  }

  /** Joining the pieces back with the separator gives the original string. */
  lemma {:induction false} JoinSplit(s: string, sep: char)
    ensures Join(Split(s, sep), sep) == s
    decreases |s|
  {
    if s != [] {
      var rest := Split(s[1..], sep);
      JoinSplit(s[1..], sep);
      if s[0] == sep {
        assert Split(s, sep)[1..] == rest;
      } else if |rest| == 1 {
        assert Join(Split(s, sep), sep) == [s[0]] + rest[0];
      } else {
        assert Split(s, sep)[1..] == rest[1..];
        assert Join(rest, sep) == rest[0] + [sep] + Join(rest[1..], sep);
        assert Join(Split(s, sep), sep) == [s[0]] + rest[0] + [sep] + Join(rest[1..], sep);
      }
    }
  }

  /** Splitting a join of separator-free pieces gives the pieces back. */
  lemma {:induction false} SplitJoin(parts: seq<string>, sep: char)
    requires |parts| >= 1
    requires forall i :: 0 <= i < |parts| ==> sep !in parts[i]
    ensures Split(Join(parts, sep), sep) == parts
    decreases |parts|, |parts[0]|
  {
    if parts[0] != [] {
      var p := parts[0];
      var tail := [p[1..]] + parts[1..];
      assert Join(parts, sep) == [p[0]] + Join(tail, sep) by {
        if |parts| == 1 {
        } else {
          assert Join(tail, sep) == p[1..] + [sep] + Join(tail[1..], sep);
          assert tail[1..] == parts[1..];
        }
      }
      SplitJoin(tail, sep);
      assert Join(parts, sep)[1..] == Join(tail, sep);
      assert [p[0]] + p[1..] == p;
      assert parts == [[p[0]] + tail[0]] + tail[1..];
    } else if |parts| > 1 {
      SplitJoin(parts[1..], sep);
      assert Join(parts, sep) == [sep] + Join(parts[1..], sep);
      assert Join(parts, sep)[1..] == Join(parts[1..], sep);
    }
  }

  /** Concatenation is associative. */
  lemma AppendAssociates<T>(x: seq<T>, y: seq<T>, z: seq<T>)
    ensures x + (y + z) == (x + y) + z
  {
  }

  /**
   * The first piece of a split is a prefix of the string; it is empty
   * exactly when the string is empty or starts with the separator.
   */
  lemma {:induction false} FirstPiece(s: string, sep: char)
    ensures Split(s, sep)[0] <= s
    ensures Split(s, sep)[0] == [] <==> s == [] || s[0] == sep
    decreases |s|
  {
    if s != [] && s[0] != sep {
      FirstPiece(s[1..], sep);
      assert s == [s[0]] + s[1..];
    }
  }

  /** Splitting a string with a known first character. */
  lemma SplitCons(c: char, t: string, sep: char)
    ensures Split([c] + t, sep) ==
      if c == sep then [[]] + Split(t, sep) else [[c] + Split(t, sep)[0]] + Split(t, sep)[1..]
  {
    assert ([c] + t)[0] == c && ([c] + t)[1..] == t;
  }

  /** Joining two lists of pieces is joining each and putting a separator between. */
  lemma {:induction false} JoinAppend(p: seq<string>, q: seq<string>, sep: char)
    requires |p| >= 1 && |q| >= 1
    ensures Join(p + q, sep) == Join(p, sep) + [sep] + Join(q, sep)
    decreases |p|
  {
    assert (p + q)[0] == p[0] && (p + q)[1..] == p[1..] + q;
    if |p| > 1 {
      JoinAppend(p[1..], q, sep);
      AppendAssociates(p[0] + [sep], Join(p[1..], sep), [sep] + Join(q, sep));
    }
  }

  /** Splitting at a separator splits each side: the pieces of `a`, then the pieces of `b`. */
  lemma SplitAtSeparator(a: string, b: string, sep: char)
    ensures Split(a + [sep] + b, sep) == Split(a, sep) + Split(b, sep)
  {
    var p, q := Split(a, sep), Split(b, sep);
    JoinSplit(a, sep);
    JoinSplit(b, sep);
    JoinAppend(p, q, sep);
    SplitJoin(p + q, sep);
  }

  /** Two consecutive separators leave an empty piece between them. */
  lemma DoubleSeparatorEmptyPiece(s: string, sep: char, i: nat)
    requires i + 1 < |s| && s[i] == sep && s[i + 1] == sep
    ensures Split(s, sep) == Split(s[..i], sep) + [[]] + Split(s[i + 2..], sep)
    ensures [] in Split(s, sep)
  {
    var tail := [sep] + s[i + 2..];
    assert s == s[..i] + [sep] + tail;
    SplitAtSeparator(s[..i], tail, sep);
    assert tail[1..] == s[i + 2..];
    assert Split(s, sep)[|Split(s[..i], sep)|] == [];
  }

  /** `[w for w in parts if w]`: the non-empty pieces, in order. */
  function NonEmpty<T>(parts: seq<seq<T>>): (r: seq<seq<T>>)
    ensures forall i :: 0 <= i < |r| ==> r[i] != [] && r[i] in parts
    ensures forall w :: w in parts && w != [] ==> w in r
    ensures multiset(r) == multiset(parts)[[] := 0]
    decreases |parts|
  {
    if parts == [] then []
    else
      var rest := NonEmpty(parts[1..]);
      assert parts == [parts[0]] + parts[1..];
      (if parts[0] == [] then [] else [parts[0]]) + rest
  }

  /** A single piece is kept exactly when it is non-empty. */
  lemma NonEmptySingle<T>(w: seq<T>)
    ensures NonEmpty([w]) == if w == [] then [] else [w]
  {
    assert [w][1..] == [];
  }

  /** Filtering a concatenation filters each part, so the kept pieces keep their order. */
  lemma {:induction false} NonEmptyAppend<T>(a: seq<seq<T>>, b: seq<seq<T>>)
    ensures NonEmpty(a + b) == NonEmpty(a) + NonEmpty(b)
    decreases |a|
  {
    if a == [] {
      assert a + b == b;
    } else {
      assert (a + b)[0] == a[0] && (a + b)[1..] == a[1..] + b;
      NonEmptyAppend(a[1..], b);
    }
  }

  /**
   * The non-empty pieces of a split, one character at a time: a leading
   * separator adds nothing, and any other character starts a new piece or
   * joins the first non-empty piece of the rest.
   */
  lemma NonEmptySplitCons(c: char, t: string, sep: char)
    ensures var rest := NonEmpty(Split(t, sep));
      NonEmpty(Split([c] + t, sep)) ==
        if c == sep then rest
        else if t == [] || t[0] == sep then [[c]] + rest
        else [[c] + rest[0]] + rest[1..]
  {
    var pieces := Split(t, sep);
    var rest, later := NonEmpty(pieces), NonEmpty(pieces[1..]);
    SplitCons(c, t, sep);
    FirstPiece(t, sep);
    assert pieces == [pieces[0]] + pieces[1..];
    NonEmptyAppend([pieces[0]], pieces[1..]);
    NonEmptySingle(pieces[0]);
    if c == sep {
      NonEmptyAppend([[]], pieces);
      NonEmptySingle<char>([]);
      assert [] + rest == rest;
    } else {
      var head := [c] + pieces[0];
      NonEmptyAppend([head], pieces[1..]);
      NonEmptySingle(head);
      if pieces[0] == [] {
        assert head == [c];
        assert [] + later == later;
      } else {
        assert rest == [pieces[0]] + later;
        assert rest[1..] == later;
      }
    }
  }

  /** `s.count(c)` for one character. */
  function Count(s: string, c: char): (n: nat)
    ensures n <= |s|
    ensures n == 0 <==> c !in s
  {
    if s == [] then 0 else (if s[0] == c then 1 else 0) + Count(s[1..], c)
  }

  /** There is one more piece than separators. */
  lemma {:induction false} SplitCount(s: string, sep: char)
    ensures |Split(s, sep)| == Count(s, sep) + 1
    decreases |s|
  {
    if s != [] {
      SplitCount(s[1..], sep);
    }
  }

  /** `s.replace(a, b)` for one character replaced by one character. */
  function ReplaceChar(s: string, a: char, b: char): (r: string)
    ensures |r| == |s|
    ensures forall i :: 0 <= i < |s| ==> r[i] == (if s[i] == a then b else s[i])
  {
    seq(|s|, i requires 0 <= i < |s| => if s[i] == a then b else s[i])
  }

  /** Python's `str.isspace` characters (the code points it strips). */
  predicate IsSpace(c: char)
  {
    c == ' ' || '\t' <= c <= '\r' || '\U{1c}' <= c <= '\U{1f}' || c == '\U{85}' || c == '\U{a0}'
    || c == '\U{1680}' || '\U{2000}' <= c <= '\U{200a}' || c == '\U{2028}' || c == '\U{2029}'
    || c == '\U{202f}' || c == '\U{205f}' || c == '\U{3000}'
  }

  /** The first index at or after `i` that does not hold whitespace (`|s|` if none). */
  function SkipSpaces(s: string, i: nat): (j: nat)
    requires i <= |s|
    ensures i <= j <= |s|
    ensures forall k :: i <= k < j ==> IsSpace(s[k])
    ensures j == |s| || !IsSpace(s[j])
    decreases |s| - i
  {
    if i < |s| && IsSpace(s[i]) then SkipSpaces(s, i + 1) else i
  }

  /** The end of `s[lo..j]` once its trailing whitespace is cut away. */
  function SkipTrailingSpaces(s: string, lo: nat, j: nat): (e: nat)
    requires lo <= j <= |s|
    ensures lo <= e <= j
    ensures forall k :: e <= k < j ==> IsSpace(s[k])
    ensures e == lo || !IsSpace(s[e - 1])
    decreases j
  {
    if lo < j && IsSpace(s[j - 1]) then SkipTrailingSpaces(s, lo, j - 1) else j
  }

  /** Where `s.strip()` starts: the number of leading whitespace characters. */
  function StripOffset(s: string): (i: nat)
    ensures i <= |s|
    ensures forall k :: 0 <= k < i ==> IsSpace(s[k])
  {
    SkipSpaces(s, 0)
  }

  /**
   * `s.strip()`: the slice of `s` starting after its leading whitespace
   * that neither starts nor ends with whitespace, only whitespace cut
   * away on either side.
   */
  function Strip(s: string): (r: string)
    ensures |r| <= |s|
    ensures r == [] || (!IsSpace(r[0]) && !IsSpace(r[|r| - 1]))
    ensures var i := StripOffset(s);
      && i + |r| <= |s| && r == s[i..i + |r|]
      && forall k :: i + |r| <= k < |s| ==> IsSpace(s[k])
  {
    var i := SkipSpaces(s, 0);
    s[i..SkipTrailingSpaces(s, i, |s|)]
  }

  /** A string without surrounding whitespace is its own strip, so stripping twice is stripping once. */
  lemma StripIdempotent(s: string)
    ensures (s == [] || (!IsSpace(s[0]) && !IsSpace(s[|s| - 1]))) ==> Strip(s) == s
    ensures Strip(Strip(s)) == Strip(s)
  {
  }

  predicate IsUpperChar(c: char) { 'A' <= c <= 'Z' }

  predicate IsLowerChar(c: char) { 'a' <= c <= 'z' }

  predicate IsDigitChar(c: char) { '0' <= c <= '9' }

  /** `c.lower()` on ASCII letters; every other character is kept. */
  function LowerChar(c: char): (d: char)
    ensures !IsUpperChar(d)
    ensures IsUpperChar(c) <==> d != c
  {
    if IsUpperChar(c) then (c as int + 32) as char else c
  }

  /** `s.lower()`. */
  function Lower(s: string): (r: string)
    ensures |r| == |s|
    ensures forall i :: 0 <= i < |s| ==> r[i] == LowerChar(s[i])
  {
    seq(|s|, i requires 0 <= i < |s| => LowerChar(s[i]))
  }

  /** `s.isupper()`: some cased character, and no lower-case one. */
  predicate IsUpper(s: string)
  {
    (exists i :: 0 <= i < |s| && IsUpperChar(s[i])) && forall i :: 0 <= i < |s| ==> !IsLowerChar(s[i])
  }

  /** `s.islower()`: some cased character, and no upper-case one. */
  predicate IsLower(s: string)
  {
    (exists i :: 0 <= i < |s| && IsLowerChar(s[i])) && forall i :: 0 <= i < |s| ==> !IsUpperChar(s[i])
  }

  /** `s.isdigit()`: non-empty and all digits. */
  predicate IsDigit(s: string)
  {
    s != [] && forall i :: 0 <= i < |s| ==> IsDigitChar(s[i])
  }

  /** Lower-casing an upper-case string changes it. */
  lemma UpperLowerDiffers(s: string)
    requires IsUpper(s)
    ensures Lower(s) != s
  {
    var i :| 0 <= i < |s| && IsUpperChar(s[i]);
    assert Lower(s)[i] != s[i];
  }
}
