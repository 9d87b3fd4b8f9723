/**
 * analysis/data_processing_utils.py: reading PubMed ids, and optionally a
 * label per id, from a data file. The file is given as its lines (what
 * iterating over the open file yields, line terminators included).
 */
module DataProcessing {
  import opened Wrappers
  import opened Text

  const Space := ' '
  const Tab := '\t'

  /**
   * A `DatasetDescriptor`: the data file (here its lines) and its field
   * separator, tab by default. `None` stands for Python's `None`
   * separator, which splits on runs of whitespace.
   */
  datatype DatasetDescriptor = DatasetDescriptor(lines: seq<string>, separator: Option<char> := Some(Tab))

  /** The exceptions reading a data file can raise. */
  datatype DataError =
    | ValueError(literal: string)   // `int(...)` of something that is not an integer
    | IndexError                    // a row without the field asked for

  // ---------------------------------------------------------------- int()

  function DigitValue(c: char): nat
    requires IsDigitChar(c)
  {
    c as int - '0' as int
  }

  function DigitChar(d: nat): (c: char)
    requires d < 10
    ensures IsDigitChar(c) && DigitValue(c) == d
  {
    ('0' as int + d) as char
  }

  /** The value of a string of decimal digits, most significant first. */
  function DigitsValue(ds: string): nat
    requires forall i :: 0 <= i < |ds| ==> IsDigitChar(ds[i])
    decreases |ds|
  {
    if ds == [] then 0 else DigitsValue(ds[..|ds| - 1]) * 10 + DigitValue(ds[|ds| - 1])
  }

  /**
   * A decimal literal without surrounding whitespace: at least one digit,
   * after at most one sign. The value is that of the digits, negated after
   * a minus sign.
   */
  function ParseSigned(t: string): (r: Option<int>)
    ensures r.Some? <==> IsDigit(t) || (|t| >= 2 && (t[0] == '+' || t[0] == '-') && IsDigit(t[1..]))
    ensures r.Some? && t[0] == '-' ==> r.value == -(DigitsValue(t[1..]) as int)
    ensures r.Some? && t[0] == '+' ==> r.value == DigitsValue(t[1..])
    ensures r.Some? && IsDigitChar(t[0]) ==> r.value == DigitsValue(t)
    ensures (forall i :: 0 <= i < |t| ==> !IsDigitChar(t[i])) ==> r.None?
  {
    var signed := t != [] && (t[0] == '+' || t[0] == '-');
    var digits := if signed then t[1..] else t;
    if !IsDigit(digits) then None
    else
      assert digits[0] == t[|t| - |digits|];
      var v: int := DigitsValue(digits);
      Some(if signed && t[0] == '-' then -v else v)
  }

  /**
   * Python's `int(s)` on a decimal literal: surrounding whitespace is
   * ignored, then one optional sign and at least one digit; anything else
   * is `None` (the `ValueError`).
   */
  function ParseInt(s: string): (r: Option<int>)
    ensures var t := Strip(s);
      r.Some? <==> IsDigit(t) || (|t| >= 2 && (t[0] == '+' || t[0] == '-') && IsDigit(t[1..]))
    ensures var t := Strip(s); r.Some? && t[0] == '-' ==> r.value == -(DigitsValue(t[1..]) as int)
    ensures var t := Strip(s); r.Some? && t[0] == '+' ==> r.value == DigitsValue(t[1..])
    ensures var t := Strip(s); r.Some? && IsDigitChar(t[0]) ==> r.value == DigitsValue(t)
    ensures (forall i :: 0 <= i < |s| ==> !IsDigitChar(s[i])) ==> r.None?
  {
    var t := Strip(s);
    assert forall k :: 0 <= k < |t| ==> t[k] in s;
    ParseSigned(t)
  }

  /**
   * `int()` raises on trailing junk, on a space inside the digits and on a
   * doubled sign.
   */
  lemma ParseIntExamples()
    ensures ParseInt("12a") == None
    ensures ParseInt("1 2") == None
    ensures ParseInt("+-5") == None
  {
    RejectedLiteral("12a", 2);
    RejectedLiteral("1 2", 1);
    RejectedLiteral("+-5", 1);
  }

  /** A string without surrounding whitespace with a non-digit after its first character is not an integer literal. */
  lemma RejectedLiteral(s: string, k: nat)
    requires 0 < k < |s| && !IsSpace(s[0]) && !IsSpace(s[|s| - 1]) && !IsDigitChar(s[k])
    ensures ParseInt(s) == None
  {
    StripIdempotent(s);
    assert s[1..][k - 1] == s[k];
  }

  /** The decimal digits of `n`, without leading zeros. */
  function ShowNat(n: nat): (s: string)
    ensures s != []
    ensures forall i :: 0 <= i < |s| ==> IsDigitChar(s[i])
    decreases n
  {
    if n < 10 then [DigitChar(n)] else ShowNat(n / 10) + [DigitChar(n % 10)]
  }

  /** `str(n)` for an integer. */
  function ShowInt(n: int): (s: string)
    ensures s != [] && !IsSpace(s[0]) && !IsSpace(s[|s| - 1])
    ensures forall i :: 0 <= i < |s| ==> IsDigitChar(s[i]) || s[i] == '-'
  {
    if n < 0 then "-" + ShowNat(-n) else ShowNat(n)
  }

  lemma {:induction false} DigitsValueShowNat(n: nat)
    ensures DigitsValue(ShowNat(n)) == n
    decreases n
  {
    if n >= 10 {
      var s := ShowNat(n);
      assert s[..|s| - 1] == ShowNat(n / 10);
      DigitsValueShowNat(n / 10);
    }
  }

  lemma ParseSignedShowInt(n: int)
    ensures ParseSigned(ShowInt(n)) == Some(n)
  {
    var s := ShowInt(n);
    if n < 0 {
      assert s[1..] == ShowNat(-n);
      DigitsValueShowNat(-n);
    } else {
      DigitsValueShowNat(n);
    }
  }

  /** `int(str(n)) == n`. */
  lemma ParseIntShowInt(n: int)
    ensures ParseInt(ShowInt(n)) == Some(n)
  {
    StripIdempotent(ShowInt(n));
    ParseSignedShowInt(n);
  }

  // ---------------------------------------------------------------- rows

  /**
   * `s.split()` with no separator: the maximal runs of non-whitespace
   * characters.
   */
  function Words(s: string): (ws: seq<string>)
    ensures forall i :: 0 <= i < |ws| ==> ws[i] != []
    ensures forall i, k :: 0 <= i < |ws| && 0 <= k < |ws[i]| ==> !IsSpace(ws[i][k])
    ensures ws == [] <==> forall k :: 0 <= k < |s| ==> IsSpace(s[k])
    decreases |s|
  {
    if s == [] then []
    else if IsSpace(s[0]) then Words(s[1..])
    else
      var rest := Words(s[1..]);
      if |s| > 1 && !IsSpace(s[1]) then
        assert !IsSpace(s[1..][0]);
        [[s[0]] + rest[0]] + rest[1..]
      else [[s[0]]] + rest
  }

  /** `s` with every whitespace character replaced by a space. */
  function Blanked(s: string): (r: string)
    ensures |r| == |s|
    ensures forall i :: 0 <= i < |s| ==> r[i] == if IsSpace(s[i]) then Space else s[i]
  {
    seq(|s|, i requires 0 <= i < |s| => if IsSpace(s[i]) then Space else s[i])
  }

  /**
   * The words are the non-empty pieces left when every whitespace character
   * is taken as a separator: runs of whitespace separate, and leading or
   * trailing whitespace adds no empty word.
   */
  lemma {:induction false} WordsAreNonEmptyPieces(s: string)
    ensures Words(s) == NonEmpty(Split(Blanked(s), Space))
    decreases |s|
  {
    if s == [] {
      NonEmptySingle<char>([]);
    } else {
      var tail := Blanked(s[1..]);
      assert Blanked(s) == [Blanked(s)[0]] + tail;
      NonEmptySplitCons(Blanked(s)[0], tail, Space);
      WordsAreNonEmptyPieces(s[1..]);
      if |s| > 1 {
        assert tail[0] == Blanked(s)[1];
        assert s[1..][0] == s[1];
      }
    }
  }

  /**
   * `line.strip().split(separator)`: with a separator character every line
   * gives at least one field; with `None` exactly the blank lines give none.
   */
  function Row(line: string, separator: Option<char>): (row: seq<string>)
    ensures separator.Some? ==> |row| >= 1 && forall i :: 0 <= i < |row| ==> separator.value !in row[i]
    ensures separator.None? ==> (row == [] <==> forall k :: 0 <= k < |line| ==> IsSpace(line[k]))
  {
    match separator
    case Some(c) => Split(Strip(line), c)
    case None =>
      var t := Strip(line);
      assert t == [] <==> forall k :: 0 <= k < |line| ==> IsSpace(line[k]) by {
        var i := StripOffset(line);
        if t != [] {
          assert line[i] == t[0];
        }
      }
      Words(t)
  }

  /** The rows of every line. */
  function Rows(lines: seq<string>, separator: Option<char>): (rows: seq<seq<string>>)
    ensures |rows| == |lines|
    ensures forall i :: 0 <= i < |lines| ==> rows[i] == Row(lines[i], separator)
  {
    seq(|lines|, i requires 0 <= i < |lines| => Row(lines[i], separator))
  }

  /** Row `i` is the first non-empty row whose conversion raises. */
  ghost predicate FirstFailure<T>(rows: seq<seq<string>>, parse: seq<string> -> Result<T, DataError>, i: int)
  {
    && 0 <= i < |rows| && rows[i] != [] && parse(rows[i]).Failure?
    && forall k :: 0 <= k < i && rows[k] != [] ==> parse(rows[k]).Success?
  }

  /**
   * `[parse(row) for row in rows if row]`: the empty rows are skipped, the
   * others converted in order, and the first conversion that raises
   * raises out of the whole list.
   */
  function ParseRows<T>(rows: seq<seq<string>>, parse: seq<string> -> Result<T, DataError>): (r: Result<seq<T>, DataError>)
    ensures r.Success? <==> forall i :: 0 <= i < |rows| && rows[i] != [] ==> parse(rows[i]).Success?
    ensures r.Failure? ==> exists i :: FirstFailure(rows, parse, i) && r.error == parse(rows[i]).error
    ensures r.Success? ==> |r.value| <= |rows|
    ensures r.Success? && (forall i :: 0 <= i < |rows| ==> rows[i] != []) ==>
      |r.value| == |rows| && forall i :: 0 <= i < |rows| ==> r.value[i] == parse(rows[i]).value
    decreases |rows|
  {
    if rows == [] then Success([])
    else if rows[0] == [] then
      var rest := ParseRows(rows[1..], parse);
      assert rest.Failure? ==> exists i :: FirstFailure(rows, parse, i) && rest.error == parse(rows[i]).error by {
        if rest.Failure? {
          var i :| FirstFailure(rows[1..], parse, i) && rest.error == parse(rows[1..][i]).error;
          assert FirstFailure(rows, parse, i + 1);
        }
      }
      rest
    else
      match parse(rows[0])
      case Failure(e) =>
        assert FirstFailure(rows, parse, 0);
        Failure(e)
      case Success(v) =>
        var rest := ParseRows(rows[1..], parse);
        if rest.Failure? then
          assert exists i :: FirstFailure(rows, parse, i) && rest.error == parse(rows[i]).error by {
            var i :| FirstFailure(rows[1..], parse, i) && rest.error == parse(rows[1..][i]).error;
            assert FirstFailure(rows, parse, i + 1);
          }
          rest
        else
          Success([v] + rest.value)
  }

  /** Row-by-row agreement of converted values, extended by one row at the front. */
  lemma ConvertedCons<T>(row: seq<string>, v: T, later: seq<seq<string>>, values: seq<T>,
                         parse: seq<string> -> Result<T, DataError>)
    requires parse(row) == Success(v)
    requires |values| == |later| && forall i :: 0 <= i < |values| ==> parse(later[i]) == Success(values[i])
    ensures |[v] + values| == |[row] + later|
    ensures forall i :: 0 <= i < |[v] + values| ==> parse(([row] + later)[i]) == Success(([v] + values)[i])
  {
    forall i | 0 <= i < |[v] + values|
      ensures parse(([row] + later)[i]) == Success(([v] + values)[i])
    {
      if i > 0 {
        assert ([row] + later)[i] == later[i - 1] && ([v] + values)[i] == values[i - 1];
      }
    }
  }

  /**
   * A successful conversion has one value per non-empty row, in order: the
   * value of row `i` of `NonEmpty(rows)` is at position `i`.
   */
  lemma {:induction false} ParseRowsKept<T>(rows: seq<seq<string>>, parse: seq<string> -> Result<T, DataError>)
    ensures var r := ParseRows(rows, parse);
      r.Success? ==>
        && |r.value| == |NonEmpty(rows)|
        && forall i :: 0 <= i < |r.value| ==> parse(NonEmpty(rows)[i]) == Success(r.value[i])
    decreases |rows|
  {
    if rows != [] {
      var later := NonEmpty(rows[1..]);
      var rest := ParseRows(rows[1..], parse);
      ParseRowsKept(rows[1..], parse);
      assert rows == [rows[0]] + rows[1..];
      NonEmptyAppend([rows[0]], rows[1..]);
      NonEmptySingle(rows[0]);
      if rows[0] == [] {
        assert NonEmpty(rows) == later;
        assert ParseRows(rows, parse) == rest;
      } else if parse(rows[0]).Success? && rest.Success? {
        assert NonEmpty(rows) == [rows[0]] + later;
        assert ParseRows(rows, parse) == Success([parse(rows[0]).value] + rest.value);
        ConvertedCons(rows[0], parse(rows[0]).value, later, rest.value, parse);
      }
    }
  }

  // ---------------------------------------------------------------- files

  /** `int(row[0])` for a row of an unlabeled file. */
  function UnlabeledRow(row: seq<string>): (r: Result<int, DataError>)
    ensures r.Success? <==> row != [] && ParseInt(row[0]).Some?
    ensures r.Success? ==> ParseInt(row[0]) == Some(r.value)
    ensures r.Failure? ==> r.error == if row == [] then IndexError else ValueError(row[0])
  {
    if row == [] then Failure(IndexError)
    else match ParseInt(row[0])
      case None => Failure(ValueError(row[0]))
      case Some(pmid) => Success(pmid)
  }

  /** `(int(row[0]), row[1])` for a row of a labeled file: the id is converted before the label is looked up. */
  function LabeledRow(row: seq<string>): (r: Result<(int, string), DataError>)
    ensures r.Success? <==> |row| >= 2 && ParseInt(row[0]).Some?
    ensures r.Success? ==> ParseInt(row[0]) == Some(r.value.0) && r.value.1 == row[1]
    ensures row != [] && ParseInt(row[0]).None? ==> r == Failure(ValueError(row[0]))
    ensures r.Failure? && (row == [] || ParseInt(row[0]).Some?) ==> r == Failure(IndexError)
  {
    if row == [] then Failure(IndexError)
    else match ParseInt(row[0])
      case None => Failure(ValueError(row[0]))
      case Some(pmid) => if |row| < 2 then Failure(IndexError) else Success((pmid, row[1]))
  }

  /**
   * `get_pmids_from_unlabeled_file`: the first field of every non-empty
   * row as an integer. The descriptor's own separator is not used; the
   * separator argument (a space by default) is.
   */
  function PmidsFromUnlabeled(dataset: DatasetDescriptor, separator: Option<char> := Some(Space)): (r: Result<seq<int>, DataError>)
    ensures r.Success? ==> |r.value| <= |dataset.lines|
    ensures separator.Some? ==>
      (r.Success? <==> forall i :: 0 <= i < |dataset.lines| ==> ParseInt(Row(dataset.lines[i], separator)[0]).Some?)
    ensures separator.Some? && r.Success? ==>
      && |r.value| == |dataset.lines|
      && forall i :: 0 <= i < |dataset.lines| ==> ParseInt(Row(dataset.lines[i], separator)[0]) == Some(r.value[i])
  {
    var rows := Rows(dataset.lines, separator);
    assert separator.Some? ==> forall i :: 0 <= i < |rows| ==> rows[i] != [];
    ParseRows(rows, UnlabeledRow)
  }

  /** `get_pmids_from_labeled_file`: the integer id and the label of every non-empty row. */
  function PmidsFromLabeled(lines: seq<string>, separator: Option<char> := Some(Space)): (r: Result<seq<(int, string)>, DataError>)
    ensures r.Success? ==> |r.value| <= |lines|
    ensures separator.Some? ==>
      (r.Success? <==> forall i :: 0 <= i < |lines| ==>
        |Row(lines[i], separator)| >= 2 && ParseInt(Row(lines[i], separator)[0]).Some?)
    ensures separator.Some? && r.Success? ==>
      && |r.value| == |lines|
      && forall i :: 0 <= i < |lines| ==>
        ParseInt(Row(lines[i], separator)[0]) == Some(r.value[i].0) && r.value[i].1 == Row(lines[i], separator)[1]
  {
    var rows := Rows(lines, separator);
    assert separator.Some? ==> forall i :: 0 <= i < |rows| ==> rows[i] != [];
    ParseRows(rows, LabeledRow)
  }

  /** A string with no whitespace at either end is what strip leaves of it with a line terminator added. */
  lemma StripLine(x: string)
    requires x != [] && !IsSpace(x[0]) && !IsSpace(x[|x| - 1])
    ensures Strip(x + "\n") == x
  {
    var s := x + "\n";
    var r := Strip(s);
    var i := StripOffset(s);
    assert i == 0 by {
      assert s[0] == x[0];
    }
    assert |r| == |x| by {
      assert s[|x|] == '\n';
      assert s[|x| - 1] == x[|x| - 1];
    }
    assert r == s[..|x|] == x;
  }

  /** When every row is non-empty and converts, the list holds every row's value, in order. */
  lemma ParseRowsAll<T>(rows: seq<seq<string>>, parse: seq<string> -> Result<T, DataError>, values: seq<T>)
    requires |rows| == |values|
    requires forall i :: 0 <= i < |rows| ==> rows[i] != [] && parse(rows[i]) == Success(values[i])
    ensures ParseRows(rows, parse) == Success(values)
  {
    var r := ParseRows(rows, parse);
    assert r.Success?;
    assert r.value == values;
  }

  /** One id per line: a file written as `str(pmid)` lines. */
  function UnlabeledLines(pmids: seq<int>): (lines: seq<string>)
    ensures |lines| == |pmids|
  {
    seq(|pmids|, i requires 0 <= i < |pmids| => ShowInt(pmids[i]) + "\n")
  }

  /** The line `str(pmid)` is one field, the id. */
  lemma IdLine(pmid: int, c: char)
    requires c != '-' && !IsDigitChar(c)
    ensures Row(ShowInt(pmid) + "\n", Some(c)) == [ShowInt(pmid)]
    ensures ParseInt(ShowInt(pmid)) == Some(pmid)
  {
    var s := ShowInt(pmid);
    StripLine(s);
    assert c !in s;
    assert Join([s], c) == s;
    SplitJoin([s], c);
    assert Row(s + "\n", Some(c)) == Split(s, c);
    ParseIntShowInt(pmid);
  }

  /** The line `str(pmid)` of an unlabeled file gives the id. */
  lemma UnlabeledLine(pmid: int, c: char)
    requires c != '-' && !IsDigitChar(c)
    ensures UnlabeledRow(Row(ShowInt(pmid) + "\n", Some(c))) == Success(pmid)
  {
    IdLine(pmid, c);
  }

  /** Reading back a file of ids, one per line, gives the ids in order, whatever the separator that is neither a digit nor a minus sign. */
  lemma UnlabeledRoundTrip(pmids: seq<int>, separator: Option<char>, c: char)
    requires c != '-' && !IsDigitChar(c)
    ensures PmidsFromUnlabeled(DatasetDescriptor(UnlabeledLines(pmids), separator), Some(c)) == Success(pmids)
  {
    var lines := UnlabeledLines(pmids);
    var rows := Rows(lines, Some(c));
    forall i | 0 <= i < |pmids|
      ensures rows[i] != [] && UnlabeledRow(rows[i]) == Success(pmids[i])
    {
      UnlabeledLine(pmids[i], c);
    }
    ParseRowsAll(rows, UnlabeledRow, pmids);
  }

  /** One labeled row per line: the id, the separator, the label. */
  function LabeledLines(pairs: seq<(int, string)>, c: char): (lines: seq<string>)
    ensures |lines| == |pairs|
  {
    seq(|pairs|, i requires 0 <= i < |pairs| => ShowInt(pairs[i].0) + [c] + pairs[i].1 + "\n")
  }

  /** A label that survives a round trip: non-empty, without the separator, not ending in whitespace. */
  predicate PlainLabel(name: string, c: char)
  {
    name != [] && c !in name && !IsSpace(name[|name| - 1])
  }

  /** The line `str(pmid) + sep + label` is the id and the label. */
  lemma LabeledLine(pmid: int, name: string, c: char)
    requires c != '-' && !IsDigitChar(c) && PlainLabel(name, c)
    ensures LabeledRow(Row(ShowInt(pmid) + [c] + name + "\n", Some(c))) == Success((pmid, name))
  {
    var s := ShowInt(pmid);
    assert c !in s;
    var x := s + [c] + name;
    assert ShowInt(pmid) + [c] + name + "\n" == x + "\n";
    StripLine(x);
    assert Join([s, name], c) == x;
    SplitJoin([s, name], c);
    ParseIntShowInt(pmid);
  }

  /** Reading back a labeled file gives the ids and labels in order. */
  lemma LabeledRoundTrip(pairs: seq<(int, string)>, c: char)
    requires c != '-' && !IsDigitChar(c)
    requires forall i :: 0 <= i < |pairs| ==> PlainLabel(pairs[i].1, c)
    ensures PmidsFromLabeled(LabeledLines(pairs, c), Some(c)) == Success(pairs)
  {
    var rows := Rows(LabeledLines(pairs, c), Some(c));
    forall i | 0 <= i < |pairs|
      ensures rows[i] != [] && LabeledRow(rows[i]) == Success(pairs[i])
    {
      LabeledLine(pairs[i].0, pairs[i].1, c);
    }
    ParseRowsAll(rows, LabeledRow, pairs);
  }

  /**
   * A blank line is one empty field with a separator character, which
   * `int` rejects; with the whitespace split it is skipped.
   */
  lemma BlankLine(c: char)
    ensures PmidsFromUnlabeled(DatasetDescriptor(["\n"]), Some(c)) == Failure(ValueError(""))
    ensures PmidsFromUnlabeled(DatasetDescriptor(["\n"]), None) == Success([])
  {
    assert Strip("\n") == "" by {
      assert IsSpace("\n"[0]);
    }
    assert Rows(["\n"], Some(c)) == [[""]];
    assert Rows(["\n"], None) == [[]];
  }

  /** A labeled line with only an id raises `IndexError`. */
  lemma MissingLabel(pmid: int, c: char)
    requires c != '-' && !IsDigitChar(c)
    ensures PmidsFromLabeled([ShowInt(pmid) + "\n"], Some(c)) == Failure(IndexError)
  {
    IdLine(pmid, c);
    assert Rows([ShowInt(pmid) + "\n"], Some(c)) == [[ShowInt(pmid)]];
  }

  /** A labeled line whose first field has no digit raises `ValueError` for it, before the label is looked at. */
  lemma NonNumericId(field: string, name: string, c: char)
    requires field != [] && !IsSpace(field[0]) && c !in field
    requires forall k :: 0 <= k < |field| ==> !IsDigitChar(field[k])
    requires PlainLabel(name, c)
    ensures PmidsFromLabeled([field + [c] + name + "\n"], Some(c)) == Failure(ValueError(field))
  {
    var x := field + [c] + name;
    assert field + [c] + name + "\n" == x + "\n";
    StripLine(x);
    assert Join([field, name], c) == x;
    SplitJoin([field, name], c);
    assert Rows([field + [c] + name + "\n"], Some(c)) == [[field, name]];
  }

  // ---------------------------------------------------------------- labels

  /** The distinct labels in the order they first appear. */
  function FirstSeen(labels: seq<string>): (seen: seq<string>)
    ensures |seen| <= |labels|
    decreases |labels|
  {
    if labels == [] then []
    else
      var seen := FirstSeen(labels[..|labels| - 1]);
      if labels[|labels| - 1] in seen then seen else seen + [labels[|labels| - 1]]
  }

  ghost predicate Distinct<T>(s: seq<T>)
  {
    forall i, j :: 0 <= i < j < |s| ==> s[i] != s[j]
  }

  /** Every label is listed, once, and nothing else is. */
  lemma {:induction false} FirstSeenLabels(labels: seq<string>)
    ensures Distinct(FirstSeen(labels))
    ensures forall x :: x in FirstSeen(labels) <==> x in labels
    decreases |labels|
  {
    if labels != [] {
      var front := labels[..|labels| - 1];
      FirstSeenLabels(front);
      assert labels == front + [labels[|labels| - 1]];
    }
  }

  /** `x` occurs among the first `j` labels. */
  ghost predicate OccursBefore(labels: seq<string>, x: string, j: int)
  {
    exists i :: 0 <= i < j && i < |labels| && labels[i] == x
  }

  /** A label listed later first appears after every label listed before it has appeared. */
  lemma {:induction false} FirstSeenOrder(labels: seq<string>)
    ensures forall a, b, j :: 0 <= a < b < |FirstSeen(labels)| && 0 <= j < |labels| && labels[j] == FirstSeen(labels)[b] ==>
      OccursBefore(labels, FirstSeen(labels)[a], j)
    decreases |labels|
  {
    if labels != [] {
      var front := labels[..|labels| - 1];
      var seen := FirstSeen(front);
      var all := FirstSeen(labels);
      FirstSeenOrder(front);
      FirstSeenLabels(front);
      forall a, b, j | 0 <= a < b < |all| && 0 <= j < |labels| && labels[j] == all[b]
        ensures OccursBefore(labels, all[a], j)
      {
        var x := all[a];
        assert x == seen[a];
        assert x in front;
        var i0 :| 0 <= i0 < |front| && front[i0] == x;
        if j < |front| {
          assert front[j] == labels[j];
          assert b < |seen|;
          assert OccursBefore(front, seen[a], j);
          var i :| 0 <= i < j && i < |front| && front[i] == seen[a];
          assert labels[i] == x;
        } else {
          assert labels[i0] == x;
        }
      }
    }
  }

  function Labels(pairs: seq<(int, string)>): (labels: seq<string>)
    ensures |labels| == |pairs|
  {
    seq(|pairs|, i requires 0 <= i < |pairs| => pairs[i].1)
  }

  function Pmids(pairs: seq<(int, string)>): (pmids: seq<int>)
    ensures |pmids| == |pairs|
  {
    seq(|pairs|, i requires 0 <= i < |pairs| => pairs[i].0)
  }

  /** The ids of the first `n` rows whose label is `name`. */
  ghost function LabelGroup(pairs: seq<(int, string)>, n: nat, name: string): set<int>
    requires n <= |pairs|
  {
    set i | 0 <= i < n && pairs[i].1 == name :: pairs[i].0
  }

  /** One group of ids per label, in the order the labels first appear. */
  ghost function Groups(pairs: seq<(int, string)>): (groups: seq<set<int>>)
  {
    var seen := FirstSeen(Labels(pairs));
    seq(|seen|, k requires 0 <= k < |seen| => LabelGroup(pairs, |pairs|, seen[k]))
  }

  /** Every group is non-empty, every id is in the group of its label, and a group holds only ids of its label. */
  lemma GroupsCover(pairs: seq<(int, string)>)
    ensures forall k :: 0 <= k < |Groups(pairs)| ==> Groups(pairs)[k] != {}
    ensures forall i :: 0 <= i < |pairs| ==>
      exists k :: 0 <= k < |Groups(pairs)| && FirstSeen(Labels(pairs))[k] == pairs[i].1 && pairs[i].0 in Groups(pairs)[k]
    ensures forall k, p :: 0 <= k < |Groups(pairs)| && p in Groups(pairs)[k] ==>
      exists i :: 0 <= i < |pairs| && pairs[i] == (p, FirstSeen(Labels(pairs))[k])
  {
    var labels := Labels(pairs);
    var seen := FirstSeen(labels);
    FirstSeenLabels(labels);
    forall k | 0 <= k < |seen|
      ensures Groups(pairs)[k] != {}
    {
      assert seen[k] in labels;
      var i :| 0 <= i < |labels| && labels[i] == seen[k];
      assert pairs[i].0 in Groups(pairs)[k];
    }
    forall i | 0 <= i < |pairs|
      ensures exists k :: 0 <= k < |seen| && seen[k] == pairs[i].1 && pairs[i].0 in Groups(pairs)[k]
    {
      assert labels[i] in seen;
      var k :| 0 <= k < |seen| && seen[k] == labels[i];
      assert pairs[i].0 in Groups(pairs)[k];
    }
  }

  /**
   * The dictionaries of `get_labeled_data` for the labels `seen` so far:
   * each label has its position as its id, and the dictionary of groups
   * has exactly those ids as keys, inserted in increasing order.
   */
  ghost predicate IdsFor(seen: seq<string>, idByLabel: map<string, nat>, clusterIds: set<nat>, idOrder: seq<nat>)
  {
    && (forall x :: x in idByLabel <==> x in seen)
    && (forall k :: 0 <= k < |seen| ==> seen[k] in idByLabel && idByLabel[seen[k]] == k)
    && |idByLabel| == |seen|
    && |idOrder| == |seen| && (forall k :: 0 <= k < |idOrder| ==> idOrder[k] == k)
    && (forall k: nat :: k in clusterIds <==> k < |seen|)
  }

  /** Under each id, the ids of the first `i` rows with that id's label. */
  ghost predicate GroupsFor(pairs: seq<(int, string)>, i: nat, seen: seq<string>, clustersById: map<nat, set<int>>)
    requires i <= |pairs|
  {
    forall k :: 0 <= k < |seen| ==> k in clustersById && clustersById[k] == LabelGroup(pairs, i, seen[k])
  }

  /** The state of `get_labeled_data` after the first `i` rows. */
  ghost predicate LabelIds(pairs: seq<(int, string)>, i: nat, idByLabel: map<string, nat>,
                           clustersById: map<nat, set<int>>, idOrder: seq<nat>)
    requires i <= |pairs|
  {
    var seen := FirstSeen(Labels(pairs)[..i]);
    IdsFor(seen, idByLabel, clustersById.Keys, idOrder) && GroupsFor(pairs, i, seen, clustersById)
  }

  /** `groups[id].add(pmid)` on a `defaultdict(set)`: a missing key starts from the empty set. */
  function AddToGroup(groups: map<nat, set<int>>, id: nat, pmid: int): (r: map<nat, set<int>>)
    ensures r.Keys == groups.Keys + {id}
    ensures r[id] == (if id in groups then groups[id] else {}) + {pmid}
    ensures forall k :: k in groups && k != id ==> r[k] == groups[k]
  {
    groups[id := (if id in groups then groups[id] else {}) + {pmid}]
  }

  /** One more row: its label is appended to the labels seen unless already there. */
  lemma SeenStep(labels: seq<string>, i: nat)
    requires i < |labels|
    ensures var seen := FirstSeen(labels[..i]);
      FirstSeen(labels[..i + 1]) == if labels[i] in seen then seen else seen + [labels[i]]
    ensures labels[i] in FirstSeen(labels[..i]) <==> labels[i] in labels[..i]
  {
    assert labels[..i + 1][..i] == labels[..i];
    FirstSeenLabels(labels[..i]);
  }

  /** One more row: its id joins its label's group. */
  lemma GroupStep(pairs: seq<(int, string)>, i: nat, name: string)
    requires i < |pairs|
    ensures LabelGroup(pairs, i + 1, name) == LabelGroup(pairs, i, name) + (if name == pairs[i].1 then {pairs[i].0} else {})
  {
  }

  /** A label that has not appeared yet has no ids. */
  lemma NoGroupYet(pairs: seq<(int, string)>, i: nat)
    requires i < |pairs| && pairs[i].1 !in Labels(pairs)[..i]
    ensures LabelGroup(pairs, i, pairs[i].1) == {}
  {
    forall j | 0 <= j < i
      ensures pairs[j].1 != pairs[i].1
    {
      assert Labels(pairs)[..i][j] == pairs[j].1;
    }
  }

  /** A label seen before, at position `k`: its group gains the row's id. */
  lemma KnownGroupsStep(pairs: seq<(int, string)>, i: nat, seen: seq<string>, clustersById: map<nat, set<int>>, k: nat)
    requires i < |pairs| && GroupsFor(pairs, i, seen, clustersById)
    requires k < |seen| && seen[k] == pairs[i].1
    requires forall j :: 0 <= j < |seen| && j != k ==> seen[j] != seen[k]
    ensures GroupsFor(pairs, i + 1, seen, AddToGroup(clustersById, k, pairs[i].0))
  {
    var clusters' := AddToGroup(clustersById, k, pairs[i].0);
    forall j | 0 <= j < |seen|
      ensures j in clusters' && clusters'[j] == LabelGroup(pairs, i + 1, seen[j])
    {
      GroupStep(pairs, i, seen[j]);
    }
  }

  /** A label seen before: its id's group gains the row's id. */
  lemma KnownLabelStep(pairs: seq<(int, string)>, i: nat, idByLabel: map<string, nat>,
                       clustersById: map<nat, set<int>>, idOrder: seq<nat>)
    requires i < |pairs| && LabelIds(pairs, i, idByLabel, clustersById, idOrder)
    requires pairs[i].1 in idByLabel
    ensures idByLabel[pairs[i].1] in clustersById
    ensures var id := idByLabel[pairs[i].1];
      LabelIds(pairs, i + 1, idByLabel, AddToGroup(clustersById, id, pairs[i].0), idOrder)
  {
    var seen := FirstSeen(Labels(pairs)[..i]);
    SeenStep(Labels(pairs), i);
    var k := idByLabel[pairs[i].1];
    assert k < |seen| && seen[k] == pairs[i].1 by {
      var m :| 0 <= m < |seen| && seen[m] == pairs[i].1;
    }
    FirstSeenLabels(Labels(pairs)[..i]);
    KnownGroupsStep(pairs, i, seen, clustersById, k);
    KnownIdsStep(seen, idByLabel, clustersById.Keys, idOrder, k);
  }

  /** Adding a key the dictionary of groups already has leaves the dictionaries as they were. */
  lemma KnownIdsStep(seen: seq<string>, idByLabel: map<string, nat>, clusterIds: set<nat>, idOrder: seq<nat>, k: nat)
    requires IdsFor(seen, idByLabel, clusterIds, idOrder) && k in clusterIds
    ensures IdsFor(seen, idByLabel, clusterIds + {k}, idOrder)
  {
  }

  /** The dictionaries gain a new label with the next id. */
  lemma NewIdsStep(seen: seq<string>, x: string, idByLabel: map<string, nat>, clusterIds: set<nat>, idOrder: seq<nat>)
    requires IdsFor(seen, idByLabel, clusterIds, idOrder) && x !in idByLabel
    ensures |idByLabel| !in clusterIds
    ensures var id := |idByLabel|;
      IdsFor(seen + [x], idByLabel[x := id], clusterIds + {id}, idOrder + [id])
  {
    var id, seen' := |idByLabel|, seen + [x];
    forall k | 0 <= k < |seen'|
      ensures seen'[k] in idByLabel[x := id] && idByLabel[x := id][seen'[k]] == k
    {
      if k < |seen| {
        assert seen'[k] == seen[k] != x;
      }
    }
    forall k | 0 <= k < |seen'|
      ensures (idOrder + [id])[k] == k
    {
    }
  }

  /** A new label's group holds the row's id alone. */
  lemma NewGroupsStep(pairs: seq<(int, string)>, i: nat, seen: seq<string>, clustersById: map<nat, set<int>>)
    requires i < |pairs| && GroupsFor(pairs, i, seen, clustersById)
    requires pairs[i].1 !in seen && LabelGroup(pairs, i, pairs[i].1) == {} && |seen| !in clustersById
    ensures GroupsFor(pairs, i + 1, seen + [pairs[i].1], AddToGroup(clustersById, |seen|, pairs[i].0))
  {
    var x, seen' := pairs[i].1, seen + [pairs[i].1];
    var clusters' := AddToGroup(clustersById, |seen|, pairs[i].0);
    forall k | 0 <= k < |seen'|
      ensures k in clusters' && clusters'[k] == LabelGroup(pairs, i + 1, seen'[k])
    {
      GroupStep(pairs, i, seen'[k]);
      if k < |seen| {
        assert seen'[k] == seen[k] != x;
      }
    }
  }

  /** A new label: it gets the next id, which is inserted into the groups with the row's id alone. */
  lemma NewLabelStep(pairs: seq<(int, string)>, i: nat, idByLabel: map<string, nat>,
                     clustersById: map<nat, set<int>>, idOrder: seq<nat>)
    requires i < |pairs| && LabelIds(pairs, i, idByLabel, clustersById, idOrder)
    requires pairs[i].1 !in idByLabel
    ensures |idByLabel| !in clustersById
    ensures var id := |idByLabel|;
      LabelIds(pairs, i + 1, idByLabel[pairs[i].1 := id], AddToGroup(clustersById, id, pairs[i].0), idOrder + [id])
  {
    var seen := FirstSeen(Labels(pairs)[..i]);
    SeenStep(Labels(pairs), i);
    NoGroupYet(pairs, i);
    NewIdsStep(seen, pairs[i].1, idByLabel, clustersById.Keys, idOrder);
    NewGroupsStep(pairs, i, seen, clustersById);
  }

  /** One row, whether its label is new or not, as `setdefault` and the group update leave the dictionaries. */
  lemma RowStep(pairs: seq<(int, string)>, i: nat, idByLabel: map<string, nat>,
                clustersById: map<nat, set<int>>, idOrder: seq<nat>,
                idByLabel': map<string, nat>, id: nat, clustersById': map<nat, set<int>>, idOrder': seq<nat>)
    requires i < |pairs| && LabelIds(pairs, i, idByLabel, clustersById, idOrder)
    requires pairs[i].1 in idByLabel ==> idByLabel' == idByLabel && id == idByLabel[pairs[i].1]
    requires pairs[i].1 !in idByLabel ==> idByLabel' == idByLabel[pairs[i].1 := |idByLabel|] && id == |idByLabel|
    requires clustersById' == AddToGroup(clustersById, id, pairs[i].0)
    requires idOrder' == if id in clustersById then idOrder else idOrder + [id]
    ensures LabelIds(pairs, i + 1, idByLabel', clustersById', idOrder')
  {
    if pairs[i].1 in idByLabel {
      KnownLabelStep(pairs, i, idByLabel, clustersById, idOrder);
    } else {
      NewLabelStep(pairs, i, idByLabel, clustersById, idOrder);
    }
  }

  /** `d.setdefault(key, default)`: the value under `key`, stored first as `default` when missing. */
  method SetDefault(d: map<string, nat>, key: string, default: nat) returns (d': map<string, nat>, value: nat)
    ensures key in d ==> d' == d && value == d[key]
    ensures key !in d ==> d' == d[key := default] && value == default
  {
    if key in d {
      d', value := d, d[key];
    } else {
      d', value := d[key := default], default;
    }
  }

  /**
   * `groups[id].add(pmid)` on a `defaultdict(set)`, with the order in
   * which the dictionary's keys were inserted: a new key goes last.
   */
  method AddToDefaultGroup(groups: map<nat, set<int>>, keyOrder: seq<nat>, id: nat, pmid: int)
    returns (groups': map<nat, set<int>>, keyOrder': seq<nat>)
    ensures groups' == AddToGroup(groups, id, pmid)
    ensures keyOrder' == if id in groups then keyOrder else keyOrder + [id]
  {
    keyOrder' := keyOrder;
    if id !in groups {
      keyOrder' := keyOrder + [id];
    }
    groups' := AddToGroup(groups, id, pmid);
  }

  lemma PmidsStep(pairs: seq<(int, string)>, i: nat)
    requires i < |pairs|
    ensures Pmids(pairs)[..i + 1] == Pmids(pairs)[..i] + [pairs[i].0]
  {
  }

  /** After the last row, the groups listed in key order are the groups by label. */
  lemma LabelIdsFinal(pairs: seq<(int, string)>, idByLabel: map<string, nat>,
                      clustersById: map<nat, set<int>>, idOrder: seq<nat>)
    requires LabelIds(pairs, |pairs|, idByLabel, clustersById, idOrder)
    ensures forall k :: 0 <= k < |idOrder| ==> idOrder[k] in clustersById
    ensures seq(|idOrder|, k requires 0 <= k < |idOrder| => clustersById[idOrder[k]]) == Groups(pairs)
  {
    assert Labels(pairs)[..|pairs|] == Labels(pairs);
  }

  /**
   * The loop of `get_labeled_data`: collect the ids in file order and, per
   * label, the set of its ids; a new label gets the next integer id
   * (`setdefault`), and the groups come out in the order their ids were
   * first inserted into the dictionary.
   */
  method CollectLabels(labeledPmids: seq<(int, string)>) returns (pmids: seq<int>, groups: seq<set<int>>)
    ensures pmids == Pmids(labeledPmids)
    ensures groups == Groups(labeledPmids)
  {
    var idByLabel: map<string, nat> := map[];
    var clustersById: map<nat, set<int>> := map[];
    var idOrder: seq<nat> := [];
    pmids := [];
    assert Labels(labeledPmids)[..0] == [];
    for i := 0 to |labeledPmids|
      invariant LabelIds(labeledPmids, i, idByLabel, clustersById, idOrder)
      invariant pmids == Pmids(labeledPmids)[..i]
    {
      var pmid, name := labeledPmids[i].0, labeledPmids[i].1;
      PmidsStep(labeledPmids, i);
      pmids := pmids + [pmid];
      var labelId, idByLabel', clustersById', idOrder';
      idByLabel', labelId := SetDefault(idByLabel, name, |idByLabel|);
      clustersById', idOrder' := AddToDefaultGroup(clustersById, idOrder, labelId, pmid);
      RowStep(labeledPmids, i, idByLabel, clustersById, idOrder, idByLabel', labelId, clustersById', idOrder');
      idByLabel, clustersById, idOrder := idByLabel', clustersById', idOrder';
    }
    LabelIdsFinal(labeledPmids, idByLabel, clustersById, idOrder);
    groups := seq(|idOrder|, k requires 0 <= k < |idOrder| => clustersById[idOrder[k]]);
  }

  /**
   * `get_labeled_data`: read the labeled file with the descriptor's own
   * separator; a row that raises ends it with that error, otherwise the
   * ids in file order and the groups of ids by label.
   */
  method GetLabeledData(dataset: DatasetDescriptor) returns (r: Result<(seq<int>, seq<set<int>>), DataError>)
    ensures var parsed := PmidsFromLabeled(dataset.lines, dataset.separator);
      && (r.Failure? <==> parsed.Failure?)
      && (r.Failure? ==> r.error == parsed.error)
      && (r.Success? ==> r.value == (Pmids(parsed.value), Groups(parsed.value)))
  {
    var parsed := PmidsFromLabeled(dataset.lines, dataset.separator);
    if parsed.Failure? {
      return Failure(parsed.error);
    }
    var pmids, groups := CollectLabels(parsed.value);
    return Success((pmids, groups));
  }
}
