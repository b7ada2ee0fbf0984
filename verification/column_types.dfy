/**
 * `identify_column_types` of the CSV explorer: the first 100 data rows of a
 * CSV file are sampled, and every header column is classified as Empty,
 * Numeric, Categorical, DateTime or Text from its stripped, non-empty values
 * by a fixed order of tests; the number of distinct values is reported too.
 */
module ColumnTypes {
  import opened Seqs
  import opened PyStrings

  /** How many data rows are sampled. */
  const SampleSize: nat := 100

  /** The first 100 data rows, or all of them when there are fewer. */
  function SampleOf(rows: seq<Row>): seq<Row> {
    rows[..if |rows| < SampleSize then |rows| else SampleSize]
  }

  /** The sampling loop: it keeps data rows while their index is below 100 and stops at the first one that is not. */
  method SampleRows(rows: seq<Row>) returns (sample: seq<Row>)
    ensures |sample| == if |rows| < SampleSize then |rows| else SampleSize
    ensures sample == rows[..|sample|]
    ensures sample == SampleOf(rows)
  {
    sample := [];
    var i := 0;
    while i < |rows|
      invariant i <= |rows| && i <= SampleSize
      invariant sample == rows[..i]
    {
      if i < SampleSize {
        sample := sample + [rows[i]];
      } else {
        break;
      }
      i := i + 1;
    }
  }

  /** `[row[i] if i < len(row) else '' for row in sample_rows]`. */
  function ColumnValues(sample: seq<Row>, i: nat): seq<string> {
    seq(|sample|, r requires 0 <= r < |sample| => if i < |sample[r]| then sample[r][i] else "")
  }

  /** `[v.strip() for v in values if v.strip()]`. */
  function NonEmpty(values: seq<string>): seq<string> {
    if values == [] then []
    else
      var v := Strip(values[|values| - 1]);
      NonEmpty(values[..|values| - 1]) + (if v == [] then [] else [v])
  }

  /**
   * The non-empty values are exactly the non-empty stripped forms of the
   * values; each is already stripped, and there are no more of them than values.
   */
  lemma {:induction false} NonEmptySpec(values: seq<string>)
    ensures |NonEmpty(values)| <= |values|
    ensures forall v :: v in NonEmpty(values) <==> v != [] && exists w :: w in values && v == Strip(w)
    ensures forall v :: v in NonEmpty(values) ==> Strip(v) == v
  {
    if values != [] {
      var init, w := values[..|values| - 1], values[|values| - 1];
      assert values == init + [w];
      NonEmptySpec(init);
      StripIdempotent(w);
      forall v | v != [] && (exists u :: u in values && v == Strip(u)) ensures v in NonEmpty(values) {
        var u :| u in values && v == Strip(u);
        if u != w {
          assert u in init;
        }
      }
    }
  }

  /**
   * `non_empty` keeps the values' order and multiplicity: that of `a + b` is
   * that of `a` followed by that of `b`.
   */
  lemma {:induction false} NonEmptyAppend(a: seq<string>, b: seq<string>)
    ensures NonEmpty(a + b) == NonEmpty(a) + NonEmpty(b)
    decreases |b|
  {
    if b == [] {
      assert a + b == a;
    } else {
      var binit, last := b[..|b| - 1], b[|b| - 1];
      var ab := a + b;
      assert ab[..|ab| - 1] == a + binit && ab[|ab| - 1] == last;
      NonEmptyAppend(a, binit);
    }
  }

  /** One value contributes its stripped form exactly when that is not empty. */
  lemma NonEmptyOne(v: string)
    ensures NonEmpty([v]) == if Strip(v) == [] then [] else [Strip(v)]
  {
    assert [v][..0] == [];
  }

  /** A cell a short row does not have reads as the empty string, which is dropped: only cells the rows have count. */
  lemma ColumnValuesPresent(sample: seq<Row>, i: nat)
    ensures forall v :: v in NonEmpty(ColumnValues(sample, i)) ==>
              v != [] && exists r :: 0 <= r < |sample| && i < |sample[r]| && v == Strip(sample[r][i])
  {
    var values := ColumnValues(sample, i);
    NonEmptySpec(values);
    forall v | v in NonEmpty(values) ensures exists r :: 0 <= r < |sample| && i < |sample[r]| && v == Strip(sample[r][i]) {
      var w :| w in values && v == Strip(w);
      var r :| 0 <= r < |values| && values[r] == w;
    }
  }

  /** The characters the Numeric test deletes before `isdigit()`. */
  predicate IsSeparator(c: char) {
    c == ',' || c == '.' || c == '-'
  }

  /** `v.replace(',', '').replace('.', '').replace('-', '').isdigit()`. */
  predicate DigitLike(v: string) {
    IsDigits(RemoveAll(RemoveAll(RemoveAll(v, ','), '.'), '-'))
  }

  /** Removing a character keeps every other character and only those. */
  lemma RemoveAllChars(s: string, c: char)
    ensures forall x :: x in RemoveAll(s, c) <==> x in s && x != c
  {
    RemoveAllSpec(s, c);
    assert forall x :: x in RemoveAll(s, c) <==> multiset(RemoveAll(s, c))[x] > 0;
  }

  /**
   * A value passes the Numeric test exactly when it has at least one ASCII
   * digit and every character is a digit or one of `,` `.` `-`, in any order
   * and number (so "1.2.3" and "--5" pass, and "-" or "" do not).
   */
  lemma DigitLikeIff(v: string)
    ensures DigitLike(v) <==>
              (exists k :: 0 <= k < |v| && IsAsciiDigit(v[k])) &&
              forall k :: 0 <= k < |v| ==> IsAsciiDigit(v[k]) || IsSeparator(v[k])
  {
    var a := RemoveAll(v, ',');
    var b := RemoveAll(a, '.');
    var r := RemoveAll(b, '-');
    RemoveAllChars(v, ',');
    RemoveAllChars(a, '.');
    RemoveAllChars(b, '-');
    assert forall x :: x in r <==> x in v && !IsSeparator(x);
    if DigitLike(v) {
      assert r[0] in v;
      forall k | 0 <= k < |v| ensures IsAsciiDigit(v[k]) || IsSeparator(v[k]) {
        if !IsSeparator(v[k]) {
          assert v[k] in r;
        }
      }
    }
    if (exists k :: 0 <= k < |v| && IsAsciiDigit(v[k])) && forall k :: 0 <= k < |v| ==> IsAsciiDigit(v[k]) || IsSeparator(v[k]) {
      var k :| 0 <= k < |v| && IsAsciiDigit(v[k]);
      assert v[k] in r;
      forall j | 0 <= j < |r| ensures IsAsciiDigit(r[j]) {
        assert r[j] in v;
      }
    }
  }

  /** Every non-empty value passes the Numeric test. */
  predicate AllDigitLike(values: seq<string>) {
    forall k :: 0 <= k < |values| ==> DigitLike(values[k])
  }

  /** `len(set(non_empty))`. */
  function UniqueCount(values: seq<string>): nat {
    |set v | v in values|
  }

  /**
   * `len(set(non_empty)) < len(non_empty) * 0.1`. With at most 100 sampled
   * values the float product is exact enough that this is `10 * unique < n`.
   */
  predicate FewDistinct(values: seq<string>) {
    10 * UniqueCount(values) < |values|
  }

  /** `any(keyword in header.lower() for keyword in ['date', 'time', 'created'])`. */
  predicate HasTimeKeyword(header: string) {
    var h := Lower(header);
    Contains(h, "date") || Contains(h, "time") || Contains(h, "created")
  }

  datatype ColumnType = Empty | Numeric | Categorical | DateTime | Text

  /** The chain of tests, first match wins. */
  function Classify(header: string, nonEmpty: seq<string>): ColumnType {
    if nonEmpty == [] then Empty
    else if AllDigitLike(nonEmpty) then Numeric
    else if FewDistinct(nonEmpty) then Categorical
    else if HasTimeKeyword(header) then DateTime
    else Text
  }

  /** A column is Empty exactly when it has no distinct values, and otherwise it has between 1 and n of them. */
  lemma ClassifyEmptyIff(header: string, nonEmpty: seq<string>)
    ensures Classify(header, nonEmpty) == Empty <==> UniqueCount(nonEmpty) == 0
    ensures UniqueCount(nonEmpty) <= |nonEmpty|
  {
    DistinctCountBounds(nonEmpty);
  }

  /**
   * Categorical needs more than 10 values and repeated ones: a column of at
   * most 10 values, or of pairwise different values, is never Categorical.
   */
  lemma CategoricalNeedsRepeats(header: string, nonEmpty: seq<string>)
    ensures Classify(header, nonEmpty) == Categorical ==> |nonEmpty| > 10 && !Distinct(nonEmpty)
  {
    if Classify(header, nonEmpty) == Categorical {
      DistinctCountBounds(nonEmpty);
      if Distinct(nonEmpty) {
        DistinctCard(nonEmpty);
      }
    }
  }

  /**
   * A column some value of which fails the digit test is Categorical exactly
   * when fewer than a tenth of its values are distinct.
   */
  lemma ClassifyCategoricalIff(header: string, nonEmpty: seq<string>)
    ensures Classify(header, nonEmpty) == Categorical <==>
              (exists v :: v in nonEmpty && !DigitLike(v)) && 10 * UniqueCount(nonEmpty) < |nonEmpty|
  {
    if !AllDigitLike(nonEmpty) {
      var k :| 0 <= k < |nonEmpty| && !DigitLike(nonEmpty[k]);
      assert nonEmpty[k] in nonEmpty;
    }
  }

  /**
   * Text is what is left: some value fails the digit test, at least a tenth
   * of the values are distinct, and the header holds none of the keywords in
   * any letter case.
   */
  lemma ClassifyTextIff(header: string, nonEmpty: seq<string>)
    ensures Classify(header, nonEmpty) == Text <==>
              (exists v :: v in nonEmpty && !DigitLike(v)) && 10 * UniqueCount(nonEmpty) >= |nonEmpty| &&
              !(exists i :: MatchesAt(header, "date", i)) &&
              !(exists i :: MatchesAt(header, "time", i)) &&
              !(exists i :: MatchesAt(header, "created", i))
  {
    HasTimeKeywordIff(header);
    if !AllDigitLike(nonEmpty) {
      var k :| 0 <= k < |nonEmpty| && !DigitLike(nonEmpty[k]);
      assert nonEmpty[k] in nonEmpty;
    }
  }

  /**
   * A column with values is Numeric exactly when each of them has an ASCII
   * digit and nothing but digits and the separators `,` `.` `-`.
   */
  lemma ClassifyNumericIff(header: string, nonEmpty: seq<string>)
    ensures Classify(header, nonEmpty) == Numeric <==>
              nonEmpty != [] &&
              forall v :: v in nonEmpty ==>
                (exists k :: 0 <= k < |v| && IsAsciiDigit(v[k])) &&
                forall k :: 0 <= k < |v| ==> IsAsciiDigit(v[k]) || IsSeparator(v[k])
  {
    forall v | v in nonEmpty {
      DigitLikeIff(v);
    }
  }

  /** A value made only of separators (such as "-", "." or ",-") keeps a column from being Numeric. */
  lemma SeparatorsOnlyNotNumeric(header: string, nonEmpty: seq<string>, k: nat)
    requires k < |nonEmpty| && forall j :: 0 <= j < |nonEmpty[k]| ==> IsSeparator(nonEmpty[k][j])
    ensures Classify(header, nonEmpty) != Numeric
  {
    DigitLikeIff(nonEmpty[k]);
  }

  /** `kw` occurs in `h` at position `i` when letter case is ignored (the keywords are lower case). */
  predicate MatchesAt(h: string, kw: string, i: int) {
    0 <= i <= |h| - |kw| && forall k :: 0 <= k < |kw| ==> LowerChar(h[i + k]) == kw[k]
  }

  /** `kw in h.lower()` is a case-insensitive search for `kw` in `h`. */
  lemma KeywordInLower(h: string, kw: string)
    ensures Contains(Lower(h), kw) <==> exists i :: MatchesAt(h, kw, i)
  {
    var l := Lower(h);
    LowerSpec(h);
    ContainsIff(l, kw);
    if exists i :: MatchesAt(h, kw, i) {
      var i :| MatchesAt(h, kw, i);
      assert l[i..i + |kw|] == kw by {
        forall k | 0 <= k < |kw| ensures l[i..i + |kw|][k] == kw[k] {
          assert l[i + k] == LowerChar(h[i + k]);
        }
      }
      assert OccursAt(l, kw, i);
    }
    if exists i :: OccursAt(l, kw, i) {
      var i :| OccursAt(l, kw, i);
      forall k | 0 <= k < |kw| ensures LowerChar(h[i + k]) == kw[k] {
        assert l[i..i + |kw|][k] == l[i + k];
      }
      assert MatchesAt(h, kw, i);
    }
  }

  /** The header names a date or time exactly when "date", "time" or "created" occurs in it in any letter case. */
  lemma HasTimeKeywordIff(header: string)
    ensures HasTimeKeyword(header) <==>
              (exists i :: MatchesAt(header, "date", i)) ||
              (exists i :: MatchesAt(header, "time", i)) ||
              (exists i :: MatchesAt(header, "created", i))
  {
    KeywordInLower(header, "date");
    KeywordInLower(header, "time");
    KeywordInLower(header, "created");
  }

  /**
   * The header matters only to tell DateTime from Text: two headers give the
   * same type unless both give one of those two, and DateTime needs a header
   * holding "date", "time" or "created" in any letter case.
   */
  lemma HeaderOnlyDecidesDateTime(h1: string, h2: string, nonEmpty: seq<string>)
    ensures Classify(h1, nonEmpty) != Classify(h2, nonEmpty) ==>
              Classify(h1, nonEmpty) in {DateTime, Text} && Classify(h2, nonEmpty) in {DateTime, Text}
    ensures Classify(h1, nonEmpty) == DateTime <==>
              nonEmpty != [] && !AllDigitLike(nonEmpty) && !FewDistinct(nonEmpty) &&
              ((exists i :: MatchesAt(h1, "date", i)) ||
               (exists i :: MatchesAt(h1, "time", i)) ||
               (exists i :: MatchesAt(h1, "created", i)))
  {
    HasTimeKeywordIff(h1);
  }

  /** One line of the report: the header, its type and its number of distinct values. */
  datatype ColumnReport = ColumnReport(header: string, colType: ColumnType, unique: nat)

  /** The report line of column `i`, from the sampled rows. */
  function ReportOf(header: string, sample: seq<Row>, i: nat): ColumnReport {
    var nonEmpty := NonEmpty(ColumnValues(sample, i));
    ColumnReport(header, Classify(header, nonEmpty), UniqueCount(nonEmpty))
  }

  /**
   * A report line counts at most one distinct value per sampled row, is Empty
   * exactly when it counts none, and is Categorical only with more than 10
   * sampled rows.
   */
  lemma ReportOfSpec(header: string, sample: seq<Row>, i: nat)
    ensures ReportOf(header, sample, i).unique <= |sample|
    ensures ReportOf(header, sample, i).colType == Empty <==> ReportOf(header, sample, i).unique == 0
    ensures ReportOf(header, sample, i).colType == Categorical ==> |sample| > 10
  {
    var nonEmpty := NonEmpty(ColumnValues(sample, i));
    NonEmptySpec(ColumnValues(sample, i));
    ClassifyEmptyIff(header, nonEmpty);
    CategoricalNeedsRepeats(header, nonEmpty);
  }

  /**
   * `identify_column_types`: reading the header fails on a file with no
   * records; otherwise there is one report line per header column, in header
   * order, computed from the first 100 data rows.
   */
  method IdentifyColumnTypes(records: seq<Row>) returns (reports: Option<seq<ColumnReport>>)
    ensures reports.None? <==> records == []
    ensures reports.Some? ==>
              |reports.value| == |records[0]| &&
              forall i :: 0 <= i < |records[0]| ==> reports.value[i] == ReportOf(records[0][i], SampleOf(records[1..]), i)
  {
    if records == [] {
      return None;
    }
    var headers := records[0];
    var sample := SampleRows(records[1..]);
    var lines: seq<ColumnReport> := [];
    for i := 0 to |headers|
      invariant |lines| == i
      invariant forall j :: 0 <= j < i ==> lines[j] == ReportOf(headers[j], sample, j)
    {
      lines := lines + [ReportOf(headers[i], sample, i)];
    }
    return Some(lines);
  }

  /** Every reported column counts at most 100 distinct values, and at most one per data row. */
  lemma ReportsBounded(records: seq<Row>, i: nat)
    requires records != [] && i < |records[0]|
    ensures ReportOf(records[0][i], SampleOf(records[1..]), i).unique <= SampleSize
    ensures ReportOf(records[0][i], SampleOf(records[1..]), i).unique <= |records| - 1
  {
    ReportOfSpec(records[0][i], SampleOf(records[1..]), i);
  }
}
