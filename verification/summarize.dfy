/**
 * The hand-written table summariser: every non-blank cell of a column goes
 * either to the column's numeric values (count, mean, min, max, variance) or
 * to its frequency counter (distinct count, five most common raw cells).
 */
module TableSummary {
  import opened Seqs
  import opened PyStrings
  import opened Counters

  /** `is_number(s)` (does Python's `float(s)` succeed) and the value `float(s)` returns, both left abstract. */
  datatype NumberSyntax = NumberSyntax(isNumber: string -> bool, value: string -> real)

  /** `cell.strip().replace(",", "")`. */
  function Clean(cell: string): string {
    RemoveAll(Strip(cell), ',')
  }

  predicate IsBlank(cell: string) {
    Clean(cell) == []
  }

  /**
   * Cleaning strips the cell and then deletes its commas and nothing else, so
   * a cell is blank exactly when what is left after stripping is all commas.
   */
  lemma CleanSpec(cell: string)
    ensures ',' !in Clean(cell)
    ensures multiset(Clean(cell)) == multiset(Strip(cell))[',' := 0]
    ensures IsBlank(cell) <==> forall k :: 0 <= k < |Strip(cell)| ==> Strip(cell)[k] == ','
  {
    var t := Strip(cell);
    RemoveAllSpec(t, ',');
    if IsBlank(cell) {
      forall k | 0 <= k < |t| ensures t[k] == ',' {
        var x := t[k];
        assert multiset(t)[x] >= 1;
        assert multiset(t)[',' := 0][x] == multiset(Clean(cell))[x] == 0;
      }
    } else {
      var x := Clean(cell)[0];
      assert x in multiset(Clean(cell));
      assert x != ',' && x in t;
    }
  }

  /** A cell that goes to the numeric values. */
  predicate IsNumericCell(cell: string, num: NumberSyntax) {
    !IsBlank(cell) && num.isNumber(Clean(cell))
  }

  /** A cell that goes to the frequency counter. */
  predicate IsCategoricalCell(cell: string, num: NumberSyntax) {
    !IsBlank(cell) && !num.isNumber(Clean(cell))
  }

  // ---------------------------------------------------------------------------
  // One column, as a sequence of cells.

  /** The cells of column `i`, in row order, taken from the rows long enough to have one (`enumerate(row)`). */
  function ColumnCells(rows: seq<Row>, i: nat): seq<string> {
    if rows == [] then []
    else
      var last := rows[|rows| - 1];
      ColumnCells(rows[..|rows| - 1], i) + (if i < |last| then [last[i]] else [])
  }

  /** The parsed values of the numeric cells, in order. */
  function NumericValues(cells: seq<string>, num: NumberSyntax): seq<real> {
    if cells == [] then []
    else
      var init, c := cells[..|cells| - 1], cells[|cells| - 1];
      NumericValues(init, num) + (if IsNumericCell(c, num) then [num.value(Clean(c))] else [])
  }

  /** The categorical cells, in order. */
  function CategoricalCells(cells: seq<string>, num: NumberSyntax): seq<string> {
    if cells == [] then []
    else
      var init, c := cells[..|cells| - 1], cells[|cells| - 1];
      CategoricalCells(init, num) + (if IsCategoricalCell(c, num) then [c] else [])
  }

  /**
   * The numeric values are `float()` of the cleaned text of the numeric cells:
   * there is one exactly when some cell is numeric, and each comes from one.
   */
  lemma {:induction false} NumericValuesSpec(cells: seq<string>, num: NumberSyntax)
    ensures |NumericValues(cells, num)| <= |cells|
    ensures NumericValues(cells, num) == [] <==> forall c :: c in cells ==> !IsNumericCell(c, num)
    ensures forall x :: x in NumericValues(cells, num) ==>
              exists c :: c in cells && IsNumericCell(c, num) && x == num.value(Clean(c))
    ensures forall c :: c in cells && IsNumericCell(c, num) ==> num.value(Clean(c)) in NumericValues(cells, num)
  {
    if cells != [] {
      var init, c := cells[..|cells| - 1], cells[|cells| - 1];
      assert cells == init + [c];
      NumericValuesSpec(init, num);
    }
  }

  /**
   * The numeric values keep the cells' order and multiplicity: those of `a + b`
   * are those of `a` followed by those of `b`.
   */
  lemma {:induction false} NumericValuesAppend(a: seq<string>, b: seq<string>, num: NumberSyntax)
    ensures NumericValues(a + b, num) == NumericValues(a, num) + NumericValues(b, num)
    decreases |b|
  {
    if b == [] {
      assert a + b == a;
    } else {
      var binit, last := b[..|b| - 1], b[|b| - 1];
      var ab := a + b;
      assert ab[..|ab| - 1] == a + binit && ab[|ab| - 1] == last;
      NumericValuesAppend(a, binit, num);
      var tail := if IsNumericCell(last, num) then [num.value(Clean(last))] else [];
      assert NumericValues(ab, num) == NumericValues(a + binit, num) + tail;
      assert NumericValues(b, num) == NumericValues(binit, num) + tail;
    }
  }

  /** One cell adds `float()` of its cleaned text exactly when it is numeric. */
  lemma NumericValuesOne(c: string, num: NumberSyntax)
    ensures NumericValues([c], num) == if IsNumericCell(c, num) then [num.value(Clean(c))] else []
  {
    assert [c][..0] == [];
  }

  /**
   * The counter's items are the categorical cells themselves, as they stand in
   * the row (neither stripped nor comma-free), each as often as it occurs, and
   * nothing else.
   */
  lemma {:induction false} CategoricalCellsSpec(cells: seq<string>, num: NumberSyntax)
    ensures |CategoricalCells(cells, num)| <= |cells|
    ensures forall c :: c in CategoricalCells(cells, num) <==> c in cells && IsCategoricalCell(c, num)
    ensures forall c :: multiset(CategoricalCells(cells, num))[c] == if IsCategoricalCell(c, num) then multiset(cells)[c] else 0
  {
    if cells != [] {
      var init, c := cells[..|cells| - 1], cells[|cells| - 1];
      assert cells == init + [c];
      CategoricalCellsSpec(init, num);
      assert multiset(cells) == multiset(init) + multiset{c};
    }
  }

  /**
   * The categorical cells keep the cells' order: those of `a + b` are those of
   * `a` followed by those of `b`.
   */
  lemma {:induction false} CategoricalCellsAppend(a: seq<string>, b: seq<string>, num: NumberSyntax)
    ensures CategoricalCells(a + b, num) == CategoricalCells(a, num) + CategoricalCells(b, num)
    decreases |b|
  {
    if b == [] {
      assert a + b == a;
    } else {
      var binit, last := b[..|b| - 1], b[|b| - 1];
      var ab := a + b;
      assert ab[..|ab| - 1] == a + binit && ab[|ab| - 1] == last;
      CategoricalCellsAppend(a, binit, num);
      var tail := if IsCategoricalCell(last, num) then [last] else [];
      assert CategoricalCells(ab, num) == CategoricalCells(a + binit, num) + tail;
      assert CategoricalCells(b, num) == CategoricalCells(binit, num) + tail;
    }
  }

  /** One cell is kept, raw, exactly when it is categorical. */
  lemma CategoricalCellsOne(c: string, num: NumberSyntax)
    ensures CategoricalCells([c], num) == if IsCategoricalCell(c, num) then [c] else []
  {
    assert [c][..0] == [];
  }

  /** The cells that are not blank once cleaned. */
  function NonBlank(cells: seq<string>): (r: seq<string>)
    ensures |r| <= |cells|
    ensures forall c :: c in r <==> c in cells && !IsBlank(c)
  {
    if cells == [] then []
    else
      var init, c := cells[..|cells| - 1], cells[|cells| - 1];
      NonBlank(init) + (if IsBlank(c) then [] else [c])
  }

  /** Every non-blank cell is counted exactly once: as a number or in the counter. */
  lemma {:induction false} ColumnPartition(cells: seq<string>, num: NumberSyntax)
    ensures |NumericValues(cells, num)| + |CategoricalCells(cells, num)| == |NonBlank(cells)|
  {
    if cells != [] {
      ColumnPartition(cells[..|cells| - 1], num);
    }
  }

  /** The per-column state the summariser accumulates: `num_vals[i]` and `nonnum_counters[i]`. */
  datatype Column = Column(nums: seq<real>, counter: Counter)

  function ColumnOf(cells: seq<string>, num: NumberSyntax): Column {
    Column(NumericValues(cells, num), CounterOf(CategoricalCells(cells, num)))
  }

  /** One more cell: skipped when blank, appended as a number, or counted under its raw text. */
  lemma ColumnOfSnoc(cells: seq<string>, c: string, num: NumberSyntax)
    ensures ColumnOf(cells + [c], num).nums ==
      if IsNumericCell(c, num) then ColumnOf(cells, num).nums + [num.value(Clean(c))] else ColumnOf(cells, num).nums
    ensures ColumnOf(cells + [c], num).counter ==
      if IsCategoricalCell(c, num) then Add(ColumnOf(cells, num).counter, c) else ColumnOf(cells, num).counter
  {
    var s := cells + [c];
    assert s[..|s| - 1] == cells;
    var cats := CategoricalCells(cells, num);
    if IsCategoricalCell(c, num) {
      assert CategoricalCells(s, num) == cats + [c];
      assert (cats + [c])[..|cats|] == cats;
    } else {
      assert CategoricalCells(s, num) == cats;
    }
  }

  /** Every cell of `row` beyond the header's width is blank; otherwise `num_vals[i]` raises IndexError. */
  predicate RowFits(row: Row, width: nat) {
    forall k :: width <= k < |row| ==> IsBlank(row[k])
  }

  predicate FitsHeader(rows: seq<Row>, width: nat) {
    forall r :: 0 <= r < |rows| ==> RowFits(rows[r], width)
  }

  lemma ColumnCellsSnoc(rows: seq<Row>, row: Row, i: nat)
    ensures ColumnCells(rows + [row], i) == ColumnCells(rows, i) + (if i < |row| then [row[i]] else [])
  {
    assert (rows + [row])[..|rows|] == rows;
  }

  /**
   * The inner loop of `summarize` over the cells of one row: it fails exactly
   * when the row has a non-blank cell beyond the header, and otherwise feeds
   * every cell to its column.
   */
  method AccumulateRow(acc: seq<Column>, row: Row, num: NumberSyntax, ghost cells: seq<seq<string>>)
    returns (ok: bool, acc': seq<Column>)
    requires |cells| == |acc|
    requires forall j :: 0 <= j < |acc| ==> acc[j] == ColumnOf(cells[j], num)
    ensures ok <==> RowFits(row, |acc|)
    ensures ok ==> |acc'| == |acc|
    ensures ok ==> forall j :: 0 <= j < |acc| ==>
              acc'[j] == ColumnOf(cells[j] + (if j < |row| then [row[j]] else []), num)
  {
    acc' := acc;
    assert forall j :: 0 <= j < |acc| ==> cells[j] + [] == cells[j];
    for i := 0 to |row|
      invariant |acc'| == |acc|
      invariant forall k :: |acc| <= k < i ==> IsBlank(row[k])
      invariant forall j :: 0 <= j < |acc| ==> acc'[j] == ColumnOf(cells[j] + (if j < i then [row[j]] else []), num)
    {
      ghost var before := acc';
      var clean := Clean(row[i]);
      if clean != [] {
        if i >= |acc| {
          return false, acc';
        }
        var col := acc'[i];
        if num.isNumber(clean) {
          col := col.(nums := col.nums + [num.value(clean)]);
        } else {
          col := col.(counter := Add(col.counter, row[i]));
        }
        acc' := acc'[i := col];
      }
      forall j | 0 <= j < |acc|
        ensures acc'[j] == ColumnOf(cells[j] + (if j < i + 1 then [row[j]] else []), num)
      {
        if j == i {
          ColumnOfSnoc(cells[i], row[i], num);
        } else {
          assert acc'[j] == before[j];
        }
      }
    }
    ok := true;
  }

  /**
   * The nested row/cell loop of `summarize`: it fails exactly when a row has a
   * non-blank cell beyond the header, and otherwise leaves, for every column,
   * its numeric values and the counter of its categorical cells.
   */
  method Accumulate(width: nat, rows: seq<Row>, num: NumberSyntax) returns (cols: Option<seq<Column>>)
    ensures cols.Some? <==> FitsHeader(rows, width)
    ensures cols.Some? ==> |cols.value| == width
    ensures cols.Some? ==> forall j :: 0 <= j < width ==> cols.value[j] == ColumnOf(ColumnCells(rows, j), num)
  {
    var acc: seq<Column> := seq(width, _ => Column([], Empty));
    for r := 0 to |rows|
      invariant |acc| == width
      invariant forall q :: 0 <= q < r ==> RowFits(rows[q], width)
      invariant forall j :: 0 <= j < width ==> acc[j] == ColumnOf(ColumnCells(rows[..r], j), num)
    {
      ghost var cells := seq(width, j requires 0 <= j < width => ColumnCells(rows[..r], j));
      var ok, next := AccumulateRow(acc, rows[r], num, cells);
      if !ok {
        return None;
      }
      assert rows[..r + 1] == rows[..r] + [rows[r]];
      forall j | 0 <= j < width
        ensures ColumnCells(rows[..r + 1], j) == ColumnCells(rows[..r], j) + (if j < |rows[r]| then [rows[r][j]] else [])
      {
        ColumnCellsSnoc(rows[..r], rows[r], j);
      }
      acc := next;
    }
    assert rows[..|rows|] == rows;
    return Some(acc);
  }

  // ---------------------------------------------------------------------------
  // Numeric statistics over exact reals.

  function Sum(vals: seq<real>): real {
    if vals == [] then 0.0 else Sum(vals[..|vals| - 1]) + vals[|vals| - 1]
  }

  /** `min(vals)`. */
  function Min(vals: seq<real>): (m: real)
    requires vals != []
    ensures m in vals && forall x :: x in vals ==> m <= x
  {
    if |vals| == 1 then vals[0]
    else
      var init := vals[..|vals| - 1];
      assert vals == init + [vals[|vals| - 1]];
      var m := Min(init);
      if vals[|vals| - 1] < m then vals[|vals| - 1] else m
  }

  /** `max(vals)`. */
  function Max(vals: seq<real>): (m: real)
    requires vals != []
    ensures m in vals && forall x :: x in vals ==> x <= m
  {
    if |vals| == 1 then vals[0]
    else
      var init := vals[..|vals| - 1];
      assert vals == init + [vals[|vals| - 1]];
      var m := Max(init);
      if vals[|vals| - 1] > m then vals[|vals| - 1] else m
  }

  /** `sum((x - mean) ** 2 for x in vals)`. */
  function SquaredDeviations(vals: seq<real>, mean: real): (s: real)
    ensures s >= 0.0
  {
    if vals == [] then 0.0
    else
      var d := vals[|vals| - 1] - mean;
      assert d * d >= 0.0 by {
        if d < 0.0 { assert d * d == (-d) * (-d); }
      }
      SquaredDeviations(vals[..|vals| - 1], mean) + d * d
  }

  /** The sum lies between count * min and count * max. */
  lemma {:induction false} SumBounds(vals: seq<real>, lo: real, hi: real)
    requires forall x :: x in vals ==> lo <= x <= hi
    ensures |vals| as real * lo <= Sum(vals) <= |vals| as real * hi
  {
    if vals != [] {
      var init, x := vals[..|vals| - 1], vals[|vals| - 1];
      assert vals == init + [x];
      assert forall y :: y in init ==> y in vals;
      SumBounds(init, lo, hi);
      assert Sum(vals) == Sum(init) + x;
      assert vals[|vals| - 1] in vals;
      var n := |init| as real;
      assert |vals| as real * lo == n * lo + lo;
      assert |vals| as real * hi == n * hi + hi;
    }
  }

  lemma QuotientBounds(s: real, n: real, lo: real, hi: real)
    requires n > 0.0 && n * lo <= s <= n * hi
    ensures lo <= s / n <= hi
  {
    assert s / n * n == s;
  }

  /** The mean of values that all lie between `lo` and `hi` lies between them too. */
  lemma MeanBounds(vals: seq<real>, lo: real, hi: real)
    requires vals != [] && forall x :: x in vals ==> lo <= x <= hi
    ensures lo <= Sum(vals) / |vals| as real <= hi
  {
    SumBounds(vals, lo, hi);
    QuotientBounds(Sum(vals), |vals| as real, lo, hi);
  }

  datatype NumericStats = NumericStats(count: nat, mean: real, min: real, max: real, variance: real)

  /**
   * The numeric line of a column: count, mean, min, max and the sample variance
   * (whose square root is the printed `std`), with the n - 1 divisor when there
   * are at least two values and exactly 0 for a single value.
   */
  function NumericOf(vals: seq<real>): (s: NumericStats)
    requires vals != []
    ensures s.count == |vals| >= 1
    ensures s.mean == Sum(vals) / |vals| as real
    ensures s.min in vals && s.max in vals && forall x :: x in vals ==> s.min <= x <= s.max
    ensures s.min <= s.mean <= s.max
    ensures s.variance >= 0.0
    ensures s.count == 1 ==> s.variance == 0.0
    ensures s.count > 1 ==> s.variance == SquaredDeviations(vals, s.mean) / (s.count - 1) as real
  {
    var cnt := |vals|;
    var mean := Sum(vals) / cnt as real;
    var mn, mx := Min(vals), Max(vals);
    MeanBounds(vals, mn, mx);
    if cnt == 1 then
      NumericStats(cnt, mean, mn, mx, 0.0)
    else
      NumericStats(cnt, mean, mn, mx, SquaredDeviations(vals, mean) / (cnt - 1) as real)
  }

  /** The categorical line lists this many most common values. */
  const TopCount: nat := 5

  datatype CategoricalStats = CategoricalStats(unique: nat, top5: seq<(string, nat)>)

  /** The summary of one table: per header column, its numeric line and its categorical line, either absent. */
  datatype Summary = Summary(numeric: seq<Option<NumericStats>>, categorical: seq<Option<CategoricalStats>>)

  function NumericSection(vals: seq<real>): Option<NumericStats> {
    if vals == [] then None else Some(NumericOf(vals))
  }

  function CategoricalSection(c: Counter): Option<CategoricalStats> {
    if c.keys == [] then None else Some(CategoricalStats(|c.keys|, MostCommon(c, TopCount)))
  }

  function ColumnSummary(cells: seq<string>, num: NumberSyntax): (Option<NumericStats>, Option<CategoricalStats>) {
    (NumericSection(NumericValues(cells, num)), CategoricalSection(CounterOf(CategoricalCells(cells, num))))
  }

  /**
   * A column gets a numeric line exactly when one of its cells is numeric, and
   * a categorical line exactly when one of its cells is categorical; a column
   * with both kinds of cell gets both lines.
   */
  lemma ColumnSections(cells: seq<string>, num: NumberSyntax)
    ensures ColumnSummary(cells, num).0.Some? <==> exists c :: c in cells && IsNumericCell(c, num)
    ensures ColumnSummary(cells, num).1.Some? <==> exists c :: c in cells && IsCategoricalCell(c, num)
  {
    NumericValuesSpec(cells, num);
    var cats := CategoricalCells(cells, num);
    CategoricalCellsSpec(cells, num);
    CounterOfSpec(cats);
    if cats != [] {
      assert cats[0] in cats;
    }
  }

  /**
   * The categorical line of a column: `unique` is the number of distinct raw
   * categorical cells, and `top5` holds min(5, unique) pairs (raw cell, number
   * of occurrences), each ranked ahead of the next by count and then by first
   * appearance, with every cell left out ranked behind all of them.
   */
  lemma CategoricalLine(cells: seq<string>, num: NumberSyntax)
    ensures ColumnSummary(cells, num).1.Some? ==>
      var st := ColumnSummary(cells, num).1.value;
      var cats := CategoricalCells(cells, num);
      st.unique == |set x | x in cats| &&
      |st.top5| == (if TopCount <= st.unique then TopCount else st.unique) &&
      (forall p :: p in st.top5 ==> p.0 in cells && IsCategoricalCell(p.0, num) && p.1 == multiset(cats)[p.0]) &&
      (forall i, j :: 0 <= i < j < |st.top5| ==>
         st.top5[i].0 in cats && st.top5[j].0 in cats && RankedAhead(cats, st.top5[i], st.top5[j]))
    ensures ColumnSummary(cells, num).1.Some? ==>
      var st := ColumnSummary(cells, num).1.value;
      var cats := CategoricalCells(cells, num);
      forall x :: x in cats && x !in Named(st.top5) ==>
        forall i :: 0 <= i < |st.top5| ==> st.top5[i].0 in cats && RankedAhead(cats, st.top5[i], (x, multiset(cats)[x]))
  {
    var cats := CategoricalCells(cells, num);
    CategoricalCellsSpec(cells, num);
    CounterSize(cats);
    MostCommonOfItemsCounts(cats, TopCount);
    MostCommonOfItemsRanked(cats, TopCount);
  }

  /** What `summarize(header, rows)` reports, or None when it raises IndexError. */
  function SummaryOf(header: seq<string>, rows: seq<Row>, num: NumberSyntax): Option<Summary> {
    if !FitsHeader(rows, |header|) then None
    else
      Some(Summary(
        seq(|header|, j requires 0 <= j < |header| => ColumnSummary(ColumnCells(rows, j), num).0),
        seq(|header|, j requires 0 <= j < |header| => ColumnSummary(ColumnCells(rows, j), num).1)))
  }

  /** The first reporting loop of `summarize`: a numeric line for every column with numeric values. */
  method NumericLines(acc: seq<Column>) returns (numeric: seq<Option<NumericStats>>)
    ensures |numeric| == |acc|
    ensures forall j :: 0 <= j < |acc| ==> numeric[j] == NumericSection(acc[j].nums)
  {
    numeric := [];
    for i := 0 to |acc|
      invariant |numeric| == i
      invariant forall j :: 0 <= j < i ==> numeric[j] == NumericSection(acc[j].nums)
    {
      var vals := acc[i].nums;
      if vals == [] {
        numeric := numeric + [None];
      } else {
        numeric := numeric + [Some(NumericOf(vals))];
      }
    }
  }

  /** The second reporting loop of `summarize`: a categorical line for every column whose counter is not empty. */
  method CategoricalLines(acc: seq<Column>) returns (categorical: seq<Option<CategoricalStats>>)
    ensures |categorical| == |acc|
    ensures forall j :: 0 <= j < |acc| ==> categorical[j] == CategoricalSection(acc[j].counter)
  {
    categorical := [];
    for i := 0 to |acc|
      invariant |categorical| == i
      invariant forall j :: 0 <= j < i ==> categorical[j] == CategoricalSection(acc[j].counter)
    {
      var ctr := acc[i].counter;
      if ctr.keys == [] {
        categorical := categorical + [None];
      } else {
        categorical := categorical + [Some(CategoricalStats(|ctr.keys|, MostCommon(ctr, TopCount)))];
      }
    }
  }

  /** `summarize(header, rows)`: accumulate every column, then report them. */
  method Summarize(header: seq<string>, rows: seq<Row>, num: NumberSyntax) returns (s: Option<Summary>)
    ensures s.Some? <==> FitsHeader(rows, |header|)
    ensures s == SummaryOf(header, rows, num)
  {
    var cols := Accumulate(|header|, rows, num);
    if cols.None? {
      return None;
    }
    var numeric := NumericLines(cols.value);
    var categorical := CategoricalLines(cols.value);
    forall j | 0 <= j < |header|
      ensures ColumnSummary(ColumnCells(rows, j), num) == (numeric[j], categorical[j])
    {
    }
    assert numeric == SummaryOf(header, rows, num).value.numeric;
    assert categorical == SummaryOf(header, rows, num).value.categorical;
    return Some(Summary(numeric, categorical));
  }
}
