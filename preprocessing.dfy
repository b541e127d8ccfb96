/** `preprocess_data`: imputation, one-hot encoding and min-max scaling, in that order, each
    stage appending to the report. The table handed in is not changed; a new one is returned. */
module Preprocessing {
  import opened Wrappers
  import Strings
  import opened Stats
  import opened Tables
  import opened Imputation
  import opened Encoding
  import opened Scaling

  /** What `preprocess_data` returns: the cleaned table and the report; or the object column
      at which `mode()[0]` raised because the column holds no value; or the `ValueError` that
      `get_dummies` raises on a frame without columns, having no block to concatenate. */
  datatype Outcome = Cleaned(table: Table, report: seq<string>) | Raised(column: string) | NoColumns

  /** The items of Python's `str(list)` for a list of column names: `'a', 'b'`. */
  function Items(names: seq<string>): string
  {
    if names == [] then []
    else if |names| == 1 then "'" + names[0] + "'"
    else "'" + names[0] + "', " + Items(names[1..])
  }

  /** Python's `str(list)` for a list of column names: `['a', 'b']`, `[]` when empty. */
  function PyList(names: seq<string>): string
  {
    "[" + Items(names) + "]"
  }

  function EncodingLine(catCols: seq<string>): string
  {
    "Applied One-Hot Encoding to categorical variables: " + PyList(catCols)
  }

  function ScalingLine(numCols: seq<string>): string
  {
    "Applied Min-Max Scaling to numerical features: " + PyList(numCols)
  }

  /** The table after the scaling assignment. */
  function ScaleAll(t: Table): (r: Table)
    ensures |r| == |t|
  {
    seq(|t|, i requires 0 <= i < |t| => ScaleColumn(t[i]))
  }

  /** `preprocess_data(df)`, with `numericDummies` choosing the indicator dtype: uint8 (a
      number, older pandas) or bool (pandas 2). */
  function Preprocess(df: Table, numericDummies: bool): Outcome
  {
    match Impute(df)
    case NoMode(col) => Raised(col)
    case Imputed(filled, fillReport) =>
      if filled == [] then NoColumns
      else
      var encoded := GetDummies(filled, numericDummies);
      Cleaned(ScaleAll(encoded),
              fillReport + [EncodingLine(ObjectNames(filled)), ScalingLine(NumberNames(encoded))])
  }

  /** `preprocess_data`: the fill loop, the `get_dummies` rebinding and the in-place scaling,
      with the report built by appends. */
  method PreprocessData(df: Table, numericDummies: bool) returns (out: Outcome)
    ensures out == Preprocess(df, numericDummies)
  {
    var imputed := FillMissing(df);
    if imputed.NoMode? {
      return Raised(imputed.column);
    }
    var frame := imputed.table;
    var report := imputed.report;

    var catCols := ObjectNames(frame);
    if frame == [] {
      return NoColumns;
    }
    frame := GetDummies(frame, numericDummies);
    report := report + [EncodingLine(catCols)];

    var numCols := NumberNames(frame);
    frame := MinMaxScale(frame);
    report := report + [ScalingLine(numCols)];

    out := Cleaned(frame, report);
  }

  /** Imputation keeps every column's name and dtype. */
  lemma ImputeKeepsKinds(df: Table)
    requires Impute(df).Imputed?
    ensures |Impute(df).table| == |df|
    ensures forall k | 0 <= k < |df| ::
      && Impute(df).table[k].name == df[k].name
      && Impute(df).table[k].cells.Object? == df[k].cells.Object?
      && Impute(df).table[k].cells.Number? == df[k].cells.Number?
      && (df[k].cells.Bool? ==> Impute(df).table[k] == df[k])
  {
    ImputeFillsHoles(df);
  }

  lemma {:induction false} ObjectNamesAgree(a: Table, b: Table)
    requires |a| == |b|
    requires forall k | 0 <= k < |a| :: a[k].name == b[k].name && a[k].cells.Object? == b[k].cells.Object?
    ensures ObjectNames(a) == ObjectNames(b)
  {
    if a != [] {
      ObjectNamesAgree(a[1..], b[1..]);
    }
  }

  lemma {:induction false} NumberNamesAgree(a: Table, b: Table)
    requires |a| == |b|
    requires forall k | 0 <= k < |a| :: a[k].name == b[k].name && a[k].cells.Number? == b[k].cells.Number?
    ensures NumberNames(a) == NumberNames(b)
  {
    if a != [] {
      NumberNamesAgree(a[1..], b[1..]);
    }
  }

  /** The report: one fill line per column of `df` with a missing entry, in column order,
      then the encoding line naming the object columns of `df`, then the scaling line naming
      the numeric columns of the result; so it always has two lines more than there are
      columns with missing entries, and just those two when nothing is missing. */
  lemma PreprocessReport(df: Table, numericDummies: bool)
    requires Preprocess(df, numericDummies).Cleaned?
    ensures var out := Preprocess(df, numericDummies);
      out.report == FillLines(MissingColumns(df))
                    + [EncodingLine(ObjectNames(df)), ScalingLine(NumberNames(out.table))]
    ensures |Preprocess(df, numericDummies).report| == |MissingColumns(df)| + 2
  {
    ImputeReport(df);
    ImputeKeepsKinds(df);
    var filled := Impute(df).table;
    ObjectNamesAgree(filled, df);
    var encoded := GetDummies(filled, numericDummies);
    NumberNamesAgree(ScaleAll(encoded), encoded);
  }

  /** `preprocess_data` raises exactly when an object column with a missing entry holds no
      value at all. */
  lemma PreprocessRaises(df: Table, numericDummies: bool)
    ensures Preprocess(df, numericDummies).Raised? <==> exists k | 0 <= k < |df| :: Unfillable(df[k])
  {
    ImputeFails(df);
  }

  /** Only a table without columns makes `get_dummies` raise, and it does so whenever
      nothing raised before it. */
  lemma PreprocessNoColumns(df: Table, numericDummies: bool)
    ensures Preprocess(df, numericDummies).NoColumns? <==> df == []
  {
    if Impute(df).Imputed? {
      ImputeFillsHoles(df);
    } else {
      ImputeFails(df);
    }
  }

  /** Scaling is harmless for the dummy columns: whatever their dtype, they come out as
      `get_dummies` made them (a 0/1 column holding both values has minimum 0 and maximum 1). */
  lemma ScaleKeepsDummy(c: Column, numericDummies: bool, j: nat)
    requires c.cells.Object? && j < |Dummies(c, numericDummies)|
    ensures ScaleColumn(Dummies(c, numericDummies)[j]) == Dummies(c, numericDummies)[j]
  {
    var d := Dummies(c, numericDummies)[j];
    DummyAt(c, numericDummies, j);
    if numericDummies {
      var text := c.cells.text;
      var level := Levels(text)[j + 1];
      IndicatorMeaning(text, level, numericDummies);
      DummiesHaveBothValues(c, numericDummies, j);
      var hot :| 0 <= hot < |text| && Hot(d.cells, hot);
      var cold :| 0 <= cold < |text| && Cold(d.cells, cold);
      assert d.cells.nums[hot] == Some(1.0) && d.cells.nums[cold] == Some(0.0);
      MinMaxKeepsIndicator(d.cells.nums);
    }
  }

  lemma {:induction false} ScaleKeepsEncoded(t: Table, numericDummies: bool)
    ensures ScaleAll(Encoded(t, numericDummies)) == Encoded(t, numericDummies)
  {
    if t != [] {
      ScaleKeepsEncoded(t[1..], numericDummies);
      var head := if t[0].cells.Object? then Dummies(t[0], numericDummies) else [];
      var rest := Encoded(t[1..], numericDummies);
      assert Encoded(t, numericDummies) == head + rest;
      forall j | 0 <= j < |head| ensures ScaleColumn(head[j]) == head[j] {
        ScaleKeepsDummy(t[0], numericDummies, j);
      }
      ScaleAllSplit(head, rest);
    }
  }

  lemma ScaleAllSplit(a: Table, b: Table)
    ensures ScaleAll(a + b) == ScaleAll(a) + ScaleAll(b)
  {
  }

  /** The cleaned table is the scaled non-object columns of the filled table, in their order,
      followed by the dummy columns exactly as `get_dummies` produced them. */
  lemma PreprocessLayout(df: Table, numericDummies: bool)
    requires Preprocess(df, numericDummies).Cleaned?
    ensures var filled := Impute(df).table;
      Preprocess(df, numericDummies).table == ScaleAll(Kept(filled)) + Encoded(filled, numericDummies)
  {
    var filled := Impute(df).table;
    ScaleAllSplit(Kept(filled), Encoded(filled, numericDummies));
    ScaleKeepsEncoded(filled, numericDummies);
  }

  /** Every column of the cleaned table has the rows of `df`, none is an object column, and
      every present numeric cell lies in [0, 1]. */
  lemma PreprocessTable(df: Table, numericDummies: bool, rows: nat)
    requires Rectangular(df, rows) && Preprocess(df, numericDummies).Cleaned?
    ensures var out := Preprocess(df, numericDummies).table;
      && Rectangular(out, rows)
      && (forall c | c in out :: !c.cells.Object?)
      && (forall c | c in out && c.cells.Number? ::
            forall i | 0 <= i < |c.cells.nums| && c.cells.nums[i].Some? :: 0.0 <= c.cells.nums[i].value <= 1.0)
  {
    var filled := Impute(df).table;
    ImputeFillsHoles(df);
    assert Rectangular(filled, rows) by {
      forall k | 0 <= k < |filled| ensures filled[k].cells.Rows() == rows {
        assert Keeps(df[k].cells, filled[k].cells);
      }
    }
    var encoded := GetDummies(filled, numericDummies);
    GetDummiesShape(filled, numericDummies, rows);
    assert Preprocess(df, numericDummies).table == ScaleAll(encoded);
    ScaleAllShape(encoded, rows);
  }

  /** Scaling a rectangular table without object columns keeps it so and puts every present
      numeric cell in [0, 1]. */
  lemma ScaleAllShape(t: Table, rows: nat)
    requires Rectangular(t, rows) && forall c | c in t :: !c.cells.Object?
    ensures var out := ScaleAll(t);
      && Rectangular(out, rows)
      && (forall c | c in out :: !c.cells.Object?)
      && (forall c | c in out && c.cells.Number? ::
            forall i | 0 <= i < |c.cells.nums| && c.cells.nums[i].Some? :: 0.0 <= c.cells.nums[i].value <= 1.0)
  {
    var out := ScaleAll(t);
    forall c | c in out
      ensures c.cells.Rows() == rows && !c.cells.Object?
      ensures c.cells.Number? ==>
        forall i | 0 <= i < |c.cells.nums| && c.cells.nums[i].Some? :: 0.0 <= c.cells.nums[i].value <= 1.0
    {
      var k :| 0 <= k < |out| && out[k] == c;
      assert t[k] in t;
      if t[k].cells.Number? {
        MinMaxBounds(t[k].cells.nums);
      }
    }
  }

  /** A column that is neither object nor numeric (a bool column) comes through untouched. */
  lemma PreprocessKeepsBool(df: Table, numericDummies: bool, k: nat)
    requires k < |df| && df[k].cells.Bool? && Preprocess(df, numericDummies).Cleaned?
    ensures df[k] in Preprocess(df, numericDummies).table
  {
    ImputeKeepsKinds(df);
    var filled := Impute(df).table;
    KeptMembers(filled);
    assert filled[k] == df[k] && df[k] in Kept(filled);
    var i :| 0 <= i < |Kept(filled)| && Kept(filled)[i] == df[k];
    PreprocessLayout(df, numericDummies);
    assert Preprocess(df, numericDummies).table[i] == ScaleColumn(df[k]);
  }

  // ---------------------------------------------------------------- a worked example

  /** A colour column without holes and a size column with its middle entry missing. */
  const Color := Column("color", Object([Some("red"), Some("blue"), Some("red")]))
  const Size := Column("size", Number([Some(1.0), None, Some(3.0)]))
  /** The size column once its hole holds the median of 1 and 3. */
  const SizeFilled := Column("size", Number([Some(1.0), Some(2.0), Some(3.0)]))
  /** The one dummy column of `Color`: `blue`, the smallest level, is dropped. */
  const ColorRed := Column("color_red", Number([Some(1.0), Some(0.0), Some(1.0)]))

  /** With uint8 dummies, the size column is scaled to 0, 0.5, 1, the dummy column comes
      through scaling unchanged, and the scaling line names both (ExampleLines spells
      the lines out). */
  lemma WorkedExample()
    ensures Preprocess([Color, Size], true)
         == Cleaned([Column("size", Number([Some(0.0), Some(0.5), Some(1.0)])), ColorRed],
                    [FillLine(Size), EncodingLine(["color"]), ScalingLine(["size", "color_red"])])
  {
    ExamplePipeline();
    ExampleScale();
    ExampleNames();
    var encoded := [SizeFilled, ColorRed];
    assert ScaleAll(encoded) == [ScaleColumn(SizeFilled), ScaleColumn(ColorRed)];
  }

  lemma ExamplePipeline()
    ensures var filled, encoded := [Color, SizeFilled], [SizeFilled, ColorRed];
      Preprocess([Color, Size], true)
        == Cleaned(ScaleAll(encoded), [FillLine(Size), EncodingLine(ObjectNames(filled)), ScalingLine(NumberNames(encoded))])
  {
    ExampleImpute();
    ExampleEncode();
    var line := FillLine(Size);
    var filled := [Color, SizeFilled];
    var encoded := [SizeFilled, ColorRed];
    var a, b := EncodingLine(ObjectNames(filled)), ScalingLine(NumberNames(encoded));
    assert Preprocess([Color, Size], true) == Cleaned(ScaleAll(encoded), [line] + [a, b]);
    assert [line] + [a, b] == [line, a, b];
  }

  /** The report lines of the worked example, spelt out. */
  lemma ExampleLines()
    ensures FillLine(Size) == "Filled missing values in size with median"
    ensures PyList(["color"]) == "['color']"
    ensures PyList(["size", "color_red"]) == "['size', 'color_red']"
  {
    ExampleFillLine();
    ExampleLists();
  }

  lemma ExampleFillLine()
    ensures FillLine(Size) == "Filled missing values in size with median"
  {
    assert FillLine(Size) == "Filled missing values in " + "size" + " with median";
  }

  lemma ExampleLists()
    ensures PyList(["color"]) == "['color']"
    ensures PyList(["size", "color_red"]) == "['size', 'color_red']"
  {
    assert ["size", "color_red"][1..] == ["color_red"];
    assert Items(["size", "color_red"]) == "'size', " + Items(["color_red"]);
  }

  lemma ExampleNames()
    ensures ObjectNames([Color, SizeFilled]) == ["color"]
    ensures NumberNames([SizeFilled, ColorRed]) == ["size", "color_red"]
  {
    assert [Color, SizeFilled][1..] == [SizeFilled] && [SizeFilled][1..] == [];
    assert ObjectNames([SizeFilled]) == [] + ObjectNames([]);
    assert [SizeFilled, ColorRed][1..] == [ColorRed] && [ColorRed][1..] == [];
    assert NumberNames([ColorRed]) == ["color_red"] + NumberNames([]);
  }

  lemma ExampleImpute()
    ensures Impute([Color, Size]) == Imputed([Color, SizeFilled], [FillLine(Size)])
  {
    var df := [Color, Size];
    ExampleMedian();
    var f := FillWith(Size.cells.nums, 2.0);
    assert f[0] == Some(1.0) && f[1] == Some(2.0) && f[2] == Some(3.0);
    assert f == SizeFilled.cells.nums;
    assert FillColumn(Size) == Some(SizeFilled);
    assert !Color.cells.HasMissing();
    assert ImputeUpTo(df, 1) == Imputed(df, []);
    assert df[1 := SizeFilled] == [Color, SizeFilled];
  }

  lemma ExampleMedian()
    ensures Median(Size.cells.nums) == Some(2.0)
  {
    var xs := Size.cells.nums;
    assert xs[1..] == [None, Some(3.0)] && xs[1..][1..] == [Some(3.0)] && xs[1..][1..][1..] == [];
    assert Present([Some(3.0)]) == [3.0] + Present([]);
    assert Present(xs[1..]) == [] + Present([Some(3.0)]);
    assert Present(xs) == [1.0] + Present(xs[1..]);
    assert Sort([3.0]) == Insert(3.0, Sort([])) == [3.0];
    assert Sort([1.0, 3.0]) == Insert(1.0, Sort([3.0])) == [1.0, 3.0];
    assert Kth([1.0, 3.0], 0) == 1.0 && Kth([1.0, 3.0], 1) == 3.0;
    var p := Present(xs);
    assert p == [1.0, 3.0];
    assert Middle(p) == 2.0;
  }

  lemma ExampleEncode()
    ensures GetDummies([Color, SizeFilled], true) == [SizeFilled, ColorRed]
  {
    var text := Color.cells.text;
    assert Strings.Less("blue", "red");
    assert Levels(text[2..]) == ["red"];
    assert Levels(text[1..]) == ["blue", "red"];
    assert Levels(text) == ["blue", "red"];
    var ind := Indicator(text, "red", true);
    assert ind.nums[0] == Some(1.0) && ind.nums[1] == Some(0.0) && ind.nums[2] == Some(1.0);
    assert ind == ColorRed.cells;
    assert IndicatorColumn(Color, "red", true) == ColorRed;
    assert Dummies(Color, true) == [ColorRed];
    var t := [Color, SizeFilled];
    assert t[1..] == [SizeFilled] && t[1..][1..] == [];
    assert Kept([]) == [] && Kept([SizeFilled]) == [SizeFilled] + Kept([]);
    assert Kept(t) == Kept([SizeFilled]);
    assert Encoded([SizeFilled], true) == [] + Encoded([], true);
    assert Encoded(t, true) == Dummies(Color, true) + Encoded([SizeFilled], true);
  }

  lemma ExampleScale()
    ensures ScaleColumn(SizeFilled) == Column("size", Number([Some(0.0), Some(0.5), Some(1.0)]))
    ensures ScaleColumn(ColorRed) == ColorRed
  {
    ExampleScaleSize();
    var ys := ColorRed.cells.nums;
    assert ys[0] == Some(1.0) && ys[1] == Some(0.0);
    MinMaxKeepsIndicator(ys);
  }

  lemma ExampleScaleSize()
    ensures MinMax(SizeFilled.cells.nums) == [Some(0.0), Some(0.5), Some(1.0)]
  {
    var xs := SizeFilled.cells.nums;
    assert xs[1..] == [Some(2.0), Some(3.0)] && xs[1..][1..] == [Some(3.0)] && xs[1..][1..][1..] == [];
    ExampleExtremes();
    var r := MinMax(xs);
    assert r[0] == Some(0.0) && r[1] == Some(0.5) && r[2] == Some(1.0);
  }

  lemma ExampleExtremes()
    ensures Min(SizeFilled.cells.nums) == Some(1.0) && Max(SizeFilled.cells.nums) == Some(3.0)
  {
    var xs := SizeFilled.cells.nums;
    assert xs[1..] == [Some(2.0), Some(3.0)] && xs[1..][1..] == [Some(3.0)] && xs[1..][1..][1..] == [];
    assert Min([Some(3.0)]) == Some(3.0) && Max([Some(3.0)]) == Some(3.0);
    assert Min(xs[1..]) == Some(2.0) && Max(xs[1..]) == Some(3.0);
  }
}
