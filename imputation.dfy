/** Stage 1 of `preprocess_data`: every column with a missing entry is filled, an object
    column with its mode and any other column with its median, and one report line is
    appended per filled column. */
module Imputation {
  import opened Wrappers
  import opened Stats
  import opened Tables

  /** The outcome of the imputation loop: the filled table with its report lines, or the
      name of the object column whose `mode()[0]` failed because it holds no value at all. */
  datatype Imputed = Imputed(table: Table, report: seq<string>) | NoMode(column: string)

  /** `fillna(v)`: every missing entry becomes `v`. */
  function FillWith<T>(xs: seq<Option<T>>, v: T): seq<Option<T>>
  {
    seq(|xs|, i requires 0 <= i < |xs| => if xs[i].None? then Some(v) else xs[i])
  }

  /** What one pass of the imputation loop does to a column with a missing entry: an object
      column gets its mode, any other column its median; `None` when the mode does not exist.
      FillColumnFills states what this means. */
  function FillColumn(c: Column): Option<Column>
    requires c.cells.HasMissing()
  {
    match c.cells
    case Object(text) =>
      (match Mode(text)
       case None => None
       case Some(m) => Some(Column(c.name, Object(FillWith(text, m)))))
    case Number(nums) =>
      (match Median(nums)
       case None => Some(c)
       case Some(m) => Some(Column(c.name, Number(FillWith(nums, m)))))
  }

  /** Filling fails exactly for an object column without any value. Otherwise the column
      keeps its name, dtype, length and present entries; its holes are gone unless it had no
      value at all (a numeric column's median is then NaN and the fill changes nothing). An
      object column's holes now hold the smallest of its most frequent values, a numeric
      column's holes its median. */
  lemma FillColumnFills(c: Column)
    requires c.cells.HasMissing()
    ensures FillColumn(c).None? <==> c.cells.Object? && c.cells.AllMissing()
    ensures FillColumn(c).Some? ==>
      var f := FillColumn(c).value;
      && f.name == c.name && Keeps(c.cells, f.cells)
      && (!c.cells.AllMissing() ==> !f.cells.HasMissing())
      && (c.cells.AllMissing() ==> f == c)
    ensures FillColumn(c).Some? && c.cells.Object? ==>
      forall i | 0 <= i < |c.cells.text| && c.cells.text[i].None? ::
        FillColumn(c).value.cells.text[i].Some? && IsMode(c.cells.text, FillColumn(c).value.cells.text[i].value)
    ensures FillColumn(c).Some? && c.cells.Number? ==>
      forall i | 0 <= i < |c.cells.nums| && c.cells.nums[i].None? ::
        FillColumn(c).value.cells.nums[i] == Median(c.cells.nums)
  {
    match c.cells
    case Object(text) => FillObject(c.name, text);
    case Number(nums) => FillNumber(c.name, nums);
  }

  lemma FillObject(name: string, text: seq<Option<string>>)
    requires None in text
    ensures var c := Column(name, Object(text));
      && (FillColumn(c).None? <==> c.cells.AllMissing())
      && (FillColumn(c).Some? ==>
            var f := FillColumn(c).value.cells.text;
            && |f| == |text| && None !in f
            && forall i | 0 <= i < |text| ::
                 if text[i].Some? then f[i] == text[i] else IsMode(text, f[i].value))
  {
    ModeIsMode(text);
    var m := Mode(text);
    if m.Some? {
      var f := FillColumn(Column(name, Object(text))).value.cells.text;
      assert f == FillWith(text, m.value);
      forall i | 0 <= i < |f| ensures f[i].Some? {
        assert text[i].None? ==> f[i] == m;
      }
    }
  }

  lemma FillNumber(name: string, nums: seq<Option<real>>)
    requires None in nums
    ensures var c := Column(name, Number(nums));
      var f := FillColumn(c).value.cells.nums;
      && FillColumn(c).Some? && FillColumn(c).value.name == name
      && |f| == |nums|
      && (c.cells.AllMissing() ==> FillColumn(c).value == c)
      && (!c.cells.AllMissing() ==> None !in f)
      && forall i | 0 <= i < |nums| :: if nums[i].Some? then f[i] == nums[i] else f[i] == Median(nums)
  {
    MedianSplits(nums);
    var m := Median(nums);
    if m.Some? {
      var f := FillColumn(Column(name, Number(nums))).value.cells.nums;
      assert f == FillWith(nums, m.value);
      forall i | 0 <= i < |f| ensures f[i].Some? {
        assert nums[i].None? ==> f[i] == m;
      }
    }
  }

  /** The report line for a filled column. */
  function FillLine(c: Column): string
  {
    "Filled missing values in " + c.name + (if c.cells.Object? then " with mode" else " with median")
  }

  /** `missing_cols`: the columns of `t` with at least one missing entry, in order. */
  function MissingColumns(t: Table): Table
  {
    if t == [] then []
    else
      var last := t[|t| - 1];
      MissingColumns(t[..|t| - 1]) + (if last.cells.HasMissing() then [last] else [])
  }

  /** `missing_cols` holds exactly the columns with a missing entry. */
  lemma {:induction false} MissingColumnsMembers(t: Table)
    ensures forall c :: c in MissingColumns(t) <==> c in t && c.cells.HasMissing()
  {
    if t != [] {
      var init := t[..|t| - 1];
      MissingColumnsMembers(init);
      assert t == init + [t[|t| - 1]];
    }
  }

  /** `missing_cols` keeps table order: the columns of a table split in two come in the order
      of the two parts. */
  lemma {:induction false} MissingColumnsAppend(a: Table, b: Table)
    ensures MissingColumns(a + b) == MissingColumns(a) + MissingColumns(b)
  {
    if b == [] {
      assert a + b == a;
    } else {
      var ab := a + b;
      var init := b[..|b| - 1];
      assert ab[..|ab| - 1] == a + init && ab[|ab| - 1] == b[|b| - 1];
      MissingColumnsAppend(a, init);
    }
  }

  /** `missing_cols` is empty exactly when no column has a missing entry. */
  lemma {:induction false} MissingColumnsEmpty(t: Table)
    ensures MissingColumns(t) == [] <==> forall k | 0 <= k < |t| :: !t[k].cells.HasMissing()
  {
    if t != [] {
      var init := t[..|t| - 1];
      MissingColumnsEmpty(init);
      assert forall k | 0 <= k < |init| :: init[k] == t[k];
    }
  }

  /** One fill line per column, in order. */
  function FillLines(cols: Table): (lines: seq<string>)
    ensures |lines| == |cols|
  {
    seq(|cols|, j requires 0 <= j < |cols| => FillLine(cols[j]))
  }

  /** The imputation loop after its first `i` columns: the frame, in which those of the
      first `i` columns that had a missing entry are filled and the rest is as in `t`, and
      the report so far; or the column at which `mode()[0]` failed. */
  function ImputeUpTo(t: Table, i: nat): (r: Imputed)
    requires i <= |t|
    ensures r.Imputed? ==> |r.table| == |t| && forall k | i <= k < |t| :: r.table[k] == t[k]
  {
    if i == 0 then Imputed(t, [])
    else
      match ImputeUpTo(t, i - 1)
      case NoMode(col) => NoMode(col)
      case Imputed(frame, report) =>
        var c := t[i - 1];
        if !c.cells.HasMissing() then Imputed(frame, report)
        else match FillColumn(c)
          case None => NoMode(c.name)
          case Some(filled) => Imputed(frame[i - 1 := filled], report + [FillLine(c)])
  }

  /** The whole imputation loop. */
  function Impute(t: Table): Imputed
  {
    ImputeUpTo(t, |t|)
  }

  /** The imputation loop of `preprocess_data`: `missing_cols` is visited in table order,
      each column is filled in place and a line is appended to the report. */
  method FillMissing(df: Table) returns (r: Imputed)
    ensures r == Impute(df)
  {
    var frame := df;
    var report: seq<string> := [];
    for i := 0 to |df|
      invariant ImputeUpTo(df, i) == Imputed(frame, report)
    {
      var c := frame[i];
      if c.cells.HasMissing() {
        var f := FillColumn(c);
        if f.None? {
          ImputePropagates(df, i + 1);
          return NoMode(c.name);
        }
        frame := frame[i := f.value];
        report := report + [FillLine(c)];
      }
    }
    r := Imputed(frame, report);
  }

  /** Once the loop fails, it stays failed with the same column. */
  lemma {:induction false} ImputePropagates(t: Table, i: nat)
    requires i <= |t| && ImputeUpTo(t, i).NoMode?
    ensures Impute(t) == ImputeUpTo(t, i)
    decreases |t| - i
  {
    if i < |t| {
      ImputePropagates(t, i + 1);
    }
  }

  /** The loop leaves a column without missing entries as it is and replaces a column with
      a missing entry by its fill. */
  lemma {:induction false} ImputeUpToColumnwise(t: Table, i: nat)
    requires i <= |t|
    ensures ImputeUpTo(t, i).Imputed? ==>
      var frame := ImputeUpTo(t, i).table;
      forall k | 0 <= k < i ::
        && (t[k].cells.HasMissing() ==> FillColumn(t[k]) == Some(frame[k]))
        && (!t[k].cells.HasMissing() ==> frame[k] == t[k])
  {
    if i > 0 {
      ImputeUpToColumnwise(t, i - 1);
      var prev := ImputeUpTo(t, i - 1);
      var c := t[i - 1];
      if prev.Imputed? && c.cells.HasMissing() && FillColumn(c).Some? {
        assert ImputeUpTo(t, i).table == prev.table[i - 1 := FillColumn(c).value];
      } else if prev.Imputed? && !c.cells.HasMissing() {
        assert ImputeUpTo(t, i) == prev;
      }
    }
  }

  lemma ImputeColumnwise(t: Table)
    ensures Impute(t).Imputed? ==>
      var frame := Impute(t).table;
      && |frame| == |t|
      && forall k | 0 <= k < |t| ::
        && (t[k].cells.HasMissing() ==> FillColumn(t[k]) == Some(frame[k]))
        && (!t[k].cells.HasMissing() ==> frame[k] == t[k])
  {
    ImputeUpToColumnwise(t, |t|);
  }

  /** After imputation every column keeps its name, dtype, length and present entries, and
      no column that had a value still has a hole. */
  lemma ImputeFillsHoles(t: Table)
    requires Impute(t).Imputed?
    ensures |Impute(t).table| == |t|
    ensures forall k | 0 <= k < |t| ::
      var c := Impute(t).table[k];
      && c.name == t[k].name
      && Keeps(t[k].cells, c.cells)
      && (!t[k].cells.AllMissing() ==> !c.cells.HasMissing())
  {
    ImputeColumnwise(t);
    forall k | 0 <= k < |t| && t[k].cells.HasMissing() {
      FillColumnFills(t[k]);
    }
  }

  /** The report holds one fill line per column with a missing entry, in table order. */
  lemma {:induction false} ImputeUpToReport(t: Table, i: nat)
    requires i <= |t|
    ensures ImputeUpTo(t, i).Imputed? ==> ImputeUpTo(t, i).report == FillLines(MissingColumns(t[..i]))
  {
    if i > 0 {
      ImputeUpToReport(t, i - 1);
      assert t[..i][..i - 1] == t[..i - 1];
      var prev := ImputeUpTo(t, i - 1);
      var cols := MissingColumns(t[..i - 1]);
      var c := t[i - 1];
      if prev.Imputed? && c.cells.HasMissing() && FillColumn(c).Some? {
        assert ImputeUpTo(t, i).report == prev.report + [FillLine(c)];
        assert MissingColumns(t[..i]) == cols + [c];
        assert FillLines(cols + [c]) == FillLines(cols) + [FillLine(c)];
      } else if prev.Imputed? && !c.cells.HasMissing() {
        assert ImputeUpTo(t, i) == prev;
        assert MissingColumns(t[..i]) == cols + [];
      }
    }
  }

  lemma ImputeReport(t: Table)
    ensures Impute(t).Imputed? ==> Impute(t).report == FillLines(MissingColumns(t))
  {
    ImputeUpToReport(t, |t|);
    assert t[..|t|] == t;
  }

  /** A table without missing entries passes through unchanged and gets no fill line. */
  lemma NothingMissing(t: Table)
    requires forall k | 0 <= k < |t| :: !t[k].cells.HasMissing()
    ensures Impute(t) == Imputed(t, [])
  {
    ImputeUpToColumnwise(t, |t|);
    ImputeUpToReport(t, |t|);
    assert t[..|t|] == t;
    MissingColumnsEmpty(t);
    ImputeFails(t);
    forall k | 0 <= k < |t| ensures !Unfillable(t[k]) {
      AllMissingHasMissing(t[k].cells);
    }
  }

  /** `mode()[0]` fails on an object column that has a missing entry and no value. */
  predicate Unfillable(c: Column)
  {
    c.cells.Object? && c.cells.AllMissing()
  }

  /** The loop fails exactly when some column is unfillable, and it reports the first one. */
  lemma {:induction false} ImputeUpToFails(t: Table, i: nat)
    requires i <= |t|
    ensures ImputeUpTo(t, i).NoMode? <==> exists k | 0 <= k < i :: Unfillable(t[k])
    ensures ImputeUpTo(t, i).NoMode? ==>
      exists k | 0 <= k < i ::
        && Unfillable(t[k]) && ImputeUpTo(t, i).column == t[k].name
        && forall j | 0 <= j < k :: !Unfillable(t[j])
  {
    if i > 0 {
      ImputeUpToFails(t, i - 1);
      var c := t[i - 1];
      AllMissingHasMissing(c.cells);
      if c.cells.HasMissing() {
        FillColumnFills(c);
      }
    }
  }

  lemma ImputeFails(t: Table)
    ensures Impute(t).NoMode? <==> exists k | 0 <= k < |t| :: Unfillable(t[k])
    ensures Impute(t).NoMode? ==>
      exists k | 0 <= k < |t| ::
        && Unfillable(t[k]) && Impute(t).column == t[k].name
        && forall j | 0 <= j < k :: !Unfillable(t[j])
  {
    ImputeUpToFails(t, |t|);
  }
}
