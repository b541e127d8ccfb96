/** Stage 2 of `preprocess_data`: pandas' `get_dummies` over the object columns, with the
    first level dropped.
    Every object column is dropped and replaced by one indicator column `col_value` per
    distinct value except the smallest; the other columns keep their order and come first. */
module Encoding {
  import opened Wrappers
  import opened Strings
  import opened Stats
  import opened Tables

  /** The indicator cells for `level` of an object column: 1 where the row holds `level`,
      0 elsewhere (a missing row included). Older pandas give them dtype uint8, a number
      (`numeric`); pandas 2 gives them dtype bool. */
  function Indicator(text: seq<Option<string>>, level: string, numeric: bool): Cells
  {
    if numeric then
      Number(seq(|text|, i requires 0 <= i < |text| => Some(if text[i] == Some(level) then 1.0 else 0.0)))
    else
      Bool(seq(|text|, i requires 0 <= i < |text| => text[i] == Some(level)))
  }

  /** The indicator cell in `row` is 1 (`True`). */
  predicate Hot(c: Cells, row: nat)
  {
    match c
    case Number(nums) => row < |nums| && nums[row] == Some(1.0)
    case Bool(flags) => row < |flags| && flags[row]
    case Object(_) => false
  }

  /** The indicator cell in `row` is 0 (`False`). */
  predicate Cold(c: Cells, row: nat)
  {
    match c
    case Number(nums) => row < |nums| && nums[row] == Some(0.0)
    case Bool(flags) => row < |flags| && !flags[row]
    case Object(_) => false
  }

  /** An indicator has the rows of its column, and each of its cells is 1 exactly where the
      column holds the level and 0 everywhere else. */
  lemma IndicatorMeaning(text: seq<Option<string>>, level: string, numeric: bool)
    ensures !Indicator(text, level, numeric).Object?
    ensures Indicator(text, level, numeric).Rows() == |text|
    ensures forall row | 0 <= row < |text| ::
      && (Hot(Indicator(text, level, numeric), row) <==> text[row] == Some(level))
      && (Cold(Indicator(text, level, numeric), row) <==> text[row] != Some(level))
  {
  }

  /** The indicator column for `level` of object column `c`, named `col_value`. */
  function IndicatorColumn(c: Column, level: string, numeric: bool): Column
    requires c.cells.Object?
  {
    Column(c.name + "_" + level, Indicator(c.cells.text, level, numeric))
  }

  /** The dummy columns of one object column: one per level in ascending order, the first
      (smallest) level dropped (`drop_first=True`). */
  function Dummies(c: Column, numeric: bool): Table
    requires c.cells.Object?
  {
    var levels := Levels(c.cells.text);
    if levels == [] then []
    else seq(|levels| - 1, j requires 0 <= j < |levels| - 1 => IndicatorColumn(c, levels[j + 1], numeric))
  }

  lemma DummyAt(c: Column, numeric: bool, j: nat)
    requires c.cells.Object? && j < |Dummies(c, numeric)|
    ensures j + 1 < |Levels(c.cells.text)|
    ensures Dummies(c, numeric)[j] == IndicatorColumn(c, Levels(c.cells.text)[j + 1], numeric)
  {
    var levels := Levels(c.cells.text);
    assert levels != [];
    assert |Dummies(c, numeric)| == |levels| - 1;
  }

  lemma PrefixCancel(p: string, a: string, b: string)
    requires p + a == p + b
    ensures a == b
  {
    assert a == (p + a)[|p|..];
    assert b == (p + b)[|p|..];
  }

  lemma InDistinct(text: seq<Option<string>>, v: string)
    ensures v in Distinct(text) <==> Some(v) in text
  {
    if Some(v) in text {
      var i :| 0 <= i < |text| && text[i] == Some(v);
    }
  }

  /** A column with `k` distinct values gets `k - 1` dummy columns (none when `k` is 0). */
  lemma DummiesCount(c: Column, numeric: bool)
    requires c.cells.Object?
    ensures |Distinct(c.cells.text)| > 0 ==> |Dummies(c, numeric)| == |Distinct(c.cells.text)| - 1
    ensures |Distinct(c.cells.text)| == 0 ==> Dummies(c, numeric) == []
  {
    LevelsCount(c.cells.text);
  }

  /** The dummy columns are exactly the indicators of the column's values other than its
      smallest one. */
  lemma DummiesLevels(c: Column, numeric: bool, v: string)
    requires c.cells.Object?
    ensures IndicatorColumn(c, v, numeric) in Dummies(c, numeric) <==>
      v in Distinct(c.cells.text) && exists u | u in Distinct(c.cells.text) :: Less(u, v)
  {
    if IndicatorColumn(c, v, numeric) in Dummies(c, numeric) {
      DummyIsLevel(c, numeric, v);
    }
    if v in Distinct(c.cells.text) && exists u | u in Distinct(c.cells.text) :: Less(u, v) {
      LevelIsDummy(c, numeric, v);
    }
  }

  lemma DummyIsLevel(c: Column, numeric: bool, v: string)
    requires c.cells.Object? && IndicatorColumn(c, v, numeric) in Dummies(c, numeric)
    ensures v in Distinct(c.cells.text) && exists u | u in Distinct(c.cells.text) :: Less(u, v)
  {
    var text := c.cells.text;
    var levels := Levels(text);
    var ds := Dummies(c, numeric);
    InDistinct(text, v);
    var j :| 0 <= j < |ds| && ds[j] == IndicatorColumn(c, v, numeric);
    DummyAt(c, numeric, j);
    PrefixCancel(c.name + "_", v, levels[j + 1]);
    InDistinct(text, levels[0]);
    assert Less(levels[0], v);
  }

  lemma LevelIsDummy(c: Column, numeric: bool, v: string)
    requires c.cells.Object?
    requires v in Distinct(c.cells.text) && exists u | u in Distinct(c.cells.text) :: Less(u, v)
    ensures IndicatorColumn(c, v, numeric) in Dummies(c, numeric)
  {
    var text := c.cells.text;
    var levels := Levels(text);
    InDistinct(text, v);
    var u :| u in Distinct(text) && Less(u, v);
    LevelsCount(text);
    var j :| 0 <= j < |levels| && levels[j] == v;
    if j == 0 {
      LessAsymmetric(u, v);
    } else {
      DummyAt(c, numeric, j - 1);
    }
  }

  /** In any row at most one dummy column of a source column is 1, and one is 1 exactly when
      the row holds a value other than the smallest one. */
  lemma OneHot(c: Column, numeric: bool, row: nat)
    requires c.cells.Object? && row < |c.cells.text|
    ensures forall j, k | 0 <= j < k < |Dummies(c, numeric)| ::
      !(Hot(Dummies(c, numeric)[j].cells, row) && Hot(Dummies(c, numeric)[k].cells, row))
    ensures (exists j | 0 <= j < |Dummies(c, numeric)| :: Hot(Dummies(c, numeric)[j].cells, row)) <==>
      c.cells.text[row].Some? && exists u | u in Distinct(c.cells.text) :: Less(u, c.cells.text[row].value)
  {
    var text := c.cells.text;
    var levels := Levels(text);
    var ds := Dummies(c, numeric);
    forall j, k | 0 <= j < k < |ds| ensures !(Hot(ds[j].cells, row) && Hot(ds[k].cells, row)) {
      DummyAt(c, numeric, j);
      DummyAt(c, numeric, k);
      IndicatorMeaning(text, levels[j + 1], numeric);
      IndicatorMeaning(text, levels[k + 1], numeric);
      LessIrreflexive(levels[j + 1]);
    }
    if exists j | 0 <= j < |ds| :: Hot(ds[j].cells, row) {
      var j :| 0 <= j < |ds| && Hot(ds[j].cells, row);
      DummyAt(c, numeric, j);
      IndicatorMeaning(text, levels[j + 1], numeric);
      assert IndicatorColumn(c, levels[j + 1], numeric) in ds;
      DummiesLevels(c, numeric, levels[j + 1]);
    }
    if text[row].Some? && exists u | u in Distinct(text) :: Less(u, text[row].value) {
      var v := text[row].value;
      InDistinct(text, v);
      DummiesLevels(c, numeric, v);
      assert IndicatorColumn(c, v, numeric) in ds;
      var j :| 0 <= j < |ds| && ds[j] == IndicatorColumn(c, v, numeric);
      DummyAt(c, numeric, j);
      IndicatorMeaning(text, v, numeric);
      assert Hot(ds[j].cells, row);
    }
  }

  /** With `drop_first`, every dummy column has a 1 (a row holding its value) and a 0 (a row
      holding the smallest value). */
  lemma DummiesHaveBothValues(c: Column, numeric: bool, j: nat)
    requires c.cells.Object? && j < |Dummies(c, numeric)|
    ensures exists row | 0 <= row < |c.cells.text| :: Hot(Dummies(c, numeric)[j].cells, row)
    ensures exists row | 0 <= row < |c.cells.text| :: Cold(Dummies(c, numeric)[j].cells, row)
  {
    var text := c.cells.text;
    var levels := Levels(text);
    DummyAt(c, numeric, j);
    IndicatorMeaning(text, levels[j + 1], numeric);
    assert Some(levels[j + 1]) in text;
    var hot :| 0 <= hot < |text| && text[hot] == Some(levels[j + 1]);
    assert Hot(Dummies(c, numeric)[j].cells, hot);
    assert Some(levels[0]) in text;
    var cold :| 0 <= cold < |text| && text[cold] == Some(levels[0]);
    LessIrreflexive(levels[0]);
    assert Cold(Dummies(c, numeric)[j].cells, cold);
  }

  /** The columns `get_dummies` leaves alone: every non-object column, in order. */
  function Kept(t: Table): Table
  {
    if t == [] then [] else (if t[0].cells.Object? then [] else [t[0]]) + Kept(t[1..])
  }

  /** `Kept(t)` holds exactly the non-object columns of `t`. */
  lemma {:induction false} KeptMembers(t: Table)
    ensures forall c :: c in Kept(t) <==> c in t && !c.cells.Object?
  {
    if t != [] {
      KeptMembers(t[1..]);
      assert t == [t[0]] + t[1..];
    }
  }

  lemma {:induction false} KeptAppend(a: Table, b: Table)
    ensures Kept(a + b) == Kept(a) + Kept(b)
  {
    if a == [] {
      assert a + b == b;
    } else {
      var ab := a + b;
      assert ab[0] == a[0] && ab[1..] == a[1..] + b;
      KeptAppend(a[1..], b);
      var head := if a[0].cells.Object? then [] else [a[0]];
      assert Kept(ab) == head + Kept(a[1..] + b);
      assert Kept(a) == head + Kept(a[1..]);
    }
  }

  /** A non-object column `t[i]` sits in `Kept(t)` right after the kept columns of `t[..i]`. */
  lemma KeptPosition(t: Table, i: nat)
    requires i < |t| && !t[i].cells.Object?
    ensures |Kept(t[..i])| < |Kept(t)| && Kept(t)[|Kept(t[..i])|] == t[i]
  {
    assert t == t[..i] + t[i..];
    KeptAppend(t[..i], t[i..]);
    assert t[i..] == [t[i]] + t[i + 1..];
    KeptAppend([t[i]], t[i + 1..]);
  }

  /** `get_dummies` keeps the untouched columns in their order: of two non-object columns,
      the earlier one comes first. */
  lemma KeptOrder(t: Table, i: nat, j: nat)
    requires i < j < |t| && !t[i].cells.Object? && !t[j].cells.Object?
    ensures |Kept(t[..i])| < |Kept(t[..j])| < |Kept(t)|
    ensures Kept(t)[|Kept(t[..i])|] == t[i] && Kept(t)[|Kept(t[..j])|] == t[j]
  {
    KeptPosition(t, i);
    KeptPosition(t, j);
    assert t[..j] == t[..i] + t[i..j];
    KeptAppend(t[..i], t[i..j]);
    assert t[i..j] == [t[i]] + t[i + 1..j];
    KeptAppend([t[i]], t[i + 1..j]);
  }

  /** `cat_cols`: the names of the object columns, in order. */
  function ObjectNames(t: Table): seq<string>
  {
    if t == [] then []
    else (if t[0].cells.Object? then [t[0].name] else []) + ObjectNames(t[1..])
  }

  /** `cat_cols` holds exactly the names of the object columns. */
  lemma {:induction false} ObjectNamesMembers(t: Table)
    ensures forall n :: n in ObjectNames(t) <==> exists k | 0 <= k < |t| :: t[k].name == n && t[k].cells.Object?
  {
    if t != [] {
      ObjectNamesMembers(t[1..]);
      assert forall k | 0 < k < |t| :: t[1..][k - 1] == t[k];
    }
  }

  /** `cat_cols` keeps table order: the names of a table split in two come in the order of
      the two parts. */
  lemma {:induction false} ObjectNamesAppend(a: Table, b: Table)
    ensures ObjectNames(a + b) == ObjectNames(a) + ObjectNames(b)
  {
    if a == [] {
      assert a + b == b;
    } else {
      var ab := a + b;
      assert ab[0] == a[0] && ab[1..] == a[1..] + b;
      ObjectNamesAppend(a[1..], b);
    }
  }

  /** The dummy columns of every object column, one block per column in table order. */
  function Encoded(t: Table, numeric: bool): Table
  {
    if t == [] then []
    else (if t[0].cells.Object? then Dummies(t[0], numeric) else []) + Encoded(t[1..], numeric)
  }

  /** pandas' `get_dummies` on the object columns with `drop_first`: the kept columns, then
      the dummy blocks. */
  function GetDummies(t: Table, numeric: bool): Table
  {
    Kept(t) + Encoded(t, numeric)
  }

  /** Dummy columns are numbers or bools; none is an object column. */
  lemma {:induction false} EncodedOnlyIndicators(t: Table, numeric: bool)
    ensures forall c | c in Encoded(t, numeric) :: if numeric then c.cells.Number? else c.cells.Bool?
  {
    if t != [] {
      EncodedOnlyIndicators(t[1..], numeric);
      if t[0].cells.Object? {
        forall c | c in Dummies(t[0], numeric) ensures if numeric then c.cells.Number? else c.cells.Bool? {
          var j :| 0 <= j < |Dummies(t[0], numeric)| && Dummies(t[0], numeric)[j] == c;
          DummyAt(t[0], numeric, j);
        }
      }
    }
  }

  /** After encoding no object column is left, and a table whose columns all have `rows`
      rows still does. */
  lemma {:induction false} GetDummiesShape(t: Table, numeric: bool, rows: nat)
    requires Rectangular(t, rows)
    ensures forall c | c in GetDummies(t, numeric) :: !c.cells.Object?
    ensures Rectangular(GetDummies(t, numeric), rows)
  {
    EncodedOnlyIndicators(t, numeric);
    EncodedRows(t, numeric, rows);
    KeptMembers(t);
    var r := GetDummies(t, numeric);
    forall i | 0 <= i < |r| ensures r[i].cells.Rows() == rows {
      if i < |Kept(t)| {
        assert r[i] in Kept(t);
      } else {
        assert r[i] == Encoded(t, numeric)[i - |Kept(t)|];
      }
    }
  }

  lemma {:induction false} EncodedRows(t: Table, numeric: bool, rows: nat)
    requires Rectangular(t, rows)
    ensures Rectangular(Encoded(t, numeric), rows)
  {
    if t != [] {
      EncodedRows(t[1..], numeric, rows);
      if t[0].cells.Object? {
        var ds := Dummies(t[0], numeric);
        forall j | 0 <= j < |ds| ensures ds[j].cells.Rows() == rows {
          DummyAt(t[0], numeric, j);
          IndicatorMeaning(t[0].cells.text, Levels(t[0].cells.text)[j + 1], numeric);
        }
      }
    }
  }
}
