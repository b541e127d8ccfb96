/** Stage 3 of `preprocess_data`: every numeric column is mapped by
    `(x - min) / (max - min)`, its minimum and maximum taken over its present entries.
    The division is not guarded: a constant column gives 0/0, NaN, in every row. */
module Scaling {
  import opened Wrappers
  import opened Stats
  import opened Tables

  /** One cell of a column with minimum `lo` and maximum `hi`; NaN (`None`) stays NaN and
      so does 0/0. */
  function ScaleValue(x: Option<real>, lo: real, hi: real): Option<real>
    requires lo <= hi
  {
    if x.None? || lo == hi then None else Some((x.value - lo) / (hi - lo))
  }

  /** The column holds two different values. */
  predicate NonConstant(xs: seq<Option<real>>)
  {
    exists i, j | 0 <= i < |xs| && 0 <= j < |xs| :: xs[i].Some? && xs[j].Some? && xs[i].value != xs[j].value
  }

  /** `(col - col.min()) / (col.max() - col.min())` on one numeric column. */
  function MinMax(xs: seq<Option<real>>): (r: seq<Option<real>>)
    ensures |r| == |xs|
    ensures forall i | 0 <= i < |xs| && xs[i].None? :: r[i].None?
  {
    match Min(xs)
    case None => xs
    case Some(lo) =>
      var hi := Max(xs).value;
      seq(|xs|, i requires 0 <= i < |xs| => ScaleValue(xs[i], lo, hi))
  }

  lemma DivMonotone(a: real, b: real, d: real)
    requires d > 0.0
    ensures a <= b <==> a / d <= b / d
  {
    if a <= b {
      assert b / d - a / d == (b - a) / d;
    } else {
      assert a / d - b / d == (a - b) / d;
    }
  }

  lemma ScaleValueBounds(x: real, lo: real, hi: real)
    requires lo <= x <= hi && lo < hi
    ensures var r := ScaleValue(Some(x), lo, hi).value; 0.0 <= r <= 1.0
    ensures x == lo ==> ScaleValue(Some(x), lo, hi) == Some(0.0)
    ensures x == hi ==> ScaleValue(Some(x), lo, hi) == Some(1.0)
  {
    var d := hi - lo;
    assert ScaleValue(Some(x), lo, hi) == Some((x - lo) / d);
    DivMonotone(0.0, x - lo, d);
    DivMonotone(x - lo, d, d);
    assert 0.0 / d == 0.0;
    assert d / d == 1.0;
  }

  /** In a column with two different values the minimum lies strictly below the maximum. */
  lemma NonConstantRange(xs: seq<Option<real>>)
    requires NonConstant(xs)
    ensures Min(xs).Some? && Max(xs).Some? && Min(xs).value < Max(xs).value
  {
    var i, j :| 0 <= i < |xs| && 0 <= j < |xs| && xs[i].Some? && xs[j].Some? && xs[i].value != xs[j].value;
  }

  /** In a constant column the minimum equals the maximum. */
  lemma ConstantRange(xs: seq<Option<real>>)
    requires !NonConstant(xs) && Min(xs).Some?
    ensures Max(xs).Some? && Min(xs).value == Max(xs).value
  {
    var mi :| 0 <= mi < |xs| && xs[mi] == Some(Min(xs).value);
    var ma :| 0 <= ma < |xs| && xs[ma] == Some(Max(xs).value);
  }

  /** A column with two different values is mapped into [0, 1] with its smallest values at 0
      and its largest at 1; on a constant column every cell becomes NaN. */
  lemma MinMaxBounds(xs: seq<Option<real>>)
    ensures NonConstant(xs) ==> forall i | 0 <= i < |xs| && xs[i].Some? ::
      MinMax(xs)[i].Some? && 0.0 <= MinMax(xs)[i].value <= 1.0
    ensures NonConstant(xs) ==> forall i | 0 <= i < |xs| && xs[i].Some? ::
      (forall k | 0 <= k < |xs| && xs[k].Some? :: xs[i].value <= xs[k].value) ==> MinMax(xs)[i] == Some(0.0)
    ensures NonConstant(xs) ==> forall i | 0 <= i < |xs| && xs[i].Some? ::
      (forall k | 0 <= k < |xs| && xs[k].Some? :: xs[k].value <= xs[i].value) ==> MinMax(xs)[i] == Some(1.0)
    ensures !NonConstant(xs) ==> forall i | 0 <= i < |xs| :: MinMax(xs)[i].None?
  {
    var r := MinMax(xs);
    if NonConstant(xs) {
      NonConstantRange(xs);
      var lo, hi := Min(xs).value, Max(xs).value;
      var mi :| 0 <= mi < |xs| && xs[mi] == Some(lo);
      var ma :| 0 <= ma < |xs| && xs[ma] == Some(hi);
      forall k | 0 <= k < |xs| && xs[k].Some?
        ensures r[k].Some? && 0.0 <= r[k].value <= 1.0
        ensures (forall m | 0 <= m < |xs| && xs[m].Some? :: xs[k].value <= xs[m].value) ==> r[k] == Some(0.0)
        ensures (forall m | 0 <= m < |xs| && xs[m].Some? :: xs[m].value <= xs[k].value) ==> r[k] == Some(1.0)
      {
        assert r[k] == ScaleValue(xs[k], lo, hi);
        ScaleValueBounds(xs[k].value, lo, hi);
        assert xs[k].value <= xs[mi].value ==> xs[k].value == lo;
        assert xs[ma].value <= xs[k].value ==> xs[k].value == hi;
      }
    } else if Min(xs).Some? {
      ConstantRange(xs);
    }
  }

  /** Scaling is monotone: it keeps, and reflects, the order of any two present cells of a
      column with two different values. */
  lemma MinMaxMonotone(xs: seq<Option<real>>, i: nat, j: nat)
    requires i < |xs| && j < |xs| && xs[i].Some? && xs[j].Some? && NonConstant(xs)
    ensures MinMax(xs)[i].Some? && MinMax(xs)[j].Some?
    ensures xs[i].value <= xs[j].value <==> MinMax(xs)[i].value <= MinMax(xs)[j].value
  {
    NonConstantRange(xs);
    var lo, hi := Min(xs).value, Max(xs).value;
    MinMaxAt(xs, i);
    MinMaxAt(xs, j);
    DivMonotone(xs[i].value - lo, xs[j].value - lo, hi - lo);
  }

  lemma MinMaxAt(xs: seq<Option<real>>, i: nat)
    requires i < |xs| && Min(xs).Some?
    ensures MinMax(xs)[i] == ScaleValue(xs[i], Min(xs).value, Max(xs).value)
  {
  }

  /** A 0/1 column holding both values is left as it is: its minimum is 0 and its maximum 1. */
  lemma MinMaxKeepsIndicator(xs: seq<Option<real>>)
    requires forall i | 0 <= i < |xs| :: xs[i] == Some(0.0) || xs[i] == Some(1.0)
    requires Some(0.0) in xs && Some(1.0) in xs
    ensures MinMax(xs) == xs
  {
    var lo, hi := Min(xs).value, Max(xs).value;
    assert lo == 0.0 && hi == 1.0;
  }

  /** A column after scaling: numeric columns are scaled, every other column is untouched. */
  function ScaleColumn(c: Column): Column
  {
    match c.cells
    case Number(nums) => Column(c.name, Number(MinMax(nums)))
    case _ => c
  }

  /** `num_cols`: the names of the numeric columns, in order. */
  function NumberNames(t: Table): seq<string>
  {
    if t == [] then []
    else (if t[0].cells.Number? then [t[0].name] else []) + NumberNames(t[1..])
  }

  /** `num_cols` holds exactly the names of the numeric columns. */
  lemma {:induction false} NumberNamesMembers(t: Table)
    ensures forall n :: n in NumberNames(t) <==> exists k | 0 <= k < |t| :: t[k].name == n && t[k].cells.Number?
  {
    if t != [] {
      NumberNamesMembers(t[1..]);
      assert forall k | 0 < k < |t| :: t[1..][k - 1] == t[k];
    }
  }

  /** `num_cols` keeps table order: the names of a table split in two come in the order of
      the two parts. */
  lemma {:induction false} NumberNamesAppend(a: Table, b: Table)
    ensures NumberNames(a + b) == NumberNames(a) + NumberNames(b)
  {
    if a == [] {
      assert a + b == b;
    } else {
      var ab := a + b;
      assert ab[0] == a[0] && ab[1..] == a[1..] + b;
      NumberNamesAppend(a[1..], b);
    }
  }

  /** The scaling assignment over the numeric columns:
      each numeric column is overwritten with its scaled cells, the others stay. */
  method MinMaxScale(df: Table) returns (out: Table)
    ensures |out| == |df|
    ensures forall i | 0 <= i < |df| :: out[i] == ScaleColumn(df[i])
  {
    out := df;
    for i := 0 to |df|
      invariant |out| == |df|
      invariant forall k | 0 <= k < i :: out[k] == ScaleColumn(df[k])
      invariant forall k | i <= k < |df| :: out[k] == df[k]
    {
      var c := out[i];
      if c.cells.Number? {
        var nums := c.cells.nums;
        var lo, hi := Min(nums), Max(nums);
        if lo.Some? {
          var scaled := seq(|nums|, k requires 0 <= k < |nums| => ScaleValue(nums[k], lo.value, hi.value));
          out := out[i := Column(c.name, Number(scaled))];
        }
      }
    }
  }
}
