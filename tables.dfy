/** The in-memory table the preprocessing step works on: an ordered sequence of named
    columns, each holding the cells of one pandas dtype. */
module Tables {
  import opened Wrappers

  /** The cells of one column, by dtype: `object` (text, the categorical kind), a numeric
      dtype, or pandas' `bool` dtype. A missing entry (NaN / None) is `None`; a bool column
      cannot hold one. */
  datatype Cells =
    | Object(text: seq<Option<string>>)
    | Number(nums: seq<Option<real>>)
    | Bool(flags: seq<bool>)
  {
    function Rows(): nat
    {
      match this
      case Object(text) => |text|
      case Number(nums) => |nums|
      case Bool(flags) => |flags|
    }

    /** The column has at least one missing entry. */
    predicate HasMissing()
    {
      match this
      case Object(text) => None in text
      case Number(nums) => None in nums
      case Bool(_) => false
    }

    /** Every entry is missing (and there is at least one). */
    predicate AllMissing()
    {
      match this
      case Object(text) => text != [] && forall i | 0 <= i < |text| :: text[i].None?
      case Number(nums) => nums != [] && forall i | 0 <= i < |nums| :: nums[i].None?
      case Bool(_) => false
    }
  }

  lemma AllMissingHasMissing(c: Cells)
    ensures c.AllMissing() ==> c.HasMissing()
  {
    if c.AllMissing() {
      match c
      case Object(text) => assert text[0] == None;
      case Number(nums) => assert nums[0] == None;
    }
  }

  datatype Column = Column(name: string, cells: Cells)

  type Table = seq<Column>

  /** Every column of `t` has `rows` rows. */
  predicate Rectangular(t: Table, rows: nat)
  {
    forall i | 0 <= i < |t| :: t[i].cells.Rows() == rows
  }

  /** `b` has the same dtype and length as `a` and keeps every entry that is present in `a`. */
  predicate Keeps(a: Cells, b: Cells)
  {
    match a
    case Object(x) =>
      b.Object? && |b.text| == |x| && forall i | 0 <= i < |x| && x[i].Some? :: b.text[i] == x[i]
    case Number(x) =>
      b.Number? && |b.nums| == |x| && forall i | 0 <= i < |x| && x[i].Some? :: b.nums[i] == x[i]
    case Bool(x) => b == a
  }
}
