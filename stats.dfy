/** The column statistics that pandas computes for the preprocessing step: mode, median,
    sorted distinct levels, minimum and maximum, all skipping missing entries. */
module Stats {
  import opened Wrappers
  import opened Strings

  // ---------------------------------------------------------------- counting

  /** Number of entries of `s` strictly below `v`. */
  function CountBelow(s: seq<real>, v: real): (n: nat)
    ensures n <= |s|
  {
    if s == [] then 0 else (if s[0] < v then 1 else 0) + CountBelow(s[1..], v)
  }

  /** Number of entries of `s` at or below `v`. */
  function CountAtMost(s: seq<real>, v: real): (n: nat)
    ensures CountBelow(s, v) <= n <= |s|
  {
    if s == [] then 0 else (if s[0] <= v then 1 else 0) + CountAtMost(s[1..], v)
  }

  lemma {:induction false} CountMonotone(s: seq<real>, x: real, y: real)
    requires x <= y
    ensures CountBelow(s, x) <= CountBelow(s, y)
    ensures CountAtMost(s, x) <= CountAtMost(s, y)
  {
    if s != [] {
      CountMonotone(s[1..], x, y);
    }
  }

  lemma {:induction false} CountGap(s: seq<real>, x: real, y: real)
    requires x < y
    ensures CountAtMost(s, x) <= CountBelow(s, y)
  {
    if s != [] {
      CountGap(s[1..], x, y);
    }
  }

  /** If every entry from index `k` on is at least `v`, fewer than `k + 1` entries lie below `v`. */
  lemma {:induction false} CountBelowBound(s: seq<real>, v: real, k: nat)
    requires k <= |s|
    requires forall i | k <= i < |s| :: v <= s[i]
    ensures CountBelow(s, v) <= k
  {
    if s != [] {
      CountBelowBound(s[1..], v, if k == 0 then 0 else k - 1);
    }
  }

  /** If the first `k` entries are at most `v`, at least `k` entries lie at or below `v`. */
  lemma {:induction false} CountAtMostBound(s: seq<real>, v: real, k: nat)
    requires k <= |s|
    requires forall i | 0 <= i < k :: s[i] <= v
    ensures k <= CountAtMost(s, v)
  {
    if s != [] && k > 0 {
      CountAtMostBound(s[1..], v, k - 1);
    }
  }

  // ---------------------------------------------------------------- sorting

  predicate Sorted(s: seq<real>)
  {
    forall i, j | 0 <= i < j < |s| :: s[i] <= s[j]
  }

  /** `x` inserted before the first entry of `s` that is not below it. */
  function Insert(x: real, s: seq<real>): (r: seq<real>)
    ensures |r| == |s| + 1
  {
    if s == [] || x <= s[0] then [x] + s else [s[0]] + Insert(x, s[1..])
  }

  lemma SortedCons(a: real, t: seq<real>)
    requires Sorted(t) && forall k | 0 <= k < |t| :: a <= t[k]
    ensures Sorted([a] + t)
  {
    var r := [a] + t;
    forall i, j | 0 <= i < j < |r| ensures r[i] <= r[j] {
      assert r[j] == t[j - 1];
      if i > 0 {
        assert r[i] == t[i - 1];
      }
    }
  }

  /** A lower bound of `x` and of `s` bounds `Insert(x, s)`. */
  lemma {:induction false} InsertBounded(x: real, s: seq<real>, a: real)
    requires a <= x && forall k | 0 <= k < |s| :: a <= s[k]
    ensures forall k | 0 <= k < |s| + 1 :: a <= Insert(x, s)[k]
  {
    if s != [] && x > s[0] {
      InsertBounded(x, s[1..], a);
      var r := Insert(x, s);
      forall k | 0 <= k < |s| + 1 ensures a <= r[k] {
        if k > 0 {
          assert r[k] == Insert(x, s[1..])[k - 1];
        }
      }
    }
  }

  lemma {:induction false} InsertSorted(x: real, s: seq<real>)
    requires Sorted(s)
    ensures Sorted(Insert(x, s))
  {
    if s == [] || x <= s[0] {
      SortedCons(x, s);
    } else {
      InsertSorted(x, s[1..]);
      InsertBounded(x, s[1..], s[0]);
      SortedCons(s[0], Insert(x, s[1..]));
    }
  }

  lemma {:induction false} InsertPermutes(x: real, s: seq<real>)
    ensures multiset(Insert(x, s)) == multiset(s) + multiset{x}
  {
    if s != [] && x > s[0] {
      InsertPermutes(x, s[1..]);
      assert s == [s[0]] + s[1..];
    }
  }

  lemma {:induction false} InsertCounts(x: real, s: seq<real>, v: real)
    ensures CountBelow(Insert(x, s), v) == CountBelow(s, v) + (if x < v then 1 else 0)
    ensures CountAtMost(Insert(x, s), v) == CountAtMost(s, v) + (if x <= v then 1 else 0)
  {
    if s != [] && x > s[0] {
      InsertCounts(x, s[1..], v);
      assert Insert(x, s)[1..] == Insert(x, s[1..]);
    }
  }

  /** Insertion sort. */
  function Sort(s: seq<real>): (r: seq<real>)
    ensures |r| == |s|
  {
    if s == [] then [] else Insert(s[0], Sort(s[1..]))
  }

  /** `Sort` returns a sorted permutation of its input. */
  lemma {:induction false} SortSorted(s: seq<real>)
    ensures Sorted(Sort(s))
    ensures multiset(Sort(s)) == multiset(s)
  {
    if s != [] {
      SortSorted(s[1..]);
      InsertSorted(s[0], Sort(s[1..]));
      InsertPermutes(s[0], Sort(s[1..]));
      assert s == [s[0]] + s[1..];
    }
  }

  /** Sorting changes no count. */
  lemma {:induction false} SortCounts(s: seq<real>, v: real)
    ensures CountBelow(Sort(s), v) == CountBelow(s, v)
    ensures CountAtMost(Sort(s), v) == CountAtMost(s, v)
  {
    if s != [] {
      SortCounts(s[1..], v);
      InsertCounts(s[0], Sort(s[1..]), v);
    }
  }

  // ---------------------------------------------------------------- order statistics

  /** `v` is the `k`-th smallest entry of `s`, counting from 0: at most `k` entries lie
      below it and more than `k` lie at or below it. */
  predicate IsKth(s: seq<real>, k: nat, v: real)
  {
    CountBelow(s, v) <= k < CountAtMost(s, v)
  }

  /** The `k`-th smallest entry of `s`: the `k`-th entry once sorted. */
  function Kth(s: seq<real>, k: nat): real
    requires k < |s|
  {
    Sort(s)[k]
  }

  lemma KthIsKth(s: seq<real>, k: nat)
    requires k < |s|
    ensures IsKth(s, k, Kth(s, k))
  {
    var t := Sort(s);
    SortSorted(s);
    CountBelowBound(t, t[k], k);
    CountAtMostBound(t, t[k], k + 1);
    SortCounts(s, t[k]);
  }

  /** The `k`-th smallest entry is unique, so `Kth` is fully determined by `IsKth`. */
  lemma KthUnique(s: seq<real>, k: nat, a: real, b: real)
    requires IsKth(s, k, a) && IsKth(s, k, b)
    ensures a == b
  {
    if a < b {
      CountGap(s, a, b);
    } else if b < a {
      CountGap(s, b, a);
    }
  }

  /** Order statistics grow with their rank. */
  lemma KthMonotone(s: seq<real>, j: nat, k: nat)
    requires j <= k < |s|
    ensures Kth(s, j) <= Kth(s, k)
  {
    SortSorted(s);
  }

  /** The entries of `xs` that are present, in order. */
  function Present(xs: seq<Option<real>>): seq<real>
  {
    if xs == [] then []
    else (if xs[0].Some? then [xs[0].value] else []) + Present(xs[1..])
  }

  /** `Present` keeps exactly the present values, each as often as it occurs, and is empty
      exactly when nothing is. */
  lemma PresentValues(xs: seq<Option<real>>)
    ensures |Present(xs)| <= |xs|
    ensures forall v :: v in Present(xs) <==> Some(v) in xs
    ensures forall v :: multiset(Present(xs))[v] == multiset(xs)[Some(v)]
    ensures Present(xs) == [] <==> forall i | 0 <= i < |xs| :: xs[i].None?
  {
    PresentMembers(xs);
    PresentCounts(xs);
  }

  lemma {:induction false} PresentMembers(xs: seq<Option<real>>)
    ensures |Present(xs)| <= |xs|
    ensures forall v :: v in Present(xs) <==> Some(v) in xs
    ensures Present(xs) == [] <==> forall i | 0 <= i < |xs| :: xs[i].None?
  {
    if xs != [] {
      PresentMembers(xs[1..]);
      assert xs == [xs[0]] + xs[1..];
    }
  }

  lemma {:induction false} PresentCounts(xs: seq<Option<real>>)
    ensures forall v :: multiset(Present(xs))[v] == multiset(xs)[Some(v)]
  {
    if xs != [] {
      PresentCounts(xs[1..]);
      var head := if xs[0].Some? then [xs[0].value] else [];
      assert xs == [xs[0]] + xs[1..];
      assert multiset(xs) == multiset([xs[0]]) + multiset(xs[1..]);
      assert multiset(Present(xs)) == multiset(head) + multiset(Present(xs[1..]));
    }
  }

  /** The middle of a non-empty `s`: its middle entry once sorted, or the mean of the two
      middle entries when `|s|` is even. */
  function Middle(s: seq<real>): real
    requires s != []
  {
    var k := |s| / 2;
    if |s| % 2 == 1 then Kth(s, k) else (Kth(s, k - 1) + Kth(s, k)) / 2.0
  }

  /** No more than half of the entries lie below the middle, and no more than half above. */
  lemma MiddleIsMedian(s: seq<real>)
    requires s != []
    ensures 2 * CountBelow(s, Middle(s)) <= |s|
    ensures 2 * (|s| - CountAtMost(s, Middle(s))) <= |s|
  {
    var k := |s| / 2;
    if |s| % 2 == 1 {
      KthIsKth(s, k);
      assert Middle(s) == Kth(s, k);
    } else {
      MiddleEven(s);
    }
  }

  lemma MiddleEven(s: seq<real>)
    requires s != [] && |s| % 2 == 0
    ensures CountBelow(s, Middle(s)) <= |s| / 2 <= CountAtMost(s, Middle(s))
  {
    var k := |s| / 2;
    var lo, hi := Kth(s, k - 1), Kth(s, k);
    var m := (lo + hi) / 2.0;
    assert Middle(s) == m;
    KthIsKth(s, k - 1);
    KthIsKth(s, k);
    KthMonotone(s, k - 1, k);
    CountMonotone(s, m, hi);
    CountMonotone(s, lo, m);
  }

  /** pandas' `Series.median()` on a numeric column: missing entries are skipped; with an
      odd number of values it is the middle one, with an even number the mean of the two
      middle ones; with no values it is NaN (`None`). The result splits the values in two
      halves: no more than half lie below it and no more than half above it. */
  function Median(xs: seq<Option<real>>): Option<real>
  {
    var s := Present(xs);
    if s == [] then None else Some(Middle(s))
  }

  lemma MedianSplits(xs: seq<Option<real>>)
    ensures Median(xs).None? <==> forall i | 0 <= i < |xs| :: xs[i].None?
    ensures Median(xs).Some? ==>
      var s := Present(xs);
      && 2 * CountBelow(s, Median(xs).value) <= |s|
      && 2 * (|s| - CountAtMost(s, Median(xs).value)) <= |s|
    ensures Median(xs).Some? && |Present(xs)| % 2 == 1 ==>
      IsKth(Present(xs), |Present(xs)| / 2, Median(xs).value)
    ensures Median(xs).Some? && |Present(xs)| % 2 == 0 ==>
      var s := Present(xs);
      var h := |s| / 2;
      && IsKth(s, h - 1, Kth(s, h - 1)) && IsKth(s, h, Kth(s, h))
      && Median(xs).value == (Kth(s, h - 1) + Kth(s, h)) / 2.0
  {
    PresentValues(xs);
    var s := Present(xs);
    if s != [] {
      var h := |s| / 2;
      assert Median(xs) == Some(Middle(s));
      MiddleIsMedian(s);
      KthIsKth(s, h);
      if |s| % 2 == 0 {
        KthIsKth(s, h - 1);
      }
    }
  }

  // ---------------------------------------------------------------- mode

  /** How often `v` occurs in `xs`. */
  function Count(xs: seq<Option<string>>, v: string): nat
  {
    multiset(xs)[Some(v)]
  }

  /** `v` ranks before `w` in pandas' `mode()`: more frequent, or as frequent and smaller. */
  predicate Better(xs: seq<Option<string>>, v: string, w: string)
  {
    Count(xs, v) > Count(xs, w) || (Count(xs, v) == Count(xs, w) && Less(v, w))
  }

  /** `m` occurs in `xs`, no value occurs more often, and every value that occurs as often
      is not smaller than `m`. */
  ghost predicate IsMode(xs: seq<Option<string>>, m: string)
  {
    && Some(m) in xs
    && forall i | 0 <= i < |xs| && xs[i].Some? ::
         && Count(xs, xs[i].value) <= Count(xs, m)
         && (Count(xs, xs[i].value) == Count(xs, m) ==> !Less(xs[i].value, m))
  }

  lemma BetterIrreflexive(xs: seq<Option<string>>, v: string)
    ensures !Better(xs, v, v)
  {
    LessIrreflexive(v);
  }

  lemma BetterTransitive(xs: seq<Option<string>>, u: string, v: string, w: string)
    requires Better(xs, u, v) && Better(xs, v, w)
    ensures Better(xs, u, w)
  {
    if Count(xs, u) == Count(xs, v) == Count(xs, w) {
      LessTransitive(u, v, w);
    }
  }

  /** The best candidate among the present entries of `xs[i..]` and `best`, the best of `xs[..i]`. */
  function ModeFrom(xs: seq<Option<string>>, i: nat, best: Option<string>): Option<string>
    requires ModeInvariant(xs, i, best)
    decreases |xs| - i
  {
    if i == |xs| then best
    else match xs[i]
      case None => ModeFrom(xs, i + 1, best)
      case Some(v) =>
        if best.None? || Better(xs, v, best.value) then
          NewBest(xs, i, best, v);
          ModeFrom(xs, i + 1, Some(v))
        else
          ModeFrom(xs, i + 1, best)
  }

  /** `best` is the best candidate among the present entries of `xs[..i]`. */
  predicate ModeInvariant(xs: seq<Option<string>>, i: nat, best: Option<string>)
  {
    && i <= |xs|
    && (best.None? <==> forall k | 0 <= k < i :: xs[k].None?)
    && (best.Some? ==> Some(best.value) in xs)
    && (best.Some? ==> forall k | 0 <= k < i && xs[k].Some? :: !Better(xs, xs[k].value, best.value))
  }

  /** A present entry that beats the best so far becomes the best of one more entry. */
  lemma NewBest(xs: seq<Option<string>>, i: nat, best: Option<string>, v: string)
    requires ModeInvariant(xs, i, best) && i < |xs| && xs[i] == Some(v)
    requires best.None? || Better(xs, v, best.value)
    ensures ModeInvariant(xs, i + 1, Some(v))
  {
    BetterIrreflexive(xs, v);
    forall k | 0 <= k < i && xs[k].Some? ensures !Better(xs, xs[k].value, v) {
      if Better(xs, xs[k].value, v) {
        BetterTransitive(xs, xs[k].value, v, best.value);
      }
    }
  }

  /** The scan ends with the best candidate of the whole column. */
  lemma {:induction false} ModeFromBest(xs: seq<Option<string>>, i: nat, best: Option<string>)
    requires ModeInvariant(xs, i, best)
    ensures ModeFrom(xs, i, best).None? <==> forall k | 0 <= k < |xs| :: xs[k].None?
    ensures ModeFrom(xs, i, best).Some? ==> Some(ModeFrom(xs, i, best).value) in xs
    ensures ModeFrom(xs, i, best).Some? ==>
      forall k | 0 <= k < |xs| && xs[k].Some? :: !Better(xs, xs[k].value, ModeFrom(xs, i, best).value)
    decreases |xs| - i
  {
    if i < |xs| {
      match xs[i]
      case None =>
        ModeFromBest(xs, i + 1, best);
      case Some(v) =>
        if best.None? || Better(xs, v, best.value) {
          NewBest(xs, i, best, v);
          ModeFromBest(xs, i + 1, Some(v));
        } else {
          ModeFromBest(xs, i + 1, best);
        }
    }
  }

  /** pandas' `Series.mode()[0]` on an object column: the modes come back sorted, so this
      is the smallest of the most frequent present values; `None` when no value is present
      (indexing the empty mode series then fails). */
  function Mode(xs: seq<Option<string>>): Option<string>
  {
    ModeFrom(xs, 0, None)
  }

  lemma ModeIsMode(xs: seq<Option<string>>)
    ensures Mode(xs).None? <==> forall i | 0 <= i < |xs| :: xs[i].None?
    ensures Mode(xs).Some? ==> IsMode(xs, Mode(xs).value)
  {
    ModeFromBest(xs, 0, None);
    if Mode(xs).Some? {
      var m := Mode(xs).value;
      forall i | 0 <= i < |xs| && xs[i].Some?
        ensures Count(xs, xs[i].value) <= Count(xs, m)
        ensures Count(xs, xs[i].value) == Count(xs, m) ==> !Less(xs[i].value, m)
      {
        assert !Better(xs, xs[i].value, m);
      }
    }
  }

  // ---------------------------------------------------------------- levels

  predicate StrictlySorted(s: seq<string>)
  {
    forall i, j | 0 <= i < j < |s| :: Less(s[i], s[j])
  }

  function InsertLevel(x: string, s: seq<string>): (r: seq<string>)
    requires StrictlySorted(s)
    ensures StrictlySorted(r)
    ensures forall v :: v in r <==> v == x || v in s
  {
    if s == [] then [x]
    else if x == s[0] then s
    else if Less(x, s[0]) then
      assert forall j | 0 < j < |s| :: Less(x, s[j]) by {
        forall j | 0 < j < |s| ensures Less(x, s[j]) {
          LessTransitive(x, s[0], s[j]);
        }
      }
      [x] + s
    else
      LessTotal(x, s[0]);
      var tail := InsertLevel(x, s[1..]);
      assert forall v :: v in s <==> v == s[0] || v in s[1..] by {
        assert s == [s[0]] + s[1..];
      }
      assert forall k | 0 <= k < |tail| :: Less(s[0], tail[k]) by {
        forall k | 0 <= k < |tail| ensures Less(s[0], tail[k]) {
          assert tail[k] in tail;
        }
      }
      [s[0]] + tail
  }

  /** The distinct present values of `xs`, in ascending order: the categories that
      `pd.get_dummies` derives for an object column. */
  function Levels(xs: seq<Option<string>>): (levels: seq<string>)
    ensures StrictlySorted(levels)
    ensures forall v :: v in levels <==> Some(v) in xs
  {
    if xs == [] then []
    else
      var rest := Levels(xs[1..]);
      assert forall v :: Some(v) in xs <==> xs[0] == Some(v) || Some(v) in xs[1..] by {
        assert xs == [xs[0]] + xs[1..];
      }
      if xs[0].Some? then InsertLevel(xs[0].value, rest) else rest
  }

  /** The set of distinct present values of `xs`. */
  ghost function Distinct(xs: seq<Option<string>>): set<string>
  {
    set i | 0 <= i < |xs| && xs[i].Some? :: xs[i].value
  }

  lemma {:induction false} StrictlySortedCardinality(s: seq<string>)
    requires StrictlySorted(s)
    ensures |(set v | v in s)| == |s|
  {
    if s != [] {
      StrictlySortedCardinality(s[1..]);
      assert (set v | v in s) == {s[0]} + (set v | v in s[1..]);
      assert s[0] !in s[1..] by {
        LessIrreflexive(s[0]);
      }
    }
  }

  /** A column with `k` distinct present values has exactly `k` levels, the first of
      which is the smallest value. */
  lemma LevelsCount(xs: seq<Option<string>>)
    ensures |Levels(xs)| == |Distinct(xs)|
    ensures Levels(xs) != [] ==> forall v | v in Distinct(xs) :: !Less(v, Levels(xs)[0])
  {
    var levels := Levels(xs);
    StrictlySortedCardinality(levels);
    assert (set v | v in levels) == Distinct(xs) by {
      forall v ensures v in levels <==> v in Distinct(xs) {
        if v in levels {
          var i :| 0 <= i < |xs| && xs[i] == Some(v);
        }
      }
    }
    if levels != [] {
      forall v | v in Distinct(xs) ensures !Less(v, levels[0]) {
        if v != levels[0] {
          var j :| 0 <= j < |levels| && levels[j] == v;
          LessAsymmetric(levels[0], v);
        } else {
          LessIrreflexive(v);
        }
      }
    }
  }

  // ---------------------------------------------------------------- extremes

  /** pandas' `min()` on a numeric column, skipping missing entries (NaN when none). */
  function Min(xs: seq<Option<real>>): (m: Option<real>)
    ensures m.None? <==> forall i | 0 <= i < |xs| :: xs[i].None?
    ensures m.Some? ==> Some(m.value) in xs
    ensures m.Some? ==> forall i | 0 <= i < |xs| && xs[i].Some? :: m.value <= xs[i].value
  {
    if xs == [] then None
    else
      var rest := Min(xs[1..]);
      assert xs == [xs[0]] + xs[1..];
      match xs[0]
      case None => rest
      case Some(x) => if rest.None? || x <= rest.value then Some(x) else rest
  }

  /** pandas' `max()` on a numeric column, skipping missing entries (NaN when none). */
  function Max(xs: seq<Option<real>>): (m: Option<real>)
    ensures m.None? <==> forall i | 0 <= i < |xs| :: xs[i].None?
    ensures m.Some? ==> Some(m.value) in xs
    ensures m.Some? ==> forall i | 0 <= i < |xs| && xs[i].Some? :: xs[i].value <= m.value
  {
    if xs == [] then None
    else
      var rest := Max(xs[1..]);
      assert xs == [xs[0]] + xs[1..];
      match xs[0]
      case None => rest
      case Some(x) => if rest.None? || rest.value <= x then Some(x) else rest
  }
}
