/** Two-dimensional face arrays and the two numeric reductions the k-d tree
    uses on them: the mean of one column (`np.mean(x[:, axis])`) and the mean
    absolute elementwise difference (`np.mean(np.abs(a - b))`).
    Values are exact reals; floating-point rounding is not modelled. */
module FaceArray {

  /** A face array as a sequence of rows, each a sequence of column values. */
  type Face = seq<seq<real>>

  /** Number of columns, read from the first row (`shape[1]`). */
  function Cols(f: Face): nat {
    if |f| == 0 then 0 else |f[0]|
  }

  /** `f` is a `rows` x `cols` array with at least one element. */
  predicate HasShape(f: Face, rows: nat, cols: nat) {
    && rows > 0 && cols > 0 && |f| == rows
    && forall i :: 0 <= i < |f| ==> |f[i]| == cols
  }

  /** A non-empty rectangular array: what a numpy 2-D array of positive size is. */
  predicate Rectangular(f: Face) {
    HasShape(f, |f|, Cols(f))
  }

  /** Two non-empty arrays of one shape, so that `f - g` needs no broadcasting. */
  predicate SameShape(f: Face, g: Face) {
    Rectangular(f) && Rectangular(g) && |f| == |g| && Cols(f) == Cols(g)
  }

  /** The array has no elements (`face.size == 0`). */
  predicate NoElements(f: Face) {
    forall i :: 0 <= i < |f| ==> |f[i]| == 0
  }

  function Abs(x: real): (r: real)
    ensures r >= 0.0
    ensures r == 0.0 <==> x == 0.0
  {
    if x < 0.0 then -x else x
  }

  /** Sum of column `a` over all rows. */
  function ColumnSum(f: Face, a: nat): real
    requires forall i :: 0 <= i < |f| ==> a < |f[i]|
  {
    if |f| == 0 then 0.0 else f[0][a] + ColumnSum(f[1..], a)
  }

  /** `np.mean(f[:, a])`. */
  function ColumnMean(f: Face, a: nat): real
    requires Rectangular(f) && a < Cols(f)
  {
    ColumnSum(f, a) / (|f| as real)
  }

  /** Sum of `|x[j] - y[j]|` over one pair of rows. */
  function RowAbsDiff(x: seq<real>, y: seq<real>): (r: real)
    requires |x| == |y|
    ensures r >= 0.0
  {
    if |x| == 0 then 0.0 else Abs(x[0] - y[0]) + RowAbsDiff(x[1..], y[1..])
  }

  /** Sum of `|f[i][j] - g[i][j]|` over all cells. */
  function AbsDiffSum(f: Face, g: Face): (r: real)
    requires |f| == |g| && forall i :: 0 <= i < |f| ==> |f[i]| == |g[i]|
    ensures r >= 0.0
  {
    if |f| == 0 then 0.0 else RowAbsDiff(f[0], g[0]) + AbsDiffSum(f[1..], g[1..])
  }

  /** `np.mean(np.abs(f - g))`: the distance used by the k-d tree. */
  function MeanAbsDiff(f: Face, g: Face): (r: real)
    requires SameShape(f, g)
    ensures r >= 0.0
  {
    AbsDiffSum(f, g) / ((|f| * Cols(f)) as real)
  }

  lemma {:induction false} RowAbsDiffZero(x: seq<real>, y: seq<real>)
    requires |x| == |y|
    ensures RowAbsDiff(x, y) == 0.0 <==> x == y
  {
    if |x| > 0 {
      RowAbsDiffZero(x[1..], y[1..]);
      assert x == [x[0]] + x[1..];
      assert y == [y[0]] + y[1..];
    }
  }

  lemma {:induction false} AbsDiffSumZero(f: Face, g: Face)
    requires |f| == |g| && forall i :: 0 <= i < |f| ==> |f[i]| == |g[i]|
    ensures AbsDiffSum(f, g) == 0.0 <==> f == g
  {
    if |f| > 0 {
      RowAbsDiffZero(f[0], g[0]);
      AbsDiffSumZero(f[1..], g[1..]);
      assert f == [f[0]] + f[1..];
      assert g == [g[0]] + g[1..];
    }
  }

  /** The distance is zero exactly between equal arrays: a stored face is at
      distance 0 from itself and from nothing else. */
  lemma MeanAbsDiffZeroIff(f: Face, g: Face)
    requires SameShape(f, g)
    ensures MeanAbsDiff(f, g) == 0.0 <==> f == g
  {
    AbsDiffSumZero(f, g);
  }

  lemma {:induction false} RowAbsDiffSymmetric(x: seq<real>, y: seq<real>)
    requires |x| == |y|
    ensures RowAbsDiff(x, y) == RowAbsDiff(y, x)
  {
    if |x| > 0 {
      RowAbsDiffSymmetric(x[1..], y[1..]);
    }
  }

  lemma {:induction false} AbsDiffSumSymmetric(f: Face, g: Face)
    requires |f| == |g| && forall i :: 0 <= i < |f| ==> |f[i]| == |g[i]|
    ensures AbsDiffSum(f, g) == AbsDiffSum(g, f)
  {
    if |f| > 0 {
      RowAbsDiffSymmetric(f[0], g[0]);
      AbsDiffSumSymmetric(f[1..], g[1..]);
    }
  }

  /** The distance does not depend on argument order. */
  lemma MeanAbsDiffSymmetric(f: Face, g: Face)
    requires SameShape(f, g)
    ensures MeanAbsDiff(f, g) == MeanAbsDiff(g, f)
  {
    AbsDiffSumSymmetric(f, g);
  }

  /** A column sum lies between the row count times a lower and an upper
      bound of the column's values. */
  lemma {:induction false} ColumnSumBounds(f: Face, a: nat, lo: real, hi: real)
    requires forall i :: 0 <= i < |f| ==> a < |f[i]| && lo <= f[i][a] <= hi
    ensures (|f| as real) * lo <= ColumnSum(f, a) <= (|f| as real) * hi
  {
    if |f| > 0 {
      ColumnSumBounds(f[1..], a, lo, hi);
      assert (|f| as real) * lo == ((|f| - 1) as real) * lo + lo;
      assert (|f| as real) * hi == ((|f| - 1) as real) * hi + hi;
    }
  }

  /** The mean of a column lies between any lower and upper bound of its
      values, so equal columns have equal means. */
  lemma ColumnMeanBounds(f: Face, a: nat, lo: real, hi: real)
    requires Rectangular(f) && a < Cols(f)
    requires forall i :: 0 <= i < |f| ==> lo <= f[i][a] <= hi
    ensures lo <= ColumnMean(f, a) <= hi
  {
    ColumnSumBounds(f, a, lo, hi);
    var n := |f| as real;
    var m := ColumnMean(f, a);
    assert m * n == ColumnSum(f, a);
  }
}
