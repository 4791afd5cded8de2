/** `quitar_porcentaje_homogeneo` (src/utils/remove_percentage.py) without the
    CSV read and write: remove a percentage of the rows by keeping evenly
    strided ones, then cut the kept rows down to a "25 + 6k" count. */
module Reduction {
  import opened RowCount
  import opened Wrappers

  /** The two exceptions the source can raise: the explicit `ValueError` for a
      percentage outside [0, 100], and the `ZeroDivisionError` of the stride
      when the percentage is exactly 100. */
  datatype ReduceError = PercentageOutOfRange | ZeroDivision

  /** Python's `int()` on a float: truncation toward zero. */
  function Int(v: real): (k: int)
    ensures v >= 0.0 ==> (k as real) <= v < (k as real) + 1.0
    ensures v < 0.0 ==> (k as real) - 1.0 < v <= k as real
  {
    if v >= 0.0 then v.Floor else -((-v).Floor)
  }

  /** The guard `0 <= porcentaje <= 100`. */
  predicate InRange(p: real) {
    0.0 <= p <= 100.0
  }

  /** `step = 100 / (100 - p)`: every `step`-th row is kept. */
  function Step(p: real): (s: real)
    requires 0.0 <= p < 100.0
    ensures s >= 1.0
    ensures s * (100.0 - p) == 100.0
  {
    StepAtLeastOne(100.0 - p);
    100.0 / (100.0 - p)
  }

  lemma StepAtLeastOne(d: real)
    requires 0.0 < d <= 100.0
    ensures 100.0 / d >= 1.0
  {
    var s := 100.0 / d;
    assert s * d == 100.0;
  }

  /** The kept row number `int(i * step)` for the `i`-th kept row. */
  function SampleIndex(p: real, i: nat): int
    requires 0.0 <= p < 100.0
  {
    Int(i as real * Step(p))
  }

  /** `int(n / step)`: the length of the `range` the comprehension runs over. */
  function RangeLength(n: nat, p: real): int
    requires 0.0 <= p < 100.0
  {
    Int(n as real / Step(p))
  }

  /** The comprehension `[int(i*step) for i in range(k) if int(i*step) < n]`,
      built left to right. */
  function Indices(n: nat, p: real, k: nat): seq<int>
    requires 0.0 <= p < 100.0
  {
    if k == 0 then []
    else
      var j := SampleIndex(p, k - 1);
      Indices(n, p, k - 1) + (if j < n then [j] else [])
  }

  /** `df[indices]`: the rows at the given positions, in the given order. */
  function Pick<T>(rows: seq<T>, idx: seq<int>): seq<T>
    requires forall k :: 0 <= k < |idx| ==> 0 <= idx[k] < |rows|
  {
    seq(|idx|, k requires 0 <= k < |idx| => rows[idx[k]])
  }

  /** Row `k` of `out` is row `int(k * step)` of `rows`. */
  ghost predicate SampledAt<T>(out: seq<T>, rows: seq<T>, p: real)
    requires 0.0 <= p < 100.0
  {
    forall k :: 0 <= k < |out| ==>
      0 <= SampleIndex(p, k) < |rows| && out[k] == rows[SampleIndex(p, k)]
  }

  /** The number of rows the stride selects: n·(100 − p)/100, rounded down. */
  function SelectedCount(n: nat, p: real): int
    requires 0.0 <= p < 100.0
  {
    ((n as real) * (100.0 - p) / 100.0).Floor
  }

  lemma NonNegMul(a: real, b: real)
    requires a >= 0.0 && b >= 0.0
    ensures a * b >= 0.0
  {
  }

  lemma MulMonotone(a: real, b: real, s: real)
    requires a <= b && s >= 0.0
    ensures a * s <= b * s
  {
    NonNegMul(b - a, s);
  }

  /** The range length is the count of rows the percentage keeps. */
  lemma RangeLengthIsSelectedCount(n: nat, p: real)
    requires 0.0 <= p < 100.0
    ensures RangeLength(n, p) == SelectedCount(n, p)
    ensures 0 <= RangeLength(n, p) <= n
    ensures (RangeLength(n, p) as real) * Step(p) <= n as real
  {
    var s := Step(p);
    var q := n as real / s;
    assert q * s == n as real;
    var q' := (n as real) * (100.0 - p) / 100.0;
    assert q' * s == n as real by {
      calc {
        q' * s;
        == (n as real) * (s * (100.0 - p)) / 100.0;
        == n as real;
      }
    }
    assert q == q';
    NonNegMul(n as real, 1.0 / s);
    assert q >= 0.0;
    MulMonotone(q, q * s, 1.0);
    assert q <= n as real by {
      MulMonotone(1.0, s, q);
    }
    MulMonotone(q.Floor as real, q, s);
  }

  /** Every index the comprehension produces is a valid row number: the
      `< n` filter never removes anything. */
  lemma SampleIndexBounds(n: nat, p: real, i: nat)
    requires 0.0 <= p < 100.0
    requires i < RangeLength(n, p)
    ensures 0 <= SampleIndex(p, i) < n
  {
    var s := Step(p);
    RangeLengthIsSelectedCount(n, p);
    MulMonotone((i + 1) as real, RangeLength(n, p) as real, s);
    assert (i as real) * s + s <= n as real;
    NonNegMul(i as real, s);
  }

  /** A stride of at least one row makes the kept indices strictly increasing,
      starting at row 0. */
  lemma SampleIndexIncreasing(p: real, i: nat, j: nat)
    requires 0.0 <= p < 100.0
    requires i < j
    ensures SampleIndex(p, 0) == 0
    ensures SampleIndex(p, i) < SampleIndex(p, j)
  {
    var s := Step(p);
    NonNegMul(i as real, s);
    MulMonotone(1.0, (j - i) as real, s);
    assert (j as real) * s >= (i as real) * s + 1.0;
    assert ((i as real) * s + 1.0).Floor == ((i as real) * s).Floor + 1;
  }

  /** Whatever the length, the filter only lets row numbers in [0, n) through. */
  lemma {:induction false} IndicesInRange(n: nat, p: real, k: nat)
    requires 0.0 <= p < 100.0
    ensures forall t :: 0 <= t < |Indices(n, p, k)| ==> 0 <= Indices(n, p, k)[t] < n
  {
    if k > 0 {
      IndicesInRange(n, p, k - 1);
      NonNegMul((k - 1) as real, Step(p));
    }
  }

  /** Within the range, the filtered comprehension is exactly
      `int(0*step), int(1*step), ..., int((k-1)*step)`. */
  lemma {:induction false} IndicesExact(n: nat, p: real, k: nat)
    requires 0.0 <= p < 100.0
    requires k <= RangeLength(n, p)
    ensures |Indices(n, p, k)| == k
    ensures forall t :: 0 <= t < k ==> Indices(n, p, k)[t] == SampleIndex(p, t)
  {
    if k > 0 {
      IndicesExact(n, p, k - 1);
      SampleIndexBounds(n, p, k - 1);
    }
  }

  /** The reducer: validate the percentage, keep the strided rows, then keep
      the first `MaxValidRows` of them. The one case left out is a selection
      with no rows at all (see README). */
  function RemovePercentage<T>(rows: seq<T>, p: real): (r: Result<seq<T>, ReduceError>)
    requires 0.0 <= p < 100.0 ==> SelectedCount(|rows|, p) >= 1
    ensures r == Failure(PercentageOutOfRange) <==> !InRange(p)
    ensures r == Failure(ZeroDivision) <==> p == 100.0
    ensures r.Success? ==> 0.0 <= p < 100.0 && |r.value| == MaxValidRows(SelectedCount(|rows|, p))
    ensures r.Success? ==> IsAdmissible(|r.value|) && 1 <= |r.value|
    ensures r.Success? ==> SampledAt(r.value, rows, p)
  {
    if !InRange(p) then Failure(PercentageOutOfRange)
    else if p == 100.0 then Failure(ZeroDivision)
    else
      var n := |rows|;
      var idx := Indices(n, p, RangeLength(n, p));
      IndicesInRange(n, p, RangeLength(n, p));
      RangeLengthIsSelectedCount(n, p);
      IndicesExact(n, p, RangeLength(n, p));
      var reduced := Pick(rows, idx);
      Success(reduced[..MaxValidRows(|reduced|)])
  }

  /** Every reduced series, even a one-row one, starts with row 0. */
  lemma ReductionStartsAtFirstRow<T>(rows: seq<T>, p: real)
    requires 0.0 <= p < 100.0 && SelectedCount(|rows|, p) >= 1
    ensures |RemovePercentage(rows, p).value| >= 1
    ensures RemovePercentage(rows, p).value[0] == rows[0]
  {
    SampleIndexIncreasing(p, 0, 1);
  }

  /** The output is an order-preserving subsequence of distinct rows. */
  lemma ReductionIsOrderedSample<T>(rows: seq<T>, p: real, i: nat, j: nat)
    requires 0.0 <= p < 100.0 && SelectedCount(|rows|, p) >= 1
    requires i < j < MaxValidRows(SelectedCount(|rows|, p))
    ensures |RemovePercentage(rows, p).value| == MaxValidRows(SelectedCount(|rows|, p))
    ensures 0 <= SampleIndex(p, i) < SampleIndex(p, j) < |rows|
    ensures RemovePercentage(rows, p).value[i] == rows[SampleIndex(p, i)]
    ensures RemovePercentage(rows, p).value[j] == rows[SampleIndex(p, j)]
  {
    SampleIndexIncreasing(p, i, j);
  }

  /** Removing nothing still applies the count rule: the output is the first
      `MaxValidRows(n)` rows. */
  lemma RemoveNothing<T>(rows: seq<T>)
    requires |rows| >= 1
    ensures SelectedCount(|rows|, 0.0) == |rows|
    ensures RemovePercentage(rows, 0.0) == Success(rows[..MaxValidRows(|rows|)])
  {
    var out := RemovePercentage(rows, 0.0).value;
    assert SelectedCount(|rows|, 0.0) == |rows|;
    assert |out| == MaxValidRows(|rows|);
    forall k | 0 <= k < |out|
      ensures out[k] == rows[k]
    {
      assert SampleIndex(0.0, k) == k;
    }
    assert out == rows[..MaxValidRows(|rows|)];
  }
}
