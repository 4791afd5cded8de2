/** The three quadrature rules of src/integration/metods.py over a sampled
    series `(x[i], y[i])`. Floats are modelled by exact reals, so the
    `np.allclose` spacing test becomes exact equality of consecutive
    differences. Each rule checks its structural conditions in the source's
    order and fails with the matching error instead of raising. */
module Quadrature {
  import opened Wrappers

  /** One per `ValueError` the rules raise. */
  datatype RuleError =
    | LengthMismatch
    | TooFewPoints(minimum: nat)
    | EvenPointCount
    | SubintervalsNotMultipleOfThree
    | UnevenSpacing

  /** All consecutive differences equal the first one, `x[1] - x[0]`. */
  predicate EquallySpaced(x: seq<real>)
    requires |x| >= 2
  {
    forall i :: 0 <= i < |x| - 1 ==> x[i + 1] - x[i] == x[1] - x[0]
  }

  /** On an equally spaced grid with step `h`, point `i` lies at `x[0] + i·h`. */
  lemma {:induction false} GridPoint(x: seq<real>, i: nat)
    requires |x| >= 2 && EquallySpaced(x) && i < |x|
    ensures x[i] == x[0] + (i as real) * (x[1] - x[0])
  {
    if i > 0 {
      GridPoint(x, i - 1);
      assert x[i] - x[i - 1] == x[1] - x[0];
    }
  }

  // ---------------------------------------------------------------- trapezoid

  /** The trapezoid over points i and i + 1. */
  function Segment(x: seq<real>, y: seq<real>, i: nat): real
    requires i + 1 < |x| && |x| == |y|
  {
    0.5 * (y[i] + y[i + 1]) * (x[i + 1] - x[i])
  }

  /** `np.trapz(y, x)` over the first `k` points: the sum of the segments
      i < k − 1. */
  function TrapezoidSum(x: seq<real>, y: seq<real>, k: nat): real
    requires 1 <= k <= |x| && |x| == |y|
  {
    if k == 1 then 0.0 else TrapezoidSum(x, y, k - 1) + Segment(x, y, k - 2)
  }

  /** `trapezoidal_rule`: needs equal lengths, then at least 2 points. It
      makes no spacing demand. */
  function Trapezoid(x: seq<real>, y: seq<real>): (r: Result<real, RuleError>)
    ensures r == Failure(LengthMismatch) <==> |x| != |y|
    ensures r == Failure(TooFewPoints(2)) <==> |x| == |y| && |x| < 2
    ensures r.Success? <==> |x| == |y| >= 2
  {
    if |x| != |y| then Failure(LengthMismatch)
    else if |x| < 2 then Failure(TooFewPoints(2))
    else Success(TrapezoidSum(x, y, |x|))
  }

  /** Antiderivative of t ↦ a·t + b. */
  function LinearAntiderivative(a: real, b: real, t: real): real {
    a * t * t / 2.0 + b * t
  }

  /** The line t ↦ a·t + b. */
  function LinAt(a: real, b: real, t: real): real {
    a * t + b
  }

  /** One trapezoid integrates a line exactly. */
  lemma SegmentExactForLinear(a: real, b: real, u: real, v: real, p: real, q: real)
    requires p == LinAt(a, b, u) && q == LinAt(a, b, v)
    ensures 0.5 * (p + q) * (v - u) == LinearAntiderivative(a, b, v) - LinearAntiderivative(a, b, u)
  {
  }

  /** When every segment is the increase of `f` across it, the sum over the
      first `k` points is the increase of `f` from point 0 to point k − 1. */
  lemma {:induction false} TrapezoidTelescopes(x: seq<real>, y: seq<real>, f: seq<real>, k: nat)
    requires 1 <= k <= |x| && |x| == |y| && |f| == |x|
    requires forall i {:trigger Segment(x, y, i)} :: 0 <= i < k - 1 ==> Segment(x, y, i) == f[i + 1] - f[i]
    ensures TrapezoidSum(x, y, k) == f[k - 1] - f[0]
  {
    if k > 1 {
      TrapezoidTelescopes(x, y, f, k - 1);
      assert Segment(x, y, k - 2) == f[k - 1] - f[k - 2];
      Telescope(TrapezoidSum(x, y, k - 1), Segment(x, y, k - 2), f[0], f[k - 2], f[k - 1]);
    }
  }

  /** Adding the increase over the next piece to the increase so far. */
  lemma Telescope(sofar: real, piece: real, f0: real, fu: real, fv: real)
    requires sofar == fu - f0 && piece == fv - fu
    ensures sofar + piece == fv - f0
  {
  }

  /** The trapezoid rule is exact for linear data, on any grid. */
  lemma TrapezoidExactForLinear(x: seq<real>, y: seq<real>, a: real, b: real)
    requires |x| == |y| >= 2
    requires forall i {:trigger LinAt(a, b, x[i])} :: 0 <= i < |y| ==> y[i] == LinAt(a, b, x[i])
    ensures Trapezoid(x, y).Success?
    ensures Trapezoid(x, y).value == LinearAntiderivative(a, b, x[|x| - 1]) - LinearAntiderivative(a, b, x[0])
  {
    var f := seq(|x|, i requires 0 <= i < |x| => LinearAntiderivative(a, b, x[i]));
    forall i | 0 <= i < |x| - 1
      ensures Segment(x, y, i) == f[i + 1] - f[i]
    {
      assert y[i] == LinAt(a, b, x[i]) && y[i + 1] == LinAt(a, b, x[i + 1]);
      SegmentExactForLinear(a, b, x[i], x[i + 1], y[i], y[i + 1]);
    }
    TrapezoidTelescopes(x, y, f, |x|);
    assert f[|x| - 1] == LinearAntiderivative(a, b, x[|x| - 1]) && f[0] == LinearAntiderivative(a, b, x[0]);
  }

  /** A constant `c` on an equally spaced grid integrates to c·(n − 1)·h. */
  lemma TrapezoidConstant(x: seq<real>, y: seq<real>, c: real)
    requires |x| == |y| >= 2 && EquallySpaced(x)
    requires forall i :: 0 <= i < |y| ==> y[i] == c
    ensures Trapezoid(x, y).Success? && Trapezoid(x, y).value == c * ((|x| - 1) as real) * (x[1] - x[0])
  {
    TrapezoidExactForLinear(x, y, 0.0, c);
    GridPoint(x, |x| - 1);
    LinearConstant(c, x[0], (|x| - 1) as real, x[1] - x[0]);
  }

  lemma LinearConstant(c: real, u: real, k: real, h: real)
    ensures LinearAntiderivative(0.0, c, u + k * h) - LinearAntiderivative(0.0, c, u) == c * k * h
  {
  }

  // --------------------------------------------------------------- Simpson 1/3

  /** `sum(y[i:stop:2])`. */
  function StrideSum(y: seq<real>, i: nat, stop: nat): real
    requires stop <= |y|
    decreases stop - i
  {
    if i >= stop then 0.0 else y[i] + StrideSum(y, i + 2, stop)
  }

  /** Moving the stop two places on adds the one new element of the stride. */
  lemma {:induction false} StrideSumExtend(y: seq<real>, i: nat, stop: nat)
    requires i <= stop && stop + 2 <= |y|
    ensures StrideSum(y, i, stop + 2)
         == StrideSum(y, i, stop) + (if (stop - i) % 2 == 0 then y[stop] else y[stop + 1])
    decreases stop - i
  {
    if i + 2 <= stop {
      StrideSumExtend(y, i + 2, stop);
      assert (stop - (i + 2)) % 2 == (stop - i) % 2;
    } else if i == stop {
      assert StrideSum(y, i + 2, stop + 2) == 0.0;
    } else {
      assert i + 1 == stop;
      assert StrideSum(y, stop + 1, stop + 2) == y[stop + 1] + StrideSum(y, stop + 3, stop + 2);
      assert StrideSum(y, i + 2, stop) == 0.0;
    }
  }

  /** The bracket `y[0] + y[-1] + 4·sum(y[1:-1:2]) + 2·sum(y[2:-1:2])` over
      the first `n` points. */
  function Simpson13Bracket(y: seq<real>, n: nat): real
    requires 3 <= n <= |y|
  {
    y[0] + y[n - 1] + 4.0 * StrideSum(y, 1, n - 1) + 2.0 * StrideSum(y, 2, n - 1)
  }

  /** One Simpson 1/3 panel over points 2j, 2j+1, 2j+2, before the h/3 factor. */
  function Panel13(y: seq<real>, j: nat): real
    requires 2 * j + 2 < |y|
  {
    y[2 * j] + 4.0 * y[2 * j + 1] + y[2 * j + 2]
  }

  /** Reference: the composite rule as the sum of its first `m` panels. */
  function Panels13(y: seq<real>, m: nat): real
    requires 2 * m + 1 <= |y|
  {
    if m == 0 then 0.0 else Panels13(y, m - 1) + Panel13(y, m - 1)
  }

  /** The source's slice formula agrees with the panel-by-panel composite rule. */
  lemma {:induction false} Simpson13BracketIsPanels(y: seq<real>, m: nat)
    requires 1 <= m && 2 * m + 1 <= |y|
    ensures Simpson13Bracket(y, 2 * m + 1) == Panels13(y, m)
  {
    if m > 1 {
      Simpson13BracketIsPanels(y, m - 1);
      var n := 2 * m - 1;
      StrideSumExtend(y, 1, n - 1);
      StrideSumExtend(y, 2, n - 1);
    }
  }

  /** The conditions under which `simpson_1_3_rule` returns a value. */
  predicate Simpson13Applies(x: seq<real>, y: seq<real>) {
    |x| == |y| && |x| >= 3 && |x| % 2 == 1 && EquallySpaced(x)
  }

  /** `simpson_1_3_rule`: length mismatch, fewer than 3 points, an even
      number of points and uneven spacing are rejected in that order;
      otherwise the result is (h/3)·bracket with h = x[1] − x[0]. */
  function Simpson13(x: seq<real>, y: seq<real>): (r: Result<real, RuleError>)
    ensures |x| != |y| ==> r == Failure(LengthMismatch)
    ensures |x| == |y| && |x| < 3 ==> r == Failure(TooFewPoints(3))
    ensures |x| == |y| && |x| >= 3 && |x| % 2 == 0 ==> r == Failure(EvenPointCount)
    ensures |x| == |y| && |x| >= 3 && |x| % 2 == 1 && !EquallySpaced(x) ==> r == Failure(UnevenSpacing)
    ensures r.Success? <==> Simpson13Applies(x, y)
    ensures r.Success? ==>
              Simpson13Applies(x, y) && r.value == (x[1] - x[0]) / 3.0 * Panels13(y, (|y| - 1) / 2)
  {
    if |x| != |y| then Failure(LengthMismatch)
    else if |x| < 3 then Failure(TooFewPoints(3))
    else if |x| % 2 == 0 then Failure(EvenPointCount)
    else if !EquallySpaced(x) then Failure(UnevenSpacing)
    else
      var m := (|y| - 1) / 2;
      assert 2 * m + 1 == |y|;
      Simpson13BracketIsPanels(y, m);
      Success((x[1] - x[0]) / 3.0 * Simpson13Bracket(y, |y|))
  }

  lemma {:induction false} Panels13Constant(y: seq<real>, m: nat, c: real)
    requires 2 * m + 1 <= |y|
    requires forall i :: 0 <= i < |y| ==> y[i] == c
    ensures Panels13(y, m) == 6.0 * c * (m as real)
  {
    if m > 0 {
      Panels13Constant(y, m - 1, c);
      assert Panel13(y, m - 1) == 6.0 * c;
      MulSucc(6.0 * c, m);
    }
  }

  /** w·(m − 1) + w = w·m. */
  lemma MulSucc(w: real, m: nat)
    requires m >= 1
    ensures w * ((m - 1) as real) + w == w * (m as real)
  {
  }

  /** (h/d)·(w·c·m) = c·(k·m)·h whenever w = d·k: a panel sum of constants,
      rescaled. */
  lemma ScaleConstant(h: real, c: real, m: nat, d: real, w: real, k: nat)
    requires d > 0.0 && w == d * (k as real)
    ensures h / d * (w * c * (m as real)) == c * ((k * m) as real) * h
  {
    assert ((k * m) as real) == (k as real) * (m as real);
  }

  /** A constant `c` integrates to c·(n − 1)·h: the weights sum to 3·(n − 1). */
  lemma Simpson13Constant(x: seq<real>, y: seq<real>, c: real)
    requires Simpson13Applies(x, y)
    requires forall i :: 0 <= i < |y| ==> y[i] == c
    ensures Simpson13(x, y).Success? && Simpson13(x, y).value == c * ((|x| - 1) as real) * (x[1] - x[0])
  {
    var m := (|y| - 1) / 2;
    Panels13Constant(y, m, c);
    assert |x| - 1 == 2 * m;
    ScaleConstant(x[1] - x[0], c, m, 3.0, 6.0, 2);
  }

  /** The parabola t ↦ a·t² + b·t + c. */
  function QuadAt(a: real, b: real, c: real, t: real): real {
    a * t * t + b * t + c
  }

  /** Antiderivative of the parabola `QuadAt(a, b, c, ·)`. */
  function Cubic(a: real, b: real, c: real, t: real): real {
    a * t * t * t / 3.0 + b * t * t / 2.0 + c * t
  }

  /** One Simpson 1/3 panel integrates a parabola exactly. */
  lemma PanelExactForQuadratic(a: real, b: real, c: real, u: real, h: real)
    ensures h / 3.0 * (QuadAt(a, b, c, u) + 4.0 * QuadAt(a, b, c, u + h) + QuadAt(a, b, c, u + 2.0 * h))
         == Cubic(a, b, c, u + 2.0 * h) - Cubic(a, b, c, u)
  {
  }

  /** k·(p + q) = k·p + k·q. */
  lemma Distribute(k: real, p: real, q: real)
    ensures k * (p + q) == k * p + k * q
  {
  }

  /** When every scaled panel equals the increase of `f` across it, the
      scaled composite rule equals the increase of `f` over all panels. */
  lemma {:induction false} PanelsTelescope(y: seq<real>, f: seq<real>, k: real, m: nat)
    requires 2 * m + 1 <= |y| && 2 * m + 1 <= |f|
    requires forall j {:trigger Panel13(y, j)} :: 0 <= j < m ==> k * Panel13(y, j) == f[2 * j + 2] - f[2 * j]
    ensures k * Panels13(y, m) == f[2 * m] - f[0]
  {
    if m > 0 {
      PanelsTelescope(y, f, k, m - 1);
      Distribute(k, Panels13(y, m - 1), Panel13(y, m - 1));
      assert k * Panel13(y, m - 1) == f[2 * m] - f[2 * m - 2];
      Telescope(k * Panels13(y, m - 1), k * Panel13(y, m - 1), f[0], f[2 * m - 2], f[2 * m]);
    }
  }

  /** Panel `j` of an equally spaced grid, sampled on a parabola, scaled by
      h/3, is the increase of the antiderivative across the panel. */
  lemma PanelOnGrid(x: seq<real>, y: seq<real>, a: real, b: real, c: real, j: nat)
    requires |x| == |y| >= 2 && EquallySpaced(x) && 2 * j + 2 < |y|
    requires y[2 * j] == QuadAt(a, b, c, x[2 * j])
    requires y[2 * j + 1] == QuadAt(a, b, c, x[2 * j + 1])
    requires y[2 * j + 2] == QuadAt(a, b, c, x[2 * j + 2])
    ensures (x[1] - x[0]) / 3.0 * Panel13(y, j) == Cubic(a, b, c, x[2 * j + 2]) - Cubic(a, b, c, x[2 * j])
  {
    var u, h := x[2 * j], x[1] - x[0];
    assert x[2 * j + 1] - x[2 * j] == h && x[2 * j + 2] - x[2 * j + 1] == h;
    assert x[2 * j + 1] == u + h && x[2 * j + 2] == u + 2.0 * h;
    PanelExactForQuadratic(a, b, c, u, h);
  }

  /** When every scaled panel of an admissible series is the increase of
      `f` across it, Simpson 1/3 returns the increase of `f` end to end. */
  lemma Simpson13Telescopes(x: seq<real>, y: seq<real>, f: seq<real>)
    requires Simpson13Applies(x, y) && |f| == |x|
    requires forall j {:trigger Panel13(y, j)} :: 0 <= j < (|y| - 1) / 2 ==>
               (x[1] - x[0]) / 3.0 * Panel13(y, j) == f[2 * j + 2] - f[2 * j]
    ensures Simpson13(x, y).Success? && Simpson13(x, y).value == f[|x| - 1] - f[0]
  {
    var m := (|y| - 1) / 2;
    assert 2 * m + 1 == |y|;
    PanelsTelescope(y, f, (x[1] - x[0]) / 3.0, m);
  }

  /** Simpson 1/3 is exact for every parabola sampled on an admissible grid. */
  lemma Simpson13ExactForQuadratic(x: seq<real>, y: seq<real>, a: real, b: real, c: real)
    requires Simpson13Applies(x, y)
    requires forall i {:trigger QuadAt(a, b, c, x[i])} :: 0 <= i < |y| ==> y[i] == QuadAt(a, b, c, x[i])
    ensures Simpson13(x, y).Success?
    ensures Simpson13(x, y).value == Cubic(a, b, c, x[|x| - 1]) - Cubic(a, b, c, x[0])
  {
    var f := seq(|x|, i requires 0 <= i < |x| => Cubic(a, b, c, x[i]));
    forall j | 0 <= j < (|y| - 1) / 2
      ensures (x[1] - x[0]) / 3.0 * Panel13(y, j) == f[2 * j + 2] - f[2 * j]
    {
      assert y[2 * j] == QuadAt(a, b, c, x[2 * j]);
      assert y[2 * j + 1] == QuadAt(a, b, c, x[2 * j + 1]);
      assert y[2 * j + 2] == QuadAt(a, b, c, x[2 * j + 2]);
      PanelOnGrid(x, y, a, b, c, j);
    }
    Simpson13Telescopes(x, y, f);
    assert f[|x| - 1] == Cubic(a, b, c, x[|x| - 1]) && f[0] == Cubic(a, b, c, x[0]);
  }

  // --------------------------------------------------------------- Simpson 3/8

  /** The coefficient array of `simpson_3_8_rule` at index `i` of `n`:
      `np.ones(n)`, then 3 on `[1:-1]`, then 2 on `[3:-1:3]`. */
  function Coef38(n: nat, i: nat): real {
    if 3 <= i < n - 1 && i % 3 == 0 then 2.0
    else if 1 <= i < n - 1 then 3.0
    else 1.0
  }

  /** `np.dot(coef, y)` over the first `k` entries, for a series of `n` points. */
  function Dot38(y: seq<real>, n: nat, k: nat): real
    requires k <= |y|
  {
    if k == 0 then 0.0 else Dot38(y, n, k - 1) + Coef38(n, k - 1) * y[k - 1]
  }

  /** The 1, 3, 3, 1 weighting of one Simpson 3/8 panel. */
  function Weigh38(p0: real, p1: real, p2: real, p3: real): real {
    p0 + 3.0 * p1 + 3.0 * p2 + p3
  }

  /** One Simpson 3/8 panel over points 3j … 3j+3, before the 3h/8 factor. */
  function Panel38(y: seq<real>, j: nat): real
    requires 3 * j + 3 < |y|
  {
    Weigh38(y[3 * j], y[3 * j + 1], y[3 * j + 2], y[3 * j + 3])
  }

  /** Reference: the composite rule as the sum of its first `m` panels. */
  function Panels38(y: seq<real>, m: nat): real
    requires 3 * m + 1 <= |y|
  {
    if m == 0 then 0.0 else Panels38(y, m - 1) + Panel38(y, m - 1)
  }

  /** Growing the series by one panel leaves the coefficients below the old
      last point alone. */
  lemma {:induction false} Dot38StablePrefix(y: seq<real>, n: nat, k: nat)
    requires k + 1 <= n && k <= |y|
    ensures Dot38(y, n, k) == Dot38(y, n + 3, k)
  {
    if k > 0 {
      Dot38StablePrefix(y, n, k - 1);
    }
  }

  /** The source's coefficient vector agrees with the panel-by-panel rule. */
  lemma {:induction false} Dot38IsPanels(y: seq<real>, m: nat)
    requires 1 <= m && 3 * m + 1 <= |y|
    ensures Dot38(y, 3 * m + 1, 3 * m + 1) == Panels38(y, m)
  {
    if m == 1 {
      assert Dot38(y, 4, 1) == y[0];
      assert Dot38(y, 4, 2) == y[0] + 3.0 * y[1];
      assert Dot38(y, 4, 3) == y[0] + 3.0 * y[1] + 3.0 * y[2];
    } else {
      Dot38IsPanels(y, m - 1);
      var n := 3 * m - 2;
      var big := n + 3;
      Dot38StablePrefix(y, n, n - 1);
      assert Dot38(y, n, n) == Dot38(y, n, n - 1) + y[n - 1];
      assert Dot38(y, big, n) == Dot38(y, big, n - 1) + 2.0 * y[n - 1];
      assert Dot38(y, big, n + 1) == Dot38(y, big, n) + 3.0 * y[n];
      assert Dot38(y, big, n + 2) == Dot38(y, big, n + 1) + 3.0 * y[n + 1];
      assert Dot38(y, big, big) == Dot38(y, big, n + 2) + y[n + 2];
    }
  }

  /** The conditions under which `simpson_3_8_rule` returns a value. */
  predicate Simpson38Applies(x: seq<real>, y: seq<real>) {
    |x| == |y| && |x| >= 4 && (|x| - 1) % 3 == 0 && EquallySpaced(x)
  }

  /** `simpson_3_8_rule`: length mismatch, fewer than 4 points, a point
      count not of the form 3k + 1 and uneven spacing are rejected in that
      order; otherwise the result is (3h/8)·dot(coef, y). */
  function Simpson38(x: seq<real>, y: seq<real>): (r: Result<real, RuleError>)
    ensures |x| != |y| ==> r == Failure(LengthMismatch)
    ensures |x| == |y| && |x| < 4 ==> r == Failure(TooFewPoints(4))
    ensures |x| == |y| && |x| >= 4 && (|x| - 1) % 3 != 0 ==> r == Failure(SubintervalsNotMultipleOfThree)
    ensures |x| == |y| && |x| >= 4 && (|x| - 1) % 3 == 0 && !EquallySpaced(x) ==> r == Failure(UnevenSpacing)
    ensures r.Success? <==> Simpson38Applies(x, y)
    ensures r.Success? ==>
              Simpson38Applies(x, y) && r.value == 3.0 * (x[1] - x[0]) / 8.0 * Panels38(y, (|y| - 1) / 3)
  {
    if |x| != |y| then Failure(LengthMismatch)
    else if |x| < 4 then Failure(TooFewPoints(4))
    else if (|x| - 1) % 3 != 0 then Failure(SubintervalsNotMultipleOfThree)
    else if !EquallySpaced(x) then Failure(UnevenSpacing)
    else
      var m := (|y| - 1) / 3;
      assert 3 * m + 1 == |y|;
      Dot38IsPanels(y, m);
      Success(3.0 * (x[1] - x[0]) / 8.0 * Dot38(y, |y|, |y|))
  }

  lemma {:induction false} Panels38Constant(y: seq<real>, m: nat, c: real)
    requires 3 * m + 1 <= |y|
    requires forall i :: 0 <= i < |y| ==> y[i] == c
    ensures Panels38(y, m) == 8.0 * c * (m as real)
  {
    if m > 0 {
      Panels38Constant(y, m - 1, c);
      assert Panel38(y, m - 1) == 8.0 * c;
      MulSucc(8.0 * c, m);
    }
  }

  /** A constant `c` integrates to c·(n − 1)·h: the weights sum to 8·(n − 1)/3. */
  lemma Simpson38Constant(x: seq<real>, y: seq<real>, c: real)
    requires Simpson38Applies(x, y)
    requires forall i :: 0 <= i < |y| ==> y[i] == c
    ensures Simpson38(x, y).Success? && Simpson38(x, y).value == c * ((|x| - 1) as real) * (x[1] - x[0])
  {
    var m := (|y| - 1) / 3;
    Panels38Constant(y, m, c);
    assert |x| - 1 == 3 * m;
    ScaleConstant(x[1] - x[0], c, m, 8.0 / 3.0, 8.0, 3);
    assert 3.0 * (x[1] - x[0]) / 8.0 == (x[1] - x[0]) / (8.0 / 3.0);
  }

  /** One Simpson 3/8 panel integrates a parabola exactly. */
  lemma PanelExactForQuadratic38(a: real, b: real, c: real, u: real, h: real)
    ensures 3.0 * h / 8.0 * Weigh38(QuadAt(a, b, c, u), QuadAt(a, b, c, u + h),
                                    QuadAt(a, b, c, u + 2.0 * h), QuadAt(a, b, c, u + 3.0 * h))
         == Cubic(a, b, c, u + 3.0 * h) - Cubic(a, b, c, u)
  {
  }

  /** Panel `j` of an equally spaced grid, sampled on a parabola, scaled
      by 3h/8, is the increase of the antiderivative across the panel. */
  lemma PanelOnGrid38(x: seq<real>, y: seq<real>, a: real, b: real, c: real, j: nat)
    requires |x| == |y| >= 2 && EquallySpaced(x) && 3 * j + 3 < |y|
    requires y[3 * j] == QuadAt(a, b, c, x[3 * j])
    requires y[3 * j + 1] == QuadAt(a, b, c, x[3 * j + 1])
    requires y[3 * j + 2] == QuadAt(a, b, c, x[3 * j + 2])
    requires y[3 * j + 3] == QuadAt(a, b, c, x[3 * j + 3])
    ensures 3.0 * (x[1] - x[0]) / 8.0 * Panel38(y, j) == Cubic(a, b, c, x[3 * j + 3]) - Cubic(a, b, c, x[3 * j])
  {
    var u, h := x[3 * j], x[1] - x[0];
    assert x[3 * j + 1] - x[3 * j] == h && x[3 * j + 2] - x[3 * j + 1] == h && x[3 * j + 3] - x[3 * j + 2] == h;
    assert x[3 * j + 1] == u + h && x[3 * j + 2] == u + 2.0 * h && x[3 * j + 3] == u + 3.0 * h;
    PanelExactForQuadratic38(a, b, c, u, h);
  }

  /** The 3/8 counterpart of `PanelsTelescope`. */
  lemma {:induction false} Panels38Telescope(y: seq<real>, f: seq<real>, k: real, m: nat)
    requires 3 * m + 1 <= |y| && 3 * m + 1 <= |f|
    requires forall j {:trigger Panel38(y, j)} :: 0 <= j < m ==> k * Panel38(y, j) == f[3 * j + 3] - f[3 * j]
    ensures k * Panels38(y, m) == f[3 * m] - f[0]
  {
    if m > 0 {
      Panels38Telescope(y, f, k, m - 1);
      Distribute(k, Panels38(y, m - 1), Panel38(y, m - 1));
      assert k * Panel38(y, m - 1) == f[3 * m] - f[3 * m - 3];
      Telescope(k * Panels38(y, m - 1), k * Panel38(y, m - 1), f[0], f[3 * m - 3], f[3 * m]);
    }
  }

  /** When every scaled panel of an admissible series is the increase of
      `f` across it, Simpson 3/8 returns the increase of `f` end to end. */
  lemma Simpson38Telescopes(x: seq<real>, y: seq<real>, f: seq<real>)
    requires Simpson38Applies(x, y) && |f| == |x|
    requires forall j {:trigger Panel38(y, j)} :: 0 <= j < (|y| - 1) / 3 ==>
               3.0 * (x[1] - x[0]) / 8.0 * Panel38(y, j) == f[3 * j + 3] - f[3 * j]
    ensures Simpson38(x, y).Success? && Simpson38(x, y).value == f[|x| - 1] - f[0]
  {
    var m := (|y| - 1) / 3;
    assert 3 * m + 1 == |y|;
    Panels38Telescope(y, f, 3.0 * (x[1] - x[0]) / 8.0, m);
  }

  /** Simpson 3/8 is exact for every parabola sampled on an admissible grid. */
  lemma Simpson38ExactForQuadratic(x: seq<real>, y: seq<real>, a: real, b: real, c: real)
    requires Simpson38Applies(x, y)
    requires forall i {:trigger QuadAt(a, b, c, x[i])} :: 0 <= i < |y| ==> y[i] == QuadAt(a, b, c, x[i])
    ensures Simpson38(x, y).Success?
    ensures Simpson38(x, y).value == Cubic(a, b, c, x[|x| - 1]) - Cubic(a, b, c, x[0])
  {
    var f := seq(|x|, i requires 0 <= i < |x| => Cubic(a, b, c, x[i]));
    forall j | 0 <= j < (|y| - 1) / 3
      ensures 3.0 * (x[1] - x[0]) / 8.0 * Panel38(y, j) == f[3 * j + 3] - f[3 * j]
    {
      assert y[3 * j] == QuadAt(a, b, c, x[3 * j]);
      assert y[3 * j + 1] == QuadAt(a, b, c, x[3 * j + 1]);
      assert y[3 * j + 2] == QuadAt(a, b, c, x[3 * j + 2]);
      assert y[3 * j + 3] == QuadAt(a, b, c, x[3 * j + 3]);
      PanelOnGrid38(x, y, a, b, c, j);
    }
    Simpson38Telescopes(x, y, f);
    assert f[|x| - 1] == Cubic(a, b, c, x[|x| - 1]) && f[0] == Cubic(a, b, c, x[0]);
  }

  // ------------------------------------------------------------------ examples

  /** The worked examples: trapezoid on y = x + 1 over [0, 2] gives 4,
      Simpson 1/3 on y = x² over [0, 2] gives 8/3, and the parity and
      modulus checks reject four and five points. */
  lemma WorkedExamples()
    ensures Trapezoid([0.0, 1.0, 2.0], [1.0, 2.0, 3.0]) == Success(4.0)
    ensures Simpson13([0.0, 1.0, 2.0], [0.0, 1.0, 4.0]) == Success(8.0 / 3.0)
    ensures Simpson13([0.0, 1.0, 2.0, 3.0], [0.0, 1.0, 4.0, 9.0]) == Failure(EvenPointCount)
    ensures Simpson38([0.0, 1.0, 2.0, 3.0, 4.0], [0.0, 0.0, 0.0, 0.0, 0.0])
         == Failure(SubintervalsNotMultipleOfThree)
  {
    TrapezoidExactForLinear([0.0, 1.0, 2.0], [1.0, 2.0, 3.0], 1.0, 1.0);
  }
}
