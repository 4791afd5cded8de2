/** The "25 + 6k" row-count rule (src/utils/validations.py).

    A count of the form 25 + 6k is odd and one more than a multiple of 3, so a
    series of that many equally spaced samples, when there are at least 7,
    satisfies the point-count conditions of the trapezoid rule and of both
    Simpson rules at once. The admissible count 1 satisfies none of them. */
module RowCount {

  /** `m` has the form 25 + 6k for some integer `k` (possibly negative). */
  predicate IsAdmissible(m: int) {
    (m - 25) % 6 == 0
  }

  /** `max_filas_validas`: 25 + 6 * ((n - 25) // 6). Python's `//` floors,
      and so does Dafny's `/` by the positive divisor 6, also for n < 25. */
  function MaxValidRows(n: int): (r: int)
    ensures IsAdmissible(r)
    ensures r <= n < r + 6
    ensures n >= 1 ==> 1 <= r
  {
    25 + 6 * ((n - 25) / 6)
  }

  /** The result is the largest admissible count not exceeding `n`. */
  lemma MaxValidRowsIsLargest(n: int, m: int)
    requires IsAdmissible(m) && m <= n
    ensures m <= MaxValidRows(n)
  {
    var r := MaxValidRows(n);
    assert (m - r) % 6 == 0;
  }

  /** A count is left as it is exactly when it is already admissible. */
  lemma MaxValidRowsFixedIff(n: int)
    ensures MaxValidRows(n) == n <==> IsAdmissible(n)
    ensures MaxValidRows(n) >= n <==> IsAdmissible(n)
  {
    if IsAdmissible(n) {
      MaxValidRowsIsLargest(n, n);
    }
  }

  /** Applying the rule twice changes nothing. */
  lemma MaxValidRowsIdempotent(n: int)
    ensures MaxValidRows(MaxValidRows(n)) == MaxValidRows(n)
  {
    MaxValidRowsFixedIff(MaxValidRows(n));
  }

  /** There is no guard for small counts: the result reaches 25 exactly when
      the input does, and below 25 it keeps falling (24 gives 19, 0 gives -5). */
  lemma MaxValidRowsSmallCounts(n: int)
    ensures n >= 25 <==> MaxValidRows(n) >= 25
    ensures MaxValidRows(30) == 25 && MaxValidRows(31) == 31
    ensures MaxValidRows(24) == 19 && MaxValidRows(0) == -5
  {
    if n >= 25 {
      MaxValidRowsIsLargest(n, 25);
    }
  }

  /** An admissible count is odd and one more than a multiple of three:
      the parity check of Simpson 1/3 and the modulus check of Simpson 3/8. */
  lemma AdmissibleFitsSimpson(m: int)
    requires IsAdmissible(m)
    ensures m % 2 == 1
    ensures (m - 1) % 3 == 0
  {
    AdmissibleIsOdd(m);
    AdmissibleIsThreeKPlusOne(m);
  }

  lemma AdmissibleIsOdd(m: int)
    requires IsAdmissible(m)
    ensures m % 2 == 1
  {
    var k, q := (m - 25) / 6, m / 2;
    assert m - 25 == 6 * k;
    assert m == 2 * q + m % 2;
    assert m % 2 == 1 + 2 * (3 * k + 12 - q);
  }

  lemma AdmissibleIsThreeKPlusOne(m: int)
    requires IsAdmissible(m)
    ensures (m - 1) % 3 == 0
  {
    var k, q := (m - 25) / 6, (m - 1) / 3;
    assert m - 25 == 6 * k;
    assert m - 1 == 3 * q + (m - 1) % 3;
    assert (m - 1) % 3 == 3 * (2 * k + 8 - q);
  }
}
