/** Facts about the means and fractions the app computes (`total / Double(count)`). */
module Ratios {

  /**
   * A total over a positive count: the mean is at most 1 when the total is at
   * most the count, not negative when the total is not, positive when the
   * total is, and reaches 1 exactly when the total reaches the count.
   */
  lemma RatioBounds(t: real, n: real)
    requires n > 0.0
    ensures t <= n ==> t / n <= 1.0
    ensures t >= 0.0 ==> t / n >= 0.0
    ensures t / n > 0.0 <==> t > 0.0
    ensures t / n >= 1.0 <==> t >= n
    ensures (t / n) * n == t
  {
    var q := t / n;
    assert q * n == t;
    UpperBound(q, n);
    LowerBound(q, n);
    if q > 1.0 {
      assert t > n;
    } else {
      assert t <= n;
    }
    if q > 0.0 {
      assert t > 0.0;
    } else if q < 0.0 {
      assert t < 0.0;
    } else {
      assert t == 0.0;
    }
  }

  /** A fraction above 1 of a positive count exceeds the count. */
  lemma UpperBound(q: real, n: real)
    requires n > 0.0
    ensures q > 1.0 ==> q * n > n
    ensures q <= 1.0 ==> q * n <= n
  {
    if q > 1.0 {
      assert (q - 1.0) * n > 0.0;
    } else {
      assert (1.0 - q) * n >= 0.0;
    }
  }

  /** A fraction of a positive count has the fraction's sign. */
  lemma LowerBound(q: real, n: real)
    requires n > 0.0
    ensures q > 0.0 ==> q * n > 0.0
    ensures q < 0.0 ==> q * n < 0.0
    ensures q == 0.0 ==> q * n == 0.0
  {
  }

  /** `total / Double(count)` behind a `count > 0` guard: the mean, or 0 when there is nothing to average. */
  function Mean(total: real, count: nat): real
  {
    if count == 0 then 0.0 else total / count as real
  }

  /** A mean of values each at most 1 is at most 1, is not negative, and reaches 1 exactly when the total reaches the count. */
  lemma MeanBounds(total: real, count: nat)
    ensures total <= count as real ==> Mean(total, count) <= 1.0
    ensures total >= 0.0 ==> Mean(total, count) >= 0.0
    ensures count > 0 ==> (Mean(total, count) >= 1.0 <==> total >= count as real)
  {
    if count > 0 {
      RatioBounds(total, count as real);
    }
  }

  /** A mean over a positive count reaches a threshold `t` exactly when the total reaches `t` times the count. */
  lemma MeanAtLeast(total: real, count: nat, t: real)
    requires count > 0
    ensures Mean(total, count) >= t <==> total >= t * count as real
  {
    var n := count as real;
    var q := total / n;
    assert q * n == total;
    if q >= t {
      assert (q - t) * n >= 0.0;
    } else {
      assert (t - q) * n > 0.0;
    }
  }
}
