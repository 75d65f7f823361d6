/**
 * The `Math` functions the application uses, on exact rationals given as a
 * numerator and a denominator, and the progress-percentage formula
 * `Math.min(Math.round(pages / totalPages * 100), 100)` shared by the
 * dashboard, the timer's book picker and the progress form.
 */
module JsMath {

  function Min(a: int, b: int): int {
    if a <= b then a else b
  }

  function Max(a: int, b: int): int {
    if a >= b then a else b
  }

  /**
   * `Math.round(num / den)`: the integer nearest to num / den, a half rounded
   * up (towards +infinity), which is floor(num / den + 1/2).
   */
  function Round(num: int, den: int): (r: int)
    requires den != 0
    ensures den > 0 ==> 2 * den * r <= 2 * num + den < 2 * den * r + 2 * den
    ensures den < 0 ==> 2 * den * r >= 2 * num + den > 2 * den * r + 2 * den
  {
    if den > 0 then (2 * num + den) / (2 * den) else (-2 * num - den) / (-2 * den)
  }

  /** `Math.min(Math.round(pages / total * 100), 100)` */
  function Percent(pages: int, total: int): int
    requires total != 0
  {
    Min(Round(100 * pages, total), 100)
  }

  /** Floor division by a positive number is monotone. */
  lemma DivMonotone(a: int, b: int, d: int)
    requires a <= b && d > 0
    ensures a / d <= b / d
  {
    var qa, qb := a / d, b / d;
    assert a == d * qa + a % d && b == d * qb + b % d;
    if qa > qb {
      MulMonotone(d, qb + 1, qa);
    }
  }

  lemma MulMonotone(d: int, x: int, y: int)
    requires d > 0 && x <= y
    ensures d * x <= d * y
  {
  }

  /** Cancelling a positive factor from a strict bound: d * x < d * (y + 1) gives x <= y. */
  lemma MulCancel(d: int, x: int, y: int)
    requires d > 0 && d * x < d * (y + 1)
    ensures x <= y
  {
    if x > y {
      MulMonotone(d, y + 1, x);
    }
  }

  /** The rounded mean of n values in [0, hi] lies in [0, hi]. */
  lemma RoundMeanInRange(sum: int, n: int, hi: int)
    requires n > 0 && 0 <= sum <= hi * n
    ensures 0 <= Round(sum, n) <= hi
  {
    var r := Round(sum, n);
    assert 2 * n * (hi + 1) == 2 * (hi * n) + 2 * n;
    MulCancel(2 * n, r, hi);
    assert 2 * n * (r + 1) == 2 * n * r + 2 * n;
    MulCancel(2 * n, 0, r);
  }

  /** For a book with pages, a non-negative page count gives a percentage in [0, 100]. */
  lemma PercentInRange(pages: int, total: int)
    requires pages >= 0 && total > 0
    ensures 0 <= Percent(pages, total) <= 100
  {
    DivMonotone(0, 2 * 100 * pages + total, 2 * total);
  }

  /** The percentage reaches 100 exactly when pages / total >= 99.5%. */
  lemma PercentFullIff(pages: int, total: int)
    requires total > 0
    ensures Percent(pages, total) == 100 <==> 200 * pages >= 199 * total
  {
    var r := Round(100 * pages, total);
    if r >= 100 {
      MulMonotone(2 * total, 100, r);
      assert 200 * total <= 2 * total * r;
    } else {
      MulMonotone(2 * total, r + 1, 100);
      assert 2 * total * r + 2 * total <= 200 * total;
    }
  }

  /** Reading more pages never lowers the percentage. */
  lemma PercentMonotone(p1: int, p2: int, total: int)
    requires p1 <= p2 && total > 0
    ensures Percent(p1, total) <= Percent(p2, total)
  {
    DivMonotone(2 * (100 * p1) + total, 2 * (100 * p2) + total, 2 * total);
  }
}
