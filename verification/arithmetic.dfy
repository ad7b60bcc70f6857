/** Facts about Dafny's Euclidean `/` and `%` that the calendar and the decimal
    rendering need. */
module Arithmetic {

  lemma MulMonotone(d: int, a: int, b: int)
    requires d > 0 && a <= b
    ensures d * a <= d * b
  {
  }

  /** Quotient and remainder are the unique pair with `0 <= r < d`. */
  lemma DivModUnique(n: int, d: int, q: int, r: int)
    requires d > 0 && 0 <= r < d && n == d * q + r
    ensures n % d == r && n / d == q
  {
    var q' := n / d;
    assert n == d * q' + n % d;
    if q' > q {
      MulMonotone(d, q + 1, q');
    } else if q' < q {
      MulMonotone(d, q' + 1, q);
    }
  }

  /** Adding one to `n` adds one to its remainder, wrapping to 0 at `d`. */
  lemma DivModSucc(n: int, d: int)
    requires d > 0
    ensures n % d < d - 1 ==> (n + 1) / d == n / d && (n + 1) % d == n % d + 1
    ensures n % d == d - 1 ==> (n + 1) / d == n / d + 1 && (n + 1) % d == 0
  {
    var q, r := n / d, n % d;
    assert n == d * q + r;
    if r < d - 1 {
      DivModUnique(n + 1, d, q, r + 1);
    } else {
      DivModUnique(n + 1, d, q + 1, 0);
    }
  }
}
