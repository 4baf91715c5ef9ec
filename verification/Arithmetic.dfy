/** Facts about products, and about `/` and `%` by a divisor that is not a literal. */
module Arithmetic {
  /** Quotient and remainder are determined by their defining equation. */
  lemma DivUnique(n: int, d: int, q: int, r: int)
    requires n == d * q + r && 0 <= r < d
    ensures n / d == q && n % d == r
  {
    UniqueParts(d, n / d, n % d, q, r);
  }

  lemma UniqueParts(d: int, q: int, r: int, q': int, r': int)
    requires d * q + r == d * q' + r'
    requires 0 <= r < d && 0 <= r' < d
    ensures q == q' && r == r'
  {
    var k := q - q';
    assert d * k == r' - r;
    assert k == 0;
  }

  lemma SplitTwice(a: int, b: int, q: int, t: int, r: int) returns (rest: int)
    requires a > 0 && 0 <= t < b && 0 <= r < a
    ensures a * (b * q + t) + r == (a * b) * q + rest && 0 <= rest < a * b
  {
    rest := a * t + r;
    assert a * t <= a * (b - 1);
  }

  lemma DivByProduct(n: nat, a: int, b: int)
    requires a > 0 && b > 0
    ensures a * b > 0 && n / (a * b) == n / a / b
  {
    var rest := SplitTwice(a, b, n / a / b, (n / a) % b, n % a);
    DivUnique(n, a * b, n / a / b, rest);
  }

  lemma Divide(n: nat, p: int) returns (q: int, r: int)
    requires p > 0
    ensures n == p * q + r && 0 <= r < p && q == n / p && r == n % p
  {
    q, r := n / p, n % p;
  }

  lemma MulDouble(a: int, p: int)
    ensures a * (2 * p) == (2 * a) * p && 2 * (a * p) == (2 * a) * p
    ensures p * (2 * a) == 2 * (p * a)
  {
  }

  lemma MulSucc(a: int, p: int)
    ensures (a + 1) * p == a * p + p
    ensures p * (a + 1) == p * a + p
  {
  }

  lemma MulSigns(a: int, b: int)
    ensures (-a) * b == -(a * b) && a * (-b) == -(a * b) && (-a) * (-b) == a * b
  {
  }

  lemma MulAtLeast(d: int, q: int)
    requires d >= 1 && q >= 0
    ensures d * q >= q && (d >= 2 ==> d * q >= 2 * q)
  {
  }

  lemma MulMonotone(a: nat, b: nat, x: nat, y: nat)
    requires a <= b && x <= y
    ensures a * x <= b * y
  {
    assert a * x <= a * y && a * y <= b * y;
  }

  /** There are only n naturals below n. */
  lemma {:induction false} DistinctBounded(c: seq<int>, n: nat)
    requires forall i :: 0 <= i < |c| ==> 0 <= c[i] < n
    requires forall i, j :: 0 <= i < j < |c| ==> c[i] != c[j]
    ensures |c| <= n
    decreases n
  {
    assert |c| > 0 ==> 0 <= c[0] < n;
    if k :| 0 <= k < |c| && c[k] == n - 1 {
      DistinctBounded(c[..k] + c[k + 1..], n - 1);
    } else if n > 0 {
      DistinctBounded(c, n - 1);
    }
  }
}
