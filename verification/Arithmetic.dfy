/** Products and quotients of integers. */
module Arithmetic {
  lemma {:induction false} Regrouped(a: int, b: int, c: int)
    ensures a * (b * c) == (a * b) * c
  {
  }

  lemma {:induction false} DividedTwice(n: int, a: int, b: int)
    requires a > 0 && b > 0
    ensures (n / a) / b == n / (a * b)
  {
    var q := (n / a) / b;
    var r := n - q * (a * b);
    assert r == (n / a - q * b) * a + n % a;
    assert 0 <= n / a - q * b <= b - 1;
    Within(n / a - q * b, b - 1, a);
    assert 0 <= r < a * b;
    Quotients(n, a * b, q, r);
  }

  lemma {:induction false} Within(x: int, y: int, a: int)
    requires 0 <= x <= y && a > 0
    ensures 0 <= x * a <= y * a
  {
  }

  lemma {:induction false} Quotients(n: int, d: int, q: int, r: int)
    requires d > 0 && n == q * d + r && 0 <= r < d
    ensures n / d == q
  {
    if n / d < q {
      Within(1, q - n / d, d);
    } else if n / d > q {
      Within(1, n / d - q, d);
    }
  }
}
