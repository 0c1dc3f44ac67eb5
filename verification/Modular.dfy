/** Remainders with a variable divisor. */
module Modular {
  lemma MulAtLeast(n: nat, k: int)
    requires n > 0 && k >= 1
    ensures n * k >= n
  {
  }

  /** Quotient and remainder are unique. */
  lemma DivModUnique(x: int, n: nat, q: int, r: int)
    requires n > 0 && x == n * q + r && 0 <= r < n
    ensures x % n == r && x / n == q
  {
    var q', r' := x / n, x % n;
    assert x == n * q' + r';
    assert n * (q' - q) == n * q' - n * q && n * (q - q') == n * q - n * q';
    if q' > q {
      MulAtLeast(n, q' - q);
    } else if q' < q {
      MulAtLeast(n, q - q');
    }
  }

  /** Adding a multiple of n does not change the remainder. */
  lemma ModShift(x: int, n: nat, k: int)
    requires n > 0
    ensures (x + n * k) % n == x % n
  {
    assert n * (x / n + k) == n * (x / n) + n * k;
    DivModUnique(x + n * k, n, x / n + k, x % n);
  }

  /** Numbers leave the same remainder exactly when their difference leaves none. */
  lemma ModEqual(a: int, b: int, n: nat)
    requires n > 0
    ensures a % n == b % n <==> (a - b) % n == 0
  {
    var qa, qb := a / n, b / n;
    assert n * (qa - qb) == n * qa - n * qb;
    if a % n == b % n {
      DivModUnique(a - b, n, qa - qb, 0);
    }
    if (a - b) % n == 0 {
      var k := (a - b) / n;
      assert a == b + n * k;
      ModShift(b, n, k);
    }
  }

  lemma Multiples(a: nat, b: nat, n: nat)
    requires n > 0 && a % n == 0 && b % n == 0
    ensures (a + b) % n == 0 && (b - a) % n == 0
  {
    var p: int, q: int := a / n, b / n;
    assert n * (p + q) == n * p + n * q && n * (q - p) == n * q - n * p;
    DivModUnique(a + b, n, p + q, 0);
    DivModUnique(b - a, n, q - p, 0);
  }

  /** A number below a multiple of n is in a group of n below it. */
  lemma GroupBelow(i: nat, m: nat, n: nat)
    requires n > 0 && m % n == 0 && i < m
    ensures i - i % n + n <= m
  {
    var p: int, q: int := i / n, m / n;
    assert n * (q - p) == n * q - n * p && n * (p - q) == n * p - n * q;
    if p > q {
      MulAtLeast(n, p - q);
    } else if p < q {
      MulAtLeast(n, q - p);
    }
  }
}
