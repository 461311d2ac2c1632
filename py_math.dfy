/**
 * Python integer arithmetic that differs from Dafny's: `//` and `%` round
 * toward negative infinity, while Dafny's `/` and `%` are Euclidean.
 */
module PyMath {

  /** The Python exceptions the modelled code can raise. */
  datatype PyError = ValueError | ZeroDivisionError

  function Min(a: int, b: int): int { if a <= b then a else b }

  function Max(a: int, b: int): int { if a >= b then a else b }

  /** Python's `a // b`. */
  function FloorDiv(a: int, b: int): (q: int)
    requires b != 0
    ensures b > 0 ==> q * b <= a < q * b + b
    ensures b < 0 ==> q * b + b < a <= q * b
  {
    if b > 0 then a / b else (-a) / (-b)
  }

  /** Python's `a % b`: the remainder has the sign of the divisor. */
  function FloorMod(a: int, b: int): (m: int)
    requires b != 0
    ensures a == FloorDiv(a, b) * b + m
    ensures b > 0 ==> 0 <= m < b
    ensures b < 0 ==> b < m <= 0
  {
    a - FloorDiv(a, b) * b
  }

  /** ceil(n / d) for natural numbers: the number of values in Python's `range(0, n, d)`. */
  function CeilDiv(n: nat, d: nat): (c: nat)
    requires d > 0
    ensures n <= c * d
    ensures c > 0 ==> (c - 1) * d < n
  {
    (n + d - 1) / d
  }

  /** Euclidean division by a positive divisor has a unique quotient and remainder. */
  lemma DivModUnique(y: int, n: int, q: int, r: int)
    requires n > 0 && 0 <= r < n && y == q * n + r
    ensures y / n == q && y % n == r
  {
    var q', r' := y / n, y % n;
    assert y == q' * n + r' && 0 <= r' < n;
    var k := q - q';
    assert k * n == r' - r by {
      assert q * n - q' * n == (q - q') * n;
    }
    if k > 0 {
      MulAtLeast(k, n);
    } else if k < 0 {
      MulAtLeast(-k, n);
    }
  }

  lemma MulAtLeast(k: int, n: int)
    requires k >= 1 && n > 0
    ensures k * n >= n
  {
    assert k * n == (k - 1) * n + n;
  }

  /** One more than `x` moves the remainder on by one, wrapping at `n`. */
  lemma ModSucc(x: nat, n: nat)
    requires n > 0
    ensures (x + 1) % n == (x % n + 1) % n
  {
    var q, r := x / n, x % n;
    if r + 1 < n {
      DivModUnique(x + 1, n, q, r + 1);
      DivModUnique(r + 1, n, 0, r + 1);
    } else {
      DivModUnique(x + 1, n, q + 1, 0);
      DivModUnique(r + 1, n, 1, 0);
    }
  }

  /** A multiple of `n` leaves no remainder. */
  lemma ModOfMultiple(q: int, n: int)
    requires n > 0
    ensures (q * n) % n == 0 && (q * n) / n == q
  {
    DivModUnique(q * n, n, q, 0);
  }

  /** One more step of `d` adds one to the ceiling of the quotient. */
  lemma CeilDivStep(n: nat, d: nat)
    requires d > 0
    ensures CeilDiv(n + d, d) == CeilDiv(n, d) + 1
  {
    var q, r := (n + d - 1) / d, (n + d - 1) % d;
    DivModUnique(n + d + d - 1, d, q + 1, r);
  }

  /** The ceiling is the floor, plus one when there is a remainder. */
  lemma CeilDivByFloor(n: nat, d: nat)
    requires d > 0
    ensures CeilDiv(n, d) == n / d + (if n % d == 0 then 0 else 1)
  {
    var q, m := n / d, n % d;
    if m == 0 {
      DivModUnique(n + d - 1, d, q, d - 1);
    } else {
      DivModUnique(n + d - 1, d, q + 1, m - 1);
    }
  }

  /** At least one whole `d` fits in `n >= d`. */
  lemma DivAtLeastOne(n: int, d: int)
    requires 0 < d <= n
    ensures n / d >= 1
  {
  }

  /** Multiplying by a non-negative number keeps the order. */
  lemma MulMono(a: int, b: int, m: int)
    requires a <= b && m >= 0
    ensures a * m <= b * m
  {
    assert b * m - a * m == (b - a) * m;
  }
}
