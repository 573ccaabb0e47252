/** Small facts of integer multiplication, division and remainder, kept
    apart so that each proof obligation that needs one stays linear. */
module Arith {
  /** Dividing by a larger (positive) denominator never gives more. */
  lemma DivideByLarger(n: nat, d1: int, d2: int)
    requires 0 < d1 <= d2
    ensures n / d2 <= n / d1
  {
    var q := n / d2;
    MulMonotone(d1, d2, q);
    assert q * d1 <= q * d2 <= n;
    DivLowerBound(n, d1, q);
  }

  lemma DivLowerBound(n: nat, d: int, q: nat)
    requires 0 < d && q * d <= n
    ensures q <= n / d
  {
    var r := n / d;
    assert n == r * d + n % d && n % d < d;
    assert (r + 1) * d == r * d + d;
    MulStrictCancel(q, r + 1, d);
  }

  lemma MulStrictCancel(a: int, b: int, d: nat)
    requires a * d < b * d
    ensures a < b
  {
    if a >= b {
      MulMonotone(b, a, d);
    }
  }

  lemma MulMonotone(a: int, b: int, k: nat)
    requires a <= b
    ensures a * k <= b * k
  {
  }

  /** Rounding down to a multiple of `b` loses less than `b`, and gives a
      multiple of `b`. */
  lemma FloorToMultiple(p: int, b: int)
    requires b > 0
    ensures p - b < (p / b) * b <= p
    ensures ((p / b) * b) % b == 0
  {
    assert p == (p / b) * b + p % b;
    ModUnique((p / b) * b, b, p / b, 0);
  }

  lemma MultipleShiftMod(q: int, b: int, k: int)
    requires b > 0
    ensures (q * b + k) % b == k % b
  {
    var x := q * b + k;
    assert x == (q + k / b) * b + k % b;
    ModUnique(x, b, q + k / b, k % b);
  }

  lemma ModUnique(x: int, b: int, q: int, m: int)
    requires b > 0 && 0 <= m < b && x == q * b + m
    ensures x % b == m
  {
    assert x == (x / b) * b + x % b;
    var d := q - x / b;
    assert d * b == x % b - m;
    if d > 0 {
      MulMonotone(1, d, b);
    } else if d < 0 {
      MulMonotone(d, -1, b);
    }
  }

  lemma DivAddMultiple(x: nat, y: nat, d: nat)
    requires d > 0
    ensures (x + y * d) / d == x / d + y
  {
    var q := x / d;
    assert x == q * d + x % d;
    assert x + y * d == (q + y) * d + x % d;
    DivUnique(x + y * d, d, q + y, x % d);
  }

  lemma DivUnique(x: int, d: int, q: int, m: int)
    requires d > 0 && 0 <= m < d && x == q * d + m
    ensures x / d == q
  {
    ModUnique(x, d, q, m);
    assert x == (x / d) * d + x % d;
    assert (q - x / d) * d == 0;
  }

  lemma SmallDiv(x: nat, d: nat)
    requires 0 <= x < d
    ensures x / d == 0 && (x / d) % 2 == 0
  {
    DivUnique(x, d, 0, x);
  }
}
