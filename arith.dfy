/** Facts about Euclidean division and remainder by a positive, symbolic divisor.
    The frame-loop and seed-buffer arithmetic only ever divides non-negative
    integers, where C++'s truncating `/` and `%` agree with Dafny's. */
module Arith {

  /** Division and remainder are determined by any decomposition n == d*q + r with 0 <= r < d. */
  lemma DivModUnique(n: int, d: int, q: int, r: int)
    requires d > 0 && 0 <= r < d && n == d * q + r
    ensures q == n / d && r == n % d
  {
    var q0, r0 := n / d, n % d;
    assert n == d * q0 + r0;
    if q > q0 {
      MulLe(1, q - q0, d);
      assert false;
    } else if q < q0 {
      MulLe(1, q0 - q, d);
      assert false;
    }
  }

  lemma MulLe(a: int, b: int, c: int)
    requires 0 <= c && a <= b
    ensures c * a <= c * b
  {
    assert c * b - c * a == c * (b - a);
  }

  /** Advancing n by one either bumps the remainder or wraps it and bumps the quotient. */
  lemma Succ(n: int, d: int)
    requires d > 0
    ensures (n + 1) % d == (if n % d == d - 1 then 0 else n % d + 1)
    ensures (n + 1) / d == n / d + (if n % d == d - 1 then 1 else 0)
  {
    if n % d == d - 1 {
      DivModUnique(n + 1, d, n / d + 1, 0);
    } else {
      DivModUnique(n + 1, d, n / d, n % d + 1);
    }
  }

  /** Adding one divisor's worth adds exactly one to the quotient. */
  lemma AddDivisor(n: int, d: int)
    requires d > 0
    ensures (n + d) / d == n / d + 1 && (n + d) % d == n % d
  {
    DivModUnique(n + d, d, n / d + 1, n % d);
  }

  /** Division by a positive divisor is monotone. */
  lemma DivMonotone(m: int, n: int, d: int)
    requires d > 0 && m <= n
    ensures m / d <= n / d
  {
    if m / d > n / d {
      MulLe(n / d + 1, m / d, d);
      assert false;
    }
  }

  /** A multiple of d divided by d. */
  lemma MulDiv(q: int, d: int)
    requires d > 0
    ensures (d * q) / d == q && (d * q) % d == 0
  {
    DivModUnique(d * q, d, q, 0);
  }

  /** Part x of d equal parts of a (rounded down) ends no later than a. */
  lemma PartInside(a: nat, d: nat, x: nat)
    requires d > 0 && x < d
    ensures x * (a / d) + a / d <= a
  {
    MulLe(x + 1, d, a / d);
    assert (x + 1) * (a / d) == x * (a / d) + a / d;
  }

  /** n below d*e means n / d is below e. */
  lemma DivBelow(n: nat, d: nat, e: nat)
    requires d > 0 && n < d * e
    ensures n / d < e
  {
    if n / d >= e {
      MulLe(e, n / d, d);
      assert false;
    }
  }

  /** One more step of a counter that is hit once per d steps, at remainder r. */
  lemma CountStep(m: nat, d: nat, r: nat, s: nat)
    requires d > 0 && r < d
    requires s == m / d + (if m % d > r then 1 else 0)
    ensures s + (if m % d == r then 1 else 0) == (m + 1) / d + (if (m + 1) % d > r then 1 else 0)
  {
    Succ(m, d);
  }
}
