/** JavaScript's `Math` functions and `%` operator as the portfolio uses them,
    over exact reals and unbounded integers. */
module JsMath {

  function Max(a: real, b: real): (m: real)
    ensures m >= a && m >= b && (m == a || m == b)
  {
    if a >= b then a else b
  }

  function Min(a: real, b: real): (m: real)
    ensures m <= a && m <= b && (m == a || m == b)
  {
    if a <= b then a else b
  }

  /** `Math.round`: the nearest integer, halves rounding up. */
  function Round(x: real): (n: int)
    ensures n as real - 0.5 <= x < n as real + 0.5
  {
    (x + 0.5).Floor
  }

  lemma RoundMonotone(x: real, y: real)
    requires x <= y
    ensures Round(x) <= Round(y)
  {
  }

  /** Truncation towards zero, as JavaScript's `%` uses for its quotient. */
  function Trunc(x: real): (n: int)
    ensures x >= 0.0 ==> n as real <= x < n as real + 1.0
    ensures x < 0.0 ==> n as real - 1.0 < x <= n as real
  {
    if x >= 0.0 then x.Floor else -((-x).Floor)
  }

  /** `a % b` on numbers: the remainder of the truncated quotient, which takes
      the sign of `a`. */
  function TruncRem(a: real, b: real): (r: real)
    requires b > 0.0
    ensures a >= 0.0 ==> 0.0 <= r < b
    ensures a < 0.0 ==> -b < r <= 0.0
    ensures IsWhole((a - r) / b)
  {
    var q := Trunc(a / b);
    QuotientBounds(a, b, q as real);
    WholeQuotient(a, b, q);
    a - q as real * b
  }

  /** Taking away `a - q b` leaves the whole multiple `q b`. */
  lemma WholeQuotient(a: real, b: real, q: int)
    requires b > 0.0
    ensures IsWhole((a - (a - q as real * b)) / b)
  {
    assert a - (a - q as real * b) == q as real * b;
    assert (q as real * b) / b == q as real;
  }

  /** `x` has no fractional part. */
  predicate IsWhole(x: real)
  {
    x.Floor as real == x
  }

  lemma QuotientBounds(a: real, b: real, q: real)
    requires b > 0.0
    requires a >= 0.0 ==> q <= a / b < q + 1.0
    requires a < 0.0 ==> q - 1.0 < a / b <= q
    ensures a >= 0.0 ==> q * b <= a < q * b + b
    ensures a < 0.0 ==> q * b - b < a <= q * b
  {
    var x := a / b;
    assert x * b == a;
    if a >= 0.0 {
      calc {
        a;
        == x * b;
        < (q + 1.0) * b;
        == q * b + b;
      }
      assert q * b <= x * b;
    } else {
      calc {
        a;
        == x * b;
        > (q - 1.0) * b;
        == q * b - b;
      }
      assert x * b <= q * b;
    }
  }

  /** Dividing by a positive number keeps the order. */
  lemma DivideMonotone(a: real, b: real, t: real)
    requires t > 0.0 && a <= b
    ensures a / t <= b / t
  {
    assert b / t - a / t == (b - a) / t;
  }

  /** A product kept as one term, so that facts proved about it in one lemma
      carry over unchanged to the functions that use it. */
  function Times(a: real, b: real): real { a * b }

  lemma LerpRealBetween(s: real, e: real, factor: real)
    requires 0.0 <= factor <= 1.0
    ensures s <= e ==> s <= s + Times(e - s, factor) <= e
    ensures e <= s ==> e <= s + Times(e - s, factor) <= s
  {
    var d := e - s;
    if d >= 0.0 {
      assert 0.0 <= d * factor <= d * 1.0;
    } else {
      assert d * factor - d == d * (factor - 1.0);
      assert d * (factor - 1.0) >= 0.0;
    }
  }

  /** Multiplying by a non-negative number keeps the order; by a positive
      number, the strict order too. */
  lemma ScaleBetween(a: real, b: real, c: real)
    requires 0.0 <= a && b <= c
    ensures Times(a, b) <= Times(a, c)
    ensures 0.0 < a && b < c ==> Times(a, b) < Times(a, c)
  {
    var d := c - b;
    assert c == b + d;
    assert a * c == a * b + a * d;
    assert Times(a, c) == Times(a, b) + a * d;
    ProductSign(a, d);
  }

  lemma ProductSign(a: real, b: real)
    requires 0.0 <= a && 0.0 <= b
    ensures 0.0 <= a * b
    ensures 0.0 < a && 0.0 < b ==> 0.0 < a * b
  {
  }

  /** The square of a number in [0, 1] stays in [0, 1], is no larger than
      the number, and is 0 or 1 exactly when the number is. */
  lemma SquareBounds(p: real)
    requires 0.0 <= p <= 1.0
    ensures 0.0 <= Times(p, p) <= p
    ensures Times(p, p) == 0.0 <==> p == 0.0
    ensures Times(p, p) == 1.0 <==> p == 1.0
  {
    ScaleBetween(p, 0.0, p);
    ScaleBetween(p, p, 1.0);
    assert Times(p, 0.0) == 0.0;
    assert Times(p, 1.0) == p;
  }

  /** Squaring is monotone on the non-negative numbers. */
  lemma SquareMonotone(a: real, b: real)
    requires 0.0 <= a <= b
    ensures Times(a, a) <= Times(b, b)
  {
    ScaleBetween(a, a, b);
    ScaleBetween(b, a, b);
    assert Times(a, b) == Times(b, a);
  }
}
