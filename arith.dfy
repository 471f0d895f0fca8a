/**
  Integer facts the quantity library leans on: C++'s truncating division on
  `intmax_t`, and the greatest common divisor that `std::ratio` uses to keep
  its numerator and denominator in lowest terms.

  Dafny's own `/` on `int` is Euclidean (the remainder is never negative), so
  the truncating quotient is defined here explicitly and characterised by its
  sign and magnitude.
 */
module Arith {

  function Abs(x: int): (r: nat)
    ensures r == x || r == -x
  {
    if x < 0 then -x else x
  }

  lemma AbsMul(x: int, y: int)
    ensures Abs(x * y) == Abs(x) * Abs(y)
  {
    if x < 0 && y < 0 {
      assert x * y == (-x) * (-y);
    } else if x < 0 {
      assert x * y == -((-x) * y);
    } else if y < 0 {
      assert x * y == -(x * (-y));
    }
  }

  lemma MulMonotone(x: int, y: int, c: int)
    requires x <= y && 0 <= c
    ensures x * c <= y * c
  {
    assert y * c - x * c == (y - x) * c;
  }

  lemma MulStrictMonotone(x: int, y: int, c: int)
    requires x < y && 0 < c
    ensures x * c < y * c
  {
    assert y * c - x * c == (y - x) * c;
  }

  /** A non-zero factor can be cancelled from both sides of an equation. */
  lemma MulCancel(x: int, y: int, c: int)
    requires c != 0 && x * c == y * c
    ensures x == y
  {
    assert (x - y) * c == 0;
    if x < y {
      if c > 0 { MulStrictMonotone(x, y, c); } else { MulStrictMonotone(x, y, -c); }
    } else if y < x {
      if c > 0 { MulStrictMonotone(y, x, c); } else { MulStrictMonotone(y, x, -c); }
    }
  }

  /** The sign of a product of two non-zero integers. */
  lemma SignMul(x: int, k: int)
    requires x != 0 && k != 0
    ensures (x * k > 0) <==> ((x > 0) == (k > 0))
  {
    if x > 0 && k > 0 { MulStrictMonotone(0, x, k); }
    else if x > 0 && k < 0 { MulStrictMonotone(0, x, -k); }
    else if x < 0 && k > 0 { MulStrictMonotone(0, -x, k); }
    else { MulStrictMonotone(0, -x, -k); }
  }

  /**
    `q` is the quotient of `a` by `b` rounded toward zero: its magnitude is the
    whole number of times `|b|` fits in `|a|`, and a non-zero `q` has the sign
    of the exact quotient.
   */
  ghost predicate IsTruncQuotient(q: int, a: int, b: int) {
    && b != 0
    && Abs(q) * Abs(b) <= Abs(a) < (Abs(q) + 1) * Abs(b)
    && (q != 0 ==> ((q > 0) <==> ((a > 0) == (b > 0))))
  }

  /** C++'s `a / b` on signed integers: the quotient truncated toward zero. */
  function TruncDiv(a: int, b: int): (q: int)
    requires b != 0
    ensures IsTruncQuotient(q, a, b)
  {
    NatDivBounds(Abs(a), Abs(b));
    var m: nat := Abs(a) / Abs(b);
    SignedQuotient(m, a, b);
    if (a < 0) == (b < 0) then m else -(m as int)
  }

  lemma SignedQuotient(m: nat, a: int, b: int)
    requires b != 0 && m * Abs(b) <= Abs(a) < (m + 1) * Abs(b)
    ensures IsTruncQuotient(if (a < 0) == (b < 0) then m as int else -(m as int), a, b)
  {
    var q: int := if (a < 0) == (b < 0) then m else -(m as int);
    assert Abs(q) == m;
    if m != 0 {
      MulStrictMonotone(0, m, Abs(b));
      assert a != 0;
    }
  }

  lemma NatDivBounds(a: nat, b: nat)
    requires 0 < b
    ensures 0 <= a / b && (a / b) * b <= a < (a / b + 1) * b
  {
    assert a == (a / b) * b + a % b;
    assert (a / b + 1) * b == (a / b) * b + b;
  }

  lemma NatQuotientUnique(x: nat, y: nat, a: nat, b: nat)
    requires x * b <= a < (x + 1) * b
    requires y * b <= a < (y + 1) * b
    ensures x == y
  {
    if x < y { MulMonotone(x + 1, y, b); }
    if y < x { MulMonotone(y + 1, x, b); }
  }

  /** Truncating division is the only function meeting its characterisation. */
  lemma {:induction false} TruncQuotientUnique(q: int, a: int, b: int)
    requires IsTruncQuotient(q, a, b)
    ensures q == TruncDiv(a, b)
  {
    var m := TruncDiv(a, b);
    NatQuotientUnique(Abs(q), Abs(m), Abs(a), Abs(b));
  }

  lemma Associative(a: int, b: int, c: int)
    ensures (a * b) * c == a * (b * c)
  {
  }

  lemma ScaleBounds(x: nat, a: nat, b: nat, k: nat)
    requires x * b <= a < (x + 1) * b && 0 < k
    ensures x * (b * k) <= a * k < (x + 1) * (b * k)
  {
    MulMonotone(x * b, a, k);
    MulStrictMonotone(a, (x + 1) * b, k);
    assert x * (b * k) == (x * b) * k;
    assert (x + 1) * (b * k) == ((x + 1) * b) * k;
  }

  /** A truncating quotient does not change when both operands are scaled by the same factor. */
  lemma TruncDivScale(a: int, b: int, k: int)
    requires b != 0 && k != 0
    ensures TruncDiv(a * k, b * k) == TruncDiv(a, b)
  {
    var q := TruncDiv(a, b);
    AbsMul(a, k);
    AbsMul(b, k);
    ScaleBounds(Abs(q), Abs(a), Abs(b), Abs(k));
    if q != 0 {
      MulStrictMonotone(0, Abs(q), Abs(b));
      SignMul(a, k);
      SignMul(b, k);
    }
    assert IsTruncQuotient(q, a * k, b * k);
    TruncQuotientUnique(q, a * k, b * k);
  }

  /** Two quotients of the same rational number truncate to the same integer. */
  lemma TruncDivSameRatio(a: int, b: int, c: int, d: int)
    requires b != 0 && d != 0 && a * d == c * b
    ensures TruncDiv(a, b) == TruncDiv(c, d)
  {
    TruncDivScale(a, b, d);
    TruncDivScale(c, d, b);
    assert b * d == d * b;
  }

  /** Dividing an exact multiple loses nothing. */
  lemma TruncDivExact(a: int, b: int)
    requires b != 0
    ensures TruncDiv(a * b, b) == a
  {
    AbsMul(a, b);
    MulStrictMonotone(Abs(a) * Abs(b), (Abs(a) + 1) * Abs(b), 1);
    if a != 0 { SignMul(a, b); }
    TruncQuotientUnique(a, a * b, b);
  }

  /** For a positive divisor truncating division preserves the order of dividends. */
  lemma TruncDivMonotone(a: int, c: int, b: int)
    requires 0 < b && a <= c
    ensures TruncDiv(a, b) <= TruncDiv(c, b)
  {
    var q1, q2 := TruncDiv(a, b), TruncDiv(c, b);
    if q1 > q2 {
      if 0 <= a {
        // c < (q2 + 1) * b <= q1 * b <= a
        MulMonotone(q2 + 1, q1, b);
      } else {
        // c <= q2 * b <= (q1 - 1) * b < a
        MulMonotone(q2, q1 - 1, b);
      }
    }
  }

  /** Euclid's algorithm; the result is zero only for `Gcd(0, 0)`. */
  function Gcd(a: nat, b: nat): (g: nat)
    ensures g == 0 <==> a == 0 && b == 0
    decreases b
  {
    if b == 0 then a else Gcd(b, a % b)
  }

  /** If `x == q * y + r` with `0 <= r < y`, then `q` and `r` are `x / y` and `x % y`. */
  lemma DivModUnique(x: int, y: int, q: int, r: int)
    requires 0 < y && x == q * y + r && 0 <= r < y
    ensures x / y == q && x % y == r
  {
    var q', r' := x / y, x % y;
    assert (q - q') * y == r' - r;
    if q < q' { MulMonotone(q - q' + 1, 0, y); }
    if q' < q { MulMonotone(1, q - q', y); }
  }

  lemma MultipleMod(g: nat, k: nat)
    requires 0 < g
    ensures (g * k) % g == 0 && (g * k) / g == k
  {
    DivModUnique(g * k, g, k, 0);
  }

  lemma ModZeroMultiple(x: nat, g: nat)
    requires 0 < g && x % g == 0
    ensures x == g * (x / g)
  {
    assert x == (x / g) * g + x % g;
  }

  /** A common divisor of `b` and `r` divides `n * b + r`. */
  lemma DividesCombination(g: nat, n: nat, b: nat, r: nat)
    requires 0 < g && b % g == 0 && r % g == 0
    ensures (n * b + r) % g == 0
  {
    var i, j := b / g, r / g;
    ModZeroMultiple(b, g);
    ModZeroMultiple(r, g);
    assert n * b + r == g * (n * i + j);
    MultipleMod(g, n * i + j);
  }

  /** The greatest common divisor divides both its arguments. */
  lemma {:induction false} GcdDivides(a: nat, b: nat)
    requires 0 < a || 0 < b
    ensures Gcd(a, b) > 0 && a % Gcd(a, b) == 0 && b % Gcd(a, b) == 0
    decreases b
  {
    if b == 0 {
      assert Gcd(a, b) == a;
      MultipleMod(a, 1);
      MultipleMod(a, 0);
    } else {
      var n, r := EuclidStep(a, b);
      GcdDivides(b, r);
      DividesCombination(Gcd(b, r), n, b, r);
    }
  }

  /** One step of Euclid's algorithm: `a` splits as `n * b + r`, and the divisor carries over. */
  lemma EuclidStep(a: nat, b: nat) returns (n: nat, r: nat)
    requires 0 < b
    ensures a == n * b + r && r == a % b && Gcd(a, b) == Gcd(b, r)
  {
    n, r := a / b, a % b;
  }

  lemma ModScale(k: nat, a: nat, b: nat)
    requires 0 < k && 0 < b
    ensures (k * a) % (k * b) == k * (a % b)
  {
    assert a == (a / b) * b + a % b;
    assert k * a == (a / b) * (k * b) + k * (a % b);
    MulStrictMonotone(a % b, b, k);
    DivModUnique(k * a, k * b, a / b, k * (a % b));
  }

  /** Scaling both arguments scales their greatest common divisor. */
  lemma {:induction false} GcdScale(k: nat, a: nat, b: nat)
    requires 0 < k
    ensures Gcd(k * a, k * b) == k * Gcd(a, b)
    decreases b
  {
    if b != 0 {
      MulStrictMonotone(0, b, k);
      ModScale(k, a, b);
      GcdScale(k, b, a % b);
    }
  }

  /** Bezout's identity: the greatest common divisor is an integer combination of the arguments. */
  lemma {:induction false} Bezout(a: nat, b: nat) returns (x: int, y: int)
    ensures x * a + y * b == Gcd(a, b)
    decreases b
  {
    if b == 0 {
      x, y := 1, 0;
    } else {
      var x', y' := Bezout(b, a % b);
      assert a % b == a - (a / b) * b;
      x, y := y', x' - y' * (a / b);
      calc {
        x * a + y * b;
        y' * a + x' * b - y' * (a / b) * b;
        x' * b + y' * (a - (a / b) * b);
        x' * b + y' * (a % b);
      }
    }
  }
}
