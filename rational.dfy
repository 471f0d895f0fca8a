/**
  The scale of a quantity: the `std::ratio` template argument of `phy::Qty`.
  A `std::ratio<N, D>` is always normalised at compile time: its denominator
  is positive and its `num` and `den` members are always in lowest terms,
  so two ratios denoting the same rational number have the same `num` and
  `den`. `ratio_multiply` and `ratio_divide` produce ratios in the same
  normal form, and dividing by a zero ratio does not compile.
 */
module Rational {
  import opened Arith

  datatype Ratio = Ratio(num: int, den: int)

  /** Lowest terms with a positive denominator. */
  predicate IsReduced(r: Ratio) {
    r.den > 0 && Gcd(Abs(r.num), r.den) == 1
  }

  /** A ratio as `std::ratio` stores it. */
  type Scale = r: Ratio | IsReduced(r) witness Ratio(1, 1)

  /** `std::ratio<1>`, the default scale of a quantity. */
  const One: Scale := Ratio(1, 1)

  /** `std::centi`. */
  const Centi: Scale := Ratio(1, 100)

  /** `std::milli`. */
  const Milli: Scale := Ratio(1, 1000)

  /** `p` and `q` denote the same rational number. */
  predicate SameValue(p: Ratio, q: Ratio) {
    p.num * q.den == q.num * p.den
  }

  /** The normal form of `n / d`, as `std::ratio<n, d>` computes it. */
  function Reduce(n: int, d: int): (r: Scale)
    requires d != 0
    ensures SameValue(r, Ratio(n, d))
  {
    GcdDivides(Abs(n), Abs(d));
    var g := Gcd(Abs(n), Abs(d));
    ModZeroMultiple(Abs(n), g);
    ModZeroMultiple(Abs(d), g);
    ReducedParts(g, Abs(n) / g, Abs(d) / g);
    var num := if (n < 0) == (d < 0) then Abs(n) / g else -(Abs(n) / g);
    SignedParts(n, d, g, Abs(n) / g, Abs(d) / g);
    Ratio(num, Abs(d) / g)
  }

  /** Restoring the sign of the quotient of `n` and `d` to its reduced parts. */
  lemma SignedParts(n: int, d: int, g: int, a: int, b: int)
    requires Abs(n) == g * a && Abs(d) == g * b
    ensures (if (n < 0) == (d < 0) then a else -a) * d == n * b
  {
    if n < 0 { assert n == -(g * a); } else { assert n == g * a; }
    if d < 0 { assert d == -(g * b); } else { assert d == g * b; }
  }

  /** Dividing two numbers by their greatest common divisor leaves coprime parts. */
  lemma ReducedParts(g: nat, a: nat, b: nat)
    requires 0 < g && 0 < g * b && Gcd(g * a, g * b) == g
    ensures 0 < b && Gcd(a, b) == 1
  {
    GcdScale(g, a, b);
    MulCancel(Gcd(a, b), 1, g);
  }

  /** `std::ratio_multiply`. */
  function Mul(p: Scale, q: Scale): (r: Scale)
    ensures SameValue(r, Ratio(p.num * q.num, p.den * q.den))
  {
    MulStrictMonotone(0, p.den, q.den);
    Reduce(p.num * q.num, p.den * q.den)
  }

  /** `std::ratio_divide`; a zero divisor is rejected at compile time. */
  function Div(p: Scale, q: Scale): (r: Scale)
    requires q.num != 0
    ensures SameValue(r, Ratio(p.num * q.den, p.den * q.num))
  {
    SignMul(p.den, q.num);
    Reduce(p.num * q.den, p.den * q.num)
  }

  /** With `x * a + y * b == 1` and `a * c == e * b`, `c` is a multiple of `b`. */
  lemma CoprimeMultiple(a: int, b: int, c: int, e: int, x: int, y: int)
    requires x * a + y * b == 1 && a * c == e * b
    ensures c == b * (x * e + y * c)
  {
    assert c == (x * a + y * b) * c;
    assert (x * a + y * b) * c == x * (a * c) + y * b * c;
    assert x * (a * c) == x * (e * b);
    assert x * (e * b) + y * b * c == b * (x * e + y * c);
  }

  /** A positive multiple of a positive number is at least that number. */
  lemma PositiveMultiple(b: int, c: int, m: int)
    requires 0 < b && 0 < c && c == b * m
    ensures b <= c
  {
    if m <= 0 {
      MulMonotone(m, 0, b);
    }
    MulMonotone(1, m, b);
  }

  /** Of two equal reduced ratios, the first's denominator divides the second's. */
  lemma DenominatorBound(p: Scale, q: Scale)
    requires SameValue(p, q)
    ensures p.den <= q.den
  {
    var pn, pd, qn, qd := Abs(p.num), p.den, Abs(q.num), q.den;
    var x, y := Bezout(pn, pd);
    assert x * pn + y * pd == 1;
    AbsMul(p.num, q.den);
    AbsMul(q.num, p.den);
    assert pn * qd == qn * pd;
    CoprimeMultiple(pn, pd, qd, qn, x, y);
    PositiveMultiple(pd, qd, x * qn + y * qd);
  }

  /** The normal form is canonical: equal rational numbers have one representation. */
  lemma {:induction false} Canonical(p: Scale, q: Scale)
    requires SameValue(p, q)
    ensures p == q
  {
    DenominatorBound(p, q);
    DenominatorBound(q, p);
    MulCancel(p.num, q.num, p.den);
  }

  /** Normalising a ratio that is already in normal form gives it back. */
  lemma ReduceIdempotent(p: Scale)
    ensures Reduce(p.num, p.den) == p
  {
    Canonical(Reduce(p.num, p.den), p);
  }

  lemma MulOne(p: Scale)
    ensures Mul(p, One) == p && Mul(One, p) == p
  {
    Canonical(Mul(p, One), p);
    Canonical(Mul(One, p), p);
  }

  lemma MulCommutative(p: Scale, q: Scale)
    ensures Mul(p, q) == Mul(q, p)
  {
    assert p.num * q.num == q.num * p.num && p.den * q.den == q.den * p.den;
  }

  lemma Rearrange(a: int, b: int, c: int, d: int)
    ensures ((a * b) * c) * d == a * ((d * c) * b)
  {
  }

  /** `SameValue` is transitive through a ratio with a non-zero denominator. */
  lemma SameValueTrans(p: Ratio, q: Ratio, r: Ratio)
    requires q.den != 0 && SameValue(p, q) && SameValue(q, r)
    ensures SameValue(p, r)
  {
    assert p.num * r.den * q.den == r.den * (q.num * p.den);
    assert r.den * (q.num * p.den) == p.den * (q.num * r.den);
    assert p.den * (q.num * r.den) == r.num * p.den * q.den;
    MulCancel(p.num * r.den, r.num * p.den, q.den);
  }

  /** Multiplying numerators and denominators respects `SameValue`. */
  lemma SameValueProduct(a: Ratio, a': Ratio, b: Ratio, b': Ratio)
    requires SameValue(a, a') && SameValue(b, b')
    ensures SameValue(Ratio(a.num * b.num, a.den * b.den), Ratio(a'.num * b'.num, a'.den * b'.den))
  {
    calc {
      (a.num * b.num) * (a'.den * b'.den);
      (a.num * a'.den) * (b.num * b'.den);
      (a'.num * a.den) * (b'.num * b.den);
      (a'.num * b'.num) * (a.den * b.den);
    }
  }

  lemma MulAssociative(p: Scale, q: Scale, s: Scale)
    ensures Mul(Mul(p, q), s) == Mul(p, Mul(q, s))
  {
    var pq, qs := Mul(p, q), Mul(q, s);
    var l, r := Mul(pq, s), Mul(p, qs);
    var left := Ratio((p.num * q.num) * s.num, (p.den * q.den) * s.den);
    var right := Ratio(p.num * (q.num * s.num), p.den * (q.den * s.den));
    var l1 := Ratio(pq.num * s.num, pq.den * s.den);
    var r1 := Ratio(p.num * qs.num, p.den * qs.den);
    MulStrictMonotone(0, pq.den, s.den);
    MulStrictMonotone(0, p.den, qs.den);
    MulStrictMonotone(0, p.den, q.den);
    MulStrictMonotone(0, p.den * q.den, s.den);
    SameValueProduct(pq, Ratio(p.num * q.num, p.den * q.den), s, s);
    SameValueTrans(l, l1, left);
    SameValueProduct(p, p, qs, Ratio(q.num * s.num, q.den * s.den));
    SameValueTrans(r, r1, right);
    Associative(p.num, q.num, s.num);
    Associative(p.den, q.den, s.den);
    assert left == right;
    SameValueTrans(l, left, r);
    Canonical(l, r);
  }

  /** A non-zero ratio divided by itself is `std::ratio<1>`. */
  lemma DivSelf(p: Scale)
    requires p.num != 0
    ensures Div(p, p) == One
  {
    var r := Div(p, p);
    SignMul(p.den, p.num);
    assert r.num * (p.den * p.num) == r.den * (p.den * p.num);
    MulCancel(r.num, r.den, p.den * p.num);
    Canonical(r, One);
  }

  /** Multiplying back by the divisor undoes `Div`. */
  lemma DivThenMul(p: Scale, q: Scale)
    requires q.num != 0
    ensures Mul(Div(p, q), q) == p
  {
    var d := Div(p, q);
    var m := Mul(d, q);
    var m1 := Ratio(d.num * q.num, d.den * q.den);
    var raw := Ratio((p.num * q.den) * q.num, (p.den * q.num) * q.den);
    MulStrictMonotone(0, d.den, q.den);
    SameValueProduct(d, Ratio(p.num * q.den, p.den * q.num), q, q);
    SameValueTrans(m, m1, raw);
    SignMul(p.den, q.num);
    SignMul(p.den * q.num, q.den);
    assert SameValue(raw, p) by {
      Rearrange(p.num, q.den, q.num, p.den);
    }
    SameValueTrans(m, raw, p);
    Canonical(m, p);
  }

  /** Dividing by the factor undoes `Mul`. */
  lemma MulThenDiv(p: Scale, q: Scale)
    requires q.num != 0
    ensures Div(Mul(p, q), q) == p
  {
    var m := Mul(p, q);
    var d := Div(m, q);
    var d1 := Ratio(m.num * q.den, m.den * q.num);
    var raw := Ratio((p.num * q.num) * q.den, (p.den * q.den) * q.num);
    SignMul(m.den, q.num);
    SameValueProduct(m, Ratio(p.num * q.num, p.den * q.den), Ratio(q.den, q.num), Ratio(q.den, q.num));
    SameValueTrans(d, d1, raw);
    MulStrictMonotone(0, p.den, q.den);
    SignMul(p.den * q.den, q.num);
    assert SameValue(raw, p) by {
      Rearrange(p.num, q.num, q.den, p.den);
    }
    SameValueTrans(d, raw, p);
    Canonical(d, p);
  }
}
