/**
  The arithmetic operators of `phy::Qty`.

  Binary `+` and `-` need operands of one unit; their result takes the left
  operand's scale and is computed as a copy of the left operand followed by
  `+=` or `-=`, so the right operand is truncated into that scale first.
  `*` and `/` accept any units and scales: exponents add or subtract, scales
  multiply or divide as `std::ratio`s, and values multiply or divide as
  `intmax_t` (division truncating toward zero). A zero divisor is a domain
  error reported to the caller.
 */
module Arithmetic {
  import opened Arith
  import Dimension
  import Rational
  import opened Quantities

  /** Binary `+`: the left operand plus the right one cast into the left's scale. */
  function Add(a: Quantity, b: Quantity): (r: Quantity)
    requires a.unit == b.unit && a.scale.num != 0
    ensures r.unit == a.unit && r.scale == a.scale
  {
    Quantity(a.unit, a.scale, a.value + Cast(b, a.unit, a.scale).value)
  }

  /** Binary `-`: the left operand minus the right one cast into the left's scale. */
  function Sub(a: Quantity, b: Quantity): (r: Quantity)
    requires a.unit == b.unit && a.scale.num != 0
    ensures r.unit == a.unit && r.scale == a.scale
  {
    Quantity(a.unit, a.scale, a.value - Cast(b, a.unit, a.scale).value)
  }

  /** Binary `+` carried out as a copy of the left operand followed by `+=`. */
  method Plus(a: Quantity, b: Quantity) returns (r: Quantity)
    requires a.unit == b.unit && a.scale.num != 0
    ensures r == Add(a, b)
  {
    var sum := new Qty(a.unit, a.value, a.scale);
    sum.AddAssign(b);
    r := sum.View();
  }

  /** Binary `-` carried out as a copy of the left operand followed by `-=`. */
  method Minus(a: Quantity, b: Quantity) returns (r: Quantity)
    requires a.unit == b.unit && a.scale.num != 0
    ensures r == Sub(a, b)
  {
    var difference := new Qty(a.unit, a.value, a.scale);
    difference.SubAssign(b);
    r := difference.View();
  }

  /** With one scale on both sides, `+` and `-` add and subtract the values, without clamping. */
  lemma SameScaleSums(a: Quantity, b: Quantity)
    requires a.unit == b.unit && a.scale == b.scale && a.scale.num != 0
    ensures Add(a, b).value == a.value + b.value
    ensures Sub(a, b).value == a.value - b.value
  {
    CastIdentity(b);
  }

  /** Subtracting what was added (or adding what was subtracted) gives back the left operand. */
  lemma AddSubInverse(a: Quantity, b: Quantity)
    requires a.unit == b.unit && a.scale.num != 0
    ensures Sub(Add(a, b), b) == a
    ensures Add(Sub(a, b), b) == a
  {
  }

  /**
    When the right operand's scale is a whole multiple of the left's (adding
    metres to millimetres) nothing is truncated: the magnitude of the sum
    (difference) is the sum (difference) of the magnitudes.
   */
  lemma ExactSums(a: Quantity, b: Quantity)
    requires a.unit == b.unit && a.scale.num != 0
    requires Rational.Div(b.scale, a.scale).den == 1
    ensures Rational.SameValue(Magnitude(Add(a, b)),
              Rational.Ratio(Magnitude(a).num * Magnitude(b).den + Magnitude(b).num * Magnitude(a).den,
                             Magnitude(a).den * Magnitude(b).den))
    ensures Rational.SameValue(Magnitude(Sub(a, b)),
              Rational.Ratio(Magnitude(a).num * Magnitude(b).den - Magnitude(b).num * Magnitude(a).den,
                             Magnitude(a).den * Magnitude(b).den))
  {
    var k := Rational.Div(b.scale, a.scale).num;
    CastThroughFiner(b, a.scale, a.scale);
    SumMagnitude(a.value, b.value, k, a.scale.num, a.scale.den, b.scale.num, b.scale.den);
  }

  lemma SumMagnitude(av: int, bv: int, k: int, an: int, ad: int, bn: int, bd: int)
    requires k * (bd * an) == bn * ad * 1
    ensures (av + bv * k) * an * (ad * bd) == (av * an * bd + bv * bn * ad) * ad
    ensures (av - bv * k) * an * (ad * bd) == (av * an * bd - bv * bn * ad) * ad
  {
    var x := av * an * (ad * bd);
    var y := bv * k * an * (ad * bd);
    assert y == (bv * ad) * (k * (bd * an));
    assert y == bv * bn * ad * ad;
    assert x == av * an * bd * ad;
    assert (av + bv * k) * an * (ad * bd) == x + y;
    assert (av - bv * k) * an * (ad * bd) == x - y;
  }

  /** Binary `*`: units multiply, scales multiply, values multiply. */
  function Mul(a: Quantity, b: Quantity): (r: Quantity)
    ensures r.unit == Dimension.Mul(a.unit, b.unit)
    ensures Rational.SameValue(r.scale, Rational.Ratio(a.scale.num * b.scale.num, a.scale.den * b.scale.den))
    ensures r.value == a.value * b.value
    ensures Rational.SameValue(Magnitude(r),
              Rational.Ratio(Magnitude(a).num * Magnitude(b).num, Magnitude(a).den * Magnitude(b).den))
  {
    var scale := Rational.Mul(a.scale, b.scale);
    ProductMagnitude(a.value, b.value, a.scale.num, a.scale.den, b.scale.num, b.scale.den,
                     scale.num, scale.den);
    Quantity(Dimension.Mul(a.unit, b.unit), scale, a.value * b.value)
  }

  lemma ProductMagnitude(av: int, bv: int, an: int, ad: int, bn: int, bd: int, rn: int, rd: int)
    requires rn * (ad * bd) == an * bn * rd
    ensures (av * bv) * rn * (ad * bd) == (av * an) * (bv * bn) * rd
  {
    calc {
      (av * bv) * rn * (ad * bd);
      (av * bv) * (rn * (ad * bd));
      (av * bv) * (an * bn * rd);
      (av * an) * (bv * bn) * rd;
    }
  }

  /** The outcome of `/`: a quotient, or the domain error of a zero divisor. */
  datatype DivResult = Ok(quotient: Quantity) | DomainError

  /**
    Binary `/`: units divide, scales divide, and the values divide with
    truncation toward zero. A divisor of value zero is a domain error; a
    divisor whose scale is zero does not compile.
   */
  function Div(a: Quantity, b: Quantity): (r: DivResult)
    requires b.scale.num != 0
    ensures r.DomainError? <==> b.value == 0
    ensures r.Ok? ==> && r.quotient.unit == Dimension.Div(a.unit, b.unit)
                      && Rational.SameValue(r.quotient.scale,
                           Rational.Ratio(a.scale.num * b.scale.den, a.scale.den * b.scale.num))
                      && IsTruncQuotient(r.quotient.value, a.value, b.value)
  {
    if b.value == 0 then DomainError
    else Ok(Quantity(Dimension.Div(a.unit, b.unit), Rational.Div(a.scale, b.scale),
                     TruncDiv(a.value, b.value)))
  }

  /** Dividing a product by one of its factors gives back the other factor. */
  lemma MulThenDiv(a: Quantity, b: Quantity)
    requires b.scale.num != 0 && b.value != 0
    ensures Div(Mul(a, b), b) == Ok(a)
  {
    Dimension.MulGroup(a.unit, b.unit, b.unit);
    Rational.MulThenDiv(a.scale, b.scale);
    TruncDivExact(a.value, b.value);
  }

  /** When the divisor's value divides the dividend's, multiplying the quotient back gives the dividend. */
  lemma DivThenMul(a: Quantity, b: Quantity)
    requires b.scale.num != 0 && b.value != 0 && a.value % b.value == 0
    ensures Div(a, b).Ok? && Mul(Div(a, b).quotient, b) == a
  {
    Rational.DivThenMul(a.scale, b.scale);
    var k := a.value / b.value;
    assert a.value == k * b.value;
    TruncDivExact(k, b.value);
  }
}
