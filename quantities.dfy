/**
  A quantity `phy::Qty<U, R>`: an integer `value` counted in units of the
  scale `R` of the dimension `U`. The magnitude it stands for, in base units
  of `U`, is `value * R::num / R::den`.

  In C++ the dimension and the scale are template arguments and only `value`
  is data. Here a `Quantity` carries all three as a value (the operands that
  the by-value operators receive), and the class `Qty` is the object whose
  `value` the compound assignments update in place while its dimension and
  scale stay fixed.
 */
module Quantities {
  import opened Arith
  import Dimension
  import Rational

  datatype Quantity = Quantity(unit: Dimension.Unit, scale: Rational.Scale, value: int)

  /** The exact magnitude of `q` in base units, as a ratio with positive denominator. */
  function Magnitude(q: Quantity): (m: Rational.Ratio)
    ensures m.den > 0
  {
    Rational.Ratio(q.value * q.scale.num, q.scale.den)
  }

  /**
    `qtyCast<Qty<unit, target>>(q)`: the ratio `q.scale / target` is reduced
    as `std::ratio_divide` does, and the value is multiplied by its numerator
    and divided by its denominator with C++'s truncating division. The
    result is the integer part (rounded toward zero) of `q`'s magnitude
    measured in units of `target`.
   */
  function Cast(q: Quantity, unit: Dimension.Unit, target: Rational.Scale): (r: Quantity)
    requires unit == q.unit && target.num != 0
    ensures r.unit == q.unit && r.scale == target
    ensures r.value == TruncDiv(q.value * q.scale.num * target.den, q.scale.den * target.num)
  {
    var conv := Rational.Div(q.scale, target);
    SignMul(q.scale.den, target.num);
    ScaledQuotient(q.value, conv.num, conv.den, q.scale.num * target.den, q.scale.den * target.num);
    Associative(q.value, q.scale.num, target.den);
    Quantity(unit, target, TruncDiv(q.value * conv.num, conv.den))
  }

  /** `v * n / d` truncates like `v * n' / d'` when `n / d` and `n' / d'` are the same ratio. */
  lemma ScaledQuotient(v: int, n: int, d: int, n': int, d': int)
    requires d != 0 && d' != 0 && n * d' == n' * d
    ensures TruncDiv(v * n, d) == TruncDiv(v * n', d')
  {
    assert (v * n) * d' == v * (n * d');
    assert (v * n') * d == v * (n' * d);
    TruncDivSameRatio(v * n, d, v * n', d');
  }

  /** Casting to the scale a quantity already has changes nothing. */
  lemma CastIdentity(q: Quantity)
    requires q.scale.num != 0
    ensures Cast(q, q.unit, q.scale) == q
  {
    Associative(q.value, q.scale.num, q.scale.den);
    assert q.scale.num * q.scale.den == q.scale.den * q.scale.num;
    SignMul(q.scale.den, q.scale.num);
    TruncDivExact(q.value, q.scale.den * q.scale.num);
  }

  /**
    When `target` divides `q`'s scale evenly (metres to millimetres, say) the
    cast loses nothing: the value is multiplied by the whole factor, and a
    further cast from there equals a direct cast from `q`.
   */
  lemma {:induction false} CastThroughFiner(q: Quantity, target: Rational.Scale, final: Rational.Scale)
    requires target.num != 0 && final.num != 0
    requires Rational.Div(q.scale, target).den == 1
    ensures Cast(q, q.unit, target).value == q.value * Rational.Div(q.scale, target).num
    ensures Cast(Cast(q, q.unit, target), q.unit, final) == Cast(q, q.unit, final)
  {
    var s, v := q.scale, q.value;
    var k := Rational.Div(s, target).num;
    // k * (s.den * target.num) == s.num * target.den
    SignMul(s.den, target.num);
    ExactFactor(v, k, s.num, s.den, target.num, target.den);
    TruncDivExact(v * k, s.den * target.num);
    var w := v * k;
    SignMul(target.den, final.num);
    SignMul(s.den, final.num);
    ChainedCast(v, k, s.num, s.den, target.num, target.den, final.num, final.den);
    TruncDivSameRatio(w * target.num * final.den, target.den * final.num,
                      v * s.num * final.den, s.den * final.num);
  }

  lemma ExactFactor(v: int, k: int, sn: int, sd: int, tn: int, td: int)
    requires k * (sd * tn) == sn * td * 1
    ensures v * sn * td == (v * k) * (sd * tn)
  {
    assert v * sn * td == v * (sn * td);
    assert (v * k) * (sd * tn) == v * (k * (sd * tn));
  }

  lemma ChainedCast(v: int, k: int, sn: int, sd: int, tn: int, td: int, fn: int, fd: int)
    requires k * (sd * tn) == sn * td * 1
    ensures (v * k) * tn * fd * (sd * fn) == v * sn * fd * (td * fn)
  {
    calc {
      (v * k) * tn * fd * (sd * fn);
      v * (k * (sd * tn)) * (fd * fn);
      v * (sn * td) * (fd * fn);
      v * sn * fd * (td * fn);
    }
  }

  /** Casting to a scale that divides the original evenly and back recovers the original value. */
  lemma CastRoundTrip(q: Quantity, target: Rational.Scale)
    requires target.num != 0 && q.scale.num != 0
    requires Rational.Div(q.scale, target).den == 1
    ensures Cast(Cast(q, q.unit, target), q.unit, q.scale) == q
  {
    CastThroughFiner(q, target, q.scale);
    CastIdentity(q);
  }

  /**
    The object form of a quantity. `unit` and `scale` are the template
    arguments `U` and `R`, fixed when the object is made; `value` is the
    `intmax_t` member that the compound assignments change.
   */
  class Qty {
    const unit: Dimension.Unit
    const scale: Rational.Scale
    var value: int

    /** The object as a value, as the by-value operators and casts take it. */
    function View(): (q: Quantity)
      reads this
    {
      Quantity(unit, scale, value)
    }

    /** `Qty()`: a zero quantity; the scale defaults to `std::ratio<1>`. */
    constructor Zero(unit: Dimension.Unit, scale: Rational.Scale := Rational.One)
      ensures this.unit == unit && this.scale == scale && value == 0
    {
      this.unit := unit;
      this.scale := scale;
      value := 0;
    }

    /** `Qty(v)`: stores `v` as is; the scale defaults to `std::ratio<1>`. */
    constructor (unit: Dimension.Unit, v: int, scale: Rational.Scale := Rational.One)
      ensures this.unit == unit && this.scale == scale && value == v
    {
      this.unit := unit;
      this.scale := scale;
      value := v;
    }

    /**
      `operator+=`: the other operand is rescaled into this object's scale
      (truncating toward zero) and added; this object's scale never changes.
     */
    method AddAssign(other: Quantity)
      requires other.unit == unit && scale.num != 0
      modifies this
      ensures value == old(value) + Cast(other, unit, scale).value
    {
      var ratio := Rational.Div(other.scale, scale);
      value := value + TruncDiv(other.value * ratio.num, ratio.den);
    }

    /** `operator-=`: the mirror image of `AddAssign`; the result is not clamped. */
    method SubAssign(other: Quantity)
      requires other.unit == unit && scale.num != 0
      modifies this
      ensures value == old(value) - Cast(other, unit, scale).value
    {
      var ratio := Rational.Div(other.scale, scale);
      value := value - TruncDiv(other.value * ratio.num, ratio.den);
    }
  }
}
