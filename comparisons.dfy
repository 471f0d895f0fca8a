/**
  The six comparison operators of `phy::Qty`, defined for two quantities of
  the same unit whose scales may differ.

  The algorithm the operators follow casts both operands to `std::ratio<1>`
  and compares the resulting integers. Because that cast truncates, it cannot
  tell apart quantities that differ by less than one base unit, so it holds
  `1 m == 1001 mm`, although 1 metre is not 1001 millimetres. That reading is
  kept as the `ViaBase` predicates; the operators used everywhere else
  compare the exact magnitudes, which gives `5 m == 500 cm` and
  `1 m != 1001 mm`. The two agree whenever both scales are whole numbers of
  base units.
 */
module Comparisons {
  import opened Arith
  import Dimension
  import Rational
  import opened Quantities

  /** The value of `q` cast to `std::ratio<1>`: its magnitude truncated toward zero. */
  function BaseValue(q: Quantity): (base: int)
    ensures IsTruncQuotient(base, Magnitude(q).num, Magnitude(q).den)
  {
    Cast(q, q.unit, Rational.One).value
  }

  /** `==` as written: both sides cast to `std::ratio<1>`, then compared; exact equality implies it. */
  function EqViaBase(a: Quantity, b: Quantity): (same: bool)
    requires a.unit == b.unit
    ensures Eq(a, b) ==> same
  {
    EqualBaseValues(a, b);
    BaseValue(a) == BaseValue(b)
  }

  /** Equal magnitudes truncate to the same whole number of base units. */
  lemma EqualBaseValues(a: Quantity, b: Quantity)
    requires a.unit == b.unit
    ensures Eq(a, b) ==> BaseValue(a) == BaseValue(b)
  {
    if Eq(a, b) { EqCastsEqual(a, b, Rational.One); }
  }

  /** Truncation never reverses order, so distinct base values come from a strict `<`. */
  lemma OrderedBaseValues(a: Quantity, b: Quantity)
    requires a.unit == b.unit
    ensures BaseValue(a) < BaseValue(b) ==> Lt(a, b)
  {
    if Eq(a, b) {
      EqCastsEqual(a, b, Rational.One);
    } else if Lt(b, a) {
      LtCastsOrdered(b, a, Rational.One);
    }
  }

  /** `!=` as written: the negation of `EqViaBase`. */
  predicate NeViaBase(a: Quantity, b: Quantity)
    requires a.unit == b.unit
  {
    !EqViaBase(a, b)
  }

  /** `<` as written: both sides cast to `std::ratio<1>`, then compared; it implies exact `<`. */
  function LtViaBase(a: Quantity, b: Quantity): (less: bool)
    requires a.unit == b.unit
    ensures less ==> Lt(a, b)
  {
    OrderedBaseValues(a, b);
    BaseValue(a) < BaseValue(b)
  }

  /** `>` as written: `LtViaBase` with the operands swapped. */
  predicate GtViaBase(a: Quantity, b: Quantity)
    requires a.unit == b.unit
  {
    LtViaBase(b, a)
  }

  /** `<=` as written: `a < b || a == b` on the `std::ratio<1>` casts. */
  predicate LeViaBase(a: Quantity, b: Quantity)
    requires a.unit == b.unit
  {
    LtViaBase(a, b) || EqViaBase(a, b)
  }

  /** `>=` as written: `a > b || a == b` on the `std::ratio<1>` casts. */
  predicate GeViaBase(a: Quantity, b: Quantity)
    requires a.unit == b.unit
  {
    GtViaBase(a, b) || EqViaBase(a, b)
  }

  /** At one scale, magnitudes compare as the values do (a positive scale keeps the order). */
  lemma SameScale(x: int, y: int, n: int, d: int)
    requires n != 0 && 0 < d
    ensures (x * n) * d == (y * n) * d <==> x == y
    ensures 0 < n ==> ((x * n) * d < (y * n) * d <==> x < y)
  {
    var k := n * d;
    Associative(x, n, d);
    Associative(y, n, d);
    if (x * n) * d == (y * n) * d { MulCancel(x, y, k); }
    if 0 < n {
      MulStrictMonotone(0, n, d);
      if x < y { MulStrictMonotone(x, y, k); }
      if y <= x { MulMonotone(y, x, k); }
    }
  }

  /** `SameScale` for two quantities: at one scale the magnitudes compare as the values. */
  lemma SameScaleMagnitudes(a: Quantity, b: Quantity)
    ensures a.scale == b.scale && a.scale.num != 0 ==>
      (Magnitude(a).num * Magnitude(b).den == Magnitude(b).num * Magnitude(a).den <==> a.value == b.value)
    ensures a.scale == b.scale && a.scale.num > 0 ==>
      (Magnitude(a).num * Magnitude(b).den < Magnitude(b).num * Magnitude(a).den <==> a.value < b.value)
  {
    if a.scale == b.scale && a.scale.num != 0 {
      SameScale(a.value, b.value, a.scale.num, a.scale.den);
    }
  }

  /** `operator==`: the two quantities have the same magnitude; at one non-zero scale, the same value. */
  function Eq(a: Quantity, b: Quantity): (equal: bool)
    requires a.unit == b.unit
    ensures a.scale == b.scale && a.scale.num != 0 ==> (equal <==> a.value == b.value)
  {
    SameScaleMagnitudes(a, b);
    Rational.SameValue(Magnitude(a), Magnitude(b))
  }

  /** `operator!=`: the negation of `==`; at one non-zero scale, the values differ. */
  function Ne(a: Quantity, b: Quantity): (differ: bool)
    requires a.unit == b.unit
    ensures a.scale == b.scale && a.scale.num != 0 ==> (differ <==> a.value != b.value)
  {
    !Eq(a, b)
  }

  /** `operator<`: the magnitude of `a` is smaller; at one positive scale, the value is. */
  function Lt(a: Quantity, b: Quantity): (less: bool)
    requires a.unit == b.unit
    ensures a.scale == b.scale && a.scale.num > 0 ==> (less <==> a.value < b.value)
  {
    SameScaleMagnitudes(a, b);
    Magnitude(a).num * Magnitude(b).den < Magnitude(b).num * Magnitude(a).den
  }

  /** `operator>`: the magnitude of `a` is larger; it is `<` with the operands swapped. */
  function Gt(a: Quantity, b: Quantity): (greater: bool)
    requires a.unit == b.unit
    ensures greater <==> Lt(b, a)
  {
    Magnitude(a).num * Magnitude(b).den > Magnitude(b).num * Magnitude(a).den
  }

  /** `operator<=`, written as `a < b || a == b`: exactly when `a > b` fails. */
  function Le(a: Quantity, b: Quantity): (atMost: bool)
    requires a.unit == b.unit
    ensures atMost <==> !Gt(a, b)
  {
    Lt(a, b) || Eq(a, b)
  }

  /** `operator>=`, written as `a > b || a == b`: exactly when `a < b` fails. */
  function Ge(a: Quantity, b: Quantity): (atLeast: bool)
    requires a.unit == b.unit
    ensures atLeast <==> !Lt(a, b)
  {
    Gt(a, b) || Eq(a, b)
  }

  /** `==` is an equivalence relation across any scales of one unit. */
  lemma EqEquivalence(a: Quantity, b: Quantity, c: Quantity)
    requires a.unit == b.unit == c.unit
    ensures Eq(a, a)
    ensures Eq(a, b) <==> Eq(b, a)
    ensures Eq(a, b) && Eq(b, c) ==> Eq(a, c)
  {
    if Eq(a, b) && Eq(b, c) {
      Rational.SameValueTrans(Magnitude(a), Magnitude(b), Magnitude(c));
    }
  }

  lemma LessTrans(x: int, xd: int, y: int, yd: int, z: int, zd: int)
    requires 0 < xd && 0 < yd && 0 < zd
    requires x * yd < y * xd && y * zd < z * yd
    ensures x * zd < z * xd
  {
    MulStrictMonotone(x * yd, y * xd, zd);
    MulStrictMonotone(y * zd, z * yd, xd);
    assert x * yd * zd == (x * zd) * yd;
    assert y * xd * zd == y * zd * xd;
    assert z * yd * xd == (z * xd) * yd;
    if z * xd <= x * zd {
      MulMonotone(z * xd, x * zd, yd);
    }
  }

  /** `<` is a strict total order: irreflexive, transitive, and exactly one of `<`, `==`, `>` holds. */
  lemma LtStrictTotalOrder(a: Quantity, b: Quantity, c: Quantity)
    requires a.unit == b.unit == c.unit
    ensures !Lt(a, a)
    ensures Lt(a, b) && Lt(b, c) ==> Lt(a, c)
    ensures Lt(a, b) || Eq(a, b) || Gt(a, b)
    ensures !(Lt(a, b) && Eq(a, b)) && !(Lt(a, b) && Gt(a, b)) && !(Eq(a, b) && Gt(a, b))
  {
    if Lt(a, b) && Lt(b, c) {
      var ma, mb, mc := Magnitude(a), Magnitude(b), Magnitude(c);
      LessTrans(ma.num, ma.den, mb.num, mb.den, mc.num, mc.den);
    }
  }

  /** `<=` is a total order up to `==`: antisymmetric, total, and `>=` is `<=` swapped. */
  lemma DerivedComparisons(a: Quantity, b: Quantity)
    requires a.unit == b.unit
    ensures Le(a, b) && Le(b, a) <==> Eq(a, b)
    ensures Le(a, b) || Le(b, a)
    ensures Ge(a, b) <==> Le(b, a)
  {
  }

  /** Equal quantities stay equal under any cast. */
  lemma EqCastsEqual(a: Quantity, b: Quantity, target: Rational.Scale)
    requires a.unit == b.unit && target.num != 0
    requires Eq(a, b)
    ensures Cast(a, a.unit, target).value == Cast(b, b.unit, target).value
  {
    var an, ad, bn, bd := a.value * a.scale.num, a.scale.den, b.value * b.scale.num, b.scale.den;
    SignMul(ad, target.num);
    SignMul(bd, target.num);
    CrossScaled(an, ad, bn, bd, target.num, target.den);
    TruncDivSameRatio(an * target.den, ad * target.num, bn * target.den, bd * target.num);
  }

  lemma CrossScaled(an: int, ad: int, bn: int, bd: int, tn: int, td: int)
    requires an * bd == bn * ad
    ensures (an * td) * (bd * tn) == (bn * td) * (ad * tn)
  {
    calc {
      (an * td) * (bd * tn);
      (an * bd) * (td * tn);
      (bn * ad) * (td * tn);
      (bn * td) * (ad * tn);
    }
  }

  /** A truncating cast to a positive scale never reverses `<` (it may merge the two sides). */
  lemma LtCastsOrdered(a: Quantity, b: Quantity, target: Rational.Scale)
    requires a.unit == b.unit && target.num > 0
    requires Lt(a, b)
    ensures Cast(a, a.unit, target).value <= Cast(b, b.unit, target).value
  {
    var an, ad, bn, bd := a.value * a.scale.num, a.scale.den, b.value * b.scale.num, b.scale.den;
    var tn, td := target.num, target.den;
    MulStrictMonotone(0, ad, tn);
    MulStrictMonotone(0, bd, tn);
    TruncDivScale(an * td, ad * tn, bd);
    TruncDivScale(bn * td, bd * tn, ad);
    CommonDenominator(an, ad, bn, bd, tn, td);
    MulStrictMonotone(0, ad * tn, bd);
    TruncDivMonotone(an * td * bd, bn * td * ad, ad * tn * bd);
  }

  lemma CommonDenominator(an: int, ad: int, bn: int, bd: int, tn: int, td: int)
    requires an * bd < bn * ad && 0 < td
    ensures (bd * tn) * ad == (ad * tn) * bd
    ensures an * td * bd <= bn * td * ad
  {
    assert an * td * bd == (an * bd) * td;
    assert bn * td * ad == (bn * ad) * td;
    MulMonotone(an * bd, bn * ad, td);
  }

  /**
    When both scales are whole numbers of base units the `std::ratio<1>`
    cast is exact, and the as-written comparisons coincide with the exact ones.
   */
  lemma ViaBaseAgreesOnWholeScales(a: Quantity, b: Quantity)
    requires a.unit == b.unit && a.scale.den == 1 && b.scale.den == 1
    ensures EqViaBase(a, b) <==> Eq(a, b)
    ensures LtViaBase(a, b) <==> Lt(a, b)
  {
    TruncDivExact(a.value * a.scale.num, 1);
    TruncDivExact(b.value * b.scale.num, 1);
    assert BaseValue(a) == a.value * a.scale.num;
    assert BaseValue(b) == b.value * b.scale.num;
  }

  /**
    The as-written comparisons cannot tell 1 m from 1001 mm, nor 1000 mm from
    1001 mm: all three truncate to one whole metre.
   */
  lemma ViaBaseEqualsDistinctLengths()
    ensures EqViaBase(Quantity(Dimension.Metre, Rational.One, 1), Quantity(Dimension.Metre, Rational.Milli, 1001))
    ensures !NeViaBase(Quantity(Dimension.Metre, Rational.One, 1), Quantity(Dimension.Metre, Rational.Milli, 1001))
    ensures GeViaBase(Quantity(Dimension.Metre, Rational.One, 1), Quantity(Dimension.Metre, Rational.Milli, 1001))
    ensures !LtViaBase(Quantity(Dimension.Metre, Rational.Milli, 1000), Quantity(Dimension.Metre, Rational.Milli, 1001))
    ensures !GtViaBase(Quantity(Dimension.Metre, Rational.Milli, 1001), Quantity(Dimension.Metre, Rational.Milli, 1000))
    ensures LeViaBase(Quantity(Dimension.Metre, Rational.Milli, 1001), Quantity(Dimension.Metre, Rational.Milli, 1000))
  {
  }

  /** Exact comparison tells them apart: `5 m == 500 cm`, yet `1 m != 1001 mm` and `1000 mm < 1001 mm`. */
  lemma ExactComparisons()
    ensures Eq(Quantity(Dimension.Metre, Rational.One, 5), Quantity(Dimension.Metre, Rational.Centi, 500))
    ensures Ne(Quantity(Dimension.Metre, Rational.One, 1), Quantity(Dimension.Metre, Rational.Milli, 1001))
    ensures !Ge(Quantity(Dimension.Metre, Rational.One, 1), Quantity(Dimension.Metre, Rational.Milli, 1001))
    ensures Lt(Quantity(Dimension.Metre, Rational.Milli, 1000), Quantity(Dimension.Metre, Rational.Milli, 1001))
    ensures Gt(Quantity(Dimension.Metre, Rational.Milli, 1001), Quantity(Dimension.Metre, Rational.Milli, 1000))
    ensures !Le(Quantity(Dimension.Metre, Rational.Milli, 1001), Quantity(Dimension.Metre, Rational.Milli, 1000))
  {
  }
}
