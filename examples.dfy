/**
  Worked uses of the quantity model: concrete outcomes of construction,
  compound assignment, multiplication and division, proved from the
  definitions.
 */
module Examples {
  import Arith
  import Dimension
  import Rational
  import opened Quantities
  import Arithmetic

  /** `Length(v)`: a quantity of metres at the default scale. */
  function Length(v: int): (q: Quantity) {
    Quantity(Dimension.Metre, Rational.One, v)
  }

  /**
    Construction and compound assignment on `Qty` objects: `Qty()` is 0 m,
    `5 m += 5 m` is 10 m, `5 m += 5 mm` stays 5 m, `5 mm += 1 m` is 1005 mm,
    and `5 m -= 15 m` is -10 m.
   */
  method CompoundAssignments() returns (initial: int, sum: int, coarseSum: int, fineSum: int, difference: int)
    ensures initial == 0
    ensures sum == 10 && coarseSum == 5 && fineSum == 1005 && difference == -10
  {
    var zero := new Qty.Zero(Dimension.Metre);
    assert zero.value == 0 && zero.scale == Rational.One;

    var five := new Qty(Dimension.Metre, 5);
    assert five.value == 5 && five.scale == Rational.One;

    // Length(5) += Length(5) gives 10.
    five.AddAssign(Length(5));
    assert five.value == 10;

    // Length(5) += 5 mm gives 5: 5 mm truncates to 0 whole metres.
    var coarse := new Qty(Dimension.Metre, 5);
    coarse.AddAssign(Quantity(Dimension.Metre, Rational.Milli, 5));
    assert coarse.value == 5;

    // 5 mm += 1 m gives 1005 mm: the finer destination keeps everything.
    var fine := new Qty(Dimension.Metre, 5, Rational.Milli);
    fine.AddAssign(Length(1));
    assert fine.value == 1005;

    // Length(5) -= Length(15) gives -10: no clamping.
    var less := new Qty(Dimension.Metre, 5);
    less.SubAssign(Length(15));
    assert less.value == -10;

    initial, sum, coarseSum, fineSum, difference := zero.value, five.value, coarse.value, fine.value, less.value;
  }

  /** Metres times one-per-second is a speed, with the product of the values. */
  lemma SpeedFromProduct()
    ensures Arithmetic.Mul(Length(6), Quantity(Dimension.Hertz, Rational.One, 2))
            == Quantity(Dimension.Speed, Rational.One, 12)
  {
    var hz := Quantity(Dimension.Hertz, Rational.One, 2);
    var r := Arithmetic.Mul(Length(6), hz);
    assert r.unit == Dimension.Mul(Dimension.Metre, Dimension.Hertz);
    assert r.scale == Rational.Mul(Rational.One, Rational.One);
    assert r.value == 12;
    Dimension.MetrePerSecondIsSpeed();
    Rational.MulOne(Rational.One);
  }

  /** Division truncates toward zero, and a zero divisor is a domain error. */
  lemma Division()
    ensures Arithmetic.Div(Length(-7), Quantity(Dimension.Dimensionless, Rational.One, 2)).Ok?
    ensures Arithmetic.Div(Length(-7), Quantity(Dimension.Dimensionless, Rational.One, 2)).quotient.value == -3
    ensures Arithmetic.Div(Length(5), Quantity(Dimension.Hertz, Rational.One, 0)) == Arithmetic.DomainError
  {
    assert Arith.TruncDiv(-7, 2) == -3;
  }
}
