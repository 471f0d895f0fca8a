/**
  The physical dimension of a quantity: the template `phy::Unit`, a vector of
  seven signed exponents over the SI base units. In C++ a `Unit` is a type, so
  two units are the same type exactly when all seven template arguments agree;
  here a `Unit` is a value and that is structural equality.
 */
module Dimension {

  datatype Unit = Unit(metre: int, kilogram: int, second: int, ampere: int,
                       kelvin: int, mole: int, candela: int)

  /** The unit with every exponent zero (angles, ratios). */
  const Dimensionless := Unit(0, 0, 0, 0, 0, 0, 0)

  /** The base unit of length. */
  const Metre := Unit(1, 0, 0, 0, 0, 0, 0)

  /** The unit of frequency: one per second. */
  const Hertz := Unit(0, 0, -1, 0, 0, 0, 0)

  /** Metres per second. */
  const Speed := Unit(1, 0, -1, 0, 0, 0, 0)

  /** The compile-time test of "same unit": all seven exponents match. */
  function SameUnit(u: Unit, v: Unit): (same: bool)
    ensures same <==> u == v
  {
    && u.metre == v.metre && u.kilogram == v.kilogram && u.second == v.second
    && u.ampere == v.ampere && u.kelvin == v.kelvin && u.mole == v.mole
    && u.candela == v.candela
  }

  /** The unit of a product of quantities: exponents add, so a dimensionless factor leaves the other unit as it is. */
  function Mul(u: Unit, v: Unit): (w: Unit)
    ensures u == Dimensionless ==> w == v
    ensures v == Dimensionless ==> w == u
  {
    Unit(u.metre + v.metre, u.kilogram + v.kilogram, u.second + v.second,
         u.ampere + v.ampere, u.kelvin + v.kelvin, u.mole + v.mole,
         u.candela + v.candela)
  }

  /** The unit of a quotient of quantities: exponents subtract, undoing `Mul`. */
  function Div(u: Unit, v: Unit): (w: Unit)
    ensures Mul(w, v) == u
  {
    Unit(u.metre - v.metre, u.kilogram - v.kilogram, u.second - v.second,
         u.ampere - v.ampere, u.kelvin - v.kelvin, u.mole - v.mole,
         u.candela - v.candela)
  }

  /** Units form an abelian group under `Mul`, with `Div` as inverse. */
  lemma MulGroup(u: Unit, v: Unit, w: Unit)
    ensures Mul(u, v) == Mul(v, u)
    ensures Mul(Mul(u, v), w) == Mul(u, Mul(v, w))
    ensures Div(Mul(u, v), v) == u
    ensures Div(u, u) == Dimensionless
  {
  }

  /** The exponents of `Metre` that the library's test asserts. */
  lemma MetreExponents()
    ensures Metre.metre == 1
    ensures Metre.kilogram == 0 && Metre.second == 0 && Metre.ampere == 0
    ensures Metre.kelvin == 0 && Metre.mole == 0 && Metre.candela == 0
  {
  }

  /** Length over time is speed: metre times one-per-second. */
  lemma MetrePerSecondIsSpeed()
    ensures Mul(Metre, Hertz) == Speed
  {
  }
}
