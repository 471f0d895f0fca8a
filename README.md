# Dimensioned quantities (`phy::Unit`, `phy::Qty`) in Dafny

A model of the core of a C++ physical-quantity library (`Units.h`). A quantity
is an `intmax_t` value tagged with a *unit*, a vector of seven signed
exponents over the SI base units (metre, kilogram, second, ampere, kelvin,
mole, candela), and a *scale*, a `std::ratio` saying how many base units one
step of the value is worth. The library lets quantities of one unit but
different scales be compared and added (the scales are reconciled by a
truncating cast), and lets any two quantities be multiplied or divided (the
units and scales combine).

`Units.h` declares the operators but gives no bodies. The model gives each
one the behaviour of the library's algorithm: a cast divides by the ratio of
the scales with truncation toward zero, `+=`/`-=` cast the right operand into
the left one's scale, and `*`/`/` add/subtract unit exponents and
multiply/divide the scales and the values. The six comparison operators
(`Comparisons.Eq` ... `Comparisons.Ge`) compare exact magnitudes. The
algorithm's own reading of them, which casts both operands to
`std::ratio<1>` and compares the integers, is kept as the `ViaBase`
predicates; it cannot tell 1 m from 1001 mm (see "## Findings").

Files (one module each):

- `arith.dfy` (`Arith`): C++'s truncating integer division `TruncDiv`, pinned
  down by its sign and magnitude and proved unique; Euclid's `Gcd`, with
  Bezout's identity.
- `dimension.dfy` (`Dimension`): the `Unit` exponent vector, `Mul`/`Div`.
- `rational.dfy` (`Rational`): `std::ratio` as a reduced `Ratio`
  (`Scale` is the subset in normal form), `Reduce`, `Mul`, `Div`, and the
  proof that the normal form is canonical.
- `quantities.dfy` (`Quantities`): the `Quantity` value, `Cast`
  (`qtyCast`), and the class `Qty` whose `value` `+=`/`-=` update in place.
- `comparisons.dfy` (`Comparisons`): the six comparisons.
- `arithmetic.dfy` (`Arithmetic`): binary `+ - * /`.
- `examples.dfy` (`Examples`): concrete outcomes proved from the definitions.

C++ rejects a unit mismatch (for `==`, `+`, `+=`, casts, ...) or a division by
a zero `std::ratio` at compile time; these are `requires` clauses here. A zero
divisor *value* is a run-time domain error, returned as `DomainError`.
Integers are unbounded.

## Model

| member | source | states |
|---|---|---|
| `Dimension.SameUnit` | Units.h:12-21 | two units are the same exactly when all seven exponents match |
| `Dimension.MetreExponents` | testUnits.cc:7-15 | `Metre` has metre exponent 1 and the six other exponents 0 |
| `Dimension.Mul` | Units.h:127-128 | the unit of a product: a dimensionless factor on either side leaves the other unit unchanged |
| `Dimension.Div` | Units.h:130-131 | the unit of a quotient undoes `Mul`: `Mul(Div(u, v), v) == u` |
| `Dimension.MulGroup` | Units.h:127-131 | units under `Mul` are commutative and associative, and `Div` undoes `Mul`; a unit divided by itself is `Dimensionless` |
| `Dimension.MetrePerSecondIsSpeed` | Units.h:127-128 | metre times second^-1 is the speed unit |
| `Arith.Gcd` | Units.h:47 | Euclid's greatest common divisor, by which `std::ratio` reduces; it is zero exactly when both arguments are |
| `Rational.Reduce` | Units.h:47 | the normal form of `n/d` is reduced with a positive denominator and denotes the same rational |
| `Rational.Canonical` | Units.h:47 | two reduced ratios denoting the same rational are identical |
| `Rational.ReduceIdempotent` | Units.h:47 | normalising a ratio already in normal form gives it back |
| `Rational.Mul` | Units.h:127-128 | `ratio_multiply` denotes the product of the two ratios |
| `Rational.Div` | Units.h:130-131 | `ratio_divide` denotes the quotient; a zero divisor is excluded |
| `Rational.MulOne` | Units.h:47 | `std::ratio<1>` is the identity of ratio multiplication |
| `Rational.MulCommutative` | Units.h:127-128 | ratio multiplication commutes |
| `Rational.MulAssociative` | Units.h:127-128 | ratio multiplication is associative |
| `Rational.DivSelf` | Units.h:130-131 | a non-zero ratio divided by itself is `std::ratio<1>` |
| `Rational.DivThenMul` | Units.h:127-131 | `(p / q) * q == p` |
| `Rational.MulThenDiv` | Units.h:127-131 | `(p * q) / q == p` |
| `Arith.TruncDiv` | Units.h:130-131 | C++ `/` on `intmax_t`: the magnitude is the whole number of divisors in the dividend, a non-zero result has the sign of the exact quotient |
| `Arith.TruncQuotientUnique` | Units.h:130-131 | truncating division is the only function with that sign-and-magnitude property |
| `Quantities.Magnitude` | Units.h:44-52 | the base-unit magnitude `value * num / den` has a positive denominator |
| `Quantities.Cast` | Units.h:137-138 | `qtyCast` keeps the unit, takes the target scale, and its value is the truncation toward zero of `value * Rsrc / Rdst` |
| `Quantities.CastIdentity` | Units.h:137-138 | casting to the same unit and scale is the identity |
| `Quantities.CastThroughFiner` | Units.h:137-138 | a cast to a scale dividing the source evenly multiplies by the whole factor and loses nothing for any later cast |
| `Quantities.CastRoundTrip` | Units.h:137-138 | metres to millimetres and back (any evenly dividing target and back) recovers the value |
| `Quantities.Qty.Zero` | Units.h:54 | `Qty()` has value 0; without a ratio the scale is `std::ratio<1>` |
| `Quantities.Qty.constructor` | Units.h:55 | `Qty(v)` stores exactly `v`; without a ratio the scale is `std::ratio<1>` |
| `Quantities.Qty.AddAssign` | Units.h:57-58 | `+=` keeps unit and scale and adds the other operand truncated into this scale |
| `Quantities.Qty.SubAssign` | Units.h:60-61 | `-=` keeps unit and scale and subtracts the other operand truncated into this scale |
| `Comparisons.Eq` | Units.h:99-100 | `operator==`: equal magnitudes; at one non-zero scale, exactly when the values are equal |
| `Comparisons.Ne` | Units.h:102-103 | `operator!=`: at one non-zero scale, exactly when the values differ |
| `Comparisons.Lt` | Units.h:105-106 | `operator<`: smaller magnitude; at one positive scale, exactly when the value is smaller |
| `Comparisons.Le` | Units.h:108-109 | `operator<=`, written `a < b \|\| a == b`, holds exactly when `a > b` fails |
| `Comparisons.Gt` | Units.h:111-112 | `operator>` holds exactly when `b < a` |
| `Comparisons.Ge` | Units.h:114-115 | `operator>=`, written `a > b \|\| a == b`, holds exactly when `a < b` fails |
| `Comparisons.BaseValue` | Units.h:99-115 | the `std::ratio<1>` cast the as-written comparisons use: the magnitude truncated toward zero |
| `Comparisons.EqViaBase` | Units.h:99-100 | as-written `==` on the `std::ratio<1>` casts: it holds whenever the exact `==` does |
| `Comparisons.LtViaBase` | Units.h:105-106 | as-written `<` on the `std::ratio<1>` casts: it implies the exact `<` |
| `Comparisons.NeViaBase` | Units.h:102-103 | as-written `!=` on the `std::ratio<1>` casts; `ViaBaseEqualsDistinctLengths` shows it refutes `1 m != 1001 mm` |
| `Comparisons.GtViaBase` | Units.h:111-112 | as-written `>` on the `std::ratio<1>` casts; `ViaBaseEqualsDistinctLengths` shows it refutes `1001 mm > 1000 mm` |
| `Comparisons.LeViaBase` | Units.h:108-109 | as-written `<=`, written `a < b \|\| a == b` on the `std::ratio<1>` casts; `ViaBaseEqualsDistinctLengths` shows it holds `1001 mm <= 1000 mm` |
| `Comparisons.GeViaBase` | Units.h:114-115 | as-written `>=`, written `a > b \|\| a == b` on the `std::ratio<1>` casts; `ViaBaseEqualsDistinctLengths` shows it holds `1 m >= 1001 mm` |
| `Comparisons.EqEquivalence` | Units.h:99-100 | `==` is reflexive, symmetric and transitive across scales |
| `Comparisons.LtStrictTotalOrder` | Units.h:105-106 | `<` is irreflexive and transitive, and exactly one of `<`, `==`, `>` holds |
| `Comparisons.DerivedComparisons` | Units.h:108-115 | `<=` both ways is `==`, one of `a <= b` and `b <= a` always holds, and `>=` is `<=` swapped |
| `Comparisons.EqCastsEqual` | Units.h:99-100 | equal quantities have equal casts to any scale |
| `Comparisons.LtCastsOrdered` | Units.h:105-106 | a cast to a positive scale never reverses `<` |
| `Comparisons.ViaBaseAgreesOnWholeScales` | Units.h:99-106 | with whole-number scales, cast-to-`std::ratio<1>` comparison and exact comparison agree |
| `Comparisons.ViaBaseEqualsDistinctLengths` | Units.h:99-115 | the as-written operators hold `1 m == 1001 mm`, `1 m >= 1001 mm` and `1001 mm <= 1000 mm`, and refute `1 m != 1001 mm`, `1000 mm < 1001 mm` and `1001 mm > 1000 mm` |
| `Comparisons.ExactComparisons` | Units.h:99-115 | the exact operators give `5 m == 500 cm`, `1 m != 1001 mm`, `1000 mm < 1001 mm`, `1001 mm > 1000 mm`, and refute `1 m >= 1001 mm` and `1001 mm <= 1000 mm` |
| `Arithmetic.Add` | Units.h:121-122 | binary `+` keeps the unit and the left operand's scale |
| `Arithmetic.Sub` | Units.h:124-125 | binary `-` keeps the unit and the left operand's scale |
| `Arithmetic.Plus` | Units.h:121-122 | a copy of the left operand followed by `+=` yields exactly `Add` |
| `Arithmetic.Minus` | Units.h:124-125 | a copy of the left operand followed by `-=` yields exactly `Sub` |
| `Arithmetic.SameScaleSums` | Units.h:121-125 | with one scale, `+`/`-` add/subtract the values, unclamped |
| `Arithmetic.AddSubInverse` | Units.h:121-125 | `(a + b) - b == a` and `(a - b) + b == a` |
| `Arithmetic.ExactSums` | Units.h:121-125 | when the right scale is a whole multiple of the left, the magnitude of the sum/difference is the sum/difference of magnitudes |
| `Arithmetic.Mul` | Units.h:127-128 | `*` has unit `Mul(U1, U2)`, scale `ratio_multiply<R1, R2>` (the reduced product of the scales), value `v1 * v2`, and so magnitude the product of the magnitudes |
| `Arithmetic.Div` | Units.h:130-131 | `/` is a domain error exactly for a zero divisor value; otherwise unit `Div(U1, U2)`, scale `R1/R2`, value the truncated quotient |
| `Arithmetic.MulThenDiv` | Units.h:127-131 | `(a * b) / b == a` for a non-zero `b` |
| `Arithmetic.DivThenMul` | Units.h:127-131 | `(a / b) * b == a` when `b`'s value divides `a`'s |
| `Examples.CompoundAssignments` | Units.h:54-61 | `Qty()` is 0; `5 m += 5 m` is 10 m, `5 m += 5 mm` stays 5 m, `5 mm += 1 m` is 1005 mm, `5 m -= 15 m` is -10 m |
| `Examples.SpeedFromProduct` | Units.h:127-128 | 6 m times 2 s^-1 is 12 in the speed unit |
| `Examples.Division` | Units.h:130-131 | -7 m / 2 is -3 m (toward zero); dividing by a zero value is a domain error |

## Left out

- `intmax_t` width: values and ratio terms are unbounded integers, so overflow (undefined in C++) and `std::ratio`'s compile-time overflow errors are not modelled.
- The named unit and quantity aliases (Units.h:27-42, 69-93) have no definition in the header; only `Metre`, `Hertz`, `Speed`, `Dimensionless` and `Examples.Length` are defined, as the test and the examples need them.
- The user-defined literals (Units.h:146-152) are constructor sugar and are not modelled; `_celsius` (Units.h:153) is an affine conversion with an unspecified return type and is not modelled.
- `+=` and `-=` return `Qty&` for chaining; the methods return nothing.
- The result scale of binary `+` and `-` is left open by the header; the model takes the left operand's scale, as a copy followed by `+=`/`-=` gives.
- The gtest scaffolding and `main` in testUnits.cc:18-21 are test-runner I/O.

## Findings

| source | as written | input that shows it | evidently intended | confidence | as-written member | corrected member |
|---|---|---|---|---|---|---|
| Units.h:99-106 | the comparisons cast both operands to `std::ratio<1>` with truncation, then compare the integers | `Qty<Metre>(1) == Qty<Metre, std::milli>(1001)`: 1001 mm casts to 1 m, so `==` holds (and `1000 mm < 1001 mm` fails) | compare exact magnitudes, so that `1 m != 1001 mm` | not executed; the header has no operator bodies, so the row rests on the cast-then-compare algorithm | `Comparisons.EqViaBase` and the other five `ViaBase` operators, shown by `Comparisons.ViaBaseEqualsDistinctLengths` | `Comparisons.Eq` and the other five exact operators, proved by `Comparisons.ExactComparisons`, `Comparisons.EqEquivalence` and `Comparisons.LtStrictTotalOrder` |
