/** IEEE-754 values as the view selector uses them: only comparisons, equality,
    absolute value and the NaN test matter, so a value is NaN, an infinity or a
    finite real. Rounding and the sign of zero are not modelled. */
module Floats {

  datatype Float = NaN | NegInf | Finite(r: real) | PosInf

  /** FLT_MAX, the largest finite 32-bit float: (2 - 2^-23) * 2^127. */
  const FLT_MAX: real := 340282346638528859811704183484516925440.0

  /** DBL_MAX, the largest finite 64-bit double: (2 - 2^-52) * 2^1023. */
  const DBL_MAX: real := 179769313486231570814527423731704356798070567525844996598917476803157260780028538760589558632766878171540458953514382464234321326889464182768467546703537516986049910576551282076245490090389328944075868508455133942304583236903222948165808559332123348274797826204144723168738177180919299881250404026184124858368.0

  /** `-FLT_MAX`, the sentinel for "no data" pixels and the seed of the depth maximum. */
  const NegFltMax: Float := Finite(-FLT_MAX)

  /** `-DBL_MAX`, the seed of the running best score. */
  const NegDblMax: Float := Finite(-DBL_MAX)

  /** The C test `x == x` fails exactly for NaN. */
  predicate IsNaN(x: Float) { x.NaN? }

  function Rank(x: Float): int
  {
    match x
    case NegInf => 0
    case Finite(_) => 1
    case PosInf => 2
    case NaN => 3
  }

  /** C `x < y`: false whenever either side is NaN. */
  predicate Lt(x: Float, y: Float)
  {
    !x.NaN? && !y.NaN? &&
    (Rank(x) < Rank(y) || (x.Finite? && y.Finite? && x.r < y.r))
  }

  /** C `x > y`. */
  predicate Gt(x: Float, y: Float) { Lt(y, x) }

  /** C `x == y`: false whenever either side is NaN. */
  predicate Eq(x: Float, y: Float) { !x.NaN? && x == y }

  /** C `x <= y`. */
  predicate Le(x: Float, y: Float) { Lt(x, y) || Eq(x, y) }

  lemma LeTransitive(x: Float, y: Float, z: Float)
    requires Le(x, y) && Le(y, z)
    ensures Le(x, z)
  {
  }

  /** On non-NaN values `<` is a strict total order. */
  lemma Trichotomy(x: Float, y: Float)
    requires !x.NaN? && !y.NaN?
    ensures Lt(x, y) || Lt(y, x) || x == y
  {
  }
}
