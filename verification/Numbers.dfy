/** The numbers that readings are made of: exact reals and the two infinities of
    C's double, without NaN. */
module Numbers {

  datatype Number = Finite(value: real) | PlusInfinity | MinusInfinity

  const ZERO := Finite(0.0)

  function Negate(n: Number): Number {
    match n
    case Finite(v) => Finite(-v)
    case PlusInfinity => MinusInfinity
    case MinusInfinity => PlusInfinity
  }

  predicate Positive(n: Number) {
    n.PlusInfinity? || (n.Finite? && n.value > 0.0)
  }

  /** a - b for different numbers, which is never NaN and never zero. */
  function Difference(a: Number, b: Number): (d: Number)
    requires a != b
    ensures d != ZERO
  {
    if a.Finite? && b.Finite? then Finite(a.value - b.value)
    else if a.PlusInfinity? || b.MinusInfinity? then PlusInfinity
    else MinusInfinity
  }

  /** n divided by (double) d: dividing by zero gives an infinity. */
  function Quotient(n: Number, d: int): Number
    requires n != ZERO
  {
    if n.Finite? && d != 0 then Finite(n.value / d as real)
    else if Positive(n) == (d >= 0) then PlusInfinity
    else MinusInfinity
  }

  /** degrees + minutes / 60 */
  function Degrees(degrees: int, minutes: Number): Number {
    if minutes.Finite? then Finite(degrees as real + minutes.value / 60.0) else minutes
  }

  lemma QuotientMultiplies(a: Number, b: Number, d: int)
    requires a.Finite? && b.Finite? && a != b && d != 0
    ensures Quotient(Difference(a, b), d).Finite?
    ensures Quotient(Difference(a, b), d).value * d as real == a.value - b.value
  {
  }
}
