/** The `Number` type of the calculator: a complex value with a real and an
    imaginary part (`std::complex<double>` in the source).  The model uses
    exact reals; every IEEE result that has a NaN component is collapsed into
    the single value `NaN`.  Complex `pow` and `exp` have no exact real
    counterpart, so they are supplied by the caller as a `Numerics` record. */
module Numbers {

  datatype Number = Complex(re: real, im: real) | NaN

  /** The library functions the evaluator delegates to (`std::pow`, `std::exp`). */
  datatype Numerics = Numerics(pow: (Number, Number) -> Number, exp: Number -> Number)

  /** `M_E`, the double closest to Euler's number, written out in decimal. */
  const EulerE: real := 2.718281828459045

  function FromReal(r: real): Number {
    Complex(r, 0.0)
  }

  /** `a == b` on complex doubles: both parts equal, and a NaN part is never equal. */
  predicate Equal(a: Number, b: Number) {
    a.Complex? && b.Complex? && a == b
  }

  function Neg(a: Number): (r: Number)
    ensures a.Complex? <==> r.Complex?
    ensures a.Complex? ==> r.re == -a.re && r.im == -a.im
  {
    if a.NaN? then NaN else Complex(-a.re, -a.im)
  }

  /** `operator+`: part-wise sums, and NaN as soon as an operand is NaN. */
  function Add(a: Number, b: Number): (r: Number)
    ensures r.NaN? <==> a.NaN? || b.NaN?
  {
    if a.NaN? || b.NaN? then NaN else Complex(a.re + b.re, a.im + b.im)
  }

  /** `operator-`: the sum with the negated right operand, as IEEE
      subtraction is. */
  function Sub(a: Number, b: Number): (r: Number)
    ensures r.NaN? <==> a.NaN? || b.NaN?
    ensures r == Add(a, Neg(b))
  {
    if a.NaN? || b.NaN? then NaN else Complex(a.re - b.re, a.im - b.im)
  }

  /** `operator*` on complex values. */
  function Mul(a: Number, b: Number): (r: Number)
    ensures r.NaN? <==> a.NaN? || b.NaN?
  {
    if a.NaN? || b.NaN? then NaN
    else Complex(a.re * b.re - a.im * b.im, a.re * b.im + a.im * b.re)
  }

  /** Complex division; a zero divisor yields NaN (the platform yields
      infinite or NaN parts, which the model does not distinguish). */
  function Div(a: Number, b: Number): (r: Number)
    ensures a.NaN? || b.NaN? || b == FromReal(0.0) ==> r.NaN?
    ensures r.Complex? ==> a.Complex? && b.Complex?
  {
    if a.NaN? || b.NaN? then NaN
    else
      var d := b.re * b.re + b.im * b.im;
      if d == 0.0 then NaN
      else Complex((a.re * b.re + a.im * b.im) / d, (a.im * b.re - a.re * b.im) / d)
  }

  /** Identities that IEEE doubles share with the model's exact reals: the
      sum and the product do not depend on the order of the operands, and
      negating twice gives the value back. */
  lemma OrderFree(a: Number, b: Number)
    ensures Add(a, b) == Add(b, a)
    ensures Mul(a, b) == Mul(b, a)
    ensures Neg(Neg(a)) == a
  {
  }
}
