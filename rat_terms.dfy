/**
 * The numbers and terms RatPoly is built from.
 *
 * RatNum is an exact rational or NaN, and every arithmetic operation with a
 * NaN operand (or a zero divisor) gives NaN. RatTerm is a coefficient and a
 * non-negative exponent, standing for coeff * x^expt. Only what RatPoly
 * relies on is here: these are the semantics the polynomial code assumes
 * of the two classes.
 */
module RatTerms {

  /** An exact rational, or not-a-number. */
  datatype RatNum = Num(value: real) | NaN

  const ZeroNum: RatNum := Num(0.0)

  function Plus(a: RatNum, b: RatNum): RatNum {
    if a.Num? && b.Num? then Num(a.value + b.value) else NaN
  }

  function Minus(a: RatNum): RatNum {
    if a.Num? then Num(-a.value) else NaN
  }

  function Times(a: RatNum, b: RatNum): RatNum {
    if a.Num? && b.Num? then Num(a.value * b.value) else NaN
  }

  function Quotient(a: RatNum, b: RatNum): RatNum {
    if a.Num? && b.Num? && b.value != 0.0 then Num(a.value / b.value) else NaN
  }

  /** coeff * x^expt. */
  datatype RatTerm = RatTerm(coeff: RatNum, expt: nat)

  const ZeroTerm: RatTerm := RatTerm(ZeroNum, 0)
  const NaNTerm: RatTerm := RatTerm(NaN, 0)

  predicate IsZero(t: RatTerm) {
    t.coeff == ZeroNum
  }

  predicate IsNaNTerm(t: RatTerm) {
    t.coeff.NaN?
  }

  /** The sum of two terms of the same exponent. */
  function AddTerms(s: RatTerm, t: RatTerm): RatTerm
    requires s.expt == t.expt
  {
    RatTerm(Plus(s.coeff, t.coeff), s.expt)
  }

  function NegateTerm(t: RatTerm): RatTerm {
    RatTerm(Minus(t.coeff), t.expt)
  }

  function MulTerms(s: RatTerm, t: RatTerm): RatTerm {
    RatTerm(Times(s.coeff, t.coeff), s.expt + t.expt)
  }

  /** The quotient of two terms, when the divisor's exponent is no larger. */
  function DivTerms(s: RatTerm, t: RatTerm): RatTerm
    requires t.expt <= s.expt
  {
    RatTerm(Quotient(s.coeff, t.coeff), s.expt - t.expt)
  }

  /** d/dx (c * x^e) = c * e * x^(e - 1); the derivative of a constant is
      zero. */
  function DifferentiateTerm(t: RatTerm): RatTerm {
    if t.expt == 0 then ZeroTerm else RatTerm(Times(t.coeff, Num(t.expt as real)), t.expt - 1)
  }

  /** The antiderivative of c * x^e is c / (e + 1) * x^(e + 1). */
  function AntiDifferentiateTerm(t: RatTerm): RatTerm {
    RatTerm(Quotient(t.coeff, Num((t.expt + 1) as real)), t.expt + 1)
  }
}
