/** Complex numbers as pairs of reals, with the two helpers both scripts
    define (`complex_mul`, `complex_div`) and the algebra the rest of the
    model relies on. */
module Complex {

  datatype Complex = Complex(re: real, im: real)

  const Zero: Complex := Complex(0.0, 0.0)
  const One: Complex := Complex(1.0, 0.0)

  /** Component-wise sum, Taichi's `+` on 2-vectors. */
  function Add(a: Complex, b: Complex): Complex {
    Complex(a.re + b.re, a.im + b.im)
  }

  /** Component-wise difference, Taichi's `-` on 2-vectors. */
  function Sub(a: Complex, b: Complex): Complex {
    Complex(a.re - b.re, a.im - b.im)
  }

  /** `complex_mul`: (a, b) * (c, d) = (ac - bd, ad + bc). */
  function Mul(c1: Complex, c2: Complex): Complex {
    Complex(c1.re * c2.re - c1.im * c2.im, c1.re * c2.im + c1.im * c2.re)
  }

  /** The modulus of a product is the product of the moduli. */
  lemma MulNorm(c1: Complex, c2: Complex)
    ensures Norm2(Mul(c1, c2)) == Norm2(c1) * Norm2(c2)
  {
    NormOfProduct(c1.re, c1.im, c2.re, c2.im);
  }

  /** (ac - bd)^2 + (ad + bc)^2 == (a^2 + b^2)(c^2 + d^2). */
  lemma NormOfProduct(a: real, b: real, c: real, d: real)
    ensures (a * c - b * d) * (a * c - b * d) + (a * d + b * c) * (a * d + b * c)
         == (a * a + b * b) * (c * c + d * d)
  {
  }

  /** Squared modulus c*c + d*d, the divisor of `complex_div`. */
  function Norm2(c: Complex): real {
    c.re * c.re + c.im * c.im
  }

  /** A 2-vector divided by a scalar, Taichi's `vector / scalar`. */
  function DivScalar(v: Complex, s: real): Complex
    requires s != 0.0
  {
    Complex(v.re / s, v.im / s)
  }

  /** `complex_div` of the interactive script: the vector (ac + bd, bc - ad)
      divided by c*c + d*d.  Only defined when that divisor is nonzero, and
      then multiplying the quotient back by c2 gives c1. */
  function Div(c1: Complex, c2: Complex): (r: Complex)
    requires Norm2(c2) != 0.0
    ensures Mul(r, c2) == c1
  {
    var a, b, c, d := c1.re, c1.im, c2.re, c2.im;
    var n := Norm2(c2);
    var u, v := a * c + b * d, b * c - a * d;
    QuotientTimesDivisor(u, v, c, d, n);
    NumeratorTimesDivisor(a, b, c, d);
    CancelDivisor(a, n);
    CancelDivisor(b, n);
    DivScalar(Complex(u, v), n)
  }

  lemma Norm2NonNegative(c: Complex)
    ensures Norm2(c) >= 0.0
  {
  }

  lemma MulCommutes(a: Complex, b: Complex)
    ensures Mul(a, b) == Mul(b, a)
  {
  }

  lemma MulAssociates(a: Complex, b: Complex, c: Complex)
    ensures Mul(Mul(a, b), c) == Mul(a, Mul(b, c))
  {
  }

  lemma OneIsIdentity(a: Complex)
    ensures Mul(One, a) == a && Mul(a, One) == a
  {
  }

  lemma ZeroAnnihilates(a: Complex)
    ensures Mul(Zero, a) == Zero && Mul(a, Zero) == Zero
  {
  }

  lemma ZeroIsAdditiveIdentity(a: Complex)
    ensures Add(Zero, a) == a && Add(a, Zero) == a
  {
  }

  lemma MulDistributesOverAdd(a: Complex, b: Complex, c: Complex)
    ensures Mul(Add(a, b), c) == Add(Mul(a, c), Mul(b, c))
  {
  }

  /** (u/n, v/n) * (c, d) is ((u c - v d)/n, (u d + v c)/n). */
  lemma QuotientTimesDivisor(u: real, v: real, c: real, d: real, n: real)
    requires n != 0.0
    ensures Mul(DivScalar(Complex(u, v), n), Complex(c, d))
         == Complex((u * c - v * d) / n, (u * d + v * c) / n)
  {
  }

  /** The numerator of `complex_div` times the divisor is c1 scaled by
      c*c + d*d. */
  lemma NumeratorTimesDivisor(a: real, b: real, c: real, d: real)
    ensures (a * c + b * d) * c - (b * c - a * d) * d == a * (c * c + d * d)
    ensures (a * c + b * d) * d + (b * c - a * d) * c == b * (c * c + d * d)
  {
  }

  lemma CancelDivisor(a: real, n: real)
    requires n != 0.0
    ensures (a * n) / n == a
  {
  }
}
