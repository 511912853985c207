/** The Newton-Raphson update x <- x - p(x) / p'(x) of the `newton` kernel,
    and the orbit that `update` computes by applying it `iterations` times. */
module Newton {
  import opened Complex
  import opened Polynomial
  import opened Wrappers

  /** One step of `newton`, given the polynomial value p and the derivative
      value pGrad already computed for x.  The new point x' is where the
      tangent through (x, p) with slope pGrad crosses zero:
      (x - x') * pGrad == p. */
  function Step(x: Complex, p: Complex, pGrad: Complex): (r: Complex)
    requires Norm2(pGrad) != 0.0
    ensures Mul(Sub(x, r), pGrad) == p
  {
    var q := Div(p, pGrad);
    assert Sub(x, Sub(x, q)) == q;
    Sub(x, q)
  }

  /** A step leaves x where it is exactly when the polynomial value is zero. */
  lemma StepFixedIffZero(x: Complex, p: Complex, pGrad: Complex)
    requires Norm2(pGrad) != 0.0
    ensures Step(x, p, pGrad) == x <==> p == Zero
  {
    if Step(x, p, pGrad) == x {
      assert Sub(x, x) == Zero;
      ZeroAnnihilates(pGrad);
    }
    if p == Zero {
      assert Div(p, pGrad) == Zero;
    }
  }

  /** The step the interactive script takes at x: p and p' evaluated there. */
  function NewtonStep(x: Complex, roots: seq<Complex>): Complex
    requires Norm2(Derivative(x, roots)) != 0.0
  {
    Step(x, Poly(x, roots), Derivative(x, roots))
  }

  /** Every root at which p' does not vanish is a fixed point of the step. */
  lemma RootIsFixedPoint(roots: seq<Complex>, k: nat)
    requires k < |roots|
    requires Norm2(Derivative(roots[k], roots)) != 0.0
    ensures NewtonStep(roots[k], roots) == roots[k]
  {
    PolyVanishesAtRoot(roots, k);
    StepFixedIffZero(roots[k], Poly(roots[k], roots), Derivative(roots[k], roots));
  }

  /** The point after n steps from z, or None once some step meets a zero
      derivative (where the floating-point code would produce inf or NaN). */
  function Orbit(z: Complex, roots: seq<Complex>, n: nat): Option<Complex>
  {
    if n == 0 then Some(z)
    else
      match Orbit(z, roots, n - 1)
      case None => None
      case Some(y) =>
        if Norm2(Derivative(y, roots)) == 0.0 then None else Some(NewtonStep(y, roots))
  }

  /** An orbit defined for n steps is defined for every shorter prefix. */
  lemma {:induction false} OrbitPrefixDefined(z: Complex, roots: seq<Complex>, m: nat, n: nat)
    requires m <= n
    requires Orbit(z, roots, n).Some?
    ensures Orbit(z, roots, m).Some?
  {
    if m < n {
      OrbitPrefixDefined(z, roots, m, n - 1);
    }
  }

  /** Where p' is 0 at the start, the first step is undefined ... */
  lemma FirstStepUndefined(z: Complex, roots: seq<Complex>)
    requires Derivative(z, roots) == Zero
    ensures Orbit(z, roots, 1) == None
  {
    assert Orbit(z, roots, 0) == Some(z);
  }

  /** ... and so is every orbit of one step or more. */
  lemma {:induction false} OrbitUndefinedAfterDegenerateStart(z: Complex, roots: seq<Complex>, n: nat)
    requires n >= 1
    requires Derivative(z, roots) == Zero
    ensures Orbit(z, roots, n) == None
  {
    FirstStepUndefined(z, roots);
    if Orbit(z, roots, n).Some? {
      OrbitPrefixDefined(z, roots, 1, n);
    }
  }

  /** Starting on a root with nonzero derivative, the iteration never moves. */
  lemma {:induction false} RootOrbitIsConstant(roots: seq<Complex>, k: nat, n: nat)
    requires k < |roots|
    requires Norm2(Derivative(roots[k], roots)) != 0.0
    ensures Orbit(roots[k], roots, n) == Some(roots[k])
  {
    if n > 0 {
      RootOrbitIsConstant(roots, k, n - 1);
      RootIsFixedPoint(roots, k);
    }
  }
}
