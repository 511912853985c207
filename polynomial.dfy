/** The polynomial p(x) = (x - roots[0]) * ... * (x - roots[n-1]) of the
    interactive script, its derivative, and the per-pixel loops of
    `compute_p` and `compute_p_grad` proved against them. */
module Polynomial {
  import opened Complex

  /** The product of the factors (x - roots[k]), multiplied in ascending
      order of k onto a running value that starts at (1, 0). */
  function Poly(x: Complex, roots: seq<Complex>): Complex
  {
    if |roots| == 0 then One
    else Mul(Poly(x, roots[..|roots| - 1]), Sub(x, roots[|roots| - 1]))
  }

  /** The product-rule derivative of Poly with respect to x:
      D(rs + [r]) = D(rs) * (x - r) + P(rs), and D([]) = 0. */
  function Derivative(x: Complex, roots: seq<Complex>): Complex
  {
    if |roots| == 0 then Zero
    else
      var init := roots[..|roots| - 1];
      Add(Mul(Derivative(x, init), Sub(x, roots[|roots| - 1])), Poly(x, init))
  }

  /** The r-th term added by `compute_p_grad`: the derivative (1, 0) of the
      factor x - roots[r], times the product g of the factors after r, times
      the product acc of the factors before r. */
  function Term(x: Complex, roots: seq<Complex>, r: nat): Complex
    requires r < |roots|
  {
    Mul(Mul(One, Poly(x, roots[r + 1..])), Poly(x, roots[..r]))
  }

  /** The sum of the first n terms, in the order `compute_p_grad` adds them. */
  function TermSum(x: Complex, roots: seq<Complex>, n: nat): Complex
    requires n <= |roots|
  {
    if n == 0 then Zero else Add(TermSum(x, roots, n - 1), Term(x, roots, n - 1))
  }

  lemma PolySnoc(x: Complex, rs: seq<Complex>, t: Complex)
    ensures Poly(x, rs + [t]) == Mul(Poly(x, rs), Sub(x, t))
  {
    assert (rs + [t])[..|rs|] == rs;
  }

  /** p vanishes at every root. */
  lemma {:induction false} PolyVanishesAtRoot(roots: seq<Complex>, k: nat)
    requires k < |roots|
    ensures Poly(roots[k], roots) == Zero
  {
    var x, last := roots[k], |roots| - 1;
    if k == last {
      ZeroAnnihilates(Poly(x, roots[..last]));
      assert Sub(x, roots[last]) == Zero;
    } else {
      assert roots[..last][k] == x;
      PolyVanishesAtRoot(roots[..last], k);
      ZeroAnnihilates(Sub(x, roots[last]));
    }
  }

  lemma TermSnoc(x: Complex, rs: seq<Complex>, t: Complex, r: nat)
    requires r < |rs|
    ensures Term(x, rs + [t], r) == Mul(Term(x, rs, r), Sub(x, t))
  {
    var f := Sub(x, t);
    assert (rs + [t])[r + 1..] == rs[r + 1..] + [t];
    assert (rs + [t])[..r] == rs[..r];
    PolySnoc(x, rs[r + 1..], t);
    var g, acc := Poly(x, rs[r + 1..]), Poly(x, rs[..r]);
    OneIsIdentity(g);
    OneIsIdentity(Mul(g, f));
    // (g f) acc == (g acc) f
    MulAssociates(g, f, acc);
    MulCommutes(f, acc);
    MulAssociates(g, acc, f);
  }

  lemma {:induction false} TermSumSnoc(x: Complex, rs: seq<Complex>, t: Complex, n: nat)
    requires n <= |rs|
    ensures TermSum(x, rs + [t], n) == Mul(TermSum(x, rs, n), Sub(x, t))
  {
    var f := Sub(x, t);
    if n == 0 {
      ZeroAnnihilates(f);
    } else if n == 1 {
      var b := Term(x, rs, 0);
      TermSnoc(x, rs, t, 0);
      assert TermSum(x, rs + [t], 1) == Add(Zero, Mul(b, f));
      assert TermSum(x, rs, 1) == Add(Zero, b);
      ZeroIsAdditiveIdentity(b);
      ZeroIsAdditiveIdentity(Mul(b, f));
    } else {
      TermSumSnoc(x, rs, t, n - 1);
      TermSnoc(x, rs, t, n - 1);
      MulDistributesOverAdd(TermSum(x, rs, n - 1), Term(x, rs, n - 1), f);
    }
  }

  /** The last term has an empty suffix: it is the product of the others. */
  lemma LastTerm(x: Complex, roots: seq<Complex>)
    requires |roots| > 0
    ensures Term(x, roots, |roots| - 1) == Poly(x, roots[..|roots| - 1])
  {
    assert roots[|roots|..] == [];
    OneIsIdentity(One);
    OneIsIdentity(Poly(x, roots[..|roots| - 1]));
  }

  /** The sum over r of prefix(r) * suffix(r) is the product-rule derivative. */
  lemma {:induction false} TermSumIsDerivative(x: Complex, roots: seq<Complex>)
    ensures TermSum(x, roots, |roots|) == Derivative(x, roots)
  {
    if |roots| > 0 {
      var last := |roots| - 1;
      var init, t := roots[..last], roots[last];
      assert roots == init + [t];
      assert TermSum(x, roots, last) == Mul(Derivative(x, init), Sub(x, t)) by {
        TermSumIsDerivative(x, init);
        TermSumSnoc(x, init, t, last);
      }
      LastTerm(x, roots);
    }
  }

  /** The inner loop of `compute_p`: fold the factors onto (1, 0). */
  method EvalP(x: Complex, roots: seq<Complex>) returns (result: Complex)
    ensures result == Poly(x, roots)
  {
    result := One;
    for r := 0 to |roots|
      invariant result == Poly(x, roots[..r])
    {
      PrefixSnoc(x, roots, r);
      result := Mul(result, Sub(x, roots[r]));
    }
    assert roots[..|roots|] == roots;
  }

  lemma PrefixSnoc(x: Complex, roots: seq<Complex>, r: nat)
    requires r < |roots|
    ensures Poly(x, roots[..r + 1]) == Mul(Poly(x, roots[..r]), Sub(x, roots[r]))
  {
    assert roots[..r + 1][..r] == roots[..r];
  }

  /** One more factor on both the running product and its derivative. */
  lemma PrefixStep(x: Complex, roots: seq<Complex>, r: nat, p: Complex, d: Complex)
    requires r < |roots|
    requires Poly(x, roots[..r]) == p && Derivative(x, roots[..r]) == d
    ensures Poly(x, roots[..r + 1]) == Mul(p, Sub(x, roots[r]))
    ensures Derivative(x, roots[..r + 1]) == Add(Mul(d, Sub(x, roots[r])), p)
  {
    PrefixSnoc(x, roots, r);
    assert roots[..r + 1][..r] == roots[..r];
  }

  /** x is the origin and the roots are 0.5, -0.5, 0.5i and -0.5i, in that
      order. */
  ghost predicate QuarticAtOrigin(x: Complex, roots: seq<Complex>) {
    x == Zero && |roots| == 4 &&
    roots[0] == Complex(0.5, 0.0) && roots[1] == Complex(-0.5, 0.0) &&
    roots[2] == Complex(0.0, 0.5) && roots[3] == Complex(0.0, -0.5)
  }

  lemma HalfwayAtOrigin(x: Complex, roots: seq<Complex>)
    requires QuarticAtOrigin(x, roots)
    ensures Poly(x, roots[..2]) == Complex(-0.25, 0.0) && Derivative(x, roots[..2]) == Zero
  {
    assert roots[..0] == [];
    PrefixStep(x, roots, 0, One, Zero);
    PrefixStep(x, roots, 1, Complex(-0.5, 0.0), One);
  }

  lemma ThreeQuartersAtOrigin(x: Complex, roots: seq<Complex>)
    requires QuarticAtOrigin(x, roots)
    ensures Poly(x, roots[..3]) == Complex(0.0, 0.125) && Derivative(x, roots[..3]) == Complex(-0.25, 0.0)
  {
    HalfwayAtOrigin(x, roots);
    PrefixStep(x, roots, 2, Complex(-0.25, 0.0), Zero);
  }

  /** With these roots, p(x) = x^4 - 1/16, so p'(0) == 0. */
  lemma QuarticDerivativeVanishesAtOrigin(x: Complex, roots: seq<Complex>)
    requires QuarticAtOrigin(x, roots)
    ensures Derivative(x, roots) == Zero
  {
    ThreeQuartersAtOrigin(x, roots);
    PrefixStep(x, roots, 3, Complex(0.0, 0.125), Complex(-0.25, 0.0));
    assert roots[..4] == roots;
  }

  /** The innermost loop of `compute_p_grad`: g, rebuilt from (1, 0) for
      each r, is the product of the factors after r. */
  method SuffixProduct(x: Complex, roots: seq<Complex>, r: nat) returns (g: Complex)
    requires r < |roots|
    ensures g == Poly(x, roots[r + 1..])
  {
    g := One;
    for r2 := r + 1 to |roots|
      invariant g == Poly(x, roots[r + 1..r2])
    {
      assert roots[r + 1..r2 + 1][..r2 - r - 1] == roots[r + 1..r2];
      g := Mul(g, Sub(x, roots[r2]));
    }
    assert roots[r + 1..|roots|] == roots[r + 1..];
  }

  /** The loops of `compute_p_grad`: a running prefix product `acc`, and for
      each r the suffix product `g`; their products summed over r. */
  method EvalPGrad(x: Complex, roots: seq<Complex>) returns (result: Complex)
    ensures result == Derivative(x, roots)
  {
    result := Zero;
    var acc := One;
    for r := 0 to |roots|
      invariant acc == Poly(x, roots[..r])
      invariant result == TermSum(x, roots, r)
    {
      var f := Sub(x, roots[r]);
      var fGrad := One;
      var g := SuffixProduct(x, roots, r);
      assert Mul(Mul(fGrad, g), acc) == Term(x, roots, r);
      result := Add(result, Mul(Mul(fGrad, g), acc));
      PrefixSnoc(x, roots, r);
      acc := Mul(acc, f);
    }
    TermSumIsDerivative(x, roots);
  }
}
