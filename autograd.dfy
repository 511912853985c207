/** The second script: a 512 x 512 grid over [-1, 1) x [-1, 1), three roots,
    a `compute_p` that multiplies component by component, and a `newton`
    kernel that divides by the gradient Taichi's reverse-mode autodiff leaves
    in `x.grad`.  The autodiff itself is not modelled: the gradient is an
    input. */
module Autograd {
  import opened Complex
  import opened Basin
  import opened Wrappers

  /** resolution = (Width, Height) */
  const Width: nat := 512
  const Height: nat := 512
  const NumRoots: nat := 3
  const Iterations: nat := 0

  const DefaultRoots: seq<Complex> := [Complex(0.5, 0.0), Complex(-0.5, 0.5), Complex(-0.5, -0.5)]
  const DefaultColors: seq<Color> := [Color(1.0, 0.0, 0.0), Color(0.0, 1.0, 0.0), Color(0.0, 0.0, 1.0)]

  /** `set_x` for one pixel: each coordinate divided by its own resolution,
      doubled and shifted by -1; no zoom and no pan. */
  function PixelToPlane(i: int, j: int): (r: Complex)
    ensures r == Complex(((i as real) - 256.0) / 256.0, ((j as real) - 256.0) / 256.0)
  {
    var x0 := Complex((i as real) / (Width as real), (j as real) / (Height as real));
    Complex(x0.re * 2.0 - 1.0, x0.im * 2.0 - 1.0)
  }

  /** The grid starts at (-1, -1) and pixel (256, 256) is the origin. */
  lemma GridCorners()
    ensures PixelToPlane(0, 0) == Complex(-1.0, -1.0)
    ensures PixelToPlane(256, 256) == Zero
  {
  }

  /** Neighbouring pixels are 2 / 512 apart along each axis. */
  lemma GridSpacing(i: int, j: int)
    ensures PixelToPlane(i + 1, j) == Complex(PixelToPlane(i, j).re + 2.0 / 512.0, PixelToPlane(i, j).im)
    ensures PixelToPlane(i, j + 1) == Complex(PixelToPlane(i, j).re, PixelToPlane(i, j).im + 2.0 / 512.0)
  {
  }

  /** `complex_div` of this script, written per component with c**2 + d**2.
      It is the other script's division, so multiplying the quotient back by
      the divisor gives the dividend. */
  function ComplexDiv(c1: Complex, c2: Complex): (r: Complex)
    requires Norm2(c2) != 0.0
    ensures r == Div(c1, c2)
    ensures Mul(r, c2) == c1
  {
    Complex((c1.re * c2.re + c1.im * c2.im) / Norm2(c2),
            (c1.im * c2.re - c1.re * c2.im) / Norm2(c2))
  }

  /** Taichi's `*` on 2-vectors: the component-wise product. */
  function MulComponentwise(a: Complex, b: Complex): Complex {
    Complex(a.re * b.re, a.im * b.im)
  }

  /** `compute_p` as written: (1, 1) multiplied component-wise by every
      factor x - roots[k], in ascending order of k. */
  function ComponentwiseProduct(x: Complex, roots: seq<Complex>): Complex
  {
    if |roots| == 0 then Complex(1.0, 1.0)
    else MulComponentwise(ComponentwiseProduct(x, roots[..|roots| - 1]), Sub(x, roots[|roots| - 1]))
  }

  lemma RealProductZero(a: real, b: real)
    ensures a * b == 0.0 <==> a == 0.0 || b == 0.0
  {
    if a != 0.0 && b != 0.0 {
      assert (a * b) / b == a;
    }
  }

  /** Some root shares x's real part. */
  ghost predicate SharesRe(x: Complex, roots: seq<Complex>) {
    exists k :: 0 <= k < |roots| && roots[k].re == x.re
  }

  /** Some root shares x's imaginary part. */
  ghost predicate SharesIm(x: Complex, roots: seq<Complex>) {
    exists k :: 0 <= k < |roots| && roots[k].im == x.im
  }

  lemma SharesSnoc(x: Complex, roots: seq<Complex>)
    requires |roots| > 0
    ensures SharesRe(x, roots) <==>
              SharesRe(x, roots[..|roots| - 1]) || roots[|roots| - 1].re == x.re
    ensures SharesIm(x, roots) <==>
              SharesIm(x, roots[..|roots| - 1]) || roots[|roots| - 1].im == x.im
  {
    var init := roots[..|roots| - 1];
    if SharesRe(x, roots) {
      var k :| 0 <= k < |roots| && roots[k].re == x.re;
      if k < |init| { assert init[k].re == x.re; }
    }
    if SharesRe(x, init) {
      var k :| 0 <= k < |init| && init[k].re == x.re;
      assert roots[k].re == x.re;
    }
    if SharesIm(x, roots) {
      var k :| 0 <= k < |roots| && roots[k].im == x.im;
      if k < |init| { assert init[k].im == x.im; }
    }
    if SharesIm(x, init) {
      var k :| 0 <= k < |init| && init[k].im == x.im;
      assert roots[k].im == x.im;
    }
  }

  /** Each component of the as-written product vanishes exactly when that
      coordinate of x equals the same coordinate of some root: the real part
      on vertical lines, the imaginary part on horizontal lines.  The whole
      product is (0, 0) exactly on the grid of points
      (roots[a].re, roots[b].im), which holds the roots and more. */
  lemma {:induction false} ComponentwiseProductZero(x: Complex, roots: seq<Complex>)
    ensures ComponentwiseProduct(x, roots).re == 0.0 <==> SharesRe(x, roots)
    ensures ComponentwiseProduct(x, roots).im == 0.0 <==> SharesIm(x, roots)
  {
    if |roots| == 0 {
      assert !SharesRe(x, roots) && !SharesIm(x, roots);
    } else {
      var last := |roots| - 1;
      var init := roots[..last];
      ComponentwiseProductZero(x, init);
      SharesSnoc(x, roots);
      var prev := ComponentwiseProduct(x, init);
      var f := Sub(x, roots[last]);
      assert ComponentwiseProduct(x, roots) == Complex(prev.re * f.re, prev.im * f.im);
      RealProductZero(prev.re, f.re);
      RealProductZero(prev.im, f.im);
    }
  }

  /** Every root is still a zero of the as-written product. */
  lemma ComponentwiseProductVanishesAtRoot(roots: seq<Complex>, k: nat)
    requires k < |roots|
    ensures ComponentwiseProduct(roots[k], roots) == Zero
  {
    ComponentwiseProductZero(roots[k], roots);
  }

  /** With the script's roots, (0.5, 0.5) is a zero of the as-written
      product although it is not a root. */
  lemma ComponentwiseZeroOffTheRoots()
    ensures ComponentwiseProduct(Complex(0.5, 0.5), DefaultRoots) == Zero
    ensures Complex(0.5, 0.5) !in DefaultRoots
  {
    var x := Complex(0.5, 0.5);
    ComponentwiseProductZero(x, DefaultRoots);
    assert DefaultRoots[0].re == x.re;
    assert DefaultRoots[1].im == x.im;
  }

  /** The per-pixel loop of `compute_p` as written. */
  method EvalP(x: Complex, roots: seq<Complex>) returns (result: Complex)
    ensures result == ComponentwiseProduct(x, roots)
  {
    result := Complex(1.0, 1.0);
    for r := 0 to |roots|
      invariant result == ComponentwiseProduct(x, roots[..r])
    {
      assert roots[..r + 1][..r] == roots[..r];
      result := MulComponentwise(result, Sub(x, roots[r]));
    }
    assert roots[..|roots|] == roots;
  }

  /** One step of this script's `newton`, with the gradient as an input.
      The new point x' solves (x - x') * grad == p. */
  function Step(x: Complex, p: Complex, grad: Complex): (r: Complex)
    requires Norm2(grad) != 0.0
    ensures Mul(Sub(x, r), grad) == p
  {
    var q := ComplexDiv(p, grad);
    assert Sub(x, Sub(x, q)) == q;
    Sub(x, q)
  }

  /** The step leaves x unchanged exactly when p is (0, 0). */
  lemma StepFixedIffZero(x: Complex, p: Complex, grad: Complex)
    requires Norm2(grad) != 0.0
    ensures Step(x, p, grad) == x <==> p == Zero
  {
    if Step(x, p, grad) == x {
      assert Sub(x, x) == Zero;
      ZeroAnnihilates(grad);
    }
    if p == Zero {
      assert ComplexDiv(p, grad) == Zero;
    }
  }

  /** The point after n iterations from z, where every gradient is the one
      gradAt gives at the current point; None once a gradient is (0, 0). */
  function Orbit(z: Complex, roots: seq<Complex>, gradAt: Complex -> Complex, n: nat): Option<Complex>
  {
    if n == 0 then Some(z)
    else
      match Orbit(z, roots, gradAt, n - 1)
      case None => None
      case Some(y) =>
        if Norm2(gradAt(y)) == 0.0 then None
        else Some(Step(y, ComponentwiseProduct(y, roots), gradAt(y)))
  }

  /** An orbit defined for n steps is defined for every shorter prefix. */
  lemma {:induction false} OrbitPrefixDefined(z: Complex, roots: seq<Complex>, gradAt: Complex -> Complex, m: nat, n: nat)
    requires m <= n
    requires Orbit(z, roots, gradAt, n).Some?
    ensures Orbit(z, roots, gradAt, m).Some?
  {
    if m < n {
      OrbitPrefixDefined(z, roots, gradAt, m, n - 1);
    }
  }

  /** A point whose real part is some root's real part and whose imaginary
      part is some root's imaginary part zeroes the as-written p, so it never
      moves, as long as the gradient there is not (0, 0). */
  lemma {:induction false} ZeroOrbitIsConstant(z: Complex, roots: seq<Complex>, k1: nat, k2: nat, gradAt: Complex -> Complex, n: nat)
    requires k1 < |roots| && k2 < |roots|
    requires z.re == roots[k1].re && z.im == roots[k2].im
    requires Norm2(gradAt(z)) != 0.0
    ensures Orbit(z, roots, gradAt, n) == Some(z)
  {
    if n > 0 {
      ZeroOrbitIsConstant(z, roots, k1, k2, gradAt, n - 1);
      var p := ComponentwiseProduct(z, roots);
      assert p == Zero by {
        ComponentwiseProductZero(z, roots);
      }
      StepFixedIffZero(z, p, gradAt(z));
    }
  }

  class Fractal {
    var roots: seq<Complex>
    var rootsColors: seq<Color>
    const x: array2<Complex>
    const p: array2<Complex>
    /** `x.grad`, filled by reverse-mode autodiff in the script. */
    const xGrad: array2<Complex>
    const image: array2<Color>

    ghost predicate Valid()
      reads this
    {
      x.Length0 == Width && x.Length1 == Height &&
      p.Length0 == Width && p.Length1 == Height &&
      xGrad.Length0 == Width && xGrad.Length1 == Height &&
      image.Length0 == Width && image.Length1 == Height &&
      x != p && x != xGrad && p != xGrad &&
      |roots| == NumRoots && |rootsColors| == NumRoots
    }

    /** The module-level set-up: fields at 512 x 512, three roots coloured
        red, green and blue. */
    constructor ()
      ensures Valid()
      ensures fresh(x) && fresh(p) && fresh(xGrad) && fresh(image)
      ensures roots == DefaultRoots && rootsColors == DefaultColors
    {
      roots := DefaultRoots;
      rootsColors := DefaultColors;
      x := new Complex[Width, Height];
      p := new Complex[Width, Height];
      xGrad := new Complex[Width, Height];
      image := new Color[Width, Height];
    }

    /** `set_x`: every point of the grid is reset from its pixel index. */
    method SetX()
      requires Valid()
      modifies x
      ensures forall i, j :: 0 <= i < Width && 0 <= j < Height ==> x[i, j] == PixelToPlane(i, j)
    {
      for i := 0 to Width
        invariant forall i', j' :: 0 <= i' < i && 0 <= j' < Height ==> x[i', j'] == PixelToPlane(i', j')
      {
        for j := 0 to Height
          invariant forall i', j' :: 0 <= i' < i && 0 <= j' < Height ==> x[i', j'] == PixelToPlane(i', j')
          invariant forall j' :: 0 <= j' < j ==> x[i, j'] == PixelToPlane(i, j')
        {
          x[i, j] := PixelToPlane(i, j);
        }
      }
    }

    /** `compute_p` as written: the component-wise product at every point. */
    method ComputeP()
      requires Valid()
      modifies p
      ensures forall i, j :: 0 <= i < Width && 0 <= j < Height ==>
                p[i, j] == ComponentwiseProduct(x[i, j], roots)
    {
      for i := 0 to Width
        invariant forall i', j' :: 0 <= i' < i && 0 <= j' < Height ==>
                    p[i', j'] == ComponentwiseProduct(x[i', j'], roots)
      {
        for j := 0 to Height
          invariant forall i', j' :: 0 <= i' < i && 0 <= j' < Height ==>
                      p[i', j'] == ComponentwiseProduct(x[i', j'], roots)
          invariant forall j' :: 0 <= j' < j ==> p[i, j'] == ComponentwiseProduct(x[i, j'], roots)
        {
          p[i, j] := EvalP(x[i, j], roots);
        }
      }
    }

    /** Stands in for `compute_p.grad()`: x.grad receives, at every point,
        the gradient gradAt gives there. */
    method SupplyGradient(gradAt: Complex -> Complex)
      requires Valid()
      modifies xGrad
      ensures forall i, j :: 0 <= i < Width && 0 <= j < Height ==> xGrad[i, j] == gradAt(x[i, j])
    {
      for i := 0 to Width
        invariant forall i', j' :: 0 <= i' < i && 0 <= j' < Height ==> xGrad[i', j'] == gradAt(x[i', j'])
      {
        for j := 0 to Height
          invariant forall i', j' :: 0 <= i' < i && 0 <= j' < Height ==> xGrad[i', j'] == gradAt(x[i', j'])
          invariant forall j' :: 0 <= j' < j ==> xGrad[i, j'] == gradAt(x[i, j'])
        {
          xGrad[i, j] := gradAt(x[i, j]);
        }
      }
    }

    /** `newton`: every point whose x.grad is not (0, 0) takes one step with
        p and x.grad.  Nothing is promised for the other points. */
    method Newton()
      requires Valid()
      modifies x
      ensures forall i, j :: 0 <= i < Width && 0 <= j < Height && Norm2(xGrad[i, j]) != 0.0 ==>
                x[i, j] == Step(old(x[i, j]), p[i, j], xGrad[i, j])
    {
      for i := 0 to Width
        invariant forall i', j' :: 0 <= i' < i && 0 <= j' < Height && Norm2(xGrad[i', j']) != 0.0 ==>
                    x[i', j'] == Step(old(x[i', j']), p[i', j'], xGrad[i', j'])
        invariant forall i', j' :: i <= i' < Width && 0 <= j' < Height ==> x[i', j'] == old(x[i', j'])
      {
        for j := 0 to Height
          invariant forall i', j' :: 0 <= i' < i && 0 <= j' < Height && Norm2(xGrad[i', j']) != 0.0 ==>
                      x[i', j'] == Step(old(x[i', j']), p[i', j'], xGrad[i', j'])
          invariant forall j' :: 0 <= j' < j && Norm2(xGrad[i, j']) != 0.0 ==>
                      x[i, j'] == Step(old(x[i, j']), p[i, j'], xGrad[i, j'])
          invariant forall i', j' :: i <= i' < Width && 0 <= j' < Height && (i' > i || j' >= j) ==>
                      x[i', j'] == old(x[i', j'])
        {
          if Norm2(xGrad[i, j]) != 0.0 {
            x[i, j] := Sub(x[i, j], ComplexDiv(p[i, j], xGrad[i, j]));
          }
        }
      }
    }

    /** `render`: every pixel gets the colour of the root nearest its point. */
    method Render()
      requires Valid()
      modifies image
      ensures forall i, j :: 0 <= i < Width && 0 <= j < Height ==>
                image[i, j] == rootsColors[Nearest(x[i, j], roots)]
    {
      for i := 0 to Width
        invariant forall i', j' :: 0 <= i' < i && 0 <= j' < Height ==>
                    image[i', j'] == rootsColors[Nearest(x[i', j'], roots)]
      {
        for j := 0 to Height
          invariant forall i', j' :: 0 <= i' < i && 0 <= j' < Height ==>
                      image[i', j'] == rootsColors[Nearest(x[i', j'], roots)]
          invariant forall j' :: 0 <= j' < j ==> image[i, j'] == rootsColors[Nearest(x[i, j'], roots)]
        {
          image[i, j] := Colorize(x[i, j], roots, rootsColors);
        }
      }
    }

    /** The body of `update` for any iteration count: reset the grid, take
        `iterations` steps, colour.  Every pixel whose orbit stays defined
        ends on its orbit's point; every pixel is coloured by the root
        nearest its final point. */
    method UpdateWith(gradAt: Complex -> Complex, iterations: nat)
      requires Valid()
      modifies x, p, xGrad, image
      ensures forall i, j ::
                (0 <= i < Width && 0 <= j < Height &&
                 Orbit(PixelToPlane(i, j), roots, gradAt, iterations).Some?) ==>
                Some(x[i, j]) == Orbit(PixelToPlane(i, j), roots, gradAt, iterations)
      ensures forall i, j :: 0 <= i < Width && 0 <= j < Height ==>
                image[i, j] == rootsColors[Nearest(x[i, j], roots)]
    {
      SetX();
      for n := 0 to iterations
        invariant forall i, j ::
                    (0 <= i < Width && 0 <= j < Height &&
                     Orbit(PixelToPlane(i, j), roots, gradAt, n).Some?) ==>
                    Some(x[i, j]) == Orbit(PixelToPlane(i, j), roots, gradAt, n)
      {
        ComputeP();
        SupplyGradient(gradAt);
        forall i, j | 0 <= i < Width && 0 <= j < Height && Orbit(PixelToPlane(i, j), roots, gradAt, n + 1).Some?
          ensures Norm2(xGrad[i, j]) != 0.0
          ensures Orbit(PixelToPlane(i, j), roots, gradAt, n + 1) == Some(Step(x[i, j], p[i, j], xGrad[i, j]))
        {
          OrbitPrefixDefined(PixelToPlane(i, j), roots, gradAt, n, n + 1);
        }
        Newton();
      }
      Render();
    }

    /** `update` with the script's `Iterations` of 0: the grid is left as
        `set_x` made it and the image is its nearest-root colouring. */
    method Update(gradAt: Complex -> Complex)
      requires Valid()
      modifies x, p, xGrad, image
      ensures forall i, j :: 0 <= i < Width && 0 <= j < Height ==> x[i, j] == PixelToPlane(i, j)
      ensures forall i, j :: 0 <= i < Width && 0 <= j < Height ==>
                image[i, j] == rootsColors[Nearest(PixelToPlane(i, j), roots)]
    {
      UpdateWith(gradAt, Iterations);
    }
  }
}
