/** The interactive script: a 1280 x 720 grid of points, four roots, and the
    kernels `set_x`, `compute_p`, `compute_p_grad`, `newton` and `render`
    that `update` runs once per frame.  Taichi's parallel `for i, j in x`
    becomes two nested loops; no pixel reads another pixel's state. */
module Ggui {
  import opened Complex
  import opened Polynomial
  import opened Newton
  import opened Basin
  import opened Wrappers

  /** resolution = (Width, Height) */
  const Width: nat := 1280
  const Height: nat := 720
  const NumRoots: nat := 4
  const Iterations: nat := 20

  const DefaultRoots: seq<Complex> :=
    [Complex(0.5, 0.0), Complex(-0.5, 0.0), Complex(0.0, 0.5), Complex(0.0, -0.5)]
  const DefaultColors: seq<Color> :=
    [Color(0.3, 0.1, 0.7), Color(0.7, 0.1, 0.3), Color(0.3, 0.7, 0.1), Color(0.7, 0.3, 0.1)]

  /** `set_x` for one pixel: both coordinates are divided by resolution[1]
      (the height), doubled, shifted by -1, scaled and translated. */
  function PixelToPlane(i: int, j: int, scale: real, translateX: real, translateY: real): (r: Complex)
    ensures r == Complex(translateX + ((i as real) - 360.0) * scale / 360.0,
                         translateY + ((j as real) - 360.0) * scale / 360.0)
  {
    var x0 := Complex((i as real) / (Height as real), (j as real) / (Height as real));
    var x1 := Complex(x0.re * 2.0 - 1.0, x0.im * 2.0 - 1.0);
    assert x1.re == ((i as real) - 360.0) / 360.0 by { HalfPlaneShift(i as real); }
    assert x1.im == ((j as real) - 360.0) / 360.0 by { HalfPlaneShift(j as real); }
    assert x1.re * scale == ((i as real) - 360.0) * scale / 360.0 by {
      ScaleQuotient((i as real) - 360.0, scale);
    }
    assert x1.im * scale == ((j as real) - 360.0) * scale / 360.0 by {
      ScaleQuotient((j as real) - 360.0, scale);
    }
    Complex(x1.re * scale + translateX, x1.im * scale + translateY)
  }

  lemma HalfPlaneShift(a: real)
    ensures a / 720.0 * 2.0 - 1.0 == (a - 360.0) / 360.0
  {
  }

  lemma ScaleQuotient(a: real, s: real)
    ensures a / 360.0 * s == a * s / 360.0
  {
  }

  /** Pixel (0, 0) lands on the lower-left corner (tx - scale, ty - scale). */
  lemma FirstPixel(scale: real, translateX: real, translateY: real)
    ensures PixelToPlane(0, 0, scale, translateX, translateY)
         == Complex(translateX - scale, translateY - scale)
  {
  }

  /** Neighbouring pixels are 2 * scale / 720 apart along both axes, because
      both axes share the divisor resolution[1]. */
  lemma PixelSpacing(i: int, j: int, scale: real, translateX: real, translateY: real)
    ensures PixelToPlane(i + 1, j, scale, translateX, translateY).re
          - PixelToPlane(i, j, scale, translateX, translateY).re == 2.0 * scale / 720.0
    ensures PixelToPlane(i + 1, j, scale, translateX, translateY).im
         == PixelToPlane(i, j, scale, translateX, translateY).im
    ensures PixelToPlane(i, j + 1, scale, translateX, translateY).im
          - PixelToPlane(i, j, scale, translateX, translateY).im == 2.0 * scale / 720.0
    ensures PixelToPlane(i, j + 1, scale, translateX, translateY).re
         == PixelToPlane(i, j, scale, translateX, translateY).re
  {
  }

  /** The translation point is the image of pixel (360, 360), not of the
      image centre (640, 360): the grid is not centred horizontally. */
  lemma TranslateIsAtPixel360(scale: real, translateX: real, translateY: real)
    ensures PixelToPlane(360, 360, scale, translateX, translateY) == Complex(translateX, translateY)
    ensures PixelToPlane(640, 360, scale, translateX, translateY).re
         == translateX + 7.0 * scale / 9.0
  {
  }

  /** The frame `update` draws at start-up (scale 1, no translation, default
      roots) has a pixel whose orbit is undefined for every iteration count
      from 1 on, `Iterations` included: pixel (360, 360) maps to the origin,
      where p' vanishes, so its first step already divides by zero. */
  lemma StartUpFrameHasUndefinedPixel(roots: seq<Complex>, n: nat)
    requires roots == DefaultRoots
    requires n >= 1
    ensures Orbit(PixelToPlane(360, 360, 1.0, 0.0, 0.0), roots, n) == None
  {
    var z := PixelToPlane(360, 360, 1.0, 0.0, 0.0);
    TranslateIsAtPixel360(1.0, 0.0, 0.0);
    QuarticDerivativeVanishesAtOrigin(z, roots);
    OrbitUndefinedAfterDegenerateStart(z, roots, n);
  }

  class Fractal {
    var roots: seq<Complex>
    var rootsColors: seq<Color>
    var scale: real
    var translateX: real
    var translateY: real
    const x: array2<Complex>
    const p: array2<Complex>
    const pGrad: array2<Complex>
    const image: array2<Color>

    ghost predicate Valid()
      reads this
    {
      x.Length0 == Width && x.Length1 == Height &&
      p.Length0 == Width && p.Length1 == Height &&
      pGrad.Length0 == Width && pGrad.Length1 == Height &&
      image.Length0 == Width && image.Length1 == Height &&
      x != p && x != pGrad && p != pGrad &&
      |roots| == NumRoots && |rootsColors| == NumRoots
    }

    /** The module-level set-up of the script: fields allocated at the fixed
        resolution, the four default roots and colours, scale 1, no shift. */
    constructor ()
      ensures Valid()
      ensures fresh(x) && fresh(p) && fresh(pGrad) && fresh(image)
      ensures roots == DefaultRoots && rootsColors == DefaultColors
      ensures scale == 1.0 && translateX == 0.0 && translateY == 0.0
    {
      roots := DefaultRoots;
      rootsColors := DefaultColors;
      scale, translateX, translateY := 1.0, 0.0, 0.0;
      x := new Complex[Width, Height];
      p := new Complex[Width, Height];
      pGrad := new Complex[Width, Height];
      image := new Color[Width, Height];
    }

    /** `set_x`: every point of the grid is reset from its pixel index. */
    method SetX(scale: real, translateX: real, translateY: real)
      requires Valid()
      modifies x
      ensures forall i, j :: 0 <= i < Width && 0 <= j < Height ==>
                x[i, j] == PixelToPlane(i, j, scale, translateX, translateY)
    {
      for i := 0 to Width
        invariant forall i', j' :: 0 <= i' < i && 0 <= j' < Height ==>
                    x[i', j'] == PixelToPlane(i', j', scale, translateX, translateY)
      {
        for j := 0 to Height
          invariant forall i', j' :: 0 <= i' < i && 0 <= j' < Height ==>
                      x[i', j'] == PixelToPlane(i', j', scale, translateX, translateY)
          invariant forall j' :: 0 <= j' < j ==>
                      x[i, j'] == PixelToPlane(i, j', scale, translateX, translateY)
        {
          x[i, j] := PixelToPlane(i, j, scale, translateX, translateY);
        }
      }
    }

    /** `compute_p`: p holds the polynomial's value at every point. */
    method ComputeP()
      requires Valid()
      modifies p
      ensures forall i, j :: 0 <= i < Width && 0 <= j < Height ==> p[i, j] == Poly(x[i, j], roots)
    {
      for i := 0 to Width
        invariant forall i', j' :: 0 <= i' < i && 0 <= j' < Height ==>
                    p[i', j'] == Poly(x[i', j'], roots)
      {
        for j := 0 to Height
          invariant forall i', j' :: 0 <= i' < i && 0 <= j' < Height ==>
                      p[i', j'] == Poly(x[i', j'], roots)
          invariant forall j' :: 0 <= j' < j ==> p[i, j'] == Poly(x[i, j'], roots)
        {
          p[i, j] := EvalP(x[i, j], roots);
        }
      }
    }

    /** `compute_p_grad`: pGrad holds the derivative's value at every point. */
    method ComputePGrad()
      requires Valid()
      modifies pGrad
      ensures forall i, j :: 0 <= i < Width && 0 <= j < Height ==>
                pGrad[i, j] == Derivative(x[i, j], roots)
    {
      for i := 0 to Width
        invariant forall i', j' :: 0 <= i' < i && 0 <= j' < Height ==>
                    pGrad[i', j'] == Derivative(x[i', j'], roots)
      {
        for j := 0 to Height
          invariant forall i', j' :: 0 <= i' < i && 0 <= j' < Height ==>
                      pGrad[i', j'] == Derivative(x[i', j'], roots)
          invariant forall j' :: 0 <= j' < j ==> pGrad[i, j'] == Derivative(x[i, j'], roots)
        {
          pGrad[i, j] := EvalPGrad(x[i, j], roots);
        }
      }
    }

    /** `newton`: every point whose p' is nonzero takes one step with the
        stored p and p'.  Nothing is promised for the other points. */
    method Newton()
      requires Valid()
      modifies x
      ensures forall i, j :: 0 <= i < Width && 0 <= j < Height && Norm2(pGrad[i, j]) != 0.0 ==>
                x[i, j] == Step(old(x[i, j]), p[i, j], pGrad[i, j])
    {
      for i := 0 to Width
        invariant forall i', j' :: 0 <= i' < i && 0 <= j' < Height && Norm2(pGrad[i', j']) != 0.0 ==>
                    x[i', j'] == Step(old(x[i', j']), p[i', j'], pGrad[i', j'])
        invariant forall i', j' :: i <= i' < Width && 0 <= j' < Height ==> x[i', j'] == old(x[i', j'])
      {
        for j := 0 to Height
          invariant forall i', j' :: 0 <= i' < i && 0 <= j' < Height && Norm2(pGrad[i', j']) != 0.0 ==>
                      x[i', j'] == Step(old(x[i', j']), p[i', j'], pGrad[i', j'])
          invariant forall j' :: 0 <= j' < j && Norm2(pGrad[i, j']) != 0.0 ==>
                      x[i, j'] == Step(old(x[i, j']), p[i, j'], pGrad[i, j'])
          invariant forall i', j' :: i <= i' < Width && 0 <= j' < Height && (i' > i || j' >= j) ==>
                      x[i', j'] == old(x[i', j'])
        {
          if Norm2(pGrad[i, j]) != 0.0 {
            x[i, j] := Sub(x[i, j], Div(p[i, j], pGrad[i, j]));
          }
        }
      }
    }

    /** `render`: every pixel gets the colour of the root nearest its point. */
    method Render()
      requires Valid()
      modifies image
      ensures forall i, j :: 0 <= i < Width && 0 <= j < Height ==>
                image[i, j] == rootsColors[Nearest(x[i, j], roots)]
    {
      for i := 0 to Width
        invariant forall i', j' :: 0 <= i' < i && 0 <= j' < Height ==>
                    image[i', j'] == rootsColors[Nearest(x[i', j'], roots)]
      {
        for j := 0 to Height
          invariant forall i', j' :: 0 <= i' < i && 0 <= j' < Height ==>
                      image[i', j'] == rootsColors[Nearest(x[i', j'], roots)]
          invariant forall j' :: 0 <= j' < j ==> image[i, j'] == rootsColors[Nearest(x[i, j'], roots)]
        {
          image[i, j] := Colorize(x[i, j], roots, rootsColors);
        }
      }
    }

    /** `update`: reset the grid, take `Iterations` Newton steps, colour.
        Every pixel whose orbit stays defined ends on its orbit's point; every
        pixel is coloured by the root nearest its final point. */
    method Update()
      requires Valid()
      modifies x, p, pGrad, image
      ensures forall i, j ::
                (0 <= i < Width && 0 <= j < Height &&
                 Orbit(PixelToPlane(i, j, scale, translateX, translateY), roots, Iterations).Some?) ==>
                Some(x[i, j]) == Orbit(PixelToPlane(i, j, scale, translateX, translateY), roots, Iterations)
      ensures forall i, j :: 0 <= i < Width && 0 <= j < Height ==>
                image[i, j] == rootsColors[Nearest(x[i, j], roots)]
    {
      SetX(scale, translateX, translateY);
      for n := 0 to Iterations
        invariant forall i, j ::
                    (0 <= i < Width && 0 <= j < Height &&
                     Orbit(PixelToPlane(i, j, scale, translateX, translateY), roots, n).Some?) ==>
                    Some(x[i, j]) == Orbit(PixelToPlane(i, j, scale, translateX, translateY), roots, n)
      {
        ComputeP();
        ComputePGrad();
        forall i, j | 0 <= i < Width && 0 <= j < Height &&
                      Orbit(PixelToPlane(i, j, scale, translateX, translateY), roots, n + 1).Some?
          ensures Norm2(pGrad[i, j]) != 0.0
          ensures Orbit(PixelToPlane(i, j, scale, translateX, translateY), roots, n + 1)
               == Some(Step(x[i, j], p[i, j], pGrad[i, j]))
        {
          OrbitPrefixDefined(PixelToPlane(i, j, scale, translateX, translateY), roots, n, n + 1);
        }
        Newton();
      }
      Render();
    }
  }
}
