# Newton fractal, modelled in Dafny

Two Taichi scripts draw the basins of attraction of Newton's method for a
polynomial with given complex roots. Each pixel (i, j) of the image becomes
a point x of the complex plane. The point takes a fixed number of Newton
steps x <- x - p(x) / p'(x). The pixel is then painted with the colour of
the root nearest the point it reached.

- `newton_fractal_ggui.py` is the interactive script. It uses a 1280 x 720
  grid, four roots and 20 iterations. It evaluates p as a product of
  factors (x - r) with `complex_mul`. It evaluates p' with a loop of prefix
  and suffix products. It divides with `complex_div`.
- `newton_fractal_autograd.py` is the second script. It uses a 512 x 512
  grid, three roots and 0 iterations. Its `compute_p` multiplies the factors
  component by component, starting from (1, 1). Its `newton` divides by the
  gradient that Taichi's autodiff leaves in `x.grad`.

The model has one module per concern:

- `Complex` holds complex arithmetic and the divide/multiply round trip.
- `Polynomial` holds the polynomial, its product-rule derivative and the
  per-pixel loops of `compute_p` and `compute_p_grad`, each proved against
  them.
- `Newton` holds the Newton step, the orbit and the fixed-point facts.
- `Basin` holds the nearest-root scan of `render`.
- `Ggui` and `Autograd` model each script's fields and kernels. Each script
  becomes a class whose fields are `array2`s, and each kernel becomes a
  method over nested loops.

Taichi's parallel `for i, j in x` becomes two sequential loops. This is
sound because no kernel reads another pixel's state.

Points are exact reals, not `f32`.

Distances are compared squared. `norm()` applies a square root, which is
strictly increasing on non-negative reals, so it picks the same root.

The ggui `set_x` divides both coordinates by `resolution[1]`, the height of
720. A transform centred on the image would put the translation point at
pixel (640, 360); this one puts it at pixel (360, 360), so the grid is not
centred horizontally. The grid's spacing is 2 * scale / 720 on both axes.

At start-up (scale 1, no translation, the four default roots) p(x) is
x^4 - 1/16. Pixel (360, 360) maps to the origin, where p'(0) = 0, so that
pixel's first Newton step divides by zero. The model's `newton` therefore
steps only the points whose p' is nonzero. `update` promises the Newton
orbit for every pixel whose orbit stays defined, and the colouring for
every pixel.

The autograd `compute_p` uses Taichi's `*` on 2-vectors, which is the
component-wise product. It starts from (1, 1). The model keeps that as
written. Each component of that product vanishes on lines: the real part
where x shares a root's real part (vertical lines), the imaginary part
where x shares a root's imaginary part (horizontal lines). So the product
is (0, 0) exactly on the grid of points (roots[a].re, roots[b].im). That
grid holds every root, and more points besides: six points for the
default roots. With the script's `iterations = 0`, `newton` never
runs. `update` then colours the untransformed grid by its nearest root.

## Model

| member | source | states |
|---|---|---|
| Complex.Mul | newton_fractal_ggui.py:32-34 | `complex_mul` as (ac - bd, ad + bc); its properties are stated by MulCommutes, MulAssociates, OneIsIdentity and MulNorm |
| Complex.OneIsIdentity | newton_fractal_ggui.py:32-34 | (1, 0), the seed of the `compute_p` and `compute_p_grad` loops, is the identity of `complex_mul` on both sides |
| Complex.MulCommutes | newton_fractal_ggui.py:32-34 | `complex_mul` is commutative |
| Complex.MulNorm | newton_fractal_ggui.py:32-34 | the squared modulus of a product is the product of the squared moduli |
| Complex.Div | newton_fractal_ggui.py:36-42 | `complex_div` is defined when c\*c + d\*d != 0, and then multiplying the quotient back by c2 gives c1 |
| Complex.MulAssociates | newton_fractal_ggui.py:32-34 | `complex_mul` is associative; with MulCommutes, the order in which the loops multiply factors does not matter |
| Polynomial.PolyVanishesAtRoot | newton_fractal_ggui.py:44-50 | the product of the factors (x - roots[r]) is 0 at every root |
| Polynomial.EvalP | newton_fractal_ggui.py:44-50 | the loop that folds the factors onto (1, 0) computes the polynomial p(x) |
| Polynomial.SuffixProduct | newton_fractal_ggui.py:60-62 | the inner loop leaves g equal to the product of the factors after r |
| Polynomial.TermSumIsDerivative | newton_fractal_ggui.py:55-64 | summing f_grad \* (product after r) \* (product before r) over all r gives the product-rule derivative of p |
| Polynomial.EvalPGrad | newton_fractal_ggui.py:52-65 | the prefix/suffix loop of `compute_p_grad` computes p'(x), the product-rule derivative |
| Newton.Step | newton_fractal_ggui.py:71 | the new point x' solves (x - x') \* p' == p: it is where the tangent crosses zero |
| Newton.StepFixedIffZero | newton_fractal_ggui.py:67-71 | a step leaves x unchanged if and only if p is 0 |
| Newton.RootIsFixedPoint | newton_fractal_ggui.py:67-71 | every root where p' is nonzero is a fixed point of the Newton step |
| Newton.OrbitPrefixDefined | newton_fractal_ggui.py:93-99 | an orbit defined for n steps is defined for every m <= n |
| Newton.FirstStepUndefined | newton_fractal_ggui.py:93-99 | where p' is 0 at the start point, the first step of the orbit is undefined |
| Newton.OrbitUndefinedAfterDegenerateStart | newton_fractal_ggui.py:93-99 | where p' is 0 at the start point, the orbit is undefined for every iteration count from 1 on |
| Polynomial.QuarticDerivativeVanishesAtOrigin | newton_fractal_ggui.py:52-65 | with the roots 0.5, -0.5, 0.5i and -0.5i, the product-rule derivative is 0 at the origin |
| Newton.RootOrbitIsConstant | newton_fractal_ggui.py:93-99 | an orbit that starts on a root (with p' nonzero there) stays on it for every iteration count |
| Basin.NearestIsFirstNearest | newton_fractal_ggui.py:84-90 | the strict-< scan picks a root at minimum distance, and no earlier root is as near (first index wins ties) |
| Basin.FirstNearestIsUnique | newton_fractal_ggui.py:84-90 | at most one index is a nearest root with no earlier root as near, so the scan's answer is determined |
| Basin.SentinelOnlyFirst | newton_fractal_ggui.py:88 | once a root has been seen, the best distance so far is that root's distance, which is never the sentinel -1, so from then on the test is the plain strict < |
| Basin.NearestRoot | newton_fractal_ggui.py:84-90 | the sentinel loop returns the first-index nearest root |
| Basin.Colorize | newton_fractal_ggui.py:83-91 | the pixel colour is the colour of the first-index nearest root |
| Ggui.PixelToPlane | newton_fractal_ggui.py:26-30 | pixel (i, j) maps to (tx + (i - 360) \* scale / 360, ty + (j - 360) \* scale / 360) |
| Ggui.StartUpFrameHasUndefinedPixel | newton_fractal_ggui.py:101 | in the start-up frame (scale 1, no translation, default roots), pixel (360, 360)'s orbit is undefined for every iteration count from 1 on, including 20 |
| Ggui.FirstPixel | newton_fractal_ggui.py:25-30 | pixel (0, 0) maps to (translate_x - scale, translate_y - scale) |
| Ggui.PixelSpacing | newton_fractal_ggui.py:28-30 | neighbouring pixels are 2 \* scale / 720 apart on both axes, and a step along one axis leaves the other coordinate unchanged |
| Ggui.TranslateIsAtPixel360 | newton_fractal_ggui.py:28-30 | the translation point is the image of pixel (360, 360); the centre pixel (640, 360) lies 7 \* scale / 9 to its right |
| Ggui.Fractal.constructor | newton_fractal_ggui.py:4-22 | the fields are allocated at 1280 x 720, with the four default roots and colours, scale 1 and no translation |
| Ggui.Fractal.SetX | newton_fractal_ggui.py:25-30 | every x[i, j] becomes the scaled, translated image of its pixel |
| Ggui.Fractal.ComputeP | newton_fractal_ggui.py:44-50 | every p[i, j] is p(x[i, j]) |
| Ggui.Fractal.ComputePGrad | newton_fractal_ggui.py:52-65 | every p_grad[i, j] is p'(x[i, j]) |
| Ggui.Fractal.Newton | newton_fractal_ggui.py:67-71 | every x[i, j] whose p_grad is nonzero takes one step with the stored p and p_grad |
| Ggui.Fractal.Render | newton_fractal_ggui.py:81-91 | every image[i, j] is the colour of the first-index nearest root to x[i, j] |
| Ggui.Fractal.Update | newton_fractal_ggui.py:93-99 | after `update`, every pixel whose 20-step Newton orbit is defined holds that orbit's point, and every image[i, j] is the colour of the root nearest x[i, j] |
| Autograd.PixelToPlane | newton_fractal_autograd.py:17-21 | pixel (i, j) maps to ((i - 256) / 256, (j - 256) / 256) |
| Autograd.GridCorners | newton_fractal_autograd.py:16-21 | pixel (0, 0) maps to (-1, -1), and pixel (256, 256) maps to the origin |
| Autograd.GridSpacing | newton_fractal_autograd.py:19-21 | neighbouring pixels are 2 / 512 apart along each axis |
| Autograd.ComplexDiv | newton_fractal_autograd.py:27-34 | the per-component `complex_div` equals the other script's division, and multiplying the quotient back by the divisor gives the dividend |
| Autograd.ComponentwiseProductZero | newton_fractal_autograd.py:36-42 | each component of the as-written product is 0 if and only if some root has the same coordinate as x on that axis |
| Autograd.ComponentwiseProductVanishesAtRoot | newton_fractal_autograd.py:36-42 | every root is a zero of the as-written product |
| Autograd.ComponentwiseZeroOffTheRoots | newton_fractal_autograd.py:36-42 | with the script's roots, (0.5, 0.5) is a zero of the as-written product although it is not a root |
| Autograd.EvalP | newton_fractal_autograd.py:38-42 | the loop from (1, 1) with `*` computes the component-wise product of the factors |
| Autograd.Step | newton_fractal_autograd.py:47 | the new point x' solves (x - x') \* grad == p |
| Autograd.StepFixedIffZero | newton_fractal_autograd.py:44-47 | the step leaves x unchanged if and only if p is 0 |
| Autograd.OrbitPrefixDefined | newton_fractal_autograd.py:70-76 | an orbit defined for n steps is defined for every m <= n |
| Autograd.ZeroOrbitIsConstant | newton_fractal_autograd.py:70-76 | a point whose real part is some root's real part, and whose imaginary part is some (possibly other) root's imaginary part, is a zero of the as-written p; with a nonzero gradient there, its orbit never moves |
| Autograd.Fractal.constructor | newton_fractal_autograd.py:4-14 | the fields are allocated at 512 x 512, with the three default roots and the colours red, green and blue |
| Autograd.Fractal.SetX | newton_fractal_autograd.py:16-21 | every x[i, j] becomes its pixel's point in [-1, 1) x [-1, 1) |
| Autograd.Fractal.ComputeP | newton_fractal_autograd.py:36-42 | every p[i, j] is the as-written component-wise product at x[i, j] |
| Autograd.Fractal.SupplyGradient | newton_fractal_autograd.py:74 | every x.grad[i, j] is the given gradient at x[i, j] |
| Autograd.Fractal.Newton | newton_fractal_autograd.py:44-47 | every x[i, j] whose x.grad is nonzero takes one step with p[i, j] and x.grad[i, j] |
| Autograd.Fractal.Render | newton_fractal_autograd.py:55-65 | every image[i, j] is the colour of the first-index nearest root to x[i, j] |
| Autograd.Fractal.UpdateWith | newton_fractal_autograd.py:70-76 | for any iteration count, every pixel whose orbit is defined ends on that orbit's point, and every image[i, j] is the colour of the root nearest x[i, j] |
| Autograd.Fractal.Update | newton_fractal_autograd.py:70-76 | with iterations = 0, x is the untransformed grid, and the image is the nearest-root colouring of each pixel's own point |

## Left out

- The Taichi runtime (`ti.init`, GPU back-ends, parallel kernel launch) is not modelled. Kernels are sequential nested loops, and no pixel reads another pixel's state.
- `f32`/`f64` rounding, infinities and NaN are not modelled: points are exact reals.
- Ggui.Fractal.Newton: where p_grad is (0, 0) the script divides 0 by 0 and writes NaN into x. The model leaves that point unstepped and promises nothing about it.
- Autograd.Fractal.Newton: where x.grad is (0, 0) the script writes NaN into x as well. The model leaves that point unstepped and promises nothing about it.
- Ggui.Fractal.Update: promises the final point only for pixels whose orbit stays defined (`Orbit(...)` is `Some`). That excludes pixel (360, 360) of the start-up frame (`Ggui.StartUpFrameHasUndefinedPixel`) and of every frame zoomed without panning while the roots keep their default positions. There the script's x is NaN. Every comparison with NaN is false, so its scan keeps root 0 and the pixel gets root 0's colour. The model's colour for that pixel is the one nearest to whatever value it left in x.
- Autograd.Fractal.UpdateWith: promises the final point only for pixels whose orbit stays defined, as above.
- The square root in `norm()` is left out: distances are compared squared, and the square root does not change which root is nearest.
- The reverse-mode autodiff behind `compute_p.grad()` is not modelled. The gradient is a parameter `gradAt`, and `SupplyGradient` writes it into `x.grad`.
- Autograd.Fractal.SupplyGradient: overwrites `x.grad`. Taichi's adjoint kernel instead adds into `x.grad`, seeded from `p.grad`, which the script never sets. Read that way, `x.grad` stays (0, 0) and any `iterations >= 1` would divide by zero at every pixel. The model does not capture this; with the script's `iterations = 0` it does not arise.
- The window loops (newton_fractal_ggui.py:104-140, newton_fractal_autograd.py:80-84) are I/O and are left out. That includes the key handling that changes `scale` and the translation, the sliders that move roots and the colour editors. Their effect on a frame is captured because `SetX` and `Update` read the current `scale`, translation, roots and colours.
- The autograd script's `complex_mul` (newton_fractal_autograd.py:23-25) is defined but never called, so it has no separate model. It is the same function as `Complex.Mul`.
