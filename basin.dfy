/** The `render` kernel's per-pixel work: find the root nearest to the
    iterated point with a strict "<" scan in ascending root order, then look
    up that root's colour.  Distances are compared squared: the square root
    that `norm()` applies is strictly monotone on non-negative reals, so it
    selects the same index. */
module Basin {
  import opened Complex

  datatype Color = Color(r: real, g: real, b: real)

  /** The squared Euclidean distance from x to a root. */
  function Dist2(x: Complex, root: Complex): real {
    Norm2(Sub(x, root))
  }

  /** k is a nearest root, and no root before k is as near. */
  ghost predicate IsFirstNearest(x: Complex, roots: seq<Complex>, k: int) {
    0 <= k < |roots| &&
    (forall r :: 0 <= r < |roots| ==> Dist2(x, roots[k]) <= Dist2(x, roots[r])) &&
    (forall r :: 0 <= r < k ==> Dist2(x, roots[k]) < Dist2(x, roots[r]))
  }

  /** The index the left-to-right scan settles on: a later root replaces the
      current one only when it is strictly nearer. */
  function Nearest(x: Complex, roots: seq<Complex>): (k: nat)
    requires |roots| > 0
    ensures k < |roots|
  {
    if |roots| == 1 then 0
    else
      var k := Nearest(x, roots[..|roots| - 1]);
      if Dist2(x, roots[|roots| - 1]) < Dist2(x, roots[k]) then |roots| - 1 else k
  }

  /** The scan's index is the first-index argmin of the distance. */
  lemma {:induction false} NearestIsFirstNearest(x: Complex, roots: seq<Complex>)
    requires |roots| > 0
    ensures IsFirstNearest(x, roots, Nearest(x, roots))
  {
    if |roots| > 1 {
      var init := roots[..|roots| - 1];
      NearestIsFirstNearest(x, init);
      var k := Nearest(x, init);
      assert forall r :: 0 <= r < |init| ==> init[r] == roots[r];
    }
  }

  /** At most one index is the first-index argmin. */
  lemma FirstNearestIsUnique(x: Complex, roots: seq<Complex>, k1: int, k2: int)
    requires IsFirstNearest(x, roots, k1) && IsFirstNearest(x, roots, k2)
    ensures k1 == k2
  {
    var d1, d2 := Dist2(x, roots[k1]), Dist2(x, roots[k2]);
    assert d1 <= d2 && d2 <= d1;
  }

  /** The comparison of `render`: a root wins when it is strictly nearer than
      the best so far, or when nothing has been seen yet (sentinel -1). */
  function Improves(dist: real, minDist: real): bool {
    dist < minDist || minDist == -1.0
  }

  /** Once a root k has been seen, the best distance so far is Dist2(x,
      roots[k]).  Distances are never negative, so that value is never the
      sentinel -1, and from then on the test is the plain strict "<". */
  lemma SentinelOnlyFirst(x: Complex, roots: seq<Complex>, k: nat, dist: real)
    requires k < |roots|
    ensures Dist2(x, roots[k]) != -1.0
    ensures Improves(dist, Dist2(x, roots[k])) <==> dist < Dist2(x, roots[k])
  {
    Norm2NonNegative(Sub(x, roots[k]));
  }

  /** The per-pixel loop of `render`. */
  method NearestRoot(x: Complex, roots: seq<Complex>) returns (minDistRoot: int)
    requires |roots| > 0
    ensures minDistRoot == Nearest(x, roots)
    ensures IsFirstNearest(x, roots, minDistRoot)
  {
    var minDist := -1.0;
    minDistRoot := -1;
    for r := 0 to |roots|
      invariant r == 0 ==> minDist == -1.0 && minDistRoot == -1
      invariant r > 0 ==> minDistRoot == Nearest(x, roots[..r])
      invariant r > 0 ==> minDist == Dist2(x, roots[minDistRoot])
    {
      var dist := Dist2(x, roots[r]);
      if r > 0 {
        SentinelOnlyFirst(x, roots, minDistRoot, dist);
        assert roots[..r + 1][..r] == roots[..r];
      }
      if Improves(dist, minDist) {
        minDist := dist;
        minDistRoot := r;
      }
    }
    assert roots[..|roots|] == roots;
    NearestIsFirstNearest(x, roots);
  }

  /** The colour `render` writes for a pixel whose point is x. */
  method Colorize(x: Complex, roots: seq<Complex>, colors: seq<Color>) returns (c: Color)
    requires 0 < |roots| <= |colors|
    ensures c == colors[Nearest(x, roots)]
    ensures exists k :: IsFirstNearest(x, roots, k) && c == colors[k]
  {
    var k := NearestRoot(x, roots);
    c := colors[k];
  }
}
