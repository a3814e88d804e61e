/**
  The boundary assembler: the vectorised construction of the airfoil outline
  that is handed to the mesher. Every array operation of mesh_generation.py
  (evenly spaced abscissas, reverse slice, drop-first slice, negation,
  concatenation, column stacking) is a function on sequences here.
 */
module Airfoil {
  import opened Profile

  /** One boundary point; the profile is planar, so `z` is always 0. */
  datatype Point = Point(x: real, y: real, z: real)

  // ---------------------------------------------------------------------------
  // Evenly spaced abscissas
  // ---------------------------------------------------------------------------

  /**
    `n` evenly spaced abscissas from 0 to 1 inclusive. As in the array library,
    one sample is the single value 0 and zero samples give no values.
   */
  function Linspace(n: nat): (xs: seq<real>)
    ensures |xs| == n
  {
    if n == 1 then [0.0] else Samples(n, n)
  }

  /** The first `k` of `n` evenly spaced abscissas, sample `i` being `i / (n - 1)`. */
  function Samples(k: nat, n: nat): (xs: seq<real>)
    requires k <= n && n != 1
    ensures |xs| == k
  {
    if k == 0 then [] else Samples(k - 1, n) + [(k - 1) as real / (n - 1) as real]
  }

  /** Sample `i` is `i / (n - 1)`. */
  lemma {:induction false} SamplesAt(k: nat, n: nat, i: nat)
    requires k <= n && n != 1 && i < k
    ensures Samples(k, n)[i] == i as real / (n - 1) as real
  {
    if i < k - 1 {
      SamplesAt(k - 1, n, i);
    }
  }

  /** For two or more samples, abscissa `i` is `i / (n - 1)`. */
  lemma LinspaceAt(n: nat, i: nat)
    requires 2 <= n && i < n
    ensures Linspace(n)[i] == i as real / (n - 1) as real
  {
    SamplesAt(n, n, i);
  }

  /** Division by a positive denominator keeps the order of the numerators. */
  lemma ScaledOrder(p: real, q: real, d: real)
    requires d > 0.0
    ensures p <= q ==> p / d <= q / d
    ensures p < q ==> p / d < q / d
  {
    assert (q / d - p / d) * d == q - p;
  }

  /** A quotient whose numerator lies between 0 and the positive denominator lies in [0, 1]. */
  lemma QuotientInUnitInterval(p: real, d: real)
    requires d > 0.0 && 0.0 <= p <= d
    ensures 0.0 <= p / d <= 1.0
  {
    assert (p / d) * d == p;
  }

  /** Every abscissa lies in [0, 1]. */
  lemma LinspaceInUnitInterval(n: nat, i: nat)
    requires i < n
    ensures 0.0 <= Linspace(n)[i] <= 1.0
  {
    if n >= 2 {
      var d := (n - 1) as real;
      QuotientInUnitInterval(i as real, d);
      LinspaceAt(n, i);
    }
  }

  /** Later samples lie strictly further along the chord. */
  lemma LinspaceIncreasing(n: nat, i: nat, j: nat)
    requires i < j < n
    ensures Linspace(n)[i] < Linspace(n)[j]
  {
    LinspaceAt(n, i);
    LinspaceAt(n, j);
    ScaledOrder(i as real, j as real, (n - 1) as real);
  }

  /** The first abscissa is the leading edge 0 and the last the trailing edge 1. */
  lemma LinspaceEnds(n: nat)
    ensures n >= 1 ==> Linspace(n)[0] == 0.0
    ensures n >= 2 ==> Linspace(n)[n - 1] == 1.0
  {
    if n >= 2 {
      var d := (n - 1) as real;
      LinspaceAt(n, 0);
      LinspaceAt(n, n - 1);
      assert d / d == 1.0;
    }
  }

  /** Strict increase along a sequence. */
  ghost predicate StrictlyIncreasing(xs: seq<real>)
  {
    forall i, j :: 0 <= i < j < |xs| ==> xs[i] < xs[j]
  }

  /**
    The abscissas lie in [0, 1], start at 0, end at 1 and strictly increase, so
    none of them is negative and the square root is never taken of one.
   */
  lemma LinspaceShape(n: nat)
    ensures forall i :: 0 <= i < n ==> 0.0 <= Linspace(n)[i] <= 1.0
    ensures n >= 1 ==> Linspace(n)[0] == 0.0
    ensures n >= 2 ==> Linspace(n)[n - 1] == 1.0
    ensures StrictlyIncreasing(Linspace(n))
  {
    forall i | 0 <= i < n
      ensures 0.0 <= Linspace(n)[i] <= 1.0
    {
      LinspaceInUnitInterval(n, i);
    }
    forall i, j | 0 <= i < j < n
      ensures Linspace(n)[i] < Linspace(n)[j]
    {
      LinspaceIncreasing(n, i, j);
    }
    LinspaceEnds(n);
  }

  // ---------------------------------------------------------------------------
  // Array operations
  // ---------------------------------------------------------------------------

  /** Reverse slice `s[::-1]`. */
  function Reverse<T>(s: seq<T>): (r: seq<T>)
    ensures |r| == |s|
  {
    if s == [] then [] else Reverse(s[1..]) + [s[0]]
  }

  /** Element `k` of the reversal is element `|s| - 1 - k` of the original. */
  lemma {:induction false} ReverseAt<T>(s: seq<T>, k: nat)
    requires k < |s|
    ensures Reverse(s)[k] == s[|s| - 1 - k]
  {
    if k < |s| - 1 {
      ReverseAt(s[1..], k);
    }
  }

  /** Reversing twice gives the original back. */
  lemma ReverseInvolution<T>(s: seq<T>)
    ensures Reverse(Reverse(s)) == s
  {
    forall k | 0 <= k < |s|
      ensures Reverse(Reverse(s))[k] == s[k]
    {
      ReverseAt(Reverse(s), k);
      ReverseAt(s, |s| - 1 - k);
    }
  }

  /** Slice `s[1:]`, which is empty (not an error) on an empty array. */
  function DropFirst<T>(s: seq<T>): (r: seq<T>)
    ensures |r| == if |s| == 0 then 0 else |s| - 1
  {
    if |s| == 0 then [] else s[1..]
  }

  /** Element-wise negation `-s`. */
  function Negate(s: seq<real>): (r: seq<real>)
    ensures |r| == |s|
  {
    if s == [] then [] else [-s[0]] + Negate(s[1..])
  }

  /** Element `i` of the negation is the negated element `i`. */
  lemma {:induction false} NegateAt(s: seq<real>, i: nat)
    requires i < |s|
    ensures Negate(s)[i] == -s[i]
  {
    if i > 0 {
      NegateAt(s[1..], i - 1);
    }
  }

  /** Negation is undone by negating again, so no magnitude is lost. */
  lemma NegateInvolution(s: seq<real>)
    ensures Negate(Negate(s)) == s
  {
    forall i | 0 <= i < |s|
      ensures Negate(Negate(s))[i] == s[i]
    {
      NegateAt(Negate(s), i);
      NegateAt(s, i);
    }
  }

  /**
    A thickness function applied to a whole array of abscissas at once.
   */
  function Thickness(profile: real -> real, xs: seq<real>): (ys: seq<real>)
    ensures |ys| == |xs|
  {
    if xs == [] then []
    else [profile(xs[0])] + Thickness(profile, xs[1..])
  }

  /** Scalar/batch agreement: element `i` of the batch is the scalar evaluation at `xs[i]`. */
  lemma {:induction false} ThicknessAt(profile: real -> real, xs: seq<real>, i: nat)
    requires i < |xs|
    ensures Thickness(profile, xs)[i] == profile(xs[i])
  {
    if i > 0 {
      ThicknessAt(profile, xs[1..], i - 1);
    }
  }

  /** An all-zero array of length `n`. */
  function Zeros(n: nat): (zs: seq<real>)
    ensures |zs| == n
  {
    if n == 0 then [] else Zeros(n - 1) + [0.0]
  }

  /** Every element of `Zeros(n)` is 0. */
  lemma {:induction false} ZerosAt(n: nat, i: nat)
    requires i < n
    ensures Zeros(n)[i] == 0.0
  {
    if i < n - 1 {
      ZerosAt(n - 1, i);
    }
  }

  /** Three equally long columns stacked into rows. */
  function ColumnStack(xs: seq<real>, ys: seq<real>, zs: seq<real>): (pts: seq<Point>)
    requires |xs| == |ys| == |zs|
    ensures |pts| == |xs|
  {
    if xs == [] then []
    else [Point(xs[0], ys[0], zs[0])] + ColumnStack(xs[1..], ys[1..], zs[1..])
  }

  /** Row `i` of the stacked columns is `(xs[i], ys[i], zs[i])`. */
  lemma {:induction false} ColumnStackAt(xs: seq<real>, ys: seq<real>, zs: seq<real>, i: nat)
    requires |xs| == |ys| == |zs| && i < |xs|
    ensures ColumnStack(xs, ys, zs)[i] == Point(xs[i], ys[i], zs[i])
  {
    if i > 0 {
      ColumnStackAt(xs[1..], ys[1..], zs[1..], i - 1);
    }
  }

  // ---------------------------------------------------------------------------
  // Assembly of the outline
  // ---------------------------------------------------------------------------

  /**
    The outline assembled from the sample abscissas `x` and their thicknesses
    `y`: the upper surface from trailing edge to leading edge, then the lower
    surface from just past the leading edge back to the trailing edge, with its
    ordinates negated.
   */
  function Assemble(x: seq<real>, y: seq<real>): (pts: seq<Point>)
    requires |x| == |y|
    ensures |pts| == if |x| == 0 then 0 else 2 * |x| - 1
  {
    var xUpper := Reverse(x);
    var yUpper := Reverse(y);
    var xLower := DropFirst(x);
    var yLower := Negate(DropFirst(y));
    var xCoords := xUpper + xLower;
    var yCoords := yUpper + yLower;
    ColumnStack(xCoords, yCoords, Zeros(|xCoords|))
  }

  /**
    `pts` is the outline of the samples `(x[i], y[i])`: `2|x| - 1` points, the
    first `|x|` the samples in reverse, the rest samples `1 ..` with `y` negated.
   */
  ghost predicate IsOutline(x: seq<real>, y: seq<real>, pts: seq<Point>)
    requires |x| == |y|
  {
    && |pts| == (if |x| == 0 then 0 else 2 * |x| - 1)
    && (forall k :: 0 <= k < |x| ==> pts[k] == Point(x[|x| - 1 - k], y[|x| - 1 - k], 0.0))
    && (forall j :: 1 <= j < |x| ==> pts[|x| - 1 + j] == Point(x[j], -y[j], 0.0))
  }

  /** Assembly produces exactly the outline of its samples. */
  lemma AssembleIsOutline(x: seq<real>, y: seq<real>)
    requires |x| == |y|
    ensures IsOutline(x, y, Assemble(x, y))
  {
    var n := |x|;
    var xCoords := Reverse(x) + DropFirst(x);
    var yCoords := Reverse(y) + Negate(DropFirst(y));
    var zCoords := Zeros(|xCoords|);
    forall k | 0 <= k < n
      ensures Assemble(x, y)[k] == Point(x[n - 1 - k], y[n - 1 - k], 0.0)
    {
      ColumnStackAt(xCoords, yCoords, zCoords, k);
      ZerosAt(|xCoords|, k);
      ReverseAt(x, k);
      ReverseAt(y, k);
    }
    forall j | 1 <= j < n
      ensures Assemble(x, y)[n - 1 + j] == Point(x[j], -y[j], 0.0)
    {
      ColumnStackAt(xCoords, yCoords, zCoords, n - 1 + j);
      ZerosAt(|xCoords|, n - 1 + j);
      assert xCoords[n - 1 + j] == DropFirst(x)[j - 1] == x[j];
      NegateAt(DropFirst(y), j - 1);
      assert yCoords[n - 1 + j] == Negate(DropFirst(y))[j - 1];
    }
  }

  /** The abscissa of outline point `k`, as an index into the samples. */
  function SampleIndex(n: nat, k: nat): (i: nat)
    requires 1 <= n && k < 2 * n - 1
    ensures i < n
    ensures i == 0 <==> k == n - 1
  {
    if k < n then n - 1 - k else k - (n - 1)
  }

  /** Outline point `k` has the abscissa of sample `SampleIndex(|x|, k)`. */
  lemma OutlineAbscissa(x: seq<real>, y: seq<real>, pts: seq<Point>, k: nat)
    requires |x| == |y| && IsOutline(x, y, pts) && k < |pts|
    ensures |x| >= 1 && pts[k].x == x[SampleIndex(|x|, k)]
  {
    var n := |x|;
    if k >= n {
      assert pts[n - 1 + (k - (n - 1))] == Point(x[k - (n - 1)], -y[k - (n - 1)], 0.0);
    }
  }

  /** Point `k < |x|` of an outline is sample `|x| - 1 - k`. */
  lemma OutlineUpper(x: seq<real>, y: seq<real>, pts: seq<Point>, k: nat)
    requires |x| == |y| && IsOutline(x, y, pts) && k < |x|
    ensures pts[k] == Point(x[|x| - 1 - k], y[|x| - 1 - k], 0.0)
  {
  }

  /** Point `|x| - 1 + j`, for `1 <= j < |x|`, of an outline is sample `j` mirrored. */
  lemma OutlineLower(x: seq<real>, y: seq<real>, pts: seq<Point>, j: nat)
    requires |x| == |y| && IsOutline(x, y, pts) && 1 <= j < |x|
    ensures pts[|x| - 1 + j] == Point(x[j], -y[j], 0.0)
  {
  }

  /** Every point of an outline lies in the plane z = 0. */
  lemma OutlinePlanar(x: seq<real>, y: seq<real>, pts: seq<Point>)
    requires |x| == |y| && IsOutline(x, y, pts)
    ensures forall k :: 0 <= k < |pts| ==> pts[k].z == 0.0
  {
    var n := |x|;
    forall k | 0 <= k < |pts|
      ensures pts[k].z == 0.0
    {
      if k >= n {
        var j := k - (n - 1);
        assert pts[n - 1 + j] == Point(x[j], -y[j], 0.0);
      }
    }
  }

  /**
    With strictly increasing abscissas starting at 0, abscissa 0 occurs in the
    outline exactly once, at index `|x| - 1`, and neighbouring points never
    share an abscissa.
   */
  lemma OutlineOrder(x: seq<real>, y: seq<real>, pts: seq<Point>)
    requires |x| == |y| && IsOutline(x, y, pts) && |x| >= 1
    requires StrictlyIncreasing(x) && x[0] == 0.0
    ensures forall k :: 0 <= k < |pts| ==> (pts[k].x == 0.0 <==> k == |x| - 1)
    ensures forall k :: 0 <= k < |pts| - 1 ==> pts[k].x != pts[k + 1].x
  {
    var n := |x|;
    forall k | 0 <= k < |pts|
      ensures pts[k].x == 0.0 <==> k == n - 1
    {
      OutlineAbscissa(x, y, pts, k);
      var i := SampleIndex(n, k);
      if i != 0 {
        assert x[0] < x[i];
      }
    }
    forall k | 0 <= k < |pts| - 1
      ensures pts[k].x != pts[k + 1].x
    {
      OutlineAbscissa(x, y, pts, k);
      OutlineAbscissa(x, y, pts, k + 1);
      var a, b := SampleIndex(n, k), SampleIndex(n, k + 1);
      if a < b {
        assert x[a] < x[b];
      } else {
        assert x[b] < x[a];
      }
    }
  }

  // ---------------------------------------------------------------------------
  // generate_airfoil_points
  // ---------------------------------------------------------------------------

  /**
    The outline for `n` samples per surface. The thickness function is a
    parameter; mesh_generation.py always evaluates the NACA 0012 profile,
    `Naca0012(sqrt)`, once over all abscissas. Its structure is proved for every
    profile.
   */
  function GenerateAirfoilPoints(profile: real -> real, n: nat): (pts: seq<Point>)
    ensures |pts| == if n == 0 then 0 else 2 * n - 1
  {
    var x := Linspace(n);
    Assemble(x, Thickness(profile, x))
  }

  /**
    The generated points are the outline of the samples `(x_i, profile(x_i))`,
    the thickness evaluated once per abscissa and shared by both surfaces.
   */
  lemma GeneratedIsOutline(profile: real -> real, n: nat)
    ensures IsOutline(Linspace(n), Thickness(profile, Linspace(n)), GenerateAirfoilPoints(profile, n))
  {
    AssembleIsOutline(Linspace(n), Thickness(profile, Linspace(n)));
  }

  /** Point `k` of the first `n` lies on the upper surface, taken in reverse. */
  lemma UpperSurfaceAt(profile: real -> real, n: nat, k: nat)
    requires k < n
    ensures GenerateAirfoilPoints(profile, n)[k]
         == Point(Linspace(n)[n - 1 - k], profile(Linspace(n)[n - 1 - k]), 0.0)
  {
    var x := Linspace(n);
    GeneratedIsOutline(profile, n);
    OutlineUpper(x, Thickness(profile, x), GenerateAirfoilPoints(profile, n), k);
    ThicknessAt(profile, x, n - 1 - k);
  }

  /** Point `n - 1 + j`, for `1 <= j < n`, is sample `j` mirrored below the chord. */
  lemma LowerSurfaceAt(profile: real -> real, n: nat, j: nat)
    requires 1 <= j < n
    ensures GenerateAirfoilPoints(profile, n)[n - 1 + j]
         == Point(Linspace(n)[j], -profile(Linspace(n)[j]), 0.0)
  {
    var x := Linspace(n);
    var y := Thickness(profile, x);
    var pts := GenerateAirfoilPoints(profile, n);
    assert |x| == n;
    assert pts[n - 1 + j] == Point(x[j], -y[j], 0.0) by {
      GeneratedIsOutline(profile, n);
      OutlineLower(x, y, pts, j);
    }
    assert y[j] == profile(x[j]) by {
      ThicknessAt(profile, x, j);
    }
  }

  /** Every point lies in the plane z = 0. */
  lemma PlanarOutline(profile: real -> real, n: nat)
    ensures forall k :: 0 <= k < |GenerateAirfoilPoints(profile, n)| ==> GenerateAirfoilPoints(profile, n)[k].z == 0.0
  {
    GeneratedIsOutline(profile, n);
    OutlinePlanar(Linspace(n), Thickness(profile, Linspace(n)), GenerateAirfoilPoints(profile, n));
  }

  /**
    The two surfaces are mirror images: points `n - 1 - j` and `n - 1 + j`
    share their abscissa and have exactly opposite ordinates, both taken from
    the one evaluation of the thickness at sample `j`.
   */
  lemma SurfaceSymmetry(profile: real -> real, n: nat, j: nat)
    requires 1 <= j < n
    ensures GenerateAirfoilPoints(profile, n)[n - 1 - j].x == GenerateAirfoilPoints(profile, n)[n - 1 + j].x
    ensures GenerateAirfoilPoints(profile, n)[n - 1 + j].y == -GenerateAirfoilPoints(profile, n)[n - 1 - j].y
  {
    UpperSurfaceAt(profile, n, n - 1 - j);
    LowerSurfaceAt(profile, n, j);
  }

  /**
    The leading edge (x = 0) occurs exactly once, at index `n - 1`: no other
    point has abscissa 0, so no other point equals it.
   */
  lemma LeadingEdgeOnce(profile: real -> real, n: nat)
    requires n >= 1
    ensures GenerateAirfoilPoints(profile, n)[n - 1].x == 0.0
    ensures forall k :: 0 <= k < 2 * n - 1 ==>
      (GenerateAirfoilPoints(profile, n)[k].x == 0.0 <==> k == n - 1)
    ensures forall k :: 0 <= k < 2 * n - 1 ==>
      (GenerateAirfoilPoints(profile, n)[k] == GenerateAirfoilPoints(profile, n)[n - 1] <==> k == n - 1)
  {
    GeneratedIsOutline(profile, n);
    LinspaceShape(n);
    OutlineOrder(Linspace(n), Thickness(profile, Linspace(n)), GenerateAirfoilPoints(profile, n));
  }

  /** Neighbouring points of the outline never share an abscissa. */
  lemma NeighboursDiffer(profile: real -> real, n: nat, k: nat)
    requires 1 <= n && k + 1 < 2 * n - 1
    ensures GenerateAirfoilPoints(profile, n)[k].x != GenerateAirfoilPoints(profile, n)[k + 1].x
  {
    GeneratedIsOutline(profile, n);
    LinspaceShape(n);
    OutlineOrder(Linspace(n), Thickness(profile, Linspace(n)), GenerateAirfoilPoints(profile, n));
  }

  /** Both ends of the outline lie at the trailing edge x = 1, whatever the profile. */
  lemma TrailingEdgeAbscissa(profile: real -> real, n: nat)
    requires n >= 2
    ensures GenerateAirfoilPoints(profile, n)[0].x == 1.0
    ensures GenerateAirfoilPoints(profile, n)[2 * n - 2].x == 1.0
  {
    UpperSurfaceAt(profile, n, 0);
    LowerSurfaceAt(profile, n, n - 1);
    LinspaceEnds(n);
  }

  /** With sqrt(0) = 0 the leading-edge point of the NACA 0012 outline is the origin. */
  lemma LeadingEdgeAtOrigin(sqrt: real -> real, n: nat)
    requires n >= 1 && sqrt(0.0) == 0.0
    ensures GenerateAirfoilPoints(Naca0012(sqrt), n)[n - 1] == Point(0.0, 0.0, 0.0)
  {
    UpperSurfaceAt(Naca0012(sqrt), n, n - 1);
    LinspaceEnds(n);
    LeadingEdgeThickness(sqrt, DefaultThickness);
  }

  /**
    For the NACA 0012 profile with sqrt(1) = 1 the two trailing-edge points are
    (1, +0.00126, 0) and (1, -0.00126, 0): the first and the last point are
    distinct, so the outline is not closed explicitly.
   */
  lemma TrailingEdges(sqrt: real -> real, n: nat)
    requires n >= 2 && sqrt(1.0) == 1.0
    ensures GenerateAirfoilPoints(Naca0012(sqrt), n)[0] == Point(1.0, 0.00126, 0.0)
    ensures GenerateAirfoilPoints(Naca0012(sqrt), n)[2 * n - 2] == Point(1.0, -0.00126, 0.0)
  {
    UpperSurfaceAt(Naca0012(sqrt), n, 0);
    LowerSurfaceAt(Naca0012(sqrt), n, n - 1);
    LinspaceEnds(n);
    TrailingEdgeResidual(sqrt, DefaultThickness);
  }

  /** Two samples per surface give three points: trailing edge, leading edge, trailing edge. */
  lemma TwoSamples(profile: real -> real)
    ensures GenerateAirfoilPoints(profile, 2)
         == [Point(1.0, profile(1.0), 0.0), Point(0.0, profile(0.0), 0.0), Point(1.0, -profile(1.0), 0.0)]
  {
    UpperSurfaceAt(profile, 2, 0);
    UpperSurfaceAt(profile, 2, 1);
    LowerSurfaceAt(profile, 2, 1);
    LinspaceEnds(2);
  }

  /** One sample gives the single leading-edge point; no error is raised. */
  lemma OneSample(profile: real -> real)
    ensures GenerateAirfoilPoints(profile, 1) == [Point(0.0, profile(0.0), 0.0)]
  {
    UpperSurfaceAt(profile, 1, 0);
  }
}
