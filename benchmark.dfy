/**
  The naive reference generator used to benchmark and test the vectorised one:
  it builds the abscissas and both ordinate lists one element at a time, then
  appends the points of the two surfaces one by one.
 */
module Benchmark {
  import opened Profile
  import opened Airfoil

  /**
    The loop-and-append reference. It divides by `n - 1` once per sample, so a
    single sample is a division by zero; zero samples run no loop and give no
    points. For every other count its output is exactly the vectorised outline.
   */
  method GenerateAirfoilPointsSlow(sqrt: real -> real, n: nat) returns (points: seq<Point>)
    requires n != 1
    ensures |points| == if n == 0 then 0 else 2 * n - 1
    ensures points == GenerateAirfoilPoints(Naca0012(sqrt), n)
  {
    var xs: seq<real> := [];
    var ysUpper: seq<real> := [];
    var ysLower: seq<real> := [];
    var i := 0;
    while i < n
      invariant 0 <= i <= n
      invariant |xs| == |ysUpper| == |ysLower| == i
      invariant xs == Samples(i, n)
      invariant forall k :: 0 <= k < i ==> ysUpper[k] == Naca0012Y(sqrt, xs[k], DefaultThickness)
      invariant forall k :: 0 <= k < i ==> ysLower[k] == -ysUpper[k]
    {
      var x := i as real / (n - 1) as real;
      xs := xs + [x];
      var y := Naca0012Y(sqrt, x, DefaultThickness);
      ysUpper := ysUpper + [y];
      ysLower := ysLower + [-y];
      i := i + 1;
    }
    assert n != 0 ==> xs == Linspace(n);

    points := [];
    i := 0;
    while i < n
      invariant 0 <= i <= n
      invariant |points| == i
      invariant forall k :: 0 <= k < i ==> points[k] == Point(xs[n - 1 - k], ysUpper[n - 1 - k], 0.0)
    {
      points := points + [Point(xs[n - 1 - i], ysUpper[n - 1 - i], 0.0)];
      i := i + 1;
    }
    if n == 0 {
      return;
    }
    i := 1;
    while i < n
      invariant 1 <= i <= n
      invariant |points| == n - 1 + i
      invariant forall k :: 0 <= k < n ==> points[k] == Point(xs[n - 1 - k], ysUpper[n - 1 - k], 0.0)
      invariant forall j :: 1 <= j < i ==> points[n - 1 + j] == Point(xs[j], ysLower[j], 0.0)
    {
      points := points + [Point(xs[i], ysLower[i], 0.0)];
      i := i + 1;
    }

    var fast := GenerateAirfoilPoints(Naca0012(sqrt), n);
    forall k | 0 <= k < |points|
      ensures points[k] == fast[k]
    {
      if k < n {
        UpperSurfaceAt(Naca0012(sqrt), n, k);
      } else {
        LowerSurfaceAt(Naca0012(sqrt), n, k - (n - 1));
      }
    }
  }
}
