/**
  The NACA 0012 thickness distribution (the profile evaluator).

  The square root comes from a numeric library the model cannot see, so it is
  a parameter `sqrt` of every member; the only facts the model uses about it
  are the two anchors `sqrt(0) = 0` and `sqrt(1) = 1`.
 */
module Profile {

  /** Thickness ratio used when the caller gives none (12 % of the chord). */
  const DefaultThickness: real := 0.12

  /** Half-thickness of the airfoil at chord fraction `x` for thickness ratio `t`. */
  function Naca0012Y(sqrt: real -> real, x: real, t: real): real
  {
    5.0 * t * (0.2969 * sqrt(x) - 0.1260 * x - 0.3516 * (x * x)
               + 0.2843 * (x * x * x) - 0.1015 * (x * x * x * x))
  }

  /** `naca0012_y` with the default thickness ratio, as a function of `x` alone. */
  function Naca0012(sqrt: real -> real): (y: real -> real)
  {
    x => Naca0012Y(sqrt, x, DefaultThickness)
  }

  /** What a genuine square root on the non-negative reals promises. */
  ghost predicate IsSquareRoot(sqrt: real -> real)
  {
    forall x :: 0.0 <= x ==> 0.0 <= sqrt(x) && sqrt(x) * sqrt(x) == x
  }

  /** The two anchors the rest of the model relies on. */
  predicate Anchored(sqrt: real -> real)
  {
    sqrt(0.0) == 0.0 && sqrt(1.0) == 1.0
  }

  /** Any genuine square root meets the anchors, so assuming them is sound. */
  lemma SquareRootIsAnchored(sqrt: real -> real)
    requires IsSquareRoot(sqrt)
    ensures Anchored(sqrt)
  {
    NonNegativeRootUnique(sqrt(0.0), 0.0);
    NonNegativeRootUnique(sqrt(1.0), 1.0);
  }

  /** A non-negative real is determined by its square. */
  lemma NonNegativeRootUnique(r: real, v: real)
    requires 0.0 <= r && 0.0 <= v && r * r == v * v
    ensures r == v
  {
    assert (r - v) * (r + v) == 0.0;
    assert r - v == 0.0 || r + v == 0.0;
  }

  /** The profile is closed at the leading edge: y(0) = 0 for every thickness ratio. */
  lemma LeadingEdgeThickness(sqrt: real -> real, t: real)
    requires sqrt(0.0) == 0.0
    ensures Naca0012Y(sqrt, 0.0, t) == 0.0
  {
  }

  /**
    The profile is NOT closed at the trailing edge: y(1) = 0.0105 t, which is
    positive for every positive thickness ratio and 0.00126 for the default one.
   */
  lemma TrailingEdgeResidual(sqrt: real -> real, t: real)
    requires sqrt(1.0) == 1.0
    ensures Naca0012Y(sqrt, 1.0, t) == 0.0105 * t
    ensures t > 0.0 ==> Naca0012Y(sqrt, 1.0, t) > 0.0
    ensures Naca0012Y(sqrt, 1.0, DefaultThickness) == 0.00126
  {
  }
}
