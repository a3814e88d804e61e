/**
  How the mesh driver turns the ordered outline into a closed boundary: one
  straight segment per point, the last one running back to the first point.
  The geometry kernel's calls (adding points and lines, building the curve
  loop) are outside the model; a segment is the pair of point tags it joins.
 */
module CurveLoop {
  import opened Profile
  import opened Airfoil

  /** A straight boundary segment from one point tag to another. */
  datatype Segment<T> = Segment(start: T, end: T)

  /** Segment `i` joins point `i` to point `(i + 1) mod n`. */
  function CyclicSegments<T>(tags: seq<T>): (segs: seq<Segment<T>>)
    ensures |segs| == |tags|
  {
    seq(|tags|, i requires 0 <= i < |tags| => Segment(tags[i], tags[(i + 1) % |tags|]))
  }

  /** The pairing loop of the mesh driver, appending one segment per point tag. */
  method ConnectPoints<T>(pointTags: seq<T>) returns (lineTags: seq<Segment<T>>)
    ensures |lineTags| == |pointTags|
    ensures lineTags == CyclicSegments(pointTags)
  {
    lineTags := [];
    var i := 0;
    while i < |pointTags|
      invariant 0 <= i <= |pointTags|
      invariant lineTags == CyclicSegments(pointTags)[..i]
    {
      var p2 := pointTags[(i + 1) % |pointTags|];
      lineTags := lineTags + [Segment(pointTags[i], p2)];
      i := i + 1;
    }
  }

  /** No two positions of `tags` hold the same tag. */
  predicate Distinct<T(==)>(tags: seq<T>)
  {
    forall i, j :: 0 <= i < j < |tags| ==> tags[i] != tags[j]
  }

  /** The last segment returns to the first point: the loop is closed. */
  lemma LoopCloses<T>(tags: seq<T>)
    requires |tags| >= 1
    ensures CyclicSegments(tags)[|tags| - 1] == Segment(tags[|tags| - 1], tags[0])
  {
    assert (|tags| - 1 + 1) % |tags| == 0;
  }

  /** Every segment but the last joins a point to the one right after it. */
  lemma InteriorSegment<T>(tags: seq<T>, i: nat)
    requires i + 1 < |tags|
    ensures CyclicSegments(tags)[i] == Segment(tags[i], tags[i + 1])
  {
    assert (i + 1) % |tags| == i + 1;
  }

  /**
    If neighbouring points differ and the last point differs from the first,
    no segment starts and ends at the same point.
   */
  lemma NoDegenerateSegment<T>(tags: seq<T>)
    requires forall i :: 0 <= i < |tags| - 1 ==> tags[i] != tags[i + 1]
    requires |tags| >= 1 ==> tags[|tags| - 1] != tags[0]
    ensures forall i :: 0 <= i < |tags| ==> CyclicSegments(tags)[i].start != CyclicSegments(tags)[i].end
  {
    forall i | 0 <= i < |tags|
      ensures CyclicSegments(tags)[i].start != CyclicSegments(tags)[i].end
    {
      if i + 1 < |tags| {
        InteriorSegment(tags, i);
      } else {
        LoopCloses(tags);
      }
    }
  }

  /** A single point closes onto itself: its only segment starts and ends there. */
  lemma SinglePointSelfLoop<T>(tags: seq<T>)
    requires |tags| == 1
    ensures CyclicSegments(tags) == [Segment(tags[0], tags[0])]
  {
  }

  /** Each segment ends where the next one (cyclically) starts. */
  lemma SegmentsChain<T>(tags: seq<T>, i: nat)
    requires i < |tags|
    ensures CyclicSegments(tags)[i].end == CyclicSegments(tags)[(i + 1) % |tags|].start
  {
  }

  /**
    With distinct tags, point `k` is the start of exactly one segment (segment
    `k`) and the end of exactly one segment (segment `(k - 1) mod n`).
   */
  lemma EachPointOnceEachWay<T>(tags: seq<T>, k: nat)
    requires Distinct(tags) && k < |tags|
    ensures forall i :: 0 <= i < |tags| ==> (CyclicSegments(tags)[i].start == tags[k] <==> i == k)
    ensures forall i :: 0 <= i < |tags| ==>
      (CyclicSegments(tags)[i].end == tags[k] <==> i == (k + |tags| - 1) % |tags|)
  {
    var n := |tags|;
    var segs := CyclicSegments(tags);
    forall i | 0 <= i < n
      ensures segs[i].start == tags[k] <==> i == k
    {
      if i < k {
        assert tags[i] != tags[k];
      } else if k < i {
        assert tags[k] != tags[i];
      }
    }
    forall i | 0 <= i < n
      ensures segs[i].end == tags[k] <==> i == (k + n - 1) % n
    {
      var m := (i + 1) % n;
      assert segs[i].end == tags[m];
      SuccessorInverse(n, i, k);
      if m < k {
        assert tags[m] != tags[k];
      } else if k < m {
        assert tags[k] != tags[m];
      }
    }
  }

  /** The cyclic successor is a bijection on `[0, n)`: `(i + 1) mod n == k` exactly when `i == (k - 1) mod n`. */
  lemma SuccessorInverse(n: nat, i: nat, k: nat)
    requires i < n && k < n
    ensures (i + 1) % n == k <==> i == (k + n - 1) % n
  {
    if i + 1 < n {
      assert (i + 1) % n == i + 1;
    } else {
      assert (i + 1) % n == 0;
    }
    if k >= 1 {
      assert (k + n - 1) % n == k - 1;
    } else {
      assert (k + n - 1) % n == n - 1;
    }
  }

  /**
    The segment that closes the airfoil outline joins the lower trailing-edge
    point back to the upper one: both lie at x = 1, at y = -0.00126 and
    y = +0.00126.
   */
  lemma AirfoilClosingSegment(sqrt: real -> real, n: nat)
    requires n >= 2 && sqrt(1.0) == 1.0
    ensures CyclicSegments(GenerateAirfoilPoints(Naca0012(sqrt), n))[2 * n - 2]
         == Segment(Point(1.0, -0.00126, 0.0), Point(1.0, 0.00126, 0.0))
  {
    var pts := GenerateAirfoilPoints(Naca0012(sqrt), n);
    assert pts[0] == Point(1.0, 0.00126, 0.0) && pts[2 * n - 2] == Point(1.0, -0.00126, 0.0) by {
      TrailingEdges(sqrt, n);
    }
    LoopCloses(pts);
  }

  /**
    Closing the airfoil outline this way never yields a degenerate segment:
    consecutive points differ in abscissa, and the closing segment joins the two
    trailing-edge points, which share x = 1 but differ in y.
   */
  lemma AirfoilSegmentsNonDegenerate(sqrt: real -> real, n: nat)
    requires n >= 2 && sqrt(1.0) == 1.0
    ensures forall i :: 0 <= i < 2 * n - 1 ==>
      CyclicSegments(GenerateAirfoilPoints(Naca0012(sqrt), n))[i].start != CyclicSegments(GenerateAirfoilPoints(Naca0012(sqrt), n))[i].end
  {
    var pts := GenerateAirfoilPoints(Naca0012(sqrt), n);
    forall i | 0 <= i < |pts| - 1
      ensures pts[i] != pts[i + 1]
    {
      NeighboursDiffer(Naca0012(sqrt), n, i);
    }
    assert pts[|pts| - 1] != pts[0] by {
      TrailingEdges(sqrt, n);
    }
    NoDegenerateSegment(pts);
  }
}
