# NACA 0012 boundary-point generator

This project models the part of the airfoil mesher that builds the boundary of a
NACA 0012 profile before it goes to the mesh generator:

- `Profile` is the thickness distribution `naca0012_y`. It gives the half-thickness
  `5t(0.2969 sqrt(x) - 0.1260 x - 0.3516 x^2 + 0.2843 x^3 - 0.1015 x^4)` at chord fraction `x`.
- `Airfoil` is the vectorised assembler `generate_airfoil_points`. It works as follows:
  - It takes `N` evenly spaced abscissas on [0, 1] and evaluates the thickness once per abscissa.
  - It emits the upper surface from the trailing edge to the leading edge.
  - It then emits the lower surface from just past the leading edge back to the trailing edge, with the ordinates negated.
  - Each array operation (`linspace`, `[::-1]`, `[1:]`, unary minus, `concatenate`, `zeros_like`, `column_stack`) is a function on sequences.
  - The assembler is generic in the thickness function. mesh_generation.py always uses `Naca0012(sqrt)`, so every structural fact holds for every profile.
- `CurveLoop` is the index-pairing loop of `generate_gmsh_mesh`. It joins point `i` to point `(i + 1) mod n`, and the last segment closes the loop.
- `Benchmark` is the loop-and-append reference `generate_airfoil_points_slow`. It is an imperative method with three loops, and it is proved equal, point for point, to the vectorised outline.

The model uses real numbers, so the two generators agree exactly rather than up to a tolerance. The square root belongs to a numeric library, so it is a parameter `sqrt` of the members that need it. The only facts used about it are `sqrt(0) = 0` and `sqrt(1) = 1`. `Profile.SquareRootIsAnchored` shows that every genuine non-negative square root satisfies both.

Behaviour at small sample counts follows the code:
- With `N = 0` the vectorised generator returns no points.
- With `N = 1` the vectorised generator returns the single leading-edge point and raises no error, and the command-line guard (mesh_generation.py:118) only rejects `N <= 0`.
- The slow reference divides by `N - 1`. It is therefore modelled for every `N` except 1, and for `N = 0` it also returns no points.

`Profile.Naca0012Y` raises `x` to the powers 2, 3 and 4 directly, as mesh_generation.py:14-15 does.

## Model

| member | source | states |
|---|---|---|
| Profile.Naca0012Y | mesh_generation.py:11-16 | the half-thickness at chord fraction x for thickness ratio t is 5t(0.2969 sqrt(x) - 0.1260 x - 0.3516 x^2 + 0.2843 x^3 - 0.1015 x^4) |
| Profile.Naca0012 | mesh_generation.py:11 | `naca0012_y` with its default thickness ratio t = 0.12, as a function of x alone |
| Profile.LeadingEdgeThickness | mesh_generation.py:11-16 | when sqrt(0) = 0, the half-thickness at x = 0 is 0 for every thickness ratio: the profile is closed at the leading edge |
| Profile.TrailingEdgeResidual | mesh_generation.py:11-16 | when sqrt(1) = 1, the half-thickness at x = 1 is 0.0105 t; this is positive for every positive t and equals 0.00126 for the default t = 0.12, so the trailing edge is open |
| Profile.SquareRootIsAnchored | mesh_generation.py:14 | every function that is a non-negative square root on the non-negative reals maps 0 to 0 and 1 to 1, so the model's two assumptions about the square root are sound |
| Airfoil.Linspace | mesh_generation.py:20 | `linspace(0, 1, n)` has exactly n samples, including for n = 0 and n = 1 |
| Airfoil.Samples | benchmark_mesh_generation.py:15-17 | the first k of the evenly spaced samples number exactly k |
| Airfoil.SamplesAt | benchmark_mesh_generation.py:15-17 | sample i is i / (n - 1) |
| Airfoil.LinspaceAt | mesh_generation.py:20 | for n >= 2, abscissa i is i / (n - 1) |
| Airfoil.LinspaceInUnitInterval | mesh_generation.py:20 | every abscissa lies in [0, 1] |
| Airfoil.LinspaceIncreasing | mesh_generation.py:20 | a later abscissa is strictly larger than an earlier one |
| Airfoil.LinspaceEnds | mesh_generation.py:20 | the first abscissa is 0 (n >= 1) and the last is 1 (n >= 2) |
| Airfoil.LinspaceShape | mesh_generation.py:20 | the abscissas lie in [0, 1], start at 0, end at 1 and strictly increase |
| Airfoil.Reverse | mesh_generation.py:27-28 | the reversal keeps the length |
| Airfoil.ReverseAt | mesh_generation.py:27-28 | element k of `s[::-1]` is element len - 1 - k of s |
| Airfoil.ReverseInvolution | mesh_generation.py:27-28 | reversing twice restores the array |
| Airfoil.DropFirst | mesh_generation.py:30-31 | `s[1:]` is one shorter than s, and empty (not an error) when s is empty |
| Airfoil.Negate | mesh_generation.py:31 | negation keeps the length |
| Airfoil.NegateAt | mesh_generation.py:31 | element i of `-s` is the negation of element i of s |
| Airfoil.NegateInvolution | mesh_generation.py:31 | negating twice restores the array, so the lower surface loses no magnitude |
| Airfoil.Thickness | mesh_generation.py:21 | evaluating the thickness over an array keeps its length |
| Airfoil.ThicknessAt | mesh_generation.py:21 | element i of the batch evaluation is the scalar thickness at abscissa i |
| Airfoil.Zeros | mesh_generation.py:35 | `zeros_like` has the length of its argument |
| Airfoil.ZerosAt | mesh_generation.py:35 | every element of the zero column is 0 |
| Airfoil.ColumnStack | mesh_generation.py:37 | stacking three equally long columns gives one row per element |
| Airfoil.ColumnStackAt | mesh_generation.py:37 | row i of the stack is (xs[i], ys[i], zs[i]) |
| Airfoil.Assemble | mesh_generation.py:27-37 | concatenating the reversed and shifted surfaces gives 2N - 1 rows for N >= 1 and none for N = 0 |
| Airfoil.AssembleIsOutline | mesh_generation.py:27-37 | assembly gives exactly the outline: row k < N is sample N - 1 - k, row N - 1 + j (1 <= j < N) is sample j with y negated, and z is 0 |
| Airfoil.OutlinePlanar | mesh_generation.py:35 | every point of any outline has z = 0 |
| Airfoil.OutlineOrder | mesh_generation.py:27-34 | for increasing samples starting at 0, abscissa 0 occurs in the outline only at index N - 1, and neighbouring points never share an abscissa |
| Airfoil.GenerateAirfoilPoints | mesh_generation.py:18-38 | the generator returns 2N - 1 points for N >= 1 and none for N = 0 |
| Airfoil.GeneratedIsOutline | mesh_generation.py:18-38 | the generated points are the outline of the samples (x_i, y(x_i)), with the thickness evaluated once and shared by both surfaces |
| Airfoil.UpperSurfaceAt | mesh_generation.py:27-28 | for 0 <= k < N, point k is (x[N-1-k], y(x[N-1-k]), 0): the upper surface runs from trailing edge to leading edge |
| Airfoil.LowerSurfaceAt | mesh_generation.py:30-34 | for 1 <= j < N, point N - 1 + j is (x[j], -y(x[j]), 0) |
| Airfoil.PlanarOutline | mesh_generation.py:35 | every generated point has z = 0 |
| Airfoil.SurfaceSymmetry | mesh_generation.py:21-31 | points N - 1 - j and N - 1 + j share their abscissa and have exactly opposite ordinates |
| Airfoil.LeadingEdgeOnce | mesh_generation.py:30-34 | the leading edge x = 0 sits at index N - 1, no other point has x = 0, and no other point equals it |
| Airfoil.NeighboursDiffer | mesh_generation.py:27-34 | consecutive points never share an abscissa |
| Airfoil.TrailingEdgeAbscissa | mesh_generation.py:20-34 | for N >= 2, points 0 and 2N - 2 both have x = 1 |
| Airfoil.LeadingEdgeAtOrigin | mesh_generation.py:11-34 | when sqrt(0) = 0, the leading-edge point of the NACA 0012 outline is (0, 0, 0) |
| Airfoil.TrailingEdges | mesh_generation.py:11-34 | when sqrt(1) = 1, the first point is (1, 0.00126, 0) and the last is (1, -0.00126, 0), so they are distinct and the outline is not closed explicitly |
| Airfoil.TwoSamples | mesh_generation.py:18-38 | two samples give exactly trailing edge, leading edge, trailing edge mirrored |
| Airfoil.OneSample | mesh_generation.py:18-38 | one sample gives exactly the single leading-edge point, with no error |
| CurveLoop.CyclicSegments | mesh_generation.py:57-61 | n point tags give n segments |
| CurveLoop.ConnectPoints | mesh_generation.py:57-61 | the pairing loop produces one segment per point, segment i joining point i to point (i + 1) mod n |
| CurveLoop.LoopCloses | mesh_generation.py:59 | the last segment runs from the last point back to point 0 |
| CurveLoop.InteriorSegment | mesh_generation.py:59 | every segment but the last joins a point to the next one |
| CurveLoop.SegmentsChain | mesh_generation.py:57-61 | each segment ends where the cyclically next one starts |
| CurveLoop.SinglePointSelfLoop | mesh_generation.py:57-61 | a single point yields one segment from that point to itself |
| CurveLoop.SuccessorInverse | mesh_generation.py:59 | (i + 1) mod n = k exactly when i = (k - 1) mod n |
| CurveLoop.EachPointOnceEachWay | mesh_generation.py:57-61 | with distinct tags, each point starts exactly one segment (its own) and ends exactly one (that of its predecessor) |
| CurveLoop.NoDegenerateSegment | mesh_generation.py:57-61 | if neighbours differ and the last point differs from the first, no segment starts and ends at the same point |
| CurveLoop.AirfoilClosingSegment | mesh_generation.py:18-61 | for the NACA 0012 outline, the closing segment joins (1, -0.00126, 0) back to (1, 0.00126, 0) |
| CurveLoop.AirfoilSegmentsNonDegenerate | mesh_generation.py:18-61 | closing the NACA 0012 outline this way gives no zero-length segment |
| Benchmark.GenerateAirfoilPointsSlow | benchmark_mesh_generation.py:8-29 | for every N except 1, the loop-and-append reference returns 2N - 1 points (none for N = 0) equal to the vectorised outline point for point |

## Left out

- The geometry kernel's calls in `generate_gmsh_mesh` (mesh_generation.py:44-95) are not modelled: initialisation, `addPoint`, `addLine`, `addCurveLoop`, `addPlaneSurface`, meshing, node and element statistics, writing, printing, and the broad exception handler. They are a foreign library and I/O.
- The point-adding loop (mesh_generation.py:50-53) is not modelled because its tags come from the kernel. `CurveLoop.ConnectPoints` takes the point tags as an input sequence of any type, and the airfoil lemmas use the points themselves as tags.
- The mesh characteristic length `lc = 0.1` is not modelled, because only the kernel reads it.
- The command-line block (mesh_generation.py:97-123) is not modelled; it is argument parsing and output plumbing.
- The timing and comparison driver `measure_performance` (benchmark_mesh_generation.py:31-60) is not modelled; it is wall-clock timing and printing.
- Negative sample counts are not modelled: both generators take the count as a `nat`. For a negative count, `np.linspace` raises an error in the vectorised generator (mesh_generation.py:20). The benchmark script returns no points, because every `range` it loops over is then empty (benchmark_mesh_generation.py:15,24,26). The command-line guard rejects such counts before either generator runs (mesh_generation.py:118).
- Floating-point rounding of the square root and the powers is not modelled. Neither is the `allclose` tolerance: over the reals the two generators agree exactly.
- The square root is a parameter instead of the numeric library's function. Results that need its values say so with `sqrt(0) = 0` or `sqrt(1) = 1` in their `requires`.
- Benchmark.GenerateAirfoilPointsSlow: requires N != 1, because with one sample the benchmark script divides by zero (benchmark_mesh_generation.py:16), and that error path is not modelled.
