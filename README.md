# geos: a Dafny model of the sampling, partitioning and H3 covering core

`geos` is a command-line tool for geographic sampling and covering. This project models the
repository's own logic in Dafny over the reals and proves properties of it:

- **Bounding-box partition** (`Geom`). `partition_region` sweeps two nested loops over the polygon's
  bounding box in steps of `edge_proportion` and keeps the candidate rectangles that a criterion
  selects. The criterion is either an area-ratio threshold or any intersection.
  - The loop is an imperative method, proved against a specification: the sequence of candidates,
    filtered.
  - Lemmas prove that there are `n * n` candidates in sweep order, with `n` the number of loop
    iterations, and which of them are kept.
  - They also prove that the sweep leaves no gap and that it does not end for a non-positive
    proportion.
- **Geodesic `lerp` and the n-vector algebra** (`Geom`, `NVecs`). Coordinates are blended as
  n-vectors, renormalised and converted back.
  - `sin`, `cos`, `atan2` and `sqrt` are parameters (`Numerics.Math`). The only facts assumed
    about them are required as predicates: `sqrt` is a non-negative square root,
    `sin² + cos² = 1`, and `atan2` is invariant under positive scaling.
- **Samplers** (`Samplers`, `GeosRand`).
  - The polygonal sampler's set-up is an imperative accumulation of triangle areas, then
    normalisation into weights.
  - It has two point-in-triangle samplers: the barycentric one in `src/samplers.rs` and the
    vertex-rotation one in `src/geos_rand.rs`.
  - The uniform fallback is also modelled.
  - Random draws are parameters.
- **H3 command** (`H3Cmd`). The case-insensitive parse of the covering mode, the recursion of
  `get_h3_covering` and `cut_geometry` over geometries, and `h3_cell_to_poly`.
  - The H3 library and the `geo` algorithms are uninterpreted functions, packaged as the records
    `H3Lib` and `GeoTypes.GeoLib`.

`src/geos_rand.rs` repeats `lerp` (26-34), the uniform sampler (41-50), `PolygonalSampler::new`
(73-93) and the `NVec` operations (121-208) of `src/geom.rs`, `src/samplers.rs` and
`src/nvec.rs`. Each is modelled once, and `GeosRand` reuses those definitions. Only the
vertex-rotation sampler is specific to `GeosRand`.

Facts about the source that the proofs bring out:

- **The documented example for 0.33 is wrong.** The documentation of `partition_region` says
  that `edge_proportion = 0.33` gives 9 regions. Over the reals the sweep runs 4 times per axis
  (`0.33 * 3 < 1`), which gives 16 candidate cells (`Geom.StepCountExamples`). The halves and
  thirds examples hold.
- **The last row and column of cells can reach past the bounding box.** The last sweep parameter
  `n * ep` lies in `[max(1, ep), max(1, ep) + ep)` (`Geom.SweepExtent`). It equals 1 exactly when
  ep is 1 or divides 1 (a half, a third). Whenever `n * ep > 1`, `lerp` extrapolates beyond the
  box's far edges. That happens for every ep > 1, where the single step's parameter is ep itself
  (`Geom.CoarseSweepOvershoots`), and for every ep < 1 that does not divide 1: for 0.33 the
  parameter reaches 1.32 (`Geom.SweepExtentExamples`).
- **A coarse proportion does not return the bounding box (see Findings).** The comment at
  `src/geom.rs:84-85` and the help text at `src/geom_cmd.rs:35` promise the bounding box for a
  proportion of 1 or more. For ep > 1 the single cell is the box dilated by ep instead.
- **The 0.3 help-text example has the same count error as 0.33.** The help text at
  `src/geom_cmd.rs:35` says 0.3 gives 9 regions, but 0.3 also gives 4 steps per axis and so 16
  cells (`Geom.StepCountExamples`).
- **The barycentric sampler never renormalises.** It converts its combination without dividing by
  the norm, unlike `lerp`. Since `Into<Coord>` only depends on direction, this changes nothing
  (`Samplers.SampleIgnoresRenormalisation`).
- **The uniform sampler swaps its ranges.** It puts the latitude range into `x` and the longitude
  range into `y`, both in `src/samplers.rs:29-34` and in the duplicate at
  `src/geos_rand.rs:43-48` (see Findings).

## Model

| member | source | states |
|---|---|---|
| GeoTypes.NewRect | src/geom.rs:122-125 | `Rect::new` orders its two corners: min <= max on both axes, and each axis keeps the two given values |
| NVecs.Norm | src/nvec.rs:17-25 | the norm is never negative |
| NVecs.Add | src/nvec.rs:71-81 | component-wise addition; `NVecs.AddCommutative` and `NVecs.AddAssociative` state its laws |
| NVecs.Scale | src/nvec.rs:51-61 | `v * k` scales each component; `NVecs.ScaleComposes`, `NVecs.ScaleDistributes` and `NVecs.DotOfScale` state its laws |
| NVecs.ScaleLeft | src/nvec.rs:63-69 | `k * v` defined as `v * k`; `NVecs.ScaleLeftIsScale` states that they agree |
| NVecs.ToRadians | src/nvec.rs:83-86 | degrees to radians by PI/180; `NVecs.AngleRoundTrip` states that `NVecs.ToAngle` inverts it |
| NVecs.ToAngle | src/nvec.rs:88-91 | radians to degrees by 180/PI; `NVecs.AngleRoundTrip` states that it inverts `NVecs.ToRadians` |
| NVecs.FromCoord | src/nvec.rs:39-49 | the n-vector of a coordinate (longitude from x, latitude from y); `NVecs.FromCoordIsUnit` states that it has unit length |
| NVecs.ToCoord | src/nvec.rs:28-37 | the coordinate of an n-vector via atan2; `NVecs.ToCoordScaleInvariant` states that it depends only on direction |
| NVecs.AddCommutative | src/nvec.rs:71-81 | n-vector addition is commutative |
| NVecs.AddAssociative | src/nvec.rs:71-81 | n-vector addition is associative |
| NVecs.ScaleLeftIsScale | src/nvec.rs:63-69 | `k * v` equals `v * k` |
| NVecs.ScaleComposes | src/nvec.rs:51-61 | scaling by a then b is scaling by a*b, and scaling by 1 is the identity |
| NVecs.ScaleDistributes | src/nvec.rs:51-61 | scaling distributes over addition |
| NVecs.DotOfScale | src/nvec.rs:51-61 | scaling by k multiplies the squared length by k*k |
| NVecs.AngleRoundTrip | src/nvec.rs:83-91 | `to_angle` and `to_radians` are inverse to each other, both ways |
| NVecs.FromCoordIsUnit | src/nvec.rs:39-49 | given sin²+cos²=1, the n-vector of any coordinate has unit length |
| NVecs.ToCoordScaleInvariant | src/nvec.rs:28-37 | given a non-negative sqrt and a scale-invariant atan2, `Into<Coord>` ignores positive scaling |
| Geom.Blend | src/geom.rs:20 | the blend `(1-t)*n1 + t*n2`; `Geom.LerpSymmetric` and `Geom.LerpEndpoints` state its symmetry and its endpoints |
| Geom.Lerp | src/geom.rs:16-24 | geodesic interpolation; its properties are in `Geom.LerpDivisorPositive` (defined divisor), `Geom.LerpIgnoresRenormalisation`, `Geom.LerpSymmetric`, `Geom.LerpEndpoints` and `Geom.LerpSamePoint` |
| Geom.LerpDivisorPositive | src/geom.rs:21 | `norm + 1e-8` is strictly positive, so the renormalisation factor is defined and positive |
| Geom.LerpIgnoresRenormalisation | src/geom.rs:16-24 | `lerp` gives the coordinate of the plain blend `(1-t)*n1 + t*n2`: the renormalisation has no effect |
| Geom.LerpSymmetric | src/geom.rs:20 | `lerp(t, c1, c2) == lerp(1-t, c2, c1)` |
| Geom.LerpEndpoints | src/geom.rs:16-24 | t = 0 gives c1 and t = 1 gives c2, each through its n-vector and back |
| Geom.LerpSamePoint | src/geom.rs:16-24 | interpolating a coordinate with itself gives, for every t, that coordinate taken through its n-vector and back (which can differ from it, e.g. longitude 370 returns as 10) |
| Geom.CutRegion | src/geom.rs:61-68 | exactly one polygon per cell, the i-th being the i-th cell's polygon |
| Geom.BoxCorners | src/geom.rs:88-101 | c0 = min and c2 = max; c1 is above c0 at max's height; c3 is right of c0 at min's height |
| Geom.CornersSpanBox | src/geom.rs:88-101 | both diagonals c0–c2 and c1–c3 span the bounding box itself |
| Geom.EdgeBudget | src/geom.rs:84-86 | the budget is at least 1 and at least ep, and equals one of them |
| Geom.StepCount | src/geom.rs:108-110 | each sweep loop runs at least once for a positive proportion |
| Geom.PositionIsProduct | src/geom.rs:147-149 | after k steps the loop variable is k * ep |
| Geom.ProductBelowBudget | src/geom.rs:110 | `k * ep < edge_budget` exactly when k is below the step count |
| Geom.StepCountSpec | src/geom.rs:108-149 | the k-th loop test succeeds iff k < n: the loop runs exactly n times |
| Geom.SweepExtent | src/geom.rs:110-124 | the sweep's last parameter n*ep lies in [edge_budget, edge_budget + ep) |
| Geom.SweepCovers | src/geom.rs:108-149 | every parameter in [0, edge_budget] lies between two consecutive sweep positions |
| Geom.NonPositiveProportionNeverExits | src/geom.rs:108-151 | with ep <= 0 every loop test succeeds, so the loops never exit |
| Geom.FilterKeptSnoc | src/geom.rs:129-145 | visiting one more candidate appends it to the result iff the criterion keeps it |
| Geom.AreaRatioAtLeast | src/geom.rs:132-134 | `area_ratio >= threshold` under IEEE division; `Geom.AreaRatioCriterion` states it without division, including the zero-area case |
| Geom.Keep | src/geom.rs:129-145 | the selection criterion: the area ratio with a threshold, any intersection without one; `Geom.FilterKeptMembers` and `Geom.PartitionContents` state that exactly the kept candidates are returned |
| Geom.PartitionSpec | src/geom.rs:76-154 | the result of `partition_region` as a function; `Geom.PartitionRegion` is proved equal to it, and `Geom.PartitionContents` states what it contains |
| Geom.PartitionRegion | src/geom.rs:76-154 | the nested sweep returns the error for a polygon without a bounding box, else the kept candidates in outer-fx, inner-fy order; `lp_prev` is c0→c3 first and then the previous row's line |
| Geom.RowEnumerates | src/geom.rs:118-148 | the inner loop visits cells j = 0, 1, … of its row, in order |
| Geom.RowsLength | src/geom.rs:107-151 | i outer steps of n inner steps visit i*n candidates |
| Geom.RowsCoverGrid | src/geom.rs:107-151 | every grid cell (a, b) with a < i and b < n is visited |
| Geom.RowsOnlyGrid | src/geom.rs:107-151 | every visited candidate is a grid cell (a, b) with a < i and b < n |
| Geom.CandidatesEnumerateGrid | src/geom.rs:107-151 | the candidates are exactly the n*n grid cells |
| Geom.FilterKeptAppend | src/geom.rs:127-145 | filtering distributes over concatenation, so kept cells keep their sweep order |
| Geom.FilterKeptMembers | src/geom.rs:127-145 | a cell is kept iff it was visited and the criterion keeps it; no more cells are kept than visited |
| Geom.PartitionContents | src/geom.rs:76-154 | fails iff there is no bounding box; otherwise returns at most n*n cells, each a kept grid cell, and every kept grid cell |
| Geom.SingleStepWhenCoarse | src/geom.rs:84-125 | with ep >= 1 each loop runs once, and the only candidate is the rectangle from `lerp(0, c0, c3)` to the far corner lerped at ep |
| Geom.StepCountExamples | src/geom.rs:70-74 | 0.5 gives 2 steps per axis and 1/3 gives 3, but 0.33 and 0.3 give 4 (16 cells, not the documented 9) |
| Geom.SweepExtentExamples | src/geom.rs:108-124 | the last sweep parameter is exactly 1 for 0.5, 1/3 and 1, and 1.32 for 0.33 |
| Geom.CoarseSweepOvershoots | src/geom.rs:86-124 | for every ep > 1 the last sweep parameter is ep itself, beyond the far edge |
| Geom.CoarseSweepDilates | src/geom.rs:84-125 | as written, the unit box with ep = 2 gives the single cell [0,2]×[0,2], not the box |
| Geom.ClampedLerp | src/geom.rs:113-125 | corrected: the sweep parameters are clamped to the box's far edge, 1, and are unchanged at 0 and 1 |
| Geom.ClampedCoarseSweepIsBox | src/geom.rs:84-86 | corrected: with clamped parameters and exact endpoints, ep >= 1 gives the bounding box itself as the only candidate |
| Geom.AreaRatioCriterion | src/geom.rs:129-137 | with a positive cell area, the ratio test is `intersection >= threshold * area`; with a zero area (IEEE division), any positive overlap passes |
| Samplers.UniformDraw | src/samplers.rs:28-35 | a unit draw in [0, 1) maps into [low, high) |
| Samplers.UnitDrawFor | src/samplers.rs:28-35 | every value of [low, high) has a unit draw in [0, 1) |
| Samplers.UniformDrawRoundTrip | src/samplers.rs:28-35 | drawing and inverting the draw are inverse to each other |
| Samplers.UniformSampleCoord | src/samplers.rs:28-35 | `x` lies in [-90, 90) and `y` in [-180, 180), as written |
| Samplers.UniformSamplerRange | src/samplers.rs:13-35 | a coordinate is drawn iff x ∈ [-90, 90) and y ∈ [-180, 180) |
| Samplers.SwappedRangesMissEasternCoord | src/samplers.rs:28-35 | (120, 10) is never drawn as written, but the corrected sampler draws it |
| Samplers.UniformLngLatCoord | src/samplers.rs:13-35 | corrected: the longitude in [-180, 180) fills `x` and the latitude in [-90, 90) fills `y` |
| Samplers.UniformLngLatRange | src/samplers.rs:13-35 | the corrected sampler draws a coordinate iff it is a valid longitude/latitude pair |
| Samplers.AreasPointwise | src/samplers.rs:60-70 | `areas` has one entry per triangle, in triangulation order |
| Samplers.NormalisePointwise | src/samplers.rs:72 | `weights[i] == areas[i] / cum_area`, one weight per area |
| Samplers.NormaliseSum | src/samplers.rs:72 | the weights sum to Σareas / cum_area |
| Samplers.SumNonNegative | src/samplers.rs:60-67 | non-negative areas have a non-negative sum that bounds every area |
| Samplers.ZeroSumMeansAllZero | src/samplers.rs:60-72 | `cum_area == 0` iff every triangle has zero area |
| Samplers.WeightBounds | src/samplers.rs:72 | a part of a positive whole, divided by the whole, lies in [0, 1] |
| Samplers.NormalisedWeights | src/samplers.rs:72-73 | non-negative areas over their non-zero sum are weights in [0, 1] summing to 1 |
| Samplers.TriangulationWeights | src/samplers.rs:59-79 | each triangle's weight is its area over the total, in [0, 1], and the weights sum to 1 |
| Samplers.NewPolygonalSampler | src/samplers.rs:59-79 | the accumulation loop fails iff `cum_area == 0`; otherwise the sampler keeps the triangulation and gives each triangle its area over Σareas as its weight, in [0, 1], summing to 1 |
| Samplers.ProductsInUnitInterval | src/samplers.rs:84-94 | for inputs in [0, 1], `√r1(1-r2)` and `r2√r1` lie in [0, 1] |
| Samplers.BarycentricWeights | src/samplers.rs:84-94 | the three weights always sum to 1, and each lies in [0, 1] when √r1 and r2 do |
| Samplers.BarycentricDrawsCoverTriangle | src/samplers.rs:82-96 | all draws in [0, 1] give a point of the triangle, and every point of the triangle is given by some pair of draws |
| Samplers.SampleIgnoresRenormalisation | src/samplers.rs:94-95 | renormalising the combination would give the same coordinate |
| Samplers.CombineAtVertices | src/samplers.rs:94 | the extreme weights select one vertex each |
| Samplers.SampleCorners | src/samplers.rs:83-96 | r1 = 0 gives v0, r1 = 1 with r2 = 0 gives v1 and r1 = 1 with r2 = 1 gives v2, each vertex through its n-vector and back |
| Samplers.SampleOnFirstEdgeIsLerp | src/samplers.rs:83-96 | with r2 = 0 the sample is `lerp(√r1, v0, v1)` |
| Samplers.SampleCoordInSelectedTriangle | src/samplers.rs:52-56 | a sample is the coordinate of a point of the triangle that the table index selects |
| Samplers.SamplePointInTriangle | src/samplers.rs:83-96 | the coordinate of the barycentric combination; `Samplers.BarycentricDrawsCoverTriangle`, `Samplers.SampleCorners`, `Samplers.SampleOnFirstEdgeIsLerp` and `Samplers.SampleIgnoresRenormalisation` state its properties |
| Samplers.SampleCoord | src/samplers.rs:52-56 | the table index must be below the triangle count; `Samplers.SampleCoordInSelectedTriangle` states that the sample lies in the selected triangle |
| GeosRand.RotatedVertices | src/geos_rand.rs:107-111 | `[v[idx], v[(idx+1)%3], v[(idx+2)%3]]` is the vertex list rotated to start at idx |
| GeosRand.RotationIsPermutation | src/geos_rand.rs:103-111 | the rotation starts at the drawn vertex and uses every vertex exactly once |
| GeosRand.SampleEndpoints | src/geos_rand.rs:113-118 | a second draw of 0 gives vertex idx through its n-vector and back, and a second draw of 1 gives the point on the opposite edge |
| GeosRand.OppositeEdgeSymmetric | src/geos_rand.rs:113-118 | swapping the far vertices and mirroring the first draw gives the same point |
| GeosRand.SampleCoordAtVertex | src/geos_rand.rs:65-70 | a zero second draw returns a vertex of the selected triangle, through its n-vector and back |
| GeosRand.SamplePointInTriangle | src/geos_rand.rs:102-119 | `lerp(s2, a, lerp(s1, b, c))` over the rotated vertices; `GeosRand.SampleEndpoints` and `GeosRand.OppositeEdgeSymmetric` state its properties |
| GeosRand.SampleCoord | src/geos_rand.rs:65-70 | the table index must be below the triangle count; `GeosRand.SampleCoordAtVertex` states what a zero second draw gives |
| H3Cmd.AsciiLowerLaws | src/h3_cmd.rs:159 | lower-casing is idempotent and undoes upper-casing |
| H3Cmd.ParseCoveringMode | src/h3_cmd.rs:157-165 | "containscentroid"/"centroid" ↔ ContainsCentroid and "containsboundary"/"contains" ↔ ContainsBoundary, after lower-casing (both directions); everything else is IntersectsBoundary |
| H3Cmd.ParseIgnoresCase | src/h3_cmd.rs:159 | texts equal up to ASCII case parse alike |
| H3Cmd.IntoContainmentMode | src/h3_cmd.rs:171-175 | the conversion returns the wrapped mode unchanged |
| H3Cmd.Display | src/h3_cmd.rs:166-170 | the displayed name is not empty |
| H3Cmd.DisplayParseRoundTrip | src/h3_cmd.rs:157-170 | parsing the displayed name gives the mode back |
| H3Cmd.ParseExamples | src/h3_cmd.rs:157-165 | "Centroid" and "CONTAINS" select their modes; "covers" and "" fall through to IntersectsBoundary |
| H3Cmd.ConcatAppend | src/h3_cmd.rs:358-369 | concatenation distributes over appending |
| H3Cmd.FlattenOkSpec | src/h3_cmd.rs:358-369 | `flatten_ok` + `collect` succeeds iff every part does, then gives the parts' values concatenated in order; otherwise it gives the first failing part's error |
| H3Cmd.FlattenOkAppend | src/h3_cmd.rs:365-369 | flattening a concatenation: the first part's error wins, else the values are concatenated |
| H3Cmd.CollectOkIsFlattenOk | src/h3_cmd.rs:350-354 | collecting single results is flattening their singletons |
| H3Cmd.CollectOkSpec | src/h3_cmd.rs:351-354 | collecting succeeds iff every result does, and then gives one value per input, in order |
| H3Cmd.PointCovering | src/h3_cmd.rs:350 | a point yields exactly its own cell, or the lookup's error |
| H3Cmd.MultiPointCovering | src/h3_cmd.rs:351-354 | one cell per point, in order, or failure when any lookup fails |
| H3Cmd.MultiPointAsCollection | src/h3_cmd.rs:349-369 | a multi-point is covered as the collection of its points |
| H3Cmd.OtherGeometryCovering | src/h3_cmd.rs:371-372 | any other geometry is covered as the polygon it converts to, or fails with the conversion error |
| H3Cmd.Covering | src/h3_cmd.rs:343-374 | `get_h3_covering` by structural recursion; its cases are stated by `H3Cmd.PointCovering`, `H3Cmd.MultiPointCovering`, `H3Cmd.CollectionCovering`, `H3Cmd.OtherGeometryCovering` and the lemmas after them |
| H3Cmd.OtherGeometryCoveringFails | src/h3_cmd.rs:371-372 | when the conversion accepts only polygons, every other geometry fails with the conversion error |
| H3Cmd.MultiPolygonAsCollection | src/h3_cmd.rs:357-369 | a multi-polygon is covered as the collection of its polygons |
| H3Cmd.CollectionCovering | src/h3_cmd.rs:364-369 | a collection succeeds iff every part does, yielding the parts' cells concatenated in order; otherwise it yields the first failing part's error |
| H3Cmd.CollectionAppend | src/h3_cmd.rs:364-369 | covering two concatenated collections is covering each and concatenating, first error first |
| H3Cmd.CollectionSingleton | src/h3_cmd.rs:364-369 | a collection of one geometry is covered as that geometry |
| H3Cmd.CloseRing | src/h3_cmd.rs:340 | the closed ring starts and ends at the same vertex, and extends the boundary by at most one vertex |
| H3Cmd.CloseRingIdempotent | src/h3_cmd.rs:340 | closing a closed ring changes nothing |
| H3Cmd.CellToPoly | src/h3_cmd.rs:334-341 | the polygon has no holes, and its exterior starts with the cell's boundary vertices in order |
| H3Cmd.Partitions | src/h3_cmd.rs:297 | one partition polygon per cell, in cell order: partition i is the polygon of cell i |
| H3Cmd.PiecesInCellOrder | src/h3_cmd.rs:300-304 | a polygon's pieces come out in cell order |
| H3Cmd.PiecesOfOneCell | src/h3_cmd.rs:300-304 | one cell contributes the polygon's intersection with that cell's polygon |
| H3Cmd.MultiPolygonCutOrder | src/h3_cmd.rs:306-309 | a multi-polygon is cut polygon by polygon (outer loop), in order, and never fails |
| H3Cmd.MultiPolygonOfOne | src/h3_cmd.rs:306-309 | a multi-polygon of one polygon is cut as that polygon |
| H3Cmd.OtherGeometryCut | src/h3_cmd.rs:318-326 | any other geometry is cut as the polygon it converts to, or fails with the conversion error |
| H3Cmd.CutGeometry | src/h3_cmd.rs:293-328 | `cut_geometry` by structural recursion; its cases are stated by `H3Cmd.PiecesInCellOrder`, `H3Cmd.MultiPolygonCutOrder`, `H3Cmd.OtherGeometryCut` and `H3Cmd.CollectionCut` |
| H3Cmd.OtherGeometryCutFails | src/h3_cmd.rs:318-326 | when the conversion accepts only polygons, every other geometry fails with the conversion error |
| H3Cmd.CollectionCut | src/h3_cmd.rs:311-316 | cutting a collection succeeds iff every part does, and then concatenates the parts' pieces in order; otherwise it fails with the first failing part's error |

## Left out

- Floating point.
  - Everything is modelled over the reals: `f64` rounding, NaN and infinities are not captured,
    except the zero-area case of the area ratio.
  - The `f32` areas and weights of `PolygonalSampler::new` are reals too.
  - The sweep counts iterations over the reals. In `f64`, accumulating 0.1 ten times stays just
    below 1, which adds an eleventh step. The model does not show this.
- `sin`, `cos`, `atan2`, `sqrt` and `NVec::norm` (from the `s2` crate) are uninterpreted
  parameters.
  - Only the predicates `SqrtLaws`, `PythagoreanIdentity` and `Atan2ScaleInvariant` are assumed
    about them, where a lemma requires them.
  - `PI` is the decimal value of `f64::consts::PI`.
- The `geo` crate calls are uninterpreted functions in `GeoTypes.GeoLib`. These are bounding box,
  intersects, intersection area, rectangle area, earcut triangulation, triangle area, polygon
  intersection and `Polygon::try_from`. Only non-negative triangle areas are assumed.
- The H3 calls are uninterpreted functions in `H3Cmd.H3Lib`: point lookup, polygon fill with a
  containment mode, and cell boundary. Whether `get_h3_point_covering` should pass degrees to
  `LatLng::from_radians` lies inside that lookup, so it is not modelled.
- Random number generation.
  - `create_rng` and the distributions are left out. Each draw is a parameter with its range as a
    precondition.
  - The `WalkerTable` is represented by the weights it is built from. Its index draw is a
    parameter below `|triangulation|`.
- Geom.PartitionRegion: returns the kept `Rect`s. The conversion of each rectangle to a polygon
  (`partition.into()`) is not modelled.
- Geom.PartitionRegion: takes `lerp` as a parameter, and `Geom.GeodesicLerp` is the source's
  instance.
  - All partition properties hold for any interpolation function.
  - It also requires `edge_proportion > 0`, since the loops never end otherwise
    (`Geom.NonPositiveProportionNeverExits`).
- Geom.PartitionRegion: the panic of `bounding_rect().unwrap()` on a polygon without coordinates
  is the error `EmptyGeometry`.
- Samplers.NewPolygonalSampler: a zero total area is reported as the error `ZeroTotalArea`. The
  source divides by zero there and builds its table from NaN weights.
- Geom.ClampedCoarseSweepIsBox: assumes an interpolation with exact endpoints. The geodesic
  `lerp` has them only when the round trip through the n-vector returns the coordinate. That
  needs more of `sin`, `cos` and `atan2` than the model assumes.
- `GeoTypes.TryPolygonAcceptsOnlyPolygons` states how the geo-types crate behaves; the repository
  does not define it. Only `H3Cmd.OtherGeometryCoveringFails` and `H3Cmd.OtherGeometryCutFails`
  require it.
- `H3Cmd.ContainmentMode` has only the three variants that `H3CoveringMode::from` produces, not
  the other modes of the `h3o` crate.
- H3Cmd.Display: states only that the name is non-empty. The exact `Debug` names are in its body,
  and `H3Cmd.DisplayParseRoundTrip` relates them to parsing.
- The `compact` and `uncompact` subcommands are pure calls into `h3o` and are not modelled.
  `Resolution::try_from(level)` and WKT parsing happen in `handle_h3_subcommand`, and so does
  printing; none of these is modelled.
- Not modelled, because they are I/O, argument wiring or pure delegation:
  - `src/s2_cmd.rs`;
  - `get_s2_covering` and `s2_cell_to_poly` in `src/geom.rs`;
  - `src/main.rs`, `src/format.rs`, `src/geom_cmd.rs` and `src/rand_cmd.rs`;
  - `handle_h3_subcommand` and `fmt_cell`.
- The statistical chi-square test in `src/samplers.rs` is not modelled: it is random and ignored
  in the source.

## Findings

| source | as written | input that shows it | evidently intended | confidence | as-written member | corrected member |
|---|---|---|---|---|---|---|
| src/samplers.rs:29-34 | `x` (the longitude everywhere else, e.g. src/nvec.rs:41) is drawn from the latitude range [-90, 90) and `y` from the longitude range [-180, 180); the duplicate at src/geos_rand.rs:43-48 does the same | the coordinate (120, 10), a point in eastern Asia, is never drawn (`Samplers.SwappedRangesMissEasternCoord`) | longitude in `x` from [-180, 180), latitude in `y` from [-90, 90) | medium, not executed | Samplers.UniformSampleCoord | Samplers.UniformLngLatCoord |
| src/geom.rs:84-125 | for `edge_proportion > 1` the single cell runs from c0 to the far corner interpolated at ep, past c2, although src/geom.rs:84-85 and the help text at src/geom_cmd.rs:35 promise the bounding box | the unit box with ep = 2 and an interpolation with exact endpoints gives the cell [0,2]×[0,2] (`Geom.CoarseSweepDilates`) | the sweep parameters clamped to 1, so that ep >= 1 gives the bounding box | medium, not executed | Geom.CoarseSweepDilates | Geom.ClampedCoarseSweepIsBox |
