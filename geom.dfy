/**
 * Geodesic interpolation between coordinates, the bounding-box partition sweep, and the mapping
 * of covering cells to polygons.
 */
module Geom {
  import opened Wrappers
  import opened Numerics
  import opened GeoTypes
  import opened NVecs

  // ---------------------------------------------------------------------------------------------
  // Interpolation
  // ---------------------------------------------------------------------------------------------

  /** The constant 1e-8 added to the norm before renormalising. */
  const Epsilon: real := 0.00000001

  /** The blended n-vector `(1 - t) * n1 + t * n2`. */
  function Blend(t: real, n1: NVec, n2: NVec): NVec
  {
    Add(ScaleLeft(1.0 - t, n1), ScaleLeft(t, n2))
  }

  /**
   * `lerp(t, c1, c2)`: blend the n-vectors of the two coordinates, divide by the norm plus 1e-8,
   * and convert back to a coordinate.
   */
  function Lerp(m: Math, t: real, c1: Coord, c2: Coord): Coord
    requires SqrtLaws(m)
  {
    var nv := Blend(t, FromCoord(m, c1), FromCoord(m, c2));
    ToCoord(m, ScaleLeft(1.0 / (Norm(m, nv) + Epsilon), nv))
  }

  /**
   * `lerp` as a function value: the instance the source passes where the partition sweep below
   * takes its `lerp` parameter. The sweep's lemmas hold for any interpolation, this one included.
   */
  function GeodesicLerp(m: Math): (real, Coord, Coord) -> Coord
    requires SqrtLaws(m)
  {
    (t, c1, c2) => Lerp(m, t, c1, c2)
  }

  /** The divisor of the renormalisation is strictly positive, so the division is always defined. */
  lemma LerpDivisorPositive(m: Math, v: NVec)
    requires SqrtLaws(m)
    ensures 0.0 < Norm(m, v) + Epsilon
    ensures 0.0 < 1.0 / (Norm(m, v) + Epsilon)
  {
  }

  /** Renormalising does not change the result: `lerp` is the coordinate of the plain blend. */
  lemma {:induction false} LerpIgnoresRenormalisation(m: Math, t: real, c1: Coord, c2: Coord)
    requires SqrtLaws(m) && Atan2ScaleInvariant(m)
    ensures Lerp(m, t, c1, c2) == ToCoord(m, Blend(t, FromCoord(m, c1), FromCoord(m, c2)))
  {
    var nv := Blend(t, FromCoord(m, c1), FromCoord(m, c2));
    LerpDivisorPositive(m, nv);
    ToCoordScaleInvariant(m, nv, 1.0 / (Norm(m, nv) + Epsilon));
  }

  /** Interpolating from c1 to c2 at t is interpolating from c2 to c1 at 1 - t. */
  lemma {:induction false} LerpSymmetric(m: Math, t: real, c1: Coord, c2: Coord)
    requires SqrtLaws(m)
    ensures Lerp(m, t, c1, c2) == Lerp(m, 1.0 - t, c2, c1)
  {
    var n1, n2 := FromCoord(m, c1), FromCoord(m, c2);
    assert 1.0 - (1.0 - t) == t;
    assert Blend(t, n1, n2) == Blend(1.0 - t, n2, n1);
  }

  /**
   * At t = 0 the result is c1 and at t = 1 it is c2, each taken through its n-vector and back:
   * the 1e-8 in the divisor has no effect on the result.
   */
  lemma {:induction false} LerpEndpoints(m: Math, c1: Coord, c2: Coord)
    requires SqrtLaws(m) && Atan2ScaleInvariant(m)
    ensures Lerp(m, 0.0, c1, c2) == ToCoord(m, FromCoord(m, c1))
    ensures Lerp(m, 1.0, c1, c2) == ToCoord(m, FromCoord(m, c2))
  {
    var n1, n2 := FromCoord(m, c1), FromCoord(m, c2);
    LerpIgnoresRenormalisation(m, 0.0, c1, c2);
    LerpIgnoresRenormalisation(m, 1.0, c1, c2);
    assert Blend(0.0, n1, n2) == n1;
    assert Blend(1.0, n1, n2) == n2;
  }

  /**
   * Interpolating between a coordinate and itself gives, whatever t is, that coordinate taken
   * through its n-vector and back (not always the coordinate itself: longitude 370 returns as 10).
   */
  lemma {:induction false} LerpSamePoint(m: Math, t: real, c: Coord)
    requires SqrtLaws(m) && Atan2ScaleInvariant(m)
    ensures Lerp(m, t, c, c) == ToCoord(m, FromCoord(m, c))
  {
    var n := FromCoord(m, c);
    LerpIgnoresRenormalisation(m, t, c, c);
    assert Blend(t, n, n) == n;
  }

  // ---------------------------------------------------------------------------------------------
  // Cutting by covering cells
  // ---------------------------------------------------------------------------------------------

  /**
   * `cut_region`: one polygon per covering cell, in the order of the cells. The polygon argument
   * is not used (the intersection with it is commented out in the source).
   */
  function CutRegion<C>(polygon: Polygon, cells: seq<C>, cellToPoly: C -> Polygon): (r: seq<Polygon>)
    ensures |r| == |cells|
    ensures forall i :: 0 <= i < |cells| ==> r[i] == cellToPoly(cells[i])
  {
    if cells == [] then [] else [cellToPoly(cells[0])] + CutRegion(polygon, cells[1..], cellToPoly)
  }

  // ---------------------------------------------------------------------------------------------
  // Bounding-box partition
  // ---------------------------------------------------------------------------------------------

  /** Why `partition_region` gives no result: `bounding_rect().unwrap()` panics on an empty polygon. */
  datatype PartitionError = EmptyGeometry

  /** The corners of the bounding box: c1 above c0, c2 above c3, c3 to the right of c0. */
  datatype Corners = Corners(c0: Coord, c1: Coord, c2: Coord, c3: Coord)

  function BoxCorners(b: Rect): (c: Corners)
    ensures c.c0 == b.min && c.c2 == b.max
    ensures c.c1.x == c.c0.x && c.c1.y == c.c2.y
    ensures c.c3.x == c.c2.x && c.c3.y == c.c0.y
  {
    Corners(b.min, Coord(b.min.x, b.max.y), b.max, Coord(b.max.x, b.min.y))
  }

  /** Both diagonals of the corners span the box itself. */
  lemma CornersSpanBox(b: Rect)
    requires b.min.x <= b.max.x && b.min.y <= b.max.y
    ensures NewRect(BoxCorners(b).c0, BoxCorners(b).c2) == b
    ensures NewRect(BoxCorners(b).c1, BoxCorners(b).c3) == b
  {
  }

  /** `f64::max(1.0, edge_proportion)`. */
  function EdgeBudget(ep: real): (b: real)
    ensures 1.0 <= b && ep <= b
    ensures b == 1.0 || b == ep
  {
    if ep <= 1.0 then 1.0 else ep
  }

  /**
   * The number of iterations of each sweep loop: the least n with n * ep >= edge_budget, i.e.
   * the ceiling of edge_budget / ep.
   */
  function StepCount(ep: real): (n: nat)
    requires 0.0 < ep
    ensures 1 <= n
  {
    var q := EdgeBudget(ep) / ep;
    assert 0.0 < q;
    if q.Floor as real == q then q.Floor else q.Floor + 1
  }

  /** The value of `fx` (or `fy`) after k iterations: ep added to 0.0 k times. */
  function Position(ep: real, k: nat): real
  {
    if k == 0 then 0.0 else Position(ep, k - 1) + ep
  }

  /** Over the reals, k additions of ep make k * ep. */
  lemma {:induction false} PositionIsProduct(ep: real, k: nat)
    ensures Position(ep, k) == (k as real) * ep
  {
    if k > 0 {
      PositionIsProduct(ep, k - 1);
    }
  }

  /** The k-th loop test `fx < edge_budget` succeeds exactly for k below the step count. */
  lemma StepCountSpec(ep: real, k: nat)
    requires 0.0 < ep
    ensures Position(ep, k) < EdgeBudget(ep) <==> k < StepCount(ep)
  {
    PositionIsProduct(ep, k);
    ProductBelowBudget(ep, k);
  }

  lemma ProductBelowBudget(ep: real, k: nat)
    requires 0.0 < ep
    ensures (k as real) * ep < EdgeBudget(ep) <==> k < StepCount(ep)
  {
    var b := EdgeBudget(ep);
    var q := b / ep;
    assert q * ep == b;
    assert (k as real) < q ==> (q - k as real) * ep > 0.0;
    assert (k as real) >= q ==> (k as real - q) * ep >= 0.0;
    assert (k as real) * ep < b <==> (k as real) < q;
  }

  /**
   * The last sweep reaches past the edge budget by less than one step: the grid spans the
   * parameter range [0, n * ep] with edge_budget <= n * ep < edge_budget + ep.
   */
  lemma SweepExtent(ep: real)
    requires 0.0 < ep
    ensures EdgeBudget(ep) <= Position(ep, StepCount(ep)) < EdgeBudget(ep) + ep
  {
    var n := StepCount(ep);
    StepCountSpec(ep, n);
    StepCountSpec(ep, n - 1);
  }

  lemma {:induction false} LocateStep(ep: real, t: real, k: nat)
    requires 0.0 < ep && k < StepCount(ep)
    requires Position(ep, k) <= t <= EdgeBudget(ep)
    ensures exists j :: k <= j < StepCount(ep) && Position(ep, j) <= t <= Position(ep, j + 1)
    decreases StepCount(ep) - k
  {
    if Position(ep, k + 1) < t {
      StepCountSpec(ep, k + 1);
      LocateStep(ep, t, k + 1);
    }
  }

  /** Every parameter in [0, edge_budget] lies in the span of some step: the sweeps leave no gap. */
  lemma SweepCovers(ep: real, t: real)
    requires 0.0 < ep && 0.0 <= t <= EdgeBudget(ep)
    ensures exists j :: 0 <= j < StepCount(ep) && Position(ep, j) <= t <= Position(ep, j + 1)
  {
    LocateStep(ep, t, 0);
  }

  /** With a non-positive proportion every loop test succeeds: the sweep never ends. */
  lemma NonPositiveProportionNeverExits(ep: real, k: nat)
    requires ep <= 0.0
    ensures Position(ep, k) < EdgeBudget(ep)
  {
    PositionIsProduct(ep, k);
    assert (k as real) * ep <= 0.0;
  }

  /** The line `lp` of outer step i, where fx = i * ep: lerped towards c1 and c2 at fx + ep. */
  function SweepLine(lerp: (real, Coord, Coord) -> Coord, c: Corners, ep: real, i: nat): Line
  {
    var t := Position(ep, i) + ep;
    Line(lerp(t, c.c0, c.c1), lerp(t, c.c3, c.c2))
  }

  /** `lp_prev` during outer step i: the bottom edge c0 -> c3 first, then the previous step's `lp`. */
  function PrevLine(lerp: (real, Coord, Coord) -> Coord, c: Corners, ep: real, i: nat): Line
  {
    if i == 0 then Line(c.c0, c.c3) else SweepLine(lerp, c, ep, i - 1)
  }

  /** The candidate rectangle of outer step i and inner step j, where fy = j * ep. */
  function Cell(lerp: (real, Coord, Coord) -> Coord, c: Corners, ep: real, i: nat, j: nat): Rect
  {
    var prev, lp := PrevLine(lerp, c, ep, i), SweepLine(lerp, c, ep, i);
    var fy := Position(ep, j);
    NewRect(lerp(fy, prev.start, prev.end), lerp(fy + ep, lp.start, lp.end))
  }

  /** The first j candidates of outer step i. */
  function Row(lerp: (real, Coord, Coord) -> Coord, c: Corners, ep: real, i: nat, j: nat): seq<Rect>
  {
    if j == 0 then [] else Row(lerp, c, ep, i, j - 1) + [Cell(lerp, c, ep, i, j - 1)]
  }

  /** The candidates of the first i outer steps, n per step. */
  function Rows(lerp: (real, Coord, Coord) -> Coord, c: Corners, ep: real, n: nat, i: nat): seq<Rect>
  {
    if i == 0 then [] else Rows(lerp, c, ep, n, i - 1) + Row(lerp, c, ep, i - 1, n)
  }

  /** Every candidate rectangle the two sweeps visit, in visiting order. */
  function Candidates(lerp: (real, Coord, Coord) -> Coord, c: Corners, ep: real): seq<Rect>
    requires 0.0 < ep
  {
    Rows(lerp, c, ep, StepCount(ep), StepCount(ep))
  }

  /**
   * `area_ratio >= threshold` under IEEE 754 division: for a zero cell area the ratio is +inf when
   * the intersection area is positive and NaN (which compares false) when it is zero.
   */
  predicate AreaRatioAtLeast(intersectionArea: real, cellArea: real, threshold: real)
  {
    if cellArea != 0.0 then intersectionArea / cellArea >= threshold else 0.0 < intersectionArea
  }

  /** The selection criterion: area ratio with a threshold, any intersection without one. */
  predicate Keep(geo: GeoLib, polygon: Polygon, areaThreshold: Option<real>, cell: Rect)
  {
    match areaThreshold
    case Some(threshold) =>
      AreaRatioAtLeast(geo.intersectionArea(polygon, cell), geo.rectArea(cell), threshold)
    case None => geo.intersects(cell, polygon)
  }

  /** The candidates that the criterion keeps, in order. */
  function FilterKept(geo: GeoLib, polygon: Polygon, areaThreshold: Option<real>, s: seq<Rect>): seq<Rect>
  {
    if s == [] then []
    else
      var last := s[|s| - 1];
      FilterKept(geo, polygon, areaThreshold, s[..|s| - 1]) + (if Keep(geo, polygon, areaThreshold, last) then [last] else [])
  }

  /** What `partition_region` returns. */
  function PartitionSpec(lerp: (real, Coord, Coord) -> Coord, geo: GeoLib, polygon: Polygon, ep: real, areaThreshold: Option<real>)
    : Result<seq<Rect>, PartitionError>
    requires 0.0 < ep
  {
    match geo.boundingRect(polygon)
    case None => Failure(EmptyGeometry)
    case Some(bbox) => Success(FilterKept(geo, polygon, areaThreshold, Candidates(lerp, BoxCorners(bbox), ep)))
  }

  lemma FilterKeptSnoc(geo: GeoLib, polygon: Polygon, areaThreshold: Option<real>, s: seq<Rect>, x: Rect)
    ensures FilterKept(geo, polygon, areaThreshold, s + [x])
         == FilterKept(geo, polygon, areaThreshold, s) + (if Keep(geo, polygon, areaThreshold, x) then [x] else [])
  {
    assert (s + [x])[..|s|] == s;
  }

  /**
   * `partition_region`: sweep fx over the c0 -> c1 direction and, inside, fy over the c0 -> c3
   * direction, both from 0 in steps of `edge_proportion` while below `max(1, edge_proportion)`,
   * and keep each candidate rectangle that the criterion selects.
   */
  method PartitionRegion(lerp: (real, Coord, Coord) -> Coord, geo: GeoLib, polygon: Polygon, edgeProportion: real, areaThreshold: Option<real>)
    returns (r: Result<seq<Rect>, PartitionError>)
    requires 0.0 < edgeProportion
    ensures r == PartitionSpec(lerp, geo, polygon, edgeProportion, areaThreshold)
  {
    var partitions: seq<Rect> := [];
    var bbox := geo.boundingRect(polygon);
    if bbox.None? {
      return Failure(EmptyGeometry);
    }
    var ep := edgeProportion;
    var edgeBudget := EdgeBudget(ep);
    var corners := BoxCorners(bbox.value);
    var c0, c1, c2, c3 := corners.c0, corners.c1, corners.c2, corners.c3;
    ghost var n := StepCount(ep);

    var fx := 0.0;
    var lpPrev := Line(c0, c3);
    ghost var i: nat := 0;
    while fx < edgeBudget
      invariant i <= n && fx == Position(ep, i)
      invariant lpPrev == PrevLine(lerp, corners, ep, i)
      invariant partitions == FilterKept(geo, polygon, areaThreshold, Rows(lerp, corners, ep, n, i))
      decreases n - i
    {
      assert i < n by { StepCountSpec(ep, i); }
      var lp := Line(lerp(fx + ep, c0, c1), lerp(fx + ep, c3, c2));
      assert lp == SweepLine(lerp, corners, ep, i);
      ghost var done := Rows(lerp, corners, ep, n, i);
      assert done + Row(lerp, corners, ep, i, 0) == done;

      var fy := 0.0;
      ghost var j: nat := 0;
      while fy < edgeBudget
        invariant j <= n && fy == Position(ep, j)
        invariant partitions == FilterKept(geo, polygon, areaThreshold, done + Row(lerp, corners, ep, i, j))
        decreases n - j
      {
        assert j < n by { StepCountSpec(ep, j); }
        var partition := NewRect(lerp(fy, lpPrev.start, lpPrev.end), lerp(fy + ep, lp.start, lp.end));
        assert partition == Cell(lerp, corners, ep, i, j);
        match areaThreshold {
          case Some(threshold) =>
            var keep := AreaRatioAtLeast(geo.intersectionArea(polygon, partition), geo.rectArea(partition), threshold);
            if keep {
              partitions := partitions + [partition];
            }
          case None =>
            if geo.intersects(partition, polygon) {
              partitions := partitions + [partition];
            }
        }
        assert partitions == FilterKept(geo, polygon, areaThreshold, done + Row(lerp, corners, ep, i, j + 1)) by {
          assert done + Row(lerp, corners, ep, i, j + 1) == (done + Row(lerp, corners, ep, i, j)) + [partition];
          FilterKeptSnoc(geo, polygon, areaThreshold, done + Row(lerp, corners, ep, i, j), partition);
        }
        fy := fy + ep;
        j := j + 1;
      }
      assert j == n by { StepCountSpec(ep, j); }
      fx := fx + ep;
      lpPrev := lp;
      i := i + 1;
    }
    assert i == n by { StepCountSpec(ep, i); }
    return Success(partitions);
  }

  // ---------------------------------------------------------------------------------------------
  // Properties of the partition
  // ---------------------------------------------------------------------------------------------

  lemma {:induction false} RowEnumerates(lerp: (real, Coord, Coord) -> Coord, c: Corners, ep: real, i: nat, j: nat)
    ensures |Row(lerp, c, ep, i, j)| == j
    ensures forall b :: 0 <= b < j ==> Row(lerp, c, ep, i, j)[b] == Cell(lerp, c, ep, i, b)
  {
    if j > 0 {
      RowEnumerates(lerp, c, ep, i, j - 1);
    }
  }

  lemma {:induction false} RowsLength(lerp: (real, Coord, Coord) -> Coord, c: Corners, ep: real, n: nat, i: nat)
    ensures |Rows(lerp, c, ep, n, i)| == i * n
  {
    if i > 0 {
      RowsLength(lerp, c, ep, n, i - 1);
      RowEnumerates(lerp, c, ep, i - 1, n);
      assert (i - 1) * n + n == i * n;
    }
  }

  lemma {:induction false} RowsCoverGrid(lerp: (real, Coord, Coord) -> Coord, c: Corners, ep: real, n: nat, i: nat)
    ensures forall a, b :: 0 <= a < i && 0 <= b < n ==> Cell(lerp, c, ep, a, b) in Rows(lerp, c, ep, n, i)
  {
    if i > 0 {
      RowsCoverGrid(lerp, c, ep, n, i - 1);
      RowEnumerates(lerp, c, ep, i - 1, n);
      var prefix, row := Rows(lerp, c, ep, n, i - 1), Row(lerp, c, ep, i - 1, n);
      assert Rows(lerp, c, ep, n, i) == prefix + row;
      forall a, b | 0 <= a < i && 0 <= b < n
        ensures Cell(lerp, c, ep, a, b) in prefix + row
      {
        if a == i - 1 {
          assert row[b] == Cell(lerp, c, ep, a, b);
        } else {
          assert Cell(lerp, c, ep, a, b) in prefix;
        }
      }
    }
  }

  lemma {:induction false} RowsOnlyGrid(lerp: (real, Coord, Coord) -> Coord, c: Corners, ep: real, n: nat, i: nat)
    ensures forall k :: 0 <= k < |Rows(lerp, c, ep, n, i)| ==>
              exists a, b :: 0 <= a < i && 0 <= b < n && Rows(lerp, c, ep, n, i)[k] == Cell(lerp, c, ep, a, b)
  {
    if i > 0 {
      RowsOnlyGrid(lerp, c, ep, n, i - 1);
      RowEnumerates(lerp, c, ep, i - 1, n);
      var prefix, row := Rows(lerp, c, ep, n, i - 1), Row(lerp, c, ep, i - 1, n);
      var rows := Rows(lerp, c, ep, n, i);
      assert rows == prefix + row;
      forall k | 0 <= k < |rows|
        ensures exists a, b :: 0 <= a < i && 0 <= b < n && rows[k] == Cell(lerp, c, ep, a, b)
      {
        if k >= |prefix| {
          assert rows[k] == row[k - |prefix|] == Cell(lerp, c, ep, i - 1, k - |prefix|);
        } else {
          var a, b :| 0 <= a < i - 1 && 0 <= b < n && prefix[k] == Cell(lerp, c, ep, a, b);
          assert rows[k] == Cell(lerp, c, ep, a, b);
        }
      }
    } else {
      assert Rows(lerp, c, ep, n, i) == [];
    }
  }

  /** The candidates are exactly the n * n cells of the grid, n = StepCount(ep). */
  lemma CandidatesEnumerateGrid(lerp: (real, Coord, Coord) -> Coord, c: Corners, ep: real)
    requires 0.0 < ep
    ensures |Candidates(lerp, c, ep)| == StepCount(ep) * StepCount(ep)
    ensures forall a, b :: 0 <= a < StepCount(ep) && 0 <= b < StepCount(ep) ==> Cell(lerp, c, ep, a, b) in Candidates(lerp, c, ep)
    ensures forall x :: x in Candidates(lerp, c, ep) ==>
              exists a, b :: 0 <= a < StepCount(ep) && 0 <= b < StepCount(ep) && x == Cell(lerp, c, ep, a, b)
  {
    RowsLength(lerp, c, ep, StepCount(ep), StepCount(ep));
    RowsCoverGrid(lerp, c, ep, StepCount(ep), StepCount(ep));
    RowsOnlyGrid(lerp, c, ep, StepCount(ep), StepCount(ep));
  }

  /** Filtering distributes over concatenation: the kept cells keep their sweep order. */
  lemma {:induction false} FilterKeptAppend(geo: GeoLib, polygon: Polygon, areaThreshold: Option<real>, s: seq<Rect>, t: seq<Rect>)
    ensures FilterKept(geo, polygon, areaThreshold, s + t)
         == FilterKept(geo, polygon, areaThreshold, s) + FilterKept(geo, polygon, areaThreshold, t)
    decreases |t|
  {
    if t == [] {
      assert s + t == s;
    } else {
      var init, last := t[..|t| - 1], t[|t| - 1];
      assert t == init + [last];
      assert s + t == (s + init) + [last];
      FilterKeptAppend(geo, polygon, areaThreshold, s, init);
      FilterKeptSnoc(geo, polygon, areaThreshold, s + init, last);
      FilterKeptSnoc(geo, polygon, areaThreshold, init, last);
    }
  }

  /** A cell is kept exactly when it is a candidate that the criterion selects, and no more cells are kept than visited. */
  lemma {:induction false} FilterKeptMembers(geo: GeoLib, polygon: Polygon, areaThreshold: Option<real>, s: seq<Rect>)
    ensures |FilterKept(geo, polygon, areaThreshold, s)| <= |s|
    ensures forall x :: x in FilterKept(geo, polygon, areaThreshold, s) <==> x in s && Keep(geo, polygon, areaThreshold, x)
  {
    if s != [] {
      var init, last := s[..|s| - 1], s[|s| - 1];
      assert s == init + [last];
      FilterKeptMembers(geo, polygon, areaThreshold, init);
    }
  }

  /**
   * What `partition_region` returns for a non-empty polygon: at most n * n rectangles, each a
   * grid cell the criterion keeps, and every grid cell the criterion keeps among them.
   */
  lemma PartitionContents(lerp: (real, Coord, Coord) -> Coord, geo: GeoLib, polygon: Polygon, ep: real, areaThreshold: Option<real>)
    requires 0.0 < ep
    ensures geo.boundingRect(polygon).None? <==> PartitionSpec(lerp, geo, polygon, ep, areaThreshold).Failure?
    ensures geo.boundingRect(polygon).Some? ==>
      var corners, n := BoxCorners(geo.boundingRect(polygon).value), StepCount(ep);
      var kept := PartitionSpec(lerp, geo, polygon, ep, areaThreshold).value;
      && |kept| <= n * n
      && (forall x :: x in kept ==> Keep(geo, polygon, areaThreshold, x))
      && (forall x :: x in kept ==> exists a, b :: 0 <= a < n && 0 <= b < n && x == Cell(lerp, corners, ep, a, b))
      && (forall a, b :: 0 <= a < n && 0 <= b < n && Keep(geo, polygon, areaThreshold, Cell(lerp, corners, ep, a, b)) ==>
            Cell(lerp, corners, ep, a, b) in kept)
  {
    if geo.boundingRect(polygon).Some? {
      var corners, n := BoxCorners(geo.boundingRect(polygon).value), StepCount(ep);
      var cands := Candidates(lerp, corners, ep);
      var kept := PartitionSpec(lerp, geo, polygon, ep, areaThreshold).value;
      CandidatesEnumerateGrid(lerp, corners, ep);
      FilterKeptMembers(geo, polygon, areaThreshold, cands);
    }
  }

  /**
   * With a proportion of 1 or more each sweep runs once, and the only candidate is the rectangle
   * from `lerp(0, c0, c3)` to the far corner interpolated at ep. For ep > 1 that corner lies beyond
   * c2, so the cell is a dilation of the box rather than the box (see `CoarseSweepDilates`).
   */
  lemma SingleStepWhenCoarse(lerp: (real, Coord, Coord) -> Coord, c: Corners, ep: real)
    requires 1.0 <= ep
    ensures StepCount(ep) == 1
    ensures var lp := Line(lerp(ep, c.c0, c.c1), lerp(ep, c.c3, c.c2));
            Candidates(lerp, c, ep) == [NewRect(lerp(0.0, c.c0, c.c3), lerp(ep, lp.start, lp.end))]
  {
    assert EdgeBudget(ep) / ep == 1.0;
    assert Rows(lerp, c, ep, 1, 1) == Rows(lerp, c, ep, 1, 0) + Row(lerp, c, ep, 0, 1);
    assert Row(lerp, c, ep, 0, 1) == [Cell(lerp, c, ep, 0, 0)];
    assert Position(ep, 0) == 0.0;
  }

  /**
   * Step counts over the reals: a half gives 2 x 2 cells and a third 3 x 3, but 0.33 gives 4 x 4
   * (0.33 * 3 < 1), not the 3 x 3 that the example in the documentation of `partition_region` says.
   */
  lemma StepCountExamples()
    ensures StepCount(0.5) == 2
    ensures StepCount(1.0 / 3.0) == 3
    ensures StepCount(0.33) == 4
    ensures StepCount(0.3) == 4
    ensures StepCount(0.25) == 4
  {
    assert EdgeBudget(0.33) / 0.33 == 100.0 / 33.0;
    assert EdgeBudget(0.3) / 0.3 == 10.0 / 3.0;
  }

  /**
   * The last sweep parameter ends exactly on the far edge when ep divides 1 (a half, a third) or
   * is 1, and overshoots it otherwise: to 1.32 for 0.33.
   */
  lemma SweepExtentExamples()
    ensures Position(0.5, StepCount(0.5)) == 1.0
    ensures Position(1.0 / 3.0, StepCount(1.0 / 3.0)) == 1.0
    ensures Position(1.0, StepCount(1.0)) == 1.0
    ensures Position(0.33, StepCount(0.33)) == 1.32
  {
    StepCountExamples();
    assert EdgeBudget(1.0) / 1.0 == 1.0;
    PositionIsProduct(0.5, 2);
    PositionIsProduct(1.0 / 3.0, 3);
    PositionIsProduct(1.0, 1);
    PositionIsProduct(0.33, 4);
  }

  /** A proportion above 1 takes a single step, whose parameter ep lies beyond the far edge. */
  lemma CoarseSweepOvershoots(ep: real)
    requires 1.0 < ep
    ensures StepCount(ep) == 1
    ensures Position(ep, StepCount(ep)) == ep > 1.0
  {
    assert EdgeBudget(ep) / ep == 1.0;
    PositionIsProduct(ep, 1);
  }

  // ---------------------------------------------------------------------------------------------
  // The coarse case: a proportion of 1 or more
  // ---------------------------------------------------------------------------------------------

  /** An interpolation that returns its endpoints exactly at t = 0 and t = 1. */
  ghost predicate ExactEndpoints(lerp: (real, Coord, Coord) -> Coord)
  {
    forall a, b :: lerp(0.0, a, b) == a && lerp(1.0, a, b) == b
  }

  /** Straight-line interpolation of longitude and latitude, an interpolation with exact endpoints. */
  function PlanarLerp(): (lerp: (real, Coord, Coord) -> Coord)
    ensures ExactEndpoints(lerp)
  {
    (t: real, a: Coord, b: Coord) => Coord(a.x + t * (b.x - a.x), a.y + t * (b.y - a.y))
  }

  /**
   * As written, a proportion above 1 does not return the bounding box even for an interpolation
   * with exact endpoints: the unit box with ep = 2 gives the single cell [0, 2] x [0, 2].
   */
  lemma CoarseSweepDilates()
    ensures var box := Rect(Coord(0.0, 0.0), Coord(1.0, 1.0));
      && Candidates(PlanarLerp(), BoxCorners(box), 2.0) == [Rect(Coord(0.0, 0.0), Coord(2.0, 2.0))]
      && Candidates(PlanarLerp(), BoxCorners(box), 2.0) != [box]
  {
    var box := Rect(Coord(0.0, 0.0), Coord(1.0, 1.0));
    var lerp, c := PlanarLerp(), BoxCorners(box);
    SingleStepWhenCoarse(lerp, c, 2.0);
    assert lerp(2.0, c.c0, c.c1) == Coord(0.0, 2.0);
    assert lerp(2.0, c.c3, c.c2) == Coord(1.0, 2.0);
    assert lerp(2.0, Coord(0.0, 2.0), Coord(1.0, 2.0)) == Coord(2.0, 2.0);
    assert lerp(0.0, c.c0, c.c3) == Coord(0.0, 0.0);
  }

  /** The interpolation with its parameter clamped to the far edge of the box, 1. */
  function ClampedLerp(lerp: (real, Coord, Coord) -> Coord): (r: (real, Coord, Coord) -> Coord)
    ensures forall a, b :: r(1.0, a, b) == lerp(1.0, a, b) && r(0.0, a, b) == lerp(0.0, a, b)
  {
    (t: real, a: Coord, b: Coord) => lerp(if t < 1.0 then t else 1.0, a, b)
  }

  /**
   * With the sweep parameters clamped to 1 and an interpolation with exact endpoints, a proportion
   * of 1 or more gives the bounding box itself as the only candidate.
   */
  lemma ClampedCoarseSweepIsBox(lerp: (real, Coord, Coord) -> Coord, box: Rect, ep: real)
    requires ExactEndpoints(lerp) && 1.0 <= ep
    requires box.min.x <= box.max.x && box.min.y <= box.max.y
    ensures Candidates(ClampedLerp(lerp), BoxCorners(box), ep) == [box]
  {
    var clamped, c := ClampedLerp(lerp), BoxCorners(box);
    SingleStepWhenCoarse(clamped, c, ep);
    assert clamped(ep, c.c0, c.c1) == c.c1;
    assert clamped(ep, c.c3, c.c2) == c.c2;
    assert clamped(ep, c.c1, c.c2) == c.c2;
    assert clamped(0.0, c.c0, c.c3) == c.c0;
    CornersSpanBox(box);
  }

  /** With a positive cell area the ratio test is `intersection >= threshold * area`; with none, any overlap. */
  lemma AreaRatioCriterion(intersectionArea: real, cellArea: real, threshold: real)
    requires 0.0 <= cellArea
    ensures 0.0 < cellArea ==> (AreaRatioAtLeast(intersectionArea, cellArea, threshold) <==> intersectionArea >= threshold * cellArea)
    ensures cellArea == 0.0 ==> (AreaRatioAtLeast(intersectionArea, cellArea, threshold) <==> 0.0 < intersectionArea)
  {
    if 0.0 < cellArea {
      var q := intersectionArea / cellArea;
      assert q * cellArea == intersectionArea;
      assert q >= threshold ==> (q - threshold) * cellArea >= 0.0;
      assert q < threshold ==> (threshold - q) * cellArea > 0.0;
    }
  }
}
