/**
 * Random coordinate samplers: the uniform fallback over the whole globe and the polygonal sampler
 * that picks a triangle of the polygon's triangulation by area and a point inside it. Every random
 * draw is a parameter: a unit draw `u` stands for the value the distribution maps it from.
 */
module Samplers {
  import opened Wrappers
  import opened Numerics
  import opened GeoTypes
  import opened NVecs
  import opened Geom

  const MinLat: real := -90.0
  const MaxLat: real := 90.0
  const MinLng: real := -180.0
  const MaxLng: real := 180.0

  // ---------------------------------------------------------------------------------------------
  // Uniform sampler
  // ---------------------------------------------------------------------------------------------

  /** `Uniform::new(low, high).sample(rng)` for the unit draw u in [0, 1): a value in [low, high). */
  function UniformDraw(low: real, high: real, u: real): (r: real)
    requires low < high && 0.0 <= u < 1.0
    ensures low <= r < high
  {
    ScaledDrawBounds(u, high - low);
    low + Times(u, high - low)
  }

  /** A unit draw scales a positive width to a value in [0, width). */
  lemma ScaledDrawBounds(u: real, width: real)
    requires 0.0 <= u < 1.0 && 0.0 < width
    ensures 0.0 <= Times(u, width) < width
  {
    MulStrict(u, 1.0, width);
    MulMonotone(0.0, u, width);
  }

  /** The unit draw that `UniformDraw` maps to r. */
  function UnitDrawFor(low: real, high: real, r: real): (u: real)
    requires low < high && low <= r < high
    ensures 0.0 <= u < 1.0
  {
    var u := (r - low) / (high - low);
    WeightBounds(r - low, high - low);
    u
  }

  /** Every value of [low, high) is drawn by exactly one unit draw. */
  lemma UniformDrawRoundTrip(low: real, high: real, u: real, r: real)
    requires low < high && 0.0 <= u < 1.0 && low <= r < high
    ensures UniformDraw(low, high, UnitDrawFor(low, high, r)) == r
    ensures UnitDrawFor(low, high, UniformDraw(low, high, u)) == u
  {
  }

  /**
   * `UniformSampler::sample_coord`: the latitude distribution fills `x` and the longitude
   * distribution fills `y`, although `x` is the longitude everywhere else.
   */
  function UniformSampleCoord(uLat: real, uLng: real): (c: Coord)
    requires 0.0 <= uLat < 1.0 && 0.0 <= uLng < 1.0
    ensures MinLat <= c.x < MaxLat && MinLng <= c.y < MaxLng
  {
    Coord(UniformDraw(MinLat, MaxLat, uLat), UniformDraw(MinLng, MaxLng, uLng))
  }

  /**
   * The uniform sampler reaches exactly the coordinates with x in [-90, 90) and y in [-180, 180):
   * no coordinate with a longitude `x` of 90 degrees or more east, or more than 90 degrees west,
   * is ever drawn.
   */
  lemma UniformSamplerRange(c: Coord)
    ensures (exists uLat, uLng :: 0.0 <= uLat < 1.0 && 0.0 <= uLng < 1.0 && UniformSampleCoord(uLat, uLng) == c)
        <==> MinLat <= c.x < MaxLat && MinLng <= c.y < MaxLng
  {
    if MinLat <= c.x < MaxLat && MinLng <= c.y < MaxLng {
      var uLat, uLng := UnitDrawFor(MinLat, MaxLat, c.x), UnitDrawFor(MinLng, MaxLng, c.y);
      UniformDrawRoundTrip(MinLat, MaxLat, uLat, c.x);
      UniformDrawRoundTrip(MinLng, MaxLng, uLng, c.y);
      assert UniformSampleCoord(uLat, uLng) == c;
    }
  }

  /**
   * A valid coordinate 120 degrees east is never drawn by the uniform sampler as written, and is
   * drawn by the corrected one.
   */
  lemma SwappedRangesMissEasternCoord()
    ensures !exists uLat, uLng :: 0.0 <= uLat < 1.0 && 0.0 <= uLng < 1.0 && UniformSampleCoord(uLat, uLng) == Coord(120.0, 10.0)
    ensures exists uLng, uLat :: 0.0 <= uLng < 1.0 && 0.0 <= uLat < 1.0 && UniformLngLatCoord(uLng, uLat) == Coord(120.0, 10.0)
  {
    UniformSamplerRange(Coord(120.0, 10.0));
    UniformLngLatRange(Coord(120.0, 10.0));
  }

  /** The uniform sampler with the longitude in `x` and the latitude in `y`, as `Coord` is used everywhere else. */
  function UniformLngLatCoord(uLng: real, uLat: real): (c: Coord)
    requires 0.0 <= uLng < 1.0 && 0.0 <= uLat < 1.0
    ensures MinLng <= c.x < MaxLng && MinLat <= c.y < MaxLat
  {
    Coord(UniformDraw(MinLng, MaxLng, uLng), UniformDraw(MinLat, MaxLat, uLat))
  }

  /** The corrected sampler reaches exactly the coordinates with a longitude in [-180, 180) and a latitude in [-90, 90). */
  lemma UniformLngLatRange(c: Coord)
    ensures (exists uLng, uLat :: 0.0 <= uLng < 1.0 && 0.0 <= uLat < 1.0 && UniformLngLatCoord(uLng, uLat) == c)
        <==> MinLng <= c.x < MaxLng && MinLat <= c.y < MaxLat
  {
    if MinLng <= c.x < MaxLng && MinLat <= c.y < MaxLat {
      var uLng, uLat := UnitDrawFor(MinLng, MaxLng, c.x), UnitDrawFor(MinLat, MaxLat, c.y);
      UniformDrawRoundTrip(MinLng, MaxLng, uLng, c.x);
      UniformDrawRoundTrip(MinLat, MaxLat, uLat, c.y);
      assert UniformLngLatCoord(uLng, uLat) == c;
    }
  }

  // ---------------------------------------------------------------------------------------------
  // Polygonal sampler set-up
  // ---------------------------------------------------------------------------------------------

  /** A triangulation and, per triangle, the probability of picking it (the Walker table's input). */
  datatype PolygonalSampler = PolygonalSampler(triangulation: seq<Triangle>, weights: seq<real>)

  /** Why no sampler can be built: the triangles' areas add up to zero, so `a / cum_area` divides by zero. */
  datatype SamplerError = ZeroTotalArea

  /** The sum of a sequence, added from the front. */
  function Sum(s: seq<real>): real
  {
    if s == [] then 0.0 else Sum(s[..|s| - 1]) + s[|s| - 1]
  }

  /** The unsigned area of each triangle, in triangulation order. */
  function Areas(geo: GeoLib, triangles: seq<Triangle>): seq<real>
  {
    if triangles == [] then [] else Areas(geo, triangles[..|triangles| - 1]) + [geo.triangleArea(triangles[|triangles| - 1])]
  }

  /** Each area divided by the total. */
  function Normalise(areas: seq<real>, total: real): seq<real>
    requires total != 0.0
  {
    if areas == [] then [] else Normalise(areas[..|areas| - 1], total) + [areas[|areas| - 1] / total]
  }

  lemma {:induction false} AreasPointwise(geo: GeoLib, triangles: seq<Triangle>)
    ensures |Areas(geo, triangles)| == |triangles|
    ensures forall i :: 0 <= i < |triangles| ==> Areas(geo, triangles)[i] == geo.triangleArea(triangles[i])
  {
    if triangles != [] {
      AreasPointwise(geo, triangles[..|triangles| - 1]);
    }
  }

  lemma {:induction false} NormalisePointwise(areas: seq<real>, total: real)
    requires total != 0.0
    ensures |Normalise(areas, total)| == |areas|
    ensures forall i :: 0 <= i < |areas| ==> Normalise(areas, total)[i] == areas[i] / total
  {
    if areas != [] {
      NormalisePointwise(areas[..|areas| - 1], total);
    }
  }

  /** Dividing every entry by the total divides the sum by it: normalised weights sum to 1. */
  lemma {:induction false} NormaliseSum(areas: seq<real>, total: real)
    requires total != 0.0
    ensures Sum(Normalise(areas, total)) == Sum(areas) / total
  {
    if areas != [] {
      var init, last := areas[..|areas| - 1], areas[|areas| - 1];
      NormaliseSum(init, total);
      var w := Normalise(areas, total);
      assert w == Normalise(init, total) + [last / total];
      assert w[..|w| - 1] == Normalise(init, total) && w[|w| - 1] == last / total;
      assert Sum(w) == Sum(init) / total + last / total;
      DivideSum(Sum(init), last, total);
    }
  }

  lemma DivideSum(a: real, b: real, total: real)
    requires total != 0.0
    ensures a / total + b / total == (a + b) / total
  {
  }

  lemma {:induction false} SumNonNegative(s: seq<real>)
    requires forall i :: 0 <= i < |s| ==> 0.0 <= s[i]
    ensures 0.0 <= Sum(s)
    ensures forall i :: 0 <= i < |s| ==> s[i] <= Sum(s)
  {
    if s != [] {
      SumNonNegative(s[..|s| - 1]);
    }
  }

  /** With non-negative areas the total is zero exactly when every triangle has zero area. */
  lemma {:induction false} ZeroSumMeansAllZero(s: seq<real>)
    requires forall i :: 0 <= i < |s| ==> 0.0 <= s[i]
    ensures Sum(s) == 0.0 <==> forall i :: 0 <= i < |s| ==> s[i] == 0.0
  {
    if s != [] {
      var init := s[..|s| - 1];
      ZeroSumMeansAllZero(init);
      SumNonNegative(init);
    }
  }

  /** A part of a positive whole, divided by the whole, lies in [0, 1]. */
  lemma WeightBounds(part: real, whole: real)
    requires 0.0 <= part <= whole && 0.0 < whole
    ensures 0.0 <= part / whole <= 1.0
  {
    var q := part / whole;
    assert q * whole == part;
    if q < 0.0 {
      MulStrict(q, 0.0, whole);
    }
    if q > 1.0 {
      MulStrict(1.0, q, whole);
    }
  }

  /** Non-negative areas divided by their non-zero sum are probabilities that sum to 1. */
  lemma NormalisedWeights(areas: seq<real>, total: real)
    requires forall i :: 0 <= i < |areas| ==> 0.0 <= areas[i]
    requires total == Sum(areas) && total != 0.0
    ensures |Normalise(areas, total)| == |areas|
    ensures forall i :: 0 <= i < |areas| ==> Normalise(areas, total)[i] == areas[i] / total
    ensures forall i :: 0 <= i < |areas| ==> 0.0 <= Normalise(areas, total)[i] <= 1.0
    ensures Sum(Normalise(areas, total)) == 1.0
  {
    var weights := Normalise(areas, total);
    NormalisePointwise(areas, total);
    NormaliseSum(areas, total);
    assert Sum(areas) / total == 1.0;
    SumNonNegative(areas);
    forall i | 0 <= i < |weights|
      ensures 0.0 <= weights[i] <= 1.0
    {
      WeightBounds(areas[i], total);
    }
  }

  /** The weights of a triangulation with a positive total area: one probability per triangle, proportional to its area. */
  lemma TriangulationWeights(geo: GeoLib, triangles: seq<Triangle>)
    requires TriangleAreasNonNegative(geo) && Sum(Areas(geo, triangles)) != 0.0
    ensures var total := Sum(Areas(geo, triangles));
      var weights := Normalise(Areas(geo, triangles), total);
      && |weights| == |triangles|
      && (forall i :: 0 <= i < |weights| ==> weights[i] == geo.triangleArea(triangles[i]) / total)
      && (forall i :: 0 <= i < |weights| ==> 0.0 <= weights[i] <= 1.0)
      && Sum(weights) == 1.0
  {
    AreasPointwise(geo, triangles);
    NormalisedWeights(Areas(geo, triangles), Sum(Areas(geo, triangles)));
  }

  /**
   * `PolygonalSampler::new`: triangulate, accumulate each triangle's area into `cum_area` while
   * pushing it onto `areas`, then divide every area by `cum_area`.
   */
  method NewPolygonalSampler(geo: GeoLib, polygon: Polygon) returns (r: Result<PolygonalSampler, SamplerError>)
    requires TriangleAreasNonNegative(geo)
    ensures r.Failure? <==> Sum(Areas(geo, geo.earcut(polygon))) == 0.0
    ensures r.Success? ==>
      && r.value.triangulation == geo.earcut(polygon)
      && |r.value.weights| == |r.value.triangulation|
      && (forall i :: 0 <= i < |r.value.weights| ==>
            r.value.weights[i] == geo.triangleArea(r.value.triangulation[i]) / Sum(Areas(geo, geo.earcut(polygon))))
      && (forall i :: 0 <= i < |r.value.weights| ==> 0.0 <= r.value.weights[i] <= 1.0)
      && Sum(r.value.weights) == 1.0
  {
    var triangles := geo.earcut(polygon);
    var cumArea := 0.0;
    var areas: seq<real> := [];
    var triangulation: seq<Triangle> := [];
    for k := 0 to |triangles|
      invariant triangulation == triangles[..k]
      invariant areas == Areas(geo, triangles[..k])
      invariant cumArea == Sum(areas)
    {
      var area := geo.triangleArea(triangles[k]);
      assert areas + [area] == Areas(geo, triangles[..k + 1]) by {
        assert triangles[..k + 1][..k] == triangles[..k];
      }
      assert Sum(areas + [area]) == cumArea + area by {
        assert (areas + [area])[..|areas|] == areas;
      }
      cumArea := cumArea + area;
      areas := areas + [area];
      triangulation := triangulation + [triangles[k]];
    }
    assert areas == Areas(geo, triangles) by {
      assert triangles[..|triangles|] == triangles;
    }
    if cumArea == 0.0 {
      return Failure(ZeroTotalArea);
    }
    var weights := Normalise(areas, cumArea);
    TriangulationWeights(geo, triangles);
    return Success(PolygonalSampler(triangulation, weights));
  }

  // ---------------------------------------------------------------------------------------------
  // Sampling a point in a triangle
  // ---------------------------------------------------------------------------------------------

  /** Barycentric weights of the vertices a, b and c. */
  datatype Barycentric = Barycentric(a: real, b: real, c: real)

  lemma ProductsInUnitInterval(r1Sqrt: real, r2: real)
    ensures 0.0 <= r1Sqrt <= 1.0 && 0.0 <= r2 <= 1.0 ==>
      0.0 <= r1Sqrt * (1.0 - r2) <= 1.0 && 0.0 <= r2 * r1Sqrt <= 1.0
  {
    if 0.0 <= r1Sqrt <= 1.0 && 0.0 <= r2 <= 1.0 {
      MulMonotone(0.0, r1Sqrt, 1.0 - r2);
      MulMonotone(r1Sqrt, 1.0, 1.0 - r2);
      MulMonotone(0.0, r2, r1Sqrt);
      MulMonotone(r2, 1.0, r1Sqrt);
    }
  }

  /** The weights `1 - sqrt(r1)`, `sqrt(r1) * (1 - r2)` and `r2 * sqrt(r1)`: they always sum to 1. */
  function BarycentricWeights(r1Sqrt: real, r2: real): (w: Barycentric)
    ensures w.a + w.b + w.c == 1.0
    ensures 0.0 <= r1Sqrt <= 1.0 && 0.0 <= r2 <= 1.0 ==>
      0.0 <= w.a <= 1.0 && 0.0 <= w.b <= 1.0 && 0.0 <= w.c <= 1.0
  {
    ProductsInUnitInterval(r1Sqrt, r2);
    Barycentric(1.0 - r1Sqrt, r1Sqrt * (1.0 - r2), r2 * r1Sqrt)
  }

  /** Weights that are non-negative and sum to 1: the points of the triangle. */
  predicate InTriangle(w: Barycentric)
  {
    0.0 <= w.a && 0.0 <= w.b && 0.0 <= w.c && w.a + w.b + w.c == 1.0
  }

  /**
   * The draws r1, r2 from [0, 1] give weights of a point in the triangle, and every point of the
   * triangle is given by some pair of draws.
   */
  lemma BarycentricDrawsCoverTriangle(m: Math, w: Barycentric)
    requires SqrtLaws(m)
    ensures forall r1, r2 :: 0.0 <= r1 <= 1.0 && 0.0 <= r2 <= 1.0 ==> InTriangle(BarycentricWeights(m.sqrt(r1), r2))
    ensures InTriangle(w) ==>
      exists r1, r2 :: 0.0 <= r1 <= 1.0 && 0.0 <= r2 <= 1.0 && BarycentricWeights(m.sqrt(r1), r2) == w
  {
    forall r1, r2 | 0.0 <= r1 <= 1.0 && 0.0 <= r2 <= 1.0
      ensures InTriangle(BarycentricWeights(m.sqrt(r1), r2))
    {
      SqrtOfUnitInterval(m, r1);
    }
    if InTriangle(w) {
      var s := 1.0 - w.a;
      var r1 := s * s;
      assert 0.0 <= s <= 1.0;
      assert r1 <= 1.0 by {
        assert s * s <= s * 1.0;
      }
      assert m.sqrt(r1) == s by {
        SquareRootUnique(m.sqrt(r1), s);
      }
      var r2 := if s == 0.0 then 0.0 else w.c / s;
      if s == 0.0 {
        assert w.b == 0.0 && w.c == 0.0;
      } else {
        assert w.c <= s;
        WeightBounds(w.c, s);
        assert r2 * s == w.c;
        assert s * (1.0 - r2) == w.b;
      }
      assert BarycentricWeights(m.sqrt(r1), r2) == w;
    }
  }

  /** The n-vector `wa * na + wb * nb + wc * nc`. */
  function Combine(w: Barycentric, na: NVec, nb: NVec, nc: NVec): NVec
  {
    Add(Add(ScaleLeft(w.a, na), ScaleLeft(w.b, nb)), ScaleLeft(w.c, nc))
  }

  /**
   * `sample_point_in_triangle`: the coordinate of the barycentric combination of the vertices'
   * n-vectors, with `r1Sqrt` the square root of the first draw. The combination is converted
   * without being renormalised.
   */
  function SamplePointInTriangle(m: Math, triangle: Triangle, u1: real, u2: real): Coord
  {
    var w := BarycentricWeights(m.sqrt(u1), u2);
    ToCoord(m, Combine(w, FromCoord(m, triangle.v0), FromCoord(m, triangle.v1), FromCoord(m, triangle.v2)))
  }

  /**
   * Renormalising the combination, as `lerp` does, would give the same coordinate: the missing
   * renormalisation changes nothing.
   */
  lemma SampleIgnoresRenormalisation(m: Math, triangle: Triangle, u1: real, u2: real, k: real)
    requires SqrtLaws(m) && Atan2ScaleInvariant(m) && 0.0 < k
    ensures var w := BarycentricWeights(m.sqrt(u1), u2);
      SamplePointInTriangle(m, triangle, u1, u2)
        == ToCoord(m, ScaleLeft(k, Combine(w, FromCoord(m, triangle.v0), FromCoord(m, triangle.v1), FromCoord(m, triangle.v2))))
  {
    var w := BarycentricWeights(m.sqrt(u1), u2);
    ToCoordScaleInvariant(m, Combine(w, FromCoord(m, triangle.v0), FromCoord(m, triangle.v1), FromCoord(m, triangle.v2)), k);
  }

  /** The extreme weights select one vertex each. */
  lemma CombineAtVertices(na: NVec, nb: NVec, nc: NVec)
    ensures Combine(BarycentricWeights(0.0, 0.0), na, nb, nc) == na
    ensures Combine(BarycentricWeights(1.0, 0.0), na, nb, nc) == nb
    ensures Combine(BarycentricWeights(1.0, 1.0), na, nb, nc) == nc
  {
    assert BarycentricWeights(0.0, 0.0) == Barycentric(1.0, 0.0, 0.0);
    assert BarycentricWeights(1.0, 0.0) == Barycentric(0.0, 1.0, 0.0);
    assert BarycentricWeights(1.0, 1.0) == Barycentric(0.0, 0.0, 1.0);
    var zero := NVec(0.0, 0.0, 0.0);
    assert ScaleLeft(0.0, na) == zero && ScaleLeft(0.0, nb) == zero && ScaleLeft(0.0, nc) == zero;
    assert ScaleLeft(1.0, na) == na && ScaleLeft(1.0, nb) == nb && ScaleLeft(1.0, nc) == nc;
    assert Add(Add(na, zero), zero) == na;
    assert Add(Add(zero, nb), zero) == nb;
    assert Add(Add(zero, zero), nc) == nc;
  }

  /**
   * The extreme draws give the vertices (each through its n-vector and back): r1 = 0 gives v0,
   * r1 = 1 and r2 = 0 give v1, r1 = 1 and r2 = 1 give v2.
   */
  lemma SampleCorners(m: Math, triangle: Triangle)
    requires SqrtLaws(m)
    ensures SamplePointInTriangle(m, triangle, 0.0, 0.0) == ToCoord(m, FromCoord(m, triangle.v0))
    ensures SamplePointInTriangle(m, triangle, 1.0, 0.0) == ToCoord(m, FromCoord(m, triangle.v1))
    ensures SamplePointInTriangle(m, triangle, 1.0, 1.0) == ToCoord(m, FromCoord(m, triangle.v2))
  {
    var na, nb, nc := FromCoord(m, triangle.v0), FromCoord(m, triangle.v1), FromCoord(m, triangle.v2);
    assert SamplePointInTriangle(m, triangle, 0.0, 0.0) == ToCoord(m, na) by {
      SquareRootUnique(m.sqrt(0.0), 0.0);
      CombineAtVertices(na, nb, nc);
    }
    assert SamplePointInTriangle(m, triangle, 1.0, 0.0) == ToCoord(m, nb) by {
      SquareRootUnique(m.sqrt(1.0), 1.0);
      CombineAtVertices(na, nb, nc);
    }
    assert SamplePointInTriangle(m, triangle, 1.0, 1.0) == ToCoord(m, nc) by {
      SquareRootUnique(m.sqrt(1.0), 1.0);
      CombineAtVertices(na, nb, nc);
    }
  }

  /** With r2 = 0 the point lies on the edge v0 -> v1, where `lerp` at sqrt(r1) puts it. */
  lemma SampleOnFirstEdgeIsLerp(m: Math, triangle: Triangle, u1: real)
    requires SqrtLaws(m) && Atan2ScaleInvariant(m)
    ensures SamplePointInTriangle(m, triangle, u1, 0.0) == Lerp(m, m.sqrt(u1), triangle.v0, triangle.v1)
  {
    var na, nb, nc := FromCoord(m, triangle.v0), FromCoord(m, triangle.v1), FromCoord(m, triangle.v2);
    LerpIgnoresRenormalisation(m, m.sqrt(u1), triangle.v0, triangle.v1);
    assert Combine(BarycentricWeights(m.sqrt(u1), 0.0), na, nb, nc) == Blend(m.sqrt(u1), na, nb);
  }

  /**
   * `PolygonalSampler::sample_coord`: the Walker table's draw `tableIndex` selects a triangle,
   * and the two further draws a point in it.
   */
  function SampleCoord(m: Math, sampler: PolygonalSampler, tableIndex: nat, u1: real, u2: real): Coord
    requires tableIndex < |sampler.triangulation|
  {
    SamplePointInTriangle(m, sampler.triangulation[tableIndex], u1, u2)
  }

  /** A sample is the coordinate of a point of the selected triangle, in barycentric form. */
  lemma SampleCoordInSelectedTriangle(m: Math, sampler: PolygonalSampler, tableIndex: nat, u1: real, u2: real)
    requires SqrtLaws(m) && tableIndex < |sampler.triangulation|
    requires 0.0 <= u1 <= 1.0 && 0.0 <= u2 <= 1.0
    ensures var t := sampler.triangulation[tableIndex];
      exists w :: InTriangle(w) && SampleCoord(m, sampler, tableIndex, u1, u2)
                                   == ToCoord(m, Combine(w, FromCoord(m, t.v0), FromCoord(m, t.v1), FromCoord(m, t.v2)))
  {
    SqrtOfUnitInterval(m, u1);
    var w := BarycentricWeights(m.sqrt(u1), u2);
    assert InTriangle(w);
  }
}
