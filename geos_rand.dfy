/**
 * The earlier sampler: it picks a starting vertex of the triangle at random, interpolates a point
 * on the opposite edge and then a point between the starting vertex and that point. Its `lerp`,
 * n-vector algebra, uniform sampler and sampler set-up are the same as those of `Geom`, `NVecs`
 * and `Samplers`, which this module reuses.
 */
module GeosRand {
  import opened Numerics
  import opened GeoTypes
  import opened NVecs
  import opened Geom
  import Samplers

  /** The vertices `[v[idx], v[(idx + 1) % 3], v[(idx + 2) % 3]]`: the triangle rotated to start at idx. */
  function RotatedVertices(triangle: Triangle, idx: nat): (r: seq<Coord>)
    requires idx < 3
    ensures r == Vertices(triangle)[idx..] + Vertices(triangle)[..idx]
  {
    var v := Vertices(triangle);
    if idx == 0 then
      [v[idx], v[(idx + 1) % 3], v[(idx + 2) % 3]]
    else if idx == 1 then
      assert (idx + 1) % 3 == 2 && (idx + 2) % 3 == 0;
      [v[idx], v[(idx + 1) % 3], v[(idx + 2) % 3]]
    else
      assert (idx + 1) % 3 == 0 && (idx + 2) % 3 == 1;
      [v[idx], v[(idx + 1) % 3], v[(idx + 2) % 3]]
  }

  /** A rotation uses every vertex exactly once and starts at the drawn one. */
  lemma RotationIsPermutation(triangle: Triangle, idx: nat)
    requires idx < 3
    ensures |RotatedVertices(triangle, idx)| == 3 && RotatedVertices(triangle, idx)[0] == Vertices(triangle)[idx]
    ensures multiset(RotatedVertices(triangle, idx)) == multiset(Vertices(triangle))
  {
    var v := Vertices(triangle);
    assert v == v[..idx] + v[idx..];
  }

  /**
   * `sample_point_in_triangle`: with `a`, `b`, `c` the vertices rotated to start at `idx`, the
   * point `lerp(s2, a, lerp(s1, b, c))`.
   */
  function SamplePointInTriangle(m: Math, triangle: Triangle, idx: nat, s1: real, s2: real): Coord
    requires SqrtLaws(m) && idx < 3
  {
    var v := RotatedVertices(triangle, idx);
    var a, b, c := v[0], v[1], v[2];
    var pBc := Lerp(m, s1, b, c);
    Lerp(m, s2, a, pBc)
  }

  /**
   * A second draw of 0 gives the starting vertex (through its n-vector and back), and a second
   * draw of 1 gives the point on the opposite edge.
   */
  lemma SampleEndpoints(m: Math, triangle: Triangle, idx: nat, s1: real)
    requires SqrtLaws(m) && Atan2ScaleInvariant(m) && idx < 3
    ensures SamplePointInTriangle(m, triangle, idx, s1, 0.0) == ToCoord(m, FromCoord(m, Vertices(triangle)[idx]))
    ensures var v := RotatedVertices(triangle, idx);
      SamplePointInTriangle(m, triangle, idx, s1, 1.0) == ToCoord(m, FromCoord(m, Lerp(m, s1, v[1], v[2])))
  {
    var v := RotatedVertices(triangle, idx);
    LerpEndpoints(m, v[0], Lerp(m, s1, v[1], v[2]));
  }

  /**
   * Swapping the two far vertices and mirroring the first draw gives the same point: the point on
   * the opposite edge does not depend on the edge's direction.
   */
  lemma OppositeEdgeSymmetric(m: Math, triangle: Triangle, idx: nat, s1: real, s2: real)
    requires SqrtLaws(m) && idx < 3
    ensures var v := RotatedVertices(triangle, idx);
      SamplePointInTriangle(m, triangle, idx, s1, s2) == Lerp(m, s2, v[0], Lerp(m, 1.0 - s1, v[2], v[1]))
  {
    var v := RotatedVertices(triangle, idx);
    LerpSymmetric(m, s1, v[1], v[2]);
  }

  /** `PolygonalSampler::sample_coord` with this module's triangle sampler. */
  function SampleCoord(m: Math, sampler: Samplers.PolygonalSampler, tableIndex: nat, idx: nat, s1: real, s2: real): Coord
    requires SqrtLaws(m) && tableIndex < |sampler.triangulation| && idx < 3
  {
    SamplePointInTriangle(m, sampler.triangulation[tableIndex], idx, s1, s2)
  }

  /** A zero second draw returns one of the selected triangle's vertices (through its n-vector). */
  lemma SampleCoordAtVertex(m: Math, sampler: Samplers.PolygonalSampler, tableIndex: nat, idx: nat, s1: real)
    requires SqrtLaws(m) && Atan2ScaleInvariant(m) && tableIndex < |sampler.triangulation| && idx < 3
    ensures exists v :: (v in Vertices(sampler.triangulation[tableIndex]) &&
                         SampleCoord(m, sampler, tableIndex, idx, s1, 0.0) == ToCoord(m, FromCoord(m, v)))
  {
    var t := sampler.triangulation[tableIndex];
    SampleEndpoints(m, t, idx, s1);
    assert Vertices(t)[idx] in Vertices(t);
  }
}
