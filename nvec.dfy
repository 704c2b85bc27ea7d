/**
 * N-vectors: a geographic coordinate represented as a point of the unit sphere in three
 * dimensions, where blending two coordinates is a linear combination of vectors.
 */
module NVecs {
  import opened Numerics
  import opened GeoTypes

  datatype NVec = NVec(x: real, y: real, z: real)

  /** `impl Add for NVec`. */
  function Add(a: NVec, b: NVec): NVec
  {
    NVec(a.x + b.x, a.y + b.y, a.z + b.z)
  }

  /** `impl Mul<f64> for NVec`: the vector `v * k`. */
  function Scale(v: NVec, k: real): NVec
  {
    NVec(k * v.x, k * v.y, k * v.z)
  }

  /** `impl Mul<NVec> for f64`: the vector `k * v`, which the source defines as `v * k`. */
  function ScaleLeft(k: real, v: NVec): NVec
  {
    Scale(v, k)
  }

  /** The squared length x*x + y*y + z*z. */
  function Dot(v: NVec): real
  {
    v.x * v.x + v.y * v.y + v.z * v.z
  }

  /** `NVec::norm`, which delegates to the s2 crate: the square root of the squared length. */
  function Norm(m: Math, v: NVec): (r: real)
    requires SqrtLaws(m)
    ensures 0.0 <= r
  {
    assert 0.0 <= Dot(v);
    m.sqrt(Dot(v))
  }

  /** Degrees to radians. */
  function ToRadians(angle: real): real
  {
    (PI / 180.0) * angle
  }

  /** Radians to degrees. */
  function ToAngle(rad: real): real
  {
    (180.0 / PI) * rad
  }

  /** `impl From<Coord> for NVec`: spherical to Cartesian, longitude in `x`, latitude in `y`. */
  function FromCoord(m: Math, c: Coord): NVec
  {
    var lng, lat := ToRadians(c.x), ToRadians(c.y);
    var cosLat := m.cos(lat);
    NVec(m.cos(lng) * cosLat, m.sin(lng) * cosLat, m.sin(lat))
  }

  /** The squared length of the projection onto the equatorial plane, y*y + x*x. */
  function PlanarDot(v: NVec): real
  {
    v.y * v.y + v.x * v.x
  }

  /** `impl Into<Coord> for NVec`: Cartesian back to degrees of longitude and latitude. */
  function ToCoord(m: Math, v: NVec): Coord
  {
    var lat := m.atan2(v.z, m.sqrt(PlanarDot(v)));
    var lng := m.atan2(v.y, v.x);
    Coord(ToAngle(lng), ToAngle(lat))
  }

  /** Addition is commutative. */
  lemma AddCommutative(a: NVec, b: NVec)
    ensures Add(a, b) == Add(b, a)
  {
  }

  /** Addition is associative. */
  lemma AddAssociative(a: NVec, b: NVec, c: NVec)
    ensures Add(Add(a, b), c) == Add(a, Add(b, c))
  {
  }

  /** `k * v` and `v * k` are the same vector. */
  lemma ScaleLeftIsScale(k: real, v: NVec)
    ensures ScaleLeft(k, v) == Scale(v, k)
  {
  }

  /** Scaling twice is scaling by the product, and scaling by 1 is the identity. */
  lemma ScaleComposes(v: NVec, a: real, b: real)
    ensures Scale(Scale(v, a), b) == Scale(v, a * b)
    ensures Scale(v, 1.0) == v
  {
  }

  /** Scaling distributes over addition. */
  lemma ScaleDistributes(a: NVec, b: NVec, k: real)
    ensures Scale(Add(a, b), k) == Add(Scale(a, k), Scale(b, k))
  {
  }

  /** Scaling by k multiplies the squared length by k*k. */
  lemma DotOfScale(v: NVec, k: real)
    ensures Dot(Scale(v, k)) == k * k * Dot(v)
  {
  }

  /** Converting degrees to radians and back gives the angle back, and the other way round. */
  lemma AngleRoundTrip(angle: real, rad: real)
    ensures ToAngle(ToRadians(angle)) == angle
    ensures ToRadians(ToAngle(rad)) == rad
  {
  }

  /** Every n-vector built from a coordinate lies on the unit sphere. */
  lemma {:induction false} FromCoordIsUnit(m: Math, c: Coord)
    requires PythagoreanIdentity(m)
    ensures Dot(FromCoord(m, c)) == 1.0
  {
    var lng, lat := ToRadians(c.x), ToRadians(c.y);
    var cl, sl := m.cos(lat), m.sin(lat);
    var co, so := m.cos(lng), m.sin(lng);
    var v := FromCoord(m, c);
    assert v == NVec(co * cl, so * cl, sl);
    assert co * co + so * so == 1.0 && cl * cl + sl * sl == 1.0;
    calc {
      Dot(v);
      (co * cl) * (co * cl) + (so * cl) * (so * cl) + sl * sl;
      (co * co + so * so) * (cl * cl) + sl * sl;
      cl * cl + sl * sl;
    }
  }

  /** `Into<Coord>` depends only on the direction of the vector: positive scaling changes nothing. */
  lemma {:induction false} ToCoordScaleInvariant(m: Math, v: NVec, k: real)
    requires SqrtLaws(m) && Atan2ScaleInvariant(m) && 0.0 < k
    ensures ToCoord(m, Scale(v, k)) == ToCoord(m, v)
  {
    var w := Scale(v, k);
    var s := PlanarDot(v);
    assert PlanarDot(w) == k * k * s;
    SqrtOfScaledSquare(m, k, s);
    var h := m.sqrt(s);
    assert m.sqrt(PlanarDot(w)) == Times(k, h);
    assert w.z == Times(k, v.z) && w.y == Times(k, v.y) && w.x == Times(k, v.x);
    assert m.atan2(Times(k, v.z), Times(k, h)) == m.atan2(v.z, h);
    assert m.atan2(Times(k, v.y), Times(k, v.x)) == m.atan2(v.y, v.x);
  }
}
