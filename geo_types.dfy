/**
 * The value types of the `geo_types` crate that the core passes around, and the `geo` crate's
 * algorithms (bounding box, triangulation, areas, intersections) as functions handed in by the caller.
 */
module GeoTypes {
  import opened Wrappers

  /** A geographic coordinate: `x` is the longitude and `y` the latitude, both in degrees. */
  datatype Coord = Coord(x: real, y: real)

  /** A segment from `start` to `end`. */
  datatype Line = Line(start: Coord, end: Coord)

  /** An axis-aligned rectangle given by its lower-left and upper-right corners. */
  datatype Rect = Rect(min: Coord, max: Coord)

  /**
   * `Rect::new(c1, c2)`: the rectangle spanned by two opposite corners, given in any order.
   * The corners are normalised so that `min` is below and to the left of `max`.
   */
  function NewRect(c1: Coord, c2: Coord): (r: Rect)
    ensures r.min.x <= r.max.x && r.min.y <= r.max.y
    ensures {r.min.x, r.max.x} == {c1.x, c2.x} && {r.min.y, r.max.y} == {c1.y, c2.y}
  {
    var (minX, maxX) := if c1.x < c2.x then (c1.x, c2.x) else (c2.x, c1.x);
    var (minY, maxY) := if c1.y < c2.y then (c1.y, c2.y) else (c2.y, c1.y);
    Rect(Coord(minX, minY), Coord(maxX, maxY))
  }

  /** A triangle; `Vertices` is `Triangle::to_array`. */
  datatype Triangle = Triangle(v0: Coord, v1: Coord, v2: Coord)

  function Vertices(t: Triangle): seq<Coord>
  {
    [t.v0, t.v1, t.v2]
  }

  /** A polygon: an exterior ring and any number of interior rings (holes). */
  datatype Polygon = Polygon(exterior: seq<Coord>, interiors: seq<seq<Coord>>)

  /** `geo_types::Geometry`, one constructor per variant. */
  datatype Geometry =
    | GeomPoint(point: Coord)
    | GeomLine(line: Line)
    | GeomLineString(coords: seq<Coord>)
    | GeomPolygon(polygon: Polygon)
    | GeomMultiPoint(points: seq<Coord>)
    | GeomMultiLineString(lines: seq<seq<Coord>>)
    | GeomMultiPolygon(polygons: seq<Polygon>)
    | GeomCollection(geometries: seq<Geometry>)
    | GeomRect(rect: Rect)
    | GeomTriangle(triangle: Triangle)

  /** The error a geometry conversion or a cell-library call reports (`Box<dyn Error>` in the source). */
  datatype GeoError = MismatchedGeometry | LibraryError(message: string)

  /** The `geo` crate's algorithms the core calls, as uninterpreted functions. */
  datatype GeoLib = GeoLib(
    // `BoundingRect::bounding_rect`; `None` for a geometry without coordinates.
    boundingRect: Polygon -> Option<Rect>,
    // `Intersects::intersects` of a rectangle with a polygon.
    intersects: (Rect, Polygon) -> bool,
    // `polygon.intersection(&rect.to_polygon()).unsigned_area()`.
    intersectionArea: (Polygon, Rect) -> real,
    // `Area::unsigned_area` of a rectangle.
    rectArea: Rect -> real,
    // `TriangulateEarcut::earcut_triangles_iter`, collected.
    earcut: Polygon -> seq<Triangle>,
    // `Area::unsigned_area` of a triangle.
    triangleArea: Triangle -> real,
    // `BooleanOps::intersection`, its multi-polygon result as a sequence of polygons.
    intersection: (Polygon, Polygon) -> seq<Polygon>,
    // `Polygon::try_from(Geometry)`.
    tryPolygon: Geometry -> Result<Polygon, GeoError>)

  /**
   * `Polygon::try_from(Geometry)` of the geo-types crate: it succeeds exactly on a polygon, with
   * that polygon, and fails on every other kind of geometry.
   */
  ghost predicate TryPolygonAcceptsOnlyPolygons(geo: GeoLib)
  {
    forall g :: geo.tryPolygon(g) == (if g.GeomPolygon? then Success(g.polygon) else Failure(MismatchedGeometry))
  }

  /** Unsigned areas are never negative. */
  ghost predicate TriangleAreasNonNegative(geo: GeoLib)
  {
    forall t :: 0.0 <= geo.triangleArea(t)
  }
}
