/**
 * The H3 command's own logic: parsing the covering mode, covering a geometry with H3 cells by
 * structural recursion, and cutting a geometry along the cells of a covering. The H3 library
 * (cell lookup, polygon fill, cell boundaries) is handed in as uninterpreted functions.
 */
module H3Cmd {
  import opened Wrappers
  import opened GeoTypes

  // ---------------------------------------------------------------------------------------------
  // Covering mode
  // ---------------------------------------------------------------------------------------------

  /** The polygon-fill containment modes the command can select. */
  datatype ContainmentMode = ContainsCentroid | ContainsBoundary | IntersectsBoundary

  /** `H3CoveringMode`: a newtype around a containment mode, parsed from the command line. */
  datatype H3CoveringMode = H3CoveringMode(mode: ContainmentMode)

  /** `char::to_ascii_lowercase`: 'A' to 'Z' become 'a' to 'z', every other character is kept. */
  function AsciiLowerChar(c: char): char
  {
    if 'A' <= c <= 'Z' then (c as int + 32) as char else c
  }

  /** `char::to_ascii_uppercase`. */
  function AsciiUpperChar(c: char): char
  {
    if 'a' <= c <= 'z' then (c as int - 32) as char else c
  }

  /** `str::to_ascii_lowercase`. */
  function AsciiLower(s: string): string
  {
    seq(|s|, i requires 0 <= i < |s| => AsciiLowerChar(s[i]))
  }

  /** `str::to_ascii_uppercase`. */
  function AsciiUpper(s: string): string
  {
    seq(|s|, i requires 0 <= i < |s| => AsciiUpperChar(s[i]))
  }

  /** Lower-casing twice is lower-casing once, and lower-casing undoes upper-casing. */
  lemma AsciiLowerLaws(s: string)
    ensures AsciiLower(AsciiLower(s)) == AsciiLower(s)
    ensures AsciiLower(AsciiUpper(s)) == AsciiLower(s)
  {
    assert forall i :: 0 <= i < |s| ==> AsciiLowerChar(AsciiLowerChar(s[i])) == AsciiLowerChar(s[i]);
    assert forall i :: 0 <= i < |s| ==> AsciiLowerChar(AsciiUpperChar(s[i])) == AsciiLowerChar(s[i]);
  }

  /** `H3CoveringMode::from(&str)`: match the lower-cased text; anything unrecognised intersects. */
  function ParseCoveringMode(value: string): (r: H3CoveringMode)
    ensures r.mode == ContainsCentroid <==> AsciiLower(value) == "containscentroid" || AsciiLower(value) == "centroid"
    ensures r.mode == ContainsBoundary <==> AsciiLower(value) == "containsboundary" || AsciiLower(value) == "contains"
  {
    var lowered := AsciiLower(value);
    if lowered == "containscentroid" || lowered == "centroid" then H3CoveringMode(ContainsCentroid)
    else if lowered == "containsboundary" || lowered == "contains" then H3CoveringMode(ContainsBoundary)
    else H3CoveringMode(IntersectsBoundary)
  }

  /** Parsing ignores ASCII case: texts that agree once lower-cased parse alike. */
  lemma ParseIgnoresCase(s: string, t: string)
    ensures AsciiLower(s) == AsciiLower(t) ==> ParseCoveringMode(s) == ParseCoveringMode(t)
    ensures ParseCoveringMode(AsciiUpper(s)) == ParseCoveringMode(s)
    ensures ParseCoveringMode(AsciiLower(s)) == ParseCoveringMode(s)
  {
    AsciiLowerLaws(s);
  }

  /** `Into<ContainmentMode>`: the wrapped mode, unchanged. */
  function IntoContainmentMode(m: H3CoveringMode): (r: ContainmentMode)
    ensures H3CoveringMode(r) == m
  {
    m.mode
  }

  /** `Display`: the `Debug` name of the wrapped mode. */
  function Display(m: H3CoveringMode): (s: string)
    ensures |s| > 0
  {
    match m.mode
    case ContainsCentroid => "ContainsCentroid"
    case ContainsBoundary => "ContainsBoundary"
    case IntersectsBoundary => "IntersectsBoundary"
  }

  /** Displaying a mode and parsing the text gives the mode back, so the command-line default round-trips. */
  lemma DisplayParseRoundTrip(m: H3CoveringMode)
    ensures ParseCoveringMode(Display(m)) == m
  {
    match m.mode
    case ContainsCentroid =>
      assert AsciiLower("ContainsCentroid") == "containscentroid";
    case ContainsBoundary =>
      assert AsciiLower("ContainsBoundary") == "containsboundary";
    case IntersectsBoundary =>
      assert AsciiLower("IntersectsBoundary") == "intersectsboundary";
  }

  /** Every mode is reached, and the short and long spellings agree whatever their case. */
  lemma ParseExamples()
    ensures ParseCoveringMode("Centroid").mode == ContainsCentroid
    ensures ParseCoveringMode("CONTAINS").mode == ContainsBoundary
    ensures ParseCoveringMode("covers").mode == IntersectsBoundary
    ensures ParseCoveringMode("").mode == IntersectsBoundary
  {
    assert AsciiLower("Centroid") == "centroid";
    assert AsciiLower("CONTAINS") == "contains";
    assert AsciiLower("covers") == "covers";
  }

  // ---------------------------------------------------------------------------------------------
  // The H3 library
  // ---------------------------------------------------------------------------------------------

  /** An H3 cell index, a 64-bit value. */
  newtype CellIndex = c: int | 0 <= c < 0x1_0000_0000_0000_0000

  /** An H3 resolution, 0 to 15. */
  newtype Resolution = r: int | 0 <= r <= 15

  /** Why a covering or a cut fails. */
  datatype CmdError =
    | Conversion(error: GeoError)   // `Polygon::try_from` of a geometry that is no polygon
    | H3Failure(message: string)    // an error reported by the H3 library

  /** The H3 library calls the command makes. */
  datatype H3Lib = H3Lib(
    // `LatLng::from_radians(point.y(), point.x())` and `to_cell(resolution)`.
    pointCell: (Coord, Resolution) -> Result<CellIndex, CmdError>,
    // `h3o::geom::Polygon::from_degrees` and `to_cells` with the containment mode.
    polygonCells: (Polygon, Resolution, ContainmentMode) -> Result<seq<CellIndex>, CmdError>,
    // `CellIndex::boundary`, each vertex as (x: longitude, y: latitude).
    boundary: CellIndex -> seq<Coord>)

  // ---------------------------------------------------------------------------------------------
  // Collecting results
  // ---------------------------------------------------------------------------------------------

  /** The concatenation of a sequence of sequences, in order. */
  function Concat<T>(ss: seq<seq<T>>): seq<T>
  {
    if ss == [] then [] else ss[0] + Concat(ss[1..])
  }

  lemma {:induction false} ConcatAppend<T>(a: seq<seq<T>>, b: seq<seq<T>>)
    ensures Concat(a + b) == Concat(a) + Concat(b)
  {
    if a == [] {
      assert a + b == b;
    } else {
      assert (a + b)[0] == a[0];
      assert (a + b)[1..] == a[1..] + b;
      ConcatAppend(a[1..], b);
      assert a[0] + (Concat(a[1..]) + Concat(b)) == (a[0] + Concat(a[1..])) + Concat(b);
    }
  }

  /**
   * `flatten_ok` followed by `collect::<Result<Vec<_>, _>>()`: the concatenation of the
   * successful parts, or the first error.
   */
  function FlattenOk<T, E>(rs: seq<Result<seq<T>, E>>): Result<seq<T>, E>
  {
    if rs == [] then Success([])
    else match rs[0]
      case Failure(e) => Failure(e)
      case Success(xs) =>
        match FlattenOk(rs[1..])
        case Failure(e) => Failure(e)
        case Success(ys) => Success(xs + ys)
  }

  /** `collect::<Result<Vec<_>, _>>()`: every value in order, or the first error. */
  function CollectOk<T, E>(rs: seq<Result<T, E>>): Result<seq<T>, E>
  {
    if rs == [] then Success([])
    else match rs[0]
      case Failure(e) => Failure(e)
      case Success(x) =>
        match CollectOk(rs[1..])
        case Failure(e) => Failure(e)
        case Success(ys) => Success([x] + ys)
  }

  /**
   * Flattening succeeds exactly when every part succeeds, and then yields the parts' values
   * concatenated in order; otherwise it fails with the error of the first failing part.
   */
  lemma {:induction false} FlattenOkSpec<T, E>(rs: seq<Result<seq<T>, E>>)
    ensures FlattenOk(rs).Success? <==> forall i :: 0 <= i < |rs| ==> rs[i].Success?
    ensures FlattenOk(rs).Success? ==> FlattenOk(rs).value == Concat(seq(|rs|, i requires 0 <= i < |rs| => rs[i].value))
    ensures FlattenOk(rs).Failure? ==>
      exists k :: 0 <= k < |rs| && rs[k] == Failure(FlattenOk(rs).error) && forall i :: 0 <= i < k ==> rs[i].Success?
  {
    if rs != [] {
      FlattenOkSpec(rs[1..]);
      if rs[0].Success? && FlattenOk(rs[1..]).Success? {
        var vs := seq(|rs|, i requires 0 <= i < |rs| => rs[i].value);
        assert vs[1..] == seq(|rs[1..]|, i requires 0 <= i < |rs[1..]| => rs[1..][i].value);
      }
      if rs[0].Success? && FlattenOk(rs[1..]).Failure? {
        var k :| 0 <= k < |rs[1..]| && rs[1..][k] == Failure(FlattenOk(rs[1..]).error)
                 && forall i :: 0 <= i < k ==> rs[1..][i].Success?;
        assert rs[k + 1] == Failure(FlattenOk(rs).error);
        assert forall i :: 0 <= i < k + 1 ==> rs[i].Success? by {
          forall i | 0 <= i < k + 1
            ensures rs[i].Success?
          {
            if i > 0 {
              assert rs[i] == rs[1..][i - 1];
            }
          }
        }
      }
      if rs[0].Failure? {
        assert rs[0] == Failure(FlattenOk(rs).error);
      }
    }
  }

  /** Flattening a concatenation: the first part's error wins, else the values are concatenated. */
  lemma {:induction false} FlattenOkAppend<T, E>(a: seq<Result<seq<T>, E>>, b: seq<Result<seq<T>, E>>)
    ensures FlattenOk(a + b) ==
      match FlattenOk(a)
      case Failure(e) => Failure(e)
      case Success(xs) =>
        match FlattenOk(b)
        case Failure(e) => Failure(e)
        case Success(ys) => Success(xs + ys)
  {
    if a == [] {
      assert a + b == b;
      if FlattenOk(b).Success? {
        assert [] + FlattenOk(b).value == FlattenOk(b).value;
      }
    } else {
      assert (a + b)[0] == a[0];
      assert (a + b)[1..] == a[1..] + b;
      FlattenOkAppend(a[1..], b);
      if a[0].Success? && FlattenOk(a[1..]).Success? && FlattenOk(b).Success? {
        assert a[0].value + (FlattenOk(a[1..]).value + FlattenOk(b).value)
            == (a[0].value + FlattenOk(a[1..]).value) + FlattenOk(b).value;
      }
    }
  }

  /** A single result as a one-element sequence result. */
  function Single<T, E>(r: Result<T, E>): Result<seq<T>, E>
  {
    match r
    case Success(x) => Success([x])
    case Failure(e) => Failure(e)
  }

  /** Collecting single values is flattening their singletons. */
  lemma {:induction false} CollectOkIsFlattenOk<T, E>(rs: seq<Result<T, E>>)
    ensures CollectOk(rs) == FlattenOk(seq(|rs|, i requires 0 <= i < |rs| => Single(rs[i])))
  {
    if rs != [] {
      CollectOkIsFlattenOk(rs[1..]);
      var ss := seq(|rs|, i requires 0 <= i < |rs| => Single(rs[i]));
      var tail := seq(|rs[1..]|, i requires 0 <= i < |rs[1..]| => Single(rs[1..][i]));
      assert ss[1..] == tail;
    }
  }

  /** On success, collecting keeps one value per input, in order. */
  lemma {:induction false} CollectOkSpec<T, E>(rs: seq<Result<T, E>>)
    ensures CollectOk(rs).Success? <==> forall i :: 0 <= i < |rs| ==> rs[i].Success?
    ensures CollectOk(rs).Success? ==>
      |CollectOk(rs).value| == |rs| && forall i :: 0 <= i < |rs| ==> CollectOk(rs).value[i] == rs[i].value
  {
    if rs != [] {
      CollectOkSpec(rs[1..]);
      if !rs[0].Success? {
        assert !(forall i :: 0 <= i < |rs| ==> rs[i].Success?);
      } else if CollectOk(rs[1..]).Success? {
        forall i | 0 <= i < |rs|
          ensures CollectOk(rs).value[i] == rs[i].value
        {
          if i > 0 {
            assert rs[i] == rs[1..][i - 1];
          }
        }
      } else {
        var k :| 0 <= k < |rs[1..]| && !rs[1..][k].Success?;
        assert !rs[k + 1].Success?;
      }
    }
  }

  // ---------------------------------------------------------------------------------------------
  // Covering
  // ---------------------------------------------------------------------------------------------

  /** `get_h3_polygon_covering` of a geometry that is not a point, multi-point, polygon or collection. */
  function ConvertedCovering(h3: H3Lib, geo: GeoLib, g: Geometry, resolution: Resolution, mode: ContainmentMode)
    : Result<seq<CellIndex>, CmdError>
  {
    match geo.tryPolygon(g)
    case Failure(e) => Failure(Conversion(e))
    case Success(poly) => h3.polygonCells(poly, resolution, mode)
  }

  /** `get_h3_covering`: dispatch on the kind of geometry, recursing into collections. */
  function Covering(h3: H3Lib, geo: GeoLib, g: Geometry, resolution: Resolution, mode: ContainmentMode)
    : Result<seq<CellIndex>, CmdError>
    decreases g
  {
    match g
    case GeomPoint(p) =>
      (match h3.pointCell(p, resolution)
       case Success(c) => Success([c])
       case Failure(e) => Failure(e))
    case GeomMultiPoint(points) =>
      CollectOk(seq(|points|, i requires 0 <= i < |points| => h3.pointCell(points[i], resolution)))
    case GeomPolygon(poly) => h3.polygonCells(poly, resolution, mode)
    case GeomMultiPolygon(polys) =>
      FlattenOk(seq(|polys|, i requires 0 <= i < |polys| => h3.polygonCells(polys[i], resolution, mode)))
    case GeomCollection(gs) =>
      FlattenOk(seq(|gs|, i requires 0 <= i < |gs| => Covering(h3, geo, gs[i], resolution, mode)))
    case _ => ConvertedCovering(h3, geo, g, resolution, mode)
  }

  /** A point is covered by exactly its own cell, or the lookup's error. */
  lemma PointCovering(h3: H3Lib, geo: GeoLib, p: Coord, resolution: Resolution, mode: ContainmentMode)
    ensures Covering(h3, geo, GeomPoint(p), resolution, mode).Success? <==> h3.pointCell(p, resolution).Success?
    ensures Covering(h3, geo, GeomPoint(p), resolution, mode).Success? ==>
      Covering(h3, geo, GeomPoint(p), resolution, mode).value == [h3.pointCell(p, resolution).value]
  {
  }

  /** A multi-point gives one cell per point, in order, or fails when any point's lookup fails. */
  lemma MultiPointCovering(h3: H3Lib, geo: GeoLib, points: seq<Coord>, resolution: Resolution, mode: ContainmentMode)
    ensures var r := Covering(h3, geo, GeomMultiPoint(points), resolution, mode);
      && (r.Success? <==> forall i :: 0 <= i < |points| ==> h3.pointCell(points[i], resolution).Success?)
      && (r.Success? ==> |r.value| == |points|)
      && (r.Success? ==> forall i :: 0 <= i < |points| ==> r.value[i] == h3.pointCell(points[i], resolution).value)
  {
    var rs := seq(|points|, i requires 0 <= i < |points| => h3.pointCell(points[i], resolution));
    assert Covering(h3, geo, GeomMultiPoint(points), resolution, mode) == CollectOk(rs);
    assert forall i :: 0 <= i < |points| ==> rs[i] == h3.pointCell(points[i], resolution);
    CollectOkSpec(rs);
  }

  /** A multi-point is covered as the collection of its points. */
  lemma MultiPointAsCollection(h3: H3Lib, geo: GeoLib, points: seq<Coord>, resolution: Resolution, mode: ContainmentMode)
    ensures Covering(h3, geo, GeomMultiPoint(points), resolution, mode)
         == Covering(h3, geo, GeomCollection(seq(|points|, i requires 0 <= i < |points| => GeomPoint(points[i]))), resolution, mode)
  {
    var rs := seq(|points|, i requires 0 <= i < |points| => h3.pointCell(points[i], resolution));
    var gs := seq(|points|, i requires 0 <= i < |points| => GeomPoint(points[i]));
    var singles := seq(|rs|, i requires 0 <= i < |rs| => Single(rs[i]));
    var parts := seq(|gs|, i requires 0 <= i < |gs| => Covering(h3, geo, gs[i], resolution, mode));
    forall i | 0 <= i < |points|
      ensures singles[i] == parts[i]
    {
      assert gs[i] == GeomPoint(points[i]);
      assert rs[i] == h3.pointCell(points[i], resolution);
    }
    assert singles == parts;
    CollectOkIsFlattenOk(rs);
    calc {
      Covering(h3, geo, GeomMultiPoint(points), resolution, mode);
      CollectOk(rs);
      FlattenOk(singles);
      FlattenOk(parts);
      Covering(h3, geo, GeomCollection(gs), resolution, mode);
    }
  }

  /** Any other geometry is converted to a polygon first: a failed conversion is the covering's error. */
  lemma OtherGeometryCovering(h3: H3Lib, geo: GeoLib, g: Geometry, resolution: Resolution, mode: ContainmentMode)
    requires !(g.GeomPoint? || g.GeomMultiPoint? || g.GeomPolygon? || g.GeomMultiPolygon? || g.GeomCollection?)
    ensures geo.tryPolygon(g).Failure? ==>
      Covering(h3, geo, g, resolution, mode) == Failure(Conversion(geo.tryPolygon(g).error))
    ensures geo.tryPolygon(g).Success? ==>
      Covering(h3, geo, g, resolution, mode) == Covering(h3, geo, GeomPolygon(geo.tryPolygon(g).value), resolution, mode)
  {
  }

  /**
   * When the conversion accepts only polygons, as `Polygon::try_from(Geometry)` of the geo-types
   * crate does, every other kind of geometry fails to be covered with the conversion's error.
   */
  lemma OtherGeometryCoveringFails(h3: H3Lib, geo: GeoLib, g: Geometry, resolution: Resolution, mode: ContainmentMode)
    requires TryPolygonAcceptsOnlyPolygons(geo)
    requires !(g.GeomPoint? || g.GeomMultiPoint? || g.GeomPolygon? || g.GeomMultiPolygon? || g.GeomCollection?)
    ensures Covering(h3, geo, g, resolution, mode).Failure?
    ensures Covering(h3, geo, g, resolution, mode) == Failure(Conversion(geo.tryPolygon(g).error))
  {
    OtherGeometryCovering(h3, geo, g, resolution, mode);
  }

  /** A multi-polygon is covered as the collection of its polygons. */
  lemma MultiPolygonAsCollection(h3: H3Lib, geo: GeoLib, polys: seq<Polygon>, resolution: Resolution, mode: ContainmentMode)
    ensures Covering(h3, geo, GeomMultiPolygon(polys), resolution, mode)
         == Covering(h3, geo, GeomCollection(seq(|polys|, i requires 0 <= i < |polys| => GeomPolygon(polys[i]))), resolution, mode)
  {
    var gs := seq(|polys|, i requires 0 <= i < |polys| => GeomPolygon(polys[i]));
    assert seq(|polys|, i requires 0 <= i < |polys| => h3.polygonCells(polys[i], resolution, mode))
        == seq(|gs|, i requires 0 <= i < |gs| => Covering(h3, geo, gs[i], resolution, mode));
  }

  /**
   * Covering a collection: its parts' cells concatenated in order when every part succeeds,
   * otherwise the error of the first part that fails.
   */
  lemma CollectionCovering(h3: H3Lib, geo: GeoLib, gs: seq<Geometry>, resolution: Resolution, mode: ContainmentMode)
    ensures var r := Covering(h3, geo, GeomCollection(gs), resolution, mode);
      && (r.Success? <==> forall i :: 0 <= i < |gs| ==> Covering(h3, geo, gs[i], resolution, mode).Success?)
      && (r.Success? ==> r.value == Concat(seq(|gs|, i requires 0 <= i < |gs| => Covering(h3, geo, gs[i], resolution, mode).value)))
      && (r.Failure? ==> exists k :: 0 <= k < |gs| && Covering(h3, geo, gs[k], resolution, mode) == Failure(r.error)
                                     && forall i :: 0 <= i < k ==> Covering(h3, geo, gs[i], resolution, mode).Success?)
  {
    var rs := seq(|gs|, i requires 0 <= i < |gs| => Covering(h3, geo, gs[i], resolution, mode));
    assert Covering(h3, geo, GeomCollection(gs), resolution, mode) == FlattenOk(rs);
    assert forall i :: 0 <= i < |gs| ==> rs[i] == Covering(h3, geo, gs[i], resolution, mode);
    FlattenOkSpec(rs);
    if FlattenOk(rs).Success? {
      assert seq(|rs|, i requires 0 <= i < |rs| => rs[i].value)
          == seq(|gs|, i requires 0 <= i < |gs| => Covering(h3, geo, gs[i], resolution, mode).value);
    }
  }

  /** Covering the concatenation of two collections is covering each and concatenating, first error first. */
  lemma CollectionAppend(h3: H3Lib, geo: GeoLib, a: seq<Geometry>, b: seq<Geometry>, resolution: Resolution, mode: ContainmentMode)
    ensures Covering(h3, geo, GeomCollection(a + b), resolution, mode) ==
      match Covering(h3, geo, GeomCollection(a), resolution, mode)
      case Failure(e) => Failure(e)
      case Success(xs) =>
        match Covering(h3, geo, GeomCollection(b), resolution, mode)
        case Failure(e) => Failure(e)
        case Success(ys) => Success(xs + ys)
  {
    var ra := seq(|a|, i requires 0 <= i < |a| => Covering(h3, geo, a[i], resolution, mode));
    var rb := seq(|b|, i requires 0 <= i < |b| => Covering(h3, geo, b[i], resolution, mode));
    assert seq(|a + b|, i requires 0 <= i < |a + b| => Covering(h3, geo, (a + b)[i], resolution, mode)) == ra + rb;
    FlattenOkAppend(ra, rb);
  }

  /** A collection of one geometry is covered as that geometry. */
  lemma CollectionSingleton(h3: H3Lib, geo: GeoLib, g: Geometry, resolution: Resolution, mode: ContainmentMode)
    ensures Covering(h3, geo, GeomCollection([g]), resolution, mode) == Covering(h3, geo, g, resolution, mode)
  {
    var r := Covering(h3, geo, g, resolution, mode);
    var rs := seq(1, i requires 0 <= i < 1 => Covering(h3, geo, [g][i], resolution, mode));
    assert rs == [r];
    assert FlattenOk(rs[1..]) == Success([]);
    if r.Success? {
      assert r.value + [] == r.value;
    }
  }

  // ---------------------------------------------------------------------------------------------
  // Cutting
  // ---------------------------------------------------------------------------------------------

  /** `LineString::close`: append the first vertex when the ring does not already end with it. */
  function CloseRing(ring: seq<Coord>): (r: seq<Coord>)
    ensures |r| > 0 ==> r[0] == r[|r| - 1]
    ensures |ring| <= |r| <= |ring| + 1 && r[..|ring|] == ring
  {
    if ring == [] || ring[0] == ring[|ring| - 1] then ring else ring + [ring[0]]
  }

  /** Closing a closed ring changes nothing. */
  lemma CloseRingIdempotent(ring: seq<Coord>)
    ensures CloseRing(CloseRing(ring)) == CloseRing(ring)
  {
  }

  /** `h3_cell_to_poly`: the polygon whose exterior ring is the cell's boundary, closed, and no holes. */
  function CellToPoly(h3: H3Lib, cell: CellIndex): (p: Polygon)
    ensures p.interiors == [] && |h3.boundary(cell)| <= |p.exterior| && p.exterior[..|h3.boundary(cell)|] == h3.boundary(cell)
  {
    Polygon(CloseRing(h3.boundary(cell)), [])
  }

  /** The cells' polygons, in the order of the cells. */
  function Partitions(h3: H3Lib, cells: seq<CellIndex>): (ps: seq<Polygon>)
    ensures |ps| == |cells|
    ensures forall i :: 0 <= i < |cells| ==> ps[i] == CellToPoly(h3, cells[i])
  {
    seq(|cells|, i requires 0 <= i < |cells| => CellToPoly(h3, cells[i]))
  }

  /** The pieces of one polygon: its intersection with each partition, in partition order. */
  function Pieces(geo: GeoLib, partitions: seq<Polygon>, poly: Polygon): seq<Polygon>
  {
    Concat(seq(|partitions|, i requires 0 <= i < |partitions| => geo.intersection(partitions[i], poly)))
  }

  /** The pieces of a multi-polygon: polygons in the outer loop, partitions in the inner loop. */
  function MultiPieces(geo: GeoLib, partitions: seq<Polygon>, polys: seq<Polygon>): seq<Polygon>
  {
    Concat(seq(|polys|, j requires 0 <= j < |polys| => Pieces(geo, partitions, polys[j])))
  }

  /** `cut_geometry`: intersect the geometry with each cell's polygon, recursing into collections. */
  function CutGeometry(h3: H3Lib, geo: GeoLib, g: Geometry, cells: seq<CellIndex>): Result<seq<Polygon>, CmdError>
    decreases g
  {
    var partitions := Partitions(h3, cells);
    match g
    case GeomPolygon(poly) => Success(Pieces(geo, partitions, poly))
    case GeomMultiPolygon(polys) => Success(MultiPieces(geo, partitions, polys))
    case GeomCollection(gs) =>
      FlattenOk(seq(|gs|, i requires 0 <= i < |gs| => CutGeometry(h3, geo, gs[i], cells)))
    case _ =>
      (match geo.tryPolygon(g)
       case Failure(e) => Failure(Conversion(e))
       case Success(poly) => Success(Pieces(geo, partitions, poly)))
  }

  /** Splitting the partitions splits the pieces: they come out in partition (cell) order. */
  lemma PiecesInCellOrder(geo: GeoLib, a: seq<Polygon>, b: seq<Polygon>, poly: Polygon)
    ensures Pieces(geo, a + b, poly) == Pieces(geo, a, poly) + Pieces(geo, b, poly)
  {
    var sa := seq(|a|, i requires 0 <= i < |a| => geo.intersection(a[i], poly));
    var sb := seq(|b|, i requires 0 <= i < |b| => geo.intersection(b[i], poly));
    assert seq(|a + b|, i requires 0 <= i < |a + b| => geo.intersection((a + b)[i], poly)) == sa + sb;
    ConcatAppend(sa, sb);
  }

  /** One cell contributes the pieces of the polygon inside that cell's polygon. */
  lemma PiecesOfOneCell(h3: H3Lib, geo: GeoLib, cell: CellIndex, poly: Polygon)
    ensures Pieces(geo, Partitions(h3, [cell]), poly) == geo.intersection(CellToPoly(h3, cell), poly)
  {
    var s := seq(1, i requires 0 <= i < 1 => geo.intersection(Partitions(h3, [cell])[i], poly));
    assert Partitions(h3, [cell])[0] == CellToPoly(h3, cell);
    assert s == [geo.intersection(CellToPoly(h3, cell), poly)];
    assert Concat(s) == s[0] + Concat(s[1..]);
    assert s[0] + [] == s[0];
  }

  /** Cutting a multi-polygon handles its polygons one after another, in order. */
  lemma MultiPolygonCutOrder(h3: H3Lib, geo: GeoLib, ps: seq<Polygon>, qs: seq<Polygon>, cells: seq<CellIndex>)
    ensures CutGeometry(h3, geo, GeomMultiPolygon(ps + qs), cells).Success?
    ensures CutGeometry(h3, geo, GeomMultiPolygon(ps + qs), cells).value
         == CutGeometry(h3, geo, GeomMultiPolygon(ps), cells).value + CutGeometry(h3, geo, GeomMultiPolygon(qs), cells).value
  {
    var partitions := Partitions(h3, cells);
    var sp := seq(|ps|, j requires 0 <= j < |ps| => Pieces(geo, partitions, ps[j]));
    var sq := seq(|qs|, j requires 0 <= j < |qs| => Pieces(geo, partitions, qs[j]));
    assert seq(|ps + qs|, j requires 0 <= j < |ps + qs| => Pieces(geo, partitions, (ps + qs)[j])) == sp + sq;
    ConcatAppend(sp, sq);
  }

  /** A multi-polygon of one polygon is cut as that polygon. */
  lemma MultiPolygonOfOne(h3: H3Lib, geo: GeoLib, p: Polygon, cells: seq<CellIndex>)
    ensures CutGeometry(h3, geo, GeomMultiPolygon([p]), cells) == CutGeometry(h3, geo, GeomPolygon(p), cells)
  {
    var partitions := Partitions(h3, cells);
    var s := seq(1, j requires 0 <= j < 1 => Pieces(geo, partitions, [p][j]));
    assert s == [Pieces(geo, partitions, p)];
    assert Concat(s) == s[0] + Concat(s[1..]);
    assert s[0] + [] == s[0];
  }

  /** Any other geometry is cut as the polygon it converts to, or fails with the conversion's error. */
  lemma OtherGeometryCut(h3: H3Lib, geo: GeoLib, g: Geometry, cells: seq<CellIndex>)
    requires !(g.GeomPolygon? || g.GeomMultiPolygon? || g.GeomCollection?)
    ensures geo.tryPolygon(g).Failure? ==> CutGeometry(h3, geo, g, cells) == Failure(Conversion(geo.tryPolygon(g).error))
    ensures geo.tryPolygon(g).Success? ==>
      CutGeometry(h3, geo, g, cells) == CutGeometry(h3, geo, GeomPolygon(geo.tryPolygon(g).value), cells)
  {
  }

  /**
   * When the conversion accepts only polygons, cutting a point, line, multi-point or any other
   * geometry that is not a polygon, multi-polygon or collection fails with the conversion's error.
   */
  lemma OtherGeometryCutFails(h3: H3Lib, geo: GeoLib, g: Geometry, cells: seq<CellIndex>)
    requires TryPolygonAcceptsOnlyPolygons(geo)
    requires !(g.GeomPolygon? || g.GeomMultiPolygon? || g.GeomCollection?)
    ensures CutGeometry(h3, geo, g, cells).Failure?
    ensures CutGeometry(h3, geo, g, cells) == Failure(Conversion(geo.tryPolygon(g).error))
  {
    OtherGeometryCut(h3, geo, g, cells);
  }

  /**
   * Cutting a collection: its parts' pieces concatenated in order when every part's cut succeeds,
   * otherwise the error of the first part whose cut fails.
   */
  lemma CollectionCut(h3: H3Lib, geo: GeoLib, gs: seq<Geometry>, cells: seq<CellIndex>)
    ensures var r := CutGeometry(h3, geo, GeomCollection(gs), cells);
      && (r.Success? <==> forall i :: 0 <= i < |gs| ==> CutGeometry(h3, geo, gs[i], cells).Success?)
      && (r.Success? ==> r.value == Concat(seq(|gs|, i requires 0 <= i < |gs| => CutGeometry(h3, geo, gs[i], cells).value)))
      && (r.Failure? ==> exists k :: 0 <= k < |gs| && CutGeometry(h3, geo, gs[k], cells) == Failure(r.error)
                                     && forall i :: 0 <= i < k ==> CutGeometry(h3, geo, gs[i], cells).Success?)
  {
    var rs := seq(|gs|, i requires 0 <= i < |gs| => CutGeometry(h3, geo, gs[i], cells));
    assert CutGeometry(h3, geo, GeomCollection(gs), cells) == FlattenOk(rs);
    assert forall i :: 0 <= i < |gs| ==> rs[i] == CutGeometry(h3, geo, gs[i], cells);
    FlattenOkSpec(rs);
    if FlattenOk(rs).Success? {
      assert seq(|rs|, i requires 0 <= i < |rs| => rs[i].value)
          == seq(|gs|, i requires 0 <= i < |gs| => CutGeometry(h3, geo, gs[i], cells).value);
    }
  }
}
