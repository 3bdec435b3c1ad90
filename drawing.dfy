/** Point capture and shape materialisation of the map drawing control
    (src/components/DrawControl.tsx). The control keeps the active mode and the
    captured points; each map event is a method. What a finished shape leads to
    (an error message, a created feature, nothing) is returned as an `Emit`
    value, so at most one callback happens per event. */
module Drawing {
  import opened Types
  import opened GeoUtils

  const OverlapMessage := "Shape completely overlaps existing shape."
  /** The step count of the circle approximation. */
  const CircleSteps: nat := 64

  /** What the control cannot compute itself: the geometry backend, the two
      generated identifiers, the clock, the great-circle distance in metres and
      the circle approximation (center, radius in kilometres, steps). */
  datatype Env = Env(
    geo: Backend,
    featureId: string,
    propertiesId: string,
    now: int,
    distance: (LatLng, LatLng) -> real,
    circle: (Position, real, nat) -> Geometry)

  /** The callback a finished shape leads to: none, `onError(message)`,
      `onFeatureCreated(feature)`, or an exception escaping the handler. */
  datatype Emit = Quiet | ErrorRaised(message: string) | FeatureCreated(feature: DrawnFeature) | Escaped

  /** `[lng, lat]` of each point, in click order. */
  function Positions(points: seq<LatLng>): (ps: seq<Position>)
    ensures |ps| == |points|
    ensures forall i :: 0 <= i < |points| ==> ps[i] == Position(points[i].lng, points[i].lat)
  {
    seq(|points|, i requires 0 <= i < |points| => Position(points[i].lng, points[i].lat))
  }

  /** The polygon ring: the positions, with the first appended when it differs
      from the last in either coordinate. */
  function ClosedRing(ps: seq<Position>): (ring: seq<Position>)
    requires |ps| >= 1
    ensures |ring| == (if ps[0] == ps[|ps| - 1] then |ps| else |ps| + 1)
    ensures ring[0] == ring[|ring| - 1]
    ensures ring[..|ps|] == ps
    ensures ps[0] == ps[|ps| - 1] ==> ring == ps
  {
    if ps[0].lng != ps[|ps| - 1].lng || ps[0].lat != ps[|ps| - 1].lat then ps + [ps[0]] else ps
  }

  lemma ClosedRingIdempotent(ps: seq<Position>)
    requires |ps| >= 1
    ensures ClosedRing(ClosedRing(ps)) == ClosedRing(ps)
  {
  }

  /** `[west, south, east, north]`. */
  datatype BBox = BBox(west: real, south: real, east: real, north: real)

  function Min(a: real, b: real): real { if a <= b then a else b }
  function Max(a: real, b: real): real { if a <= b then b else a }

  /** The bounds spanned by two corners: the smallest box holding both. */
  function Bounds(a: LatLng, b: LatLng): (bb: BBox)
    ensures bb.west <= bb.east && bb.south <= bb.north
    ensures bb.west <= a.lng <= bb.east && bb.west <= b.lng <= bb.east
    ensures bb.south <= a.lat <= bb.north && bb.south <= b.lat <= bb.north
    ensures (bb.west == a.lng || bb.west == b.lng) && (bb.east == a.lng || bb.east == b.lng)
    ensures (bb.south == a.lat || bb.south == b.lat) && (bb.north == a.lat || bb.north == b.lat)
  {
    BBox(Min(a.lng, b.lng), Min(a.lat, b.lat), Max(a.lng, b.lng), Max(a.lat, b.lat))
  }

  /** The box polygon of the geometry library's `bboxPolygon`: lower left, lower
      right, upper right, upper left, lower left. */
  function BBoxPolygon(bb: BBox): Geometry
  {
    var lowLeft := Position(bb.west, bb.south);
    PolygonGeometry([[lowLeft, Position(bb.east, bb.south), Position(bb.east, bb.north), Position(bb.west, bb.north), lowLeft]])
  }

  /** A rectangle is one closed ring of five positions whose four vertices are the
      corners of the box, pairwise distinct when the two clicks differ in both
      coordinates. */
  lemma RectangleRing(a: LatLng, b: LatLng)
    ensures var g := BBoxPolygon(Bounds(a, b));
      && g.PolygonGeometry? && |g.rings| == 1 && |g.rings[0]| == 5 && g.rings[0][0] == g.rings[0][4]
      && (forall i :: 0 <= i < 4 ==> g.rings[0][i].lng in {a.lng, b.lng} && g.rings[0][i].lat in {a.lat, b.lat})
      && (a.lng != b.lng && a.lat != b.lat ==> forall i, j :: 0 <= i < j < 4 ==> g.rings[0][i] != g.rings[0][j])
  {
  }

  /** The minimum number of captured points `finishShape` needs for a kind
      without failing: the circle and the rectangle read two points, the polygon
      reads the first and the last. */
  predicate Materializable(kind: ShapeType, points: seq<LatLng>) {
    match kind
    case Circle => |points| >= 2
    case Rectangle => |points| >= 2
    case Polygon => |points| >= 1
    case LineString => true
  }

  /** The geometry of each kind, before validation. */
  function ShapeGeometry(kind: ShapeType, points: seq<LatLng>, env: Env): (g: Geometry)
    requires Materializable(kind, points)
    ensures kind == Circle
        ==> g == env.circle(Position(points[0].lng, points[0].lat), env.distance(points[0], points[1]) / 1000.0, CircleSteps)
    ensures kind == Rectangle
        ==> && g.PolygonGeometry? && |g.rings| == 1 && |g.rings[0]| == 5 && g.rings[0][0] == g.rings[0][4]
            && g.rings[0][0] == Position(Min(points[0].lng, points[1].lng), Min(points[0].lat, points[1].lat))
            && g.rings[0][2] == Position(Max(points[0].lng, points[1].lng), Max(points[0].lat, points[1].lat))
    ensures kind == Polygon
        ==> && g.PolygonGeometry? && |g.rings| == 1 && |g.rings[0]| >= |points|
            && g.rings[0][0] == g.rings[0][|g.rings[0]| - 1] && g.rings[0][..|points|] == Positions(points)
    ensures kind == LineString ==> g.LineStringGeometry? && g.coordinates == Positions(points)
    ensures kind == Rectangle || kind == Polygon ==> IsPolygonal(g)
  {
    match kind
    case Circle =>
      env.circle(Position(points[0].lng, points[0].lat), env.distance(points[0], points[1]) / 1000.0, CircleSteps)
    case Rectangle => BBoxPolygon(Bounds(points[0], points[1]))
    case Polygon => PolygonGeometry([ClosedRing(Positions(points))])
    case LineString => LineStringGeometry(Positions(points))
  }

  /** The `radius` property: present only for a circle with a truthy radius. */
  function RadiusProperty(kind: ShapeType, points: seq<LatLng>, env: Env): (r: Option<real>)
    requires Materializable(kind, points)
    ensures r.Some? <==> kind == Circle && env.distance(points[0], points[1]) != 0.0
    ensures r.Some? ==> r.value == env.distance(points[0], points[1])
  {
    if kind == Circle && env.distance(points[0], points[1]) != 0.0 then Some(env.distance(points[0], points[1])) else None
  }

  /** The feature built before validation. */
  function Candidate(kind: ShapeType, points: seq<LatLng>, env: Env): (f: DrawnFeature)
    requires Materializable(kind, points)
    ensures f.id == env.featureId && f.properties.id == env.propertiesId
    ensures KindOf(f) == kind && f.properties.createdAt == env.now
    ensures f.properties.radius.Some? <==> kind == Circle && env.distance(points[0], points[1]) != 0.0
    ensures f.geometry == ShapeGeometry(kind, points, env)
  {
    DrawnFeature(env.featureId, ShapeGeometry(kind, points, env),
                 Properties(env.propertiesId, kind, RadiusProperty(kind, points, env), env.now))
  }

  /** Validation and trimming of a candidate against the accepted features: lines
      pass unchecked; other kinds run the enclosure check, then the trimming, and
      only the geometry of an accepted candidate is replaced. */
  function Validate(geo: Backend, candidate: DrawnFeature, features: seq<DrawnFeature>): (out: Emit)
    ensures out != Quiet
    ensures KindOf(candidate) == LineString ==> out == FeatureCreated(candidate)
    ensures out.FeatureCreated? ==> out.feature.id == candidate.id && out.feature.properties == candidate.properties
    ensures out.ErrorRaised? ==> out.message in {InsideMessage, EncloseMessage, OverlapMessage}
    ensures out.Escaped? ==> KindOf(candidate) != LineString && Enclosure(geo, candidate.geometry, PolygonGeometries(features)).Raised?
  {
    if candidate.properties.shapeType == LineString then FeatureCreated(candidate)
    else
      var polys := PolygonGeometries(features);
      match Enclosure(geo, candidate.geometry, polys)
      case Raised => Escaped
      case Enclosed(message) => ErrorRaised(message)
      case NoEnclosure =>
        match Trim(geo, candidate.geometry, polys)
        case None => ErrorRaised(OverlapMessage)
        case Some(trimmed) => FeatureCreated(candidate.(geometry := trimmed))
  }

  /** Specification of `finishShape` in a given mode. */
  function Finish(mode: Option<ShapeType>, points: seq<LatLng>, features: seq<DrawnFeature>, env: Env): (out: Emit)
    requires mode.Some? ==> Materializable(mode.value, points)
    ensures out == Quiet <==> mode.None?
    ensures out.FeatureCreated? ==> KindOf(out.feature) == mode.value && out.feature.id == env.featureId
    ensures out.Escaped? ==> mode != Some(LineString)
  {
    if mode.None? then Quiet else Validate(env.geo, Candidate(mode.value, points, env), features)
  }

  /** A primary click finishes a shape exactly for a circle or a rectangle whose
      captured list has just reached two points. */
  predicate FinishesOnClick(kind: ShapeType, count: nat): (b: bool)
    ensures b ==> count == 2
    ensures kind == Polygon || kind == LineString ==> !b
  {
    (kind == Circle || kind == Rectangle) && count == 2
  }

  /** A right-click finishes a shape only for a polygon or a line with more than
      two captured points. */
  predicate FinishesOnContextMenu(mode: Option<ShapeType>, count: nat): (b: bool)
    ensures b ==> mode.Some? && mode.value != Circle && mode.value != Rectangle && count >= 3
  {
    (mode == Some(Polygon) || mode == Some(LineString)) && count > 2
  }

  // ---------------------------------------------------------------------------
  // Properties of the finished shape

  /** The outcomes of `finishShape` once a mode is set: the enclosure error, the
      total-overlap error, or exactly one created feature; a line skips both
      checks. */
  lemma FinishOutcome(kind: ShapeType, points: seq<LatLng>, features: seq<DrawnFeature>, env: Env)
    requires Materializable(kind, points)
    ensures var out := Finish(Some(kind), points, features, env);
      var polys := PolygonGeometries(features);
      var g := ShapeGeometry(kind, points, env);
      && (kind == LineString ==> out == FeatureCreated(Candidate(kind, points, env)))
      && (kind != LineString ==>
            && (Enclosure(env.geo, g, polys).Enclosed? ==> out == ErrorRaised(Enclosure(env.geo, g, polys).message))
            && (Enclosure(env.geo, g, polys).Raised? ==> out == Escaped)
            && (Enclosure(env.geo, g, polys) == NoEnclosure && Trim(env.geo, g, polys).None? ==> out == ErrorRaised(OverlapMessage))
            && (out.FeatureCreated? <==> Enclosure(env.geo, g, polys) == NoEnclosure && Trim(env.geo, g, polys).Some?))
  {
  }

  /** A created feature keeps the generated identifiers, the kind of the mode, the
      timestamp and the radius property; only its geometry is the trimmed one. */
  lemma CreatedFeatureIdentity(kind: ShapeType, points: seq<LatLng>, features: seq<DrawnFeature>, env: Env)
    requires Materializable(kind, points)
    requires Finish(Some(kind), points, features, env).FeatureCreated?
    ensures var f := Finish(Some(kind), points, features, env).feature;
      && f.id == env.featureId
      && f.properties == Properties(env.propertiesId, kind, RadiusProperty(kind, points, env), env.now)
      && (kind != LineString ==> Some(f.geometry) == Trim(env.geo, ShapeGeometry(kind, points, env), PolygonGeometries(features)))
  {
  }

  /** With no existing polygon intersecting it, an accepted polygon keeps its drawn
      ring, which is closed and lists the clicks in order. */
  lemma AcceptedPolygonIsClosed(points: seq<LatLng>, features: seq<DrawnFeature>, env: Env)
    requires |points| >= 1
    requires Enclosure(env.geo, ShapeGeometry(Polygon, points, env), PolygonGeometries(features)) == NoEnclosure
    requires forall e :: e in PolygonGeometries(features) ==> env.geo.intersects(ShapeGeometry(Polygon, points, env), e) != Returned(true)
    ensures Finish(Some(Polygon), points, features, env).FeatureCreated?
    ensures var g := Finish(Some(Polygon), points, features, env).feature.geometry;
      && g.PolygonGeometry? && |g.rings| == 1 && |g.rings[0]| >= |points|
      && g.rings[0][0] == g.rings[0][|g.rings[0]| - 1] && g.rings[0][..|points|] == Positions(points)
  {
    var polys := PolygonGeometries(features);
    TrimNoIntersection(env.geo, ShapeGeometry(Polygon, points, env), polys);
  }

  /** A line is never checked: whatever the backend and the accepted features, it
      is created with the clicked points as its coordinates. */
  lemma LineStringUnchecked(points: seq<LatLng>, features: seq<DrawnFeature>, env: Env)
    ensures Finish(Some(LineString), points, features, env).FeatureCreated?
    ensures var f := Finish(Some(LineString), points, features, env).feature;
      f.geometry == LineStringGeometry(Positions(points)) && |f.geometry.coordinates| == |points|
  {
  }

  /** A rejected shape carries one of the three messages. */
  lemma RejectionMessages(kind: ShapeType, points: seq<LatLng>, features: seq<DrawnFeature>, env: Env)
    requires Materializable(kind, points)
    requires Finish(Some(kind), points, features, env).ErrorRaised?
    ensures Finish(Some(kind), points, features, env).message in {InsideMessage, EncloseMessage, OverlapMessage}
  {
    var g := ShapeGeometry(kind, points, env);
    var polys := PolygonGeometries(features);
    if Enclosure(env.geo, g, polys).Enclosed? {
      EnclosureWitness(env.geo, g, polys);
    }
  }

  // ---------------------------------------------------------------------------
  // The control

  class DrawControl {
    var mode: Option<ShapeType>
    /** The authoritative captured point list (`pointsRef.current`). */
    var points: seq<LatLng>

    /** Without a mode nothing is being captured. */
    ghost predicate Valid()
      reads this
    {
      mode.None? ==> points == []
    }

    constructor (initialMode: Option<ShapeType>)
      ensures Valid() && mode == initialMode && points == []
    {
      mode := initialMode;
      points := [];
    }

    /** The effect that runs when the mode prop changes: the capture is cleared. */
    method ModeChanged(newMode: Option<ShapeType>)
      requires Valid()
      modifies this
      ensures Valid() && mode == newMode
      ensures points == if newMode != old(mode) then [] else old(points)
    {
      if newMode != mode {
        points := [];
      }
      mode := newMode;
    }

    method Reset()
      modifies this`points
      ensures points == []
    {
      points := [];
    }

    /** `finishShape(finalPoints)`. Every exit after the mode check clears the
        captured points, except an exception escaping the enclosure check. */
    method FinishShape(finalPoints: seq<LatLng>, features: seq<DrawnFeature>, env: Env) returns (out: Emit)
      requires mode.Some? ==> Materializable(mode.value, finalPoints)
      modifies this`points
      ensures out == Finish(mode, finalPoints, features, env)
      ensures points == if mode.None? || out.Escaped? then old(points) else []
    {
      if mode.None? {
        return Quiet;
      }
      var kind := mode.value;
      var geometry: Geometry;
      var radius: Option<real> := None;
      match kind {
        case Circle =>
          var center := finalPoints[0];
          radius := Some(env.distance(center, finalPoints[1]));
          geometry := env.circle(Position(center.lng, center.lat), radius.value / 1000.0, CircleSteps);
        case Rectangle =>
          var bounds := Bounds(finalPoints[0], finalPoints[1]);
          geometry := BBoxPolygon(bounds);
        case Polygon =>
          var latlngs := Positions(finalPoints);
          var last := latlngs[|latlngs| - 1];
          if latlngs[0].lng != last.lng || latlngs[0].lat != last.lat {
            latlngs := latlngs + [latlngs[0]];
          }
          geometry := PolygonGeometry([latlngs]);
        case LineString =>
          geometry := LineStringGeometry(Positions(finalPoints));
      }
      var radiusProperty := if radius.Some? && radius.value != 0.0 then radius else None;
      var feature := DrawnFeature(env.featureId, geometry, Properties(env.propertiesId, kind, radiusProperty, env.now));
      assert feature == Candidate(kind, finalPoints, env);

      if kind != LineString {
        var enclosureError := CheckEnclosure(env.geo, feature.geometry, features);
        if enclosureError.Raised? {
          return Escaped;
        }
        if enclosureError.Enclosed? {
          out := ErrorRaised(enclosureError.message);
          Reset();
          return;
        }
        var trimmed := ResolveOverlap(env.geo, feature.geometry, features);
        if trimmed.None? {
          out := ErrorRaised(OverlapMessage);
          Reset();
          return;
        }
        feature := feature.(geometry := trimmed.value);
      }
      out := FeatureCreated(feature);
      Reset();
    }

    /** The `click` handler: without a mode nothing happens; otherwise the point is
        appended, and a circle or a rectangle is finished at two points. */
    method Click(p: LatLng, features: seq<DrawnFeature>, env: Env) returns (out: Emit)
      requires Valid()
      modifies this`points
      ensures Valid()
      ensures mode.None? ==> out == Quiet && points == old(points)
      ensures mode.Some? && !FinishesOnClick(mode.value, |old(points)| + 1)
        ==> (out == Quiet && points == old(points) + [p])
      ensures mode.Some? && FinishesOnClick(mode.value, |old(points)| + 1)
        ==> (out == Finish(mode, old(points) + [p], features, env)
             && points == if out.Escaped? then old(points) + [p] else [])
    {
      if mode.None? {
        return Quiet;
      }
      var newPoints := points + [p];
      points := newPoints;
      if FinishesOnClick(mode.value, |newPoints|) {
        out := FinishShape(newPoints, features, env);
      } else {
        out := Quiet;
      }
    }

    /** The `contextmenu` handler: finishes a polygon or a line once more than two
        points are captured, and does nothing otherwise. */
    method ContextMenu(features: seq<DrawnFeature>, env: Env) returns (out: Emit)
      requires Valid()
      modifies this`points
      ensures Valid()
      ensures !FinishesOnContextMenu(mode, |old(points)|) ==> out == Quiet && points == old(points)
      ensures FinishesOnContextMenu(mode, |old(points)|)
        ==> (out == Finish(mode, old(points), features, env)
             && points == if out.Escaped? then old(points) else [])
    {
      if FinishesOnContextMenu(mode, |points|) {
        out := FinishShape(points, features, env);
      } else {
        out := Quiet;
      }
    }
  }
}
