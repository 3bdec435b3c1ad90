/** Shared data model of the drawing widget: shape kinds, coordinates, GeoJSON-like
    geometries and the drawn feature record (src/types/index.ts). */
module Types {

  datatype Option<+T> = None | Some(value: T)

  /** The outcome of a call into the geometry library, which may throw instead of
      returning. */
  datatype Try<+T> = Returned(value: T) | Threw

  /** The four drawing tools. */
  datatype ShapeType = Circle | Rectangle | Polygon | LineString

  /** A clicked map location, as the map reports it (latitude first). */
  datatype LatLng = LatLng(lat: real, lng: real)

  /** A GeoJSON position, longitude first. */
  datatype Position = Position(lng: real, lat: real)

  /** The geometries that occur in the widget: the drawn polygon kinds produce
      `Polygon` rings, trimming may produce a `MultiPolygon`, and lines are
      `LineString`s. */
  datatype Geometry =
    | PolygonGeometry(rings: seq<seq<Position>>)
    | MultiPolygonGeometry(polygons: seq<seq<seq<Position>>>)
    | LineStringGeometry(coordinates: seq<Position>)

  /** Whether a geometry takes part in enclosure checks and trimming. */
  predicate IsPolygonal(g: Geometry) {
    g.PolygonGeometry? || g.MultiPolygonGeometry?
  }

  /** The `properties` block of a drawn feature; `radius` is present only for a
      circle whose radius is non-zero. */
  datatype Properties = Properties(id: string, shapeType: ShapeType, radius: Option<real>, createdAt: int)

  /** A drawn feature (its GeoJSON `type` member is always "Feature"). */
  datatype DrawnFeature = DrawnFeature(id: string, geometry: Geometry, properties: Properties)

  function KindOf(f: DrawnFeature): ShapeType {
    f.properties.shapeType
  }
}
