/**
 * The fixed vocabulary of the exporter: the eight Simple Features geometry
 * kinds with the type names the geometry library reports for them, and the
 * table from output format name to writer driver name.
 */
module Config {
  import opened Options

  /** The `GeometryType` enumeration. */
  datatype GeometryKind =
    | Point | MultiPoint
    | LineString | MultiLineString
    | Polygon | MultiPolygon
    | LinearRing
    | GeometryCollection

  /** The enumeration member's value: the type name a geometry reports. */
  function KindName(k: GeometryKind): string {
    match k
    case Point => "Point"
    case MultiPoint => "MultiPoint"
    case LineString => "LineString"
    case MultiLineString => "MultiLineString"
    case Polygon => "Polygon"
    case MultiPolygon => "MultiPolygon"
    case LinearRing => "LinearRing"
    case GeometryCollection => "GeometryCollection"
  }

  /** Looks a reported type name up in the enumeration (`GeometryType(name)`); a name outside it has no kind. */
  function KindFromName(name: string): (r: Option<GeometryKind>)
    ensures forall k :: r == Some(k) <==> KindName(k) == name
  {
    if name == "Point" then Some(Point)
    else if name == "MultiPoint" then Some(MultiPoint)
    else if name == "LineString" then Some(LineString)
    else if name == "MultiLineString" then Some(MultiLineString)
    else if name == "Polygon" then Some(Polygon)
    else if name == "MultiPolygon" then Some(MultiPolygon)
    else if name == "LinearRing" then Some(LinearRing)
    else if name == "GeometryCollection" then Some(GeometryCollection)
    else None
  }

  /** The eight member values are pairwise distinct strings, so a type name determines its kind. */
  lemma KindNamesDistinct(j: GeometryKind, k: GeometryKind)
    ensures KindName(j) == KindName(k) ==> j == k
  {
    assert KindFromName(KindName(j)) == Some(j);
  }

  /** `FORMAT_TO_DRIVER`: output format name to the writer's driver name. */
  const FORMAT_TO_DRIVER: map<string, string> :=
    map["GeoJSON" := "GeoJSON", "GeoPackage" := "GPKG", "Shapefile" := "ESRI Shapefile"]

  /** The table is defined on exactly the three format names, with these drivers. */
  lemma DriverTable()
    ensures FORMAT_TO_DRIVER.Keys == {"GeoJSON", "GeoPackage", "Shapefile"}
    ensures FORMAT_TO_DRIVER["GeoJSON"] == "GeoJSON"
    ensures FORMAT_TO_DRIVER["GeoPackage"] == "GPKG"
    ensures FORMAT_TO_DRIVER["Shapefile"] == "ESRI Shapefile"
  {
  }

  /** No two formats share a driver. */
  lemma DriverInjective(f: string, g: string)
    requires f in FORMAT_TO_DRIVER && g in FORMAT_TO_DRIVER
    ensures FORMAT_TO_DRIVER[f] == FORMAT_TO_DRIVER[g] ==> f == g
  {
  }
}
