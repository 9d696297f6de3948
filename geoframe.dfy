/**
 * The feature table as the pipeline sees it: an ordered sequence of rows,
 * each an attribute mapping plus the type name its geometry reports.
 * Coordinates play no part in any decision and are not represented.
 */
module GeoFrame {
  import opened Options
  import opened Config

  /** An attribute cell. */
  datatype Value = Null | Bool(b: bool) | Int(i: int) | Text(s: string)

  /**
   * One feature. `geomType` is what `geometry.geom_type` reports: `None` for a
   * missing geometry, otherwise a type name, which may lie outside the
   * enumeration.
   */
  datatype Row = Row(attrs: map<string, Value>, geomType: Option<string>)

  type Table = seq<Row>

  /** The column the fetcher adds to every decoded table. */
  const LAYER_NAME := "layer_name"

  /** The geometry kind of a row, when its type name is one of the eight. */
  function KindOf(row: Row): Option<GeometryKind> {
    match row.geomType
    case None => None
    case Some(name) => KindFromName(name)
  }

  /**
   * `gdf['layer_name'] = layer`: the column is set on every row, replacing a
   * decoded column of that name if there was one.
   */
  function StampLayerName(t: Table, layer: string): (r: Table)
    ensures |r| == |t|
    ensures forall i :: 0 <= i < |r| ==> LAYER_NAME in r[i].attrs && r[i].attrs[LAYER_NAME] == Text(layer)
    ensures forall i :: 0 <= i < |r| ==> r[i].geomType == t[i].geomType
    ensures forall i :: 0 <= i < |r| ==> r[i].attrs.Keys == t[i].attrs.Keys + {LAYER_NAME}
    ensures forall i, c :: 0 <= i < |r| && c in t[i].attrs && c != LAYER_NAME ==> r[i].attrs[c] == t[i].attrs[c]
  {
    seq(|t|, i requires 0 <= i < |t| => t[i].(attrs := t[i].attrs[LAYER_NAME := Text(layer)]))
  }
}
