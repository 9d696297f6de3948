/**
 * Splitting the merged feature table into five tables by geometry type.
 * Each output is a boolean-mask selection over the input, so each is a
 * stable filter; nothing forces the five masks to be disjoint or to cover
 * the input, and the lemmas below establish what they do cover.
 */
module GeometryCategorizer {
  import opened Options
  import opened Seqs
  import opened Config
  import opened GeoFrame

  /** The five output tables, in the order the categorizer returns them. */
  datatype Bucket = Points | Lines | Polygons | LinearRings | GeometryCollections

  /** The five tables returned together. */
  datatype Buckets = Buckets(points: Table, lines: Table, polygons: Table, linearRings: Table, geometryCollections: Table)
  {
    function Get(b: Bucket): Table {
      match b
      case Points => points
      case Lines => lines
      case Polygons => polygons
      case LinearRings => linearRings
      case GeometryCollections => geometryCollections
    }
  }

  /**
   * The mask of each output, written as the source writes it: membership of
   * the reported type name in a list of enumeration values (`isin`), or
   * equality with one value. A row without a geometry matches no mask.
   */
  predicate InBucket(b: Bucket, row: Row) {
    var t := row.geomType;
    match b
    case Points => t == Some(KindName(Point)) || t == Some(KindName(MultiPoint))
    case Lines => t == Some(KindName(LineString)) || t == Some(KindName(MultiLineString))
    case Polygons => t == Some(KindName(Polygon)) || t == Some(KindName(MultiPolygon))
    case LinearRings => t == Some(KindName(LinearRing))
    case GeometryCollections => t == Some(KindName(GeometryCollection))
  }

  /** The test for one output, as a value that can be handed to a filter. */
  function Mask(b: Bucket): Row -> bool {
    row => InBucket(b, row)
  }

  /**
   * The geometry kinds each output is documented to hold: points the point
   * and multipoint geometries, lines the line and multiline ones, polygons
   * the polygon and multipolygon ones, and one kind each for linear rings and
   * geometry collections.
   */
  function Kinds(b: Bucket): set<GeometryKind> {
    match b
    case Points => {Point, MultiPoint}
    case Lines => {LineString, MultiLineString}
    case Polygons => {Polygon, MultiPolygon}
    case LinearRings => {LinearRing}
    case GeometryCollections => {GeometryCollection}
  }

  /** The string masks select exactly the rows whose kind belongs to the output. */
  lemma MaskMatchesKinds(b: Bucket, row: Row)
    ensures InBucket(b, row) <==> KindOf(row).Some? && KindOf(row).value in Kinds(b)
  {
    match row.geomType
    case None =>
    case Some(name) =>
      var k := KindFromName(name);
      if k.Some? {
        assert KindName(k.value) == name;
      }
      forall j | InBucket(b, row) && KindName(j) == name ensures k == Some(j) {
      }
  }

  /** `categorize_geometries`: the five mask selections, in the source's order. */
  function CategorizeGeometries(gdf: Table): Buckets {
    Buckets(
      Filter(gdf, Mask(Points)),
      Filter(gdf, Mask(Lines)),
      Filter(gdf, Mask(Polygons)),
      Filter(gdf, Mask(LinearRings)),
      Filter(gdf, Mask(GeometryCollections)))
  }

  /** Each output is the selection by its own mask. */
  lemma CategorizeIsSelection(gdf: Table, b: Bucket)
    ensures CategorizeGeometries(gdf).Get(b) == Filter(gdf, Mask(b))
  {
  }

  /**
   * Each output holds exactly the input rows of the kinds it is documented
   * to hold: points the Point and MultiPoint rows, lines the LineString and
   * MultiLineString rows, polygons the Polygon and MultiPolygon rows, and one
   * kind each for linear rings and geometry collections.
   */
  lemma CategorizeSelectsKinds(gdf: Table, b: Bucket)
    ensures var out := CategorizeGeometries(gdf).Get(b);
      && (forall i :: 0 <= i < |out| ==> out[i] in gdf && KindOf(out[i]).Some? && KindOf(out[i]).value in Kinds(b))
      && (forall i :: 0 <= i < |gdf| && KindOf(gdf[i]).Some? && KindOf(gdf[i]).value in Kinds(b) ==> gdf[i] in out)
  {
    var out := CategorizeGeometries(gdf).Get(b);
    CategorizeIsSelection(gdf, b);
    forall i | 0 <= i < |out| ensures KindOf(out[i]).Some? && KindOf(out[i]).value in Kinds(b) {
      assert Mask(b)(out[i]);
      MaskMatchesKinds(b, out[i]);
    }
    forall i | 0 <= i < |gdf| && KindOf(gdf[i]).Some? && KindOf(gdf[i]).value in Kinds(b) ensures gdf[i] in out {
      MaskMatchesKinds(b, gdf[i]);
      assert Mask(b)(gdf[i]);
    }
  }

  /** Each output keeps the input's relative row order and copies rows unchanged. */
  lemma CategorizeIsStable(gdf: Table, b: Bucket)
    ensures IsSubseq(CategorizeGeometries(gdf).Get(b), gdf)
  {
    CategorizeIsSelection(gdf, b);
    FilterIsSubseq(gdf, Mask(b));
  }

  /** No row satisfies two different masks. */
  lemma MasksDisjoint(b1: Bucket, b2: Bucket, row: Row)
    requires b1 != b2
    ensures !(InBucket(b1, row) && InBucket(b2, row))
  {
    MaskMatchesKinds(b1, row);
    MaskMatchesKinds(b2, row);
  }

  /** The five outputs are pairwise disjoint: no row is placed in two of them. */
  lemma CategorizeDisjoint(gdf: Table, b1: Bucket, b2: Bucket, row: Row)
    requires b1 != b2
    ensures !(row in CategorizeGeometries(gdf).Get(b1) && row in CategorizeGeometries(gdf).Get(b2))
  {
    CategorizeIsSelection(gdf, b1);
    CategorizeIsSelection(gdf, b2);
    if row in Filter(gdf, Mask(b1)) && row in Filter(gdf, Mask(b2)) {
      FilterKeeps(gdf, Mask(b1), row);
      FilterKeeps(gdf, Mask(b2), row);
      MasksDisjoint(b1, b2, row);
    }
  }

  /** A row has one of the eight kinds. */
  predicate HasKnownKind(row: Row) {
    KindOf(row).Some?
  }

  /** How many of the five masks a row satisfies. */
  function MaskCount(row: Row): nat {
    (if InBucket(Points, row) then 1 else 0) + (if InBucket(Lines, row) then 1 else 0)
    + (if InBucket(Polygons, row) then 1 else 0) + (if InBucket(LinearRings, row) then 1 else 0)
    + (if InBucket(GeometryCollections, row) then 1 else 0)
  }

  /** A row of a known kind satisfies exactly one mask; any other row satisfies none. */
  lemma MaskCountIsKnown(row: Row)
    ensures MaskCount(row) == if HasKnownKind(row) then 1 else 0
  {
    MaskMatchesKinds(Points, row);
    MaskMatchesKinds(Lines, row);
    MaskMatchesKinds(Polygons, row);
    MaskMatchesKinds(LinearRings, row);
    MaskMatchesKinds(GeometryCollections, row);
  }

  /**
   * The output sizes add up to the number of input rows of a known kind: rows
   * with a missing geometry or a type outside the eight fall into no output,
   * and no row is counted twice.
   */
  lemma {:induction false} CategorizeCounts(gdf: Table)
    ensures var r := CategorizeGeometries(gdf);
      |r.points| + |r.lines| + |r.polygons| + |r.linearRings| + |r.geometryCollections|
      == |Filter(gdf, row => HasKnownKind(row))|
  {
    if gdf != [] {
      CategorizeCounts(gdf[1..]);
      MaskCountIsKnown(gdf[0]);
    }
  }

  /** An empty table gives five empty outputs. */
  lemma CategorizeEmpty()
    ensures CategorizeGeometries([]) == Buckets([], [], [], [], [])
  {
  }
}
