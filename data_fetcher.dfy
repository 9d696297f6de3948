/**
 * Fetching layers from the feature service. The network exchange and the
 * payload decoder are inputs: the service answers a request for a layer with
 * a body or a failure, and the decoder turns a body into a table or fails.
 */
module DataFetcher {
  import opened Options
  import opened Seqs
  import opened GeoFrame

  newtype byte = x: int | 0 <= x < 256
  type Bytes = seq<byte>

  /** What `wfs.getfeature(typename=layer)` followed by `response.read()` gives: a body, or an exception from either call. */
  datatype Response = Received(body: Bytes) | RequestFailed

  /** `gpd.read_file` over the bytes: a table, or `None` when it raises. */
  type Decoder = Bytes -> Option<Table>

  /**
   * The service handle: the layer names it advertises (`wfs[layer]` succeeds
   * exactly for these) and its answer to a feature request.
   */
  datatype WfsService = WfsService(contents: set<string>, getFeature: string -> Response)

  /** The pair `(gdf, is_empty)` returned for one layer. */
  datatype LayerResult = LayerResult(gdf: Table, isEmpty: bool)

  /** The outcome of the batch: the two lists, or the `KeyError` raised by the metadata lookup for a layer the service does not advertise. */
  datatype BatchResult =
    | Collected(allFeatures: seq<Table>, emptyLayers: seq<string>)
    | UnknownLayer(layer: string)

  /** The bytes `bytes.strip()` removes: ASCII space, tab, newline, carriage return, vertical tab, form feed. */
  predicate IsAsciiSpace(b: byte) {
    b == 32 || 9 <= b <= 13
  }

  /** Index of the first byte that is not whitespace, or `|s|`. */
  function FirstNonSpace(s: Bytes): (i: nat)
    ensures i <= |s|
    ensures forall k :: 0 <= k < i ==> IsAsciiSpace(s[k])
    ensures i < |s| ==> !IsAsciiSpace(s[i])
  {
    if s == [] || !IsAsciiSpace(s[0]) then 0 else 1 + FirstNonSpace(s[1..])
  }

  /** One past the last byte that is not whitespace, or 0. */
  function EndOfNonSpace(s: Bytes): (j: nat)
    ensures j <= |s|
    ensures forall k :: j <= k < |s| ==> IsAsciiSpace(s[k])
    ensures j > 0 ==> !IsAsciiSpace(s[j - 1])
  {
    if s == [] || !IsAsciiSpace(s[|s| - 1]) then |s| else EndOfNonSpace(s[..|s| - 1])
  }

  /** `bytes.strip()`: the body without leading and trailing whitespace. */
  function Strip(s: Bytes): (r: Bytes)
    ensures r == [] <==> forall k :: 0 <= k < |s| ==> IsAsciiSpace(s[k])
    ensures r != [] ==> !IsAsciiSpace(r[0]) && !IsAsciiSpace(r[|r| - 1])
  {
    var i, j := FirstNonSpace(s), EndOfNonSpace(s);
    if i < j then s[i..j] else []
  }

  /** What strip removes is whitespace, and what it keeps is a contiguous slice of the body. */
  lemma StripSlice(s: Bytes)
    ensures exists i, j ::
              && 0 <= i <= j <= |s| && Strip(s) == s[i..j]
              && (forall k :: 0 <= k < i ==> IsAsciiSpace(s[k]))
              && (forall k :: j <= k < |s| ==> IsAsciiSpace(s[k]))
  {
    var i, j := FirstNonSpace(s), EndOfNonSpace(s);
    if i < j {
      assert Strip(s) == s[i..j];
    } else {
      assert Strip(s) == s[0..0];
      assert forall k :: 0 <= k < |s| ==> IsAsciiSpace(s[k]);
    }
  }

  /**
   * The body of `fetch_features_for_layer` after the request: a failed request
   * or read, a body that is only whitespace, and a failed decode all give an
   * empty table flagged empty; otherwise the decoded table with `layer_name`
   * set on every row, flagged empty exactly when it has no rows (the new
   * column means the frame always has a column, so `gdf.empty` is "no rows").
   */
  function ClassifyResponse(response: Response, decode: Decoder, layer: string): (r: LayerResult)
    ensures r.isEmpty <==> |r.gdf| == 0
    ensures forall i :: 0 <= i < |r.gdf| ==> LAYER_NAME in r.gdf[i].attrs && r.gdf[i].attrs[LAYER_NAME] == Text(layer)
  {
    match response
    case RequestFailed => LayerResult([], true)
    case Received(body) =>
      var content := Strip(body);
      if content == [] then LayerResult([], true)
      else
        match decode(content)
        case None => LayerResult([], true)
        case Some(gdf) =>
          var stamped := StampLayerName(gdf, layer);
          LayerResult(stamped, |stamped| == 0)
  }

  /** `fetch_features_for_layer`: requests the layer and classifies the answer; it never fails. */
  function FetchFeaturesForLayer(wfs: WfsService, decode: Decoder, layer: string): (r: LayerResult)
    ensures r.isEmpty <==> |r.gdf| == 0
    ensures forall i :: 0 <= i < |r.gdf| ==> LAYER_NAME in r.gdf[i].attrs && r.gdf[i].attrs[LAYER_NAME] == Text(layer)
  {
    ClassifyResponse(wfs.getFeature(layer), decode, layer)
  }

  /** A body that is only whitespace is reported empty without consulting the decoder. */
  lemma BlankBodyNotDecoded(wfs: WfsService, d1: Decoder, d2: Decoder, layer: string)
    requires wfs.getFeature(layer).Received?
    requires forall k :: 0 <= k < |wfs.getFeature(layer).body| ==> IsAsciiSpace(wfs.getFeature(layer).body[k])
    ensures FetchFeaturesForLayer(wfs, d1, layer) == LayerResult([], true)
    ensures FetchFeaturesForLayer(wfs, d2, layer) == LayerResult([], true)
  {
  }

  /** Every failure path (request, read, decode) degrades to an empty table flagged empty. */
  lemma FailureIsEmpty(wfs: WfsService, decode: Decoder, layer: string)
    requires var response := wfs.getFeature(layer);
      response.RequestFailed? || (Strip(response.body) != [] && decode(Strip(response.body)).None?)
    ensures FetchFeaturesForLayer(wfs, decode, layer) == LayerResult([], true)
  {
  }

  /**
   * A successful decode returns the decoded rows, in order, with their
   * geometry and other attributes untouched; `layer_name` is the only column
   * added.
   */
  lemma DecodedRowsKept(wfs: WfsService, decode: Decoder, layer: string, t: Table)
    requires wfs.getFeature(layer).Received?
    requires var content := Strip(wfs.getFeature(layer).body); content != [] && decode(content) == Some(t)
    ensures var r := FetchFeaturesForLayer(wfs, decode, layer);
      && |r.gdf| == |t|
      && r.isEmpty == (|t| == 0)
      && (forall i :: 0 <= i < |t| ==> r.gdf[i].geomType == t[i].geomType)
      && (forall i :: 0 <= i < |t| ==> r.gdf[i].attrs.Keys == t[i].attrs.Keys + {LAYER_NAME})
      && (forall i, c :: 0 <= i < |t| && c in t[i].attrs && c != LAYER_NAME ==> c in r.gdf[i].attrs && r.gdf[i].attrs[c] == t[i].attrs[c])
  {
  }

  /** The test that sends a layer to the empty list. */
  function EmptyTest(wfs: WfsService, decode: Decoder): string -> bool {
    l => FetchFeaturesForLayer(wfs, decode, l).isEmpty
  }

  /** The test that sends a layer's table to the feature list. */
  function DataTest(wfs: WfsService, decode: Decoder): string -> bool {
    l => !FetchFeaturesForLayer(wfs, decode, l).isEmpty
  }

  /** The layers whose fetch was flagged empty, in input order. */
  function EmptyLayers(wfs: WfsService, decode: Decoder, layers: seq<string>): seq<string> {
    Filter(layers, EmptyTest(wfs, decode))
  }

  /** The layers whose fetch returned rows, in input order. */
  function DataLayers(wfs: WfsService, decode: Decoder, layers: seq<string>): seq<string> {
    Filter(layers, DataTest(wfs, decode))
  }

  /** The fetched tables of the given layers, in the same order. */
  function TablesOf(wfs: WfsService, decode: Decoder, layers: seq<string>): (r: seq<Table>)
    ensures |r| == |layers|
  {
    seq(|layers|, i requires 0 <= i < |layers| => FetchFeaturesForLayer(wfs, decode, layers[i]).gdf)
  }

  /**
   * `fetch_layer_data`: one pass over the layer list. The metadata lookup
   * `wfs[layer]` stands outside the per-layer exception handler, so the first
   * layer the service does not advertise aborts the whole batch.
   */
  method FetchLayerData(wfs: WfsService, decode: Decoder, layers: seq<string>) returns (r: BatchResult)
    ensures r.Collected? <==> forall k :: 0 <= k < |layers| ==> layers[k] in wfs.contents
    ensures r.Collected? ==> r.emptyLayers == EmptyLayers(wfs, decode, layers)
    ensures r.Collected? ==> r.allFeatures == TablesOf(wfs, decode, DataLayers(wfs, decode, layers))
    ensures r.UnknownLayer? ==>
              exists k ::
                && 0 <= k < |layers| && layers[k] == r.layer && layers[k] !in wfs.contents
                && forall j :: 0 <= j < k ==> layers[j] in wfs.contents
  {
    var allFeatures: seq<Table> := [];
    var emptyLayers: seq<string> := [];
    var i := 0;
    while i < |layers|
      invariant 0 <= i <= |layers|
      invariant forall j :: 0 <= j < i ==> layers[j] in wfs.contents
      invariant emptyLayers == EmptyLayers(wfs, decode, layers[..i])
      invariant allFeatures == TablesOf(wfs, decode, DataLayers(wfs, decode, layers[..i]))
    {
      var layer := layers[i];
      if layer !in wfs.contents {
        r := UnknownLayer(layer);
        assert layers[i] == r.layer && layers[i] !in wfs.contents;
        return;
      }
      assert forall j :: 0 <= j < i + 1 ==> layers[j] in wfs.contents;
      var result := FetchFeaturesForLayer(wfs, decode, layer);
      PrefixStep(layers, i);
      CollectStep(wfs, decode, layers[..i], layer);
      if result.isEmpty {
        emptyLayers := emptyLayers + [layer];
      } else {
        allFeatures := allFeatures + [result.gdf];
      }
      i := i + 1;
    }
    assert layers[..i] == layers;
    return Collected(allFeatures, emptyLayers);
  }

  /** One more layer extends exactly one of the two outputs. */
  lemma CollectStep(wfs: WfsService, decode: Decoder, ls: seq<string>, l: string)
    ensures var r := FetchFeaturesForLayer(wfs, decode, l);
      && EmptyLayers(wfs, decode, ls + [l]) == EmptyLayers(wfs, decode, ls) + (if r.isEmpty then [l] else [])
      && TablesOf(wfs, decode, DataLayers(wfs, decode, ls + [l]))
         == TablesOf(wfs, decode, DataLayers(wfs, decode, ls)) + (if r.isEmpty then [] else [r.gdf])
  {
    EmptyStep(wfs, decode, ls, l);
    DataStep(wfs, decode, ls, l);
  }

  /** The empty list grows by the layer's name exactly when its fetch is flagged empty. */
  lemma EmptyStep(wfs: WfsService, decode: Decoder, ls: seq<string>, l: string)
    ensures EmptyLayers(wfs, decode, ls + [l])
            == EmptyLayers(wfs, decode, ls) + (if FetchFeaturesForLayer(wfs, decode, l).isEmpty then [l] else [])
  {
    FilterAppend(ls, [l], EmptyTest(wfs, decode));
    assert EmptyTest(wfs, decode)(l) == FetchFeaturesForLayer(wfs, decode, l).isEmpty;
  }

  /** The feature list grows by the layer's table exactly when its fetch is not flagged empty. */
  lemma DataStep(wfs: WfsService, decode: Decoder, ls: seq<string>, l: string)
    ensures var r := FetchFeaturesForLayer(wfs, decode, l);
      TablesOf(wfs, decode, DataLayers(wfs, decode, ls + [l]))
      == TablesOf(wfs, decode, DataLayers(wfs, decode, ls)) + (if r.isEmpty then [] else [r.gdf])
  {
    FilterAppend(ls, [l], DataTest(wfs, decode));
    var r := FetchFeaturesForLayer(wfs, decode, l);
    assert DataTest(wfs, decode)(l) == !r.isEmpty;
    if r.isEmpty {
      assert DataLayers(wfs, decode, ls + [l]) == DataLayers(wfs, decode, ls);
    } else {
      assert DataLayers(wfs, decode, ls + [l]) == DataLayers(wfs, decode, ls) + [l];
      TablesOfAppend(wfs, decode, DataLayers(wfs, decode, ls), l);
    }
  }

  /** The tables of a longer list are the tables so far plus the new layer's table. */
  lemma TablesOfAppend(wfs: WfsService, decode: Decoder, ls: seq<string>, l: string)
    ensures TablesOf(wfs, decode, ls + [l]) == TablesOf(wfs, decode, ls) + [FetchFeaturesForLayer(wfs, decode, l).gdf]
  {
    var a, b := TablesOf(wfs, decode, ls + [l]), TablesOf(wfs, decode, ls) + [FetchFeaturesForLayer(wfs, decode, l).gdf];
    assert |a| == |b|;
    forall k | 0 <= k < |a| ensures a[k] == b[k] {
      if k < |ls| { assert (ls + [l])[k] == ls[k]; }
    }
  }

  /** Each layer lands in exactly one of the two outputs. */
  lemma {:induction false} BatchCountsAddUp(wfs: WfsService, decode: Decoder, layers: seq<string>)
    ensures |TablesOf(wfs, decode, DataLayers(wfs, decode, layers))| + |EmptyLayers(wfs, decode, layers)| == |layers|
  {
    FilterSplitLength(layers, DataTest(wfs, decode), EmptyTest(wfs, decode));
  }

  /** Both outputs keep the input order of the layers. */
  lemma {:induction false} BatchKeepsOrder(wfs: WfsService, decode: Decoder, layers: seq<string>)
    ensures IsSubseq(EmptyLayers(wfs, decode, layers), layers)
    ensures IsSubseq(DataLayers(wfs, decode, layers), layers)
  {
    FilterIsSubseq(layers, EmptyTest(wfs, decode));
    FilterIsSubseq(layers, DataTest(wfs, decode));
  }

  /** Every collected table has at least one row, and every row names its layer. */
  lemma CollectedTablesNonEmpty(wfs: WfsService, decode: Decoder, layers: seq<string>)
    ensures forall t :: t in TablesOf(wfs, decode, DataLayers(wfs, decode, layers)) ==> |t| > 0
    ensures var ds := DataLayers(wfs, decode, layers);
            forall k, i ::
              0 <= k < |ds| && 0 <= i < |TablesOf(wfs, decode, ds)[k]| ==>
                TablesOf(wfs, decode, ds)[k][i].attrs[LAYER_NAME] == Text(ds[k])
  {
    var ds := DataLayers(wfs, decode, layers);
    forall t | t in TablesOf(wfs, decode, ds) ensures |t| > 0 {
      var k :| 0 <= k < |ds| && TablesOf(wfs, decode, ds)[k] == t;
      assert !FetchFeaturesForLayer(wfs, decode, ds[k]).isEmpty;
    }
  }

  /** An empty layer list yields two empty lists, whatever the service would answer. */
  lemma NoLayersNoOutput(wfs: WfsService, decode: Decoder)
    ensures EmptyLayers(wfs, decode, []) == [] && TablesOf(wfs, decode, DataLayers(wfs, decode, [])) == []
  {
  }
}
