# wfs_fetcher core, modelled in Dafny

`wfs_fetcher` downloads every layer a Web Feature Service (WFS) offers. It
splits the merged features into five tables by geometry type and writes
each non-empty table to a file in the chosen format (GeoJSON, GeoPackage or
Shapefile). It also writes a manifest, `empty_layers.txt`, naming the layers
that returned no data.

This project models four parts of that pipeline and proves what they do:

- the fetch step (`data_fetcher.py`);
- the split by geometry type (`geometry_categorizer.py`);
- the writers (`file_exporter.py`);
- the constants they share (`config.py`).

Modules:

- `Options`: the `Option` datatype.
- `Seqs`: a stable `Filter`, the subsequence order, duplicate-freedom, and
  the lemmas about them. A boolean-mask selection `frame[mask]` and an
  appending loop are both a `Filter`.
- `Config`: the `GeometryType` enumeration, as `GeometryKind` with its type
  names, and `FORMAT_TO_DRIVER`.
- `GeoFrame`: a feature table is a sequence of rows. Each row holds an
  attribute map and the type name its geometry reports; the name may be
  missing or unknown. This module also sets the `layer_name` column.
- `DataFetcher`: `fetch_features_for_layer` and `fetch_layer_data`.
  - The service is a value: the layer names it advertises, plus a function
    from layer name to response (a body or a failure).
  - The payload decoder `gpd.read_file` is a function parameter.
  - The loop in `fetch_layer_data` is a `method` with a `while` loop. It is
    proved against two filters of the layer list.
- `GeometryCategorizer`: `categorize_geometries`, as five filters using the
  source's own string masks. The lemmas prove which kinds land in each
  output, that the outputs are disjoint, which rows they drop, and that
  they keep order.
- `FileExporter`: `save_geodataframes` and `save_empty_layers`.
  - Each is given twice: as a function on a `Disk` value (files and
    directories), and as a method of a `FileSystem` class whose fields the
    method updates. The method's postcondition equates its effect with the
    function.
  - The properties are proved about the functions: the paths written, the
    content left there, no other path touched, the first failing write
    stops the rest, re-running changes nothing, and the manifest splits
    back into the layer list.
  - The table writer `to_file` is a function parameter.

Behaviour of the code that the model makes explicit:

- **Empty and failed layers share one flag.** A failed request, read or
  decode and a whitespace-only body all give an empty table flagged empty
  (wfs_fetcher/data_fetcher.py:20-32). Failed layers therefore go into the
  manifest together with layers that returned no features.
- **An unadvertised layer aborts the batch.** The title lookup
  `wfs[layer].title` stands outside any exception handler
  (wfs_fetcher/data_fetcher.py:46). A layer name the service does not
  advertise raises there, which ends the whole batch. `FetchLayerData` has
  an `UnknownLayer` result for this.
- **Unclassifiable rows are dropped silently.** A row with no geometry, or
  with a type name outside the eight, matches none of the five masks
  (wfs_fetcher/geometry_categorizer.py:18-22). `CategorizeCounts` proves
  exactly which rows are dropped.
- **A failed write leaves the earlier files.** The five tables are written
  one after another (wfs_fetcher/file_exporter.py:61-84). When a later
  write raises, the files already written stay on disk
  (`FailedWriteStopsInOrder`).
- **The extension fallback is unreachable.** The extension lookup falls
  back to `geojson` (wfs_fetcher/file_exporter.py:45-49). The driver check
  runs first (wfs_fetcher/file_exporter.py:32-36), so the fallback is never
  reached (`ExtensionOfSupportedFormat`).

The kinds each output table holds (`GeometryCategorizer.Kinds`) are the
ones the parameter documentation of `save_geodataframes` gives
(wfs_fetcher/file_exporter.py:24-28): points and multipoints, lines and
multilines, polygons and multipolygons, linear rings, geometry collections.

## Model

| member | source | states |
|---|---|---|
| Config.KindFromName | wfs_fetcher/config.py:9-17 | the enumeration lookup by value: `Some(k)` exactly when `k`'s value is the given name, `None` for any name outside the eight |
| Config.KindNamesDistinct | wfs_fetcher/config.py:9-17 | the eight member values are pairwise distinct, so a reported type name determines its kind |
| Config.DriverTable | wfs_fetcher/config.py:20-24 | the driver table is defined on exactly GeoJSON, GeoPackage and Shapefile, mapping them to GeoJSON, GPKG and ESRI Shapefile |
| Config.DriverInjective | wfs_fetcher/config.py:20-24 | no two supported formats share a driver |
| GeoFrame.StampLayerName | wfs_fetcher/data_fetcher.py:28 | setting `layer_name` keeps the row count and every row's geometry type; it adds that one column, holding the layer name, to every row and leaves every other column's value as it was |
| DataFetcher.FirstNonSpace | wfs_fetcher/data_fetcher.py:22 | the index of the first non-whitespace byte: everything before it is whitespace, and the byte at it is not |
| DataFetcher.EndOfNonSpace | wfs_fetcher/data_fetcher.py:22 | one past the last non-whitespace byte: everything from it on is whitespace, and the byte before it is not |
| DataFetcher.Strip | wfs_fetcher/data_fetcher.py:22-23 | `bytes.strip()` gives the empty body exactly when the body is all whitespace; otherwise the result neither starts nor ends with whitespace |
| DataFetcher.StripSlice | wfs_fetcher/data_fetcher.py:22 | the stripped body is a contiguous slice of the body, and only whitespace is cut from either end |
| DataFetcher.ClassifyResponse | wfs_fetcher/data_fetcher.py:20-32 | the empty flag is set exactly when the returned table has no rows, and every returned row carries `layer_name` equal to the layer |
| DataFetcher.FetchFeaturesForLayer | wfs_fetcher/data_fetcher.py:13-32 | the same pair of guarantees for the whole per-layer fetch, which never raises |
| DataFetcher.BlankBodyNotDecoded | wfs_fetcher/data_fetcher.py:22-25 | a whitespace-only body gives `([], True)` whatever the decoder would have done |
| DataFetcher.FailureIsEmpty | wfs_fetcher/data_fetcher.py:20-32 | a failed request or read, or a non-blank body the decoder rejects, gives `([], True)` |
| DataFetcher.DecodedRowsKept | wfs_fetcher/data_fetcher.py:27-29 | a decoded table comes back with the same rows in the same order, with geometry and other columns unchanged and `layer_name` as the only column added; it is flagged empty exactly when it has no rows |
| DataFetcher.FetchLayerData | wfs_fetcher/data_fetcher.py:35-54 | the batch completes exactly when every layer is advertised; the empty-layer list is then the layers flagged empty, in input order, and the feature list is the tables of the other layers, in input order; otherwise the result names the first unadvertised layer, and every layer before it is advertised |
| DataFetcher.CollectStep | wfs_fetcher/data_fetcher.py:47-52 | one more layer extends exactly one of the two lists: its name goes to the empty list, or its table goes to the feature list |
| DataFetcher.EmptyStep | wfs_fetcher/data_fetcher.py:49-50 | one more layer extends the empty list by its name exactly when its fetch is flagged empty |
| DataFetcher.DataStep | wfs_fetcher/data_fetcher.py:51-52 | one more layer extends the feature list by its table exactly when its fetch is not flagged empty |
| DataFetcher.TablesOfAppend | wfs_fetcher/data_fetcher.py:52 | appending a layer appends its table |
| DataFetcher.BatchCountsAddUp | wfs_fetcher/data_fetcher.py:45-52 | every layer lands in exactly one of the two lists: their lengths add up to the number of layers |
| DataFetcher.BatchKeepsOrder | wfs_fetcher/data_fetcher.py:45-52 | both outputs keep the input order of the layers |
| DataFetcher.CollectedTablesNonEmpty | wfs_fetcher/data_fetcher.py:29-52 | every collected table has at least one row, and each of its rows names the layer it came from |
| DataFetcher.NoLayersNoOutput | wfs_fetcher/data_fetcher.py:42-54 | an empty layer list gives two empty lists, whatever the service would answer |
| GeometryCategorizer.MaskMatchesKinds | wfs_fetcher/geometry_categorizer.py:18-22 | each string mask accepts a row exactly when the row's kind is one of those the output is named for |
| GeometryCategorizer.CategorizeIsSelection | wfs_fetcher/geometry_categorizer.py:18-22 | each output is the selection of the input by its own mask |
| GeometryCategorizer.CategorizeSelectsKinds | wfs_fetcher/geometry_categorizer.py:11-24 | each output holds exactly the input rows of its kinds: Point/MultiPoint, LineString/MultiLineString, Polygon/MultiPolygon, LinearRing, GeometryCollection |
| GeometryCategorizer.CategorizeIsStable | wfs_fetcher/geometry_categorizer.py:18-22 | each output keeps the input's row order |
| GeometryCategorizer.MasksDisjoint | wfs_fetcher/geometry_categorizer.py:18-22 | no row satisfies two different masks |
| GeometryCategorizer.CategorizeDisjoint | wfs_fetcher/geometry_categorizer.py:11-24 | no row is in two outputs |
| GeometryCategorizer.MaskCountIsKnown | wfs_fetcher/geometry_categorizer.py:18-22 | a row of one of the eight kinds satisfies exactly one mask; any other row satisfies none |
| GeometryCategorizer.CategorizeCounts | wfs_fetcher/geometry_categorizer.py:11-24 | the five output sizes add up to the number of input rows of a known kind: no row is duplicated, and exactly the rows with a missing or unknown geometry type are dropped |
| GeometryCategorizer.CategorizeEmpty | wfs_fetcher/geometry_categorizer.py:11-24 | an empty table gives five empty tables |
| FileExporter.ExtensionOfSupportedFormat | wfs_fetcher/file_exporter.py:32-49 | every format that passes the driver check has its own extension (geojson, gpkg, shp), so the fallback is unused |
| FileExporter.FileNamesDistinct | wfs_fetcher/file_exporter.py:52-58 | the five file names are pairwise distinct whatever the extension, and none is the manifest's name |
| FileExporter.SuffixCancel | wfs_fetcher/file_exporter.py:52-58 | two names with the same extension suffix are equal only when their base names are |
| FileExporter.JoinPathInjective | wfs_fetcher/file_exporter.py:40 | joining a directory with a relative name is injective in the name and never yields the directory itself |
| FileExporter.BucketPathsDistinct | wfs_fetcher/file_exporter.py:40-58 | the five output paths in one directory are pairwise distinct and differ from the directory |
| FileExporter.BucketOrderNoDup | wfs_fetcher/file_exporter.py:61-84 | the five tables are considered once each, and every table is considered |
| FileExporter.WriteBucketsSnoc | wfs_fetcher/file_exporter.py:61-84 | one more write in the sequence is one more step applied to the state so far |
| FileExporter.WriteBucketsAppend | wfs_fetcher/file_exporter.py:61-84 | running two write sequences one after the other is running their concatenation |
| FileExporter.StoppedStaysStopped | wfs_fetcher/file_exporter.py:61-84 | once a write has raised, later writes do nothing |
| FileExporter.WritesTouchOnlyTheirPaths | wfs_fetcher/file_exporter.py:38-84 | the writes never create, remove or change a path that is not one of their own output paths |
| FileExporter.WritesLeaveTheirContent | wfs_fetcher/file_exporter.py:38-84 | when all writes succeed, each output path holds what the writer produced for its table |
| FileExporter.RewriteIsIdentity | wfs_fetcher/file_exporter.py:38-84 | writing over files that already hold the writer's output changes nothing |
| FileExporter.StopPoint | wfs_fetcher/file_exporter.py:38-84 | a stopped run stopped at a write that failed; the writes before it all succeeded, and the files are what they left |
| FileExporter.StopIsFinal | wfs_fetcher/file_exporter.py:61-84 | a failure at the `k`-th table is the outcome of the whole sequence |
| FileExporter.UnsupportedFormatTouchesNothing | wfs_fetcher/file_exporter.py:32-36 | an unsupported format raises before any directory or file changes |
| FileExporter.SavedFiles | wfs_fetcher/file_exporter.py:13-84 | a successful save creates the directory and writes each non-empty table to its path with the format's driver (no directory stood at any of those paths); it skips the empty ones and leaves every other path as it was |
| FileExporter.FailedWriteStopsInOrder | wfs_fetcher/file_exporter.py:13-84 | a failing save names the path of the first non-empty table whose write raised, because a directory stood at that path or the writer rejected the table; the files are what the writes before it left |
| FileExporter.FailedWriteCause | wfs_fetcher/file_exporter.py:38-44 | a write fails only because a directory that existed before the call stands at its path (the output directory itself never does), or the writer rejects the table |
| FileExporter.FailingWriteStops | wfs_fetcher/file_exporter.py:61-84 | once a write that cannot succeed is among the writes, the sequence of writes ends stopped, whatever comes before or after it |
| FileExporter.DirectoryInTheWayFails | wfs_fetcher/file_exporter.py:13-84 | with a supported format and a creatable output directory, a directory standing at the path of a table with rows makes the save fail |
| FileExporter.WritesAvoidDirectory | wfs_fetcher/file_exporter.py:38-84 | the writes never put a file at the output directory's own path |
| FileExporter.RerunIsIdempotent | wfs_fetcher/file_exporter.py:61-84 | rerunning a write sequence that succeeded leaves the files as they are |
| FileExporter.RerunStopsAgain | wfs_fetcher/file_exporter.py:61-84 | rerunning a write sequence that stopped stops at the same table, with the same files |
| FileExporter.SaveIsIdempotent | wfs_fetcher/file_exporter.py:13-84 | calling `save_geodataframes` twice with the same arguments has the effect of calling it once |
| FileExporter.SplitWithoutNewline | wfs_fetcher/file_exporter.py:95 | a name without a newline splits into itself |
| FileExporter.SplitAtFirstNewline | wfs_fetcher/file_exporter.py:95 | splitting at the first newline separates the first name from the rest |
| FileExporter.ManifestRoundTrip | wfs_fetcher/file_exporter.py:95 | the newline-joined manifest of a non-empty list of newline-free names splits back into that list |
| FileExporter.ManifestWritten | wfs_fetcher/file_exporter.py:87-96 | for any names: no directory and no other path changes; an empty list changes nothing and succeeds; a non-empty list with the directory missing, or with a directory at the manifest path, fails and changes nothing; otherwise the write succeeds and the file holds exactly the newline-joined names, which split back into the list when no name contains a newline |
| FileExporter.ManifestIsIdempotent | wfs_fetcher/file_exporter.py:87-96 | writing the manifest twice has the effect of writing it once |
| FileExporter.FileSystem.MakeDirs | wfs_fetcher/file_exporter.py:44 | `os.makedirs(d, exist_ok=True)` succeeds unless the name is empty or a file has it; on success the directory exists afterwards |
| FileExporter.FileSystem.SaveGdf | wfs_fetcher/file_exporter.py:38-40 | a write succeeds exactly when no directory stands at the path and the writer accepts the table, and then replaces the content at the path; otherwise no file changes |
| FileExporter.FileSystem.SaveIfNonEmpty | wfs_fetcher/file_exporter.py:61-64 | one `if not gdf.empty: save_gdf(...)` advances the write sequence by that table exactly when it has rows; when the write raises, the sequence stops at that table's path and that is the outcome of all five writes; the directories do not change |
| FileExporter.FileSystem.SaveBuckets | wfs_fetcher/file_exporter.py:61-84 | the five guarded writes leave the files the write sequence specifies, and report the path where it stopped, if it did |
| FileExporter.FileSystem.SaveGeoDataFrames | wfs_fetcher/file_exporter.py:13-84 | the new disk state and the outcome are those of `SaveGeoDataFramesEffect`, whose properties are the lemmas above |
| FileExporter.FileSystem.SaveEmptyLayers | wfs_fetcher/file_exporter.py:87-96 | the new disk state and the outcome are those of `SaveEmptyLayersEffect` |

## Left out

- `main.py`, `wfs_service.py` and `logging_config.py` are not part of this model: argument parsing, connecting to the service, merging the fetched tables, and logging setup. The log calls in the modelled functions are dropped.
- Coordinates, floating point and the on-disk encoding of each format are not modelled. A geometry is only the type name it reports, and the table writer `to_file` and the decoder `gpd.read_file` are function parameters.
- DataFetcher.FetchFeaturesForLayer: the network is a function of the layer name, so two requests for the same layer get the same answer. Timeouts and retries are not modelled.
- DataFetcher.FetchLayerData: only whether `wfs[layer]` succeeds is modelled. The title it reads feeds a log line only, so its value is not kept.
- DataFetcher.ClassifyResponse: `gdf.empty` is modelled as "no rows". After `layer_name` is added the frame always has a column, so a frame with no columns does not arise.
- FileExporter.SaveGeoDataFramesEffect: a write that raises is modelled as leaving its path untouched. A partly written file is not represented.
- FileExporter.SaveGeoDataFramesEffect: Shapefile's sidecar files (`.shx`, `.dbf`, `.prj`) are not represented; only the `.shp` path is.
- FileExporter.FileSystem.MakeDirs: parent directories created by `os.makedirs` are not tracked. The call fails only when the name is empty or a regular file has it; a regular file standing at a parent path, and permission errors, are not modelled.
- FileExporter.FileSystem.MakeDirs: paths are compared as plain strings, without normalisation, so `out` and `out/` are different directories on the modelled disk.
- FileExporter.FileSystem.SaveGdf: a directory at the target path makes the write fail for every driver. A driver that treats such a directory as a dataset folder is not modelled.
- FileExporter.SaveEmptyLayersEffect: write errors other than a missing directory or a directory standing at the manifest path are not modelled.
- FileExporter.ManifestRoundTrip: the round trip needs names without a newline. A name containing one is split into several lines, as the code would do.
