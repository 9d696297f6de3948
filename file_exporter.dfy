/**
 * Writing the five geometry tables and the manifest of layers without data.
 * The filesystem is a map from path to file content plus the set of
 * directories that exist; the table writer (`to_file`) is an input that
 * turns a table and a driver name into file content, or fails.
 */
module FileExporter {
  import opened Options
  import opened Seqs
  import opened Config
  import opened GeoFrame
  import opened GeometryCategorizer

  type Content = string

  /** `gdf.to_file(path, driver=driver)`: the content it leaves at the path, or `None` when it raises. */
  type Encoder = (Table, string) -> Option<Content>

  // ----- names -------------------------------------------------------------

  /** The extension table of the exporter; `.get(format, "geojson")` falls back to `geojson`. */
  const FORMAT_EXTENSION: map<string, string> :=
    map["GeoJSON" := "geojson", "GeoPackage" := "gpkg", "Shapefile" := "shp"]

  function FormatExtension(format: string): string {
    if format in FORMAT_EXTENSION then FORMAT_EXTENSION[format] else "geojson"
  }

  /**
   * Every format that passes the driver check has its own entry in the
   * extension table, so the `geojson` fallback is never taken after the check.
   */
  lemma ExtensionOfSupportedFormat(format: string)
    requires format in FORMAT_TO_DRIVER
    ensures format in FORMAT_EXTENSION
    ensures FormatExtension(format) == (if format == "GeoJSON" then "geojson" else if format == "GeoPackage" then "gpkg" else "shp")
  {
  }

  /** The fixed base name of each output file. */
  function BaseName(b: Bucket): string {
    match b
    case Points => "points_and_multipoints"
    case Lines => "lines_and_multilines"
    case Polygons => "polygons_and_multipolygons"
    case LinearRings => "linear_rings"
    case GeometryCollections => "geometry_collections"
  }

  /** The `filenames` entry of a table: base name, a dot, the extension. */
  function FileName(b: Bucket, ext: string): string {
    BaseName(b) + "." + ext
  }

  /** The manifest file name. */
  const MANIFEST_NAME := "empty_layers.txt"

  /** Two strings with a common suffix are equal exactly when the prefixes are. */
  lemma SuffixCancel(a: string, b: string, t: string)
    requires a + t == b + t
    ensures a == b
  {
    assert |a| == |b|;
    assert a == (a + t)[..|a|];
    assert b == (b + t)[..|b|];
  }

  /** The five file names are pairwise distinct whatever the extension, and none is the manifest's name. */
  lemma FileNamesDistinct(b1: Bucket, b2: Bucket, ext: string)
    ensures FileName(b1, ext) == FileName(b2, ext) ==> b1 == b2
    ensures FileName(b1, ext) != MANIFEST_NAME
  {
    if FileName(b1, ext) == FileName(b2, ext) {
      assert BaseName(b1) + ("." + ext) == FileName(b1, ext);
      assert BaseName(b2) + ("." + ext) == FileName(b2, ext);
      SuffixCancel(BaseName(b1), BaseName(b2), "." + ext);
      BaseNameTag(b1);
      BaseNameTag(b2);
    }
    assert FileName(b1, ext)[0] == BaseName(b1)[0];
    BaseNameTag(b1);
    assert MANIFEST_NAME[0] == 'e';
  }

  /** The length and first letter of a base name tell the bucket apart; no base name starts with 'e'. */
  lemma BaseNameTag(b: Bucket)
    ensures |BaseName(b)| > 0 && BaseName(b)[0] != 'e'
    ensures (|BaseName(b)|, BaseName(b)[0]) ==
      match b
      case Points => (22, 'p')
      case Lines => (20, 'l')
      case Polygons => (26, 'p')
      case LinearRings => (12, 'l')
      case GeometryCollections => (20, 'g')
  {
  }

  /**
   * `os.path.join(directory, name)` on POSIX: an absolute name replaces the
   * directory; otherwise a separator is inserted unless the directory is empty
   * or already ends in one.
   */
  function JoinPath(directory: string, name: string): string {
    if |name| > 0 && name[0] == '/' then name
    else if directory == [] || directory[|directory| - 1] == '/' then directory + name
    else directory + "/" + name
  }

  /** Joining a directory with a relative name is injective in the name, and never gives the directory back. */
  lemma JoinPathInjective(directory: string, a: string, b: string)
    requires |a| > 0 && a[0] != '/' && |b| > 0 && b[0] != '/'
    ensures JoinPath(directory, a) == JoinPath(directory, b) ==> a == b
    ensures JoinPath(directory, a) != directory
  {
    var prefix := if directory == [] || directory[|directory| - 1] == '/' then directory else directory + "/";
    assert JoinPath(directory, a) == prefix + a;
    assert JoinPath(directory, b) == prefix + b;
    if prefix + a == prefix + b {
      assert a == (prefix + a)[|prefix|..];
      assert b == (prefix + b)[|prefix|..];
    }
    assert |prefix + a| > |directory|;
  }

  /** Where the table of a bucket is written. */
  function BucketPath(outputDir: string, b: Bucket, ext: string): string {
    JoinPath(outputDir, FileName(b, ext))
  }

  /** The five output paths of one directory are pairwise distinct, and distinct from the directory itself. */
  lemma BucketPathsDistinct(outputDir: string, b1: Bucket, b2: Bucket, ext: string)
    ensures BucketPath(outputDir, b1, ext) == BucketPath(outputDir, b2, ext) ==> b1 == b2
    ensures BucketPath(outputDir, b1, ext) != outputDir
  {
    FileNamesDistinct(b1, b2, ext);
    assert FileName(b1, ext)[0] == BaseName(b1)[0];
    assert FileName(b2, ext)[0] == BaseName(b2)[0];
    JoinPathInjective(outputDir, FileName(b1, ext), FileName(b2, ext));
  }

  // ----- the export plan -----------------------------------------------------

  /** The order in which the five tables are considered and written. */
  const BUCKET_ORDER: seq<Bucket> := [Points, Lines, Polygons, LinearRings, GeometryCollections]

  lemma BucketOrderNoDup()
    ensures NoDup(BUCKET_ORDER)
    ensures forall b :: b in BUCKET_ORDER
  {
    forall b ensures b in BUCKET_ORDER {
      match b
      case Points => assert BUCKET_ORDER[0] == b;
      case Lines => assert BUCKET_ORDER[1] == b;
      case Polygons => assert BUCKET_ORDER[2] == b;
      case LinearRings => assert BUCKET_ORDER[3] == b;
      case GeometryCollections => assert BUCKET_ORDER[4] == b;
    }
  }

  /**
   * What one call writes with: the tables, the output directory, the
   * directories that exist while the tables are written, the extension, the
   * driver and the writer.
   */
  datatype Job = Job(buckets: Buckets, outputDir: string, dirs: set<string>, ext: string, driver: string, encode: Encoder)

  /** `save_gdf` for bucket `b` succeeds: no directory stands at its path, and the writer accepts the table. */
  predicate WriteSucceeds(job: Job, b: Bucket) {
    BucketPath(job.outputDir, b, job.ext) !in job.dirs && job.encode(job.buckets.Get(b), job.driver).Some?
  }

  /** The test `not gdf.empty` for one bucket. */
  function NonEmptyTest(bs: Buckets): Bucket -> bool {
    b => |bs.Get(b)| > 0
  }

  /** The buckets among the first `k` of the order that have rows: the tables that are written, in writing order. */
  function NonEmptyPrefix(bs: Buckets, k: nat): seq<Bucket>
    requires k <= |BUCKET_ORDER|
  {
    Filter(BUCKET_ORDER[..k], NonEmptyTest(bs))
  }

  /** The progress of the writes: still going, or stopped by the exception a write raised. */
  datatype Run = Running(files: map<string, Content>) | Stopped(files: map<string, Content>, failedPath: string)

  /**
   * One `save_gdf` call: once a write has failed nothing more happens. A
   * directory standing at the path makes `to_file` raise, as does the writer
   * rejecting the table.
   */
  function WriteBucket(run: Run, job: Job, b: Bucket): Run {
    match run
    case Stopped(_, _) => run
    case Running(files) =>
      var path := BucketPath(job.outputDir, b, job.ext);
      if path in job.dirs then Stopped(files, path)
      else match job.encode(job.buckets.Get(b), job.driver)
      case None => Stopped(files, path)
      case Some(content) => Running(files[path := content])
  }

  /** The writes for `order`, one after another. */
  function WriteBuckets(run: Run, job: Job, order: seq<Bucket>): Run
    decreases |order|
  {
    if order == [] then run
    else WriteBucket(WriteBuckets(run, job, order[..|order| - 1]), job, order[|order| - 1])
  }

  lemma WriteBucketsSnoc(run: Run, job: Job, order: seq<Bucket>, b: Bucket)
    ensures WriteBuckets(run, job, order + [b]) == WriteBucket(WriteBuckets(run, job, order), job, b)
  {
    assert (order + [b])[..|order|] == order;
  }

  /** Writing `a` and then `c` is writing `a + c`. */
  lemma {:induction false} WriteBucketsAppend(run: Run, job: Job, a: seq<Bucket>, c: seq<Bucket>)
    ensures WriteBuckets(run, job, a + c) == WriteBuckets(WriteBuckets(run, job, a), job, c)
    decreases |c|
  {
    if c == [] {
      assert a + c == a;
    } else {
      var init, last := c[..|c| - 1], c[|c| - 1];
      assert c == init + [last];
      assert a + c == (a + init) + [last];
      WriteBucketsSnoc(run, job, a + init, last);
      WriteBucketsAppend(run, job, a, init);
      WriteBucketsSnoc(WriteBuckets(run, job, a), job, init, last);
    }
  }

  /** After a failed write, the remaining writes do nothing. */
  lemma {:induction false} StoppedStaysStopped(files: map<string, Content>, path: string, job: Job, order: seq<Bucket>)
    ensures WriteBuckets(Stopped(files, path), job, order) == Stopped(files, path)
    decreases |order|
  {
    if order != [] {
      StoppedStaysStopped(files, path, job, order[..|order| - 1]);
    }
  }

  /** Only the paths of the buckets in `order` can change; every other path keeps its content or its absence. */
  lemma {:induction false} WritesTouchOnlyTheirPaths(run: Run, job: Job, order: seq<Bucket>, p: string)
    requires forall b :: b in order ==> BucketPath(job.outputDir, b, job.ext) != p
    ensures var after := WriteBuckets(run, job, order);
      (p in after.files <==> p in run.files) && (p in run.files ==> after.files[p] == run.files[p])
    decreases |order|
  {
    if order != [] {
      WritesTouchOnlyTheirPaths(run, job, order[..|order| - 1], p);
      assert order[|order| - 1] in order;
    }
  }

  /**
   * When every write succeeds, each bucket of `order` ends up with the
   * writer's content for it at its path (the paths being distinct, no later
   * write overwrites an earlier one).
   */
  lemma {:induction false} WritesLeaveTheirContent(files: map<string, Content>, job: Job, order: seq<Bucket>)
    requires NoDup(order)
    requires WriteBuckets(Running(files), job, order).Running?
    ensures forall b :: b in order ==>
              && WriteSucceeds(job, b)
              && BucketPath(job.outputDir, b, job.ext) in WriteBuckets(Running(files), job, order).files
              && WriteBuckets(Running(files), job, order).files[BucketPath(job.outputDir, b, job.ext)]
                 == job.encode(job.buckets.Get(b), job.driver).value
    decreases |order|
  {
    if order != [] {
      var init, last := order[..|order| - 1], order[|order| - 1];
      assert order == init + [last];
      assert NoDup(init);
      var mid := WriteBuckets(Running(files), job, init);
      var after := WriteBuckets(Running(files), job, order);
      assert after == WriteBucket(mid, job, last);
      assert mid.Running?;
      var content := job.encode(job.buckets.Get(last), job.driver);
      assert BucketPath(job.outputDir, last, job.ext) !in job.dirs && content.Some?;
      assert after.files == mid.files[BucketPath(job.outputDir, last, job.ext) := content.value];
      WritesLeaveTheirContent(files, job, init);
      forall b | b in order
        ensures && WriteSucceeds(job, b)
                && BucketPath(job.outputDir, b, job.ext) in after.files
                && after.files[BucketPath(job.outputDir, b, job.ext)] == job.encode(job.buckets.Get(b), job.driver).value
      {
        if b != last {
          assert b in init;
          BucketPathsDistinct(job.outputDir, b, last, job.ext);
        }
      }
    }
  }

  /**
   * Writing over files that already hold what the writer produces changes
   * nothing: the writes overwrite, they never append.
   */
  lemma {:induction false} RewriteIsIdentity(files: map<string, Content>, job: Job, order: seq<Bucket>)
    requires forall b :: b in order ==>
               && WriteSucceeds(job, b)
               && BucketPath(job.outputDir, b, job.ext) in files
               && files[BucketPath(job.outputDir, b, job.ext)] == job.encode(job.buckets.Get(b), job.driver).value
    ensures WriteBuckets(Running(files), job, order) == Running(files)
    decreases |order|
  {
    if order != [] {
      var last := order[|order| - 1];
      assert last in order;
      RewriteIsIdentity(files, job, order[..|order| - 1]);
      var path := BucketPath(job.outputDir, last, job.ext);
      assert files[path := files[path]] == files;
    }
  }

  /**
   * A run that stopped did so at one bucket of the order: every bucket before
   * it was written successfully, its own write failed, and nothing after it
   * was attempted.
   */
  lemma {:induction false} StopPoint(files: map<string, Content>, job: Job, order: seq<Bucket>)
    requires WriteBuckets(Running(files), job, order).Stopped?
    ensures exists k ::
              && 0 <= k < |order|
              && WriteBuckets(Running(files), job, order[..k]).Running?
              && !WriteSucceeds(job, order[k])
              && WriteBuckets(Running(files), job, order)
                 == Stopped(WriteBuckets(Running(files), job, order[..k]).files, BucketPath(job.outputDir, order[k], job.ext))
    decreases |order|
  {
    var init, last := order[..|order| - 1], order[|order| - 1];
    var mid := WriteBuckets(Running(files), job, init);
    assert init == order[..|order| - 1];
    if mid.Stopped? {
      StopPoint(files, job, init);
      var k :| && 0 <= k < |init|
               && WriteBuckets(Running(files), job, init[..k]).Running?
               && !WriteSucceeds(job, init[k])
               && mid == Stopped(WriteBuckets(Running(files), job, init[..k]).files, BucketPath(job.outputDir, init[k], job.ext));
      assert init[..k] == order[..k] && init[k] == order[k];
    } else {
      assert order[..|order| - 1] == init;
    }
  }

  /** A sequence that includes a write which cannot succeed ends stopped. */
  lemma {:induction false} FailingWriteStops(run: Run, job: Job, order: seq<Bucket>, b: Bucket)
    requires b in order
    requires !WriteSucceeds(job, b)
    ensures WriteBuckets(run, job, order).Stopped?
    decreases |order|
  {
    var init, last := order[..|order| - 1], order[|order| - 1];
    assert order == init + [last];
    if b != last {
      assert b in init;
      FailingWriteStops(run, job, init, b);
    }
  }

  /** The exception of the `k`-th write ends the call: the writes after it never happen. */
  lemma StopIsFinal(job: Job, k: nat, files0: map<string, Content>, files: map<string, Content>)
    requires k < |BUCKET_ORDER|
    requires WriteBuckets(Running(files0), job, NonEmptyPrefix(job.buckets, k + 1))
             == Stopped(files, BucketPath(job.outputDir, BUCKET_ORDER[k], job.ext))
    ensures WriteBuckets(Running(files0), job, NonEmptyPrefix(job.buckets, |BUCKET_ORDER|))
            == Stopped(files, BucketPath(job.outputDir, BUCKET_ORDER[k], job.ext))
  {
    var path := BucketPath(job.outputDir, BUCKET_ORDER[k], job.ext);
    var rest := BUCKET_ORDER[k + 1..];
    assert BUCKET_ORDER[..|BUCKET_ORDER|] == BUCKET_ORDER[..k + 1] + rest;
    FilterAppend(BUCKET_ORDER[..k + 1], rest, NonEmptyTest(job.buckets));
    WriteBucketsAppend(Running(files0), job, NonEmptyPrefix(job.buckets, k + 1), Filter(rest, NonEmptyTest(job.buckets)));
    StoppedStaysStopped(files, path, job, Filter(rest, NonEmptyTest(job.buckets)));
  }

  // ----- the filesystem and its specification --------------------------------

  /** The part of the filesystem the exporter observes. */
  datatype Disk = Disk(files: map<string, Content>, dirs: set<string>)

  /** What a call reports: success, or the exception it raises. */
  datatype Status =
    | Done
    | UnsupportedFormat(format: string)        // ValueError
    | CannotCreateDirectory(directory: string) // os.makedirs raised
    | WriteFailed(path: string)                // to_file or open raised

  datatype Effect = Effect(disk: Disk, status: Status)

  /** A directory that can hold a new file: the current one (the empty name) or one that exists. */
  predicate DirExists(disk: Disk, directory: string) {
    directory == [] || directory in disk.dirs
  }

  /** `os.makedirs(d, exist_ok=True)` succeeds unless the name is empty or a regular file already has it. */
  predicate MakeDirsSucceeds(disk: Disk, directory: string) {
    directory != [] && directory !in disk.files
  }

  /** The job a supported format gives, writing while the directories `dirs` exist. */
  function JobFor(bs: Buckets, outputDir: string, dirs: set<string>, format: string, encode: Encoder): Job
    requires format in FORMAT_TO_DRIVER
  {
    Job(bs, outputDir, dirs, FormatExtension(format), FORMAT_TO_DRIVER[format], encode)
  }

  /**
   * `save_geodataframes` as one state change: an unsupported format is
   * refused before anything happens; otherwise the directory is created and
   * the tables that have rows are written in the fixed order until one write
   * fails.
   */
  function SaveGeoDataFramesEffect(disk: Disk, bs: Buckets, outputDir: string, format: string, encode: Encoder): Effect {
    if format !in FORMAT_TO_DRIVER then Effect(disk, UnsupportedFormat(format))
    else if !MakeDirsSucceeds(disk, outputDir) then Effect(disk, CannotCreateDirectory(outputDir))
    else
      var run := WriteBuckets(Running(disk.files), JobFor(bs, outputDir, disk.dirs + {outputDir}, format, encode), NonEmptyPrefix(bs, 5));
      Effect(Disk(run.files, disk.dirs + {outputDir}), if run.Running? then Done else WriteFailed(run.failedPath))
  }

  /** An unsupported format raises before the directory is created or any file is written. */
  lemma UnsupportedFormatTouchesNothing(disk: Disk, bs: Buckets, outputDir: string, format: string, encode: Encoder)
    requires format !in FORMAT_TO_DRIVER
    ensures SaveGeoDataFramesEffect(disk, bs, outputDir, format, encode) == Effect(disk, UnsupportedFormat(format))
  {
  }

  /**
   * A successful call creates the directory, writes each table that has rows
   * to its own file with the format's driver, skips the empty tables, and
   * touches no other path.
   */
  lemma SavedFiles(disk: Disk, bs: Buckets, outputDir: string, format: string, encode: Encoder)
    requires SaveGeoDataFramesEffect(disk, bs, outputDir, format, encode).status == Done
    ensures format in FORMAT_TO_DRIVER
    ensures var after := SaveGeoDataFramesEffect(disk, bs, outputDir, format, encode).disk;
      && after.dirs == disk.dirs + {outputDir}
      && (forall b :: |bs.Get(b)| > 0 ==>
            var path := BucketPath(outputDir, b, FormatExtension(format));
            && path !in disk.dirs
            && encode(bs.Get(b), FORMAT_TO_DRIVER[format]).Some?
            && path in after.files && after.files[path] == encode(bs.Get(b), FORMAT_TO_DRIVER[format]).value)
      && (forall p :: (forall b :: |bs.Get(b)| > 0 ==> p != BucketPath(outputDir, b, FormatExtension(format))) ==>
            (p in after.files <==> p in disk.files) && (p in disk.files ==> after.files[p] == disk.files[p]))
  {
    var job := JobFor(bs, outputDir, disk.dirs + {outputDir}, format, encode);
    var order := NonEmptyPrefix(bs, 5);
    BucketOrderNoDup();
    assert BUCKET_ORDER[..5] == BUCKET_ORDER;
    FilterNoDup(BUCKET_ORDER, NonEmptyTest(bs));
    WritesLeaveTheirContent(disk.files, job, order);
    forall b | |bs.Get(b)| > 0 ensures b in order {
      assert b in BUCKET_ORDER;
      var i :| 0 <= i < |BUCKET_ORDER| && BUCKET_ORDER[i] == b;
      assert NonEmptyTest(bs)(BUCKET_ORDER[i]);
    }
    forall p | forall b :: |bs.Get(b)| > 0 ==> p != BucketPath(outputDir, b, FormatExtension(format))
      ensures var after := WriteBuckets(Running(disk.files), job, order).files;
        (p in after <==> p in disk.files) && (p in disk.files ==> after[p] == disk.files[p])
    {
      forall b | b in order ensures BucketPath(outputDir, b, job.ext) != p {
        FilterKeeps(BUCKET_ORDER, NonEmptyTest(bs), b);
      }
      WritesTouchOnlyTheirPaths(Running(disk.files), job, order, p);
    }
  }

  /**
   * A failed write stops the call: the tables before it in the fixed order
   * have been written, the failing table has rows, and no later table is
   * attempted.
   */
  lemma FailedWriteStopsInOrder(disk: Disk, bs: Buckets, outputDir: string, format: string, encode: Encoder)
    requires SaveGeoDataFramesEffect(disk, bs, outputDir, format, encode).status.WriteFailed?
    ensures format in FORMAT_TO_DRIVER
    ensures var order := NonEmptyPrefix(bs, 5);
      var job := JobFor(bs, outputDir, disk.dirs + {outputDir}, format, encode);
      var e := SaveGeoDataFramesEffect(disk, bs, outputDir, format, encode);
      exists k ::
        && 0 <= k < |order|
        && |bs.Get(order[k])| > 0
        && e.status == WriteFailed(BucketPath(outputDir, order[k], FormatExtension(format)))
        && (BucketPath(outputDir, order[k], FormatExtension(format)) in disk.dirs
            || encode(bs.Get(order[k]), FORMAT_TO_DRIVER[format]).None?)
        && WriteBuckets(Running(disk.files), job, order[..k]).Running?
        && e.disk.files == WriteBuckets(Running(disk.files), job, order[..k]).files
  {
    var job := JobFor(bs, outputDir, disk.dirs + {outputDir}, format, encode);
    var order := NonEmptyPrefix(bs, 5);
    StopPoint(disk.files, job, order);
    var k :| && 0 <= k < |order|
             && WriteBuckets(Running(disk.files), job, order[..k]).Running?
             && !WriteSucceeds(job, order[k])
             && WriteBuckets(Running(disk.files), job, order)
                == Stopped(WriteBuckets(Running(disk.files), job, order[..k]).files, BucketPath(job.outputDir, order[k], job.ext));
    FilterKeeps(BUCKET_ORDER[..5], NonEmptyTest(bs), order[k]);
    FailedWriteCause(disk, bs, outputDir, format, encode, order[k]);
  }

  /** A write of one call fails because a directory that existed before the call stands at its path, or the writer rejects the table. */
  lemma FailedWriteCause(disk: Disk, bs: Buckets, outputDir: string, format: string, encode: Encoder, b: Bucket)
    requires format in FORMAT_TO_DRIVER
    requires !WriteSucceeds(JobFor(bs, outputDir, disk.dirs + {outputDir}, format, encode), b)
    ensures BucketPath(outputDir, b, FormatExtension(format)) in disk.dirs || encode(bs.Get(b), FORMAT_TO_DRIVER[format]).None?
  {
    BucketPathsDistinct(outputDir, b, b, FormatExtension(format));
  }

  /**
   * A directory standing where a table with rows would be written makes the
   * call fail, once the format is supported and the output directory can be
   * created.
   */
  lemma DirectoryInTheWayFails(disk: Disk, bs: Buckets, outputDir: string, format: string, encode: Encoder, b: Bucket)
    requires format in FORMAT_TO_DRIVER && MakeDirsSucceeds(disk, outputDir)
    requires |bs.Get(b)| > 0 && BucketPath(outputDir, b, FormatExtension(format)) in disk.dirs
    ensures SaveGeoDataFramesEffect(disk, bs, outputDir, format, encode).status.WriteFailed?
  {
    var job := JobFor(bs, outputDir, disk.dirs + {outputDir}, format, encode);
    NonEmptyIsWritten(bs, b);
    assert !WriteSucceeds(job, b);
    FailingWriteStops(Running(disk.files), job, NonEmptyPrefix(bs, 5), b);
  }

  /** Every table that has rows is among the tables a call writes. */
  lemma NonEmptyIsWritten(bs: Buckets, b: Bucket)
    requires |bs.Get(b)| > 0
    ensures b in NonEmptyPrefix(bs, 5)
  {
    assert BUCKET_ORDER[..5] == BUCKET_ORDER;
    assert b in BUCKET_ORDER;
    var i :| 0 <= i < |BUCKET_ORDER| && BUCKET_ORDER[i] == b;
    assert NonEmptyTest(bs)(BUCKET_ORDER[i]);
  }

  /** The writes of one call never put a file where the output directory is. */
  lemma WritesAvoidDirectory(files: map<string, Content>, job: Job, order: seq<Bucket>)
    requires job.outputDir !in files
    ensures job.outputDir !in WriteBuckets(Running(files), job, order).files
  {
    forall b | b in order ensures BucketPath(job.outputDir, b, job.ext) != job.outputDir {
      BucketPathsDistinct(job.outputDir, b, b, job.ext);
    }
    WritesTouchOnlyTheirPaths(Running(files), job, order, job.outputDir);
  }

  /** Repeating a run of distinct writes from where it ended reproduces its result, whether it completed or stopped. */
  lemma RerunIsIdempotent(files: map<string, Content>, job: Job, order: seq<Bucket>)
    requires NoDup(order)
    ensures var run := WriteBuckets(Running(files), job, order);
      WriteBuckets(Running(run.files), job, order) == run
  {
    var run := WriteBuckets(Running(files), job, order);
    if run.Running? {
      WritesLeaveTheirContent(files, job, order);
      RewriteIsIdentity(run.files, job, order);
    } else {
      StopPoint(files, job, order);
      var k :| && 0 <= k < |order|
               && WriteBuckets(Running(files), job, order[..k]).Running?
               && !WriteSucceeds(job, order[k])
               && run == Stopped(WriteBuckets(Running(files), job, order[..k]).files, BucketPath(job.outputDir, order[k], job.ext));
      RerunStopsAgain(files, job, order, k);
    }
  }

  lemma RerunStopsAgain(files: map<string, Content>, job: Job, order: seq<Bucket>, k: nat)
    requires NoDup(order)
    requires k < |order|
    requires WriteBuckets(Running(files), job, order[..k]).Running?
    requires !WriteSucceeds(job, order[k])
    requires WriteBuckets(Running(files), job, order)
             == Stopped(WriteBuckets(Running(files), job, order[..k]).files, BucketPath(job.outputDir, order[k], job.ext))
    ensures var run := WriteBuckets(Running(files), job, order);
      WriteBuckets(Running(run.files), job, order) == run
  {
    var run := WriteBuckets(Running(files), job, order);
    var done, failed, rest := order[..k], order[k], order[k + 1..];
    var partial := WriteBuckets(Running(files), job, done).files;
    assert NoDup(done) by {
      forall i, j | 0 <= i < j < |done| ensures done[i] != done[j] {
        assert done[i] == order[i] && done[j] == order[j];
      }
    }
    WritesLeaveTheirContent(files, job, done);
    RewriteIsIdentity(partial, job, done);
    assert WriteBuckets(Running(partial), job, done) == Running(partial);
    WriteBucketsSnoc(Running(partial), job, done, failed);
    assert WriteBuckets(Running(partial), job, done + [failed]) == run;
    SplitAround(order, k);
    WriteBucketsAppend(Running(partial), job, done + [failed], rest);
    StoppedStaysStopped(run.files, run.failedPath, job, rest);
  }

  /** Calling `save_geodataframes` twice with the same arguments leaves the same files and reports the same outcome. */
  lemma SaveIsIdempotent(disk: Disk, bs: Buckets, outputDir: string, format: string, encode: Encoder)
    ensures var once := SaveGeoDataFramesEffect(disk, bs, outputDir, format, encode);
      SaveGeoDataFramesEffect(once.disk, bs, outputDir, format, encode) == once
  {
    if format in FORMAT_TO_DRIVER && MakeDirsSucceeds(disk, outputDir) {
      var job := JobFor(bs, outputDir, disk.dirs + {outputDir}, format, encode);
      var order := NonEmptyPrefix(bs, 5);
      BucketOrderNoDup();
      assert BUCKET_ORDER[..5] == BUCKET_ORDER;
      FilterNoDup(BUCKET_ORDER, NonEmptyTest(bs));
      WritesAvoidDirectory(disk.files, job, order);
      RerunIsIdempotent(disk.files, job, order);
    }
  }

  // ----- the manifest ----------------------------------------------------------

  /** `"\n".join(names)`. */
  function JoinLines(names: seq<string>): string {
    if |names| == 0 then ""
    else if |names| == 1 then names[0]
    else names[0] + "\n" + JoinLines(names[1..])
  }

  /** `text.split("\n")`: the pieces between newlines; an empty text is one empty piece. */
  function SplitLines(text: string): (pieces: seq<string>)
    ensures |pieces| >= 1
  {
    if |text| == 0 then [""]
    else
      var rest := SplitLines(text[1..]);
      if text[0] == '\n' then [""] + rest else [[text[0]] + rest[0]] + rest[1..]
  }

  lemma {:induction false} SplitWithoutNewline(x: string)
    requires '\n' !in x
    ensures SplitLines(x) == [x]
  {
    if |x| > 0 {
      SplitWithoutNewline(x[1..]);
      assert [x[0]] + x[1..] == x;
    }
  }

  lemma {:induction false} SplitAtFirstNewline(x: string, t: string)
    requires '\n' !in x
    ensures SplitLines(x + "\n" + t) == [x] + SplitLines(t)
  {
    if |x| == 0 {
      assert x + "\n" + t == "\n" + t;
      assert ("\n" + t)[1..] == t;
    } else {
      assert (x + "\n" + t)[0] == x[0];
      assert (x + "\n" + t)[1..] == x[1..] + "\n" + t;
      SplitAtFirstNewline(x[1..], t);
      assert [x[0]] + x[1..] == x;
    }
  }

  /** The manifest reads back: splitting the joined names on newlines gives the names, when none contains a newline. */
  lemma {:induction false} ManifestRoundTrip(names: seq<string>)
    requires |names| > 0
    requires forall i :: 0 <= i < |names| ==> '\n' !in names[i]
    ensures SplitLines(JoinLines(names)) == names
  {
    if |names| == 1 {
      SplitWithoutNewline(names[0]);
    } else {
      ManifestRoundTrip(names[1..]);
      SplitAtFirstNewline(names[0], JoinLines(names[1..]));
    }
  }

  /** Where the manifest goes. */
  function ManifestPath(outputDir: string): string {
    JoinPath(outputDir, MANIFEST_NAME)
  }

  /**
   * `save_empty_layers`: nothing for an empty list; otherwise the joined names
   * replace whatever was at the manifest path. `open` does not create the
   * directory: a missing directory, or a directory standing at the manifest
   * path, makes it raise.
   */
  function SaveEmptyLayersEffect(disk: Disk, emptyLayers: seq<string>, outputDir: string): Effect {
    var path := ManifestPath(outputDir);
    if emptyLayers == [] then Effect(disk, Done)
    else if !DirExists(disk, outputDir) || path in disk.dirs then Effect(disk, WriteFailed(path))
    else Effect(disk.(files := disk.files[path := JoinLines(emptyLayers)]), Done)
  }

  /**
   * The manifest is written exactly when the list is non-empty and the
   * directory exists with no directory at the manifest path; it then holds
   * the newline-joined names, and names without a newline are recovered by
   * splitting. A non-empty list that cannot be written reports the path. No
   * other path and no directory changes.
   */
  lemma ManifestWritten(disk: Disk, emptyLayers: seq<string>, outputDir: string)
    ensures var e := SaveEmptyLayersEffect(disk, emptyLayers, outputDir);
      var path := ManifestPath(outputDir);
      && e.disk.dirs == disk.dirs
      && (forall p :: p != path ==> (p in e.disk.files <==> p in disk.files) && (p in disk.files ==> e.disk.files[p] == disk.files[p]))
      && (e.disk.files != disk.files ==> emptyLayers != [] && DirExists(disk, outputDir))
      && (emptyLayers == [] ==> e == Effect(disk, Done))
      && (emptyLayers != [] && (!DirExists(disk, outputDir) || path in disk.dirs) ==> e == Effect(disk, WriteFailed(path)))
      && (emptyLayers != [] && DirExists(disk, outputDir) && path !in disk.dirs ==>
            && e.status == Done && path in e.disk.files && e.disk.files[path] == JoinLines(emptyLayers)
            && ((forall i :: 0 <= i < |emptyLayers| ==> '\n' !in emptyLayers[i]) ==> SplitLines(e.disk.files[path]) == emptyLayers))
  {
    var path := ManifestPath(outputDir);
    if emptyLayers != [] && DirExists(disk, outputDir) && path !in disk.dirs {
      var files := disk.files[path := JoinLines(emptyLayers)];
      assert SaveEmptyLayersEffect(disk, emptyLayers, outputDir) == Effect(disk.(files := files), Done);
      if forall i :: 0 <= i < |emptyLayers| ==> '\n' !in emptyLayers[i] {
        ManifestRoundTrip(emptyLayers);
      }
    }
  }

  /** Writing the manifest twice leaves what writing it once left. */
  lemma ManifestIsIdempotent(disk: Disk, emptyLayers: seq<string>, outputDir: string)
    ensures var once := SaveEmptyLayersEffect(disk, emptyLayers, outputDir);
      SaveEmptyLayersEffect(once.disk, emptyLayers, outputDir) == once
  {
    var path := ManifestPath(outputDir);
    if emptyLayers != [] && DirExists(disk, outputDir) && path !in disk.dirs {
      var files := disk.files[path := JoinLines(emptyLayers)];
      assert files[path := JoinLines(emptyLayers)] == files;
    }
  }

  // ----- the imperative exporter ---------------------------------------------

  class FileSystem {
    var files: map<string, Content>
    var dirs: set<string>

    function State(): Disk
      reads this
    {
      Disk(files, dirs)
    }

    constructor (files0: map<string, Content>, dirs0: set<string>)
      ensures files == files0 && dirs == dirs0
    {
      files := files0;
      dirs := dirs0;
    }

    /** `os.makedirs(directory, exist_ok=True)`. */
    method MakeDirs(directory: string) returns (ok: bool)
      modifies this`dirs
      ensures ok == MakeDirsSucceeds(old(State()), directory)
      ensures dirs == if ok then old(dirs) + {directory} else old(dirs)
    {
      ok := directory != [] && directory !in files;
      if ok {
        dirs := dirs + {directory};
      }
    }

    /** The nested `save_gdf`: one table to one path with the driver. */
    method SaveGdf(gdf: Table, path: string, driver: string, encode: Encoder) returns (ok: bool)
      modifies this`files
      ensures dirs == old(dirs)
      ensures ok == (path !in dirs && encode(gdf, driver).Some?)
      ensures files == if ok then old(files)[path := encode(gdf, driver).value] else old(files)
    {
      if path in dirs {
        return false;
      }
      var written := encode(gdf, driver);
      ok := written.Some?;
      if ok {
        files := files[path := written.value];
      }
    }

    /**
     * One `if not gdf.empty: save_gdf(...)` of the five, for the `k`-th table
     * of the order. When it raises, its outcome is that of all five.
     */
    method SaveIfNonEmpty(job: Job, k: nat, ghost files0: map<string, Content>) returns (ok: bool)
      requires k < |BUCKET_ORDER|
      requires job.dirs == dirs
      requires Running(files) == WriteBuckets(Running(files0), job, NonEmptyPrefix(job.buckets, k))
      modifies this`files
      ensures job.dirs == dirs
      ensures ok ==> Running(files) == WriteBuckets(Running(files0), job, NonEmptyPrefix(job.buckets, k + 1))
      ensures !ok ==> WriteBuckets(Running(files0), job, NonEmptyPrefix(job.buckets, |BUCKET_ORDER|))
                      == Stopped(files, BucketPath(job.outputDir, BUCKET_ORDER[k], job.ext))
    {
      var b := BUCKET_ORDER[k];
      PrefixStep(BUCKET_ORDER, k);
      FilterAppend(BUCKET_ORDER[..k], [b], NonEmptyTest(job.buckets));
      ok := true;
      var gdf := job.buckets.Get(b);
      if |gdf| > 0 {
        assert NonEmptyPrefix(job.buckets, k + 1) == NonEmptyPrefix(job.buckets, k) + [b];
        WriteBucketsSnoc(Running(files0), job, NonEmptyPrefix(job.buckets, k), b);
        ok := SaveGdf(gdf, BucketPath(job.outputDir, b, job.ext), job.driver, job.encode);
        if !ok {
          StopIsFinal(job, k, files0, files);
        }
      } else {
        assert NonEmptyPrefix(job.buckets, k + 1) == NonEmptyPrefix(job.buckets, k);
      }
    }

    /** The five `if not gdf.empty: save_gdf(...)` statements, in their source order. */
    method SaveBuckets(job: Job) returns (status: Status)
      requires job.dirs == dirs
      modifies this`files
      ensures var run := WriteBuckets(Running(old(files)), job, NonEmptyPrefix(job.buckets, |BUCKET_ORDER|));
              && files == run.files
              && status == (if run.Running? then Done else WriteFailed(run.failedPath))
    {
      ghost var files0 := files;
      var k := 0;
      assert NonEmptyPrefix(job.buckets, k) == [];
      var ok;
      // points
      ok := SaveIfNonEmpty(job, k, files0);
      if !ok {
        return WriteFailed(BucketPath(job.outputDir, BUCKET_ORDER[k], job.ext));
      }
      k := k + 1;
      // lines
      ok := SaveIfNonEmpty(job, k, files0);
      if !ok {
        return WriteFailed(BucketPath(job.outputDir, BUCKET_ORDER[k], job.ext));
      }
      k := k + 1;
      // polygons
      ok := SaveIfNonEmpty(job, k, files0);
      if !ok {
        return WriteFailed(BucketPath(job.outputDir, BUCKET_ORDER[k], job.ext));
      }
      k := k + 1;
      // linear_rings
      ok := SaveIfNonEmpty(job, k, files0);
      if !ok {
        return WriteFailed(BucketPath(job.outputDir, BUCKET_ORDER[k], job.ext));
      }
      k := k + 1;
      // geometry_collections
      ok := SaveIfNonEmpty(job, k, files0);
      if !ok {
        return WriteFailed(BucketPath(job.outputDir, BUCKET_ORDER[k], job.ext));
      }
      k := k + 1;
      assert k == |BUCKET_ORDER|;
      return Done;
    }

    /** `save_geodataframes`. */
    method SaveGeoDataFrames(points: Table, lines: Table, polygons: Table, linearRings: Table, geometryCollections: Table,
                             outputDir: string, format: string, encode: Encoder) returns (status: Status)
      modifies this
      ensures Effect(State(), status)
              == SaveGeoDataFramesEffect(old(State()), Buckets(points, lines, polygons, linearRings, geometryCollections), outputDir, format, encode)
    {
      if format !in FORMAT_TO_DRIVER {
        return UnsupportedFormat(format);
      }
      var driver := FORMAT_TO_DRIVER[format];
      var made := MakeDirs(outputDir);
      if !made {
        return CannotCreateDirectory(outputDir);
      }
      var ext := FormatExtension(format);
      var job := Job(Buckets(points, lines, polygons, linearRings, geometryCollections), outputDir, dirs, ext, driver, encode);
      status := SaveBuckets(job);
    }

    /** `save_empty_layers`. */
    method SaveEmptyLayers(emptyLayers: seq<string>, outputDir: string) returns (status: Status)
      modifies this`files
      ensures Effect(State(), status) == SaveEmptyLayersEffect(old(State()), emptyLayers, outputDir)
    {
      if emptyLayers != [] {
        var path := ManifestPath(outputDir);
        if !(outputDir == [] || outputDir in dirs) || path in dirs {
          return WriteFailed(path);
        }
        files := files[path := JoinLines(emptyLayers)];
      }
      return Done;
    }
  }
}
