/**
 * One run of the R2 sync: compare the scanned originals with the stored
 * path-to-fingerprint state, upload every new or changed original together with its
 * WebP preview, delete every bucket key that is neither a scanned original nor the
 * preview of one, and only then persist the new state and the metadata index.
 * Any failed request or unreadable image aborts the run, and nothing is persisted.
 */
module R2Sync {
  import opened Common
  import opened Text
  import opened Json
  import opened FileNames
  import opened FsTree
  import opened Media
  import opened GalleryMeta
  import opened R2Store
  import Sorting

  /** The scan's `type`: a portfolio or events gallery image, or a standalone image. */
  datatype Category = PortfolioImage | EventsImage | StandaloneImage

  /**
   * A scanned original: its path relative to the content folder (the bucket key),
   * where it was found, its size-and-mtime fingerprint and its bytes.
   */
  datatype LocalFile = LocalFile(relativePath: string, category: Category, fingerprint: string, content: Bytes)

  datatype UploadItem = UploadItem(file: LocalFile, isNew: bool)

  /** What `processUpload` reports for one file. */
  datatype UploadResult = UploadResult(relativePath: string, isNew: bool, isProtected: bool)

  /** The figures of the closing report. */
  datatype Summary = Summary(
    uploaded: nat, deleted: nat, totalImages: nat,
    publicImages: nat, protectedImages: nat, concurrency: nat)

  /** `Math.max(4, os.cpus().length)`. */
  function Concurrency(cpus: nat): (c: nat)
    ensures c >= 4 && c >= cpus && (c == 4 || c == cpus)
  {
    Max(4, cpus)
  }

  /** `Math.min(concurrency, items.length)` workers: one per item up to the limit. */
  function WorkerCount(concurrency: nat, n: nat): (w: nat)
    ensures w <= n && w <= concurrency
    ensures concurrency >= 1 && n >= 1 ==> w >= 1
    ensures w == concurrency || w == n
  {
    Min(concurrency, n)
  }

  /**
   * `getContentType`: the MIME type of a file by its extension, compared after
   * lower-casing; an unknown or missing extension gives `application/octet-stream`.
   */
  function GetContentType(filePath: string): (ct: string)
    ensures ct in {"image/jpeg", "image/png", "image/webp", "application/octet-stream"}
  {
    ContentTypeOfExt(LowerExtName(filePath))
  }

  /** The type table of `getContentType`, keyed by lower-cased extension. */
  function ContentTypeOfExt(ext: string): string
  {
    if ext == ".jpg" || ext == ".jpeg" then "image/jpeg"
    else if ext == ".png" then "image/png"
    else if ext == ".webp" then "image/webp"
    else "application/octet-stream"
  }

  /**
   * The type of `dir/stem.ext` is decided by its own extension, whatever its case and
   * whatever the directory holds.
   */
  lemma ContentTypeOfFile(dir: string, stem: string, ext: string)
    requires '/' !in stem && '/' !in ext && stem != []
    requires |ext| >= 2 && ext[0] == '.' && '.' !in ext[1..]
    ensures GetContentType(dir + "/" + stem + ext) == ContentTypeOfExt(Lower(ext))
  {
    assert dir + "/" + stem + ext == dir + "/" + (stem + ext);
    BaseNameOfChild(dir, stem + ext);
    ExtNameOfStem(stem, ext);
  }

  /** `previewType`: standalone images are previewed like portfolio images. */
  function PreviewMode(c: Category): Mode
  {
    if c == EventsImage then Events else Portfolio
  }

  // ---- the diff ----

  function Paths(files: seq<LocalFile>): (r: seq<string>)
    ensures |r| == |files| && forall i | 0 <= i < |files| :: r[i] == files[i].relativePath
  {
    seq(|files|, i requires 0 <= i < |files| => files[i].relativePath)
  }

  /** `currentHash !== previousHash`: no stored hash, or a different one. */
  predicate Changed(f: LocalFile, state: JsObject<string>)
  {
    Get(state, f.relativePath) != Some(f.fingerprint)
  }

  /** `!previousHash`: no stored hash, or an empty one. */
  predicate IsNew(f: LocalFile, state: JsObject<string>)
  {
    var prev := Get(state, f.relativePath);
    prev.None? || prev.value == ""
  }

  /** The work list of the diff: every changed file, in scan order. */
  function UploadList(files: seq<LocalFile>, state: JsObject<string>): seq<UploadItem>
  {
    if files == [] then []
    else
      var f := files[|files| - 1];
      UploadList(files[..|files| - 1], state) +
        (if Changed(f, state) then [UploadItem(f, IsNew(f, state))] else [])
  }

  /** The new state: every scanned path with its current fingerprint, in scan order. */
  function StateOf(files: seq<LocalFile>): JsObject<string>
  {
    if files == [] then []
    else
      var f := files[|files| - 1];
      StateOf(files[..|files| - 1]) + [(f.relativePath, f.fingerprint)]
  }

  /** The records carried over: those of unchanged files that had one. */
  function Carried(files: seq<LocalFile>, state: JsObject<string>, metadata: JsObject<ImageRecord>): JsObject<ImageRecord>
  {
    if files == [] then []
    else
      var f := files[|files| - 1];
      var rec := Get(metadata, f.relativePath);
      Carried(files[..|files| - 1], state, metadata) +
        (if !Changed(f, state) && rec.Some? then [(f.relativePath, rec.value)] else [])
  }

  lemma {:induction false} GetAppend<V>(o: JsObject<V>, k: string, v: V, key: string)
    ensures Get(o + [(k, v)], key) == if Get(o, key).Some? then Get(o, key) else if key == k then Some(v) else None
    decreases |o|
  {
    if o != [] {
      assert (o + [(k, v)])[1..] == o[1..] + [(k, v)];
      GetAppend(o[1..], k, v, key);
    }
  }

  /** Setting a key an object does not have appends it. */
  lemma SetNewKeyAppends<V>(o: JsObject<V>, k: string, v: V)
    requires k !in KeysOf(o)
    ensures Set(o, k, v) == o + [(k, v)]
  {
    SetNewKeyAppendsRec(o, k, v);
  }

  lemma {:induction false} SetNewKeyAppendsRec<V>(o: JsObject<V>, k: string, v: V)
    requires k !in KeysOf(o)
    ensures Set(o, k, v) == o + [(k, v)]
    decreases |o|
  {
    if o != [] {
      assert KeysOf(o) == [o[0].0] + KeysOf(o[1..]);
      SetNewKeyAppendsRec(o[1..], k, v);
      assert o == [o[0]] + o[1..];
    }
  }

  lemma {:induction false} StateOfKeys(files: seq<LocalFile>)
    ensures KeysOf(StateOf(files)) == Paths(files)
    decreases |files|
  {
    if files != [] {
      var n := |files| - 1;
      StateOfKeys(files[..n]);
      assert Paths(files) == Paths(files[..n]) + [files[n].relativePath];
    }
  }

  lemma {:induction false} CarriedKeys(files: seq<LocalFile>, state: JsObject<string>, metadata: JsObject<ImageRecord>)
    ensures forall k | k in KeysOf(Carried(files, state, metadata)) :: k in Paths(files)
    decreases |files|
  {
    if files != [] {
      var n := |files| - 1;
      CarriedKeys(files[..n], state, metadata);
      var c := Carried(files[..n], state, metadata);
      var f := files[n];
      var rec := Get(metadata, f.relativePath);
      var extra: JsObject<ImageRecord> := if !Changed(f, state) && rec.Some? then [(f.relativePath, rec.value)] else [];
      assert Carried(files, state, metadata) == c + extra;
      assert KeysOf(c + extra) == KeysOf(c) + KeysOf(extra);
      assert Paths(files) == Paths(files[..n]) + [f.relativePath];
    }
  }

  /**
   * The diff loop of `main`: builds the work list, the new state and the carried
   * metadata, one scanned file at a time.
   */
  method Diff(files: seq<LocalFile>, state: JsObject<string>, metadata: JsObject<ImageRecord>)
    returns (toUpload: seq<UploadItem>, newState: JsObject<string>, newMetadata: JsObject<ImageRecord>)
    requires Distinct(Paths(files))
    ensures toUpload == UploadList(files, state)
    ensures newState == StateOf(files)
    ensures newMetadata == Carried(files, state, metadata)
  {
    toUpload, newState, newMetadata := [], [], [];
    for i := 0 to |files|
      invariant toUpload == UploadList(files[..i], state)
      invariant newState == StateOf(files[..i])
      invariant newMetadata == Carried(files[..i], state, metadata)
    {
      var f := files[i];
      var currentHash := f.fingerprint;
      var previousHash := Get(state, f.relativePath);
      assert files[..i + 1][..i] == files[..i];
      StateOfKeys(files[..i]);
      CarriedKeys(files[..i], state, metadata);
      assert f.relativePath !in Paths(files[..i]) by {
        assert Paths(files)[i] == f.relativePath;
        forall j | 0 <= j < i ensures Paths(files[..i])[j] != f.relativePath {
          assert Paths(files[..i])[j] == Paths(files)[j];
        }
      }
      SetNewKeyAppends(newState, f.relativePath, currentHash);
      newState := Set(newState, f.relativePath, currentHash);
      if previousHash != Some(currentHash) {
        toUpload := toUpload + [UploadItem(f, previousHash.None? || previousHash.value == "")];
      } else {
        var rec := Get(metadata, f.relativePath);
        if rec.Some? {
          SetNewKeyAppends(newMetadata, f.relativePath, rec.value);
          newMetadata := Set(newMetadata, f.relativePath, rec.value);
        }
      }
    }
    assert files[..|files|] == files;
  }

  /** The new state holds exactly the scanned paths, each with its current fingerprint; paths no longer scanned are dropped. */
  lemma {:induction false} NewStateExact(files: seq<LocalFile>, key: string)
    requires Distinct(Paths(files))
    ensures KeysOf(StateOf(files)) == Paths(files)
    ensures Get(StateOf(files), key) ==
      if key in Paths(files) then Some(files[IndexIn(Paths(files), key)].fingerprint) else None
    decreases |files|
  {
    StateOfKeys(files);
    if files != [] {
      var n := |files| - 1;
      var f := files[n];
      assert Paths(files) == Paths(files[..n]) + [f.relativePath];
      assert Distinct(Paths(files[..n])) by {
        forall i, j | 0 <= i < j < n ensures Paths(files[..n])[i] != Paths(files[..n])[j] {
          assert Paths(files)[i] != Paths(files)[j];
        }
      }
      NewStateExact(files[..n], key);
      var prev := StateOf(files[..n]);
      assert StateOf(files) == prev + [(f.relativePath, f.fingerprint)];
      GetAppend(prev, f.relativePath, f.fingerprint, key);
      StateOfKeys(files[..n]);
      GetSome(prev, key);
      if key in Paths(files[..n]) {
        IndexInPrefix(Paths(files), n, key);
      } else if key == f.relativePath {
        IndexInLast(Paths(files), key);
        assert Get(StateOf(files), key) == Some(f.fingerprint);
        assert Paths(files)[n] == key;
      } else {
        assert key !in Paths(files);
        assert Get(StateOf(files), key) == None;
      }
    }
  }

  /** The position of `x` in a sequence that holds it. */
  function IndexIn(s: seq<string>, x: string): (i: nat)
    requires x in s
    ensures i < |s| && s[i] == x && x !in s[..i]
  {
    if s[0] == x then 0
    else
      var j := IndexIn(s[1..], x);
      assert s[1..][..j] == s[1..j + 1];
      assert s[..j + 1] == [s[0]] + s[1..j + 1];
      j + 1
  }

  lemma IndexInPrefix(s: seq<string>, n: nat, x: string)
    requires n <= |s| && x in s[..n]
    ensures x in s && IndexIn(s, x) == IndexIn(s[..n], x)
  {
    var i := IndexIn(s, x);
    var j := IndexIn(s[..n], x);
    assert s[..n][j] == s[j] && s[..n][..j] == s[..j];
    assert forall m | 0 <= m < i :: s[m] != x by {
      forall m | 0 <= m < i ensures s[m] != x { assert s[m] == s[..i][m]; }
    }
    assert forall m | 0 <= m < j :: s[m] != x by {
      forall m | 0 <= m < j ensures s[m] != x { assert s[m] == s[..j][m]; }
    }
  }

  lemma IndexInLast(s: seq<string>, x: string)
    requires |s| >= 1 && s[|s| - 1] == x && Distinct(s)
    ensures IndexIn(s, x) == |s| - 1
  {
  }

  /** The work list holds exactly the changed files, each once, in scan order, and `isNew` holds exactly when no hash was stored. */
  lemma {:induction false} UploadListExact(files: seq<LocalFile>, state: JsObject<string>)
    ensures forall u | u in UploadList(files, state) :: u.file in files && Changed(u.file, state) && u.isNew == IsNew(u.file, state)
    ensures forall f | f in files && Changed(f, state) :: UploadItem(f, IsNew(f, state)) in UploadList(files, state)
    ensures |UploadList(files, state)| <= |files|
    decreases |files|
  {
    if files != [] {
      var n := |files| - 1;
      UploadListExact(files[..n], state);
      assert files == files[..n] + [files[n]];
      assert forall f | f in files :: f in files[..n] || f == files[n];
    }
  }

  /** A record is carried over for exactly the unchanged files that had one, and it is carried unchanged. */
  lemma {:induction false} CarriedExact(files: seq<LocalFile>, state: JsObject<string>, metadata: JsObject<ImageRecord>, key: string)
    requires Distinct(Paths(files))
    ensures Get(Carried(files, state, metadata), key) ==
      if key in Paths(files) && !Changed(files[IndexIn(Paths(files), key)], state) then Get(metadata, key) else None
    decreases |files|
  {
    if files != [] {
      var n := |files| - 1;
      var f := files[n];
      assert Paths(files) == Paths(files[..n]) + [f.relativePath];
      assert Distinct(Paths(files[..n])) by {
        forall i, j | 0 <= i < j < n ensures Paths(files[..n])[i] != Paths(files[..n])[j] {
          assert Paths(files)[i] != Paths(files)[j];
        }
      }
      CarriedExact(files[..n], state, metadata, key);
      var c := Carried(files[..n], state, metadata);
      var rec := Get(metadata, f.relativePath);
      if !Changed(f, state) && rec.Some? {
        GetAppend(c, f.relativePath, rec.value, key);
      } else {
        assert Carried(files, state, metadata) == c;
      }
      if key in Paths(files[..n]) {
        IndexInPrefix(Paths(files), n, key);
      } else if key == f.relativePath {
        IndexInLast(Paths(files), key);
        CarriedKeys(files[..n], state, metadata);
        GetSome(c, key);
        assert Paths(files)[n] == key;
      } else {
        assert key !in Paths(files);
      }
    }
  }

  // ---- uploads ----

  /** The metadata record of an uploaded original, once both images have been measured. */
  function UploadRecord(key: string, original: Dims, preview: Dims): (r: ImageRecord)
    ensures r.url == PublicUrl(key)
    ensures r.preview.Some? && r.preview.value.url == PublicUrl(PreviewKey(key))
    ensures r.width == original.width && r.height == original.height && r.format == original.format
    ensures r.preview.value.width == preview.width && r.preview.value.height == preview.height
  {
    ImageRecord(PublicUrl(key), original.width, original.height, original.format,
      Some(PreviewRecord(PublicUrl(PreviewKey(key)), preview.width, preview.height, preview.format)))
  }

  /** The preview bytes of a file, when sharp can encode it. */
  function PreviewBytes(codec: Codec, f: LocalFile): Option<Bytes>
  {
    codec.encodePreview(f.content, PreviewResize(PreviewMode(f.category)))
  }

  /** The record `processUpload` stores for `f`, or None when an image cannot be read or encoded. */
  function RecordOf(codec: Codec, f: LocalFile): Option<ImageRecord>
  {
    var d := codec.measure(f.content);
    var p := PreviewBytes(codec, f);
    if d.None? || p.None? then None
    else
      var pd := codec.measure(p.value);
      if pd.None? then None else Some(UploadRecord(f.relativePath, d.value, pd.value))
  }

  /** The original is stored under its path with its bytes and the type of its extension. */
  ghost predicate OriginalStored(bucket: map<string, StoredObject>, f: LocalFile)
  {
    OriginalBytesStored(bucket, f) && bucket[f.relativePath].contentType == GetContentType(f.relativePath)
  }

  ghost predicate OriginalBytesStored(bucket: map<string, StoredObject>, f: LocalFile)
  {
    f.relativePath in bucket && bucket[f.relativePath].body == f.content
  }

  /** The preview is stored under the preview key as WebP. */
  ghost predicate PreviewStored(bucket: map<string, StoredObject>, codec: Codec, f: LocalFile)
  {
    PreviewBytes(codec, f).Some? && PreviewKey(f.relativePath) in bucket &&
    bucket[PreviewKey(f.relativePath)] == StoredObject(PreviewBytes(codec, f).value, "image/webp")
  }

  /** The two keys one upload writes. */
  function KeysOfUpload(f: LocalFile): set<string>
  {
    {f.relativePath, PreviewKey(f.relativePath)}
  }

  /**
   * The image half of `processUpload`: measure the original, upload it, encode and
   * measure the preview, upload it. Returns the record to store, or the first failure,
   * with whatever was already uploaded left in place.
   */
  method UploadImages(f: LocalFile, bucket: Bucket, stats: Stats, codec: Codec)
    returns (outcome: Result<ImageRecord, string>)
    requires bucket.Valid()
    modifies bucket, stats
    ensures bucket.Valid()
    ensures Grown(bucket.objects, old(bucket.objects), KeysOfUpload(f))
    ensures RecordOf(codec, f).None? ==> outcome.Err?
    ensures outcome.Ok? ==> RecordOf(codec, f) == Some(outcome.value)
    ensures outcome.Ok? ==> PreviewStored(bucket.objects, codec, f)
    ensures outcome.Ok? && f.relativePath != PreviewKey(f.relativePath) ==> OriginalStored(bucket.objects, f)
    ensures outcome.Ok? ==> stats.putObject == old(stats.putObject) + 2
    ensures stats.deleteObject == old(stats.deleteObject) && stats.listObjects == old(stats.listObjects)
  {
    ghost var start := bucket.objects;
    GrownSame(start, KeysOfUpload(f));
    var originalDimensions := codec.measure(f.content);
    if originalDimensions.None? {
      return Err("unreadable image");
    }
    var originalKey := f.relativePath;
    var ok := UploadToR2(bucket, stats, originalKey, f.content, GetContentType(f.relativePath));
    if !ok {
      return Err("PutObject failed");
    }
    ghost var afterOriginal := bucket.objects;
    PutGrown(start, originalKey, afterOriginal[originalKey], KeysOfUpload(f));
    var previewBuffer := codec.encodePreview(f.content, PreviewResize(PreviewMode(f.category)));
    if previewBuffer.None? {
      return Err("preview encoding failed");
    }
    var previewDimensions := codec.measure(previewBuffer.value);
    if previewDimensions.None? {
      return Err("unreadable preview");
    }
    var previewKey := PreviewKey(f.relativePath);
    ok := UploadToR2(bucket, stats, previewKey, previewBuffer.value, "image/webp");
    if !ok {
      return Err("PutObject failed");
    }
    PutGrown(afterOriginal, previewKey, bucket.objects[previewKey], {previewKey});
    GrownStep(start, afterOriginal, bucket.objects, KeysOfUpload(f), {previewKey});
    assert previewKey != originalKey ==> bucket.objects[originalKey] == afterOriginal[originalKey];
    outcome := Ok(UploadRecord(originalKey, originalDimensions.value, previewDimensions.value));
  }

  /**
   * `processUpload`: upload the original and its preview, then record the metadata
   * and report whether the file's gallery is protected. A failure writes no record.
   */
  method ProcessUpload(item: UploadItem, metadata: JsObject<ImageRecord>, meta: GalleryMetadata,
                       bucket: Bucket, stats: Stats, codec: Codec)
    returns (outcome: Result<UploadResult, string>, metadata': JsObject<ImageRecord>)
    requires bucket.Valid()
    modifies bucket, stats
    ensures bucket.Valid()
    ensures Grown(bucket.objects, old(bucket.objects), KeysOfUpload(item.file))
    ensures outcome.Err? ==> metadata' == metadata
    ensures RecordOf(codec, item.file).None? ==> outcome.Err?
    ensures outcome.Ok? ==> (RecordOf(codec, item.file).Some? &&
      metadata' == Set(metadata, item.file.relativePath, RecordOf(codec, item.file).value))
    ensures outcome.Ok? ==> outcome.value == ResultOf(item, meta)
    ensures outcome.Ok? ==> PreviewStored(bucket.objects, codec, item.file)
    ensures outcome.Ok? && item.file.relativePath != PreviewKey(item.file.relativePath) ==>
      OriginalStored(bucket.objects, item.file)
    ensures outcome.Ok? ==> stats.putObject == old(stats.putObject) + 2
    ensures stats.deleteObject == old(stats.deleteObject) && stats.listObjects == old(stats.listObjects)
  {
    var f := item.file;
    metadata' := metadata;
    var images := UploadImages(f, bucket, stats, codec);
    if images.Err? {
      return Err(images.error), metadata';
    }
    var isProtected := IsProtectedGallery(f.relativePath, meta);
    metadata' := Set(metadata, f.relativePath, images.value);
    outcome := Ok(UploadResult(f.relativePath, item.isNew, isProtected));
  }

  function ResultOf(item: UploadItem, meta: GalleryMetadata): UploadResult
  {
    UploadResult(item.file.relativePath, item.isNew, IsProtectedGallery(item.file.relativePath, meta))
  }

  /** The reports of the uploads of `items`, in order. */
  function ResultsOf(items: seq<UploadItem>, meta: GalleryMetadata): (r: seq<UploadResult>)
    ensures |r| == |items|
  {
    if items == [] then []
    else ResultsOf(items[..|items| - 1], meta) + [ResultOf(items[|items| - 1], meta)]
  }

  /** The metadata after every upload of `items` has recorded its file, in order. */
  function Recorded(metadata: JsObject<ImageRecord>, items: seq<UploadItem>, codec: Codec): JsObject<ImageRecord>
    requires forall i | 0 <= i < |items| :: RecordOf(codec, items[i].file).Some?
  {
    if items == [] then metadata
    else
      var last := items[|items| - 1];
      Set(Recorded(metadata, items[..|items| - 1], codec), last.file.relativePath, RecordOf(codec, last.file).value)
  }

  /** An upload left the original's bytes and a preview in the bucket. */
  ghost predicate UploadedFile(bucket: map<string, StoredObject>, f: LocalFile)
  {
    f.relativePath in bucket && PreviewKey(f.relativePath) in bucket &&
    bucket[f.relativePath].body == f.content
  }

  /** Nothing outside `touched` differs between the two bucket states. */
  ghost predicate SameOutside(now: map<string, StoredObject>, before: map<string, StoredObject>, touched: set<string>)
  {
    forall k | k !in touched :: (k in now <==> k in before) && (k in now ==> now[k] == before[k])
  }

  /** The keys the uploads of `items` may write. */
  function TouchedBy(items: seq<UploadItem>): set<string>
  {
    set i, k | 0 <= i < |items| && k in KeysOfUpload(items[i].file) :: k
  }

  predicate DistinctFiles(items: seq<UploadItem>)
  {
    forall i, j | 0 <= i < j < |items| :: items[i].file.relativePath != items[j].file.relativePath
  }

  /**
   * The upload phase: `processInParallel` over the work list, drained one item at a
   * time through the shared index, so every item is taken exactly once. The first
   * failure rejects the whole phase.
   */
  method UploadAll(items: seq<UploadItem>, metadata: JsObject<ImageRecord>, meta: GalleryMetadata,
                   bucket: Bucket, stats: Stats, codec: Codec)
    returns (outcome: Result<seq<UploadResult>, string>, metadata': JsObject<ImageRecord>)
    requires bucket.Valid()
    requires DistinctFiles(items) && NoPreviewClash(items)
    modifies bucket, stats
    ensures bucket.Valid()
    ensures Grown(bucket.objects, old(bucket.objects), TouchedBy(items))
    ensures outcome.Ok? ==> ((forall i | 0 <= i < |items| :: RecordOf(codec, items[i].file).Some?) &&
      metadata' == Recorded(metadata, items, codec))
    ensures outcome.Ok? ==> outcome.value == ResultsOf(items, meta)
    ensures outcome.Ok? ==> forall i | 0 <= i < |items| :: UploadedFile(bucket.objects, items[i].file)
    ensures outcome.Ok? ==> stats.putObject == old(stats.putObject) + 2 * |items|
    ensures stats.deleteObject == old(stats.deleteObject) && stats.listObjects == old(stats.listObjects)
  {
    var results: seq<UploadResult> := [];
    metadata' := metadata;
    var index := 0;
    while index < |items|
      invariant 0 <= index <= |items|
      invariant bucket.Valid()
      invariant Grown(bucket.objects, old(bucket.objects), TouchedBy(items))
      invariant UploadedUpTo(items, index, bucket.objects, metadata, metadata', results, meta, codec)
      invariant stats.putObject == old(stats.putObject) + 2 * index
      invariant stats.deleteObject == old(stats.deleteObject) && stats.listObjects == old(stats.listObjects)
    {
      var r, m := UploadNext(items, index, metadata, metadata', results, meta, bucket, stats, codec, old(bucket.objects));
      if r.Err? {
        return Err(r.error), metadata';
      }
      results := results + [r.value];
      metadata' := m;
      index := index + 1;
    }
    assert items[..index] == items;
    outcome := Ok(results);
  }

  /** One turn of a worker in the upload phase: `processUpload` of the next item. */
  method UploadNext(items: seq<UploadItem>, index: nat, metadata: JsObject<ImageRecord>, md: JsObject<ImageRecord>,
                    results: seq<UploadResult>, meta: GalleryMetadata, bucket: Bucket, stats: Stats, codec: Codec,
                    ghost start: map<string, StoredObject>)
    returns (r: Result<UploadResult, string>, md': JsObject<ImageRecord>)
    requires index < |items| && DistinctFiles(items) && NoPreviewClash(items)
    requires bucket.Valid() && Grown(bucket.objects, start, TouchedBy(items))
    requires UploadedUpTo(items, index, bucket.objects, metadata, md, results, meta, codec)
    modifies bucket, stats
    ensures bucket.Valid() && Grown(bucket.objects, start, TouchedBy(items))
    ensures r.Ok? ==> UploadedUpTo(items, index + 1, bucket.objects, metadata, md', results + [r.value], meta, codec)
    ensures r.Ok? ==> stats.putObject == old(stats.putObject) + 2
    ensures stats.deleteObject == old(stats.deleteObject) && stats.listObjects == old(stats.listObjects)
  {
    var item := items[index];
    ghost var before := bucket.objects;
    r, md' := ProcessUpload(item, md, meta, bucket, stats, codec);
    assert KeysOfUpload(item.file) <= TouchedBy(items);
    GrownStep(start, before, bucket.objects, TouchedBy(items), KeysOfUpload(item.file));
    if r.Ok? {
      UploadedUpToStep(items, index, before, bucket.objects, metadata, md, md', results, r.value, meta, codec);
    }
  }

  /**
   * The loop state of the upload phase after the first `index` items: each has a
   * record, the metadata and the reports are those of these uploads, and each file
   * and its preview are in the bucket.
   */
  ghost predicate UploadedUpTo(items: seq<UploadItem>, index: nat, bucket: map<string, StoredObject>,
                               metadata: JsObject<ImageRecord>, metadata': JsObject<ImageRecord>,
                               results: seq<UploadResult>, meta: GalleryMetadata, codec: Codec)
  {
    && index <= |items|
    && (forall i | 0 <= i < index :: RecordOf(codec, items[i].file).Some?)
    && metadata' == Recorded(metadata, items[..index], codec)
    && results == ResultsOf(items[..index], meta)
    && (forall i | 0 <= i < index :: UploadedFile(bucket, items[i].file))
  }

  /** One successful `processUpload` of `items[index]` extends the loop state by that item. */
  lemma UploadedUpToStep(items: seq<UploadItem>, index: nat, before: map<string, StoredObject>,
                         after: map<string, StoredObject>, metadata: JsObject<ImageRecord>,
                         md: JsObject<ImageRecord>, md': JsObject<ImageRecord>,
                         results: seq<UploadResult>, r: UploadResult, meta: GalleryMetadata, codec: Codec)
    requires index < |items| && DistinctFiles(items) && NoPreviewClash(items)
    requires UploadedUpTo(items, index, before, metadata, md, results, meta, codec)
    requires Grown(after, before, KeysOfUpload(items[index].file))
    requires RecordOf(codec, items[index].file).Some? &&
      md' == Set(md, items[index].file.relativePath, RecordOf(codec, items[index].file).value)
    requires r == ResultOf(items[index], meta)
    requires PreviewStored(after, codec, items[index].file)
    requires items[index].file.relativePath != PreviewKey(items[index].file.relativePath) ==>
      OriginalBytesStored(after, items[index].file)
    ensures UploadedUpTo(items, index + 1, after, metadata, md', results + [r], meta, codec)
  {
    assert items[..index + 1][..index] == items[..index];
    UploadedStep(items, index, before, after, codec);
  }

  /** After the upload of `items[index]`, every item up to and including it is in the bucket. */
  lemma UploadedStep(items: seq<UploadItem>, index: nat, before: map<string, StoredObject>,
                     after: map<string, StoredObject>, codec: Codec)
    requires index < |items| && DistinctFiles(items) && NoPreviewClash(items)
    requires forall i | 0 <= i < index :: UploadedFile(before, items[i].file)
    requires Grown(after, before, KeysOfUpload(items[index].file))
    requires PreviewStored(after, codec, items[index].file)
    requires items[index].file.relativePath != PreviewKey(items[index].file.relativePath) ==>
      OriginalBytesStored(after, items[index].file)
    ensures forall i | 0 <= i < index + 1 :: UploadedFile(after, items[i].file)
  {
    var f := items[index].file;
    forall i | 0 <= i < index + 1
      ensures UploadedFile(after, items[i].file)
    {
      if i < index {
        var g := items[i].file;
        assert g.relativePath != f.relativePath && g.relativePath != PreviewKey(f.relativePath);
      } else {
        assert f.relativePath != PreviewKey(f.relativePath);
      }
    }
  }

  /** `now` differs from `before` only at `touched` and has lost none of its keys. */
  ghost predicate Grown(now: map<string, StoredObject>, before: map<string, StoredObject>, touched: set<string>)
  {
    SameOutside(now, before, touched) && forall k | k in before :: k in now
  }

  lemma GrownStep(start: map<string, StoredObject>, before: map<string, StoredObject>, after: map<string, StoredObject>,
                  touched: set<string>, step: set<string>)
    requires step <= touched
    requires Grown(before, start, touched)
    requires Grown(after, before, step)
    ensures Grown(after, start, touched)
  {
  }

  /** A state has grown from itself. */
  lemma GrownSame(m: map<string, StoredObject>, touched: set<string>)
    ensures Grown(m, m, touched)
  {
  }

  /** Storing under a touched key grows the state. */
  lemma PutGrown(m: map<string, StoredObject>, key: string, obj: StoredObject, touched: set<string>)
    requires key in touched
    ensures Grown(m[key := obj], m, touched)
  {
  }

  /** No file of the work list is stored under the preview key of a file of the work list. */
  predicate NoPreviewClash(items: seq<UploadItem>)
  {
    forall i, j | 0 <= i < |items| && 0 <= j < |items| ::
      items[i].file.relativePath != PreviewKey(items[j].file.relativePath)
  }

  /** Files with an image extension never clash with preview keys, which end in `.webp`. */
  lemma ImageFilesNoPreviewClash(items: seq<UploadItem>)
    requires forall i | 0 <= i < |items| :: HasImageExt(items[i].file.relativePath)
    ensures NoPreviewClash(items)
  {
    forall i, j | 0 <= i < |items| && 0 <= j < |items|
      ensures items[i].file.relativePath != PreviewKey(items[j].file.relativePath)
    {
      PreviewKeyIsNotImage(items[j].file.relativePath);
    }
  }

  /** The scanned files of the work list are distinct, as the scanned paths are. */
  lemma {:induction false} UploadListDistinct(files: seq<LocalFile>, state: JsObject<string>)
    requires Distinct(Paths(files))
    ensures DistinctFiles(UploadList(files, state))
    decreases |files|
  {
    if files != [] {
      var n := |files| - 1;
      var pre := files[..n];
      var f := files[n];
      assert Distinct(Paths(pre)) by {
        forall i, j | 0 <= i < j < n ensures Paths(pre)[i] != Paths(pre)[j] {
          assert Paths(files)[i] != Paths(files)[j];
        }
      }
      UploadListDistinct(pre, state);
      UploadListExact(pre, state);
      var before := UploadList(pre, state);
      forall i | 0 <= i < |before| ensures before[i].file.relativePath != f.relativePath {
        assert before[i] in before;
        var m :| 0 <= m < n && pre[m] == before[i].file;
        assert Paths(files)[m] != Paths(files)[n];
      }
    }
  }

  /** The work list holds only scanned files, so it inherits their image extensions. */
  lemma UploadListNoPreviewClash(files: seq<LocalFile>, state: JsObject<string>)
    requires forall i | 0 <= i < |files| :: HasImageExt(files[i].relativePath)
    ensures NoPreviewClash(UploadList(files, state))
  {
    var items := UploadList(files, state);
    UploadListExact(files, state);
    forall i | 0 <= i < |items| ensures HasImageExt(items[i].file.relativePath) {
      assert items[i] in items;
    }
    ImageFilesNoPreviewClash(items);
  }

  // ---- orphans and deletion ----

  /** `localKeysWithPreviews`: every scanned key and the preview key of each. */
  function ExpectedKeys(files: seq<LocalFile>): set<string>
  {
    (set i | 0 <= i < |files| :: files[i].relativePath) + (set i | 0 <= i < |files| :: PreviewKey(files[i].relativePath))
  }

  /** `toDelete`: the listed keys that are not expected, in listing order. */
  function Orphans(listing: seq<string>, files: seq<LocalFile>): (r: seq<string>)
    ensures forall k :: k in r <==> k in listing && k !in ExpectedKeys(files)
    ensures forall i | 0 <= i < |files| :: files[i].relativePath !in r && PreviewKey(files[i].relativePath) !in r
  {
    var expected := ExpectedKeys(files);
    Sorting.FilterMembers(listing, k => k !in expected);
    Sorting.Filter(listing, k => k !in expected)
  }

  /** The stored keys that are neither a scanned original nor the preview of one. */
  function OrphanSet(objects: map<string, StoredObject>, files: seq<LocalFile>): set<string>
  {
    set k | k in objects && k !in ExpectedKeys(files)
  }

  /** Listing a bucket without repeats gives one orphan per stored orphan key. */
  lemma OrphansCount(listing: seq<string>, objects: map<string, StoredObject>, files: seq<LocalFile>)
    requires Distinct(listing) && forall k :: k in objects <==> k in listing
    ensures |Orphans(listing, files)| == |OrphanSet(objects, files)|
  {
    var r := Orphans(listing, files);
    OrphansDistinct(listing, files);
    DistinctCard(r);
    assert (set k | k in r) == OrphanSet(objects, files);
  }

  /** A bucket that holds only scanned originals and their previews has no orphans. */
  lemma SecondPassDeletesNothing(listing: seq<string>, objects: map<string, StoredObject>, files: seq<LocalFile>)
    requires forall k :: k in objects <==> k in listing
    requires forall k | k in objects :: k in ExpectedKeys(files)
    ensures Orphans(listing, files) == [] && OrphanSet(objects, files) == {}
  {
    assert forall k :: k !in OrphanSet(objects, files);
    var r := Orphans(listing, files);
    if r != [] {
      HeadIn(r);
      assert false;
    }
  }

  lemma HeadIn<T>(s: seq<T>)
    requires s != []
    ensures s[0] in s
  {
  }

  /** The uploads of a pass write only expected keys. */
  lemma TouchedExpected(files: seq<LocalFile>, state: JsObject<string>)
    ensures TouchedBy(UploadList(files, state)) <= ExpectedKeys(files)
  {
    var items := UploadList(files, state);
    UploadListExact(files, state);
    forall k | k in TouchedBy(items) ensures k in ExpectedKeys(files) {
      var i, k' :| 0 <= i < |items| && k' in KeysOfUpload(items[i].file) && k' == k;
      assert items[i] in items;
      var m :| 0 <= m < |files| && files[m] == items[i].file;
    }
  }

  /** Writing expected keys only leaves the orphans as they were. */
  lemma OrphanSetGrown(now: map<string, StoredObject>, before: map<string, StoredObject>,
                       touched: set<string>, files: seq<LocalFile>)
    requires Grown(now, before, touched) && touched <= ExpectedKeys(files)
    ensures OrphanSet(now, files) == OrphanSet(before, files)
  {
  }

  /** The orphans keep the listing's order and, like the listing, hold no key twice. */
  lemma {:induction false} OrphansDistinct(listing: seq<string>, files: seq<LocalFile>)
    requires Distinct(listing)
    ensures Distinct(Orphans(listing, files))
    decreases |listing|
  {
    if listing != [] {
      var expected := ExpectedKeys(files);
      var p := (k: string) => k !in expected;
      assert Distinct(listing[1..]) by {
        forall i, j | 0 <= i < j < |listing| - 1 ensures listing[1..][i] != listing[1..][j] {
          assert listing[i + 1] != listing[j + 1];
        }
      }
      OrphansDistinct(listing[1..], files);
      assert Orphans(listing[1..], files) == Sorting.Filter(listing[1..], p);
      if p(listing[0]) {
        assert listing[0] !in listing[1..] by {
          forall j | 0 <= j < |listing| - 1 ensures listing[1..][j] != listing[0] {
            assert listing[j + 1] != listing[0];
          }
        }
        assert Orphans(listing, files) == [listing[0]] + Sorting.Filter(listing[1..], p);
      } else {
        assert Orphans(listing, files) == Sorting.Filter(listing[1..], p);
      }
    }
  }

  /**
   * The delete phase: `processInParallel` over the orphans with `deleteFromR2`. Only
   * the given keys can disappear; when every request succeeds all of them are gone,
   * one DeleteObject each. The first failure aborts the phase.
   */
  method DeleteAll(keys: seq<string>, bucket: Bucket, stats: Stats) returns (ok: bool)
    requires bucket.Valid()
    modifies bucket, stats
    ensures bucket.Valid()
    ensures SameOutside(bucket.objects, old(bucket.objects), set k | k in keys)
    ensures forall k | k in bucket.objects :: k in old(bucket.objects)
    ensures ok ==> forall k | k in keys :: k !in bucket.objects
    ensures ok ==> stats.deleteObject == old(stats.deleteObject) + |keys|
    ensures stats.putObject == old(stats.putObject) && stats.listObjects == old(stats.listObjects)
    ensures stats.bytesUploaded == old(stats.bytesUploaded)
  {
    for i := 0 to |keys|
      invariant bucket.Valid()
      invariant SameOutside(bucket.objects, old(bucket.objects), set k | k in keys)
      invariant forall k | k in bucket.objects :: k in old(bucket.objects)
      invariant forall j | 0 <= j < i :: keys[j] !in bucket.objects
      invariant stats.deleteObject == old(stats.deleteObject) + i
      invariant stats.putObject == old(stats.putObject) && stats.listObjects == old(stats.listObjects)
      invariant stats.bytesUploaded == old(stats.bytesUploaded)
    {
      var deleted := DeleteFromR2(bucket, stats, keys[i]);
      if !deleted {
        return false;
      }
    }
    ok := true;
  }
}
