/**
 * `main` of the R2 sync: diff, upload, list, delete orphans, and only then persist
 * the state and metadata files and report. The persisted files are the fields of a
 * `LocalStore`, which a failed run leaves as they were.
 */
module SyncPass {
  import opened Common
  import opened Json
  import opened FileNames
  import opened Media
  import opened GalleryMeta
  import opened R2Store
  import opened R2Sync
  import Sorting

  /** The state file (path to fingerprint) and the metadata index; both start empty when missing. */
  class LocalStore {
    var state: JsObject<string>
    var metadata: JsObject<ImageRecord>

    constructor ()
      ensures state == [] && metadata == []
    {
      state := [];
      metadata := [];
    }
  }

  /** `protectedCount`: the metadata keys that lie in a protected gallery. */
  function CountProtected(keys: seq<string>, meta: GalleryMetadata): (n: nat)
    ensures n <= |keys|
  {
    |Sorting.Filter(keys, k => IsProtectedGallery(k, meta))|
  }

  /** The metadata a successful run persists. */
  function PassMetadata(files: seq<LocalFile>, state: JsObject<string>, metadata: JsObject<ImageRecord>, codec: Codec): JsObject<ImageRecord>
    requires forall u | u in UploadList(files, state) :: RecordOf(codec, u.file).Some?
  {
    var items := UploadList(files, state);
    assert forall i | 0 <= i < |items| :: RecordOf(codec, items[i].file).Some? by {
      forall i | 0 <= i < |items| ensures RecordOf(codec, items[i].file).Some? { assert items[i] in items; }
    }
    Recorded(Carried(files, state, metadata), items, codec)
  }

  /**
   * One run of the sync. Scanned files are given with distinct paths and an image
   * extension, as the scan produces them. On success the store holds the new state
   * and metadata, every original that changed is in the bucket with its preview,
   * and the bucket holds nothing but scanned originals and their previews. In every
   * case a scanned original or its preview that was in the bucket is still there.
   */
  method Sync(files: seq<LocalFile>, store: LocalStore, meta: GalleryMetadata,
              bucket: Bucket, stats: Stats, codec: Codec, cpus: nat)
    returns (outcome: Result<Summary, string>)
    requires bucket.Valid()
    requires Distinct(Paths(files))
    requires forall i | 0 <= i < |files| :: HasImageExt(files[i].relativePath)
    modifies store, bucket, stats
    ensures bucket.Valid()
    ensures outcome.Err? ==> store.state == old(store.state) && store.metadata == old(store.metadata)
    ensures outcome.Ok? ==> store.state == StateOf(files)
    ensures outcome.Ok? ==>
      (forall u | u in UploadList(files, old(store.state)) :: RecordOf(codec, u.file).Some?) &&
      store.metadata == PassMetadata(files, old(store.state), old(store.metadata), codec)
    ensures outcome.Ok? ==> forall u | u in UploadList(files, old(store.state)) :: UploadedFile(bucket.objects, u.file)
    ensures outcome.Ok? ==> forall k | k in bucket.objects :: k in ExpectedKeys(files)
    ensures forall k | k in old(bucket.objects) && k in ExpectedKeys(files) :: k in bucket.objects
    ensures outcome.Ok? ==> outcome.value.uploaded == |UploadList(files, old(store.state))|
    ensures outcome.Ok? ==> outcome.value.deleted == |OrphanSet(old(bucket.objects), files)|
    ensures outcome.Ok? ==> outcome.value.deleted == stats.deleteObject - old(stats.deleteObject)
    ensures outcome.Ok? ==> outcome.value.totalImages == |files|
    ensures outcome.Ok? ==> outcome.value.protectedImages == CountProtected(KeysOf(store.metadata), meta)
    ensures outcome.Ok? ==> outcome.value.publicImages + outcome.value.protectedImages == |KeysOf(store.metadata)|
    ensures outcome.Ok? ==> outcome.value.concurrency == Concurrency(cpus)
    ensures outcome.Ok? ==> stats.putObject == old(stats.putObject) + 2 * outcome.value.uploaded
  {
    var concurrency := Concurrency(cpus);
    var toUpload, newState, newMetadata := Diff(files, store.state, store.metadata);
    UploadListDistinct(files, store.state);
    UploadListNoPreviewClash(files, store.state);
    ghost var start := bucket.objects;
    var uploaded, allMetadata := UploadAll(toUpload, newMetadata, meta, bucket, stats, codec);
    if uploaded.Err? {
      return Err(uploaded.error);
    }
    ghost var afterUpload := bucket.objects;
    TouchedExpected(files, store.state);
    OrphanSetGrown(afterUpload, start, TouchedBy(toUpload), files);
    var cleaned, deletedCount := RemoveOrphans(files, bucket, stats);
    ExpectedSurvive(start, afterUpload, bucket.objects, files);
    if cleaned.Err? {
      return Err(cleaned.error);
    }
    UploadsSurvive(files, store.state, afterUpload, bucket.objects);
    store.state := newState;
    store.metadata := allMetadata;
    var protectedCount := CountProtected(KeysOf(allMetadata), meta);
    outcome := Ok(Summary(|toUpload|, deletedCount, |files|, |KeysOf(allMetadata)| - protectedCount,
                          protectedCount, concurrency));
  }

  /** The stored objects under `keys` that were there before are still there, unchanged. */
  ghost predicate KeptAt(now: map<string, StoredObject>, before: map<string, StoredObject>, keys: set<string>)
  {
    forall k | k in keys && k in before :: k in now && now[k] == before[k]
  }

  /**
   * The clean-up half of `main`: list the bucket, filter the listing down to the
   * orphans and delete them. Expected keys are never touched; on success only
   * expected keys remain, and one DeleteObject was counted per orphan.
   */
  method RemoveOrphans(files: seq<LocalFile>, bucket: Bucket, stats: Stats)
    returns (outcome: Result<(), string>, deletedCount: nat)
    requires bucket.Valid()
    modifies bucket, stats
    ensures bucket.Valid()
    ensures KeptAt(bucket.objects, old(bucket.objects), ExpectedKeys(files))
    ensures outcome.Ok? ==> forall k | k in bucket.objects :: k in ExpectedKeys(files)
    ensures outcome.Ok? ==> deletedCount == |Orphans(old(bucket.keys), files)|
    ensures outcome.Ok? ==> deletedCount == |OrphanSet(old(bucket.objects), files)|
    ensures outcome.Ok? ==> stats.deleteObject == old(stats.deleteObject) + deletedCount
    ensures stats.putObject == old(stats.putObject)
  {
    var listed, r2Objects := ListR2Objects(bucket, stats);
    if !listed {
      return Err("ListObjectsV2 failed"), 0;
    }
    var toDelete := Orphans(r2Objects, files);
    OrphansCount(r2Objects, bucket.objects, files);
    var deleted := DeleteAll(toDelete, bucket, stats);
    if !deleted {
      return Err("DeleteObject failed"), 0;
    }
    outcome, deletedCount := Ok(()), |toDelete|;
  }

  lemma ExpectedSurvive(start: map<string, StoredObject>, mid: map<string, StoredObject>,
                        end: map<string, StoredObject>, files: seq<LocalFile>)
    requires forall k | k in start :: k in mid
    requires KeptAt(end, mid, ExpectedKeys(files))
    ensures forall k | k in start && k in ExpectedKeys(files) :: k in end
  {
  }

  /** What the upload phase stored for the work list survives the clean-up. */
  lemma UploadsSurvive(files: seq<LocalFile>, state: JsObject<string>,
                       mid: map<string, StoredObject>, end: map<string, StoredObject>)
    requires var items := UploadList(files, state);
      forall i | 0 <= i < |items| :: UploadedFile(mid, items[i].file)
    requires KeptAt(end, mid, ExpectedKeys(files))
    ensures forall u | u in UploadList(files, state) :: UploadedFile(end, u.file)
  {
    var items := UploadList(files, state);
    UploadListExact(files, state);
    forall u | u in items ensures UploadedFile(end, u.file) {
      var i :| 0 <= i < |items| && items[i] == u;
      var m :| 0 <= m < |files| && files[m] == u.file;
      assert u.file.relativePath in ExpectedKeys(files);
      assert PreviewKey(u.file.relativePath) in ExpectedKeys(files);
    }
  }

  // ---- what a run persists ----

  /** Every upload records its own file, and a path no item uploads keeps its old record. */
  lemma {:induction false} RecordedGet(base: JsObject<ImageRecord>, items: seq<UploadItem>, codec: Codec, key: string)
    requires forall i | 0 <= i < |items| :: RecordOf(codec, items[i].file).Some?
    requires DistinctFiles(items)
    ensures forall j | 0 <= j < |items| :: Get(Recorded(base, items, codec), items[j].file.relativePath) == RecordOf(codec, items[j].file)
    ensures (forall j | 0 <= j < |items| :: items[j].file.relativePath != key) ==>
      Get(Recorded(base, items, codec), key) == Get(base, key)
    decreases |items|
  {
    if items != [] {
      var n := |items| - 1;
      var pre := items[..n];
      var last := items[n].file;
      RecordedGet(base, pre, codec, key);
      var r := Recorded(base, pre, codec);
      assert Recorded(base, items, codec) == Set(r, last.relativePath, RecordOf(codec, last).value);
      forall j | 0 <= j < |items|
        ensures Get(Recorded(base, items, codec), items[j].file.relativePath) == RecordOf(codec, items[j].file)
      {
        if j < n {
          RecordedGet(base, pre, codec, items[j].file.relativePath);
          assert pre[j] == items[j];
        }
      }
    }
  }

  /** A scanned file whose fingerprint matches the stored one is not uploaded again. */
  lemma {:induction false} UploadListNoneChanged(files: seq<LocalFile>, state: JsObject<string>)
    requires forall i | 0 <= i < |files| :: !Changed(files[i], state)
    ensures UploadList(files, state) == []
    decreases |files|
  {
    if files != [] {
      var n := |files| - 1;
      UploadListNoneChanged(files[..n], state);
    }
  }

  /** The state a run persists holds every scanned file's current fingerprint. */
  lemma {:induction false} StateOfIsCurrent(files: seq<LocalFile>)
    requires Distinct(Paths(files))
    ensures forall i | 0 <= i < |files| :: !Changed(files[i], StateOf(files))
  {
    forall i | 0 <= i < |files| ensures !Changed(files[i], StateOf(files)) {
      StateOfCurrentAt(files, i);
    }
  }

  lemma {:induction false} StateOfCurrentAt(files: seq<LocalFile>, i: nat)
    requires Distinct(Paths(files)) && i < |files|
    ensures Get(StateOf(files), files[i].relativePath) == Some(files[i].fingerprint)
    decreases |files|
  {
    var n := |files| - 1;
    var pre := files[..n];
    var key := files[i].relativePath;
    var f := files[n];
    assert StateOf(files) == StateOf(pre) + [(f.relativePath, f.fingerprint)];
    GetAppend(StateOf(pre), f.relativePath, f.fingerprint, key);
    assert Paths(files) == Paths(pre) + [f.relativePath];
    if i < n {
      assert Distinct(Paths(pre)) by {
        forall a, b | 0 <= a < b < n ensures Paths(pre)[a] != Paths(pre)[b] {
          assert Paths(files)[a] != Paths(files)[b];
        }
      }
      assert pre[i] == files[i];
      StateOfCurrentAt(pre, i);
    } else {
      StateOfKeys(pre);
      GetSome(StateOf(pre), key);
      forall m | 0 <= m < n ensures Paths(pre)[m] != key {
        assert Paths(files)[m] != Paths(files)[n];
      }
    }
  }

  /** A second run over the same files, after a successful one, uploads nothing. */
  lemma SecondPassUploadsNothing(files: seq<LocalFile>)
    requires Distinct(Paths(files))
    ensures UploadList(files, StateOf(files)) == []
  {
    StateOfIsCurrent(files);
    UploadListNoneChanged(files, StateOf(files));
  }

  /**
   * A second run over the same files keeps the record of every scanned path, as it
   * was, and drops the record of every path no longer scanned.
   */
  lemma SecondPassKeepsRecords(files: seq<LocalFile>, metadata: JsObject<ImageRecord>, codec: Codec, key: string)
    requires Distinct(Paths(files))
    ensures UploadList(files, StateOf(files)) == []
    ensures Get(PassMetadata(files, StateOf(files), metadata, codec), key) ==
      if key in Paths(files) then Get(metadata, key) else None
  {
    SecondPassUploadsNothing(files);
    StateOfIsCurrent(files);
    CarriedExact(files, StateOf(files), metadata, key);
    if key in Paths(files) {
      var k := IndexIn(Paths(files), key);
      assert !Changed(files[k], StateOf(files));
    }
  }

  /**
   * After a successful run every scanned path has a record, provided every file the
   * run finds unchanged already had one; records of paths no longer scanned are gone.
   */
  lemma ScannedPathsRecorded(files: seq<LocalFile>, state: JsObject<string>, metadata: JsObject<ImageRecord>,
                             codec: Codec, key: string)
    requires Distinct(Paths(files))
    requires forall u | u in UploadList(files, state) :: RecordOf(codec, u.file).Some?
    requires forall i | 0 <= i < |files| :: !Changed(files[i], state) ==> Get(metadata, files[i].relativePath).Some?
    ensures Get(PassMetadata(files, state, metadata, codec), key).Some? <==> key in Paths(files)
  {
    var items := UploadList(files, state);
    assert forall i | 0 <= i < |items| :: RecordOf(codec, items[i].file).Some? by {
      forall i | 0 <= i < |items| ensures RecordOf(codec, items[i].file).Some? { assert items[i] in items; }
    }
    UploadListDistinct(files, state);
    UploadListExact(files, state);
    RecordedGet(Carried(files, state, metadata), items, codec, key);
    CarriedExact(files, state, metadata, key);
    if exists j | 0 <= j < |items| :: items[j].file.relativePath == key {
      var j :| 0 <= j < |items| && items[j].file.relativePath == key;
      assert items[j] in items;
      var m :| 0 <= m < |files| && files[m] == items[j].file;
      assert Paths(files)[m] == key;
    } else if key in Paths(files) {
      var k := IndexIn(Paths(files), key);
      assert !Changed(files[k], state);
    }
  }

  /**
   * Without that proviso the guarantee fails: an unchanged file whose record is
   * missing from the metadata index is neither uploaded nor given a record.
   */
  lemma UnchangedFileWithoutRecord(codec: Codec)
    ensures var f := LocalFile("images/1.jpg", StandaloneImage, "0a1b", []);
      var state := [(f.relativePath, f.fingerprint)];
      UploadList([f], state) == [] &&
      Get(PassMetadata([f], state, [], codec), f.relativePath) == None
  {
    var f := LocalFile("images/1.jpg", StandaloneImage, "0a1b", []);
    var state := [(f.relativePath, f.fingerprint)];
    assert [f][..0] == [];
    assert Get(state, f.relativePath) == Some(f.fingerprint);
    assert UploadList([f], state) == [];
    var none: JsObject<ImageRecord> := [];
    assert Get(none, f.relativePath) == None;
    assert Carried([f], state, []) == [];
  }
}
