/**
 * The R2 bucket seen through the S3 API calls the sync script makes, and the
 * script's operation counters. Every request may fail (a network or service
 * error); a failed request changes nothing. A listing returns at most 1000 keys
 * per page and a continuation token while keys remain.
 */
module R2Store {
  import opened Common
  import opened FsTree
  import opened Sorting

  /** ListObjectsV2 returns at most this many keys per request. */
  const PAGE_SIZE: nat := 1000

  datatype StoredObject = StoredObject(body: Bytes, contentType: string)

  /** Ascending code-point order, which for UTF-8 keys is the byte order ListObjectsV2 lists them in. */
  predicate Ascending(keys: seq<string>)
  {
    forall i, j | 0 <= i < j < |keys| :: StringLeq(keys[i], keys[j])
  }

  /** `keys` with every occurrence of `k` removed. */
  function Without(keys: seq<string>, k: string): (r: seq<string>)
    ensures forall x :: x in r <==> x in keys && x != k
    ensures Distinct(keys) ==> Distinct(r)
    ensures Ascending(keys) ==> Ascending(r)
  {
    if keys == [] then []
    else
      var rest := Without(keys[1..], k);
      assert forall x :: x in keys <==> x == keys[0] || x in keys[1..];
      assert Ascending(keys) ==> Ascending(keys[1..]) && forall x | x in rest :: StringLeq(keys[0], x) by {
        if Ascending(keys) {
          forall x | x in rest ensures StringLeq(keys[0], x) {
            var j :| 0 <= j < |keys| - 1 && keys[1..][j] == x;
            assert keys[j + 1] == x;
          }
        }
      }
      if keys[0] == k then rest
      else
        var r := [keys[0]] + rest;
        assert Distinct(keys) ==> keys[0] !in rest;
        assert Ascending(keys) ==> Ascending(r) by {
          if Ascending(keys) {
            forall i, j | 0 <= i < j < |r| ensures StringLeq(r[i], r[j]) {
              assert r[j] == rest[j - 1] && rest[j - 1] in rest;
              if i > 0 {
                assert r[i] == rest[i - 1];
              }
            }
          }
        }
        r
  }

  /** An ascending listing without repeats and a key: the listing with the key at its place. */
  function InsertKey(keys: seq<string>, k: string): (r: seq<string>)
    requires Distinct(keys) && Ascending(keys)
    ensures Distinct(r) && Ascending(r)
    ensures forall x :: x in r <==> x in keys || x == k
    ensures k in keys ==> r == keys
    decreases |keys|
  {
    if keys == [] then [k]
    else
      TailAscending(keys);
      if keys[0] == k then keys
      else if StringLeq(k, keys[0]) then
        InsertKeyFront(keys, k);
        [k] + keys
      else
        var rest := InsertKey(keys[1..], k);
        InsertKeyAfter(keys, k, rest);
        [keys[0]] + rest
  }

  lemma TailAscending(keys: seq<string>)
    requires keys != [] && Distinct(keys) && Ascending(keys)
    ensures Distinct(keys[1..]) && Ascending(keys[1..])
    ensures forall x | x in keys[1..] :: StringLeq(keys[0], x) && x != keys[0]
  {
    forall x | x in keys[1..] ensures StringLeq(keys[0], x) && x != keys[0] {
      var j :| 0 <= j < |keys| - 1 && keys[1..][j] == x;
      assert keys[j + 1] == x;
    }
  }

  /** A key before the first one goes in front. */
  lemma InsertKeyFront(keys: seq<string>, k: string)
    requires keys != [] && Distinct(keys) && Ascending(keys)
    requires k != keys[0] && StringLeq(k, keys[0])
    ensures Distinct([k] + keys) && Ascending([k] + keys)
    ensures k !in keys
  {
    var r := [k] + keys;
    forall j | 1 <= j < |r| ensures StringLeq(k, r[j]) && r[j] != k {
      assert r[j] == keys[j - 1];
      if j > 1 {
        assert StringLeq(keys[0], keys[j - 1]) && keys[0] != keys[j - 1];
        StringLeqTransitive(k, keys[0], keys[j - 1]);
        if keys[j - 1] == k {
          StringLeqAntisymmetric(k, keys[0]);
        }
      }
    }
    forall i, j | 0 <= i < j < |r| ensures StringLeq(r[i], r[j]) && r[i] != r[j] {
      if i > 0 {
        assert r[i] == keys[i - 1] && r[j] == keys[j - 1];
      }
    }
    forall j | 0 <= j < |keys| ensures keys[j] != k {
      assert r[j + 1] == keys[j];
    }
  }

  /** A key after the first one goes into the rest. */
  lemma InsertKeyAfter(keys: seq<string>, k: string, rest: seq<string>)
    requires keys != [] && Distinct(keys) && Ascending(keys)
    requires k != keys[0] && !StringLeq(k, keys[0])
    requires Distinct(rest) && Ascending(rest)
    requires forall x :: x in rest <==> x in keys[1..] || x == k
    ensures Distinct([keys[0]] + rest) && Ascending([keys[0]] + rest)
  {
    TailAscending(keys);
    StringLeqTotal(k, keys[0]);
    var r := [keys[0]] + rest;
    forall j | 1 <= j < |r| ensures StringLeq(keys[0], r[j]) && r[j] != keys[0] {
      assert r[j] == rest[j - 1] && rest[j - 1] in rest;
    }
    forall i, j | 0 <= i < j < |r| ensures StringLeq(r[i], r[j]) && r[i] != r[j] {
      if i > 0 {
        assert r[i] == rest[i - 1] && r[j] == rest[j - 1];
      }
    }
  }

  class Bucket {
    /** The stored keys, in ascending order as ListObjectsV2 returns them. */
    var keys: seq<string>
    var objects: map<string, StoredObject>

    ghost predicate Valid()
      reads this
    {
      Distinct(keys) && Ascending(keys) && forall k :: k in objects <==> k in keys
    }

    constructor ()
      ensures Valid() && keys == [] && objects == map[]
    {
      keys := [];
      objects := map[];
    }

    /** PutObject: stores `obj` under `key`, replacing an object already there. */
    method Put(key: string, obj: StoredObject) returns (ok: bool)
      requires Valid()
      modifies this
      ensures Valid()
      ensures ok ==> objects == old(objects)[key := obj]
      ensures ok ==> keys == InsertKey(old(keys), key)
      ensures !ok ==> objects == old(objects) && keys == old(keys)
    {
      ok := *;
      if ok {
        keys := InsertKey(keys, key);
        objects := objects[key := obj];
      }
    }

    /** DeleteObject: removes `key`; deleting a key that is not stored succeeds and changes nothing. */
    method Delete(key: string) returns (ok: bool)
      requires Valid()
      modifies this
      ensures Valid()
      ensures ok ==> objects == old(objects) - {key} && keys == Without(old(keys), key)
      ensures !ok ==> objects == old(objects) && keys == old(keys)
    {
      ok := *;
      if ok {
        keys := Without(keys, key);
        objects := objects - {key};
      }
    }

    /**
     * ListObjectsV2: the page of keys that starts at the continuation token (the
     * beginning when there is none), and the token of the next page when keys remain.
     * A token past the end of the listing is refused.
     */
    method ListPage(token: Option<nat>) returns (ok: bool, page: seq<string>, next: Option<nat>)
      requires Valid()
      ensures var start := if token.Some? then token.value else 0;
        ok ==> (start <= |keys| &&
          page == keys[start..Min(start + PAGE_SIZE, |keys|)] &&
          next == if start + PAGE_SIZE < |keys| then Some(start + PAGE_SIZE) else None)
    {
      var start := if token.Some? then token.value else 0;
      ok := *;
      if start > |keys| {
        ok := false;
      }
      if ok {
        var end := Min(start + PAGE_SIZE, |keys|);
        page := keys[start..end];
        next := if end < |keys| then Some(end) else None;
      } else {
        page, next := [], None;
      }
    }
  }

  /** The script's `stats` counters. */
  class Stats {
    var bytesUploaded: nat
    var putObject: nat
    var deleteObject: nat
    var listObjects: nat

    constructor ()
      ensures bytesUploaded == 0 && putObject == 0 && deleteObject == 0 && listObjects == 0
    {
      bytesUploaded, putObject, deleteObject, listObjects := 0, 0, 0, 0;
    }
  }

  /** `uploadToR2`: a PutObject, counted (with its size) only once it has succeeded. */
  method UploadToR2(bucket: Bucket, stats: Stats, key: string, body: Bytes, contentType: string) returns (ok: bool)
    requires bucket.Valid()
    modifies bucket, stats
    ensures bucket.Valid()
    ensures ok ==> bucket.objects == old(bucket.objects)[key := StoredObject(body, contentType)]
    ensures !ok ==> bucket.objects == old(bucket.objects)
    ensures stats.bytesUploaded == old(stats.bytesUploaded) + (if ok then |body| else 0)
    ensures stats.putObject == old(stats.putObject) + (if ok then 1 else 0)
    ensures stats.deleteObject == old(stats.deleteObject) && stats.listObjects == old(stats.listObjects)
  {
    ok := bucket.Put(key, StoredObject(body, contentType));
    if ok {
      stats.bytesUploaded := stats.bytesUploaded + |body|;
      stats.putObject := stats.putObject + 1;
    }
  }

  /** `deleteFromR2`: a DeleteObject, counted only once it has succeeded. */
  method DeleteFromR2(bucket: Bucket, stats: Stats, key: string) returns (ok: bool)
    requires bucket.Valid()
    modifies bucket, stats
    ensures bucket.Valid()
    ensures ok ==> bucket.objects == old(bucket.objects) - {key}
    ensures !ok ==> bucket.objects == old(bucket.objects)
    ensures stats.deleteObject == old(stats.deleteObject) + (if ok then 1 else 0)
    ensures stats.bytesUploaded == old(stats.bytesUploaded) && stats.putObject == old(stats.putObject)
    ensures stats.listObjects == old(stats.listObjects)
  {
    ok := bucket.Delete(key);
    if ok {
      stats.deleteObject := stats.deleteObject + 1;
    }
  }

  /** How many ListObjectsV2 requests a listing of `n` keys takes: one page even when empty. */
  function PageCount(n: nat): (r: nat)
    ensures r >= 1
    ensures n <= PAGE_SIZE ==> r == 1
  {
    if n <= PAGE_SIZE then 1 else 1 + PageCount(n - PAGE_SIZE)
  }

  /** The pages cover the listing, and one page fewer would not (an empty listing still takes one). */
  lemma {:induction false} PageCountCovers(n: nat)
    ensures PageCount(n) * PAGE_SIZE >= n
    ensures (PageCount(n) - 1) * PAGE_SIZE < n + (if n == 0 then PAGE_SIZE else 0)
    decreases n
  {
    if n > PAGE_SIZE {
      PageCountCovers(n - PAGE_SIZE);
    }
  }

  /**
   * `listR2Objects`: requests pages until no continuation token comes back and
   * returns the concatenation of their keys, which is the whole listing. A failed
   * request aborts the listing.
   */
  method ListR2Objects(bucket: Bucket, stats: Stats) returns (ok: bool, objects: seq<string>)
    requires bucket.Valid()
    modifies stats
    ensures ok ==> objects == bucket.keys
    ensures ok ==> stats.listObjects == old(stats.listObjects) + PageCount(|bucket.keys|)
    ensures stats.bytesUploaded == old(stats.bytesUploaded) && stats.putObject == old(stats.putObject)
    ensures stats.deleteObject == old(stats.deleteObject)
  {
    objects := [];
    var token: Option<nat> := None;
    var first := true;
    while first || token.Some?
      invariant |objects| <= |bucket.keys| && objects == bucket.keys[..|objects|]
      invariant first ==> objects == [] && token.None? && stats.listObjects == old(stats.listObjects)
      invariant token.Some? ==> token.value == |objects| < |bucket.keys|
      invariant !first && token.Some? ==>
        stats.listObjects + PageCount(|bucket.keys| - |objects|) == old(stats.listObjects) + PageCount(|bucket.keys|)
      invariant !first && token.None? ==>
        objects == bucket.keys && stats.listObjects == old(stats.listObjects) + PageCount(|bucket.keys|)
      invariant stats.bytesUploaded == old(stats.bytesUploaded) && stats.putObject == old(stats.putObject)
      invariant stats.deleteObject == old(stats.deleteObject)
      decreases |bucket.keys| - |objects| + (if first then 1 else 0)
    {
      var pageOk, page, next := bucket.ListPage(token);
      if !pageOk {
        return false, objects;
      }
      stats.listObjects := stats.listObjects + 1;
      objects := objects + page;
      token := next;
      first := false;
    }
    ok := true;
  }
}
