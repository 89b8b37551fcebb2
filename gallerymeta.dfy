/**
 * The gallery metadata (`{portfolio: [...], events: [...]}`), one entry per gallery
 * folder, and the rule that decides whether a content path belongs to a
 * password-protected gallery.
 */
module GalleryMeta {
  import opened Common
  import opened Text
  import opened Json

  /** A gallery entry; a field the JSON leaves out is None. */
  datatype GalleryEntry = GalleryEntry(
    folder: string,
    password: Option<Json>,
    visible: Option<Json>,
    title: Option<string>,
    shortTitle: Option<string>,
    description: Option<string>,
    location: Option<string>,
    date: Option<string>,
    preview: Option<string>)

  datatype GalleryMetadata = GalleryMetadata(portfolio: seq<GalleryEntry>, events: seq<GalleryEntry>)

  /** When the metadata file is missing. */
  const EMPTY_META := GalleryMetadata([], [])

  /** `entries.find(e => e.folder === folder)`: the first entry for the folder. */
  function FindGallery(entries: seq<GalleryEntry>, folder: string): (r: Option<GalleryEntry>)
    ensures r.Some? ==> r.value in entries && r.value.folder == folder
    ensures r.None? <==> forall i | 0 <= i < |entries| :: entries[i].folder != folder
  {
    if entries == [] then None
    else if entries[0].folder == folder then Some(entries[0])
    else
      var r := FindGallery(entries[1..], folder);
      assert r.None? ==> forall i | 1 <= i < |entries| :: entries[i].folder == entries[1..][i - 1].folder;
      r
  }

  /** The entry `find` returns is the first one for the folder. */
  lemma {:induction false} FindGalleryFirst(entries: seq<GalleryEntry>, folder: string)
    ensures var r := FindGallery(entries, folder);
      r.Some? ==> exists i | 0 <= i < |entries| :: (entries[i] == r.value &&
        forall j | 0 <= j < i :: entries[j].folder != folder)
    decreases |entries|
  {
    if entries != [] && entries[0].folder != folder {
      var r := FindGallery(entries, folder);
      FindGalleryFirst(entries[1..], folder);
      if r.Some? {
        var i :| 0 <= i < |entries[1..]| && entries[1..][i] == r.value &&
          forall j | 0 <= j < i :: entries[1..][j].folder != folder;
        assert entries[i + 1] == r.value;
        forall j | 0 <= j < i + 1 ensures entries[j].folder != folder {
          if j > 0 { assert entries[j] == entries[1..][j - 1]; }
        }
      }
    }
  }

  /** `password === true`: only the JSON value true protects a gallery. */
  predicate PasswordIsTrue(g: GalleryEntry)
  {
    g.password == Some(JBool(true))
  }

  /**
   * `isProtectedGallery(relativePath, galleryMeta)`: the first path segment picks the
   * list (events or portfolio), the second the folder; the gallery is protected when
   * the first entry for that folder has `password === true`.
   */
  function IsProtectedGallery(relativePath: string, meta: GalleryMetadata): bool
  {
    var parts := Split(relativePath, '/');
    if |parts| < 2 then false
    else if parts[0] == "events" then
      var g := FindGallery(meta.events, parts[1]);
      g.Some? && PasswordIsTrue(g.value)
    else if parts[0] == "portfolio" then
      var g := FindGallery(meta.portfolio, parts[1]);
      g.Some? && PasswordIsTrue(g.value)
    else false
  }

  /** The entry list a content kind selects. */
  function ListFor(kind: string, meta: GalleryMetadata): seq<GalleryEntry>
  {
    if kind == "events" then meta.events else if kind == "portfolio" then meta.portfolio else []
  }

  /** The first entry for `folder` exists and has password `true`. */
  predicate FirstEntryProtected(list: seq<GalleryEntry>, folder: string)
  {
    exists i | 0 <= i < |list| ::
      list[i].folder == folder && PasswordIsTrue(list[i]) &&
      forall j | 0 <= j < i :: list[j].folder != folder
  }

  /** `find` followed by `password === true` decides exactly `FirstEntryProtected`. */
  lemma FindGalleryProtectedIff(list: seq<GalleryEntry>, folder: string)
    ensures (var g := FindGallery(list, folder); g.Some? && PasswordIsTrue(g.value)) <==>
      FirstEntryProtected(list, folder)
  {
    var g := FindGallery(list, folder);
    FindGalleryFirst(list, folder);
    if FirstEntryProtected(list, folder) {
      var i :| 0 <= i < |list| && list[i].folder == folder && PasswordIsTrue(list[i]) &&
         forall j | 0 <= j < i :: list[j].folder != folder;
      var k :| 0 <= k < |list| && list[k] == g.value && forall j | 0 <= j < k :: list[j].folder != folder;
    }
  }

  /**
   * For a path `kind/folder/rest`, protection is decided by the first gallery entry
   * of that kind named `folder`, and holds exactly when its password is `true`.
   */
  lemma ProtectedIff(kind: string, folder: string, rest: seq<string>, meta: GalleryMetadata)
    requires '/' !in kind && '/' !in folder
    requires forall i | 0 <= i < |rest| :: '/' !in rest[i]
    ensures IsProtectedGallery(Join([kind, folder] + rest, "/"), meta) <==>
      (kind == "events" || kind == "portfolio") && FirstEntryProtected(ListFor(kind, meta), folder)
  {
    var parts := [kind, folder] + rest;
    forall i | 0 <= i < |parts| ensures '/' !in parts[i] {
      if i >= 2 { assert parts[i] == rest[i - 2]; }
    }
    SplitJoin(parts, '/');
    FindGalleryProtectedIff(ListFor(kind, meta), folder);
  }

  /** A path with no second segment, or whose first segment names no gallery kind, is never protected. */
  lemma UnprotectedShapes(relativePath: string, meta: GalleryMetadata)
    requires '/' !in relativePath ||
      (var parts := Split(relativePath, '/'); parts[0] != "events" && parts[0] != "portfolio")
    ensures !IsProtectedGallery(relativePath, meta)
  {
    if '/' !in relativePath {
      assert IndexOfChar(relativePath, '/') == None;
    }
  }
}
