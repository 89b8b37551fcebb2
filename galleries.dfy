/**
 * The gallery data of the site build (`galleries.js`): for every visible gallery
 * entry whose folder exists, the folder's images in numeric order with their
 * dimensions and preview, the gallery's preview image and its display fields.
 * Portfolio galleries come first, then event galleries.
 */
module Galleries {
  import opened Common
  import opened Text
  import opened Json
  import opened FsTree
  import opened FileNames
  import opened Media
  import opened GalleryMeta
  import Sorting

  // ---- image numbers ----

  /** `getImageNumber`: the first run of digits in the name, read in decimal; 0 when there is none. */
  function GetImageNumber(fileName: string): (n: nat)
    ensures (forall k | 0 <= k < |fileName| :: !IsDigit(fileName[k])) ==> n == 0
  {
    match FirstDigitFrom(fileName, 0)
    case None => 0
    case Some(i) =>
      var e := RunEnd(fileName, i);
      DecimalValue(fileName[i..e])
  }

  /**
   * A number written out after a digit-free prefix, and not followed by another
   * digit, is the number the name is sorted by.
   */
  lemma ImageNumberOf(prefix: string, n: nat, suffix: string)
    requires forall k | 0 <= k < |prefix| :: !IsDigit(prefix[k])
    requires suffix != [] ==> !IsDigit(suffix[0])
    ensures GetImageNumber(prefix + NatToDecimal(n) + suffix) == n
  {
    var d := NatToDecimal(n);
    var s := prefix + d + suffix;
    var i := |prefix|;
    var e := |prefix| + |d|;
    assert s[i] == d[0];
    assert forall k | 0 <= k < i :: s[k] == prefix[k];
    assert FirstDigitFrom(s, 0) == Some(i);
    assert forall k | i <= k < e :: s[k] == d[k - i];
    assert e < |s| ==> s[e] == suffix[0];
    assert RunEnd(s, i) == e;
    assert s[i..e] == d;
  }

  /** The comparator `getImageNumber(a) - getImageNumber(b) <= 0`. */
  predicate ByNumber(a: string, b: string)
  {
    GetImageNumber(a) <= GetImageNumber(b)
  }

  lemma ByNumberIsTotalPreorder()
    ensures Sorting.TotalPreorder(ByNumber)
  {
  }

  // ---- images of a folder ----

  /** `getImageFiles`: the listed names that end in `.jpg`, `.jpeg` or `.png`, in any case, in listing order. */
  function GetImageFiles(folder: seq<Entry>): (files: seq<string>)
    ensures forall name :: name in files <==> name in Names(folder) && HasImageExt(name)
  {
    Sorting.FilterMembers(Names(folder), HasImageExt);
    Sorting.Filter(Names(folder), HasImageExt)
  }

  /** The image files sorted by number; files with the same number keep their listing order. */
  function SortedImages(folder: seq<Entry>): seq<string>
  {
    Sorting.SortBy(GetImageFiles(folder), ByNumber)
  }

  /** The sorted images are the folder's image files, each as often as listed, in non-decreasing number order. */
  lemma SortedImagesOrdered(folder: seq<Entry>)
    ensures multiset(SortedImages(folder)) == multiset(GetImageFiles(folder))
    ensures forall i, j | 0 <= i < j < |SortedImages(folder)| ::
      GetImageNumber(SortedImages(folder)[i]) <= GetImageNumber(SortedImages(folder)[j])
  {
    ByNumberIsTotalPreorder();
    Sorting.SortBySorted(GetImageFiles(folder), ByNumber);
  }

  /**
   * `getImageMeta`: the original's dimensions (an unreadable original makes the build
   * fail) and, when `<stem>_preview.webp` exists beside it and can be read, the
   * preview's dimensions and URL; otherwise the preview is null.
   */
  function GetImageMeta(folder: seq<Entry>, file: string, publicPath: string, codec: Codec): (r: Result<ImageRecord, string>)
    ensures r.Ok? <==> (match Find(folder, file) case Some(File(c)) => codec.measure(c).Some? case _ => false)
    ensures r.Ok? ==> r.value.url == publicPath
    ensures r.Ok? ==> (r.value.preview.Some? <==>
      (match Find(folder, PreviewKey(file)) case Some(File(c)) => codec.measure(c).Some? case _ => false))
    ensures r.Ok? && r.value.preview.Some? ==> r.value.preview.value.url == PreviewKey(publicPath)
  {
    match Find(folder, file)
    case Some(File(content)) =>
      (match codec.measure(content)
       case None => Err("unreadable image")
       case Some(d) => Ok(ImageRecord(publicPath, d.width, d.height, d.format, PreviewMeta(folder, file, publicPath, codec))))
    case _ => Err("EISDIR")
  }

  /** The preview half of `getImageMeta`: a missing preview, or one that cannot be read, is null. */
  function PreviewMeta(folder: seq<Entry>, file: string, publicPath: string, codec: Codec): Option<PreviewRecord>
  {
    match Find(folder, PreviewKey(file))
    case Some(File(content)) =>
      (match codec.measure(content)
       case Some(d) => Some(PreviewRecord(PreviewKey(publicPath), d.width, d.height, d.format))
       case None => None)
    case _ => None
  }

  /** `file => getImageMeta(join(folder, file), urlPrefix + file)`. */
  function MetaOf(folder: seq<Entry>, urlPrefix: string, codec: Codec): string -> Result<ImageRecord, string>
  {
    file => GetImageMeta(folder, file, urlPrefix + file, codec)
  }

  // ---- galleries ----

  datatype Kind = PortfolioKind | EventsKind

  function KindName(kind: Kind): string
  {
    if kind == PortfolioKind then "portfolio" else "events"
  }

  datatype Gallery =
    | PortfolioGallery(path: string, images: seq<ImageRecord>, title: Option<string>, description: string,
                       preview: Option<string>)
    | EventsGallery(path: string, images: seq<ImageRecord>, title: Option<string>, shortTitle: Option<string>,
                    description: string, location: string, date: Option<string>, preview: Option<string>)

  /** `entry.visible !== false`: only an explicit `false` hides a gallery. */
  predicate Visible(e: GalleryEntry)
  {
    e.visible != Some(JBool(false))
  }

  /** The gallery folder, when `content/<kind>/<folder>` exists and is a directory. */
  function FolderOf(kind: Kind, folder: string, content: seq<Entry>): Option<seq<Entry>>
  {
    match FindDir(content, KindName(kind))
    case None => None
    case Some(kindDir) => FindDir(kindDir, folder)
  }

  /** `/content/<kind>/<folder>/`: the public prefix of a gallery's files. */
  function UrlPrefix(kind: Kind, folder: string): string
  {
    "/content/" + KindName(kind) + "/" + folder + "/"
  }

  /** `a || ""` for an optional string. */
  function OrEmpty(s: Option<string>): (r: string)
    ensures Truthy(s) ==> r == s.value
    ensures !Truthy(s) ==> r == ""
  {
    if Truthy(s) then s.value else ""
  }

  /**
   * The gallery object pushed for an entry whose folder exists, given the sorted
   * image files and their records; events galleries carry the extra display fields.
   */
  function MakeGallery(kind: Kind, e: GalleryEntry, files: seq<string>, images: seq<ImageRecord>): (g: Gallery)
    ensures g.PortfolioGallery? <==> kind == PortfolioKind
    ensures g.path == "/" + e.folder + "/" && g.images == images && g.title == e.title
    ensures g.description == OrEmpty(e.description)
    ensures Truthy(e.preview) ==> g.preview == Some(UrlPrefix(kind, e.folder) + e.preview.value)
    ensures !Truthy(e.preview) && files != [] ==> g.preview == Some(UrlPrefix(kind, e.folder) + files[0])
    ensures !Truthy(e.preview) && files == [] ==> g.preview == None
    ensures g.EventsGallery? ==>
      && g.shortTitle == (if Truthy(e.shortTitle) then e.shortTitle else e.title)
      && g.location == OrEmpty(e.location)
      && g.date == (if Truthy(e.date) then e.date else None)
  {
    var prefix := UrlPrefix(kind, e.folder);
    var preview := if Truthy(e.preview) then Some(prefix + e.preview.value)
                   else if |files| > 0 then Some(prefix + files[0]) else None;
    match kind
    case PortfolioKind =>
      PortfolioGallery("/" + e.folder + "/", images, e.title, OrEmpty(e.description), preview)
    case EventsKind =>
      EventsGallery("/" + e.folder + "/", images, e.title,
        if Truthy(e.shortTitle) then e.shortTitle else e.title,
        OrEmpty(e.description), OrEmpty(e.location),
        if Truthy(e.date) then e.date else None, preview)
  }

  /**
   * The gallery of an entry whose folder exists: one record per image file, in
   * numeric order, each at `<urlPrefix><file>`; or the first image that cannot be read.
   */
  function GalleryFor(kind: Kind, e: GalleryEntry, folder: seq<Entry>, codec: Codec): (r: Result<Gallery, string>)
    ensures r.Ok? ==> r.value == MakeGallery(kind, e, SortedImages(folder), r.value.images)
    ensures r.Ok? ==> |r.value.images| == |SortedImages(folder)|
    ensures r.Ok? ==> forall i | 0 <= i < |r.value.images| ::
      r.value.images[i].url == UrlPrefix(kind, e.folder) + SortedImages(folder)[i]
    ensures r.Err? <==> exists i | 0 <= i < |SortedImages(folder)| ::
      GetImageMeta(folder, SortedImages(folder)[i], UrlPrefix(kind, e.folder) + SortedImages(folder)[i], codec).Err?
  {
    var files := SortedImages(folder);
    var f := MetaOf(folder, UrlPrefix(kind, e.folder), codec);
    match MapAll(files, f)
    case Err(err) => Err(err)
    case Ok(images) =>
      assert forall i | 0 <= i < |files| :: f(files[i]) == Ok(images[i]);
      Ok(MakeGallery(kind, e, files, images))
  }

  /** When no preview is named, the gallery preview is its first image's URL, or null without images. */
  lemma PreviewFallback(kind: Kind, e: GalleryEntry, folder: seq<Entry>, codec: Codec)
    requires GalleryFor(kind, e, folder, codec).Ok?
    requires !Truthy(e.preview)
    ensures var g := GalleryFor(kind, e, folder, codec).value;
      (g.images == [] ==> g.preview == None) &&
      (g.images != [] ==> g.preview == Some(g.images[0].url))
  {
  }

  /** An image URL names a file of the gallery folder with an image extension; the URLs are in numeric order. */
  lemma GalleryImagesOrdered(kind: Kind, e: GalleryEntry, folder: seq<Entry>, codec: Codec)
    requires GalleryFor(kind, e, folder, codec).Ok?
    ensures var g := GalleryFor(kind, e, folder, codec).value;
      forall i | 0 <= i < |g.images| ::
        exists file :: file in Names(folder) && HasImageExt(file) && g.images[i].url == UrlPrefix(kind, e.folder) + file
    ensures var g := GalleryFor(kind, e, folder, codec).value;
      forall i, j | 0 <= i < j < |g.images| ::
        GetImageNumber(SortedImages(folder)[i]) <= GetImageNumber(SortedImages(folder)[j])
  {
    var g := GalleryFor(kind, e, folder, codec).value;
    var files := SortedImages(folder);
    SortedImagesOrdered(folder);
    forall i | 0 <= i < |g.images|
      ensures exists file :: file in Names(folder) && HasImageExt(file) && g.images[i].url == UrlPrefix(kind, e.folder) + file
    {
      assert files[i] in multiset(files);
      assert files[i] in GetImageFiles(folder);
    }
  }

  /** The gallery of an entry, when its folder exists; `readdirSync` of a missing folder throws. */
  function GalleryOf(kind: Kind, content: seq<Entry>, codec: Codec): GalleryEntry -> Result<Gallery, string>
  {
    (e: GalleryEntry) =>
      match FolderOf(kind, e.folder, content)
      case None => Err("ENOENT")
      case Some(folder) => GalleryFor(kind, e, folder, codec)
  }

  /** `fs.existsSync(folderPath) && fs.lstatSync(folderPath).isDirectory()`. */
  function HasFolder(kind: Kind, content: seq<Entry>): GalleryEntry -> bool
  {
    (e: GalleryEntry) => FolderOf(kind, e.folder, content).Some?
  }

  /** The entries of a kind that appear: visible, and with an existing folder, in metadata order. */
  function Shown(kind: Kind, entries: seq<GalleryEntry>, content: seq<Entry>): (shown: seq<GalleryEntry>)
    ensures forall e :: e in shown <==> e in entries && Visible(e) && FolderOf(kind, e.folder, content).Some?
  {
    Sorting.FilterMembers(entries, Visible);
    Sorting.FilterMembers(Sorting.Filter(entries, Visible), HasFolder(kind, content));
    Sorting.Filter(Sorting.Filter(entries, Visible), HasFolder(kind, content))
  }

  /** The galleries of one kind, in metadata order, or the first failure. */
  function GalleriesOfKind(kind: Kind, entries: seq<GalleryEntry>, content: seq<Entry>, codec: Codec): Result<seq<Gallery>, string>
  {
    MapAll(Shown(kind, entries, content), GalleryOf(kind, content, codec))
  }

  /** `readGlobalMeta`: the parsed metadata file, or no galleries at all when it is missing. */
  function ReadGlobalMeta(stored: Option<GalleryMetadata>): (meta: GalleryMetadata)
    ensures stored.None? ==> meta.portfolio == [] && meta.events == []
  {
    if stored.Some? then stored.value else EMPTY_META
  }

  /** `getGalleries` as a value: the portfolio galleries, then the events galleries. */
  function Galleries(stored: Option<GalleryMetadata>, content: seq<Entry>, codec: Codec): Result<seq<Gallery>, string>
  {
    var meta := ReadGlobalMeta(stored);
    match GalleriesOfKind(PortfolioKind, meta.portfolio, content, codec)
    case Err(err) => Err(err)
    case Ok(portfolio) => Pushed(portfolio, GalleriesOfKind(EventsKind, meta.events, content, codec))
  }

  /** `galleries` with the new galleries pushed, or the error that stopped them. */
  function Pushed(galleries: seq<Gallery>, added: Result<seq<Gallery>, string>): Result<seq<Gallery>, string>
  {
    match added
    case Err(err) => Err(err)
    case Ok(gs) => Ok(galleries + gs)
  }

  /**
   * One kind's `filter(visible).forEach(…)`: every visible entry whose folder
   * exists pushes its gallery onto `galleries`; the first unreadable image aborts.
   */
  method CollectKind(kind: Kind, entries: seq<GalleryEntry>, content: seq<Entry>, codec: Codec, galleries: seq<Gallery>)
    returns (r: Result<seq<Gallery>, string>)
    ensures r == Pushed(galleries, GalleriesOfKind(kind, entries, content, codec))
  {
    var visible := Sorting.Filter(entries, Visible);
    r := Sorting.PushFiltered(visible, HasFolder(kind, content), GalleryOf(kind, content, codec), galleries);
  }

  /** `getGalleries`: collects the portfolio galleries, then the events galleries, into one array. */
  method GetGalleries(stored: Option<GalleryMetadata>, content: seq<Entry>, codec: Codec) returns (r: Result<seq<Gallery>, string>)
    ensures r == Galleries(stored, content, codec)
  {
    var meta := ReadGlobalMeta(stored);
    var galleries: seq<Gallery> := [];
    r := CollectKind(PortfolioKind, meta.portfolio, content, codec, galleries);
    assert r.Ok? ==> r.value == GalleriesOfKind(PortfolioKind, meta.portfolio, content, codec).value;
    if r.Err? {
      return;
    }
    galleries := r.value;
    r := CollectKind(EventsKind, meta.events, content, codec, galleries);
  }

  /** The galleries of one kind: one per shown entry, in metadata order, each built from its entry and folder. */
  lemma KindShape(kind: Kind, entries: seq<GalleryEntry>, content: seq<Entry>, codec: Codec)
    requires GalleriesOfKind(kind, entries, content, codec).Ok?
    ensures var shown := Shown(kind, entries, content);
      var gs := GalleriesOfKind(kind, entries, content, codec).value;
      && |gs| == |shown|
      && forall j | 0 <= j < |gs| ::
           GalleryFor(kind, shown[j], FolderOf(kind, shown[j].folder, content).value, codec) == Ok(gs[j])
  {
    var shown := Shown(kind, entries, content);
    var gs := GalleriesOfKind(kind, entries, content, codec).value;
    forall j | 0 <= j < |gs|
      ensures GalleryFor(kind, shown[j], FolderOf(kind, shown[j].folder, content).value, codec) == Ok(gs[j])
    {
      assert GalleryOf(kind, content, codec)(shown[j]) == Ok(gs[j]);
      assert shown[j] in shown;
    }
  }

  /** Every gallery of one kind has that kind. */
  lemma KindOfKind(kind: Kind, entries: seq<GalleryEntry>, content: seq<Entry>, codec: Codec)
    requires GalleriesOfKind(kind, entries, content, codec).Ok?
    ensures var gs := GalleriesOfKind(kind, entries, content, codec).value;
      |gs| == |Shown(kind, entries, content)| &&
      forall j | 0 <= j < |gs| :: gs[j].PortfolioGallery? <==> kind == PortfolioKind
  {
    KindShape(kind, entries, content, codec);
  }

  /** `getGalleries` returns the portfolio galleries first, then the events galleries. */
  lemma PortfolioBeforeEvents(stored: Option<GalleryMetadata>, content: seq<Entry>, codec: Codec)
    requires Galleries(stored, content, codec).Ok?
    ensures var meta := ReadGlobalMeta(stored);
      var gs := Galleries(stored, content, codec).value;
      var n := |Shown(PortfolioKind, meta.portfolio, content)|;
      && |gs| == n + |Shown(EventsKind, meta.events, content)|
      && (forall j | 0 <= j < n :: gs[j].PortfolioGallery?)
      && (forall j | n <= j < |gs| :: gs[j].EventsGallery?)
  {
    var meta := ReadGlobalMeta(stored);
    var p := GalleriesOfKind(PortfolioKind, meta.portfolio, content, codec).value;
    var e := GalleriesOfKind(EventsKind, meta.events, content, codec).value;
    KindOfKind(PortfolioKind, meta.portfolio, content, codec);
    KindOfKind(EventsKind, meta.events, content, codec);
    assert Galleries(stored, content, codec).value == p + e;
    SplitKinds(p, e);
  }

  /** Portfolio galleries followed by events galleries. */
  lemma SplitKinds(p: seq<Gallery>, e: seq<Gallery>)
    requires forall j | 0 <= j < |p| :: p[j].PortfolioGallery?
    requires forall j | 0 <= j < |e| :: e[j].EventsGallery?
    ensures forall j | 0 <= j < |p| :: (p + e)[j].PortfolioGallery?
    ensures forall j | |p| <= j < |p + e| :: (p + e)[j].EventsGallery?
  {
    forall j | |p| <= j < |p + e| ensures (p + e)[j].EventsGallery? {
      assert (p + e)[j] == e[j - |p|];
    }
  }

  /** Without a metadata file there are no galleries. */
  lemma NoMetadataNoGalleries(content: seq<Entry>, codec: Codec)
    ensures Galleries(None, content, codec) == Ok([])
  {
    assert ReadGlobalMeta(None) == GalleryMetadata([], []);
    assert Shown(PortfolioKind, [], content) == [];
    assert Shown(EventsKind, [], content) == [];
    assert GalleriesOfKind(PortfolioKind, [], content, codec) == Ok([]);
    assert GalleriesOfKind(EventsKind, [], content, codec) == Ok([]);
    assert Galleries(None, content, codec) == Pushed([], GalleriesOfKind(EventsKind, [], content, codec));
    var none: seq<Gallery> := [];
    assert none + none == none;
  }
}
