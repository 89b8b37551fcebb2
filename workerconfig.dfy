/**
 * `generate-worker-config`: the image URLs of the password-protected galleries,
 * grouped by gallery folder and ordered by image number, and the rewrite of the
 * two object literals in the authentication worker (`functions/api/auth.js`) that
 * hold those URLs and the gallery passwords.
 */
module WorkerConfig {
  import opened Common
  import opened Text
  import opened Json
  import opened Media
  import opened GalleryMeta
  import Sorting
  import Galleries

  // ---- formatObjectAsMultiline ----

  const IGNORE_MARK := ", // #ignore"

  /** One property on its own line: the indentation, the quoted key, the compact value and the `#ignore` mark. */
  function PropertyLine(indent: nat, key: string, value: Json): string
  {
    Repeat(' ', indent) + Quote(key) + ": " + Stringify(value) + IGNORE_MARK
  }

  function PropertyLines(entries: JsObject<Json>, indent: nat): seq<string>
  {
    seq(|entries|, i requires 0 <= i < |entries| => PropertyLine(indent, entries[i].0, entries[i].1))
  }

  /** `formatObjectAsMultiline(obj, indent)`: `{}` for an empty object, otherwise one property per line. */
  function FormatObjectAsMultiline(obj: JsObject<Json>, indent: nat): (text: string)
    ensures obj == [] <==> text == "{}"
    ensures obj != [] ==> |text| >= 4 && text[..2] == "{\n" && text[|text| - 2..] == "\n}"
  {
    var entries := PropertyOrder(obj);
    assert |entries| == |multiset(obj)|;
    if |entries| == 0 then "{}"
    else "{\n" + Join(PropertyLines(entries, indent), "\n") + "\n}"
  }

  lemma NoLineBreak(s: string)
    requires NoControlChars(s)
    ensures '\n' !in s
  {
    forall i | 0 <= i < |s| ensures s[i] != '\n' {
      assert (s[i] as int) >= 0x20;
    }
  }

  lemma PropertyLineHasNoLineBreak(indent: nat, key: string, value: Json)
    ensures '\n' !in PropertyLine(indent, key, value)
  {
    var pad := Repeat(' ', indent);
    assert NoControlChars(pad);
    ScalarNoControlChars(JString(key));
    StringifyHasNoControlChars(value);
    LineOfPlainParts(pad, Quote(key), Stringify(value));
  }

  /** A property line built from parts without control characters has no line break. */
  lemma LineOfPlainParts(pad: string, quoted: string, value: string)
    requires NoControlChars(pad) && NoControlChars(quoted) && NoControlChars(value)
    ensures '\n' !in pad + quoted + ": " + value + IGNORE_MARK
  {
    BracketNoControlChars(pad, quoted, ": ");
    BracketNoControlChars(pad + quoted + ": ", value, IGNORE_MARK);
    NoLineBreak(pad + quoted + ": " + value + IGNORE_MARK);
  }

  lemma {:induction false} JoinSnoc(parts: seq<string>, last: string, sep: string)
    requires |parts| >= 1
    ensures Join(parts + [last], sep) == Join(parts, sep) + sep + last
    decreases |parts|
  {
    if |parts| > 1 {
      assert (parts + [last])[1..] == parts[1..] + [last];
      JoinSnoc(parts[1..], last, sep);
    }
  }

  /**
   * The multi-line layout reads back line by line: the opening brace, one line per
   * property in enumeration order, and the closing brace.
   */
  lemma MultilineLayout(obj: JsObject<Json>, indent: nat)
    requires obj != []
    ensures Split(FormatObjectAsMultiline(obj, indent), '\n') ==
      ["{"] + PropertyLines(PropertyOrder(obj), indent) + ["}"]
  {
    var entries := PropertyOrder(obj);
    assert |entries| == |multiset(obj)|;
    LinesHaveNoBreak(entries, indent);
    BracedLines(PropertyLines(entries, indent));
  }

  /** Lines without breaks, between `{` and `}` and joined by breaks, split back into those lines. */
  lemma BracedLines(lines: seq<string>)
    requires lines != [] && forall i | 0 <= i < |lines| :: '\n' !in lines[i]
    ensures Split("{\n" + Join(lines, "\n") + "\n}", '\n') == ["{"] + lines + ["}"]
  {
    var all := ["{"] + lines + ["}"];
    BracedJoin(lines);
    forall i | 0 <= i < |all| ensures '\n' !in all[i] {
      if 0 < i < |all| - 1 {
        assert all[i] == lines[i - 1];
      }
    }
    SplitJoin(all, '\n');
  }

  /** Lines between a `{` line and a `}` line, joined by line breaks. */
  lemma BracedJoin(lines: seq<string>)
    requires lines != []
    ensures Join(["{"] + lines + ["}"], "\n") == "{\n" + Join(lines, "\n") + "\n}"
  {
    JoinSnoc(["{"] + lines, "}", "\n");
    assert (["{"] + lines)[1..] == lines;
  }

  lemma LinesHaveNoBreak(entries: JsObject<Json>, indent: nat)
    ensures forall i | 0 <= i < |entries| :: '\n' !in PropertyLines(entries, indent)[i]
  {
    forall i | 0 <= i < |entries| ensures '\n' !in PropertyLines(entries, indent)[i] {
      PropertyLineHasNoLineBreak(indent, entries[i].0, entries[i].1);
    }
  }

  // ---- loadGalleryPasswords ----

  /** One entry of the passwords file: a gallery folder and its password. */
  datatype PasswordEntry = PasswordEntry(folder: string, password: Json)

  /** The object after `passwordMap[entry.folder] = entry.password` for each entry in turn. */
  function PasswordMap(entries: seq<PasswordEntry>): JsObject<Json>
  {
    if entries == [] then []
    else
      var n := |entries| - 1;
      Set(PasswordMap(entries[..n]), entries[n].folder, entries[n].password)
  }

  /** What `loadGalleryPasswords` returns: an empty object when the passwords file is missing. */
  function PasswordsOf(file: Option<seq<PasswordEntry>>): JsObject<Json>
  {
    if file.Some? then PasswordMap(file.value) else []
  }

  /** `loadGalleryPasswords`. */
  method LoadGalleryPasswords(file: Option<seq<PasswordEntry>>) returns (passwords: JsObject<Json>)
    ensures passwords == PasswordsOf(file)
    ensures file.None? ==> passwords == []
  {
    passwords := [];
    if file.Some? {
      var entries := file.value;
      for i := 0 to |entries|
        invariant passwords == PasswordMap(entries[..i])
      {
        assert entries[..i + 1][..i] == entries[..i];
        passwords := Set(passwords, entries[i].folder, entries[i].password);
      }
      assert entries[..|entries|] == entries;
    }
  }

  /** A folder's password is the one of its last entry in the file. */
  lemma {:induction false} LastPasswordWins(entries: seq<PasswordEntry>, i: nat)
    requires i < |entries|
    requires forall j | i < j < |entries| :: entries[j].folder != entries[i].folder
    ensures Get(PasswordMap(entries), entries[i].folder) == Some(entries[i].password)
    decreases |entries|
  {
    var n := |entries| - 1;
    var pre := PasswordMap(entries[..n]);
    assert PasswordMap(entries) == Set(pre, entries[n].folder, entries[n].password);
    if i < n {
      assert entries[..n][i] == entries[i];
      LastPasswordWins(entries[..n], i);
      GetSetOther(pre, entries[n].folder, entries[n].password, entries[i].folder);
    }
  }

  lemma GetSetOther<V>(o: JsObject<V>, k: string, v: V, k': string)
    requires k' != k
    ensures Get(Set(o, k, v), k') == Get(o, k')
  {
  }

  /** A folder with no entry in the file has no password. */
  lemma {:induction false} NoEntryNoPassword(entries: seq<PasswordEntry>, folder: string)
    requires forall j | 0 <= j < |entries| :: entries[j].folder != folder
    ensures Get(PasswordMap(entries), folder) == None
    decreases |entries|
  {
    if entries != [] {
      var n := |entries| - 1;
      NoEntryNoPassword(entries[..n], folder);
    }
  }

  // ---- the order inside a gallery ----

  /** Whether `/(\d+)\.` matches at `p`: a slash, then a maximal run of digits, then a dot. */
  predicate NumberedAt(key: string, p: nat)
  {
    p + 1 < |key| && key[p] == '/' && IsDigit(key[p + 1]) &&
    RunEnd(key, p + 1) < |key| && key[RunEnd(key, p + 1)] == '.'
  }

  /** The leftmost position at or after `from` where `/(\d+)\.` matches. */
  function FirstNumbered(key: string, from: nat): (r: Option<nat>)
    ensures r.Some? ==> from <= r.value && NumberedAt(key, r.value)
    ensures r.Some? ==> forall k | from <= k < r.value :: !NumberedAt(key, k)
    ensures r.None? ==> forall k | from <= k :: !NumberedAt(key, k)
    decreases |key| - from
  {
    if from >= |key| then None
    else if NumberedAt(key, from) then Some(from)
    else FirstNumbered(key, from + 1)
  }

  /** `parseInt(key.match(/\/(\d+)\./)?.[1] || '0')`: the digits of the first match, 0 without one. */
  function SortNumber(key: string): (n: nat)
    ensures (forall k | 0 <= k < |key| :: !NumberedAt(key, k)) ==> n == 0
  {
    match FirstNumbered(key, 0)
    case None => 0
    case Some(p) => DecimalValue(key[p + 1..RunEnd(key, p + 1)])
  }

  /** No match starts inside a dot-free prefix that is followed by a slash. */
  lemma NoNumberInPrefix(prefix: string, tail: string, p: nat)
    requires '.' !in prefix
    requires tail != [] && tail[0] == '/'
    requires p < |prefix|
    ensures !NumberedAt(prefix + tail, p)
  {
    var key := prefix + tail;
    if p + 1 < |key| && IsDigit(key[p + 1]) {
      var e := RunEnd(key, p + 1);
      assert key[|prefix|] == '/';
      assert e <= |prefix|;
      assert e < |prefix| ==> key[e] == prefix[e] && prefix[e] in prefix;
    }
  }

  /**
   * The number written between the last slash and the extension is the one the
   * gallery is sorted by, as long as no dot comes before that slash.
   */
  lemma SortNumberOf(prefix: string, n: nat, ext: string)
    requires '.' !in prefix
    ensures SortNumber(prefix + "/" + NatToDecimal(n) + "." + ext) == n
  {
    var d := NatToDecimal(n);
    var tail := "/" + d + "." + ext;
    var key := prefix + tail;
    assert key == prefix + "/" + d + "." + ext;
    var p := |prefix|;
    forall k | 0 <= k < p ensures !NumberedAt(key, k) {
      NoNumberInPrefix(prefix, tail, k);
    }
    assert key[p..] == tail;
    assert tail[1..1 + |d|] == d && tail[1 + |d|] == '.';
    FirstNumberIs(key, p, d);
  }

  /** A `/<digits>.` at `p` with no match before it decides the sort number. */
  lemma FirstNumberIs(key: string, p: nat, d: string)
    requires p + 1 + |d| < |key| && d != [] && AllDigits(d)
    requires key[p..][0] == '/' && key[p..][1..1 + |d|] == d && key[p..][1 + |d|] == '.'
    requires forall k | 0 <= k < p :: !NumberedAt(key, k)
    ensures SortNumber(key) == DecimalValue(d)
  {
    var e := p + 1 + |d|;
    assert key[p + 1..e] == key[p..][1..1 + |d|];
    assert forall k | p + 1 <= k < e :: key[k] == d[k - p - 1];
    assert key[e] == '.';
    assert RunEnd(key, p + 1) == e;
    assert NumberedAt(key, p);
    assert FirstNumbered(key, 0) == Some(p);
  }

  /**
   * For a file `kind/folder/<n>.<ext>` the worker's order number agrees with the
   * number the gallery pages sort by, so both list a gallery in the same order.
   */
  lemma MatchesGalleryOrder(kind: string, folder: string, n: nat, ext: string)
    requires '.' !in kind && '.' !in folder
    ensures SortNumber(kind + "/" + folder + "/" + NatToDecimal(n) + "." + ext) == n
    ensures Galleries.GetImageNumber(NatToDecimal(n) + "." + ext) == n
  {
    var prefix := kind + "/" + folder;
    assert '.' !in prefix by {
      forall i | 0 <= i < |prefix| ensures prefix[i] != '.' {
        if i < |kind| { assert prefix[i] == kind[i] && kind[i] in kind; }
        else if i > |kind| { assert prefix[i] == folder[i - |kind| - 1] && folder[i - |kind| - 1] in folder; }
      }
    }
    SortNumberOf(prefix, n, ext);
    assert prefix + "/" + NatToDecimal(n) + "." + ext == kind + "/" + folder + "/" + NatToDecimal(n) + "." + ext;
    Galleries.ImageNumberOf("", n, "." + ext);
    EmptyStem(NatToDecimal(n), ext);
  }

  lemma EmptyStem(d: string, ext: string)
    ensures "" + d + ("." + ext) == d + "." + ext
  {
  }

  // ---- grouping the protected images ----

  /** An image on its way into a worker gallery; the key is kept for sorting only. */
  datatype Pending = Pending(key: string, url: string, preview: string)

  /** `{url, preview}`: one image of a worker gallery. */
  datatype WorkerImage = WorkerImage(url: string, preview: string)

  /** The gallery folder of a content path: its second segment. */
  function FolderOfKey(key: string): string
  {
    var parts := Split(key, '/');
    if |parts| >= 2 then parts[1] else ""
  }

  /** The image keys `generate` keeps: not a preview, in a protected gallery, at least three segments deep. */
  predicate Kept(meta: GalleryMetadata, key: string)
  {
    !Contains(key, "_preview") && IsProtectedGallery(key, meta) && |Split(key, '/')| >= 3
  }

  function KeepFor(meta: GalleryMetadata): ((string, ImageRecord)) -> bool
  {
    (e: (string, ImageRecord)) => Kept(meta, e.0)
  }

  /** `{key, url: data.url, preview: data.preview.url}`, which throws when the record has no preview. */
  function PendingOf(e: (string, ImageRecord)): Result<Pending, string>
  {
    if e.1.preview.None? then Err("Cannot read properties of undefined (reading 'url')")
    else Ok(Pending(e.0, e.1.url, e.1.preview.value.url))
  }

  function InFolder(folder: string): Pending -> bool
  {
    (x: Pending) => FolderOfKey(x.key) == folder
  }

  /** `galleries[folder].push(item)`, after creating the folder's array when it has none. */
  function Push(groups: JsObject<seq<Pending>>, item: Pending): JsObject<seq<Pending>>
  {
    var folder := FolderOfKey(item.key);
    var existing := Get(groups, folder);
    Set(groups, folder, (if existing.Some? then existing.value else []) + [item])
  }

  /** The groups after pushing each item in turn. */
  function GroupAll(items: seq<Pending>): JsObject<seq<Pending>>
  {
    if items == [] then []
    else
      var n := |items| - 1;
      Push(GroupAll(items[..n]), items[n])
  }

  /** The kept images of the metadata, in enumeration order, or the error of the first one without a preview. */
  function PendingItems(metadata: JsObject<ImageRecord>, meta: GalleryMetadata): Result<seq<Pending>, string>
  {
    MapAll(Sorting.Filter(PropertyOrder(metadata), KeepFor(meta)), PendingOf)
  }

  /** The grouping loop of `generate` as a value. */
  function Collected(metadata: JsObject<ImageRecord>, meta: GalleryMetadata): Result<JsObject<seq<Pending>>, string>
  {
    match PendingItems(metadata, meta)
    case Err(e) => Err(e)
    case Ok(items) => Ok(GroupAll(items))
  }

  /** Each group holds exactly the items of its folder, in the order they were pushed; a folder without items has no group. */
  lemma {:induction false} GroupAllGet(items: seq<Pending>, folder: string)
    ensures var inFolder := Sorting.Filter(items, InFolder(folder));
      Get(GroupAll(items), folder) == if inFolder == [] then None else Some(inFolder)
    decreases |items|
  {
    if items != [] {
      var n := |items| - 1;
      var pre := items[..n];
      var x := items[n];
      var g := GroupAll(pre);
      var inPre := Sorting.Filter(pre, InFolder(folder));
      var inAll := Sorting.Filter(items, InFolder(folder));
      GroupAllGet(pre, folder);
      assert Get(g, folder) == if inPre == [] then None else Some(inPre);
      Sorting.FilterSnoc(items, n, InFolder(folder));
      assert items[..n + 1] == items;
      assert GroupAll(items) == Push(g, x);
      if FolderOfKey(x.key) == folder {
        assert InFolder(folder)(x);
        assert inAll == inPre + [x];
        var existing := Get(g, folder);
        assert Get(Push(g, x), folder) == Some((if existing.Some? then existing.value else []) + [x]);
        assert (if existing.Some? then existing.value else []) == inPre;
      } else {
        assert !InFolder(folder)(x);
        assert inAll == inPre;
        assert Get(Push(g, x), folder) == Get(g, folder);
      }
    }
  }

  /** `Collected`, element by element: the items pushed so far, grouped, or the first error. */
  lemma CollectedByPushing(metadata: JsObject<ImageRecord>, meta: GalleryMetadata)
    ensures Collected(metadata, meta) ==
      match Sorting.PushAll(PropertyOrder(metadata), KeepFor(meta), PendingOf, [])
      case Err(e) => Err(e)
      case Ok(items) => Ok(GroupAll(items))
  {
    var items := PendingItems(metadata, meta);
    Sorting.PushAllIsFilterMap(PropertyOrder(metadata), KeepFor(meta), PendingOf, []);
    if items.Ok? {
      assert [] + items.value == items.value;
    }
  }

  /** One more entry: skipped when not kept, otherwise its item is pushed or its missing preview stops the loop. */
  lemma CollectStep(entries: seq<(string, ImageRecord)>, i: nat, meta: GalleryMetadata, pending: seq<Pending>)
    requires i < |entries|
    requires Sorting.PushAll(entries[..i], KeepFor(meta), PendingOf, []) == Ok(pending)
    ensures Sorting.PushAll(entries[..i + 1], KeepFor(meta), PendingOf, []) ==
      if !Kept(meta, entries[i].0) then Ok(pending)
      else if entries[i].1.preview.None? then Err("Cannot read properties of undefined (reading 'url')")
      else Ok(pending + [Pending(entries[i].0, entries[i].1.url, entries[i].1.preview.value.url)])
  {
    assert entries[..i + 1][..i] == entries[..i];
  }

  lemma GroupAllSnoc(items: seq<Pending>, item: Pending)
    ensures GroupAll(items + [item]) == Push(GroupAll(items), item)
  {
    assert (items + [item])[..|items|] == items;
  }

  /** The three `continue` tests of the loop: the gallery folder of a kept key, nothing for a skipped one. */
  method KeptFolder(meta: GalleryMetadata, key: string) returns (folder: Option<string>)
    ensures folder.Some? <==> Kept(meta, key)
    ensures folder.Some? ==> folder.value == FolderOfKey(key)
  {
    if Contains(key, "_preview") {
      return None;
    }
    if !IsProtectedGallery(key, meta) {
      return None;
    }
    var parts := Split(key, '/');
    if |parts| < 3 {
      return None;
    }
    return Some(parts[1]);
  }

  /** The loop at the heart of `generate`: keep, read and group the images of the protected galleries. */
  method CollectProtected(metadata: JsObject<ImageRecord>, meta: GalleryMetadata)
    returns (r: Result<JsObject<seq<Pending>>, string>)
    ensures r == Collected(metadata, meta)
  {
    CollectedByPushing(metadata, meta);
    r := CollectEntries(PropertyOrder(metadata), meta);
  }

  /** The `for (const [key, data] of Object.entries(metadata))` loop, over the entries in enumeration order. */
  method CollectEntries(entries: seq<(string, ImageRecord)>, meta: GalleryMetadata)
    returns (r: Result<JsObject<seq<Pending>>, string>)
    ensures r == match Sorting.PushAll(entries, KeepFor(meta), PendingOf, [])
      case Err(e) => Err(e)
      case Ok(items) => Ok(GroupAll(items))
  {
    var galleries: JsObject<seq<Pending>> := [];
    ghost var pending: seq<Pending> := [];
    for i := 0 to |entries|
      invariant Sorting.PushAll(entries[..i], KeepFor(meta), PendingOf, []) == Ok(pending)
      invariant galleries == GroupAll(pending)
    {
      CollectStep(entries, i, meta, pending);
      var (key, data) := entries[i];
      var folder := KeptFolder(meta, key);
      if folder.None? {
        continue;
      }
      if data.preview.None? {
        Sorting.PushAllErrExtends(entries, i + 1, KeepFor(meta), PendingOf, []);
        return Err("Cannot read properties of undefined (reading 'url')");
      }
      var existing := Get(galleries, folder.value);
      var items := if existing.Some? then existing.value else [];
      var item := Pending(key, data.url, data.preview.value.url);
      GroupAllSnoc(pending, item);
      pending := pending + [item];
      galleries := Set(galleries, folder.value, items + [item]);
    }
    assert entries[..|entries|] == entries;
    r := Ok(galleries);
  }

  // ---- sorting and projecting each gallery ----

  /** The comparator `aNum - bNum`. */
  predicate ByImageNumber(a: Pending, b: Pending)
  {
    SortNumber(a.key) <= SortNumber(b.key)
  }

  lemma ByImageNumberIsTotalPreorder()
    ensures Sorting.TotalPreorder(ByImageNumber)
  {
  }

  /** A gallery sorted by image number (stably) and projected to `{url, preview}`. */
  function Finish(items: seq<Pending>): seq<WorkerImage>
  {
    var sorted := Sorting.SortBy(items, ByImageNumber);
    seq(|sorted|, i requires 0 <= i < |sorted| => WorkerImage(sorted[i].url, sorted[i].preview))
  }

  /**
   * A finished gallery lists every item once, ascending by image number, and items
   * with the same number keep their order.
   */
  lemma FinishOrder(items: seq<Pending>, x: Pending)
    ensures var sorted := Sorting.SortBy(items, ByImageNumber);
      && multiset(sorted) == multiset(items)
      && (forall i, j | 0 <= i < j < |sorted| :: SortNumber(sorted[i].key) <= SortNumber(sorted[j].key))
      && Sorting.Filter(sorted, Sorting.EquivalentTo(ByImageNumber, x)) ==
         Sorting.Filter(items, Sorting.EquivalentTo(ByImageNumber, x))
      && |Finish(items)| == |items|
      && forall i | 0 <= i < |items| :: Finish(items)[i] == WorkerImage(sorted[i].url, sorted[i].preview)
  {
    var sorted := Sorting.SortBy(items, ByImageNumber);
    ByImageNumberIsTotalPreorder();
    Sorting.SortBySorted(items, ByImageNumber);
    Sorting.SortByStable(items, ByImageNumber, x);
    assert |sorted| == |multiset(items)|;
  }

  /** Every gallery finished, keys in place. */
  function FinishAll(groups: JsObject<seq<Pending>>): JsObject<seq<WorkerImage>>
  {
    MapValues(groups, Finish)
  }

  /** Each folder's finished list is its group sorted and projected; a folder without a group has none. */
  lemma GetFinishAll(groups: JsObject<seq<Pending>>, folder: string)
    ensures var g := Get(groups, folder);
      Get(FinishAll(groups), folder) == if g.Some? then Some(Finish(g.value)) else None
  {
    GetMapValues(groups, folder, Finish);
  }

  /** The second loop of `generate`: each gallery sorted and projected in place. */
  method OrderGalleries(groups: JsObject<seq<Pending>>) returns (galleries: JsObject<seq<WorkerImage>>)
    ensures galleries == FinishAll(groups)
    ensures KeysOf(galleries) == KeysOf(groups)
  {
    galleries := [];
    for k := 0 to |groups|
      invariant galleries == FinishAll(groups[..k])
    {
      MapValuesSnoc(groups, k, Finish);
      galleries := galleries + [(groups[k].0, Finish(groups[k].1))];
    }
    assert groups[..|groups|] == groups;
    MapValuesKeys(groups, Finish);
  }

  /** The worker galleries `generate` computes, or the error that stops it. */
  function WorkerGalleries(metadata: JsObject<ImageRecord>, meta: GalleryMetadata): Result<JsObject<seq<WorkerImage>>, string>
  {
    match Collected(metadata, meta)
    case Err(e) => Err(e)
    case Ok(groups) => Ok(FinishAll(groups))
  }

  /**
   * `generate` fails exactly when some kept image has no preview record.
   */
  lemma FailsOnMissingPreview(metadata: JsObject<ImageRecord>, meta: GalleryMetadata)
    ensures var entries := PropertyOrder(metadata);
      WorkerGalleries(metadata, meta).Err? <==>
        exists i | 0 <= i < |entries| :: Kept(meta, entries[i].0) && entries[i].1.preview.None?
  {
    MissingPreviewIn(PropertyOrder(metadata), meta);
  }

  /** Turning the kept entries into pending images fails exactly on a kept entry without a preview. */
  lemma MissingPreviewIn(entries: JsObject<ImageRecord>, meta: GalleryMetadata)
    ensures MapAll(Sorting.Filter(entries, KeepFor(meta)), PendingOf).Err? <==>
      exists i | 0 <= i < |entries| :: Kept(meta, entries[i].0) && entries[i].1.preview.None?
  {
    Sorting.FilterMapAllErr(entries, KeepFor(meta), PendingOf);
    assert forall i | 0 <= i < |entries| ::
      (KeepFor(meta)(entries[i]) && PendingOf(entries[i]).Err?) == (Kept(meta, entries[i].0) && entries[i].1.preview.None?);
  }

  /**
   * A worker gallery is exactly the kept images of its folder, sorted by image
   * number; a folder with no kept image gets no gallery.
   */
  lemma GalleryOfFolder(metadata: JsObject<ImageRecord>, meta: GalleryMetadata, folder: string)
    requires PendingItems(metadata, meta).Ok?
    ensures var inFolder := Sorting.Filter(PendingItems(metadata, meta).value, InFolder(folder));
      WorkerGalleries(metadata, meta).Ok? &&
      Get(WorkerGalleries(metadata, meta).value, folder) == if inFolder == [] then None else Some(Finish(inFolder))
  {
    var items := PendingItems(metadata, meta).value;
    GroupAllGet(items, folder);
    GetFinishAll(GroupAll(items), folder);
  }

  /**
   * Every image that reaches a worker gallery comes from a kept metadata entry:
   * not a preview, in a protected gallery, three segments deep, with the URLs of its record.
   */
  lemma OnlyProtectedImages(metadata: JsObject<ImageRecord>, meta: GalleryMetadata, j: nat)
    requires PendingItems(metadata, meta).Ok? && j < |PendingItems(metadata, meta).value|
    ensures var x := PendingItems(metadata, meta).value[j];
      Kept(meta, x.key) &&
      exists i | 0 <= i < |metadata| :: metadata[i].0 == x.key &&
        metadata[i].1.url == x.url && metadata[i].1.preview.Some? && metadata[i].1.preview.value.url == x.preview
  {
    var entries := PropertyOrder(metadata);
    var kept := Sorting.Filter(entries, KeepFor(meta));
    Sorting.FilterMembers(entries, KeepFor(meta));
    var x := PendingItems(metadata, meta).value[j];
    assert PendingOf(kept[j]) == Ok(x);
    assert kept[j] in kept;
    assert kept[j] in multiset(metadata);
    var i :| 0 <= i < |metadata| && metadata[i] == kept[j];
  }

  // ---- updateAuthJS ----

  const PASSWORDS_DECL := "const GALLERY_PASSWORDS = "
  const IMAGES_DECL := "const GALLERY_IMAGES = "
  const BLOCK_CLOSE := "};"

  /** `const NAME = <object>;`, the object laid out one property per line with an indent of two. */
  function Declaration(decl: string, obj: JsObject<Json>): string
  {
    decl + FormatObjectAsMultiline(obj, 2) + ";"
  }

  /**
   * Where `/<decl>\{[\s\S]*?\};/` matches: from the first `<decl>{` up to the first
   * `};` after it. Later occurrences of the opening cannot match either once the
   * first has no closing after it.
   */
  function BlockAt(content: string, open: string): (r: Option<(nat, nat)>)
    ensures r.Some? ==> var (s, e) := r.value;
      && OccursAt(content, open, s) && s + |open| + 2 <= e && OccursAt(content, BLOCK_CLOSE, e - 2)
      && (forall j | 0 <= j < s :: !OccursAt(content, open, j))
      && (forall j | s + |open| <= j < e - 2 :: !OccursAt(content, BLOCK_CLOSE, j))
    ensures r.None? ==> forall s, e | 0 <= s && s + |open| <= e ::
      !(OccursAt(content, open, s) && OccursAt(content, BLOCK_CLOSE, e))
  {
    match IndexOfFrom(content, open, 0)
    case None => None
    case Some(s) =>
      match IndexOfFrom(content, BLOCK_CLOSE, s + |open|)
      case None => None
      case Some(c) => Some((s, c + 2))
  }

  /** The first match of the block pattern replaced by `block` itself (the intended rewrite). */
  function ReplaceBlock(content: string, open: string, block: string): string
  {
    match BlockAt(content, open)
    case None => content
    case Some((s, e)) => content[..s] + block + content[e..]
  }

  /** The only `};` after the opening of `block` is its last two characters. */
  predicate ClosesOnlyAtEnd(block: string, open: string)
  {
    |open| + 2 <= |block| && OccursAt(block, open, 0) && OccursAt(block, BLOCK_CLOSE, |block| - 2) &&
    forall j | |open| <= j < |block| - 2 :: !OccursAt(block, BLOCK_CLOSE, j)
  }

  /** An opening that ends inside the new block reads the same as before the rewrite. */
  lemma OpeningBeforeBlock(content: string, open: string, block: string, s: nat, e: nat, j: nat)
    requires s + |open| <= e <= |content| && OccursAt(content, open, s)
    requires |open| <= |block| && OccursAt(block, open, 0)
    requires j < s
    ensures OccursAt(content[..s] + block + content[e..], open, j) ==> OccursAt(content, open, j)
  {
    var r := content[..s] + block + content[e..];
    if j + |open| <= |r| {
      forall k | j <= k < j + |open| ensures r[k] == content[k] {
        if k >= s {
          assert r[k] == block[k - s] == open[k - s] == content[k];
        }
      }
      assert j + |open| <= |content|;
      assert r[j..j + |open|] == content[j..j + |open|];
    }
  }

  /**
   * After the rewrite the pattern matches exactly the block that was written, when
   * that block holds no `};` before its end.
   */
  lemma ReplaceBlockFindsBlock(content: string, open: string, block: string)
    requires BlockAt(content, open).Some? && ClosesOnlyAtEnd(block, open)
    ensures var s := BlockAt(content, open).value.0;
      BlockAt(ReplaceBlock(content, open, block), open) == Some((s, s + |block|))
  {
    var (s, e) := BlockAt(content, open).value;
    var r := ReplaceBlock(content, open, block);
    var c := s + |block| - 2;
    RewrittenBounds(content, open, block, s, e, r, c);
    BlockAtFromBounds(r, open, s, s + |block|);
  }

  lemma BlockAtFromBounds(r: string, open: string, s: nat, e: nat)
    requires e >= 2 && IndexOfFrom(r, open, 0) == Some(s) && IndexOfFrom(r, BLOCK_CLOSE, s + |open|) == Some(e - 2)
    ensures BlockAt(r, open) == Some((s, e))
  {
  }

  /** Where the rewritten text has its first opening and the first `};` after it. */
  lemma RewrittenBounds(content: string, open: string, block: string, s: nat, e: nat, r: string, c: nat)
    requires BlockAt(content, open) == Some((s, e)) && ClosesOnlyAtEnd(block, open)
    requires r == ReplaceBlock(content, open, block) && c == s + |block| - 2
    ensures IndexOfFrom(r, open, 0) == Some(s)
    ensures IndexOfFrom(r, BLOCK_CLOSE, s + |open|) == Some(c)
  {
    ReplacedAt(content, open, block, s, e);
    FirstOpeningKept(content, open, block, s, e, r);
    FirstCloseAtEnd(content, open, block, s, e, r);
    BoundsFound(r, open, s, c);
  }

  /** The rewritten text around the block that was found. */
  lemma ReplacedAt(content: string, open: string, block: string, s: nat, e: nat)
    requires BlockAt(content, open) == Some((s, e))
    ensures s + |open| <= e <= |content| && OccursAt(content, open, s)
    ensures forall j | 0 <= j < s :: !OccursAt(content, open, j)
    ensures ReplaceBlock(content, open, block) == content[..s] + block + content[e..]
  {
  }

  /** In the rewritten text the first opening is still at `s`. */
  lemma FirstOpeningKept(content: string, open: string, block: string, s: nat, e: nat, r: string)
    requires s + |open| <= e <= |content| && OccursAt(content, open, s)
    requires forall j | 0 <= j < s :: !OccursAt(content, open, j)
    requires ClosesOnlyAtEnd(block, open)
    requires r == content[..s] + block + content[e..]
    ensures OccursAt(r, open, s)
    ensures forall j | 0 <= j < s :: !OccursAt(r, open, j)
  {
    forall j | 0 <= j < s ensures !OccursAt(r, open, j) {
      OpeningBeforeBlock(content, open, block, s, e, j);
    }
    assert r[s..s + |open|] == block[..|open|];
  }

  /** The first opening and the first `};` after it, as `indexOf` finds them. */
  lemma BoundsFound(r: string, open: string, s: nat, c: nat)
    requires OccursAt(r, open, s) && forall j | 0 <= j < s :: !OccursAt(r, open, j)
    requires s + |open| <= c && OccursAt(r, BLOCK_CLOSE, c)
    requires forall j | s + |open| <= j < c :: !OccursAt(r, BLOCK_CLOSE, j)
    ensures IndexOfFrom(r, open, 0) == Some(s)
    ensures IndexOfFrom(r, BLOCK_CLOSE, s + |open|) == Some(c)
  {
    IndexOfFromIs(r, open, 0, s);
    IndexOfFromIs(r, BLOCK_CLOSE, s + |open|, c);
  }

  /** In the rewritten text the first `};` after the opening ends the new block. */
  lemma FirstCloseAtEnd(content: string, open: string, block: string, s: nat, e: nat, r: string)
    requires s <= e <= |content| && ClosesOnlyAtEnd(block, open)
    requires r == content[..s] + block + content[e..]
    ensures OccursAt(r, BLOCK_CLOSE, s + |block| - 2)
    ensures forall j | s + |open| <= j < s + |block| - 2 :: !OccursAt(r, BLOCK_CLOSE, j)
  {
    forall j | s + |open| <= j < s + |block| - 2 ensures !OccursAt(r, BLOCK_CLOSE, j) {
      OccursInMiddle(content[..s], block, content[e..], BLOCK_CLOSE, j);
    }
    OccursInMiddle(content[..s], block, content[e..], BLOCK_CLOSE, s + |block| - 2);
  }

  /** Rewriting twice with the same block changes nothing more than rewriting once. */
  lemma ReplaceBlockIdempotent(content: string, open: string, block: string)
    requires ClosesOnlyAtEnd(block, open)
    ensures var once := ReplaceBlock(content, open, block);
      ReplaceBlock(once, open, block) == once
  {
    if BlockAt(content, open).Some? {
      var (s, e) := BlockAt(content, open).value;
      var once := ReplaceBlock(content, open, block);
      ReplaceBlockFindsBlock(content, open, block);
      assert once[..s] == content[..s];
      assert once[s + |block|..] == content[e..];
    }
  }

  /**
   * `updateAuthJS` with the replacement written literally: None (nothing written)
   * when `auth.js` is missing, otherwise the file with the passwords block and then
   * the images block rewritten.
   */
  function UpdateAuthJS(passwords: JsObject<Json>, images: JsObject<Json>, auth: Option<string>): (r: Option<string>)
    ensures r.None? <==> auth.None?
  {
    if auth.None? then None
    else
      var withPasswords := ReplaceBlock(auth.value, PASSWORDS_DECL + "{", Declaration(PASSWORDS_DECL, passwords));
      Some(ReplaceBlock(withPasswords, IMAGES_DECL + "{", Declaration(IMAGES_DECL, images)))
  }

  // ---- updateAuthJS as written: String.prototype.replace with a string replacement ----

  /**
   * GetSubstitution (ECMAScript) for a pattern without capture groups: `$$` stands
   * for `$`, `$&` for the match, `` $` `` for the text before it and `$'` for the
   * text after it; any other `$` is kept.
   */
  function Substitute(template: string, matched: string, before: string, after: string): string
    decreases |template|
  {
    if template == [] then []
    else if template[0] != '$' || |template| == 1 then [template[0]] + Substitute(template[1..], matched, before, after)
    else if template[1] == '$' then "$" + Substitute(template[2..], matched, before, after)
    else if template[1] == '&' then matched + Substitute(template[2..], matched, before, after)
    else if template[1] == '`' then before + Substitute(template[2..], matched, before, after)
    else if template[1] == '\'' then after + Substitute(template[2..], matched, before, after)
    else "$" + Substitute(template[1..], matched, before, after)
  }

  /** `content.replace(pattern, block)` as the source calls it. */
  function ReplaceBlockAsWritten(content: string, open: string, block: string): string
  {
    match BlockAt(content, open)
    case None => content
    case Some((s, e)) => content[..s] + Substitute(block, content[s..e], content[..s], content[e..]) + content[e..]
  }

  /** `updateAuthJS` as written: both blocks go through `String.prototype.replace`. */
  function UpdateAuthJSAsWritten(passwords: JsObject<Json>, images: JsObject<Json>, auth: Option<string>): (r: Option<string>)
    ensures r.None? <==> auth.None?
  {
    if auth.None? then None
    else
      var withPasswords := ReplaceBlockAsWritten(auth.value, PASSWORDS_DECL + "{", Declaration(PASSWORDS_DECL, passwords));
      Some(ReplaceBlockAsWritten(withPasswords, IMAGES_DECL + "{", Declaration(IMAGES_DECL, images)))
  }

  lemma {:induction false} SubstitutePrefix(x: string, y: string, matched: string, before: string, after: string)
    requires '$' !in x
    ensures Substitute(x + y, matched, before, after) == x + Substitute(y, matched, before, after)
    decreases |x|
  {
    if x != [] {
      var t := x + y;
      assert t[0] == x[0] && x[0] in x;
      assert t[1..] == x[1..] + y;
      SubstitutePrefix(x[1..], y, matched, before, after);
      calc {
        Substitute(t, matched, before, after);
        [x[0]] + Substitute(x[1..] + y, matched, before, after);
        [x[0]] + (x[1..] + Substitute(y, matched, before, after));
        { assert x == [x[0]] + x[1..]; }
        x + Substitute(y, matched, before, after);
      }
    } else {
      assert x + y == y;
    }
  }

  /** A block without `$` is written the same either way. */
  lemma AsWrittenAgreesWithoutDollar(content: string, open: string, block: string)
    requires '$' !in block
    ensures ReplaceBlockAsWritten(content, open, block) == ReplaceBlock(content, open, block)
  {
    if BlockAt(content, open).Some? {
      var (s, e) := BlockAt(content, open).value;
      SubstitutePrefix(block, [], content[s..e], content[..s], content[e..]);
      assert block + [] == block;
    }
  }

  /** When neither new block holds a `$`, `updateAuthJS` as written writes the blocks literally. */
  lemma UpdateAgreesWithoutDollar(passwords: JsObject<Json>, images: JsObject<Json>, auth: Option<string>)
    requires '$' !in Declaration(PASSWORDS_DECL, passwords) && '$' !in Declaration(IMAGES_DECL, images)
    ensures UpdateAuthJSAsWritten(passwords, images, auth) == UpdateAuthJS(passwords, images, auth)
  {
    if auth.Some? {
      var pw := Declaration(PASSWORDS_DECL, passwords);
      AsWrittenAgreesWithoutDollar(auth.value, PASSWORDS_DECL + "{", pw);
      var withPasswords := ReplaceBlock(auth.value, PASSWORDS_DECL + "{", pw);
      AsWrittenAgreesWithoutDollar(withPasswords, IMAGES_DECL + "{", Declaration(IMAGES_DECL, images));
    }
  }

  /** An object with a single key that is not an array index is laid out on three lines. */
  lemma FormatSingle(key: string, value: Json, indent: nat)
    requires !IsArrayIndex(key)
    ensures FormatObjectAsMultiline([(key, value)], indent) == "{\n" + PropertyLine(indent, key, value) + "\n}"
  {
    var obj := [(key, value)];
    InsertionOrderWithoutIndexKeys(obj);
    assert PropertyLines(obj, indent) == [PropertyLine(indent, key, value)];
  }

  /** A printable character other than a quote or a backslash is written as itself. */
  lemma PlainChar(c: char)
    requires (c as int) >= 0x20 && c != '"' && c != '\\'
    ensures EscapeChar(c) == [c]
  {
  }

  /** The text before and after the password in a one-gallery passwords block. */
  function BeforePassword(key: string): string
  {
    PASSWORDS_DECL + "{\n" + Repeat(' ', 2) + Quote(key) + ": " + "\""
  }

  const AFTER_PASSWORD := "\"" + IGNORE_MARK + "\n}" + ";"

  /** The passwords block for one gallery whose name is not an array index. */
  lemma OnePasswordBlock(key: string, pw: string)
    requires !IsArrayIndex(key)
    ensures Declaration(PASSWORDS_DECL, [(key, JString(pw))]) == BeforePassword(key) + EscapeString(pw) + AFTER_PASSWORD
  {
    FormatSingle(key, JString(pw), 2);
    var e := EscapeString(pw);
    assert Stringify(JString(pw)) == "\"" + e + "\"";
    var line := PropertyLine(2, key, JString(pw));
    assert line == Repeat(' ', 2) + Quote(key) + ": " + ("\"" + e + "\"") + IGNORE_MARK;
    assert Declaration(PASSWORDS_DECL, [(key, JString(pw))]) == PASSWORDS_DECL + ("{\n" + line + "\n}") + ";";
    Regroup(PASSWORDS_DECL, "{\n", Repeat(' ', 2), Quote(key), ": ", "\"", e, IGNORE_MARK, "\n}", ";");
  }

  lemma Regroup(d: string, a: string, r: string, k: string, c: string, q: string, e: string, m: string, b: string, t: string)
    ensures d + (a + (r + k + c + (q + e + q) + m) + b) + t == (d + a + r + k + c + q) + e + (q + m + b + t)
  {
  }

  /** Two dollar signs between dollar-free text come out as one. */
  lemma SubstituteDoubleDollar(x: string, y: string, matched: string, before: string, after: string)
    requires '$' !in x && '$' !in y
    ensures Substitute(x + "$$" + y, matched, before, after) == x + "$" + y
  {
    var t := "$$" + y;
    assert x + "$$" + y == x + t;
    SubstitutePrefix(x, t, matched, before, after);
    assert t[0] == '$' && t[1] == '$' && t[2..] == y;
    assert Substitute(t, matched, before, after) == "$" + Substitute(y, matched, before, after);
    SubstitutePrefix(y, [], matched, before, after);
    assert y + [] == y;
  }

  /**
   * A gallery password `p$$` is written to `auth.js` as `p$`: the string replacement
   * reads `$$` as an escaped dollar sign.
   */
  lemma DollarPasswordRewritten()
    ensures var auth := Some(PASSWORDS_DECL + "{};");
      var passwords := [("g", JString("p$$"))];
      && UpdateAuthJSAsWritten(passwords, [], auth) == Some(Declaration(PASSWORDS_DECL, [("g", JString("p$"))]))
      && UpdateAuthJS(passwords, [], auth) == Some(Declaration(PASSWORDS_DECL, passwords))
  {
    var written := Declaration(PASSWORDS_DECL, [("g", JString("p$$"))]);
    var rewritten := Declaration(PASSWORDS_DECL, [("g", JString("p$"))]);
    DollarBlockRewritten();
    NoCapitalIInExample();
    NoImagesBlock(rewritten);
    NoImagesBlock(written);
  }

  /** The passwords block of the example, rewritten both ways. */
  lemma DollarBlockRewritten()
    ensures var content := PASSWORDS_DECL + "{};";
      var open := PASSWORDS_DECL + "{";
      var written := Declaration(PASSWORDS_DECL, [("g", JString("p$$"))]);
      var rewritten := Declaration(PASSWORDS_DECL, [("g", JString("p$"))]);
      && ReplaceBlockAsWritten(content, open, written) == rewritten
      && ReplaceBlock(content, open, written) == written
  {
    BlockOfEmptyDeclaration();
    ExampleBlocks();
    WholeBlockRewritten(PASSWORDS_DECL + "{};", PASSWORDS_DECL + "{", BeforePassword("g") + "p", AFTER_PASSWORD);
  }

  /** A block that is all of `content`, holding one `$$` between dollar-free text, rewritten both ways. */
  lemma WholeBlockRewritten(content: string, open: string, x: string, y: string)
    requires BlockAt(content, open) == Some((0, |content|))
    requires '$' !in x && '$' !in y
    ensures ReplaceBlockAsWritten(content, open, x + "$$" + y) == x + "$" + y
    ensures ReplaceBlock(content, open, x + "$$" + y) == x + "$$" + y
  {
    var t := x + "$$" + y;
    var n := |content|;
    assert content[..0] == [] && content[n..] == [] && content[0..n] == content;
    SubstituteDoubleDollar(x, y, content, [], []);
    assert ReplaceBlockAsWritten(content, open, t) ==
      content[..0] + Substitute(t, content[0..n], content[..0], content[n..]) + content[n..];
    assert ReplaceBlock(content, open, t) == content[..0] + t + content[n..];
  }

  /** The example's blocks around the password, which is the only place a `$` occurs. */
  lemma ExampleBlocks()
    ensures var x := BeforePassword("g") + "p";
      && Declaration(PASSWORDS_DECL, [("g", JString("p$$"))]) == x + "$$" + AFTER_PASSWORD
      && Declaration(PASSWORDS_DECL, [("g", JString("p$"))]) == x + "$" + AFTER_PASSWORD
      && '$' !in x && '$' !in AFTER_PASSWORD
  {
    ExamplePasswords();
    PasswordBlockOfG("p$$");
    PasswordBlockOfG("p$");
    Associate(BeforePassword("g"), "p", "$$");
    Associate(BeforePassword("g"), "p", "$");
    NoDollarBeforePassword();
  }

  lemma Associate(a: string, b: string, c: string)
    ensures a + (b + c) == a + b + c
  {
  }

  /** Text that `JSON.stringify` copies as it is inside quotes. */
  predicate PlainText(s: string)
  {
    forall i | 0 <= i < |s| :: (s[i] as int) >= 0x20 && s[i] != '"' && s[i] != '\\'
  }

  /** The example's two passwords: plain text, `p` followed by dollar signs. */
  lemma ExamplePasswords()
    ensures PlainText("p$$") && PlainText("p$")
    ensures "p$$" == "p" + "$$" && "p$" == "p" + "$"
  {
  }

  /** The block for gallery `g` with a password that needs no escaping. */
  lemma PasswordBlockOfG(pw: string)
    requires PlainText(pw)
    ensures Declaration(PASSWORDS_DECL, [("g", JString(pw))]) == BeforePassword("g") + pw + AFTER_PASSWORD
  {
    assert !IsArrayIndex("g") by { assert !IsDigit("g"[0]); }
    OnePasswordBlock("g", pw);
    EscapePlainString(pw);
  }

  /** The whole of `const GALLERY_PASSWORDS = {};` is one block. */
  lemma BlockOfEmptyDeclaration()
    ensures BlockAt(PASSWORDS_DECL + "{};", PASSWORDS_DECL + "{") == Some((0, |PASSWORDS_DECL| + 3))
  {
    var content := PASSWORDS_DECL + "{};";
    var open := PASSWORDS_DECL + "{";
    assert content[..|open|] == open;
    assert OccursAt(content, open, 0);
    assert IndexOfFrom(content, open, 0) == Some(0);
    assert content[|open|..|open| + 2] == BLOCK_CLOSE;
    assert OccursAt(content, BLOCK_CLOSE, |open|);
    assert IndexOfFrom(content, BLOCK_CLOSE, |open|) == Some(|open|);
  }

  lemma EscapePlainString(pw: string)
    requires forall i | 0 <= i < |pw| :: (pw[i] as int) >= 0x20 && pw[i] != '"' && pw[i] != '\\'
    ensures EscapeString(pw) == pw
    decreases |pw|
  {
    if pw != [] {
      PlainChar(pw[0]);
      EscapePlainString(pw[1..]);
      assert pw == [pw[0]] + pw[1..];
    }
  }

  /** The example's text up to its password, spelled out. */
  lemma BeforePasswordText()
    ensures BeforePassword("g") + "p" == "const GALLERY_PASSWORDS = {\n  \"g\": \"p"
  {
    assert Repeat(' ', 2) == "  ";
    EscapePlainString("g");
  }

  lemma NoDollarBeforePassword()
    ensures '$' !in BeforePassword("g") + "p" && '$' !in AFTER_PASSWORD
  {
    BeforePasswordText();
  }

  lemma NoCapitalIBeforePassword()
    ensures 'I' !in BeforePassword("g") + "p" && 'I' !in AFTER_PASSWORD
  {
    BeforePasswordText();
  }

  /** The blocks of the example hold no capital `I`. */
  lemma NoCapitalIInExample()
    ensures 'I' !in Declaration(PASSWORDS_DECL, [("g", JString("p$$"))])
    ensures 'I' !in Declaration(PASSWORDS_DECL, [("g", JString("p$"))])
  {
    assert !IsArrayIndex("g") by { assert !IsDigit("g"[0]); }
    OnePasswordBlock("g", "p$$");
    OnePasswordBlock("g", "p$");
    EscapePlainString("p$$");
    EscapePlainString("p$");
    NoCapitalIBeforePassword();
  }

  /** A text without the letter `I` holds no images declaration. */
  lemma NoImagesBlock(content: string)
    requires 'I' !in content
    ensures BlockAt(content, IMAGES_DECL + "{").None?
  {
    var open := IMAGES_DECL + "{";
    assert open[14] == 'I';
    CharMissing(content, open, 14);
    ContainsIffFound(content, open);
  }

  // ---- generate ----

  /** `{url, preview}` as a JSON object. */
  function ImageJson(image: WorkerImage): Json
  {
    JObject([("url", JString(image.url)), ("preview", JString(image.preview))])
  }

  /** The worker galleries as the JSON object written into `auth.js`. */
  function GalleriesJson(galleries: JsObject<seq<WorkerImage>>): JsObject<Json>
  {
    seq(|galleries|, k requires 0 <= k < |galleries| =>
      (galleries[k].0, JArray(seq(|galleries[k].1|, j requires 0 <= j < |galleries[k].1| => ImageJson(galleries[k].1[j])))))
  }

  /** What a run of `generate` leaves behind: `workerGalleryImages.json` and, when it exists, the new `auth.js`. */
  datatype Output = Output(galleries: JsObject<seq<WorkerImage>>, auth: Option<string>)

  /**
   * `generate` as a value. The metadata file must exist (reading it throws
   * otherwise); the gallery metadata and passwords files may be missing.
   */
  function GenerateOf(metadata: Option<JsObject<ImageRecord>>, metaFile: Option<GalleryMetadata>,
                      passwordsFile: Option<seq<PasswordEntry>>, auth: Option<string>): Result<Output, string>
  {
    if metadata.None? then Err("ENOENT: no such file or directory, open 'imageMetadata.json'")
    else
      match WorkerGalleries(metadata.value, Galleries.ReadGlobalMeta(metaFile))
      case Err(e) => Err(e)
      case Ok(galleries) =>
        Ok(Output(galleries, UpdateAuthJSAsWritten(PasswordsOf(passwordsFile), GalleriesJson(galleries), auth)))
  }

  /** `generate`. */
  method Generate(metadata: Option<JsObject<ImageRecord>>, metaFile: Option<GalleryMetadata>,
                  passwordsFile: Option<seq<PasswordEntry>>, auth: Option<string>)
    returns (outcome: Result<Output, string>)
    ensures outcome == GenerateOf(metadata, metaFile, passwordsFile, auth)
    ensures outcome.Err? <==> metadata.None? || WorkerGalleries(metadata.value, Galleries.ReadGlobalMeta(metaFile)).Err?
  {
    if metadata.None? {
      return Err("ENOENT: no such file or directory, open 'imageMetadata.json'");
    }
    var meta := Galleries.ReadGlobalMeta(metaFile);
    var passwords := LoadGalleryPasswords(passwordsFile);
    var grouped := CollectProtected(metadata.value, meta);
    if grouped.Err? {
      return Err(grouped.error);
    }
    var galleries := OrderGalleries(grouped.value);
    outcome := Ok(Output(galleries, UpdateAuthJSAsWritten(passwords, GalleriesJson(galleries), auth)));
  }
}
