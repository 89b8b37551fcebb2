/**
 * The bucket report of `list-r2-photos.js`: every object is listed page by page,
 * its size counted, and image keys are split into originals and previews, each
 * sorted by key, with the originals that seem to lack a preview.
 */
module ListPhotos {
  import opened Common
  import opened Text
  import opened FileNames
  import opened R2Store
  import Sorting

  // ---- dimensions embedded in a key ----

  datatype Dimensions = Dimensions(width: nat, height: nat)

  /** A match of `__w<digits>h<digits>` at `p`: the two numbers and the index just past the second run. */
  datatype DimsMatch = DimsMatch(start: nat, dims: Dimensions, end: nat)

  /**
   * `/__w(\d+)h(\d+)/` tried at `p`. Both runs are maximal: a shorter first run would
   * be followed by a digit rather than `h`, and `\d+` is greedy.
   */
  function DimsAt(key: string, p: nat): (m: Option<DimsMatch>)
    ensures m.Some? ==> m.value.start == p && p + 6 <= m.value.end <= |key|
  {
    if !OccursAt(key, "__w", p) then None
    else
      var e1 := RunEnd(key, p + 3);
      if e1 == p + 3 || e1 == |key| || key[e1] != 'h' then None
      else
        var e2 := RunEnd(key, e1 + 1);
        if e2 == e1 + 1 then None
        else Some(DimsMatch(p, Dimensions(DecimalValue(key[p + 3..e1]), DecimalValue(key[e1 + 1..e2])), e2))
  }

  /** The match also needs a `.` right after the second run (`/__w(\d+)h(\d+)\./`). */
  predicate DotAfter(key: string, m: DimsMatch)
  {
    m.end < |key| && key[m.end] == '.'
  }

  /** The leftmost match at or after `from`; with `needDot`, only matches followed by a `.`. */
  function FirstDims(key: string, from: nat, needDot: bool): (m: Option<DimsMatch>)
    ensures m.Some? ==> from <= m.value.start && DimsAt(key, m.value.start) == Some(m.value)
    ensures m.Some? && needDot ==> DotAfter(key, m.value)
    ensures m.Some? ==> forall q | from <= q < m.value.start ::
      DimsAt(key, q).None? || (needDot && !DotAfter(key, DimsAt(key, q).value))
    decreases |key| - from
  {
    if from >= |key| then None
    else
      var m := DimsAt(key, from);
      if m.Some? && (!needDot || DotAfter(key, m.value)) then m
      else FirstDims(key, from + 1, needDot)
  }

  /** `extractDimensionsFromKey`: the numbers of the first `__w<w>h<h>.` in the key, or null. */
  function ExtractDimensionsFromKey(key: string): Option<Dimensions>
  {
    match FirstDims(key, 0, true)
    case None => None
    case Some(m) => Some(m.dims)
  }

  /** `key.replace(/__w\d+h\d+/, "")`: the key without its first dimensions tag. */
  function StripDims(key: string): (r: string)
    ensures |r| <= |key|
  {
    match FirstDims(key, 0, false)
    case None => key
    case Some(m) => key[..m.start] + key[m.end..]
  }

  /** No `_` at all, so no `__w` can start inside. */
  predicate NoUnderscore(s: string)
  {
    forall k | 0 <= k < |s| :: s[k] != '_'
  }

  /** A key tagged the way the listing expects. */
  function TaggedKey(prefix: string, w: nat, h: nat, rest: string): string
  {
    prefix + Tag(NatToDecimal(w), NatToDecimal(h), rest)
  }

  /** `__w<dw>h<dh>` followed by the rest of the key. */
  function Tag(dw: string, dh: string, rest: string): string
  {
    "__w" + dw + "h" + dh + rest
  }

  /** The maximal run of digits from `i` ends at `e` when `s[i..e]` are digits and `s[e]` is not. */
  lemma RunEndIs(s: string, i: nat, e: nat)
    requires i <= e <= |s|
    requires forall k | i <= k < e :: IsDigit(s[k])
    requires e < |s| ==> !IsDigit(s[e])
    ensures RunEnd(s, i) == e
  {
  }

  /** The middle part of a concatenation. */
  lemma Middle(a: string, b: string, c: string)
    ensures (a + b + c)[|a|..|a| + |b|] == b
    ensures (a + b + c)[|a| + |b|..] == c
  {
  }

  /** Where the parts of a tagged key sit. */
  lemma TagLayout(prefix: string, dw: string, dh: string, rest: string)
    ensures var key := prefix + Tag(dw, dh, rest);
      var p := |prefix|;
      var e1 := p + 3 + |dw|;
      var e2 := e1 + 1 + |dh|;
      && e2 <= |key|
      && key[p..p + 3] == "__w" && key[p + 3..e1] == dw && key[e1] == 'h'
      && key[e1 + 1..e2] == dh && key[e2..] == rest
  {
    var key := prefix + Tag(dw, dh, rest);
    assert key == prefix + "__w" + dw + "h" + dh + rest;
    var a := prefix + "__w";
    var b := "h" + dh + rest;
    assert key == a + dw + b;
    Middle(a, dw, b);
    assert key == prefix + "__w" + (dw + b);
    Middle(prefix, "__w", dw + b);
    assert key[|a| + |dw|] == b[0];
    var c := a + dw + "h";
    assert key == c + dh + rest;
    Middle(c, dh, rest);
  }

  /** A tag followed by two runs of digits and then a non-digit matches, with the numbers it spells. */
  lemma TaggedDims(key: string, p: nat, e1: nat, e2: nat, dw: string, dh: string)
    requires p + 3 < e1 < e2 <= |key| && key[p..p + 3] == "__w"
    requires key[p + 3..e1] == dw && key[e1] == 'h' && key[e1 + 1..e2] == dh
    requires e1 + 1 < e2 && AllDigits(dw) && AllDigits(dh)
    requires e2 < |key| ==> !IsDigit(key[e2])
    ensures DimsAt(key, p) == Some(DimsMatch(p, Dimensions(DecimalValue(dw), DecimalValue(dh)), e2))
  {
    assert forall k | p + 3 <= k < e1 :: key[k] == dw[k - p - 3];
    assert forall k | e1 + 1 <= k < e2 :: key[k] == dh[k - e1 - 1];
    RunEndIs(key, p + 3, e1);
    RunEndIs(key, e1 + 1, e2);
    DimsAtIs(key, p, e1, e2, dw, dh);
  }

  /** `DimsAt` once the tag and both runs have been located. */
  lemma DimsAtIs(key: string, p: nat, e1: nat, e2: nat, dw: string, dh: string)
    requires OccursAt(key, "__w", p)
    requires p + 3 < e1 < |key| && RunEnd(key, p + 3) == e1 && key[e1] == 'h'
    requires e1 + 1 < e2 <= |key| && RunEnd(key, e1 + 1) == e2
    requires key[p + 3..e1] == dw && key[e1 + 1..e2] == dh
    ensures AllDigits(dw) && AllDigits(dh)
    ensures DimsAt(key, p) == Some(DimsMatch(p, Dimensions(DecimalValue(dw), DecimalValue(dh)), e2))
  {
  }

  /**
   * Dimensions round trip: a key tagged `__w<w>h<h>.` after a prefix without `_`
   * yields exactly `w` and `h`, and stripping the tag leaves the prefix and the rest.
   */
  lemma DimensionsRoundTrip(prefix: string, w: nat, h: nat, ext: string)
    requires NoUnderscore(prefix)
    ensures ExtractDimensionsFromKey(TaggedKey(prefix, w, h, "." + ext)) == Some(Dimensions(w, h))
    ensures StripDims(TaggedKey(prefix, w, h, "." + ext)) == prefix + "." + ext
  {
    TaggedRoundTrip(prefix, NatToDecimal(w), NatToDecimal(h), "." + ext);
    assert prefix + ("." + ext) == prefix + "." + ext;
  }

  /** The round trip for any two runs of digits. */
  lemma TaggedRoundTrip(prefix: string, dw: string, dh: string, rest: string)
    requires NoUnderscore(prefix)
    requires dw != [] && dh != [] && AllDigits(dw) && AllDigits(dh)
    requires rest != [] && rest[0] == '.'
    ensures var key := prefix + Tag(dw, dh, rest);
      && ExtractDimensionsFromKey(key) == Some(Dimensions(DecimalValue(dw), DecimalValue(dh)))
      && StripDims(key) == prefix + rest
  {
    var key := prefix + Tag(dw, dh, rest);
    var e1 := |prefix| + 3 + |dw|;
    var e2 := e1 + 1 + |dh|;
    TaggedKeyShape(prefix, dw, dh, rest, key, e1, e2);
    KeyRoundTrip(key, |prefix|, e1, e2, dw, dh);
  }

  /**
   * `key` holds `__w<dw>h<dh>` at `p`, the runs ending at `e1` and `e2`, a `.` right
   * after the second run, and no `_` before the tag.
   */
  ghost predicate DottedTagAt(key: string, p: nat, e1: nat, e2: nat, dw: string, dh: string)
  {
    && p + 3 < e1 && e1 + 1 < e2 < |key| && key[p..p + 3] == "__w"
    && key[p + 3..e1] == dw && key[e1] == 'h' && key[e1 + 1..e2] == dh && key[e2] == '.'
    && AllDigits(dw) && AllDigits(dh) && NoUnderscore(key[..p])
  }

  /** Where the tag of a tagged key sits, and what is left around it. */
  lemma TaggedKeyShape(prefix: string, dw: string, dh: string, rest: string, key: string, e1: nat, e2: nat)
    requires NoUnderscore(prefix) && dw != [] && dh != [] && AllDigits(dw) && AllDigits(dh)
    requires rest != [] && rest[0] == '.'
    requires key == prefix + Tag(dw, dh, rest) && e1 == |prefix| + 3 + |dw| && e2 == e1 + 1 + |dh|
    ensures DottedTagAt(key, |prefix|, e1, e2, dw, dh)
    ensures key[..|prefix|] + key[e2..] == prefix + rest
  {
    TagLayout(prefix, dw, dh, rest);
    assert key[..|prefix|] == prefix;
    assert key[e2] == key[e2..][0];
  }

  /** A key with no `_` before a tag whose second run is followed by `.`: the tag decides both results. */
  lemma KeyRoundTrip(key: string, p: nat, e1: nat, e2: nat, dw: string, dh: string)
    requires DottedTagAt(key, p, e1, e2, dw, dh)
    ensures ExtractDimensionsFromKey(key) == Some(Dimensions(DecimalValue(dw), DecimalValue(dh)))
    ensures StripDims(key) == key[..p] + key[e2..]
  {
    TaggedDims(key, p, e1, e2, dw, dh);
    NoDimsBefore(key, p);
    FoundFirst(key, p, DimsMatch(p, Dimensions(DecimalValue(dw), DecimalValue(dh)), e2));
  }

  /** No match can start inside a stretch without `_`. */
  lemma NoDimsBefore(key: string, p: nat)
    requires p <= |key| && NoUnderscore(key[..p])
    ensures forall q | 0 <= q < p :: DimsAt(key, q).None?
  {
    forall q | 0 <= q < p ensures DimsAt(key, q).None? {
      assert key[..p][q] == key[q];
      NoDimsAt(key, q);
    }
  }

  /** A match starts with `_`. */
  lemma NoDimsAt(key: string, q: nat)
    requires q < |key| && key[q] != '_'
    ensures DimsAt(key, q).None?
  {
  }

  /** The first match decides both the dimensions and what the stripping removes. */
  lemma FoundFirst(key: string, p: nat, m: DimsMatch)
    requires p < |key| && DimsAt(key, p) == Some(m) && DotAfter(key, m)
    requires forall q | 0 <= q < p :: DimsAt(key, q).None?
    ensures ExtractDimensionsFromKey(key) == Some(m.dims)
    ensures StripDims(key) == key[..p] + key[m.end..]
  {
    FirstDimsFinds(key, 0, p, true);
    FirstDimsFinds(key, 0, p, false);
  }

  /** When nothing matches before `p` and `p` matches, the search finds `p`. */
  lemma {:induction false} FirstDimsFinds(key: string, from: nat, p: nat, needDot: bool)
    requires from <= p < |key|
    requires forall q | from <= q < p :: DimsAt(key, q).None?
    requires DimsAt(key, p).Some? && (needDot ==> DotAfter(key, DimsAt(key, p).value))
    ensures FirstDims(key, from, needDot) == DimsAt(key, p)
    decreases p - from
  {
    if from < p {
      FirstDimsFinds(key, from + 1, p, needDot);
    }
  }

  /** A key without any `__w` has no dimensions and is left alone by the stripping. */
  lemma UntaggedKey(key: string)
    requires !Contains(key, "__w")
    ensures ExtractDimensionsFromKey(key).None? && StripDims(key) == key
  {
    var m := FirstDims(key, 0, false);
    assert m.Some? ==> OccursAt(key, "__w", m.value.start);
    var d := FirstDims(key, 0, true);
    assert d.Some? ==> OccursAt(key, "__w", d.value.start);
  }

  lemma NoUnderscoreNoTag(key: string)
    requires NoUnderscore(key)
    ensures !Contains(key, "__w")
  {
    forall i | 0 <= i <= |key| - 3 ensures !OccursAt(key, "__w", i) {
      assert key[i] != '_';
    }
  }

  // ---- the listing ----

  datatype Credentials = Credentials(endpoint: Option<string>, accessKeyId: Option<string>, secretAccessKey: Option<string>)

  /** All three settings present and non-empty. */
  predicate HasCredentials(c: Credentials)
  {
    Truthy(c.endpoint) && Truthy(c.accessKeyId) && Truthy(c.secretAccessKey)
  }

  /** One reported object (its human-readable size is not modelled). */
  datatype Listed = Listed(key: string, size: nat, isPreview: bool, dimensions: Option<Dimensions>)

  /** `obj.Size || 0`: the stored size of a listed key. */
  function ObjectSize(objects: map<string, StoredObject>, key: string): nat
  {
    if key in objects then |objects[key].body| else 0
  }

  /** Not a metadata file (leading `.`) and an image by extension (`/\.(jpg|jpeg|png|webp)$/i`). */
  predicate IsListedImage(key: string)
  {
    !StartsWith(key, ".") && HasWebImageExt(key)
  }

  /** `key.includes("_preview")`. */
  predicate IsPreviewKey(key: string)
  {
    Contains(key, "_preview")
  }

  predicate IsOriginalEntry(key: string)
  {
    IsListedImage(key) && !IsPreviewKey(key)
  }

  predicate IsPreviewEntry(key: string)
  {
    IsListedImage(key) && IsPreviewKey(key)
  }

  function EntryOf(objects: map<string, StoredObject>, key: string): Listed
  {
    Listed(key, ObjectSize(objects, key), IsPreviewKey(key), ExtractDimensionsFromKey(key))
  }

  /** The entries of `keys`, in order. */
  function Entries(objects: map<string, StoredObject>, keys: seq<string>): (r: seq<Listed>)
    ensures |r| == |keys|
  {
    seq(|keys|, i requires 0 <= i < |keys| => EntryOf(objects, keys[i]))
  }

  /** `totalSize`: the size of every listed object, including skipped ones. */
  function TotalSize(objects: map<string, StoredObject>, keys: seq<string>): nat
  {
    if keys == [] then 0
    else TotalSize(objects, keys[..|keys| - 1]) + ObjectSize(objects, keys[|keys| - 1])
  }

  /** Key order (the stand-in for `a.key.localeCompare(b.key)`). */
  predicate ByKey(a: Listed, b: Listed)
  {
    Sorting.StringLeq(a.key, b.key)
  }

  lemma ByKeyIsTotalPreorder()
    ensures Sorting.TotalPreorder(ByKey)
  {
    forall a: Listed, b: Listed
      ensures ByKey(a, b) || ByKey(b, a)
    {
      Sorting.StringLeqTotal(a.key, b.key);
    }
    forall a: Listed, b: Listed, c: Listed | ByKey(a, b) && ByKey(b, c)
      ensures ByKey(a, c)
    {
      Sorting.StringLeqTransitive(a.key, b.key, c.key);
    }
  }

  // ---- originals without previews ----

  /** Some preview key contains `base`. */
  predicate SomeContains(previews: seq<Listed>, base: string)
  {
    exists j | 0 <= j < |previews| :: Contains(previews[j].key, base)
  }

  /**
   * The check as written: the originals whose key, with the first dimensions tag
   * removed, is contained in no preview key.
   */
  function MissingPreviewsAsWritten(originals: seq<Listed>, previews: seq<Listed>): (r: seq<Listed>)
    ensures forall o :: o in r <==> o in originals && !SomeContains(previews, StripDims(o.key))
  {
    Sorting.FilterMembers(originals, (o: Listed) => !SomeContains(previews, StripDims(o.key)));
    Sorting.Filter(originals, (o: Listed) => !SomeContains(previews, StripDims(o.key)))
  }

  /** The part of a key a preview is named after: no dimensions tag and no image extension. */
  function PreviewBase(key: string): (base: string)
    ensures StartsWith(StripDims(key), base)
  {
    var stripped := StripDims(key);
    var base := ReplaceImageExt(stripped, "");
    assert stripped[..|base|] == base;
    base
  }

  /** The check as intended: the originals whose preview base is contained in no preview key. */
  function MissingPreviews(originals: seq<Listed>, previews: seq<Listed>): (r: seq<Listed>)
    ensures forall o :: o in r <==> o in originals && !SomeContains(previews, PreviewBase(o.key))
  {
    Sorting.FilterMembers(originals, (o: Listed) => !SomeContains(previews, PreviewBase(o.key)));
    Sorting.Filter(originals, (o: Listed) => !SomeContains(previews, PreviewBase(o.key)))
  }

  /**
   * The uploader stores the preview of `a.jpg` as `a_preview.webp`, and the check as
   * written still reports `a.jpg` as lacking a preview: `a.jpg` is not part of
   * `a_preview.webp`.
   */
  lemma AsWrittenMissesUploadedPreview()
    ensures var o := Listed("a.jpg", 1, false, None);
      var p := Listed("a_preview.webp", 1, true, None);
      PreviewKey(o.key) == p.key && MissingPreviewsAsWritten([o], [p]) == [o]
  {
    var o := Listed("a.jpg", 1, false, None);
    var p := Listed("a_preview.webp", 1, true, None);
    UploadedPreviewOfA();
    StrippedAIsNotInPreview();
    assert !SomeContains([p], StripDims(o.key));
    assert MissingPreviewsAsWritten([o], [p]) == Sorting.Filter([o], (x: Listed) => !SomeContains([p], StripDims(x.key)));
  }

  /** The uploader names the preview of `a.jpg` `a_preview.webp`. */
  lemma UploadedPreviewOfA()
    ensures PreviewKey("a.jpg") == "a_preview.webp"
  {
    JpgExtOfA();
    assert "a.jpg"[..1] == "a";
  }

  /** `a.jpg` ends in `.jpg` and not in `.jpeg`. */
  lemma JpgExtOfA()
    ensures HasImageExt("a.jpg") && ImageExtLength("a.jpg") == 4
  {
    var k := "a.jpg";
    assert EndsWithIgnoreCase(k, ".jpg") by {
      assert k[|k| - 4..] == ".jpg";
    }
    assert !EndsWithIgnoreCase(k, ".jpeg") by {
      assert Lower(k[|k| - 5..])[0] == 'a';
    }
  }

  /** `a.jpg` carries no tag, and is not part of `a_preview.webp`. */
  lemma StrippedAIsNotInPreview()
    ensures StripDims("a.jpg") == "a.jpg" && !Contains("a_preview.webp", "a.jpg")
  {
    var k := "a.jpg";
    NoUnderscoreNoTag(k);
    UntaggedKey(k);
    assert k[4] == 'g' && 'g' !in "a_preview.webp";
    CharMissing("a_preview.webp", k, 4);
  }

  /** The preview key of a stripped key starts with its preview base. */
  lemma PreviewKeyHasBase(key: string)
    ensures StartsWith(PreviewKey(StripDims(key)), PreviewBase(key))
  {
    var s := StripDims(key);
    if HasImageExt(s) {
      assert PreviewKey(s)[..|PreviewBase(key)|] == PreviewBase(key);
    }
  }

  /** A preview key that starts with an original's preview base clears it of the report. */
  lemma PreviewFound(originals: seq<Listed>, previews: seq<Listed>, o: Listed, j: nat)
    requires o in originals && j < |previews|
    requires StartsWith(previews[j].key, PreviewBase(o.key))
    ensures o !in MissingPreviews(originals, previews)
  {
    assert OccursAt(previews[j].key, PreviewBase(o.key), 0);
  }

  /** An original whose uploader preview key is listed among the previews is not reported. */
  lemma UploadedPreviewFound(originals: seq<Listed>, previews: seq<Listed>, o: Listed, j: nat)
    requires o in originals && j < |previews|
    requires previews[j].key == PreviewKey(StripDims(o.key))
    ensures o !in MissingPreviews(originals, previews)
  {
    PreviewKeyHasBase(o.key);
    PreviewFound(originals, previews, o, j);
  }

  /** Whatever contains a string contains its prefixes. */
  lemma ContainsPrefix(s: string, t: string, u: string)
    requires Contains(s, t) && StartsWith(t, u)
    ensures Contains(s, u)
  {
    var i :| 0 <= i <= |s| - |t| && OccursAt(s, t, i);
    assert s[i..i + |u|] == t[..|u|];
    assert OccursAt(s, u, i);
  }

  /** The intended check only drops false alarms: what it reports, the check as written reports too. */
  lemma MissingPreviewsNarrower(originals: seq<Listed>, previews: seq<Listed>)
    ensures forall o | o in MissingPreviews(originals, previews) :: o in MissingPreviewsAsWritten(originals, previews)
  {
    forall o | o in MissingPreviews(originals, previews)
      ensures o in MissingPreviewsAsWritten(originals, previews)
    {
      var base := PreviewBase(o.key);
      var stripped := StripDims(o.key);
      forall j | 0 <= j < |previews| ensures !Contains(previews[j].key, stripped) {
        if Contains(previews[j].key, stripped) {
          ContainsPrefix(previews[j].key, stripped, base);
        }
      }
    }
  }

  // ---- the report ----

  datatype Report = Report(originals: seq<Listed>, previews: seq<Listed>, totalSize: nat, withoutPreviews: seq<Listed>)

  /** What the listing loop has gathered: the originals and previews in listing order, and the total size. */
  datatype Tally = Tally(originals: seq<Listed>, previews: seq<Listed>, totalSize: nat)

  /** The tally after the keys `keys`. */
  function TallyOf(objects: map<string, StoredObject>, keys: seq<string>): Tally
  {
    Tally(Entries(objects, Sorting.Filter(keys, IsOriginalEntry)),
          Entries(objects, Sorting.Filter(keys, IsPreviewEntry)),
          TotalSize(objects, keys))
  }

  /** The report of a bucket whose listing is `keys`. */
  function ReportOf(objects: map<string, StoredObject>, keys: seq<string>): Report
  {
    var t := TallyOf(objects, keys);
    var originals := Sorting.SortBy(t.originals, ByKey);
    var previews := Sorting.SortBy(t.previews, ByKey);
    Report(originals, previews, t.totalSize, MissingPreviewsAsWritten(originals, previews))
  }

  /** One object of a page: its size is added; an image key joins the originals or the previews. */
  function TallyStep(t: Tally, objects: map<string, StoredObject>, key: string): Tally
  {
    var e := EntryOf(objects, key);
    var sized := t.(totalSize := t.totalSize + ObjectSize(objects, key));
    if !IsListedImage(key) then sized
    else if e.isPreview then sized.(previews := t.previews + [e])
    else sized.(originals := t.originals + [e])
  }

  /** The tally of a listing grows one object at a time. */
  lemma TallyOneMore(objects: map<string, StoredObject>, keys: seq<string>, k: nat)
    requires k < |keys|
    ensures TallyOf(objects, keys[..k + 1]) == TallyStep(TallyOf(objects, keys[..k]), objects, keys[k])
  {
    FilteredEntriesSnoc(objects, keys, k, IsOriginalEntry);
    FilteredEntriesSnoc(objects, keys, k, IsPreviewEntry);
    assert keys[..k + 1][..k] == keys[..k];
  }

  /** The entries of the keys that pass `p` grow by the next key when it passes. */
  lemma FilteredEntriesSnoc(objects: map<string, StoredObject>, keys: seq<string>, k: nat, p: string -> bool)
    requires k < |keys|
    ensures Entries(objects, Sorting.Filter(keys[..k + 1], p)) ==
      Entries(objects, Sorting.Filter(keys[..k], p)) + (if p(keys[k]) then [EntryOf(objects, keys[k])] else [])
  {
    Sorting.FilterSnoc(keys, k, p);
    EntriesAppend(objects, Sorting.Filter(keys[..k], p), if p(keys[k]) then [keys[k]] else []);
  }

  lemma EntriesAppend(objects: map<string, StoredObject>, a: seq<string>, b: seq<string>)
    ensures Entries(objects, a + b) == Entries(objects, a) + Entries(objects, b)
  {
    assert forall i | 0 <= i < |a + b| :: Entries(objects, a + b)[i] == (Entries(objects, a) + Entries(objects, b))[i];
  }

  /**
   * One page of `response.Contents`: every object's size is added to the total;
   * metadata files and non-images are then skipped, and the rest pushed onto the
   * previews or the originals.
   */
  method TallyPage(objects: map<string, StoredObject>, keys: seq<string>, seen: nat, page: seq<string>, tally: Tally)
    returns (r: Tally)
    requires seen + |page| <= |keys| && page == keys[seen..seen + |page|]
    requires tally == TallyOf(objects, keys[..seen])
    ensures r == TallyOf(objects, keys[..seen + |page|])
  {
    r := tally;
    for j := 0 to |page|
      invariant r == TallyOf(objects, keys[..seen + j])
    {
      var key := page[j];
      assert key == keys[seen + j];
      TallyOneMore(objects, keys, seen + j);
      ghost var next := TallyStep(r, objects, key);
      r := r.(totalSize := r.totalSize + ObjectSize(objects, key));
      if StartsWith(key, ".") || !HasWebImageExt(key) {
        assert r == next;
        continue;
      }
      var entry := EntryOf(objects, key);
      if entry.isPreview {
        r := r.(previews := r.previews + [entry]);
      } else {
        r := r.(originals := r.originals + [entry]);
      }
    }
  }

  /**
   * `main`: without the three credentials nothing is requested; otherwise the pages
   * are requested until no continuation token comes back, and each page is
   * tallied; then both lists are sorted by key and the originals without a preview
   * are picked out. A failed request ends the run with an error.
   */
  method ListPhotos(credentials: Credentials, bucket: Bucket) returns (outcome: Result<Report, string>, requests: nat)
    requires bucket.Valid()
    ensures !HasCredentials(credentials) ==> outcome.Err? && requests == 0
    ensures outcome.Ok? ==> outcome.value == ReportOf(bucket.objects, bucket.keys)
    ensures outcome.Ok? ==> requests == PageCount(|bucket.keys|)
  {
    if !HasCredentials(credentials) {
      return Err("Missing R2 credentials"), 0;
    }
    var keys := bucket.keys;
    var objects := bucket.objects;
    var tally := Tally([], [], 0);
    var seen: nat := 0;
    var token: Option<nat> := None;
    var first := true;
    requests := 0;
    assert keys[..0] == [];
    while first || token.Some?
      invariant seen <= |keys|
      invariant tally == TallyOf(objects, keys[..seen])
      invariant first ==> seen == 0 && token.None? && requests == 0
      invariant token.Some? ==> token.value == seen < |keys|
      invariant !first && token.Some? ==> requests + PageCount(|keys| - seen) == PageCount(|keys|)
      invariant !first && token.None? ==> seen == |keys| && requests == PageCount(|keys|)
      decreases |keys| - seen + (if first then 1 else 0)
    {
      var ok, seen', next, tally' := ReadPage(bucket, token, seen, tally);
      if !ok {
        return Err("Error listing R2 bucket"), requests + 1;
      }
      requests := requests + 1;
      tally, seen, token := tally', seen', next;
      first := false;
    }
    assert keys[..seen] == keys;
    var originals := Sorting.SortBy(tally.originals, ByKey);
    var previews := Sorting.SortBy(tally.previews, ByKey);
    outcome := Ok(Report(originals, previews, tally.totalSize, MissingPreviewsAsWritten(originals, previews)));
  }

  /** One `ListObjectsV2` request from `token` and the tally of the page it returns. */
  method ReadPage(bucket: Bucket, token: Option<nat>, seen: nat, tally: Tally)
    returns (ok: bool, seen': nat, next: Option<nat>, tally': Tally)
    requires bucket.Valid() && seen <= |bucket.keys|
    requires token.Some? ==> token.value == seen
    requires token.None? ==> seen == 0
    requires tally == TallyOf(bucket.objects, bucket.keys[..seen])
    ensures ok ==> seen' <= |bucket.keys| && tally' == TallyOf(bucket.objects, bucket.keys[..seen'])
    ensures ok && next.Some? ==> seen < seen' && next.value == seen' < |bucket.keys|
    ensures ok && next.Some? ==> PageCount(|bucket.keys| - seen) == 1 + PageCount(|bucket.keys| - seen')
    ensures ok && next.None? ==> seen' == |bucket.keys| && PageCount(|bucket.keys| - seen) == 1
  {
    var page;
    ok, page, next := bucket.ListPage(token);
    if !ok {
      return false, seen, None, tally;
    }
    tally' := TallyPage(bucket.objects, bucket.keys, seen, page, tally);
    seen' := seen + |page|;
  }

  /** The report's lists are sorted by key and hold the tallied entries, each as often as listed. */
  lemma ReportSorted(objects: map<string, StoredObject>, keys: seq<string>)
    ensures var r := ReportOf(objects, keys);
      var t := TallyOf(objects, keys);
      && Sorting.SortedBy(r.originals, ByKey) && Sorting.SortedBy(r.previews, ByKey)
      && multiset(r.originals) == multiset(t.originals)
      && multiset(r.previews) == multiset(t.previews)
  {
    var t := TallyOf(objects, keys);
    ByKeyIsTotalPreorder();
    Sorting.SortBySorted(t.originals, ByKey);
    Sorting.SortBySorted(t.previews, ByKey);
  }

  /** Everything reported comes from the listing: an image key, split on `_preview`. */
  lemma ReportedAreListed(objects: map<string, StoredObject>, keys: seq<string>)
    ensures var r := ReportOf(objects, keys);
      && (forall o | o in r.originals :: o.key in keys && IsListedImage(o.key) && !o.isPreview)
      && (forall p | p in r.previews :: p.key in keys && IsListedImage(p.key) && p.isPreview)
  {
    var r := ReportOf(objects, keys);
    var t := TallyOf(objects, keys);
    ReportSorted(objects, keys);
    forall o | o in r.originals ensures o.key in keys && IsListedImage(o.key) && !o.isPreview {
      TalliedFrom(objects, keys, IsOriginalEntry, o);
    }
    forall p | p in r.previews ensures p.key in keys && IsListedImage(p.key) && p.isPreview {
      TalliedFrom(objects, keys, IsPreviewEntry, p);
    }
  }

  lemma TalliedFrom(objects: map<string, StoredObject>, keys: seq<string>, keep: string -> bool, e: Listed)
    requires e in multiset(Entries(objects, Sorting.Filter(keys, keep)))
    ensures e.key in keys && keep(e.key) && e == EntryOf(objects, e.key)
  {
    var ks := Sorting.Filter(keys, keep);
    Sorting.FilterMembers(keys, keep);
    var es := Entries(objects, ks);
    var i :| 0 <= i < |es| && es[i] == e;
    assert ks[i] in ks;
  }

  lemma TalliedTo(objects: map<string, StoredObject>, keys: seq<string>, keep: string -> bool, k: string)
    requires k in keys && keep(k)
    ensures EntryOf(objects, k) in multiset(Entries(objects, Sorting.Filter(keys, keep)))
  {
    var ks := Sorting.Filter(keys, keep);
    Sorting.FilterMembers(keys, keep);
    var i :| 0 <= i < |ks| && ks[i] == k;
    assert Entries(objects, ks)[i] == EntryOf(objects, k);
  }

  /** Every listed image is reported: among the originals without `_preview`, among the previews with it. */
  lemma ListedAreReported(objects: map<string, StoredObject>, keys: seq<string>, k: string)
    requires k in keys && IsListedImage(k)
    ensures var r := ReportOf(objects, keys);
      && (!IsPreviewKey(k) ==> EntryOf(objects, k) in r.originals)
      && (IsPreviewKey(k) ==> EntryOf(objects, k) in r.previews)
  {
    ReportSorted(objects, keys);
    if IsPreviewKey(k) {
      TalliedTo(objects, keys, IsPreviewEntry, k);
    } else {
      TalliedTo(objects, keys, IsOriginalEntry, k);
    }
  }

  /** `totalSize` counts every object, the skipped ones too: it is the kept sizes plus the skipped sizes. */
  lemma {:induction false} TotalSizeSplit(objects: map<string, StoredObject>, keys: seq<string>, p: string -> bool)
    ensures TotalSize(objects, keys) ==
      TotalSize(objects, Sorting.Filter(keys, p)) + TotalSize(objects, Sorting.Filter(keys, Not(p)))
    decreases |keys|
  {
    if keys != [] {
      var n := |keys| - 1;
      var k := keys[n];
      TotalSizeSplit(objects, keys[..n], p);
      assert keys[..n + 1] == keys;
      Sorting.FilterSnoc(keys, n, p);
      Sorting.FilterSnoc(keys, n, Not(p));
      var yes, no := Sorting.Filter(keys[..n], p), Sorting.Filter(keys[..n], Not(p));
      assert Not(p)(k) == !p(k);
      if p(k) {
        assert Sorting.Filter(keys, p) == yes + [k];
        assert Sorting.Filter(keys, Not(p)) == no;
        TotalSizeSnoc(objects, yes, k);
      } else {
        assert Sorting.Filter(keys, p) == yes;
        assert Sorting.Filter(keys, Not(p)) == no + [k];
        TotalSizeSnoc(objects, no, k);
      }
    }
  }

  function Not(p: string -> bool): string -> bool
  {
    k => !p(k)
  }

  lemma TotalSizeSnoc(objects: map<string, StoredObject>, keys: seq<string>, k: string)
    ensures TotalSize(objects, keys + [k]) == TotalSize(objects, keys) + ObjectSize(objects, k)
  {
    assert (keys + [k])[..|keys|] == keys;
  }
}
