/**
 * File-name rules shared by the scripts: Node's `path.extname` and
 * `path.basename(name, ext)`, the image-extension regular expressions, and the
 * naming of preview files and preview keys (`<stem>_preview.webp`).
 */
module FileNames {
  import opened Common
  import opened Text

  const PREVIEW_SUFFIX := "_preview"
  const PREVIEW_REPLACEMENT := "_preview.webp"

  /** The last '/'-separated segment of a path (the file name of a path that does not end in '/'). */
  function BaseName(path: string): (name: string)
    ensures '/' !in name && |name| <= |path|
    ensures forall k | 0 <= k < |name| :: name[k] == path[|path| - |name| + k]
  {
    match LastIndexOfChar(path, '/')
    case None => path
    case Some(i) => path[i + 1..]
  }

  /**
   * `path.extname(name)` for a name without '/': everything from the last '.', except
   * that a dot in first position, or the name "..", gives no extension.
   */
  function ExtName(name: string): (ext: string)
    ensures ext != [] ==> ext[0] == '.' && |ext| < |name|
    ensures ext != [] ==> forall k | 1 <= k < |ext| :: ext[k] != '.'
    ensures forall k | 0 <= k < |ext| :: ext[k] == name[|name| - |ext| + k]
    ensures ext == [] ==> '.' !in name || name[0] == '.'
  {
    match LastIndexOfChar(name, '.')
    case None => ""
    case Some(d) => if d == 0 || name == ".." then "" else name[d..]
  }

  /** `path.basename(name, path.extname(name))`: the name with its extension removed. */
  function Stem(name: string): (stem: string)
    ensures stem + ExtName(name) == name
  {
    name[..|name| - |ExtName(name)|]
  }

  /** `path.extname(p).toLowerCase()`. */
  function LowerExtName(path: string): string
  {
    Lower(ExtName(BaseName(path)))
  }

  /** The base name of `dir/name` is `name` when `name` has no '/'. */
  lemma BaseNameOfChild(dir: string, name: string)
    requires '/' !in name
    ensures BaseName(dir + "/" + name) == name
  {
    var path := dir + "/" + name;
    forall k | |dir| < k < |path|
      ensures path[k] != '/'
    {
      assert path[k] == name[k - |dir| - 1];
    }
    LastIndexOfCharIs(path, '/', |dir|);
    assert path[|dir| + 1..] == name;
  }

  /** The extension of `stem + ext` is `ext` when the stem is not empty and `ext` is a dot followed by a dot-free rest. */
  lemma ExtNameOfStem(stem: string, ext: string)
    requires stem != [] && |ext| >= 2 && ext[0] == '.' && '.' !in ext[1..]
    ensures ExtName(stem + ext) == ext
  {
    var name := stem + ext;
    forall k | |stem| < k < |name|
      ensures name[k] != '.'
    {
      assert name[k] == ext[1..][k - |stem| - 1];
    }
    LastIndexOfCharIs(name, '.', |stem|);
    assert name[|stem|..] == ext;
  }

  /** `/\.(jpg|jpeg|png)$/i`. */
  predicate HasImageExt(s: string)
  {
    EndsWithIgnoreCase(s, ".jpg") || EndsWithIgnoreCase(s, ".jpeg") || EndsWithIgnoreCase(s, ".png")
  }

  /** `/\.(jpg|jpeg|png|webp)$/i` (the same set as `/\.(jpe?g|png|webp)$/i`). */
  predicate HasWebImageExt(s: string)
  {
    HasImageExt(s) || EndsWithIgnoreCase(s, ".webp")
  }

  /** The length of the extension that `/\.(jpg|jpeg|png)$/i` matches. */
  function ImageExtLength(s: string): (n: nat)
    requires HasImageExt(s)
    ensures n <= |s| && (n == 4 || n == 5)
  {
    if EndsWithIgnoreCase(s, ".jpeg") then 5 else 4
  }

  /** `s.replace(/\.(jpg|jpeg|png)$/i, replacement)`: a trailing image extension is replaced; any other string is returned as it is. */
  function ReplaceImageExt(s: string, replacement: string): string
  {
    if HasImageExt(s) then s[..|s| - ImageExtLength(s)] + replacement else s
  }

  /** The preview key (or preview path) of an original: its image extension replaced by `_preview.webp`. */
  function PreviewKey(key: string): string
  {
    ReplaceImageExt(key, PREVIEW_REPLACEMENT)
  }

  /** clear-previews' `isPreview`: the name without its extension ends with `_preview`. */
  predicate IsPreview(name: string)
  {
    EndsWith(Stem(name), PREVIEW_SUFFIX)
  }

  /** generate-previews' preview file name: `<stem>_preview.webp`. */
  function PreviewFileName(name: string): string
  {
    Stem(name) + PREVIEW_REPLACEMENT
  }

  lemma WebpIsNotImageExt(s: string)
    requires EndsWith(s, ".webp")
    ensures !HasImageExt(s)
  {
    var n := |s|;
    assert s[n - 4] == 'w';
    assert Lower(s[n - 4..]) == "webp";
    assert Lower(s[n - 5..])[1] == 'w';
  }

  /**
   * A key with an image extension and its preview key differ; the preview key ends in
   * `_preview.webp`, no longer carries an image extension, and keeps everything before
   * the extension.
   */
  lemma PreviewKeyShape(key: string)
    requires HasImageExt(key)
    ensures var p := PreviewKey(key);
      && EndsWith(p, PREVIEW_REPLACEMENT)
      && !HasImageExt(p)
      && p != key
      && p[..|key| - ImageExtLength(key)] == key[..|key| - ImageExtLength(key)]
  {
    var p := PreviewKey(key);
    var n := ImageExtLength(key);
    assert p == key[..|key| - n] + PREVIEW_REPLACEMENT;
    assert p[|p| - 13..] == PREVIEW_REPLACEMENT;
    WebpIsNotImageExt(p);
  }

  /** The preview key of an original is not an original's key, in particular not its own. */
  lemma PreviewKeyIsNotImage(key: string)
    requires HasImageExt(key)
    ensures !HasImageExt(PreviewKey(key)) && PreviewKey(key) != key
  {
    PreviewKeyShape(key);
  }

  /**
   * Two originals share a preview key only when they agree on everything before the
   * image extension: `g/a.jpg` and `g/a.png` are both previewed at `g/a_preview.webp`.
   */
  lemma {:induction false} PreviewKeyCollision(a: string, b: string)
    requires HasImageExt(a) && HasImageExt(b)
    ensures PreviewKey(a) == PreviewKey(b) <==>
      a[..|a| - ImageExtLength(a)] == b[..|b| - ImageExtLength(b)]
  {
    var sa, sb := a[..|a| - ImageExtLength(a)], b[..|b| - ImageExtLength(b)];
    if PreviewKey(a) == PreviewKey(b) {
      assert sa + PREVIEW_REPLACEMENT == sb + PREVIEW_REPLACEMENT;
      assert |sa| == |sb|;
      assert sa == (sa + PREVIEW_REPLACEMENT)[..|sa|];
    }
  }

  /**
   * The preview file generate-previews writes for a name is itself a preview in the
   * sense of clear-previews (and of generate-previews' own skip rule).
   */
  lemma PreviewFileIsPreview(name: string)
    ensures Stem(PreviewFileName(name)) == Stem(name) + PREVIEW_SUFFIX
    ensures IsPreview(PreviewFileName(name))
  {
    PreviewOfStem(Stem(name));
  }

  /** The preview name built on a stem has that stem and the suffix as its own stem. */
  lemma PreviewOfStem(base: string)
    ensures Stem(base + PREVIEW_REPLACEMENT) == base + PREVIEW_SUFFIX
    ensures EndsWith(base + PREVIEW_SUFFIX, PREVIEW_SUFFIX)
  {
    var stem := base + PREVIEW_SUFFIX;
    assert PREVIEW_REPLACEMENT == PREVIEW_SUFFIX + ".webp";
    assert base + PREVIEW_REPLACEMENT == stem + ".webp";
    StemOfWebp(stem);
    assert stem[|stem| - |PREVIEW_SUFFIX|..] == PREVIEW_SUFFIX;
  }

  /** A `.webp` name's stem is what comes before the extension. */
  lemma StemOfWebp(stem: string)
    requires stem != []
    ensures Stem(stem + ".webp") == stem
  {
    var p := stem + ".webp";
    assert ".webp"[1..] == "webp";
    ExtNameOfStem(stem, ".webp");
    assert p[..|p| - 5] == stem;
  }
}
