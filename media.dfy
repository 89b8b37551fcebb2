/**
 * The image libraries as the scripts use them: `imageSize` measures a buffer and
 * may throw on one it cannot read, and `sharp` re-encodes an image as a WebP
 * preview under a resize policy and may fail. Both are parameters of the model
 * (a `Codec`); only the policy the scripts pass them is fixed here. Also the
 * metadata record that describes one uploaded image and its preview.
 */
module Media {
  import opened Common
  import opened FsTree

  const PUBLIC_URL := "https://r2.pbsv.photo"

  /** What `imageSize` reports: width, height and format name. */
  datatype Dims = Dims(width: nat, height: nat, format: string)

  datatype Mode = Events | Portfolio

  /** sharp's `resize` options: fit inside the given bounds, never enlarging. */
  datatype Resize = FitInside(maxWidth: Option<nat>, maxHeight: Option<nat>, withoutEnlargement: bool)

  datatype Codec = Codec(
    measure: Bytes -> Option<Dims>,
    encodePreview: (Bytes, Resize) -> Option<Bytes>)

  /** Events previews are 400 pixels high, every other preview 800 pixels wide; small images are never enlarged. */
  function PreviewResize(mode: Mode): (r: Resize)
    ensures r.withoutEnlargement
    ensures r.maxHeight.Some? <==> mode == Events
    ensures r.maxWidth.Some? <==> mode == Portfolio
    ensures r.maxHeight.Some? ==> r.maxHeight.value == 400
    ensures r.maxWidth.Some? ==> r.maxWidth.value == 800
  {
    match mode
    case Events => FitInside(None, Some(400), true)
    case Portfolio => FitInside(Some(800), None, true)
  }

  datatype PreviewRecord = PreviewRecord(url: string, width: nat, height: nat, format: string)

  /** One entry of the image metadata index (`{url, width, height, type, preview}`), preview null when absent. */
  datatype ImageRecord = ImageRecord(url: string, width: nat, height: nat, format: string, preview: Option<PreviewRecord>)

  /** The public address of a bucket key. */
  function PublicUrl(key: string): string
  {
    PUBLIC_URL + "/" + key
  }

  lemma PublicUrlInjective(a: string, b: string)
    requires PublicUrl(a) == PublicUrl(b)
    ensures a == b
  {
    var n := |PUBLIC_URL + "/"|;
    assert a == PublicUrl(a)[n..];
    assert b == PublicUrl(b)[n..];
  }
}
