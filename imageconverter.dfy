/** `convertToPng` of services/imageConverter.ts: the dispatch on the extension, the
    HEIC/HEIF result selection and error wrapping, and the WebP outcomes. The decoders
    themselves are outcomes given to the model. */
module ImageConverter {
  import opened Results
  import opened Utilities
  import opened Types

  const HEIC_NOT_LOADED := "HEIC conversion library (heic2any) not loaded."
  const HEIC_NO_BLOB := "HEIC conversion failed to produce a blob."
  const HEIC_FAILED_PREFIX := "HEIC/HEIF conversion failed: "
  const WEBP_NO_CONTEXT := "Failed to get canvas context for WebP conversion."
  const WEBP_TO_BLOB_NULL := "WebP to PNG conversion failed (canvas.toBlob returned null)."
  const WEBP_LOAD_FAILED := "Failed to load WebP image for conversion."
  const CONVERSION_UNSUPPORTED_PREFIX := "Unsupported file type for conversion: "

  /** What `heic2any` resolves with: one value or a list; `None` is a missing (falsy) blob. */
  datatype HeicValue = OneBlob(blob: Option<Blob>) | BlobList(blobs: seq<Option<Blob>>)

  datatype HeicOutcome = HeicResolved(value: HeicValue) | HeicRejected(reason: Thrown)

  /** How the WebP path ends: the image fails to load, the canvas has no 2D context,
      `toBlob` hands back null, or it hands back the PNG bytes. */
  datatype WebpOutcome = LoadFailed | NoContext | EncodeFailed | Encoded(png: Blob)

  /** The external capabilities a conversion sees. */
  datatype Decoders = Decoders(heicLoaded: bool, heic: HeicOutcome, webp: WebpOutcome)

  /** The WebP promise's settlement, and whether the object URL was revoked. */
  datatype WebpRun = WebpRun(result: Result<Blob, Thrown>, urlRevoked: bool)

  /** `Array.isArray(r) ? r[0] : r`: only the first element of a list is used. */
  function SelectBlob(v: HeicValue): (b: Option<Blob>)
    ensures v.OneBlob? ==> b == v.blob
    ensures v.BlobList? && |v.blobs| > 0 ==> b == v.blobs[0]
    ensures v.BlobList? && |v.blobs| == 0 ==> b.None?
  {
    match v
    case OneBlob(blob) => blob
    case BlobList(blobs) => if |blobs| == 0 then None else blobs[0]
  }

  /** The HEIC/HEIF branch. The capability check sits outside the `try`; everything
      thrown inside it, the missing-blob error included, is rethrown with a prefix. */
  function ConvertHeic(d: Decoders): (r: Result<Blob, Thrown>)
    ensures !d.heicLoaded ==> r == Err(ErrorValue(HEIC_NOT_LOADED))
    ensures d.heicLoaded && r.Err? ==>
      r.error.ErrorValue? && HEIC_FAILED_PREFIX <= r.error.message
    ensures d.heicLoaded && d.heic.HeicResolved? && SelectBlob(d.heic.value).Some? ==>
      r == Ok(SelectBlob(d.heic.value).value)
    ensures d.heicLoaded && d.heic.HeicResolved? && SelectBlob(d.heic.value).None? ==>
      r == Err(ErrorValue(HEIC_FAILED_PREFIX + HEIC_NO_BLOB))
    ensures d.heicLoaded && d.heic.HeicRejected? ==>
      r == Err(ErrorValue(HEIC_FAILED_PREFIX + Describe(d.heic.reason)))
  {
    if !d.heicLoaded then Err(ErrorValue(HEIC_NOT_LOADED))
    else
      var attempt: Result<Blob, Thrown> :=
        match d.heic
        case HeicRejected(e) => Err(e)
        case HeicResolved(v) =>
          match SelectBlob(v)
          case None => Err(ErrorValue(HEIC_NO_BLOB))
          case Some(b) => Ok(b);
      match attempt
      case Ok(b) => Ok(b)
      case Err(e) => Err(ErrorValue(HEIC_FAILED_PREFIX + Describe(e)))
  }

  /** The WebP branch. `onerror` revokes the URL and rejects; `onload` either returns
      early without a context (no revocation) or issues `toBlob` and then revokes. */
  function ConvertWebp(o: WebpOutcome): (run: WebpRun)
    ensures run.result.Err? ==> run.result.error.ErrorValue?
    ensures run.result.Ok? <==> o.Encoded?
    ensures o.Encoded? ==> run.result == Ok(o.png)
    ensures o.LoadFailed? ==> run.result == Err(ErrorValue(WEBP_LOAD_FAILED))
    ensures o.NoContext? ==> run.result == Err(ErrorValue(WEBP_NO_CONTEXT))
    ensures o.EncodeFailed? ==> run.result == Err(ErrorValue(WEBP_TO_BLOB_NULL))
  {
    match o
    case LoadFailed => WebpRun(Err(ErrorValue(WEBP_LOAD_FAILED)), true)
    case NoContext => WebpRun(Err(ErrorValue(WEBP_NO_CONTEXT)), false)
    case EncodeFailed => WebpRun(Err(ErrorValue(WEBP_TO_BLOB_NULL)), true)
    case Encoded(png) => WebpRun(Ok(png), true)
  }

  /** The WebP branch as evidently intended: the object URL is released on every path,
      the missing-context one included, and the promise settles as before. */
  function ConvertWebpReleasing(o: WebpOutcome): (run: WebpRun)
    ensures run.urlRevoked
    ensures run.result == ConvertWebp(o).result
  {
    match o
    case LoadFailed => WebpRun(Err(ErrorValue(WEBP_LOAD_FAILED)), true)
    case NoContext => WebpRun(Err(ErrorValue(WEBP_NO_CONTEXT)), true)
    case EncodeFailed => WebpRun(Err(ErrorValue(WEBP_TO_BLOB_NULL)), true)
    case Encoded(png) => WebpRun(Ok(png), true)
  }

  /** `convertToPng`: the branch is chosen by `getFileExtension(file.name)`. */
  function ConvertToPng(file: File, d: Decoders): (r: Result<Blob, Thrown>)
    ensures r.Err? ==> r.error.ErrorValue?
    ensures var ext := GetFileExtension(file.name);
      ext != "heic" && ext != "heif" && ext != "webp" ==>
        r == Err(ErrorValue(CONVERSION_UNSUPPORTED_PREFIX + ext))
  {
    var extension := GetFileExtension(file.name);
    if extension == "heic" || extension == "heif" then ConvertHeic(d)
    else if extension == "webp" then ConvertWebpReleasing(d.webp).result
    else Err(ErrorValue(CONVERSION_UNSUPPORTED_PREFIX + extension))
  }

  /** The choice of branch, and so the whole result, ignores the case of the name. */
  lemma ConversionIgnoresCase(a: File, b: File, d: Decoders)
    requires Lower(a.name) == Lower(b.name)
    ensures ConvertToPng(a, d) == ConvertToPng(b, d)
  {
    ExtensionIgnoresCase(a.name, b.name);
  }

  /** A file with an image extension reaches a decoder: "heic" and "heif" the HEIC
      routine, "webp" the canvas path; only other extensions are refused. */
  lemma ImageExtensionsReachDecoder(file: File, d: Decoders)
    requires GetFileExtension(file.name) in IMAGE_EXTENSIONS
    ensures GetFileExtension(file.name) == "webp" ==> ConvertToPng(file, d) == ConvertWebp(d.webp).result
    ensures GetFileExtension(file.name) == "webp" ==> ConvertToPng(file, d) == ConvertWebpReleasing(d.webp).result
    ensures GetFileExtension(file.name) != "webp" ==> ConvertToPng(file, d) == ConvertHeic(d)
  {
  }

  /** Without `multiple`, `heic2any` resolves with one blob, and that blob is the result. */
  lemma HeicSingleBlob(file: File, d: Decoders, b: Blob)
    requires GetFileExtension(file.name) in ["heic", "heif"]
    requires d.heicLoaded && d.heic == HeicResolved(OneBlob(Some(b)))
    ensures ConvertToPng(file, d) == Ok(b)
  {
  }

  /** A missing library on the HEIC/HEIF path fails with its own message, unwrapped. */
  lemma HeicLibraryMissing(file: File, d: Decoders)
    requires GetFileExtension(file.name) in ["heic", "heif"]
    requires !d.heicLoaded
    ensures ConvertToPng(file, d) == Err(ErrorValue(HEIC_NOT_LOADED))
  {
  }

  /** When `heic2any` resolves with a list whose first element is a blob, that blob is the
      result, whatever follows it. */
  lemma HeicFirstOfList(file: File, d: Decoders, first: Blob, rest: seq<Option<Blob>>)
    requires GetFileExtension(file.name) in ["heic", "heif"]
    requires d.heicLoaded && d.heic == HeicResolved(BlobList([Some(first)] + rest))
    ensures ConvertToPng(file, d) == Ok(first)
  {
  }

  /** A missing blob (an empty list, or a falsy value) is reported through the wrapper,
      so its message carries both texts. */
  lemma HeicMissingBlob(file: File, d: Decoders)
    requires GetFileExtension(file.name) in ["heic", "heif"]
    requires d.heicLoaded && d.heic.HeicResolved? && SelectBlob(d.heic.value).None?
    ensures ConvertToPng(file, d) == Err(ErrorValue(HEIC_FAILED_PREFIX + HEIC_NO_BLOB))
  {
  }

  /** A rejection of `heic2any` keeps its underlying text after the prefix. */
  lemma HeicRejectionWrapped(file: File, d: Decoders, e: Thrown)
    requires GetFileExtension(file.name) in ["heic", "heif"]
    requires d.heicLoaded && d.heic == HeicRejected(e)
    ensures ConvertToPng(file, d) == Err(ErrorValue(HEIC_FAILED_PREFIX + Describe(e)))
  {
  }

  /** As written, the object URL is revoked on every WebP path but the missing-context
      one, which keeps it alive. */
  lemma WebpRevocation(o: WebpOutcome)
    ensures ConvertWebp(o).urlRevoked <==> !o.NoContext?
    ensures o.LoadFailed? ==> ConvertWebp(o) == WebpRun(Err(ErrorValue(WEBP_LOAD_FAILED)), true)
  {
  }
}
