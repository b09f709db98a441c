/** The job record, its six statuses and the two extension tables of types.ts. */
module Types {
  import opened Results

  newtype byte = x: int | 0 <= x < 256

  /** A binary payload; its MIME type is not modelled. */
  type Blob = seq<byte>

  /** A browser `File`: a name and its bytes. */
  datatype File = File(name: string, data: Blob)

  datatype FileJobStatus = Queued | Processing | Converted | Error | Skipped | ExtractingZip

  /** The statuses that "clear completed" removes and `hasCompletedJobs` looks for. */
  predicate IsTerminal(s: FileJobStatus)
  {
    s == Converted || s == Error || s == Skipped
  }

  /** The statuses of a job whose asynchronous work has begun and not yet settled. */
  predicate IsInFlight(s: FileJobStatus)
  {
    s == Processing || s == ExtractingZip
  }

  /** Every status is exactly one of queued, in flight and terminal. */
  lemma StatusPartition(s: FileJobStatus)
    ensures (s == Queued) != (IsInFlight(s) || IsTerminal(s))
    ensures !(IsInFlight(s) && IsTerminal(s))
  {
  }

  /** A `FileJob`; `id` is a number drawn from a fresh-id supply. The optional
      `progress` field is never written by the source and is left out. */
  datatype FileJob = FileJob(
    id: nat,
    originalFile: File,
    status: FileJobStatus,
    message: Option<string>,
    convertedBlob: Option<Blob>,
    convertedFileName: Option<string>)

  const ALLOWED_EXTENSIONS: seq<string> := ["heic", "heif", "webp", "zip"]
  const IMAGE_EXTENSIONS: seq<string> := ["heic", "heif", "webp"]

  /** The allowed set is the image set plus "zip", which is not an image extension. */
  lemma ExtensionTables()
    ensures forall e :: e in IMAGE_EXTENSIONS ==> e in ALLOWED_EXTENSIONS
    ensures forall e :: e in ALLOWED_EXTENSIONS <==> e in IMAGE_EXTENSIONS || e == "zip"
    ensures "zip" !in IMAGE_EXTENSIONS
  {
  }
}
