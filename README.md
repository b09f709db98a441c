# Image converter: a verified model of the job queue

This project models the core of a browser application that turns HEIC/HEIF and WebP
images into PNG files. Single images and ZIP archives of images are dropped onto a
dropzone. A queue of file jobs is then worked off one job at a time. A ZIP job is
replaced by one queued job per image inside it. An image job is converted and its PNG is
downloaded. Anything else is skipped.

The model has one module per core source file:

- `Utilities` (`utilities.dfy`): the file-name helpers `getFileExtension` and
  `getFileNameWithoutExtension`, over `lastIndexOf('.')` and `toLowerCase`.
- `Types` (`types.dfy`): the job record, the six job statuses and the two extension
  tables.
- `ZipHandler` (`ziphandler.dfy`): `extractImagesFromZip` over an abstract archive. It
  has the loop that starts one decompression per eligible entry, and a loop that lets
  the decompressions settle in any order.
- `ImageConverter` (`imageconverter.dfy`): `convertToPng`. This covers the dispatch on
  the extension, the HEIC/HEIF result selection, the error wrapping, and the WebP
  outcomes with the points where the object URL is released. The decoders are outcomes
  given to the model.
- `FileDropzone` (`filedropzone.dfy`): the intake filter `handleFileProcessing` with its
  own `split('.').pop()` extension, and the disabled guard of `onDrop`.
- `App` (`app.dfy`): the queue.
  - The whole-queue transforms (`updateJob`, `handleFilesSelected`,
    `handleClearCompleted`, `hasCompletedJobs`, and the two outcomes of
    `processFileJob`) are functions.
  - The class `Orchestrator` owns the job sequence and the `isProcessing` flag, and has
    one method per step.
  - Its invariant `Valid` says that ids are distinct and fresh, and that the flag is set
    exactly while one job is running. It also says that this job is the only one in
    flight.
  - Every step keeps `Valid`. Every step also moves each surviving job along an edge of
    the life cycle: queued, then in flight, then terminal, or queued then skipped.

Two helper modules hold shared definitions. `Results` has `Option`, `Result` and a
thrown value that is either an `Error` object or something else. `Seqs` has `filter`
and `some` on sequences.

Three things outside the model become parameters:

- whether the ZIP and HEIC libraries are loaded;
- what opening an archive and decompressing each entry yields;
- how each decoder ends.

Job ids come from a counter, which stands for `crypto.randomUUID` and never collides.
Each `downloadBlob` call becomes a `Download` record appended to a log.

The WebP path is evidently meant to release its object URL once the image is no longer
needed, on failure as on success. The code does not release it when the canvas has no 2D
context. The model states both versions; see "Findings".

## Model

| member | source | states |
|---|---|---|
| Utilities.Lower | services/utilities.ts:11 | lowering keeps the length and every dot in place, and leaves no upper-case letter |
| Utilities.LowerIdempotent | services/utilities.ts:11 | lowering a second time changes nothing |
| Utilities.LowerSuffix | services/utilities.ts:11 | lowering a suffix is the same as taking the suffix of the lowered text |
| Utilities.LowerOfLowerCase | services/utilities.ts:11 | text with no upper-case letter is its own lower case |
| Utilities.LastDot | services/utilities.ts:9 | `lastIndexOf('.')` is -1 or the index of a dot, and no dot follows it |
| Utilities.LastDotOfLower | services/utilities.ts:9-11 | lowering a name does not move its last dot |
| Utilities.GetFileNameWithoutExtension | services/utilities.ts:2-6 | without a dot the whole name; otherwise a strictly shorter prefix that the last dot follows |
| Utilities.GetFileExtension | services/utilities.ts:8-12 | "" without a dot; the result never contains a dot, is lower case, and is shorter than the name or empty |
| Utilities.SplitAtLastDot | services/utilities.ts:2-12 | with a dot: base + "." + original-case suffix is the name, and the extension is that suffix lowered |
| Utilities.JoinAtLastDot | services/utilities.ts:2-12 | conversely, a base, a dot and a dot-free suffix split back into that base and that suffix lowered |
| Utilities.ExtensionIgnoresCase | services/utilities.ts:11 | names equal up to case have the same extension |
| Utilities.ExampleSeveralDots | services/utilities.ts:2-12 | "a.b.c" has extension "c" and base "a.b" |
| Utilities.ExampleTrailingDot | services/utilities.ts:2-12 | "photo." has extension "" and base "photo" |
| Utilities.ExampleLeadingDot | services/utilities.ts:2-12 | ".heic" has extension "heic" and base "" |
| Utilities.ExampleUpperCase | services/utilities.ts:8-12 | "Photo.HEIC" has extension "heic" |
| Types.StatusPartition | types.ts:83 | every status is exactly one of queued, in flight (processing, extracting_zip) and terminal (converted, error, skipped) |
| Types.ExtensionTables | types.ts:95-96 | the image extensions are the allowed ones without "zip", and "zip" is not an image extension |
| Seqs.Filter | components/FileDropzone.tsx:15-18 | `Array.prototype.filter`: no longer than the input, and holding exactly the elements that pass |
| Seqs.Any | App.tsx:114 | `Array.prototype.some`: holds exactly when some element passes |
| Results.MessageOr | App.tsx:58 | `error instanceof Error ? error.message : fallback` |
| Results.Describe | services/imageConverter.ts:25 | `error instanceof Error ? error.message : String(error)`: an `Error` gives its message, any other value its text |
| ZipHandler.IsImageEntry | services/zipHandler.ts:17-19 | the `forEach` guard: not a directory, and `getFileExtension` of the name is an image extension |
| ZipHandler.Eligible | services/zipHandler.ts:16-19 | the entries a decompression is started for: no more than the archive holds, and exactly its non-directory entries with an image extension |
| ZipHandler.Decompressed | services/zipHandler.ts:20-28 | at most one file per pending entry |
| ZipHandler.DecompressedMember | services/zipHandler.ts:20-28 | a file is produced exactly when a pending entry of that name decompressed to its bytes; failures add nothing |
| ZipHandler.DecompressedConcat | services/zipHandler.ts:20-29 | decompressing two runs of entries yields the two results one after the other |
| ZipHandler.DecompressedCount | services/zipHandler.ts:20-29 | files yielded plus failed decompressions equals the number of pending entries |
| ZipHandler.StartDecompressions | services/zipHandler.ts:16-32 | the `forEach` pass starts one decompression per non-directory entry with an image extension, in archive order |
| ZipHandler.DecompressedPick | services/zipHandler.ts:34 | taking one pending entry out splits the produced files, as a multiset, into that entry's file (if any) and the others' files |
| ZipHandler.DecompressedAt | services/zipHandler.ts:34 | the same for the entry at any position, so the decompressions may settle in any order |
| ZipHandler.AwaitDecompressions | services/zipHandler.ts:34 | whatever order the decompressions settle in, the files collected are exactly the successful ones, as a multiset |
| ZipHandler.ExtractImagesFromZip | services/zipHandler.ts:5-36 | no library: the fixed error; archive fails to open: that error, uncaught; else the decompressed image entries as a multiset, eligible minus failed in number |
| ZipHandler.ExtractedMember | services/zipHandler.ts:17-23 | a file is extracted exactly when a non-directory image entry of that name decompressed to its bytes |
| ZipHandler.OneCorruptEntryIsIsolated | services/zipHandler.ts:25-28 | one corrupt and one readable image entry yield just the readable file, not an error |
| ZipHandler.IgnoredEntries | services/zipHandler.ts:17-19 | directories and entries without an image extension yield nothing, whatever they hold |
| ImageConverter.SelectBlob | services/imageConverter.ts:18 | a single result is used as is; of a list only the first element is used |
| ImageConverter.ConvertHeic | services/imageConverter.ts:7-26 | no library: the fixed error, unwrapped; a selected blob is the result; a missing blob fails with the prefix and the no-blob message; a rejection with the prefix and its text; with the library loaded, every failure is an `Error` starting with "HEIC/HEIF conversion failed: " |
| ImageConverter.ConvertWebp | services/imageConverter.ts:28-55 | the promise resolves exactly when `toBlob` yields a blob, and with that blob; a load failure, a missing context and a null blob each reject with their own `Error` message |
| ImageConverter.ConvertWebpReleasing | services/imageConverter.ts:28-55 | the intended WebP branch releases the URL on every path and settles exactly as the written one |
| ImageConverter.ConvertToPng | services/imageConverter.ts:4-59 | every failure is an `Error`; an extension other than heic, heif and webp fails with "Unsupported file type for conversion: " and the extension; the WebP branch is the URL-releasing one, which settles exactly as the written one |
| ImageConverter.ConversionIgnoresCase | services/imageConverter.ts:5 | names equal up to case convert the same way |
| ImageConverter.ImageExtensionsReachDecoder | services/imageConverter.ts:7-27 | "webp" goes to the canvas path, "heic" and "heif" to the HEIC routine |
| ImageConverter.HeicLibraryMissing | services/imageConverter.ts:8-10 | without the library the HEIC/HEIF path fails with its own message, not wrapped |
| ImageConverter.HeicSingleBlob | services/imageConverter.ts:18-22 | a single resolved blob, what `heic2any` gives without `multiple`, is the result |
| ImageConverter.HeicFirstOfList | services/imageConverter.ts:18-22 | a list whose first element is a blob yields that blob, whatever follows it |
| ImageConverter.HeicMissingBlob | services/imageConverter.ts:19-25 | a missing blob fails with the prefix followed by "HEIC conversion failed to produce a blob." |
| ImageConverter.HeicRejectionWrapped | services/imageConverter.ts:23-26 | a rejection of the library is rethrown with the prefix and the rejection's text |
| ImageConverter.WebpRevocation | services/imageConverter.ts:35-53 | as written, the URL is released on every WebP path except the missing-context one; a load failure rejects with its fixed message |
| FileDropzone.SplitOnDot | components/FileDropzone.tsx:16 | `split('.')` gives at least one piece and no piece holds a dot |
| FileDropzone.SplitJoin | components/FileDropzone.tsx:16 | the pieces joined with dots give the name back |
| FileDropzone.LastPiece | components/FileDropzone.tsx:16 | `pop()` of the split is the text after the last dot, or the whole name without a dot |
| FileDropzone.PopExtension | components/FileDropzone.tsx:16 | `split('.').pop()` lowered, with the empty-text fallback: the lowered last piece, dot-free and lower case |
| FileDropzone.Accepted | components/FileDropzone.tsx:15-18 | the filter's test: the popped extension is in `ALLOWED_EXTENSIONS` |
| FileDropzone.HandleFileProcessing | components/FileDropzone.tsx:13-23 | no list: no call; a call carries exactly the listed files whose popped extension is allowed, in their order and with repeats, and happens only when at least one is |
| FileDropzone.OnDrop | components/FileDropzone.tsx:45-51 | a disabled dropzone ignores the drop; otherwise the dropped files go through the filter |
| FileDropzone.SelectionKeepsOrder | components/FileDropzone.tsx:15-18 | the accepted files keep the order they were selected in |
| FileDropzone.PopExtensionVersusGetFileExtension | components/FileDropzone.tsx:16 | with a dot the popped extension is `getFileExtension`; without one it is the whole lowered name, while `getFileExtension` is "" |
| FileDropzone.BareZipNamePasses | components/FileDropzone.tsx:16 | a file named just "ZIP" passes the filter although its extension is "" |
| FileDropzone.AcceptedExactly | components/FileDropzone.tsx:15-18 | a file passes exactly when its extension is allowed, or it has no dot and its lowered name is allowed |
| App.ApplyPatch | App.tsx:29 | `{ ...j, ...updates }`: the fields the update carries replace the job's, the others and the id and file stay |
| App.UpdateJob | App.tsx:27-31 | same length and order; ids and files untouched; jobs with other ids unchanged; the matching job patched |
| App.UpdateAbsentJob | App.tsx:27-31 | an update for an id nobody carries leaves the queue as it is |
| App.UpdateChangesOneJob | App.tsx:27-31 | with distinct ids at most one job changes |
| App.FilterKeepsDistinctIds | App.tsx:52 | filtering a queue keeps its ids distinct |
| App.NewJobs | App.tsx:100-104 | one job per file, in order: id `firstId + i`, that file, `queued`, and no message or output |
| App.AddJobs | App.tsx:99-106 | the existing jobs unchanged as a prefix, then one queued job per file, in order, with consecutive fresh ids |
| App.AddJobsKeepsIds | App.tsx:100-105 | queueing new files keeps the ids distinct and below the supply |
| App.ClearCompleted | App.tsx:108-112 | keeps exactly the jobs that are not terminal |
| App.ClearIdempotent | App.tsx:108-112 | clearing twice is clearing once |
| App.ClearKeepsOrder | App.tsx:108-112 | the kept jobs keep their order |
| App.HasCompletedJobs | App.tsx:114 | holds exactly when some job is converted, error or skipped |
| App.ClearChangesIffCompleted | App.tsx:108-114 | clearing changes the queue exactly when `hasCompletedJobs` holds, and afterwards it does not |
| App.AnyInFlight | App.tsx:92 | holds exactly when some job is extracting or processing |
| App.FindQueued | App.tsx:83 | the position of a queued job with no queued job before it, or none when no job is queued |
| App.ExtensionsReachable | types.ts:95-96 | every allowed extension is lower case and dot-free, and is exactly what `getFileExtension` gives for a name ending in a dot and that extension |
| App.ExtensionsReachableAnyCase | types.ts:95-96 | the same extension written in any case gives the listed extension back |
| App.RouteOf | App.tsx:34-76 | the ZIP branch exactly for "zip", the image branch exactly for an image extension, otherwise unsupported with that extension |
| App.StartJob | App.tsx:36-78 | the first `updateJob` of `processFileJob`: the job's update for its route (see StartJobStatus) |
| App.StartPatch | App.tsx:36-78 | per route: extracting with "Extracting images from ZIP...", processing with "Converting image...", skipped with "Unsupported file type: " and the extension |
| App.StartJobStatus | App.tsx:36-78 | starting a job: ZIP to extracting with its message, image to processing with its message, other to skipped with "Unsupported file type: " and the extension |
| App.BareNameAcceptedThenSkipped | App.tsx:76-78 | a file named "ZIP" passes the dropzone and is then skipped with an empty extension in its message |
| App.OtherJobs | App.tsx:52 | exactly the jobs with another id |
| App.OtherJobsConcat | App.tsx:52 | the filter distributes over concatenation, so the kept jobs keep their order |
| App.OtherJobsAbsent | App.tsx:52 | a queue without the id is kept as it is |
| App.OtherJobsDropsOne | App.tsx:52 | with distinct ids the filter removes just the job of that id and keeps the rest in order |
| App.OtherJobsKeepDistinctIds | App.tsx:51-54 | removing the ZIP job keeps the ids distinct |
| App.FinishZip | App.tsx:40-58 | the queue after the extraction settles: replaced by the images when there are some, else the job's update by ZipPatch |
| App.ZipPatch | App.tsx:40-58 | no images: skipped with "No supported images found in ZIP."; failure: error with the thrown message or "ZIP extraction failed" |
| App.ZipWithoutImagesIsSkipped | App.tsx:40-42 | a ZIP without images is skipped with a non-empty message |
| App.ZipWithImagesIsReplaced | App.tsx:45-54 | a ZIP with images leaves the queue; the other jobs stay, as the filter keeps them and in their order, then one queued job per image, in order, with fresh ids |
| App.ZipFailureIsError | App.tsx:56-58 | a failed extraction makes the job an error with the thrown message or "ZIP extraction failed" |
| App.PngName | App.tsx:64 | `${getFileNameWithoutExtension(name)}.png` (its extension and base in PngNameIsPng) |
| App.FinishImage | App.tsx:63-74 | the queue after the conversion settles: the job's update by ImagePatch |
| App.ImagePatch | App.tsx:66-74 | success: converted, with "Converted to " and the PNG name, the PNG and its name; failure: error with the thrown message or "Image conversion failed" |
| App.PngNameIsPng | App.tsx:64 | the output name has extension "png" and keeps the original base |
| App.PngSuffix | App.tsx:64 | any base followed by ".png" has extension "png" and gives that base back |
| App.ImageConverted | App.tsx:63-71 | a conversion makes the job converted with the PNG, the name base + ".png" and "Converted to " + that name |
| App.ImageFailureIsError | App.tsx:72-74 | a failed conversion makes the job an error carrying the converter's own message |
| App.TerminalIsFinal | App.tsx:82-97 | no edge of the life cycle leaves a terminal status |
| App.UpdateAdvances | App.tsx:27-31 | an update whose new status follows an edge moves every job along an edge |
| App.KeptOrFreshAdvances | App.tsx:51-54 | a queue of unchanged old jobs and fresh jobs advances the old one |
| App.AddJobsKeepsInFlight | App.tsx:99-106 | queueing files leaves the one job in flight as it was |
| App.ClearKeepsInFlight | App.tsx:108-112 | clearing never removes the job in flight |
| App.Orchestrator.AtMostOneInFlight | App.tsx:84-89 | under the invariant at most one job is extracting or processing |
| App.Orchestrator.FlagMeansInFlight | App.tsx:91-95 | under the invariant `isProcessing` equals "some job is in flight", so the last branch of the effect changes nothing |
| App.Orchestrator.constructor | App.tsx:12-14 | an empty queue, the flag cleared, nothing downloaded |
| App.Orchestrator.SelectFiles | App.tsx:99-106 | the queue becomes `handleFilesSelected` of the old one with fresh ids; the flag and the running job stay |
| App.Orchestrator.DropFiles | components/FileDropzone.tsx:45-51 | a drop while processing changes nothing; otherwise the accepted files are queued and the id supply advances by their number |
| App.Orchestrator.ClearCompletedJobs | App.tsx:108-112 | the queue becomes `handleClearCompleted` of the old one; the flag and the running job stay |
| App.Orchestrator.Schedule | App.tsx:82-97 | idle with a queued job: the first one is started, and an unsupported one is skipped and the flag cleared; busy: nothing changes; nothing queued: the flag is kept only while a job is in flight |
| App.Orchestrator.ProcessFileJob | App.tsx:84-89 | the flag is set and the queued job takes its first step (lines 36-37, 60-61, 76-77): it becomes the running job, or it is skipped and the `finally` clears the flag at once |
| App.Orchestrator.StartAdvances | App.tsx:36-78 | starting the first queued job changes only that job, along an edge, keeps the ids, and leaves it the only job in flight unless it was skipped |
| App.Orchestrator.SettleZip | App.tsx:38-39 | the ZIP job's extraction is what `extractImagesFromZip` yields, and the job then ends as that extraction says |
| App.Orchestrator.AfterExtraction | App.tsx:40-59 | the ZIP job is skipped, made an error, or replaced by its images with fresh ids; the `finally` clears the flag with nothing in flight |
| App.Orchestrator.SettleImage | App.tsx:62-63 | the image job's result is what `convertToPng` yields, and the job then ends as that result says |
| App.Orchestrator.AfterConversion | App.tsx:64-75 | the image job ends converted, with its PNG downloaded under base + ".png", or as an error; the `finally` clears the flag with nothing in flight |
| App.Orchestrator.SettleZipKeepsIds | App.tsx:38-59 | ending the ZIP job keeps ids distinct and fresh, advances every job and leaves nothing in flight |
| App.Orchestrator.ReplacementKeepsIds | App.tsx:45-54 | the other jobs followed by one fresh queued job per image have distinct ids below the new supply, and nothing is in flight |
| App.Orchestrator.SettleImageKeepsIds | App.tsx:62-75 | ending the image job keeps every id, advances every job and leaves nothing in flight |

## Left out

- Utilities.Lower: `toLowerCase` is modelled for the ASCII letters only; other Unicode case mappings are not modelled.
- The optional `progress` field of a job is never written by the application and is not modelled.
- `downloadBlob` (object URL, anchor element, click) is modelled only as a `Download` record of the PNG and its name, appended to the orchestrator's log.
- The script-loading poll with `setTimeout`, and the loading screen shown until both libraries are present: timing only. Whether each library is loaded is a parameter of the operation that needs it.
- `crypto.randomUUID` is modelled as a counter of fresh natural-number ids, so ids never collide.
- JSZip's `loadAsync` is the `archive` parameter: the entries in `forEach` order, or the error opening fails with. `async('blob')` is each entry's outcome. The MIME type of an extracted file is not modelled.
- `Promise.all` parallelism is modelled as the decompressions settling one at a time in an arbitrary order. Timing beyond that order is not modelled.
- The HEIC decoder, the canvas drawing and PNG encoding, the 0.9 quality, and the canvas size are modelled only as outcomes.
- `String(error)` of a thrown non-`Error` value is modelled as a text carried by that value.
- React rendering, re-running of effects, state batching and `console.error` logging are not modelled. Each orchestrator method is one atomic step.
- A job whose extension is unsupported is modelled with its skip and the flag reset in one step. In the source the reset is a `finally` that runs right after the synchronous body.
- `onFileChange` (components/FileDropzone.tsx:53-56) is the file picker's call of `handleFileProcessing` with the chosen list, so `HandleFileProcessing` covers it; the reset of the input's value afterwards is not modelled.
- The drag-state visuals of the dropzone, `FileListItem` and `FullScreenLoader` are presentation and are not modelled.
- App.Orchestrator.SelectFiles and App.Orchestrator.ClearCompletedJobs may run while a job is processing. In the application the picker input (components/FileDropzone.tsx:91) and the Clear Completed button (App.tsx:147) are disabled then. Both steps keep `Valid` anyway, so the model allows more interleavings than the application.
- The ambient typings for JSZip and heic2any in types.ts describe foreign libraries and are not modelled.
- Browser `File` objects are modelled as values, a name and bytes. Their identity is not modelled.

## Findings

| source | as written | input that shows it | evidently intended | confidence | as-written member | corrected member |
|---|---|---|---|---|---|---|
| services/imageConverter.ts:35-38 | the missing-context early return rejects without `URL.revokeObjectURL(img.src)` | a WebP file when `getContext('2d')` returns null | the object URL is released on every path, as on the load-failure and success paths | medium, not executed | ImageConverter.WebpRevocation | ImageConverter.ConvertWebpReleasing |
