/** The job queue of App.tsx: the whole-queue transforms (`updateJob`, the two
    `setFileJobs` updates of `processFileJob`, `handleFilesSelected`,
    `handleClearCompleted`, `hasCompletedJobs`) as functions, and the orchestrator that
    owns `fileJobs` and `isProcessing` as a class whose methods are its steps. */
module App {
  import opened Results
  import opened Seqs
  import opened Utilities
  import opened Types
  import ZipHandler
  import ImageConverter
  import FileDropzone

  const EXTRACTING_MESSAGE := "Extracting images from ZIP..."
  const NO_IMAGES_MESSAGE := "No supported images found in ZIP."
  const ZIP_FAILED_FALLBACK := "ZIP extraction failed"
  const CONVERTING_MESSAGE := "Converting image..."
  const CONVERSION_FAILED_FALLBACK := "Image conversion failed"
  const SKIP_PREFIX := "Unsupported file type: "
  const CONVERTED_PREFIX := "Converted to "

  // ---------------------------------------------------------------------------
  // Updating one job

  /** A `Partial<FileJob>` as the orchestrator passes it: the fields it carries. */
  datatype Patch = Patch(
    status: Option<FileJobStatus>,
    message: Option<string>,
    convertedBlob: Option<Blob>,
    convertedFileName: Option<string>)

  function StatusPatch(status: FileJobStatus, message: string): Patch
  {
    Patch(Some(status), Some(message), None, None)
  }

  /** `{ ...j, ...updates }`: each field the patch carries replaces the job's own. */
  function ApplyPatch(j: FileJob, p: Patch): (r: FileJob)
    ensures r.id == j.id && r.originalFile == j.originalFile
    ensures p.status.Some? ==> r.status == p.status.value
    ensures p.status.None? ==> r.status == j.status
    ensures p.message.Some? ==> r.message == p.message
    ensures p.message.None? ==> r.message == j.message
    ensures p.convertedBlob.Some? ==> r.convertedBlob == p.convertedBlob
    ensures p.convertedBlob.None? ==> r.convertedBlob == j.convertedBlob
    ensures p.convertedFileName.Some? ==> r.convertedFileName == p.convertedFileName
    ensures p.convertedFileName.None? ==> r.convertedFileName == j.convertedFileName
  {
    j.(status := if p.status.Some? then p.status.value else j.status,
       message := if p.message.Some? then p.message else j.message,
       convertedBlob := if p.convertedBlob.Some? then p.convertedBlob else j.convertedBlob,
       convertedFileName := if p.convertedFileName.Some? then p.convertedFileName else j.convertedFileName)
  }

  /** `updateJob`: the queue with the patch applied to the jobs carrying `jobId`. */
  function UpdateJob(jobs: seq<FileJob>, jobId: nat, p: Patch): (r: seq<FileJob>)
    ensures |r| == |jobs|
    ensures forall i :: 0 <= i < |jobs| ==>
      r[i].id == jobs[i].id && r[i].originalFile == jobs[i].originalFile
    ensures forall i :: 0 <= i < |jobs| && jobs[i].id != jobId ==> r[i] == jobs[i]
    ensures forall i :: 0 <= i < |jobs| && jobs[i].id == jobId ==> r[i] == ApplyPatch(jobs[i], p)
  {
    seq(|jobs|, i requires 0 <= i < |jobs| =>
      if jobs[i].id == jobId then ApplyPatch(jobs[i], p) else jobs[i])
  }

  /** An update for an id no job carries leaves the queue as it is. */
  lemma UpdateAbsentJob(jobs: seq<FileJob>, jobId: nat, p: Patch)
    requires forall i :: 0 <= i < |jobs| ==> jobs[i].id != jobId
    ensures UpdateJob(jobs, jobId, p) == jobs
  {
  }

  // ---------------------------------------------------------------------------
  // Ids

  predicate DistinctIds(jobs: seq<FileJob>)
  {
    forall i, k :: 0 <= i < |jobs| && 0 <= k < |jobs| && i != k ==> jobs[i].id != jobs[k].id
  }

  /** Every id was drawn from the supply before `next`. */
  predicate IdsBelow(jobs: seq<FileJob>, next: nat)
  {
    forall i :: 0 <= i < |jobs| ==> jobs[i].id < next
  }

  /** With distinct ids, `updateJob` changes at most the one job carrying `jobId`. */
  lemma UpdateChangesOneJob(jobs: seq<FileJob>, jobId: nat, p: Patch, i: nat, k: nat)
    requires DistinctIds(jobs)
    requires i < |jobs| && k < |jobs| && i != k
    requires UpdateJob(jobs, jobId, p)[i] != jobs[i]
    ensures UpdateJob(jobs, jobId, p)[k] == jobs[k]
  {
  }

  lemma {:induction false} FilterKeepsDistinctIds(p: FileJob -> bool, jobs: seq<FileJob>)
    requires DistinctIds(jobs)
    ensures DistinctIds(Filter(p, jobs))
  {
    if jobs != [] {
      var rest := jobs[1..];
      assert DistinctIds(rest) by {
        forall i, k | 0 <= i < |rest| && 0 <= k < |rest| && i != k
          ensures rest[i].id != rest[k].id
        {
          assert rest[i] == jobs[i + 1] && rest[k] == jobs[k + 1];
        }
      }
      FilterKeepsDistinctIds(p, rest);
      var tail := Filter(p, rest);
      if p(jobs[0]) {
        var r := [jobs[0]] + tail;
        forall k | 0 <= k < |tail| ensures tail[k].id != jobs[0].id {
          assert tail[k] in rest;
        }
        forall i, k | 0 <= i < |r| && 0 <= k < |r| && i != k ensures r[i].id != r[k].id {
          if i > 0 && k > 0 {
            assert r[i] == tail[i - 1] && r[k] == tail[k - 1];
          } else if i == 0 {
            assert r[k] == tail[k - 1];
          } else {
            assert r[i] == tail[i - 1];
          }
        }
        assert Filter(p, jobs) == r;
      } else {
        assert Filter(p, jobs) == tail;
      }
    }
  }

  // ---------------------------------------------------------------------------
  // Adding, clearing, querying

  /** The new `queued` jobs for `files`, with ids drawn in order from `firstId`. */
  function NewJobs(files: seq<File>, firstId: nat): (r: seq<FileJob>)
    ensures |r| == |files|
    ensures forall i :: 0 <= i < |files| ==>
      r[i].id == firstId + i && r[i].originalFile == files[i] && r[i].status == Queued
      && r[i].message.None? && r[i].convertedBlob.None? && r[i].convertedFileName.None?
  {
    seq(|files|, i requires 0 <= i < |files| => FileJob(firstId + i, files[i], Queued, None, None, None))
  }

  /** `handleFilesSelected`: one fresh `queued` job per file, after the existing jobs. */
  function AddJobs(jobs: seq<FileJob>, files: seq<File>, firstId: nat): (r: seq<FileJob>)
    ensures |r| == |jobs| + |files|
    ensures r[..|jobs|] == jobs
    ensures forall i :: 0 <= i < |files| ==>
      r[|jobs| + i] == FileJob(firstId + i, files[i], Queued, None, None, None)
  {
    jobs + NewJobs(files, firstId)
  }

  /** Fresh ids keep the ids distinct and the supply ahead of them. */
  lemma AddJobsKeepsIds(jobs: seq<FileJob>, files: seq<File>, next: nat)
    requires DistinctIds(jobs) && IdsBelow(jobs, next)
    ensures DistinctIds(AddJobs(jobs, files, next))
    ensures IdsBelow(AddJobs(jobs, files, next), next + |files|)
  {
    var r := AddJobs(jobs, files, next);
    forall i, k | 0 <= i < |r| && 0 <= k < |r| && i != k ensures r[i].id != r[k].id {
      if i < |jobs| && k < |jobs| {
        assert r[i] == jobs[i] && r[k] == jobs[k];
      } else if i < |jobs| {
        assert r[i] == jobs[i];
        assert r[k].id == next + (k - |jobs|);
      } else if k < |jobs| {
        assert r[k] == jobs[k];
        assert r[i].id == next + (i - |jobs|);
      } else {
        assert r[i].id == next + (i - |jobs|) && r[k].id == next + (k - |jobs|);
      }
    }
    forall i | 0 <= i < |r| ensures r[i].id < next + |files| {
      if i < |jobs| {
        assert r[i] == jobs[i];
      } else {
        assert r[i].id == next + (i - |jobs|);
      }
    }
  }

  /** The test of `handleClearCompleted`: queued or in flight. */
  predicate IsPending(j: FileJob)
  {
    j.status == Queued || j.status == Processing || j.status == ExtractingZip
  }

  /** `handleClearCompleted`. */
  function ClearCompleted(jobs: seq<FileJob>): (r: seq<FileJob>)
    ensures forall j :: j in r <==> j in jobs && !IsTerminal(j.status)
    ensures |r| <= |jobs|
  {
    Filter(IsPending, jobs)
  }

  /** Clearing twice is clearing once. */
  lemma ClearIdempotent(jobs: seq<FileJob>)
    ensures ClearCompleted(ClearCompleted(jobs)) == ClearCompleted(jobs)
  {
    FilterIdempotent(IsPending, jobs);
  }

  /** The kept jobs keep their order. */
  lemma ClearKeepsOrder(a: seq<FileJob>, b: seq<FileJob>)
    ensures ClearCompleted(a + b) == ClearCompleted(a) + ClearCompleted(b)
  {
    FilterConcat(IsPending, a, b);
  }

  predicate IsCompleted(j: FileJob)
  {
    IsTerminal(j.status)
  }

  /** `hasCompletedJobs`. */
  function HasCompletedJobs(jobs: seq<FileJob>): (r: bool)
    ensures r <==> exists i :: 0 <= i < |jobs| && IsTerminal(jobs[i].status)
  {
    Any(IsCompleted, jobs)
  }

  /** The "clear completed" button has work to do exactly when `hasCompletedJobs` holds. */
  lemma ClearChangesIffCompleted(jobs: seq<FileJob>)
    ensures ClearCompleted(jobs) != jobs <==> HasCompletedJobs(jobs)
    ensures !HasCompletedJobs(ClearCompleted(jobs))
  {
    FilterUnchanged(IsPending, jobs);
    var r := ClearCompleted(jobs);
    forall i | 0 <= i < |r| ensures !IsTerminal(r[i].status) {
      assert r[i] in r;
    }
    if HasCompletedJobs(jobs) {
      var i :| 0 <= i < |jobs| && IsTerminal(jobs[i].status);
      assert jobs[i] in jobs && !IsPending(jobs[i]);
    } else {
      forall j | j in jobs ensures IsPending(j) {
        var i :| 0 <= i < |jobs| && jobs[i] == j;
      }
    }
  }

  predicate IsInFlightJob(j: FileJob)
  {
    IsInFlight(j.status)
  }

  /** `fileJobs.some(j => ['extracting_zip', 'processing'].includes(j.status))`. */
  function AnyInFlight(jobs: seq<FileJob>): (r: bool)
    ensures r <==> exists i :: 0 <= i < |jobs| && IsInFlight(jobs[i].status)
  {
    Any(IsInFlightJob, jobs)
  }

  /** `fileJobs.find(j => j.status === 'queued')`, as the position of that job. */
  function FindQueued(jobs: seq<FileJob>): (r: Option<nat>)
    ensures r.Some? ==> r.value < |jobs| && jobs[r.value].status == Queued
    ensures r.Some? ==> forall k :: 0 <= k < r.value ==> jobs[k].status != Queued
    ensures r.None? ==> forall k :: 0 <= k < |jobs| ==> jobs[k].status != Queued
  {
    if jobs == [] then None
    else if jobs[0].status == Queued then Some(0)
    else
      match FindQueued(jobs[1..])
      case None => None
      case Some(i) => Some(i + 1)
  }

  // ---------------------------------------------------------------------------
  // Processing one job

  /** Every listed extension is lower-case and dot-free, so it is exactly what
      `getFileExtension` returns for a name that ends in a dot and that extension. */
  lemma ExtensionsReachable(base: string, e: string)
    requires e in ALLOWED_EXTENSIONS
    ensures IsLowerCase(e) && '.' !in e
    ensures GetFileExtension(base + "." + e) == e
  {
    assert e == "heic" || e == "heif" || e == "webp" || e == "zip";
    assert forall i :: 0 <= i < |e| ==> 'a' <= e[i] <= 'z';
    JoinAtLastDot(base, e);
    LowerOfLowerCase(e);
  }

  /** The same extension written in any case is still recognised. */
  lemma ExtensionsReachableAnyCase(base: string, e: string, typed: string)
    requires e in ALLOWED_EXTENSIONS
    requires Lower(typed) == e
    ensures GetFileExtension(base + "." + typed) == e
  {
    assert forall i :: 0 <= i < |typed| ==> (typed[i] == '.' <==> e[i] == '.');
    JoinAtLastDot(base, typed);
  }

  /** The three branches of `processFileJob`, chosen by `getFileExtension`. */
  datatype Route = ZipRoute | ImageRoute | UnsupportedRoute(extension: string)

  function RouteOf(name: string): (r: Route)
    ensures r.ZipRoute? <==> GetFileExtension(name) == "zip"
    ensures r.ImageRoute? <==> GetFileExtension(name) in IMAGE_EXTENSIONS
    ensures r.UnsupportedRoute? ==>
      r.extension == GetFileExtension(name) && r.extension != "zip" && r.extension !in IMAGE_EXTENSIONS
  {
    var extension := GetFileExtension(name);
    if extension == "zip" then ZipRoute
    else if extension in IMAGE_EXTENSIONS then ImageRoute
    else UnsupportedRoute(extension)
  }

  /** The synchronous start of `processFileJob`: the job goes in flight, or an
      unsupported one is skipped at once. */
  function StartJob(jobs: seq<FileJob>, job: FileJob): seq<FileJob>
  {
    UpdateJob(jobs, job.id, StartPatch(RouteOf(job.originalFile.name)))
  }

  /** The first update `processFileJob` applies, per branch. */
  function StartPatch(route: Route): Patch
  {
    match route
    case ZipRoute => StatusPatch(ExtractingZip, EXTRACTING_MESSAGE)
    case ImageRoute => StatusPatch(Processing, CONVERTING_MESSAGE)
    case UnsupportedRoute(extension) => StatusPatch(Skipped, SKIP_PREFIX + extension)
  }

  /** The status the started job takes, for every route, and the skip message naming the
      extension. */
  lemma StartJobStatus(jobs: seq<FileJob>, job: FileJob, i: nat)
    requires i < |jobs| && jobs[i].id == job.id
    ensures var r := StartJob(jobs, job)[i]; var route := RouteOf(job.originalFile.name);
      && (route.ZipRoute? ==> r.status == ExtractingZip && r.message == Some(EXTRACTING_MESSAGE))
      && (route.ImageRoute? ==> r.status == Processing && r.message == Some(CONVERTING_MESSAGE))
      && (route.UnsupportedRoute? ==>
            r.status == Skipped && r.message == Some(SKIP_PREFIX + GetFileExtension(job.originalFile.name)))
  {
  }

  /** A file named just "ZIP" gets past the dropzone, yet its extension is "", so the
      orchestrator skips it as unsupported, naming an empty extension. */
  lemma BareNameAcceptedThenSkipped(jobs: seq<FileJob>, job: FileJob, i: nat)
    requires job.originalFile.name == "ZIP"
    requires i < |jobs| && jobs[i].id == job.id
    ensures FileDropzone.Accepted(job.originalFile)
    ensures StartJob(jobs, job)[i].status == Skipped
    ensures StartJob(jobs, job)[i].message == Some(SKIP_PREFIX)
  {
    FileDropzone.BareZipNamePasses(job.originalFile.data);
    assert SKIP_PREFIX + "" == SKIP_PREFIX;
  }

  /** The jobs other than `jobId`, in order: `prevJobs.filter(j => j.id !== job.id)`. */
  function OtherJobs(jobs: seq<FileJob>, jobId: nat): (r: seq<FileJob>)
    ensures forall j :: j in r <==> j in jobs && j.id != jobId
  {
    Filter((j: FileJob) => j.id != jobId, jobs)
  }

  lemma OtherJobsConcat(a: seq<FileJob>, b: seq<FileJob>, jobId: nat)
    ensures OtherJobs(a + b, jobId) == OtherJobs(a, jobId) + OtherJobs(b, jobId)
  {
    FilterConcat((j: FileJob) => j.id != jobId, a, b);
  }

  lemma OtherJobsAbsent(jobs: seq<FileJob>, jobId: nat)
    requires forall k :: 0 <= k < |jobs| ==> jobs[k].id != jobId
    ensures OtherJobs(jobs, jobId) == jobs
  {
    FilterUnchanged((j: FileJob) => j.id != jobId, jobs);
  }

  /** With distinct ids the filter removes exactly the one job of that id and keeps the
      others in their order. */
  lemma OtherJobsDropsOne(jobs: seq<FileJob>, i: nat)
    requires DistinctIds(jobs) && i < |jobs|
    ensures OtherJobs(jobs, jobs[i].id) == jobs[..i] + jobs[i + 1..]
  {
    var id, x := jobs[i].id, jobs[i];
    var before, after := jobs[..i], jobs[i + 1..];
    forall k | 0 <= k < |before| ensures before[k].id != id {
      assert before[k] == jobs[k];
    }
    forall k | 0 <= k < |after| ensures after[k].id != id {
      assert after[k] == jobs[i + 1 + k];
    }
    OtherJobsAbsent(before, id);
    OtherJobsAbsent(after, id);
    assert OtherJobs([x], id) == [];
    SplitAt(jobs, i);
    calc {
      OtherJobs(jobs, id);
      OtherJobs(before + [x] + after, id);
      { OtherJobsConcat(before + [x], after, id); }
      OtherJobs(before + [x], id) + OtherJobs(after, id);
      { OtherJobsConcat(before, [x], id); }
      before + [] + after;
      before + after;
    }
  }

  lemma OtherJobsKeepDistinctIds(jobs: seq<FileJob>, jobId: nat)
    requires DistinctIds(jobs)
    ensures DistinctIds(OtherJobs(jobs, jobId))
  {
    FilterKeepsDistinctIds((j: FileJob) => j.id != jobId, jobs);
  }

  /** The rest of a ZIP job once `extractImagesFromZip` has settled with `r`. */
  function FinishZip(jobs: seq<FileJob>, job: FileJob, r: Result<seq<File>, Thrown>, firstId: nat)
    : seq<FileJob>
  {
    if r.Ok? && |r.value| > 0 then OtherJobs(jobs, job.id) + NewJobs(r.value, firstId)
    else UpdateJob(jobs, job.id, ZipPatch(r))
  }

  /** The update `processFileJob` applies to a ZIP job that is not replaced: an extraction
      without images, or a failed one. */
  function ZipPatch(r: Result<seq<File>, Thrown>): Patch
  {
    match r
    case Ok(_) => StatusPatch(Skipped, NO_IMAGES_MESSAGE)
    case Err(e) => StatusPatch(Error, MessageOr(e, ZIP_FAILED_FALLBACK))
  }

  /** A ZIP without images is skipped with a non-empty message, not marked as an error. */
  lemma ZipWithoutImagesIsSkipped(jobs: seq<FileJob>, job: FileJob, firstId: nat, i: nat)
    requires i < |jobs| && jobs[i].id == job.id
    ensures var r := FinishZip(jobs, job, Ok([]), firstId)[i];
      r.status == Skipped && r.message == Some(NO_IMAGES_MESSAGE) && |r.message.value| > 0
  {
  }

  /** A ZIP with images disappears from the queue; the other jobs stay in order and one
      fresh queued job per image follows them. */
  lemma ZipWithImagesIsReplaced(jobs: seq<FileJob>, job: FileJob, images: seq<File>, firstId: nat)
    requires |images| > 0
    ensures var r := FinishZip(jobs, job, Ok(images), firstId);
      var kept := |r| - |images|;
      && 0 <= kept <= |jobs|
      && (forall j :: j in r[..kept] <==> j in jobs && j.id != job.id)
      && r[..kept] == OtherJobs(jobs, job.id)
      && (forall i :: 0 <= i < |images| ==>
            r[kept + i] == FileJob(firstId + i, images[i], Queued, None, None, None))
  {
    var others := OtherJobs(jobs, job.id);
    var r := AddJobs(others, images, firstId);
    assert FinishZip(jobs, job, Ok(images), firstId) == r;
    assert |r| - |images| == |others| && r[..|others|] == others;
  }

  /** A failed extraction marks the job as an error with the thrown message. */
  lemma ZipFailureIsError(jobs: seq<FileJob>, job: FileJob, e: Thrown, firstId: nat, i: nat)
    requires i < |jobs| && jobs[i].id == job.id
    ensures var r := FinishZip(jobs, job, Err(e), firstId)[i];
      r.status == Error && r.message == Some(MessageOr(e, ZIP_FAILED_FALLBACK))
  {
  }

  /** The output name: the original name without its extension, plus ".png". */
  function PngName(name: string): string
  {
    GetFileNameWithoutExtension(name) + ".png"
  }

  /** The output name has the extension "png" and keeps the original base. */
  lemma PngNameIsPng(name: string)
    ensures GetFileExtension(PngName(name)) == "png"
    ensures GetFileNameWithoutExtension(PngName(name)) == GetFileNameWithoutExtension(name)
  {
    PngSuffix(GetFileNameWithoutExtension(name));
  }

  lemma PngSuffix(base: string)
    ensures GetFileExtension(base + ".png") == "png"
    ensures GetFileNameWithoutExtension(base + ".png") == base
  {
    var name := base + ".png";
    assert name[|base|] == '.';
    assert name[|base| + 1..] == "png";
    assert name[..|base|] == base;
    assert LastDot(name) == |base|;
    assert Lower("png") == "png";
  }

  /** The rest of an image job once `convertToPng` has settled with `r`. */
  function FinishImage(jobs: seq<FileJob>, job: FileJob, r: Result<Blob, Thrown>): seq<FileJob>
  {
    UpdateJob(jobs, job.id, ImagePatch(job, r))
  }

  /** The update `processFileJob` applies once `convertToPng` has settled with `r`. */
  function ImagePatch(job: FileJob, r: Result<Blob, Thrown>): Patch
  {
    match r
    case Ok(png) =>
      var newFileName := PngName(job.originalFile.name);
      Patch(Some(Converted), Some(CONVERTED_PREFIX + newFileName), Some(png), Some(newFileName))
    case Err(e) => StatusPatch(Error, MessageOr(e, CONVERSION_FAILED_FALLBACK))
  }

  /** A converted job keeps the PNG and its name, and the message names the file. */
  lemma ImageConverted(jobs: seq<FileJob>, job: FileJob, png: Blob, i: nat)
    requires i < |jobs| && jobs[i].id == job.id
    ensures var r := FinishImage(jobs, job, Ok(png))[i];
      && r.status == Converted
      && r.convertedBlob == Some(png)
      && r.convertedFileName == Some(PngName(job.originalFile.name))
      && r.message == Some(CONVERTED_PREFIX + PngName(job.originalFile.name))
      && GetFileExtension(r.convertedFileName.value) == "png"
  {
    PngNameIsPng(job.originalFile.name);
  }

  /** A failed conversion marks the job as an error carrying the converter's own message:
      the converter only throws `Error` objects, so the fallback text is never used. */
  lemma ImageFailureIsError(jobs: seq<FileJob>, job: FileJob, d: ImageConverter.Decoders, i: nat)
    requires i < |jobs| && jobs[i].id == job.id
    requires ImageConverter.ConvertToPng(job.originalFile, d).Err?
    ensures var e := ImageConverter.ConvertToPng(job.originalFile, d).error;
      var r := FinishImage(jobs, job, ImageConverter.ConvertToPng(job.originalFile, d))[i];
      r.status == Error && r.message == Some(e.message)
  {
  }

  // ---------------------------------------------------------------------------
  // Allowed status changes

  /** The edges of the job life cycle, and staying put. */
  predicate Edge(from: FileJobStatus, to: FileJobStatus)
  {
    || from == to
    || (from == Queued && (IsInFlight(to) || to == Skipped))
    || (IsInFlight(from) && IsTerminal(to))
  }

  /** A terminal job never moves again. */
  lemma TerminalIsFinal(from: FileJobStatus, to: FileJobStatus)
    requires IsTerminal(from) && Edge(from, to)
    ensures to == from
  {
  }

  /** Every job present before and after kept its file and moved along an edge. */
  predicate Advances(before: seq<FileJob>, after: seq<FileJob>)
  {
    forall i, k :: 0 <= i < |before| && 0 <= k < |after| && before[i].id == after[k].id ==>
      after[k].originalFile == before[i].originalFile && Edge(before[i].status, after[k].status)
  }

  /** An update advances the queue when the patched job moves along an edge. */
  lemma UpdateAdvances(jobs: seq<FileJob>, jobId: nat, p: Patch)
    requires DistinctIds(jobs)
    requires forall i :: 0 <= i < |jobs| && jobs[i].id == jobId ==>
      Edge(jobs[i].status, ApplyPatch(jobs[i], p).status)
    ensures Advances(jobs, UpdateJob(jobs, jobId, p))
  {
  }

  /** A queue made of old jobs, unchanged, and jobs with fresh ids advances the old one. */
  lemma KeptOrFreshAdvances(before: seq<FileJob>, after: seq<FileJob>, next: nat)
    requires DistinctIds(before) && IdsBelow(before, next)
    requires forall k :: 0 <= k < |after| ==> after[k] in before || after[k].id >= next
    ensures Advances(before, after)
  {
    forall i, k | 0 <= i < |before| && 0 <= k < |after| && before[i].id == after[k].id
      ensures after[k] == before[i]
    {
      if after[k] in before {
        var i' :| 0 <= i' < |before| && before[i'] == after[k];
        assert i' == i;
      }
    }
  }

  /** The running job is the one and only job in flight. */
  predicate InFlightIsRunning(jobs: seq<FileJob>, running: Option<FileJob>)
  {
    && (forall i :: 0 <= i < |jobs| && IsInFlight(jobs[i].status) ==>
          running.Some? && jobs[i].id == running.value.id)
    && (running.Some? ==>
          exists i :: 0 <= i < |jobs| && jobs[i].id == running.value.id && IsInFlight(jobs[i].status))
  }

  /** Queueing new files leaves the job in flight as it was. */
  lemma AddJobsKeepsInFlight(jobs: seq<FileJob>, files: seq<File>, next: nat, running: Option<FileJob>)
    requires InFlightIsRunning(jobs, running)
    ensures InFlightIsRunning(AddJobs(jobs, files, next), running)
  {
    var r := AddJobs(jobs, files, next);
    forall i | 0 <= i < |r| && IsInFlight(r[i].status)
      ensures running.Some? && r[i].id == running.value.id
    {
      if i < |jobs| {
        assert r[i] == jobs[i];
      }
    }
    if running.Some? {
      var i :| 0 <= i < |jobs| && jobs[i].id == running.value.id && IsInFlight(jobs[i].status);
      assert r[i] == jobs[i];
    }
  }

  /** Clearing never removes the job in flight. */
  lemma ClearKeepsInFlight(jobs: seq<FileJob>, running: Option<FileJob>)
    requires InFlightIsRunning(jobs, running)
    ensures InFlightIsRunning(ClearCompleted(jobs), running)
  {
    var kept := ClearCompleted(jobs);
    forall i | 0 <= i < |kept| && IsInFlight(kept[i].status)
      ensures running.Some? && kept[i].id == running.value.id
    {
      assert kept[i] in jobs;
    }
    if running.Some? {
      var i :| 0 <= i < |jobs| && jobs[i].id == running.value.id && IsInFlight(jobs[i].status);
      assert jobs[i] in kept;
      var k :| 0 <= k < |kept| && kept[k] == jobs[i];
    }
  }

  /** Ids are distinct and fresh, the flag is set exactly while a job is running, and
      the running job is the one and only job in flight. */
  predicate QueueValid(jobs: seq<FileJob>, isProcessing: bool, running: Option<FileJob>, nextId: nat)
  {
    && DistinctIds(jobs) && IdsBelow(jobs, nextId)
    && (isProcessing <==> running.Some?)
    && InFlightIsRunning(jobs, running)
  }

  /** Every download the orchestrator triggers: the PNG and the file name. */
  datatype Download = Download(blob: Blob, fileName: string)

  // ---------------------------------------------------------------------------
  // The orchestrator

  class Orchestrator {
    /** `fileJobs`. */
    var jobs: seq<FileJob>
    /** `isProcessing`. */
    var isProcessing: bool
    /** The job whose `processFileJob` promise has not yet settled. */
    var running: Option<FileJob>
    /** The fresh-id supply standing for `crypto.randomUUID`. */
    var nextId: nat
    /** The `downloadBlob` calls made so far. */
    var downloads: seq<Download>

    /** The invariant of the orchestrator's state. */
    ghost predicate Valid()
      reads this
    {
      QueueValid(jobs, isProcessing, running, nextId)
    }

    /** At most one job is in flight. */
    lemma AtMostOneInFlight(i: nat, k: nat)
      requires Valid()
      requires i < |jobs| && k < |jobs| && IsInFlight(jobs[i].status) && IsInFlight(jobs[k].status)
      ensures i == k
    {
    }

    /** So the branch at the end of the scheduling effect never changes the flag: with
        nothing queued, `isProcessing` already equals "some job is in flight". */
    lemma FlagMeansInFlight()
      requires Valid()
      ensures isProcessing <==> AnyInFlight(jobs)
    {
      if running.Some? {
        var i :| 0 <= i < |jobs| && jobs[i].id == running.value.id && IsInFlight(jobs[i].status);
      }
    }

    constructor ()
      ensures Valid()
      ensures jobs == [] && !isProcessing && running.None? && downloads == []
    {
      jobs := [];
      isProcessing := false;
      running := None;
      nextId := 0;
      downloads := [];
    }

    /** `handleFilesSelected`. */
    method SelectFiles(files: seq<File>)
      requires Valid()
      modifies this
      ensures Valid() && Advances(old(jobs), jobs)
      ensures jobs == AddJobs(old(jobs), files, old(nextId)) && nextId == old(nextId) + |files|
      ensures isProcessing == old(isProcessing) && running == old(running)
      ensures downloads == old(downloads)
    {
      var added := AddJobs(jobs, files, nextId);
      AddJobsKeepsIds(jobs, files, nextId);
      AddJobsKeepsInFlight(jobs, files, nextId, running);
      forall k | 0 <= k < |added| ensures added[k] in jobs || added[k].id >= nextId {
        if k < |jobs| {
          assert added[k] == jobs[k];
        } else {
          assert added[k].id == nextId + (k - |jobs|);
        }
      }
      KeptOrFreshAdvances(jobs, added, nextId);
      jobs := added;
      nextId := nextId + |files|;
    }

    /** A drop on the dropzone, which is disabled while `isProcessing` holds. */
    method DropFiles(dropped: seq<File>)
      requires Valid()
      modifies this
      ensures Valid() && Advances(old(jobs), jobs)
      ensures old(isProcessing) ==> jobs == old(jobs)
      ensures var selected := FileDropzone.OnDrop(old(isProcessing), dropped);
        && jobs == (if selected.Some? then AddJobs(old(jobs), selected.value, old(nextId)) else old(jobs))
        && nextId == old(nextId) + (if selected.Some? then |selected.value| else 0)
      ensures isProcessing == old(isProcessing) && running == old(running)
      ensures downloads == old(downloads)
    {
      var selected := FileDropzone.OnDrop(isProcessing, dropped);
      if selected.Some? {
        SelectFiles(selected.value);
      } else {
        KeptOrFreshAdvances(jobs, jobs, nextId);
      }
    }

    /** `handleClearCompleted`. */
    method ClearCompletedJobs()
      requires Valid()
      modifies this
      ensures Valid() && Advances(old(jobs), jobs)
      ensures jobs == ClearCompleted(old(jobs))
      ensures isProcessing == old(isProcessing) && running == old(running)
      ensures nextId == old(nextId) && downloads == old(downloads)
    {
      var kept := ClearCompleted(jobs);
      FilterKeepsDistinctIds(IsPending, jobs);
      KeptOrFreshAdvances(jobs, kept, nextId);
      ClearKeepsInFlight(jobs, running);
      forall i | 0 <= i < |kept| ensures kept[i].id < nextId {
        assert kept[i] in jobs;
      }
      jobs := kept;
    }

    /** The scheduling effect: start the first queued job unless one is running; with no
        queued job and none in flight, clear the flag. */
    method Schedule()
      requires Valid()
      modifies this
      ensures Valid() && Advances(old(jobs), jobs)
      ensures nextId == old(nextId) && downloads == old(downloads)
      ensures var q := FindQueued(old(jobs));
        && (q.Some? && !old(isProcessing) ==>
              var job := old(jobs)[q.value];
              && jobs == StartJob(old(jobs), job)
              && running == (if RouteOf(job.originalFile.name).UnsupportedRoute? then None else Some(job)))
        && (q.Some? && old(isProcessing) ==>
              jobs == old(jobs) && running == old(running) && isProcessing)
        && (q.None? ==>
              jobs == old(jobs) && running == old(running)
              && isProcessing == (old(isProcessing) && AnyInFlight(old(jobs))))
    {
      var q := FindQueued(jobs);
      if q.Some? && !isProcessing {
        ProcessFileJob(q.value);
      } else {
        KeptOrFreshAdvances(jobs, jobs, nextId);
        if q.None? && !AnyInFlight(jobs) {
          isProcessing := false;
        }
      }
    }

    /** The synchronous part of `processFileJob` for the queued job at `q`: the flag is
        set and the job goes in flight, or, for an unsupported type, the job is skipped and
        the `finally` clears the flag at once, since nothing is awaited. */
    method ProcessFileJob(q: nat)
      requires Valid() && !isProcessing && q < |jobs| && jobs[q].status == Queued
      modifies this
      ensures Valid() && Advances(old(jobs), jobs)
      ensures nextId == old(nextId) && downloads == old(downloads)
      ensures var job := old(jobs)[q];
        && jobs == StartJob(old(jobs), job)
        && running == (if RouteOf(job.originalFile.name).UnsupportedRoute? then None else Some(job))
    {
      var job := jobs[q];
      StartAdvances(jobs, job, q, nextId);
      jobs := StartJob(jobs, job);
      if RouteOf(job.originalFile.name).UnsupportedRoute? {
        isProcessing := false;
      } else {
        isProcessing := true;
        running := Some(job);
        assert jobs[q].id == job.id && IsInFlight(jobs[q].status);
      }
    }

    /** What starting the first queued job does to the queue when nothing is in flight. */
    static lemma StartAdvances(jobs: seq<FileJob>, job: FileJob, q: nat, next: nat)
      requires DistinctIds(jobs) && IdsBelow(jobs, next)
      requires q < |jobs| && jobs[q] == job && job.status == Queued
      requires InFlightIsRunning(jobs, None)
      ensures var r := StartJob(jobs, job);
        && DistinctIds(r) && IdsBelow(r, next) && Advances(jobs, r)
        && |r| == |jobs| && (forall i :: 0 <= i < |jobs| ==> r[i].id == jobs[i].id)
        && (forall i :: 0 <= i < |jobs| && i != q ==> r[i] == jobs[i])
        && (RouteOf(job.originalFile.name).UnsupportedRoute? ==> InFlightIsRunning(r, None))
        && (!RouteOf(job.originalFile.name).UnsupportedRoute? ==>
              IsInFlight(r[q].status) && InFlightIsRunning(r, Some(job)))
    {
      var p := StartPatch(RouteOf(job.originalFile.name));
      var r := StartJob(jobs, job);
      UpdateAdvances(jobs, job.id, p);
      forall i | 0 <= i < |jobs| && i != q ensures r[i] == jobs[i] {
        assert jobs[i].id != job.id;
      }
    }

    /** The running ZIP job's promise settles: `extractImagesFromZip` completes with
        `extracted`, the job is skipped, marked as an error or replaced by one queued job per
        image, and the `finally` clears the flag. `zipLoaded` and `archive` are what the ZIP
        library provides. */
    method SettleZip(zipLoaded: bool, archive: Result<seq<ZipHandler.ZipEntry>, Thrown>)
      returns (extracted: Result<seq<File>, Thrown>)
      requires Valid() && running.Some? && GetFileExtension(running.value.originalFile.name) == "zip"
      modifies this
      ensures Valid() && Advances(old(jobs), jobs)
      ensures running.None? && !isProcessing && !AnyInFlight(jobs)
      ensures downloads == old(downloads)
      ensures ZipHandler.IsExtraction(zipLoaded, archive, extracted)
      ensures jobs == FinishZip(old(jobs), old(running).value, extracted, old(nextId))
      ensures nextId == old(nextId) + (if extracted.Ok? then |extracted.value| else 0)
    {
      extracted := ZipHandler.ExtractImagesFromZip(zipLoaded, archive);
      AfterExtraction(extracted);
    }

    /** The part of `processFileJob` after `await extractImagesFromZip`, with the
        `finally`: whatever the extraction settled with, the ZIP job is finished and the
        flag cleared. */
    method AfterExtraction(extracted: Result<seq<File>, Thrown>)
      requires Valid() && running.Some? && RouteOf(running.value.originalFile.name).ZipRoute?
      modifies this
      ensures Valid() && Advances(old(jobs), jobs)
      ensures running.None? && !isProcessing && !AnyInFlight(jobs)
      ensures downloads == old(downloads)
      ensures jobs == FinishZip(old(jobs), old(running).value, extracted, old(nextId))
      ensures nextId == old(nextId) + (if extracted.Ok? then |extracted.value| else 0)
    {
      var job := running.value;
      var idx :| 0 <= idx < |jobs| && jobs[idx].id == job.id && IsInFlight(jobs[idx].status);
      SettleZipKeepsIds(jobs, job, idx, extracted, nextId);
      var after := FinishZip(jobs, job, extracted, nextId);
      var next := nextId + (if extracted.Ok? then |extracted.value| else 0);
      jobs, nextId, running, isProcessing := after, next, None, false;
    }

    /** The running image job's promise settles: `convertToPng` completes, the job is
        marked converted or as an error, a converted PNG is downloaded, and the `finally`
        clears the flag. `decoders` is what the image decoders do. */
    method SettleImage(decoders: ImageConverter.Decoders)
      requires Valid() && running.Some? && GetFileExtension(running.value.originalFile.name) in IMAGE_EXTENSIONS
      modifies this
      ensures Valid() && Advances(old(jobs), jobs)
      ensures running.None? && !isProcessing && !AnyInFlight(jobs)
      ensures nextId == old(nextId)
      ensures var job := old(running).value;
        var r := ImageConverter.ConvertToPng(job.originalFile, decoders);
        && jobs == FinishImage(old(jobs), job, r)
        && downloads == old(downloads)
             + (if r.Ok? then [Download(r.value, PngName(job.originalFile.name))] else [])
    {
      var pngBlob := ImageConverter.ConvertToPng(running.value.originalFile, decoders);
      AfterConversion(pngBlob);
    }

    /** The part of `processFileJob` after `await convertToPng`, with the `finally`: a PNG
        is downloaded and the job converted, or the job becomes an error; the flag is
        cleared. */
    method AfterConversion(converted: Result<Blob, Thrown>)
      requires Valid() && running.Some? && RouteOf(running.value.originalFile.name).ImageRoute?
      modifies this
      ensures Valid() && Advances(old(jobs), jobs)
      ensures running.None? && !isProcessing && !AnyInFlight(jobs)
      ensures nextId == old(nextId)
      ensures jobs == FinishImage(old(jobs), old(running).value, converted)
      ensures downloads == old(downloads)
        + (if converted.Ok? then [Download(converted.value, PngName(old(running).value.originalFile.name))] else [])
    {
      var job := running.value;
      var idx :| 0 <= idx < |jobs| && jobs[idx].id == job.id && IsInFlight(jobs[idx].status);
      SettleImageKeepsIds(jobs, job, idx, converted, nextId);
      var finished := FinishImage(jobs, job, converted);
      var download := if converted.Ok? then [Download(converted.value, PngName(job.originalFile.name))] else [];
      jobs, running, isProcessing, downloads := finished, None, false, downloads + download;
    }

    /** Finishing the one in-flight ZIP job keeps the ids distinct and fresh, moves the job
        along an edge (or removes it) and leaves nothing in flight. */
    static lemma SettleZipKeepsIds(jobs: seq<FileJob>, job: FileJob, idx: nat,
                                   r: Result<seq<File>, Thrown>, next: nat)
      requires DistinctIds(jobs) && IdsBelow(jobs, next)
      requires idx < |jobs| && jobs[idx].id == job.id && IsInFlight(jobs[idx].status)
      requires forall i :: 0 <= i < |jobs| && IsInFlight(jobs[i].status) ==> jobs[i].id == job.id
      ensures var after := FinishZip(jobs, job, r, next);
        && DistinctIds(after) && Advances(jobs, after) && !AnyInFlight(after)
        && IdsBelow(after, next + (if r.Ok? then |r.value| else 0))
        && QueueValid(after, false, None, next + (if r.Ok? then |r.value| else 0))
    {
      var after := FinishZip(jobs, job, r, next);
      if r.Ok? && |r.value| > 0 {
        assert after == OtherJobs(jobs, job.id) + NewJobs(r.value, next);
        ReplacementKeepsIds(jobs, job.id, r.value, next);
      } else {
        UpdateAdvances(jobs, job.id, ZipPatch(r));
        forall i | 0 <= i < |after| ensures after[i].id < next {
          assert after[i].id == jobs[i].id;
        }
      }
    }

    /** Replacing the one in-flight job by queued jobs with fresh ids keeps the ids
        distinct and fresh, advances every job and leaves nothing in flight. */
    static lemma ReplacementKeepsIds(jobs: seq<FileJob>, jobId: nat, images: seq<File>, next: nat)
      requires DistinctIds(jobs) && IdsBelow(jobs, next)
      requires forall i :: 0 <= i < |jobs| && IsInFlight(jobs[i].status) ==> jobs[i].id == jobId
      ensures var after := OtherJobs(jobs, jobId) + NewJobs(images, next);
        && DistinctIds(after) && Advances(jobs, after) && !AnyInFlight(after)
        && IdsBelow(after, next + |images|)
    {
      var others := OtherJobs(jobs, jobId);
      var after := others + NewJobs(images, next);
      OtherJobsKeepDistinctIds(jobs, jobId);
      assert IdsBelow(others, next) by {
        forall i | 0 <= i < |others| ensures others[i].id < next {
          assert others[i] in jobs;
        }
      }
      AddJobsKeepsIds(others, images, next);
      assert after == AddJobs(others, images, next);
      forall k | 0 <= k < |after| ensures after[k] in jobs || after[k].id >= next {
        if k < |others| {
          assert after[k] == others[k] && others[k] in others;
        } else {
          assert after[k].id == next + (k - |others|);
        }
      }
      KeptOrFreshAdvances(jobs, after, next);
      forall k | 0 <= k < |after| ensures !IsInFlight(after[k].status) {
        if k < |others| {
          assert after[k] == others[k] && others[k] in others;
        } else {
          assert after[k].status == Queued;
        }
      }
    }

    /** Finishing the one in-flight image job: the same, with the ids untouched. */
    static lemma SettleImageKeepsIds(jobs: seq<FileJob>, job: FileJob, idx: nat,
                                     r: Result<Blob, Thrown>, next: nat)
      requires DistinctIds(jobs) && IdsBelow(jobs, next)
      requires idx < |jobs| && jobs[idx].id == job.id && IsInFlight(jobs[idx].status)
      requires forall i :: 0 <= i < |jobs| && IsInFlight(jobs[i].status) ==> jobs[i].id == job.id
      ensures var after := FinishImage(jobs, job, r);
        && DistinctIds(after) && Advances(jobs, after) && !AnyInFlight(after)
        && IdsBelow(after, next) && QueueValid(after, false, None, next)
    {
      var after := FinishImage(jobs, job, r);
      UpdateAdvances(jobs, job.id, ImagePatch(job, r));
      forall i | 0 <= i < |after| ensures after[i].id < next {
        assert after[i].id == jobs[i].id;
      }
    }
  }
}
