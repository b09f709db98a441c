/** `extractImagesFromZip` of services/zipHandler.ts over an abstract archive. */
module ZipHandler {
  import opened Results
  import opened Seqs
  import opened Utilities
  import opened Types

  const JSZIP_NOT_LOADED := "ZIP processing library (JSZip) not loaded."

  /** One archive entry as the ZIP library lists it. `blob` is what `async('blob')`
      settles with: the decompressed bytes, or `None` when it rejects. */
  datatype ZipEntry = ZipEntry(name: string, dir: bool, blob: Option<Blob>)

  /** The entries for which a decompression is started: files with an image extension. */
  predicate IsImageEntry(e: ZipEntry)
  {
    !e.dir && GetFileExtension(e.name) in IMAGE_EXTENSIONS
  }

  /** The entries pushed onto `filePromises`, in archive order. */
  function Eligible(entries: seq<ZipEntry>): (pending: seq<ZipEntry>)
    ensures |pending| <= |entries|
    ensures forall e :: e in pending <==> e in entries && !e.dir && GetFileExtension(e.name) in IMAGE_EXTENSIONS
  {
    Filter(IsImageEntry, entries)
  }

  /** The files the decompressions of `pending` produce, in the order of `pending`;
      a failed decompression contributes nothing. */
  function Decompressed(pending: seq<ZipEntry>): (files: seq<File>)
    ensures |files| <= |pending|
  {
    if pending == [] then []
    else
      var e := pending[0];
      var rest := Decompressed(pending[1..]);
      match e.blob
      case Some(b) => [File(e.name, b)] + rest
      case None => rest
  }

  /** A file is among the decompressed ones exactly when a pending entry of that name
      decompressed to its bytes. */
  lemma {:induction false} DecompressedMember(pending: seq<ZipEntry>, f: File)
    ensures f in Decompressed(pending) <==>
      exists e :: e in pending && e.blob == Some(f.data) && e.name == f.name
  {
    if pending != [] {
      var e := pending[0];
      DecompressedMember(pending[1..], f);
      assert forall x :: x in pending <==> x == e || x in pending[1..];
    }
  }

  /** How many decompressions of `pending` reject. */
  function FailedCount(pending: seq<ZipEntry>): nat
  {
    if pending == [] then 0
    else (if pending[0].blob.None? then 1 else 0) + FailedCount(pending[1..])
  }

  lemma {:induction false} DecompressedConcat(a: seq<ZipEntry>, b: seq<ZipEntry>)
    ensures Decompressed(a + b) == Decompressed(a) + Decompressed(b)
  {
    if a == [] {
      assert a + b == b;
    } else {
      assert (a + b)[1..] == a[1..] + b;
      DecompressedConcat(a[1..], b);
    }
  }

  /** Every pending entry yields a file or counts as a failure, never both. */
  lemma {:induction false} DecompressedCount(pending: seq<ZipEntry>)
    ensures |Decompressed(pending)| + FailedCount(pending) == |pending|
  {
    if pending != [] {
      DecompressedCount(pending[1..]);
    }
  }

  /** What the extraction promises: the capability check, the propagated open failure,
      and on success exactly the decompressed image entries, in some order. */
  ghost predicate IsExtraction(libraryLoaded: bool, archive: Result<seq<ZipEntry>, Thrown>,
                               r: Result<seq<File>, Thrown>)
  {
    && (!libraryLoaded ==> r == Err(ErrorValue(JSZIP_NOT_LOADED)))
    && (libraryLoaded && archive.Err? ==> r == Err(archive.error))
    && (libraryLoaded && archive.Ok? ==>
          r.Ok? && multiset(r.value) == multiset(Decompressed(Eligible(archive.value))))
  }

  /** The `forEach` pass: one decompression is started per non-directory entry whose
      extension is an image extension, in archive order. */
  method StartDecompressions(entries: seq<ZipEntry>) returns (filePromises: seq<ZipEntry>)
    ensures filePromises == Eligible(entries)
  {
    filePromises := [];
    var k := 0;
    while k < |entries|
      invariant 0 <= k <= |entries|
      invariant filePromises == Eligible(entries[..k])
    {
      var entry := entries[k];
      if !entry.dir {
        var extension := GetFileExtension(entry.name);
        if extension in IMAGE_EXTENSIONS {
          filePromises := filePromises + [entry];
        }
      }
      EligibleStep(entries, k);
      k := k + 1;
    }
    EligibleAll(entries);
  }

  /** One more entry looked at adds that entry when it is an image entry. */
  lemma EligibleStep(entries: seq<ZipEntry>, k: nat)
    requires k < |entries|
    ensures Eligible(entries[..k + 1])
      == Eligible(entries[..k]) + (if IsImageEntry(entries[k]) then [entries[k]] else [])
  {
    assert entries[..k + 1] == entries[..k] + [entries[k]];
    FilterConcat(IsImageEntry, entries[..k], [entries[k]]);
  }

  lemma EligibleAll(entries: seq<ZipEntry>)
    ensures Eligible(entries[..|entries|]) == Eligible(entries)
  {
    assert entries[..|entries|] == entries;
  }

  /** What one settled decompression contributes: its file, or nothing. This is the
      match the `then`/`catch` pair performs on one entry, the step `AwaitDecompressions`
      takes; its ensures ties it to `Decompressed` of that single entry, which keeps the
      loop's step from unfolding the recursive definition. */
  function Settled(e: ZipEntry): (files: seq<File>)
    ensures files == Decompressed([e])
  {
    match e.blob
    case Some(b) => [File(e.name, b)]
    case None => []
  }

  /** Taking out any one pending entry splits the files into that entry's and the rest's. */
  lemma DecompressedPick(before: seq<ZipEntry>, e: ZipEntry, after: seq<ZipEntry>)
    ensures multiset(Decompressed(before + [e] + after))
      == multiset(Settled(e)) + multiset(Decompressed(before + after))
  {
    DecompressedConcat(before + [e], after);
    DecompressedConcat(before, [e]);
    DecompressedConcat(before, after);
  }

  /** The same, for the entry at position `i`. */
  lemma DecompressedAt(pending: seq<ZipEntry>, i: nat)
    requires i < |pending|
    ensures multiset(Decompressed(pending))
      == multiset(Settled(pending[i])) + multiset(Decompressed(pending[..i] + pending[i + 1..]))
  {
    SplitAt(pending, i);
    DecompressedPick(pending[..i], pending[i], pending[i + 1..]);
  }

  /** `await Promise.all(filePromises)`: the decompressions settle one by one in an order
      the model leaves open; each success pushes its file onto `imageFiles`, each failure
      is logged and dropped. */
  method AwaitDecompressions(filePromises: seq<ZipEntry>) returns (imageFiles: seq<File>)
    ensures multiset(imageFiles) == multiset(Decompressed(filePromises))
  {
    imageFiles := [];
    var unsettled := filePromises;
    while unsettled != []
      invariant multiset(imageFiles) + multiset(Decompressed(unsettled))
                == multiset(Decompressed(filePromises))
      decreases |unsettled|
    {
      var i :| 0 <= i < |unsettled|;
      var entry := unsettled[i];
      var rest := unsettled[..i] + unsettled[i + 1..];
      DecompressedAt(unsettled, i);
      ghost var collected := imageFiles;
      if entry.blob.Some? {
        imageFiles := imageFiles + [File(entry.name, entry.blob.value)];
      }
      assert multiset(imageFiles) == multiset(collected) + multiset(Settled(entry));
      unsettled := rest;
    }
  }

  /** `extractImagesFromZip`. `libraryLoaded` stands for `window.JSZip`; `archive` is what
      `loadAsync` settles with, whose rejection is not caught. */
  method ExtractImagesFromZip(libraryLoaded: bool, archive: Result<seq<ZipEntry>, Thrown>)
    returns (r: Result<seq<File>, Thrown>)
    ensures IsExtraction(libraryLoaded, archive, r)
    ensures libraryLoaded && archive.Ok? ==>
      r.Ok? && |r.value| == |Eligible(archive.value)| - FailedCount(Eligible(archive.value))
  {
    if !libraryLoaded {
      return Err(ErrorValue(JSZIP_NOT_LOADED));
    }
    if archive.Err? {
      return Err(archive.error);
    }
    var filePromises := StartDecompressions(archive.value);
    var imageFiles := AwaitDecompressions(filePromises);
    DecompressedCount(filePromises);
    assert |multiset(imageFiles)| == |multiset(Decompressed(filePromises))|;
    r := Ok(imageFiles);
  }

  /** A file is extracted exactly when some non-directory entry with an image extension
      and that name decompressed to its bytes. */
  lemma ExtractedMember(entries: seq<ZipEntry>, f: File)
    ensures f in Decompressed(Eligible(entries)) <==>
      exists e :: e in entries && IsImageEntry(e) && e.blob == Some(f.data) && e.name == f.name
  {
    DecompressedMember(Eligible(entries), f);
  }

  /** An archive holding one corrupt image entry and one readable one yields one file,
      not an error and not nothing. */
  lemma OneCorruptEntryIsIsolated(bad: string, good: string, data: Blob)
    requires GetFileExtension(bad) in IMAGE_EXTENSIONS && GetFileExtension(good) in IMAGE_EXTENSIONS
    ensures Decompressed(Eligible([ZipEntry(bad, false, None), ZipEntry(good, false, Some(data))]))
            == [File(good, data)]
  {
    var es := [ZipEntry(bad, false, None), ZipEntry(good, false, Some(data))];
    assert es[1..][1..] == [];
    assert forall e :: e in es ==> e == es[0] || e == es[1];
    FilterUnchanged(IsImageEntry, es);
    assert Eligible(es) == es;
  }

  /** Directories and entries without an image extension are dropped, whatever they hold. */
  lemma IgnoredEntries(entries: seq<ZipEntry>)
    requires forall e :: e in entries ==> e.dir || GetFileExtension(e.name) !in IMAGE_EXTENSIONS
    ensures Decompressed(Eligible(entries)) == []
  {
    var pending := Eligible(entries);
    if pending != [] {
      assert pending[0] in pending;
    }
  }
}
