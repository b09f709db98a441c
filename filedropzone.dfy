/** The intake filter of components/FileDropzone.tsx (`handleFileProcessing`, `onDrop`). */
module FileDropzone {
  import opened Results
  import opened Seqs
  import opened Utilities
  import opened Types

  /** `s.split('.')`: the pieces between the dots; there is always at least one. */
  function SplitOnDot(s: string): (parts: seq<string>)
    ensures |parts| >= 1
    ensures forall i :: 0 <= i < |parts| ==> '.' !in parts[i]
  {
    if s == [] then [""]
    else
      var init := SplitOnDot(s[..|s| - 1]);
      var c := s[|s| - 1];
      if c == '.' then init + [""]
      else init[..|init| - 1] + [init[|init| - 1] + [c]]
  }

  /** Joining the pieces back with dots. */
  function JoinOnDot(parts: seq<string>): string
    requires |parts| >= 1
  {
    if |parts| == 1 then parts[0] else JoinOnDot(parts[..|parts| - 1]) + "." + parts[|parts| - 1]
  }

  /** A new last piece is joined on with a dot. */
  lemma JoinAppendPiece(parts: seq<string>, piece: string)
    requires |parts| >= 1
    ensures JoinOnDot(parts + [piece]) == JoinOnDot(parts) + "." + piece
  {
    assert (parts + [piece])[..|parts|] == parts;
  }

  /** A character added to the last piece ends up at the end of the joined text. */
  lemma JoinExtendLast(parts: seq<string>, c: char)
    requires |parts| >= 1
    ensures JoinOnDot(parts[..|parts| - 1] + [parts[|parts| - 1] + [c]]) == JoinOnDot(parts) + [c]
  {
    var front, last := parts[..|parts| - 1], parts[|parts| - 1];
    var extended := front + [last + [c]];
    assert extended[..|extended| - 1] == front && extended[|extended| - 1] == last + [c];
  }

  /** Splitting loses nothing: the pieces joined with dots give the name back. */
  lemma {:induction false} SplitJoin(s: string)
    ensures JoinOnDot(SplitOnDot(s)) == s
  {
    if s != [] {
      var t, c := s[..|s| - 1], s[|s| - 1];
      SplitJoin(t);
      assert s == t + [c];
      if c == '.' {
        JoinAppendPiece(SplitOnDot(t), "");
      } else {
        JoinExtendLast(SplitOnDot(t), c);
      }
    }
  }

  /** The last piece is the text after the last dot, or the whole text without a dot. */
  lemma {:induction false} LastPiece(s: string)
    ensures var parts := SplitOnDot(s); parts[|parts| - 1] == s[LastDot(s) + 1..]
  {
    if s == [] {
      assert SplitOnDot(s) == [""];
    } else {
      var t, c := s[..|s| - 1], s[|s| - 1];
      var init := SplitOnDot(t);
      var parts := SplitOnDot(s);
      LastPiece(t);
      if c == '.' {
        assert parts == init + [""];
        assert LastDot(s) == |s| - 1;
        assert parts[|parts| - 1] == "" == s[|s|..];
      } else {
        assert parts == init[..|init| - 1] + [init[|init| - 1] + [c]];
        assert parts[|parts| - 1] == init[|init| - 1] + [c];
        var k := LastDot(t);
        assert LastDot(s) == k;
        assert init[|init| - 1] == t[k + 1..];
        assert s[k + 1..] == t[k + 1..] + [c];
      }
    }
  }

  /** `file.name.split('.').pop()?.toLowerCase() || ''`. `pop` of a split never yields
      `undefined`, and `|| ''` turns only "" into "", so this is the last piece lowered. */
  function PopExtension(name: string): (ext: string)
    ensures '.' !in ext && IsLowerCase(ext)
  {
    var parts := SplitOnDot(name);
    Lower(parts[|parts| - 1])
  }

  /** The filter's test: the popped extension is one of `ALLOWED_EXTENSIONS`. */
  predicate Accepted(f: File)
  {
    PopExtension(f.name) in ALLOWED_EXTENSIONS
  }

  /** `handleFileProcessing`: the value handed to `onFilesSelected`, or `None` when it is
      not called (no file list, or nothing passed the filter). */
  function HandleFileProcessing(fileList: Option<seq<File>>): (selected: Option<seq<File>>)
    ensures fileList.None? ==> selected.None?
    ensures selected.Some? ==> |selected.value| > 0
    ensures selected.Some? ==> forall f :: f in selected.value <==> f in fileList.value && Accepted(f)
    ensures fileList.Some? && (exists f :: f in fileList.value && Accepted(f)) ==> selected.Some?
    ensures fileList.Some? && selected.Some? ==> selected.value == Filter(Accepted, fileList.value)
  {
    match fileList
    case None => None
    case Some(list) =>
      var files := Filter(Accepted, list);
      if |files| > 0 then Some(files)
      else
        assert forall f :: f in list && Accepted(f) ==> f in files;
        None
  }

  /** `onDrop`: a disabled dropzone ignores the drop entirely. */
  function OnDrop(disabled: bool, dropped: seq<File>): (selected: Option<seq<File>>)
    ensures disabled ==> selected.None?
    ensures !disabled ==> selected == HandleFileProcessing(Some(dropped))
  {
    if disabled then None else HandleFileProcessing(Some(dropped))
  }

  /** The files handed on keep the order they were selected in. */
  lemma SelectionKeepsOrder(a: seq<File>, b: seq<File>)
    ensures Filter(Accepted, a + b) == Filter(Accepted, a) + Filter(Accepted, b)
  {
    FilterConcat(Accepted, a, b);
  }

  /** With a dot in the name the filter agrees with `getFileExtension`; without one it
      tests the whole lowered name, where `getFileExtension` gives "". */
  lemma PopExtensionVersusGetFileExtension(name: string)
    ensures '.' in name ==> PopExtension(name) == GetFileExtension(name)
    ensures '.' !in name ==> PopExtension(name) == Lower(name) && GetFileExtension(name) == ""
  {
    LastPiece(name);
  }

  /** So a file named just "ZIP" passes the dropzone although its extension is "". */
  lemma BareZipNamePasses(data: Blob)
    ensures Accepted(File("ZIP", data))
    ensures GetFileExtension("ZIP") == ""
  {
    PopExtensionVersusGetFileExtension("ZIP");
    assert Lower("ZIP") == "zip";
  }

  /** What passes: an allowed `getFileExtension`, or no dot and an allowed lowered name. */
  lemma AcceptedExactly(f: File)
    ensures Accepted(f) <==>
      GetFileExtension(f.name) in ALLOWED_EXTENSIONS
      || ('.' !in f.name && Lower(f.name) in ALLOWED_EXTENSIONS)
  {
    PopExtensionVersusGetFileExtension(f.name);
  }
}
