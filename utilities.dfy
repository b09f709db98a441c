/** The file-name helpers of services/utilities.ts. */
module Utilities {

  /** `toLowerCase` on one character (only the ASCII letters are mapped). */
  function LowerChar(c: char): char
  {
    if 'A' <= c <= 'Z' then (c as int + 32) as char else c
  }

  predicate IsLowerCase(s: string)
  {
    forall i :: 0 <= i < |s| ==> !('A' <= s[i] <= 'Z')
  }

  /** `s.toLowerCase()`. */
  function Lower(s: string): (r: string)
    ensures |r| == |s|
    ensures forall i :: 0 <= i < |s| ==> (r[i] == '.' <==> s[i] == '.')
    ensures IsLowerCase(r)
  {
    seq(|s|, i requires 0 <= i < |s| => LowerChar(s[i]))
  }

  lemma LowerIdempotent(s: string)
    ensures Lower(Lower(s)) == Lower(s)
  {
  }

  /** Lowering commutes with taking a suffix. */
  lemma LowerSuffix(s: string, k: nat)
    requires k <= |s|
    ensures Lower(s[k..]) == Lower(s)[k..]
  {
  }

  /** A lower-case text does not change when lowered again. */
  lemma LowerOfLowerCase(s: string)
    requires IsLowerCase(s)
    ensures Lower(s) == s
  {
  }

  /** `s.lastIndexOf('.')`: the position of the last dot, or -1. */
  function LastDot(s: string): (r: int)
    ensures -1 <= r < |s|
    ensures r >= 0 ==> s[r] == '.'
    ensures forall i :: r < i < |s| ==> s[i] != '.'
  {
    if s == [] then -1
    else if s[|s| - 1] == '.' then |s| - 1
    else LastDot(s[..|s| - 1])
  }

  /** Lowering keeps every dot where it was, so the last dot does not move. */
  lemma {:induction false} LastDotOfLower(s: string)
    ensures LastDot(Lower(s)) == LastDot(s)
  {
    if s != [] {
      var t := s[..|s| - 1];
      assert Lower(s)[..|s| - 1] == Lower(t);
      LastDotOfLower(t);
    }
  }

  /** `getFileNameWithoutExtension`: the text before the last dot, or the whole name. */
  function GetFileNameWithoutExtension(fileName: string): (base: string)
    ensures '.' !in fileName ==> base == fileName
    ensures '.' in fileName ==>
      |base| < |fileName| && base == fileName[..|base|] && fileName[|base|] == '.'
      && '.' !in fileName[|base| + 1..]
  {
    var lastDot := LastDot(fileName);
    if lastDot == -1 then fileName else fileName[..lastDot]
  }

  /** `getFileExtension`: the lower-cased text after the last dot, or "" without a dot. */
  function GetFileExtension(fileName: string): (ext: string)
    ensures '.' !in fileName ==> ext == ""
    ensures '.' !in ext && IsLowerCase(ext)
    ensures |ext| < |fileName| || ext == ""
  {
    var lastDot := LastDot(fileName);
    if lastDot == -1 then "" else Lower(fileName[lastDot + 1..])
  }

  /** With a dot present, the name is the base, a dot and the original-case suffix,
      and the extension is that suffix lowered. */
  lemma SplitAtLastDot(fileName: string)
    requires '.' in fileName
    ensures var base := GetFileNameWithoutExtension(fileName);
            var suffix := fileName[|base| + 1..];
            fileName == base + "." + suffix && '.' !in suffix && |base| < |fileName|
            && GetFileExtension(fileName) == Lower(suffix)
  {
    var base := GetFileNameWithoutExtension(fileName);
    assert fileName == fileName[..|base|] + [fileName[|base|]] + fileName[|base| + 1..];
  }

  /** Conversely, any base with a dot-free suffix splits back into that base and suffix. */
  lemma JoinAtLastDot(base: string, suffix: string)
    requires '.' !in suffix
    ensures GetFileNameWithoutExtension(base + "." + suffix) == base
    ensures GetFileExtension(base + "." + suffix) == Lower(suffix)
  {
    var name := base + "." + suffix;
    assert name[|base|] == '.';
    assert name[|base| + 1..] == suffix;
    assert forall i :: |base| < i < |name| ==> name[i] == suffix[i - |base| - 1];
    assert LastDot(name) == |base|;
    assert name[..|base|] == base;
  }

  /** Classification ignores case: names equal up to case have the same extension. */
  lemma ExtensionIgnoresCase(a: string, b: string)
    requires Lower(a) == Lower(b)
    ensures GetFileExtension(a) == GetFileExtension(b)
  {
    LastDotOfLower(a);
    LastDotOfLower(b);
    var k := LastDot(a);
    if k != -1 {
      LowerSuffix(a, k + 1);
      LowerSuffix(b, k + 1);
    }
  }

  /** Worked example: with several dots only the last one splits. */
  lemma ExampleSeveralDots()
    ensures GetFileExtension("a.b.c") == "c" && GetFileNameWithoutExtension("a.b.c") == "a.b"
  {
    JoinAtLastDot("a.b", "c");
    assert "a.b" + "." + "c" == "a.b.c";
  }

  /** Worked example: a trailing dot gives an empty extension. */
  lemma ExampleTrailingDot()
    ensures GetFileExtension("photo.") == "" && GetFileNameWithoutExtension("photo.") == "photo"
  {
    JoinAtLastDot("photo", "");
    assert "photo" + "." + "" == "photo.";
  }

  /** Worked example: a leading dot gives an empty base. */
  lemma ExampleLeadingDot()
    ensures GetFileExtension(".heic") == "heic" && GetFileNameWithoutExtension(".heic") == ""
  {
    JoinAtLastDot("", "heic");
    assert "" + "." + "heic" == ".heic";
  }

  /** Worked example: the extension is lower-cased. */
  lemma ExampleUpperCase()
    ensures GetFileExtension("Photo.HEIC") == "heic"
  {
    JoinAtLastDot("Photo", "HEIC");
    assert "Photo" + "." + "HEIC" == "Photo.HEIC";
  }
}
