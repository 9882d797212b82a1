/**
 * The upload whitelist of app.py (`ALLOWED_EXTENSIONS`, line 20, and
 * `allowed_file`, lines 36-37): a file name is accepted when it holds a dot
 * and the text after its last dot, lower-cased, is png, jpg, jpeg or gif.
 */
module Uploads {
  import opened Wrappers

  /** `ALLOWED_EXTENSIONS` of app.py line 20. */
  const AllowedExtensions: set<string> := {"png", "jpg", "jpeg", "gif"}

  /** Lower-cases an ASCII capital and leaves every other character alone. */
  function LowerChar(c: char): char {
    if 'A' <= c <= 'Z' then (c as int - 'A' as int + 'a' as int) as char else c
  }

  /** Lower-casing the characters one by one. */
  function AsciiLower(s: string): (r: string)
    ensures |r| == |s|
    ensures forall k :: 0 <= k < |s| ==> r[k] == LowerChar(s[k])
  {
    if s == [] then [] else [LowerChar(s[0])] + AsciiLower(s[1..])
  }

  /** Lower-casing twice is lower-casing once. */
  lemma AsciiLowerIdempotent(s: string)
    ensures AsciiLower(AsciiLower(s)) == AsciiLower(s)
  {
    var once := AsciiLower(s);
    forall k | 0 <= k < |s|
      ensures AsciiLower(once)[k] == once[k]
    {
      var c := s[k];
      assert once[k] == LowerChar(c);
      if 'A' <= c <= 'Z' {
        assert 'a' <= LowerChar(c) <= 'z';
      }
    }
  }

  /** Lower-casing a slice is slicing the lower-cased text. */
  lemma AsciiLowerSlice(s: string, i: nat)
    requires i <= |s|
    ensures AsciiLower(s[i..]) == AsciiLower(s)[i..]
  {
  }

  /** The position of the last '.' of `s`, if any. */
  function LastDot(s: string): (r: Option<nat>)
    ensures r.None? <==> '.' !in s
    ensures r.Some? ==> r.value < |s| && s[r.value] == '.' && '.' !in s[r.value + 1..]
  {
    if s == [] then None
    else if s[|s| - 1] == '.' then Some(|s| - 1)
    else
      var init, c := s[..|s| - 1], s[|s| - 1];
      assert s == init + [c];
      var r := LastDot(init);
      if r.Some? then
        assert s[r.value + 1..] == init[r.value + 1..] + [c];
        r
      else
        r
  }

  /** No dot after position `j`. */
  lemma NoDotAfter(s: string, j: nat)
    requires j < |s| && '.' !in s[j + 1..]
    ensures forall k :: j < k < |s| ==> s[k] != '.'
  {
    forall k | j < k < |s|
      ensures s[k] != '.'
    {
      assert s[j + 1..][k - j - 1] == s[k];
    }
  }

  /** A dot with no dot after it is the last dot. */
  lemma LastDotUnique(s: string, j: nat)
    requires j < |s| && s[j] == '.' && '.' !in s[j + 1..]
    ensures LastDot(s) == Some(j)
  {
    var i := LastDot(s).value;
    NoDotAfter(s, i);
    NoDotAfter(s, j);
  }

  /** Conversely, no dot after position `j` means a dot-free tail. */
  lemma DotFreeTail(s: string, j: nat)
    requires j < |s| && forall k :: j < k < |s| ==> s[k] != '.'
    ensures '.' !in s[j + 1..]
  {
  }

  /** Lower-casing moves no dot. */
  lemma LastDotOfLower(s: string)
    ensures LastDot(AsciiLower(s)) == LastDot(s)
  {
    var lower := AsciiLower(s);
    assert forall k :: 0 <= k < |s| ==> (lower[k] == '.' <==> s[k] == '.');
    match LastDot(s)
    case None =>
      assert '.' !in lower by {
        forall k | 0 <= k < |lower|
          ensures lower[k] != '.'
        {
          assert s[k] != '.';
        }
      }
    case Some(j) =>
      forall k | j < k < |lower|
        ensures lower[k] != '.'
      {
        NoDotAfter(s, j);
      }
      DotFreeTail(lower, j);
      LastDotUnique(lower, j);
  }

  /**
   * `filename.rsplit('.', 1)`, when the name holds a dot: the text before
   * the last dot and the text after it.
   */
  function RSplitDot(filename: string): (r: Option<(string, string)>)
    ensures r.None? <==> '.' !in filename
    ensures r.Some? ==> r.value.0 + "." + r.value.1 == filename && '.' !in r.value.1
  {
    match LastDot(filename)
    case None => None
    case Some(i) =>
      assert filename[..i] + "." + filename[i + 1..] == filename;
      Some((filename[..i], filename[i + 1..]))
  }

  /** `allowed_file`: the name holds a dot and its extension, lower-cased, is allowed. */
  function AllowedFile(filename: string): bool {
    match RSplitDot(filename)
    case None => false
    case Some((_, ext)) => AsciiLower(ext) in AllowedExtensions
  }

  /**
   * A name is accepted exactly when it has a dot with no dot after it and
   * the text after that dot, lower-cased, is an allowed extension.
   */
  lemma AllowedFileMeans(filename: string)
    ensures AllowedFile(filename) <==>
      exists i :: 0 <= i < |filename| && filename[i] == '.' && '.' !in filename[i + 1..]
                  && AsciiLower(filename[i + 1..]) in AllowedExtensions
  {
    if '.' in filename {
      var i := LastDot(filename).value;
      forall j | 0 <= j < |filename| && filename[j] == '.' && '.' !in filename[j + 1..]
        ensures j == i
      {
        LastDotUnique(filename, j);
      }
    }
  }

  /** The verdict does not depend on the case of the name. */
  lemma AllowedIgnoresCase(filename: string)
    ensures AllowedFile(AsciiLower(filename)) == AllowedFile(filename)
  {
    var lower := AsciiLower(filename);
    LastDotOfLower(filename);
    match LastDot(filename)
    case None =>
    case Some(i) =>
      AsciiLowerSlice(filename, i + 1);
      AsciiLowerIdempotent(filename[i + 1..]);
  }

  /** Whatever precedes the last dot, the extension after it alone decides. */
  lemma ExtensionDecides(head: string, ext: string)
    requires '.' !in ext
    ensures AllowedFile(head + "." + ext) <==> AsciiLower(ext) in AllowedExtensions
  {
    var name := head + "." + ext;
    assert name[|head|] == '.' && name[|head| + 1..] == ext;
    LastDotUnique(name, |head|);
  }

  /** A name that is only a dot and an allowed extension passes. */
  lemma BareExtensionAllowed()
    ensures AllowedFile("" + "." + "png")
  {
    ExtensionDecides("", "png");
    assert AsciiLower("png") == "png";
  }

  /** A name without a dot is refused, whatever follows. */
  lemma ExtensionWithoutDotRefused()
    ensures !AllowedFile("png")
  {
    assert "png"[0] != '.' && "png"[1] != '.' && "png"[2] != '.';
  }

  /** An upper-case extension passes. */
  lemma UpperCaseExtensionAllowed()
    ensures AllowedFile("photo" + "." + "JPG")
  {
    ExtensionDecides("photo", "JPG");
    assert AsciiLower("JPG") == "jpg";
  }

  /** Only the text after the last dot counts. */
  lemma DoubleExtensionRefused()
    ensures !AllowedFile("a.png" + "." + "exe")
  {
    ExtensionDecides("a.png", "exe");
    var ext := AsciiLower("exe");
    assert ext[0] == 'e';
    assert ext !in {"png", "jpg", "jpeg", "gif"};
  }
}
