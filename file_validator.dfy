/** The file checks used on downloaded images: the extension allow-list, with the
    POSIX `path.extname` of Node, and the size limit. The size comes from `fs.statSync`,
    which is a parameter: the size in bytes, or the error it raised. */
module FileValidator {
  import opened Wrappers
  import opened Text

  // ---------------------------------------------------------------------------
  // path.extname (POSIX)

  /** The path without its trailing `/` characters. */
  function TrimTrailingSlashes(p: string): string {
    if p != [] && p[|p| - 1] == '/' then TrimTrailingSlashes(p[..|p| - 1]) else p
  }

  /** The part after the last `/`. */
  function LastSegment(p: string): string {
    if p == [] || p[|p| - 1] == '/' then [] else LastSegment(p[..|p| - 1]) + [p[|p| - 1]]
  }

  /** The last path segment, trailing separators ignored. */
  function BaseName(p: string): string {
    LastSegment(TrimTrailingSlashes(p))
  }

  /** The index of the last `.`, if any. */
  function LastDot(s: string): (r: Option<nat>)
    ensures r.None? ==> forall k :: 0 <= k < |s| ==> s[k] != '.'
    ensures r.Some? ==>
      && r.value < |s| && s[r.value] == '.'
      && forall k :: r.value < k < |s| ==> s[k] != '.'
  {
    if s == [] then None
    else if s[|s| - 1] == '.' then Some(|s| - 1)
    else LastDot(s[..|s| - 1])
  }

  /** The extension of a base name: from its last `.` to its end, or nothing when it
      has no `.`, when its last `.` is its first character, or when it is `..`. */
  function BaseExtension(base: string): (r: string)
    ensures r == [] || (r[0] == '.' && |r| < |base| && r == base[|base| - |r|..])
    ensures forall k :: 1 <= k < |r| ==> r[k] != '.'
  {
    match LastDot(base)
    case None => ""
    case Some(d) => if d == 0 || base == ".." then "" else base[d..]
  }

  /** `path.extname`. */
  function Extname(p: string): string {
    BaseExtension(BaseName(p))
  }

  const ValidExtensions := [".jpg", ".jpeg", ".png", ".svg"]

  /** `validateImageExtension`. */
  predicate ValidateImageExtension(filename: string) {
    Lower(Extname(filename)) in ValidExtensions
  }

  /** `s` ends with `suffix`, ignoring ASCII case. */
  predicate EndsWithIgnoringCase(s: string, suffix: string) {
    |suffix| <= |s| && forall k :: 0 <= k < |suffix| ==> LowerChar(s[|s| - |suffix| + k]) == suffix[k]
  }

  /** A `.` followed only by other characters is the last one. */
  lemma LastDotAt(s: string, d: nat)
    requires d < |s| && s[d] == '.' && forall k :: d < k < |s| ==> s[k] != '.'
    ensures LastDot(s) == Some(d)
  {
    assert s[d] == '.';
    var v := LastDot(s).value;
  }

  /** A name ending in `ext`, in any ASCII case, has its last `.` where `ext` starts
      when `ext` is a `.` followed by no other `.`. */
  lemma LastDotOfSuffix(base: string, ext: string)
    requires |ext| >= 1 && ext[0] == '.' && forall k :: 1 <= k < |ext| ==> ext[k] != '.'
    requires EndsWithIgnoringCase(base, ext)
    ensures LastDot(base) == Some(|base| - |ext|)
  {
    var d := |base| - |ext|;
    assert LowerChar(base[d + 0]) == ext[0];
    forall k | d < k < |base| ensures base[k] != '.' {
      assert LowerChar(base[d + (k - d)]) == ext[k - d];
    }
    LastDotAt(base, d);
  }

  /** Each allowed extension is a `.` followed by at least one character that is not a `.`. */
  lemma ValidExtensionShape(ext: string)
    requires ext in ValidExtensions
    ensures |ext| >= 2 && ext[0] == '.' && forall k :: 1 <= k < |ext| ==> ext[k] != '.'
  {
  }

  /** A base name passes exactly when it is longer than, and ends in, an allowed
      extension in any ASCII case. */
  lemma BaseExtensionAllowed(base: string)
    ensures Lower(BaseExtension(base)) in ValidExtensions <==>
      exists ext :: ext in ValidExtensions && |ext| < |base| && EndsWithIgnoringCase(base, ext)
  {
    if Lower(BaseExtension(base)) in ValidExtensions {
      AllowedExtensionIsSuffix(base);
    }
    if ext :| ext in ValidExtensions && |ext| < |base| && EndsWithIgnoringCase(base, ext) {
      SuffixIsExtension(base, ext);
    }
  }

  /** An allowed extension found is a proper suffix of the base name, up to case. */
  lemma AllowedExtensionIsSuffix(base: string)
    requires Lower(BaseExtension(base)) in ValidExtensions
    ensures var ext := Lower(BaseExtension(base));
      |ext| < |base| && EndsWithIgnoringCase(base, ext)
  {
    var e := BaseExtension(base);
    var ext := Lower(e);
    assert |e| == |ext| >= 1;
    forall k | 0 <= k < |ext| ensures LowerChar(base[|base| - |ext| + k]) == ext[k] {
      assert e[k] == base[|base| - |ext| + k];
    }
  }

  /** A proper suffix that is an allowed extension, up to case, is the extension found. */
  lemma SuffixIsExtension(base: string, ext: string)
    requires ext in ValidExtensions && |ext| < |base| && EndsWithIgnoringCase(base, ext)
    ensures Lower(BaseExtension(base)) == ext
  {
    var e := BaseExtension(base);
    ValidExtensionShape(ext);
    LastDotOfSuffix(base, ext);
    var d := |base| - |ext|;
    assert |base| > 2;
    assert e == base[d..];
    forall k | 0 <= k < |ext| ensures Lower(e)[k] == ext[k] {
      assert e[k] == base[d + k];
    }
  }

  /** A file name passes exactly when its base name is longer than, and ends in, one of
      `.jpg`, `.jpeg`, `.png` or `.svg` in any ASCII case: only the last extension of
      the last segment counts, and a name that is nothing but the extension fails. */
  lemma ImageExtensionSuffix(filename: string)
    ensures ValidateImageExtension(filename) <==>
      exists ext :: ext in ValidExtensions && |ext| < |BaseName(filename)|
        && EndsWithIgnoringCase(BaseName(filename), ext)
  {
    BaseExtensionAllowed(BaseName(filename));
  }

  /** A path without `/` is its own last segment. */
  lemma {:induction false} LastSegmentOfSegment(p: string)
    requires forall k :: 0 <= k < |p| ==> p[k] != '/'
    ensures LastSegment(p) == p
  {
    if p != [] {
      LastSegmentOfSegment(p[..|p| - 1]);
    }
  }

  /** What follows the last `/` is the last segment. */
  lemma {:induction false} LastSegmentAfterSlash(dir: string, file: string)
    requires forall k :: 0 <= k < |file| ==> file[k] != '/'
    ensures LastSegment(dir + "/" + file) == file
  {
    var q := dir + "/" + file;
    if file != [] {
      assert q[..|q| - 1] == dir + "/" + file[..|file| - 1];
      LastSegmentAfterSlash(dir, file[..|file| - 1]);
      assert file == file[..|file| - 1] + [file[|file| - 1]];
    }
  }

  /** A segment is its own base name. */
  lemma BaseNameOfSegment(p: string)
    requires p != [] && forall k :: 0 <= k < |p| ==> p[k] != '/'
    ensures BaseName(p) == p
  {
    assert TrimTrailingSlashes(p) == p;
    LastSegmentOfSegment(p);
  }

  /** The base name is what follows the last `/` when that is not empty. */
  lemma BaseNameAfterSlash(dir: string, file: string)
    requires file != [] && forall k :: 0 <= k < |file| ==> file[k] != '/'
    ensures BaseName(dir + "/" + file) == file
  {
    var q := dir + "/" + file;
    assert q[|q| - 1] == file[|file| - 1];
    assert TrimTrailingSlashes(q) == q;
    LastSegmentAfterSlash(dir, file);
  }

  /** A trailing `/` does not change the base name. */
  lemma BaseNameTrailingSlash(p: string)
    ensures BaseName(p + "/") == BaseName(p)
  {
    assert (p + "/")[..|p|] == p;
  }

  /** Only the last path segment counts. */
  lemma OnlyLastSegmentCounts(dir: string, file: string)
    requires file != [] && forall k :: 0 <= k < |file| ==> file[k] != '/'
    ensures ValidateImageExtension(dir + "/" + file) == ValidateImageExtension(file)
  {
    BaseNameAfterSlash(dir, file);
    BaseNameOfSegment(file);
  }

  // ---------------------------------------------------------------------------
  // Examples

  /** Only the last extension counts: `a.bmp.png` passes, ... */
  lemma LastExtensionCounts(s: string)
    requires s == "a.bmp.png"
    ensures ValidateImageExtension(s)
  {
    BaseNameOfSegment(s);
    LastDotAt(s, 5);
    assert BaseExtension(s) == ".png";
    assert Lower(".png") == ".png";
  }

  /** ... and `a.png.bmp` fails. */
  lemma EarlierExtensionIgnored(s: string)
    requires s == "a.png.bmp"
    ensures !ValidateImageExtension(s)
  {
    BaseNameOfSegment(s);
    LastDotAt(s, 5);
    assert BaseExtension(s) == ".bmp";
    assert Lower(".bmp") == ".bmp";
  }

  /** The comparison ignores case. */
  lemma ExtensionCaseIgnored(s: string)
    requires s == "Foo.PNG"
    ensures ValidateImageExtension(s)
  {
    BaseNameOfSegment(s);
    LastDotAt(s, 3);
    assert BaseExtension(s) == ".PNG";
    assert Lower(".PNG") == ".png";
  }

  lemma UnlistedExtensionRejected(s: string)
    requires s == "foo.bmp"
    ensures !ValidateImageExtension(s)
  {
    BaseNameOfSegment(s);
    LastDotAt(s, 3);
    assert BaseExtension(s) == ".bmp";
    assert Lower(".bmp") == ".bmp";
  }

  /** The extension of a directory does not count. */
  lemma DirectoryExtensionIgnored(s: string)
    requires s == "dir.png/file"
    ensures !ValidateImageExtension(s)
  {
    assert s == "dir.png" + "/" + "file";
    BaseNameAfterSlash("dir.png", "file");
    assert LastDot("file") == None;
  }

  /** A name whose only `.` is its first character has no extension. */
  lemma DotFileRejected(s: string)
    requires s == ".png"
    ensures !ValidateImageExtension(s)
  {
    BaseNameOfSegment(s);
    LastDotAt(s, 0);
    assert BaseExtension(s) == "";
  }

  /** A name ending in `.` has the extension `.`, which is not allowed. */
  lemma TrailingDotRejected(s: string)
    requires s == "a."
    ensures !ValidateImageExtension(s)
  {
    BaseNameOfSegment(s);
    LastDotAt(s, 1);
    assert BaseExtension(s) == ".";
    assert Lower(".") == ".";
  }

  /** Trailing separators are ignored. */
  lemma TrailingSlashIgnored(s: string)
    requires s == "img.png/"
    ensures ValidateImageExtension(s)
  {
    var b := "img.png";
    assert s == b + "/";
    BaseNameTrailingSlash(b);
    BaseNameOfSegment(b);
    LastDotAt(b, 3);
    assert BaseExtension(b) == ".png";
    assert Lower(".png") == ".png";
  }

  // ---------------------------------------------------------------------------
  // Size checks

  /** `validateFileSize`: strictly below the limit, or the stat error rethrown. */
  function ValidateFileSize(stat: Result<int>, maxBytes: int): (r: Result<bool>)
    ensures r.Failure? <==> stat.Failure?
    ensures stat.Failure? ==> r.error == "Failed to validate file size: " + stat.error
  {
    match stat
    case Failure(e) => Failure("Failed to validate file size: " + e)
    case Success(size) => Success(size < maxBytes)
  }

  /** `getFileSize`: the size, or the stat error rethrown. */
  function GetFileSize(stat: Result<int>): (r: Result<int>)
    ensures r.Failure? <==> stat.Failure?
    ensures stat.Failure? ==> r.error == "Failed to get file size: " + stat.error
    ensures stat.Success? ==> r.value == stat.value
  {
    match stat
    case Failure(e) => Failure("Failed to get file size: " + e)
    case Success(size) => Success(size)
  }

  /** The two checks agree: a file passes the size check exactly when the size they
      both read is below the limit, so a file of exactly `maxBytes` bytes fails; and
      raising the limit never turns a pass into a failure. */
  lemma SizeChecksAgree(stat: Result<int>, maxBytes: int, larger: int)
    requires maxBytes <= larger
    ensures ValidateFileSize(stat, maxBytes).Failure? <==> GetFileSize(stat).Failure?
    ensures ValidateFileSize(stat, maxBytes).Success? ==>
      (ValidateFileSize(stat, maxBytes).value <==> GetFileSize(stat).value < maxBytes)
    ensures stat == Success(maxBytes) ==> ValidateFileSize(stat, maxBytes) == Success(false)
    ensures ValidateFileSize(stat, maxBytes) == Success(true) ==> ValidateFileSize(stat, larger) == Success(true)
  {
  }
}
