/**
 * The upload policy of the multipart middleware: which files each upload
 * configuration accepts, how large they may be, and the name a staged file
 * is given.
 */
module UploadPolicy {
  import opened Wrappers

  const MiB: nat := 1024 * 1024

  /** `limits.fileSize` of the image configuration. */
  const ImageSizeLimit: nat := 2 * MiB

  /** `limits.fileSize` of the document configuration. */
  const DocumentSizeLimit: nat := 5 * MiB

  datatype Category = Image | Document

  function SizeLimit(c: Category): nat
  {
    match c
    case Image => ImageSizeLimit
    case Document => DocumentSizeLimit
  }

  /** A file of exactly the limit is within it; one byte more is not. */
  predicate WithinLimit(c: Category, size: nat)
  {
    size <= SizeLimit(c)
  }

  const ImageExtensions: set<string> := {".jpg", ".jpeg", ".png", ".gif"}

  const PdfMimeType: string := "application/pdf"

  predicate EndsWith(s: string, t: string)
  {
    |t| <= |s| && s[|s| - |t|..] == t
  }

  /**
   * The image `fileFilter`: `originalname.match(/\.(jpg|jpeg|png|gif)$/)` finds a
   * match, i.e. some tail of the name is one of the four extensions. The
   * pattern has no `i` flag, so the comparison is case-sensitive.
   */
  predicate ImageFilter(originalName: string)
  {
    exists i :: 0 <= i <= |originalName| && originalName[i..] in ImageExtensions
  }

  /** The document `fileFilter`: the declared mimetype is exactly `application/pdf`. */
  predicate DocumentFilter(mimetype: string)
  {
    mimetype == PdfMimeType
  }

  /** The image filter accepts a name iff it ends with one of the four extensions. */
  lemma ImageFilterBySuffix(name: string)
    ensures ImageFilter(name) <==>
      EndsWith(name, ".jpg") || EndsWith(name, ".jpeg") || EndsWith(name, ".png") || EndsWith(name, ".gif")
  {
    if EndsWith(name, ".jpg") { assert name[|name| - 4..] in ImageExtensions; }
    if EndsWith(name, ".jpeg") { assert name[|name| - 5..] in ImageExtensions; }
    if EndsWith(name, ".png") { assert name[|name| - 4..] in ImageExtensions; }
    if EndsWith(name, ".gif") { assert name[|name| - 4..] in ImageExtensions; }
    if ImageFilter(name) {
      var i :| 0 <= i <= |name| && name[i..] in ImageExtensions;
      assert |name[i..]| == |name| - i;
    }
  }

  /** Upper-case extensions are refused; lower-case ones pass. */
  lemma ImageFilterIsCaseSensitive()
    ensures !ImageFilter("scan.JPG") && !ImageFilter("scan.Png")
    ensures ImageFilter("scan.jpeg") && ImageFilter("scan.gif")
  {
    ImageFilterBySuffix("scan.JPG");
    ImageFilterBySuffix("scan.Png");
    ImageFilterBySuffix("scan.jpeg");
    ImageFilterBySuffix("scan.gif");
  }

  /** The limits in bytes, each inclusive. */
  lemma SizeLimits()
    ensures SizeLimit(Image) == 2097152 && SizeLimit(Document) == 5242880
    ensures WithinLimit(Image, 2097152) && !WithinLimit(Image, 2097153)
    ensures WithinLimit(Document, 5242880) && !WithinLimit(Document, 5242881)
  {
  }

  /** The document filter compares the whole mimetype, case and parameters included. */
  lemma DocumentFilterIsExact()
    ensures DocumentFilter("application/pdf")
    ensures !DocumentFilter("application/PDF") && !DocumentFilter("application/pdf; charset=binary")
    ensures !DocumentFilter("image/png")
  {
    assert "application/PDF"[12] != "application/pdf"[12];
    assert |"application/pdf; charset=binary"| != |"application/pdf"|;
  }

  // ---------------------------------------------------------------------------
  // path.extname and the staged file name
  // ---------------------------------------------------------------------------

  /** No '.' at or after position `i`. */
  predicate NoDotFrom(s: string, i: nat)
  {
    forall j :: i <= j < |s| ==> s[j] != '.'
  }

  predicate NoSlash(s: string)
  {
    forall j :: 0 <= j < |s| ==> s[j] != '/'
  }

  /** The name without trailing '/' characters. */
  function TrimTrailingSlashes(s: string): (r: string)
    ensures |r| <= |s| && r == s[..|r|]
    ensures r == [] || r[|r| - 1] != '/'
    ensures forall j :: |r| <= j < |s| ==> s[j] == '/'
  {
    if s != [] && s[|s| - 1] == '/' then TrimTrailingSlashes(s[..|s| - 1]) else s
  }

  /** The last path segment: everything after the last '/'. */
  function BaseName(s: string): (r: string)
    ensures EndsWith(s, r)
    ensures NoSlash(r)
    ensures |r| < |s| ==> s[|s| - |r| - 1] == '/'
  {
    if s == [] || s[|s| - 1] == '/' then []
    else
      var b := BaseName(s[..|s| - 1]);
      assert s[..|s| - 1][|s| - 1 - |b|..] == s[|s| - 1 - |b|..|s| - 1];
      b + [s[|s| - 1]]
  }

  /** The index of the last '.' in `s`, if any. */
  function LastDot(s: string): (r: Option<nat>)
    ensures r.None? ==> NoDotFrom(s, 0)
    ensures r.Some? ==> r.value < |s| && s[r.value] == '.' && NoDotFrom(s, r.value + 1)
  {
    if s == [] then None
    else if s[|s| - 1] == '.' then Some(|s| - 1)
    else LastDot(s[..|s| - 1])
  }

  /**
   * Node's `path.extname` (POSIX): from the last '.' of the last segment (with
   * trailing slashes ignored) to its end; empty when there is no dot, when the
   * only dot begins the segment (".bashrc"), and for "..".
   */
  function Extname(name: string): (ext: string)
    ensures ext == [] || (ext[0] == '.' && NoDotFrom(ext, 1) && NoSlash(ext))
    ensures EndsWith(TrimTrailingSlashes(name), ext)
    ensures var b := BaseName(TrimTrailingSlashes(name));
      (ext == [] <==> NoDotFrom(b, 1) || b == "..") && EndsWith(b, ext)
  {
    var b := BaseName(TrimTrailingSlashes(name));
    match LastDot(b)
    case None => []
    case Some(k) =>
      if k == 0 || b == ".." then []
      else
        assert !NoDotFrom(b, 1);
        b[k..]
  }

  /**
   * The `filename` rule: a generated prefix (timestamp and random number in the
   * source, a parameter here) followed by the original name's extension.
   */
  function StagedFilename(prefix: string, originalName: string): (r: string)
    ensures |r| >= |prefix| && r[..|prefix|] == prefix
    ensures EndsWith(r, Extname(originalName))
    ensures |r| == |prefix| + |Extname(originalName)|
  {
    prefix + Extname(originalName)
  }

  lemma {:induction false} BaseNameKeepsSuffix(s: string, t: string)
    requires EndsWith(s, t) && NoSlash(t)
    ensures EndsWith(BaseName(s), t)
    decreases |s|
  {
    if t != [] {
      assert s[|s| - 1] == t[|t| - 1];
      var s', t' := s[..|s| - 1], t[..|t| - 1];
      assert s'[|s'| - |t'|..] == t';
      BaseNameKeepsSuffix(s', t');
    }
  }

  lemma LastDotOfDotSuffix(b: string, t: string)
    requires EndsWith(b, t) && t != [] && t[0] == '.' && NoDotFrom(t, 1)
    ensures LastDot(b) == Some(|b| - |t|)
  {
    var k := |b| - |t|;
    assert b[k] == '.';
    assert NoDotFrom(b, k + 1) by {
      forall j | k + 1 <= j < |b| ensures b[j] != '.' {
        assert b[j] == t[j - k];
      }
    }
  }

  /** Each accepted extension is a dot followed by letters. */
  lemma ImageExtensionShape(t: string)
    requires t in ImageExtensions
    ensures |t| >= 4 && t[0] == '.' && NoDotFrom(t, 1) && NoSlash(t)
  {
  }

  /**
   * A name the image filter accepts keeps that extension in its staged name,
   * except when its last segment is the bare extension (".png"): Node gives
   * no extension for a name that is only a dot-segment, so it is staged
   * under the prefix alone.
   */
  lemma AcceptedImageExtension(name: string)
    requires ImageFilter(name)
    ensures Extname(name) == [] <==> BaseName(name) in ImageExtensions
    ensures Extname(name) != [] ==> Extname(name) in ImageExtensions && EndsWith(name, Extname(name))
  {
    var i :| 0 <= i <= |name| && name[i..] in ImageExtensions;
    var t := name[i..];
    ImageExtensionShape(t);
    assert EndsWith(name, t);
    assert TrimTrailingSlashes(name) == name;
    BaseNameKeepsSuffix(name, t);
    var b := BaseName(name);
    LastDotOfDotSuffix(b, t);
    if |b| == |t| {
      assert b == t;
    } else {
      assert b != ".." by { assert |b| > |t| >= 4; }
      assert Extname(name) == b[|b| - |t|..] == t;
      assert b !in ImageExtensions by {
        if b in ImageExtensions {
          ImageExtensionShape(b);
          assert false;
        }
      }
    }
  }
}
