/**
 * What the Flask backend receives and which uploads it keeps: the `allowed_file`
 * extension check and the `valid_images` filter of backend/app.py.
 */
module Uploads {
  import opened Wrappers
  import opened Text

  /** What decoding a staged file yields: PIL's mode, size and whether `info` has a "transparency" entry, or the failure's text. */
  datatype Decoded =
    | Raster(mode: string, width: nat, height: nat, transparency: bool)
    | Undecodable(reason: string)

  /** One part of the multipart field `images`. */
  datatype Upload = Upload(filename: string, image: Decoded)

  const AllowedExtensions: set<string> := {"jpg", "jpeg", "png"}

  /** Python's `s.rsplit(sep, 1)`: the whole string, or the text before and after the last separator. */
  function RSplitOnce(s: string, sep: char): (parts: seq<string>)
    ensures |parts| == 1 || |parts| == 2
    ensures |parts| == 1 <==> sep !in s
    ensures |parts| == 1 ==> parts[0] == s
    ensures |parts| == 2 ==> parts[0] + [sep] + parts[1] == s && sep !in parts[1]
  {
    match LastIndexOf(s, sep)
    case None => [s]
    case Some(k) =>
      var tail := s[k + 1..];
      assert forall j :: 0 <= j < |tail| ==> tail[j] == s[k + 1 + j];
      assert s[..k] + [sep] + tail == s;
      [s[..k], tail]
  }

  /** `allowed_file`: there is a '.', and the text after the last one, lower-cased, is jpg, jpeg or png. */
  predicate AllowedFile(filename: string)
  {
    '.' in filename && Lower(RSplitOnce(filename, '.')[1]) in AllowedExtensions
  }

  /** The verdict depends only on what follows the last '.'; a name without '.' is refused. */
  lemma AllowedFileIff(filename: string)
    ensures AllowedFile(filename) <==>
      exists stem, ext :: filename == stem + ['.'] + ext && '.' !in ext && Lower(ext) in AllowedExtensions
  {
    if '.' in filename {
      var parts := RSplitOnce(filename, '.');
      forall stem, ext | filename == stem + ['.'] + ext && '.' !in ext
        ensures ext == parts[1]
      {
        LastDotSplit(stem, ext);
      }
    }
  }

  /** Splitting at a '.' that no later '.' follows is what rsplit does. */
  lemma LastDotSplit(stem: string, ext: string)
    requires '.' !in ext
    ensures RSplitOnce(stem + ['.'] + ext, '.') == [stem, ext]
  {
    var s := stem + ['.'] + ext;
    assert forall j :: |stem| < j < |s| ==> s[j] == ext[j - |stem| - 1];
    LastIndexOfUnique(s, '.', |stem|);
    assert s[..|stem|] == stem;
    assert s[|stem| + 1..] == ext;
  }

  /** Only the last extension counts. */
  lemma FinalExtensionDecides(stem: string, ext: string)
    requires '.' !in ext
    ensures AllowedFile(stem + ['.'] + ext) <==> Lower(ext) in AllowedExtensions
  {
    LastDotSplit(stem, ext);
  }

  lemma UpperCaseAccepted()
    ensures AllowedFile("PHOTO.JPG")
  {
    FinalExtensionDecides("PHOTO", "JPG");
    assert "PHOTO" + ['.'] + "JPG" == "PHOTO.JPG";
    assert Lower("JPG") == "jpg";
  }

  lemma LastExtensionAccepted()
    ensures AllowedFile("a.gif.png")
  {
    FinalExtensionDecides("a.gif", "png");
    assert "a.gif" + ['.'] + "png" == "a.gif.png";
    assert Lower("png") == "png";
  }

  lemma EarlierExtensionIgnored()
    ensures !AllowedFile("a.png.gif")
  {
    FinalExtensionDecides("a.png", "gif");
    assert "a.png" + ['.'] + "gif" == "a.png.gif";
    assert Lower("gif") == "gif";
  }

  lemma NoDotRejected(filename: string)
    requires '.' !in filename
    ensures !AllowedFile(filename)
  {
  }

  /** A list comprehension with a condition: the elements that pass `keep`, in their order. */
  function Filter<T>(s: seq<T>, keep: T -> bool): (r: seq<T>)
    ensures |r| <= |s|
    ensures forall x :: x in r ==> x in s && keep(x)
  {
    if s == [] then [] else (if keep(s[0]) then [s[0]] else []) + Filter(s[1..], keep)
  }

  /** The filter keeps every element that passes. */
  lemma {:induction false} FilterComplete<T>(s: seq<T>, keep: T -> bool, x: T)
    requires x in s && keep(x)
    ensures x in Filter(s, keep)
  {
    if s[0] != x {
      FilterComplete(s[1..], keep, x);
    }
  }

  /** Filtering distributes over concatenation. */
  lemma {:induction false} FilterAppend<T>(a: seq<T>, b: seq<T>, keep: T -> bool)
    ensures Filter(a + b, keep) == Filter(a, keep) + Filter(b, keep)
  {
    if a == [] {
      assert a + b == b;
    } else {
      assert (a + b)[1..] == a[1..] + b;
      FilterAppend(a[1..], b, keep);
    }
  }

  /** `a` is `b` with some elements left out, the rest in their order. */
  predicate IsSubsequence<T(==)>(a: seq<T>, b: seq<T>)
    decreases |b|
  {
    if a == [] then true
    else if b == [] then false
    else if a[0] == b[0] then IsSubsequence(a[1..], b[1..])
    else IsSubsequence(a, b[1..])
  }

  /** Leaving out the first element of `b` keeps any subsequence of its tail a subsequence. */
  lemma {:induction false} SubsequenceOfTail<T>(a: seq<T>, b: seq<T>)
    requires b != [] && IsSubsequence(a, b[1..])
    ensures IsSubsequence(a, b)
    decreases |b|, |a|
  {
    if a != [] && a[0] == b[0] {
      SubsequenceDropHead(a, b[1..]);
    }
  }

  /** A subsequence without its first element is still a subsequence. */
  lemma {:induction false} SubsequenceDropHead<T>(a: seq<T>, b: seq<T>)
    requires a != [] && IsSubsequence(a, b)
    ensures IsSubsequence(a[1..], b)
    decreases |b|, |a|
  {
    if a[0] == b[0] {
      if a[1..] != [] {
        SubsequenceOfTail(a[1..], b);
      }
    } else {
      SubsequenceDropHead(a, b[1..]);
      SubsequenceOfTail(a[1..], b);
    }
  }

  /** The filter's result is a subsequence of its input: nothing reordered, nothing invented. */
  lemma {:induction false} FilterIsSubsequence<T>(s: seq<T>, keep: T -> bool)
    ensures IsSubsequence(Filter(s, keep), s)
  {
    if s != [] {
      FilterIsSubsequence(s[1..], keep);
      if keep(s[0]) {
        assert Filter(s, keep) == [s[0]] + Filter(s[1..], keep);
      } else {
        assert Filter(s, keep) == Filter(s[1..], keep);
        SubsequenceOfTail(Filter(s[1..], keep), s);
      }
    }
  }

  /** Nothing is dropped exactly when every element passes. */
  lemma {:induction false} FilterUnchangedIff<T>(s: seq<T>, keep: T -> bool)
    ensures Filter(s, keep) == s <==> forall j :: 0 <= j < |s| ==> keep(s[j])
  {
    if s != [] {
      FilterUnchangedIff(s[1..], keep);
      if !keep(s[0]) {
        assert |Filter(s, keep)| < |s|;
      }
      assert forall j :: 1 <= j < |s| ==> s[j] == s[1..][j - 1];
    }
  }

  predicate IsAllowedUpload(u: Upload)
  {
    AllowedFile(u.filename)
  }

  /** `valid_images = [img for img in images if allowed_file(img.filename)]`. */
  function ValidImages(images: seq<Upload>): (valid: seq<Upload>)
    ensures |valid| <= |images|
    ensures forall u :: u in valid ==> u in images && AllowedFile(u.filename)
  {
    Filter(images, IsAllowedUpload)
  }

  /** `valid_images` keeps exactly the allowed uploads, in their original order. */
  lemma ValidImagesExact(images: seq<Upload>)
    ensures IsSubsequence(ValidImages(images), images)
    ensures forall u :: u in ValidImages(images) <==> u in images && AllowedFile(u.filename)
    ensures forall a, b :: images == a + b ==> ValidImages(images) == ValidImages(a) + ValidImages(b)
  {
    FilterIsSubsequence(images, IsAllowedUpload);
    forall u | u in images && AllowedFile(u.filename)
      ensures u in ValidImages(images)
    {
      FilterComplete(images, IsAllowedUpload, u);
    }
    forall a, b | images == a + b
      ensures ValidImages(images) == ValidImages(a) + ValidImages(b)
    {
      FilterAppend(a, b, IsAllowedUpload);
    }
  }

  /** Nothing is dropped exactly when every upload is allowed. */
  lemma ValidImagesUnchangedIff(images: seq<Upload>)
    ensures ValidImages(images) == images <==> forall j :: 0 <= j < |images| ==> AllowedFile(images[j].filename)
  {
    FilterUnchangedIff(images, IsAllowedUpload);
  }
}
