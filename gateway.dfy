/**
 * The Express front end (index.js): multer's `fileFilter`, the staged file name,
 * and the `/convert` handler's empty-upload guard and reply. The POST to the Flask
 * service is not modelled; its outcome is a parameter.
 */
module Gateway {
  import opened Wrappers
  import opened Text
  import opened PosixPath

  /** What multer passes to `fileFilter` and `filename` about one part. */
  datatype IncomingFile = IncomingFile(originalname: string, mimetype: string)

  /** How `fileFilter` calls multer's callback: `cb(null, true)`, or `cb(message)`. */
  datatype FilterCallback = Accept | Reject(error: string)

  const OnlyImagesAllowed: string := "Error: Only JPG and PNG images are allowed!"

  /** `/jpeg|jpg|png/.test(s)`: unanchored and case-sensitive. */
  predicate MatchesFiletypes(s: string)
  {
    Contains(s, "jpeg") || Contains(s, "jpg") || Contains(s, "png")
  }

  /** Lines 30-39. */
  function FileFilter(file: IncomingFile): (cb: FilterCallback)
    ensures cb.Accept? <==> MatchesFiletypes(file.mimetype) && MatchesFiletypes(Lower(ExtName(file.originalname)))
    ensures cb.Reject? ==> cb.error == OnlyImagesAllowed
  {
    var mimetype := MatchesFiletypes(file.mimetype);
    var extname := MatchesFiletypes(Lower(ExtName(file.originalname)));
    if mimetype && extname then Accept else Reject(OnlyImagesAllowed)
  }

  /** The test succeeds exactly when one of the three words occurs somewhere in the text. */
  lemma MatchesFiletypesIff(s: string)
    ensures MatchesFiletypes(s) <==>
      exists i: nat :: OccursAt(s, "jpeg", i) || OccursAt(s, "jpg", i) || OccursAt(s, "png", i)
  {
    ContainsIff(s, "jpeg");
    ContainsIff(s, "jpg");
    ContainsIff(s, "png");
  }

  /** A word found at some position makes the test succeed, wherever it sits. */
  lemma MatchesAt(s: string, word: string, i: nat)
    requires word == "jpeg" || word == "jpg" || word == "png"
    requires OccursAt(s, word, i)
    ensures MatchesFiletypes(s)
  {
    ContainsIff(s, word);
  }

  /** Only the final extension of the name is tested, lower-cased; the rest of the name plays no part. */
  lemma FinalExtensionDecides(file: IncomingFile, prefix: string, stem: string, ext: string)
    requires file.originalname == prefix + stem + ext
    requires prefix == [] || prefix[|prefix| - 1] == '/'
    requires stem != [] && NoSlash(stem)
    requires ext != [] && ext[0] == '.' && NoSlash(ext) && NoInnerDot(ext)
    requires stem + ext != ".."
    ensures FileFilter(file).Accept? <==> MatchesFiletypes(file.mimetype) && MatchesFiletypes(Lower(ext))
  {
    ExtNameOfComponent(prefix, stem, ext);
  }

  lemma JpgPasses()
    ensures MatchesFiletypes(Lower(".jpg"))
  {
    assert Lower(".jpg") == ".jpg";
    MatchesAt(".jpg", "jpg", 1);
  }

  lemma GifFails()
    ensures !MatchesFiletypes(Lower(".gif"))
  {
    assert Lower(".gif") == ".gif";
    FirstCharAbsent(".gif", "jpeg");
    FirstCharAbsent(".gif", "jpg");
    FirstCharAbsent(".gif", "png");
  }

  /** A name ending in ".jpg" passes whatever precedes it ("x.gif.jpg" included), given an image MIME type. */
  lemma FinalJpgAccepted(file: IncomingFile, stem: string)
    requires file.originalname == stem + ".jpg" && stem != [] && NoSlash(stem)
    requires MatchesFiletypes(file.mimetype)
    ensures FileFilter(file) == Accept
  {
    assert |stem + ".jpg"| > 2;
    ExtNameOfFileName(stem, ".jpg");
    JpgPasses();
  }

  /** A name ending in ".gif" is refused whatever precedes it ("jpg.gif" included). */
  lemma FinalGifRejected(file: IncomingFile, stem: string)
    requires file.originalname == stem + ".gif" && stem != [] && NoSlash(stem)
    ensures FileFilter(file) == Reject(OnlyImagesAllowed)
  {
    assert |stem + ".gif"| > 2;
    ExtNameOfFileName(stem, ".gif");
    GifFails();
  }

  /** A name without an extension is refused, whatever else it contains ("png" included). */
  lemma NoExtensionRejected(file: IncomingFile)
    requires NoSlash(file.originalname) && NoInnerDot(file.originalname)
    ensures FileFilter(file) == Reject(OnlyImagesAllowed)
  {
    NoExtension(file.originalname);
    assert Lower("") == "";
  }

  /** The extension is lower-cased before the test: ".PNG" passes. */
  lemma UpperCaseExtensionPasses()
    ensures MatchesFiletypes(Lower(".PNG"))
  {
    assert Lower(".PNG") == ".png";
    MatchesAt(".png", "png", 1);
  }

  /** The MIME type is not lower-cased: "IMAGE/PNG" fails. */
  lemma UpperCaseMimeFails()
    ensures !MatchesFiletypes("IMAGE/PNG")
  {
    var mime := "IMAGE/PNG";
    assert forall i :: 0 <= i < |mime| ==> mime[i] != 'j' && mime[i] != 'p';
    FirstCharAbsent(mime, "jpeg");
    FirstCharAbsent(mime, "jpg");
    FirstCharAbsent(mime, "png");
  }

  /** The match is unanchored: an extension that merely contains a word passes. */
  lemma UnanchoredExtensions()
    ensures MatchesFiletypes(".jpgx")
    ensures MatchesFiletypes(".pngfoo")
  {
    MatchesAt(".jpgx", "jpg", 1);
    MatchesAt(".pngfoo", "png", 1);
  }

  /** Line 24: `Date.now() + path.extname(file.originalname)`, with the clock reading as a parameter. */
  function StagedName(now: nat, originalname: string): string
  {
    DecimalString(now) + ExtName(originalname)
  }

  /** The staged name is the timestamp's digits, which read back as the timestamp, then the original extension. */
  lemma StagedNameParts(now: nat, originalname: string)
    ensures var name, ext := StagedName(now, originalname), ExtName(originalname);
      && |ext| < |name|
      && AllDigits(name[..|name| - |ext|])
      && DecimalValue(name[..|name| - |ext|]) == now
      && name[|name| - |ext|..] == ext
  {
    var name, digits := StagedName(now, originalname), DecimalString(now);
    assert name[..|digits|] == digits;
    DecimalRoundTrip(now);
  }

  /** The staged file has the same extension as the original, so the filter would judge it alike. */
  lemma StagedNameKeepsExtension(now: nat, originalname: string)
    ensures ExtName(StagedName(now, originalname)) == ExtName(originalname)
  {
    var digits, ext := DecimalString(now), ExtName(originalname);
    DigitsArePlain(digits);
    if ext == [] {
      assert digits + ext == digits;
      NoExtension(digits);
    } else {
      assert (digits + ext)[0] == digits[0];
      ExtNameOfFileName(digits, ext);
    }
  }

  /** A run of digits holds no '/' and no '.'. */
  lemma DigitsArePlain(digits: string)
    requires AllDigits(digits)
    ensures NoSlash(digits) && NoInnerDot(digits)
    ensures digits != [] ==> digits[0] != '.'
  {
  }

  /** Number of leading decimal digits. */
  function DigitRun(s: string): (n: nat)
    ensures n <= |s|
  {
    if s != [] && IsDigit(s[0]) then 1 + DigitRun(s[1..]) else 0
  }

  lemma {:induction false} DigitRunOfConcat(digits: string, rest: string)
    requires AllDigits(digits)
    requires rest == [] || !IsDigit(rest[0])
    ensures DigitRun(digits + rest) == |digits|
  {
    if digits != [] {
      assert (digits + rest)[1..] == digits[1..] + rest;
      DigitRunOfConcat(digits[1..], rest);
    } else {
      assert digits + rest == rest;
    }
  }

  /**
   * Two staged names coincide exactly when the timestamps and the extensions do: two uploads
   * with the same extension in the same millisecond collide, and no others do.
   */
  lemma StagedNameCollision(t1: nat, n1: string, t2: nat, n2: string)
    ensures StagedName(t1, n1) == StagedName(t2, n2) <==> t1 == t2 && ExtName(n1) == ExtName(n2)
  {
    var d1, e1, d2, e2 := DecimalString(t1), ExtName(n1), DecimalString(t2), ExtName(n2);
    if d1 + e1 == d2 + e2 {
      DigitRunOfConcat(d1, e1);
      DigitRunOfConcat(d2, e2);
      assert d1 == (d1 + e1)[..|d1|] && d2 == (d2 + e2)[..|d2|];
      assert e1 == (d1 + e1)[|d1|..] && e2 == (d2 + e2)[|d2|..];
      DecimalRoundTrip(t1);
      DecimalRoundTrip(t2);
    }
  }

  /** A staged upload as the `/convert` handler sees it in `req.files`. */
  datatype StagedFile = StagedFile(path: string, originalname: string, mimetype: string)

  /** The outcome of the POST to the Flask service: the PDF bytes, or a rejected promise (network error or non-2xx status). */
  datatype BackendReply = Delivered(body: seq<bv8>) | Failed

  datatype Reply =
    | PlainText(status: nat, text: string)
    | Attachment(contentType: string, disposition: string, body: seq<bv8>)

  const NoImagesUploaded: string := "No images uploaded"
  const ConversionFailed: string := "Error converting images to PDF"

  /** Lines 51-91, with the forwarding call's outcome given. */
  function HandleConvert(files: Option<seq<StagedFile>>, backend: BackendReply): (r: Reply)
    ensures r == PlainText(400, NoImagesUploaded) <==> files.None? || files.value == []
    ensures r.Attachment? <==> files.Some? && files.value != [] && backend.Delivered?
    ensures r.Attachment? ==> r == Attachment("application/pdf", "attachment; filename=converted.pdf", backend.body)
    ensures r.PlainText? && r.status != 400 ==> r == PlainText(500, ConversionFailed)
  {
    if files.None? || |files.value| == 0 then PlainText(400, NoImagesUploaded)
    else
      match backend
      case Delivered(body) => Attachment("application/pdf", "attachment; filename=converted.pdf", body)
      case Failed => PlainText(500, ConversionFailed)
  }
}
