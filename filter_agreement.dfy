/**
 * How the two upload checks relate: multer's `fileFilter` in index.js runs first,
 * then Flask's `allowed_file` in backend/app.py on the forwarded original names.
 */
module FilterAgreement {
  import opened Text
  import opened PosixPath
  import opened Uploads
  import opened Gateway

  /** The characters of an allowed (lower-cased) extension are letters, so the original has no '/'. */
  lemma AllowedExtensionHasNoSlash(ext: string)
    requires Lower(ext) in AllowedExtensions
    ensures NoSlash(ext) && ext != []
  {
    forall j | 0 <= j < |ext|
      ensures ext[j] != '/'
    {
      assert 'a' <= Lower(ext)[j] <= 'z';
    }
  }

  /** A path split after its last '/': the directory part and the slash-free rest. */
  lemma SplitAtLastSlash(s: string) returns (prefix: string, base: string)
    ensures s == prefix + base
    ensures prefix == [] || prefix[|prefix| - 1] == '/'
    ensures NoSlash(base)
  {
    match LastIndexOf(s, '/')
    case None =>
      prefix, base := [], s;
    case Some(k) =>
      prefix, base := s[..k + 1], s[k + 1..];
      assert forall j :: 0 <= j < |base| ==> base[j] == s[k + 1 + j];
  }

  /** Node's extension of a name is empty or exactly what follows its last '.', dot included. */
  lemma ExtNameAtLastDot(stem: string, ext: string)
    requires ext != [] && NoSlash(ext) && '.' !in ext
    ensures ExtName(stem + ['.'] + ext) == "" || ExtName(stem + ['.'] + ext) == ['.'] + ext
  {
    var dotExt := ['.'] + ext;
    assert forall j :: 0 < j < |dotExt| ==> dotExt[j] == ext[j - 1];
    var prefix, base := SplitAtLastSlash(stem);
    assert stem + ['.'] + ext == prefix + base + dotExt;
    if base == [] {
      assert prefix + base + dotExt == prefix + dotExt;
      LastComponentOf(prefix, dotExt);
      LastIndexOfUnique(dotExt, '.', 0);
    } else {
      assert |base + dotExt| > 2;
      ExtNameOfComponent(prefix, base, dotExt);
    }
  }

  /** A '.' followed by an allowed extension passes Node's lower-cased extension test. */
  lemma DottedAllowedMatches(ext: string)
    requires Lower(ext) in AllowedExtensions
    ensures MatchesFiletypes(Lower(['.'] + ext))
  {
    LowerAppend(['.'], ext);
    var lowered := Lower(['.'] + ext);
    assert lowered[1..] == Lower(ext);
    MatchesAt(lowered, Lower(ext), 1);
  }

  /**
   * Every name Flask accepts also passes Node's extension test, unless its last
   * component starts with the final '.' (Node then sees no extension).
   */
  lemma BackendAcceptedPassesNodeExtension(name: string)
    requires AllowedFile(name) && ExtName(name) != ""
    ensures MatchesFiletypes(Lower(ExtName(name)))
  {
    var parts := RSplitOnce(name, '.');
    var stem, ext := parts[0], parts[1];
    AllowedExtensionHasNoSlash(ext);
    ExtNameAtLastDot(stem, ext);
    DottedAllowedMatches(ext);
  }

  /** Node accepts a name ending in ".jpgx": the word "jpg" occurs in its extension. */
  lemma JpgxPassesNode(file: IncomingFile, stem: string)
    requires file.originalname == stem + ".jpgx" && stem != [] && NoSlash(stem)
    requires MatchesFiletypes(file.mimetype)
    ensures FileFilter(file) == Accept
  {
    var ext := ".jpgx";
    assert NoSlash(ext) && NoInnerDot(ext) by {
      assert forall j :: 0 < j < |ext| ==> ext[j] in "jpgx";
    }
    assert |stem + ext| > 2;
    ExtNameOfFileName(stem, ext);
    JpgxMatches();
  }

  lemma JpgxMatches()
    ensures MatchesFiletypes(Lower(".jpgx"))
  {
    assert Lower(".jpgx") == ".jpgx";
    MatchesAt(".jpgx", "jpg", 1);
  }

  /** Flask refuses a name ending in ".jpgx": "jpgx" is not an allowed extension. */
  lemma JpgxFailsBackend(stem: string)
    ensures !AllowedFile(stem + ".jpgx")
  {
    assert stem + ['.'] + "jpgx" == stem + ".jpgx";
    Uploads.FinalExtensionDecides(stem, "jpgx");
    assert Lower("jpgx") == "jpgx";
  }

  /** So Node can forward a file that Flask then drops. */
  lemma NodeOnlyAccepts(file: IncomingFile, stem: string)
    requires file.originalname == stem + ".jpgx" && stem != [] && NoSlash(stem)
    requires MatchesFiletypes(file.mimetype)
    ensures FileFilter(file) == Accept
    ensures !AllowedFile(file.originalname)
  {
    JpgxPassesNode(file, stem);
    JpgxFailsBackend(stem);
  }

  /** Flask accepts the name ".png", which Node refuses because it sees no extension. */
  lemma BackendOnlyAccepts(file: IncomingFile)
    requires file.originalname == ".png"
    ensures FileFilter(file) == Reject(OnlyImagesAllowed)
    ensures AllowedFile(file.originalname)
  {
    var name := file.originalname;
    assert forall j :: 0 < j < |name| ==> name[j] in "png";
    NoExtensionRejected(file);
    DotPngAllowed();
  }

  lemma DotPngAllowed()
    ensures AllowedFile(".png")
  {
    assert [] + ['.'] + "png" == ".png";
    Uploads.FinalExtensionDecides([], "png");
    assert Lower("png") == "png";
  }
}
