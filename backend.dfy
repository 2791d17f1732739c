/**
 * The `/convert` handler of the Flask backend (backend/app.py): the three 400
 * guards, the per-image decode / mode / fit-to-Letter step, and the loop that draws
 * one Letter page per valid image, abandoning the whole request on the first failure.
 */
module Backend {
  import opened Wrappers
  import opened Uploads
  import opened Layout
  import opened PdfCanvas

  /** The request's files: the `images` entries, or None when the form has no `images` key. */
  datatype Request = Request(images: Option<seq<Upload>>)

  /** A PDF attachment (`converted.pdf`), or status 400 with a JSON `error` text. */
  datatype Response = Pdf(document: seq<Page>) | BadRequest(error: string)

  const NoImagesProvided: string := "No images provided"
  const NoImagesSelected: string := "No images selected"
  const NoValidImages: string := "No valid images provided. Please upload JPG or PNG files."

  function ProcessingError(filename: string, reason: string): string
  {
    "Error processing image " + filename + ": " + reason
  }

  /** Why an upload cannot be drawn, if it cannot: a decoding failure, or a zero dimension dividing by zero. */
  function FailureReason(d: Decoded): Option<string>
  {
    match d
    case Undecodable(reason) => Some(reason)
    case Raster(_, w, h, _) => if w == 0 || h == 0 then Some(DivisionByZero) else None
  }

  /** One iteration of the loop body (lines 60-84): open, convert the mode, place on the page. */
  function ProcessImage(u: Upload): (r: Result<Drawing>)
    ensures r.Err? <==> FailureReason(u.image).Some?
    ensures r.Err? ==> r.error == ProcessingError(u.filename, FailureReason(u.image).value)
    ensures r.Ok? ==> && r.value.pixelWidth == u.image.width && r.value.pixelHeight == u.image.height
                      && r.value.mode == DrawnMode(u.image.mode, u.image.transparency)
                      && FitToLetter(u.image.width, u.image.height).Ok?
                      && r.value.at == FitToLetter(u.image.width, u.image.height).value
                      && InsideLetter(r.value.at) && Centred(r.value.at) && TouchesEdges(r.value.at)
                      && KeepsAspect(r.value.at, u.image.width, u.image.height)
  {
    match u.image
    case Undecodable(reason) => Err(ProcessingError(u.filename, reason))
    case Raster(mode, w, h, transparency) =>
      match FitToLetter(w, h)
      case Err(e) => Err(ProcessingError(u.filename, e))
      case Ok(at) => Ok(Drawing(DrawnMode(mode, transparency), w, h, at))
  }

  /** The page `showPage` closes after one `drawImage`. */
  function LetterPage(d: Drawing): Page
  {
    Page(LetterWidth, LetterHeight, [d])
  }

  /** The pages the loop has produced after the given images, or the first failure's text. */
  function Render(images: seq<Upload>): Result<seq<Page>>
    decreases |images|
  {
    if images == [] then Ok([])
    else
      match Render(images[..|images| - 1])
      case Err(e) => Err(e)
      case Ok(pages) =>
        match ProcessImage(images[|images| - 1])
        case Err(e) => Err(e)
        case Ok(d) => Ok(pages + [LetterPage(d)])
  }

  /** One more iteration of the loop: a page for the next image, or that image's failure. */
  lemma RenderStep(images: seq<Upload>, i: nat)
    requires i < |images| && Render(images[..i]).Ok?
    ensures Render(images[..i + 1]) ==
      match ProcessImage(images[i])
      case Err(e) => Err(e)
      case Ok(d) => Ok(Render(images[..i]).value + [LetterPage(d)])
  {
    assert images[..i + 1][..i] == images[..i];
    assert images[..i + 1][i] == images[i];
  }

  /** Rendering succeeds exactly when every image can be processed. */
  lemma {:induction false} RenderSucceedsIff(images: seq<Upload>)
    ensures Render(images).Ok? <==> forall i :: 0 <= i < |images| ==> ProcessImage(images[i]).Ok?
    decreases |images|
  {
    if images != [] {
      var init := images[..|images| - 1];
      RenderSucceedsIff(init);
      assert forall i :: 0 <= i < |init| ==> init[i] == images[i];
    }
  }

  /** On success there is one Letter page per image, in input order, each holding that image. */
  lemma {:induction false} RenderOnePagePerImage(images: seq<Upload>)
    requires Render(images).Ok?
    ensures |Render(images).value| == |images|
    ensures forall i :: 0 <= i < |images| ==>
      ProcessImage(images[i]).Ok? && Render(images).value[i] == LetterPage(ProcessImage(images[i]).value)
    decreases |images|
  {
    if images != [] {
      var init := images[..|images| - 1];
      RenderOnePagePerImage(init);
      assert forall i :: 0 <= i < |init| ==> init[i] == images[i];
    }
  }

  /** Once a prefix has failed, the whole run fails with the same text. */
  lemma {:induction false} RenderFailurePersists(images: seq<Upload>, n: nat)
    requires n <= |images| && Render(images[..n]).Err?
    ensures Render(images) == Render(images[..n])
    decreases |images| - n
  {
    if n < |images| {
      assert images[..n + 1][..n] == images[..n];
      RenderFailurePersists(images, n + 1);
    } else {
      assert images[..n] == images;
    }
  }

  /** A failed run reports the first image that cannot be processed. */
  lemma {:induction false} RenderReportsFirstFailure(images: seq<Upload>) returns (k: nat)
    requires Render(images).Err?
    ensures k < |images| && ProcessImage(images[k]).Err?
    ensures forall j :: 0 <= j < k ==> ProcessImage(images[j]).Ok?
    ensures Render(images).error == ProcessImage(images[k]).error
    decreases |images|
  {
    var init := images[..|images| - 1];
    assert forall i :: 0 <= i < |init| ==> init[i] == images[i];
    if Render(init).Err? {
      k := RenderReportsFirstFailure(init);
    } else {
      k := |images| - 1;
      RenderSucceedsIff(init);
    }
  }

  /** What `convert_to_pdf` answers; the 500 path of lines 104-107 is not modelled. */
  function Convert(req: Request): Response
  {
    match req.images
    case None => BadRequest(NoImagesProvided)
    case Some(images) =>
      if images == [] then BadRequest(NoImagesSelected)
      else
        var valid := ValidImages(images);
        if valid == [] then BadRequest(NoValidImages)
        else
          match Render(valid)
          case Err(e) => BadRequest(e)
          case Ok(pages) => Pdf(pages)
  }

  /** The handler itself: the guards, then the canvas loop over `valid_images`. */
  method ConvertToPdf(req: Request) returns (resp: Response)
    ensures resp == Convert(req)
  {
    if req.images.None? {
      return BadRequest(NoImagesProvided);
    }
    var images := req.images.value;
    if |images| == 0 {
      return BadRequest(NoImagesSelected);
    }
    var valid := ValidImages(images);
    if |valid| == 0 {
      return BadRequest(NoValidImages);
    }
    var c := new Canvas(LetterWidth, LetterHeight);
    for i := 0 to |valid|
      invariant c.pageWidth == LetterWidth && c.pageHeight == LetterHeight
      invariant c.pending == []
      invariant Render(valid[..i]) == Ok(c.pages)
    {
      var processed := ProcessImage(valid[i]);
      RenderStep(valid, i);
      if processed.Err? {
        RenderFailurePersists(valid, i + 1);
        return BadRequest(processed.error);
      }
      var before := c.pages;
      c.DrawImage(processed.value);
      c.ShowPage();
      assert [] + [processed.value] == [processed.value];
      assert c.pages == before + [LetterPage(processed.value)];
    }
    assert valid[..|valid|] == valid;
    var document := c.Save();
    return Pdf(document);
  }

  /** The request is refused with 400 exactly when an `images` key is missing, nothing valid was sent, or a valid image fails. */
  lemma ConvertRejectsIff(req: Request)
    ensures Convert(req).BadRequest? <==>
      || req.images.None?
      || ValidImages(req.images.value) == []
      || exists i :: 0 <= i < |ValidImages(req.images.value)| && ProcessImage(ValidImages(req.images.value)[i]).Err?
  {
    if req.images.Some? {
      RenderSucceedsIff(ValidImages(req.images.value));
    }
  }

  /** Which guard answers a request that sends nothing usable. */
  lemma ConvertGuardMessages(req: Request)
    ensures req.images.None? ==> Convert(req) == BadRequest(NoImagesProvided)
    ensures req.images == Some([]) ==> Convert(req) == BadRequest(NoImagesSelected)
    ensures req.images.Some? && req.images.value != [] && ValidImages(req.images.value) == [] ==>
      Convert(req) == BadRequest(NoValidImages)
  {
  }

  /**
   * A successful response holds one Letter page per valid image, in input order;
   * page i shows image i at its pixel size, fitted inside the page and centred.
   */
  lemma ConvertDocument(req: Request)
    requires Convert(req).Pdf?
    ensures req.images.Some?
    ensures |Convert(req).document| == |ValidImages(req.images.value)| >= 1
    ensures forall i :: 0 <= i < |Convert(req).document| ==>
      && Convert(req).document[i].width == LetterWidth
      && Convert(req).document[i].height == LetterHeight
      && |Convert(req).document[i].drawings| == 1
      && ProcessImage(ValidImages(req.images.value)[i]).Ok?
      && Convert(req).document[i].drawings[0] == ProcessImage(ValidImages(req.images.value)[i]).value
  {
    var valid := ValidImages(req.images.value);
    RenderOnePagePerImage(valid);
    var document := Convert(req).document;
    assert document == Render(valid).value;
    forall i | 0 <= i < |document|
      ensures document[i] == LetterPage(ProcessImage(valid[i]).value)
    {
    }
  }
}
