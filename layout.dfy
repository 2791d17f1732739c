/**
 * Where `convert_to_pdf` puts an image on its page (backend/app.py): every page is
 * US Letter, 612 x 792 points, and the image is scaled by min(612/w, 792/h) and
 * centred. Arithmetic is exact (`real`), not IEEE-754.
 */
module Layout {
  import opened Wrappers

  const LetterWidth: real := 612.0
  const LetterHeight: real := 792.0

  /** The text of the ZeroDivisionError raised by `612.0 / 0`. */
  const DivisionByZero: string := "float division by zero"

  /** The rectangle handed to `drawImage`: lower-left corner, width and height. */
  datatype Placement = Placement(x: real, y: real, width: real, height: real)

  function Min(a: real, b: real): real
  {
    if a <= b then a else b
  }

  predicate InsideLetter(p: Placement)
  {
    0.0 <= p.x && 0.0 <= p.y && p.x + p.width <= LetterWidth && p.y + p.height <= LetterHeight
  }

  /** Equal margins left and right, and top and bottom. */
  predicate Centred(p: Placement)
  {
    2.0 * p.x + p.width == LetterWidth && 2.0 * p.y + p.height == LetterHeight
  }

  /** The drawn rectangle has the image's width-to-height ratio. */
  predicate KeepsAspect(p: Placement, w: nat, h: nat)
  {
    p.width * (h as real) == p.height * (w as real)
  }

  /** The drawing reaches the page's edges in at least one dimension. */
  predicate TouchesEdges(p: Placement)
  {
    p.width == LetterWidth || p.height == LetterHeight
  }

  /** `scale = min(page_width / img_width, page_height / img_height)`. */
  function FitScale(w: nat, h: nat): (s: real)
    requires w > 0 && h > 0
    ensures s > 0.0
    ensures (w as real) * s <= LetterWidth && (h as real) * s <= LetterHeight
    ensures (w as real) * s == LetterWidth || (h as real) * s == LetterHeight
  {
    Min(LetterWidth / (w as real), LetterHeight / (h as real))
  }

  /** No larger scale keeps the image on the page. */
  lemma FitScaleIsLargest(w: nat, h: nat, s: real)
    requires w > 0 && h > 0
    requires (w as real) * s <= LetterWidth && (h as real) * s <= LetterHeight
    ensures s <= FitScale(w, h)
  {
    var wr, hr := w as real, h as real;
    assert s <= LetterWidth / wr by {
      assert wr * s <= wr * (LetterWidth / wr);
    }
    assert s <= LetterHeight / hr by {
      assert hr * s <= hr * (LetterHeight / hr);
    }
  }

  /**
   * Lines 75-80: the scale, then the centring offsets. A zero dimension raises
   * ZeroDivisionError and yields no placement.
   */
  function FitToLetter(w: nat, h: nat): (r: Result<Placement>)
    ensures r.Err? <==> w == 0 || h == 0
    ensures r.Err? ==> r.error == DivisionByZero
    ensures r.Ok? ==> InsideLetter(r.value) && Centred(r.value) && TouchesEdges(r.value)
    ensures r.Ok? ==> KeepsAspect(r.value, w, h) && r.value.width > 0.0 && r.value.height > 0.0
  {
    if w == 0 || h == 0 then Err(DivisionByZero)
    else Ok(Scaled(w, h, FitScale(w, h)))
  }

  /** The image scaled by `scale` and centred on the page. */
  function Scaled(w: nat, h: nat, scale: real): Placement
  {
    var drawnWidth := (w as real) * scale;
    var drawnHeight := (h as real) * scale;
    Placement((LetterWidth - drawnWidth) / 2.0, (LetterHeight - drawnHeight) / 2.0, drawnWidth, drawnHeight)
  }

  /**
   * The properties FitToLetter promises determine its placement: any centred rectangle
   * inside the page that keeps the aspect ratio and touches an edge is the one it returns.
   */
  lemma FitToLetterUnique(w: nat, h: nat, p: Placement)
    requires w > 0 && h > 0
    requires InsideLetter(p) && Centred(p) && TouchesEdges(p) && KeepsAspect(p, w, h)
    ensures FitToLetter(w, h) == Ok(p)
  {
    var wr, hr := w as real, h as real;
    var s := ScaleOf(w, h, p);
    ScaleIsFit(w, h, s);
    assert p.x == (LetterWidth - wr * s) / 2.0 && p.y == (LetterHeight - hr * s) / 2.0;
    assert p == Scaled(w, h, s);
  }

  /** A rectangle with the image's aspect ratio is the image scaled by some factor. */
  lemma ScaleOf(w: nat, h: nat, p: Placement) returns (s: real)
    requires w > 0 && h > 0
    requires KeepsAspect(p, w, h)
    ensures p.width == (w as real) * s && p.height == (h as real) * s
  {
    var wr, hr := w as real, h as real;
    s := p.width / wr;
    DivideOut(wr, s, p.width);
    DivideOut(hr, s, p.height);
    assert p.height * wr == (hr * s) * wr;
  }

  /** A scale that keeps the image on the page and reaches an edge is the fit-to-page scale. */
  lemma ScaleIsFit(w: nat, h: nat, s: real)
    requires w > 0 && h > 0
    requires (w as real) * s <= LetterWidth && (h as real) * s <= LetterHeight
    requires (w as real) * s == LetterWidth || (h as real) * s == LetterHeight
    ensures s == FitScale(w, h)
  {
    var wr, hr := w as real, h as real;
    FitScaleIsLargest(w, h, s);
    if wr * s == LetterWidth {
      DivideOut(wr, s, LetterWidth);
    } else {
      DivideOut(hr, s, LetterHeight);
    }
  }

  /** Dividing a product by one of its non-zero factors gives the other. */
  lemma DivideOut(a: real, b: real, c: real)
    requires a > 0.0
    ensures a * b == c <==> b == c / a
  {
  }

  /**
   * The modes line 65 converts to RGB before drawing: RGBA, LA, and P with a
   * "transparency" entry. No other mode is converted, whatever its `info` holds.
   */
  predicate NeedsRgb(mode: string, transparency: bool)
  {
    mode == "RGBA" || mode == "LA" || (mode == "P" && transparency)
  }

  /** Lines 65-67: the mode of the image that is drawn. */
  function DrawnMode(mode: string, transparency: bool): (m: string)
    ensures !NeedsRgb(m, transparency)
    ensures m == mode || m == "RGB"
    ensures m == mode <==> !NeedsRgb(mode, transparency)
  {
    if NeedsRgb(mode, transparency) then "RGB" else mode
  }

  /** A palette image is converted only with a "transparency" entry; RGB with one, and PA, are drawn as they are. */
  lemma ModeRuleCases()
    ensures DrawnMode("P", true) == "RGB" && DrawnMode("P", false) == "P"
    ensures DrawnMode("RGB", true) == "RGB" && DrawnMode("L", true) == "L"
    ensures DrawnMode("PA", false) == "PA" && DrawnMode("RGBA", false) == "RGB"
  {
  }
}
