/**
 * The part of reportlab's `canvas.Canvas` that `convert_to_pdf` uses: a page size
 * fixed at construction, `drawImage` onto the open page, `showPage` to close it,
 * and `save`. PDF bytes are not modelled: a document is its list of pages.
 */
module PdfCanvas {
  import opened Layout

  /** One `drawImage` call: the image drawn (its mode and pixel size) and where. */
  datatype Drawing = Drawing(mode: string, pixelWidth: nat, pixelHeight: nat, at: Placement)

  datatype Page = Page(width: real, height: real, drawings: seq<Drawing>)

  class Canvas {
    const pageWidth: real
    const pageHeight: real
    /** Pages closed by `showPage`, in order. */
    var pages: seq<Page>
    /** What has been drawn on the page that is still open. */
    var pending: seq<Drawing>

    constructor (width: real, height: real)
      ensures pageWidth == width && pageHeight == height
      ensures pages == [] && pending == []
    {
      pageWidth, pageHeight := width, height;
      pages, pending := [], [];
    }

    method DrawImage(d: Drawing)
      modifies this
      ensures pending == old(pending) + [d]
      ensures pages == old(pages)
    {
      pending := pending + [d];
    }

    /** Closes the open page, even an empty one, and opens a fresh one. */
    method ShowPage()
      modifies this
      ensures pages == old(pages) + [Page(pageWidth, pageHeight, old(pending))]
      ensures pending == []
    {
      pages := pages + [Page(pageWidth, pageHeight, pending)];
      pending := [];
    }

    /** Closes the open page if anything was drawn on it, and yields the document. */
    method Save() returns (document: seq<Page>)
      modifies this
      ensures document == old(pages) + (if old(pending) == [] then [] else [Page(pageWidth, pageHeight, old(pending))])
      ensures pages == document && pending == []
    {
      if pending != [] {
        ShowPage();
      }
      document := pages;
    }
  }
}
