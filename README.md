# Image to PDF converter, modelled in Dafny

The system turns a batch of uploaded JPEG and PNG images into one PDF. It has two
services:

- **Express front end** (`index.js`). multer stages each upload on disk under the name
  `Date.now() + path.extname(originalname)`. A `fileFilter` refuses any part whose MIME
  type or lower-cased extension does not contain `jpeg`, `jpg` or `png`. The `/convert`
  handler answers 400 when nothing was staged. Otherwise it forwards the files to the
  Flask service and relays the PDF, or answers 500.
- **Flask back end** (`backend/app.py`). `/convert` has three 400 guards: no `images`
  key, an empty list, and no file passing `allowed_file`. It then draws every remaining
  image on its own US Letter page (612 x 792 points). Images in mode RGBA or LA, and
  palette (P) images with a `transparency` entry, are first converted to RGB; no other
  mode is converted. Each image is scaled by `min(612/w, 792/h)` and centred. The handler
  returns the PDF, or a 400 naming the first image that could not be processed.

Modules:

| module | file | what it holds |
|---|---|---|
| `Wrappers` | wrappers.dfy | `Option`, `Result` |
| `Text` | text.dfy | ASCII lower-casing, substring search, last index, decimal digits |
| `PosixPath` | posix_path.dfy | Node's POSIX `path.extname` |
| `Uploads` | uploads.dfy | `allowed_file` and the `valid_images` filter |
| `Layout` | layout.dfy | the fit-to-Letter placement and the colour-mode rule |
| `PdfCanvas` | pdf_canvas.dfy | the reportlab canvas as a class: closed pages plus the open page |
| `Backend` | backend.dfy | the Flask `/convert` handler: a function `Convert` and the method `ConvertToPdf` that runs the canvas loop |
| `Gateway` | gateway.dfy | `fileFilter`, the staged name, the Express `/convert` reply |
| `FilterAgreement` | filter_agreement.dfy | how the Node and Flask filters relate |

The Flask loop changes canvas state step by step. It is therefore a `method` over a
`Canvas` object, proved equal to the pure function `Convert`. The properties are then
proved as lemmas about `Convert` and its helper `Render`.

Points of the code's behaviour worth stating plainly:

- Every page is US Letter, and each image is fitted and centred on it.
- The first image that cannot be processed ends the whole request with a 400.
- Flask's 400 bodies are JSON objects `{"error": ...}`.
- The Express handler deletes the staged files only on its success path. A failed
  forward leaves them on disk.

## Model

| member | source | states |
|---|---|---|
| Uploads.RSplitOnce | backend/app.py:26 | `rsplit('.', 1)` gives one part exactly when there is no '.'; otherwise the two parts rebuild the name around its last '.', and the second part has no '.' |
| Uploads.AllowedFile | backend/app.py:25-26 | the definition of `allowed_file`; AllowedFileIff, FinalExtensionDecides and the examples are about it |
| Uploads.AllowedFileIff | backend/app.py:23-26 | a name is allowed exactly when it is some stem, a '.', and a dot-free extension whose lower-case form is jpg, jpeg or png |
| Uploads.FinalExtensionDecides | backend/app.py:25-26 | for any stem, `stem.ext` with a dot-free ext is allowed exactly when lower(ext) is in the allowed set |
| Uploads.LastDotSplit | backend/app.py:26 | splitting at a '.' that no later '.' follows is what `rsplit` does |
| Uploads.UpperCaseAccepted | backend/app.py:26 | "PHOTO.JPG" is allowed: the extension is lower-cased |
| Uploads.LastExtensionAccepted | backend/app.py:26 | "a.gif.png" is allowed: only the last extension counts |
| Uploads.EarlierExtensionIgnored | backend/app.py:26 | "a.png.gif" is refused |
| Uploads.NoDotRejected | backend/app.py:26 | a name without '.' is refused |
| Uploads.Filter | backend/app.py:45 | the comprehension keeps only elements of the input that pass the test, and never more of them |
| Uploads.FilterComplete | backend/app.py:45 | every element that passes the test is kept |
| Uploads.FilterAppend | backend/app.py:45 | filtering distributes over concatenation |
| Uploads.FilterIsSubsequence | backend/app.py:45 | the kept elements appear in input order |
| Uploads.FilterUnchangedIff | backend/app.py:45 | nothing is dropped exactly when every element passes |
| Uploads.ValidImages | backend/app.py:45 | `valid_images` is no longer than the uploads, and holds only uploads with allowed names |
| Uploads.ValidImagesExact | backend/app.py:45 | `valid_images` is an order-preserving subsequence holding exactly the uploads with allowed names, and it distributes over any split of the uploads |
| Uploads.ValidImagesUnchangedIff | backend/app.py:45 | `valid_images` equals the uploads exactly when every name is allowed |
| Layout.FitScale | backend/app.py:75-76 | the scale is positive, keeps the image inside the page, and makes it reach at least one page dimension |
| Layout.FitScaleIsLargest | backend/app.py:76 | no scale that keeps the image on the page is larger |
| Layout.FitToLetter | backend/app.py:75-80 | a zero width or height fails with "float division by zero", and nothing else fails; on success the rectangle is inside the page, centred, touching an edge, positive, and keeps the image's aspect ratio |
| Layout.Scaled | backend/app.py:79-80 | the definition of the rectangle for a given scale: the scaled size, centred by lines 79-80; FitToLetter and FitToLetterUnique are about it |
| Layout.FitToLetterUnique | backend/app.py:75-80 | any centred rectangle inside the page that keeps the aspect ratio and touches an edge is the one computed |
| Layout.ScaleOf | backend/app.py:84 | a rectangle with the image's aspect ratio is the image scaled by one factor |
| Layout.ScaleIsFit | backend/app.py:76 | a scale that keeps the image on the page and reaches an edge is `min(612/w, 792/h)` |
| Layout.NeedsRgb | backend/app.py:65 | the definition of the conversion test: mode RGBA, mode LA, or mode P with a `transparency` entry; DrawnMode and ModeRuleCases are about it |
| Layout.DrawnMode | backend/app.py:65-67 | the drawn mode is "RGB" for the three converted cases and the original mode for every other; the result never meets the conversion test again |
| Layout.ModeRuleCases | backend/app.py:65-67 | P becomes RGB only with a `transparency` entry; RGB and L with a `transparency` entry, and PA, are drawn unconverted; RGBA becomes RGB |
| PdfCanvas.Canvas.constructor | backend/app.py:54 | a new canvas has the given page size, no pages and an empty open page |
| PdfCanvas.Canvas.DrawImage | backend/app.py:84 | the drawing is appended to the open page; closed pages are unchanged |
| PdfCanvas.Canvas.ShowPage | backend/app.py:85 | the open page, even an empty one, is appended as a closed page, and a fresh page is opened |
| PdfCanvas.Canvas.Save | backend/app.py:93 | the document is the closed pages plus the open page when anything was drawn on it |
| Backend.FailureReason | backend/app.py:61-76 | the definition of why an image cannot be drawn: a decoding failure, or a zero dimension that divides by zero; ProcessImage and the Render lemmas are about it |
| Backend.ProcessImage | backend/app.py:57-90 | an image fails exactly when FailureReason gives a reason, with the text "Error processing image NAME: REASON"; otherwise the drawing records the image's pixel size, its mode is the one the mode rule of lines 65-67 gives, and it is placed in the rectangle FitToLetter computes: inside the page, centred, touching an edge, aspect ratio kept |
| Backend.Render | backend/app.py:56-90 | the definition of the loop's outcome: the pages so far, or the first failure; RenderStep, RenderSucceedsIff, RenderOnePagePerImage, RenderFailurePersists and RenderReportsFirstFailure are about it |
| Backend.RenderStep | backend/app.py:56-90 | one more iteration adds a page for the next image, or yields that image's error |
| Backend.RenderSucceedsIff | backend/app.py:56-90 | the loop finishes exactly when every valid image can be processed |
| Backend.RenderOnePagePerImage | backend/app.py:56-85 | on success page i is a Letter page holding exactly the drawing of image i |
| Backend.RenderFailurePersists | backend/app.py:87-90 | a failure on a prefix of the images is the result of the whole loop |
| Backend.RenderReportsFirstFailure | backend/app.py:87-90 | a failed loop reports the first image that cannot be processed, and every image before it succeeds |
| Backend.Convert | backend/app.py:29-102 | the definition of the handler's answer; ConvertToPdf is proved equal to it and ConvertRejectsIff, ConvertGuardMessages and ConvertDocument are about it |
| Backend.ConvertToPdf | backend/app.py:29-102 | the handler, with its canvas loop, answers exactly what `Convert` describes |
| Backend.ConvertRejectsIff | backend/app.py:33-50 | the answer is 400 exactly when the `images` key is missing, no name is allowed, or some valid image fails |
| Backend.ConvertGuardMessages | backend/app.py:33-50 | each of the three guards answers with its own message |
| Backend.ConvertDocument | backend/app.py:52-102 | a PDF has one Letter page per valid image, in input order, each holding that image's drawing, and at least one page |
| PosixPath.TrimTrailingSlashes | index.js:33 | the trimmed path is empty or does not end in '/' |
| PosixPath.LastComponent | index.js:33 | the last component has no '/' |
| PosixPath.ComponentExt | index.js:33 | an extension is empty or a '.' followed by no further '.' |
| PosixPath.ExtName | index.js:33 | `path.extname` gives "" or a '.'-led, dot-free, slash-free suffix |
| PosixPath.ComponentExtOfSuffix | index.js:33 | a component ending in a '.'-led suffix with no further '.', after a non-empty stem, has that suffix as its extension |
| PosixPath.LastComponentOf | index.js:33 | a slash-free name after a directory prefix is the last component |
| PosixPath.ExtNameOfComponent | index.js:33 | for any directory prefix, the extension of `prefix/stem.ext` is `.ext` |
| PosixPath.ExtNameOfFileName | index.js:33 | the extension of a bare `stem.ext` is `.ext` |
| PosixPath.NoSlashComponent | index.js:33 | a non-empty name without '/' is its own last component |
| PosixPath.TrailingSlashIgnored | index.js:33 | a trailing '/' does not change the extension |
| PosixPath.NoExtension | index.js:33 | a name without '.' after its first character has no extension |
| PosixPath.ExtNameKeepsCase | index.js:33 | "A.PNG" has extension ".PNG": extname does not change case |
| PosixPath.ExtNameDotfile | index.js:33 | ".png" has no extension |
| Gateway.FileFilter | index.js:30-39 | a file is accepted exactly when both its MIME type and its lower-cased extension contain jpeg, jpg or png; otherwise the callback gets the error text |
| Gateway.MatchesFiletypes | index.js:31-33 | the definition of `/jpeg|jpg|png/.test`; MatchesFiletypesIff, MatchesAt and the examples are about it |
| Gateway.MatchesFiletypesIff | index.js:31-33 | the regular expression matches exactly when one of the three words occurs somewhere |
| Gateway.MatchesAt | index.js:31-33 | any occurrence of a word makes the test succeed |
| Gateway.FinalExtensionDecides | index.js:30-39 | for a name with a final extension, the verdict depends on the MIME type and that extension alone |
| Gateway.JpgPasses | index.js:33 | ".jpg" passes the extension test |
| Gateway.GifFails | index.js:33 | ".gif" fails the extension test |
| Gateway.FinalJpgAccepted | index.js:30-37 | any slash-free name ending in ".jpg", with an image MIME type, is accepted |
| Gateway.FinalGifRejected | index.js:30-38 | any slash-free name ending in ".gif" is refused with the error text |
| Gateway.NoExtensionRejected | index.js:33-38 | a name without an extension is refused, even "png" |
| Gateway.UpperCaseExtensionPasses | index.js:33 | ".PNG" passes: the extension is lower-cased |
| Gateway.UpperCaseMimeFails | index.js:32 | "IMAGE/PNG" fails: the MIME type is not lower-cased |
| Gateway.UnanchoredExtensions | index.js:31-33 | ".jpgx" and ".pngfoo" pass: the regular expression is unanchored |
| Gateway.StagedName | index.js:24 | the definition of the staged name; StagedNameParts, StagedNameKeepsExtension and StagedNameCollision are about it |
| Gateway.StagedNameParts | index.js:24 | the staged name is decimal digits that read back as the timestamp, followed by the original's extension |
| Gateway.StagedNameKeepsExtension | index.js:24 | the staged name has the same extension as the original name |
| Gateway.DigitRunOfConcat | index.js:24 | the digit run of the staged name ends where the timestamp ends |
| Gateway.StagedNameCollision | index.js:24 | two staged names are equal exactly when the timestamps and the extensions are |
| Gateway.HandleConvert | index.js:51-91 | 400 "No images uploaded" exactly when nothing was staged; the PDF attachment exactly when files were staged and the back end delivered; otherwise 500 "Error converting images to PDF" |
| FilterAgreement.ExtNameAtLastDot | index.js:33 | Node's extension of `stem.ext` is "" or `.ext` |
| FilterAgreement.BackendAcceptedPassesNodeExtension | backend/app.py:25-26 | a name Flask allows passes Node's extension test, unless Node sees no extension |
| FilterAgreement.NodeOnlyAccepts | index.js:30-37 | a name ending in ".jpgx" passes Node's filter but `allowed_file` refuses it |
| FilterAgreement.BackendOnlyAccepts | index.js:33-38 | ".png" is refused by Node although `allowed_file` allows it |
| Text.Lower | backend/app.py:26 | lower-casing keeps the length and maps each character |
| Text.LowerIsLowerCase | backend/app.py:26 | no upper-case ASCII letter is left, each becomes its lower-case letter, and every other character is kept |
| Text.LowerIdempotent | index.js:33 | lower-casing twice is lower-casing once |
| Text.LowerAppend | index.js:33 | lower-casing distributes over concatenation |
| Text.ContainsIff | index.js:31 | the substring search succeeds exactly when the word occurs at some index |
| Text.LastIndexOf | backend/app.py:26 | the index found holds the character and none follows it; none is found exactly when the character is absent |
| Text.DecimalString | index.js:24 | the decimal text of a number is non-empty digits without a leading zero |
| Text.DecimalRoundTrip | index.js:24 | reading the decimal text back gives the number |

## Left out

- HTTP routing, CORS, multipart parsing, logging, the `/health` route, static hosting and the view engine are left out. They are plumbing around the handlers.
- Image decoding is left out (PIL's `Image.open`, `convert`, `ImageReader`). An upload arrives already decoded, as its mode, size and transparency flag, or as the failure's text.
- Only the page list of the PDF is modelled. The PDF bytes and reportlab's image encoding are left out.
- Layout.FitToLetter: uses exact real arithmetic instead of IEEE-754 doubles, so rounding in the scale and the offsets is not modelled.
- Text.Lower: lower-cases ASCII letters only. Python's `str.lower` and JavaScript's `toLowerCase` also map non-ASCII letters.
- The outer `except` of `convert_to_pdf` and its 500 reply (backend/app.py:104-107) are not modelled. This includes a part without a filename.
- PosixPath.ExtName: models Node's POSIX `path.extname` only. On Windows `path` is `path.win32`, which also splits at '\\' and drive letters; that variant is not modelled.
- `Date.now()` is a parameter of Gateway.StagedName.
- The disk staging, `fs.createReadStream`, `fs.unlinkSync` and the axios POST are left out. The back end's reply is a parameter of Gateway.HandleConvert.
- How multer and Express answer when `fileFilter` refuses a file is left out. It is an error passed to multer, outside the handler.
