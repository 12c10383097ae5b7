# pdf2png-cropper, modelled in Dafny

pdf2png-cropper converts every PDF in the working directory into one PNG per page. Each page is
rendered, centre-cropped to a 4:3 aspect ratio, resampled to 1440 x 1080 and written as
`page_NNN.png` into a directory named after the PDF. An optional command-line argument restricts
the run to one 1-based page.

This project models the deterministic decisions in `main.go` and proves what they guarantee:

- **Page selection** (`PageSelection`). `getPagesToProcess` is the function `SelectedPages`.
  The method `GetPagesToProcess` fills a fresh array with its own indices, as the Go loop does, and is
  proved equal to that function. Lemmas state the three cases. A positive page within the document
  selects exactly that page. A positive page beyond it selects nothing. Anything else selects
  `0 .. n-1` in ascending order. Every selected index is a page of the document, and no index repeats.
- **Crop geometry** (`CropGeometry`). `calculateCropDimensions` and the rectangle arithmetic of
  `cropToAspect`, clamps included. The crop fits the raster and keeps one full side. The other side is
  the largest one not exceeding 4:3. The rectangle lies inside the image and has exactly the crop size,
  so the clamps never fire. It is centred: the right (bottom) margin equals the left (top) margin or
  exceeds it by one pixel. The crop is non-empty exactly when the raster is at least 2 pixels wide and
  1 high. A raster that is already 4:3 is left whole. The worked 1000 x 750, 1600 x 900 and
  one-pixel-wide cases are proved as lemmas.
- **Page argument** (`CommandLine`). `parseArgs` with `strconv.Atoi` passed in as a function. The
  result is 0 ("all pages") or at least 1. It is at least 1 exactly when the argument parses to a
  number of at least 1, and then it is that number.
- **Input files and output directories** (`PdfFiles`). `findPDFs` is the method `FindPdfs`, proved
  equal to the filter `PdfNames`. The test `filepath.Ext(name) == ".pdf"` is proved to be exactly
  "ends in `.pdf`", case-sensitively. The filter keeps a name exactly when a non-directory entry has
  it, and it keeps the listing's order. For every kept name except `.pdf` itself, the output directory
  (`processPDF`, line 92) plus `.pdf` gives the file name back, so distinct PDFs other than `.pdf` get
  distinct directories. The exception is a behaviour of the program: a file named `.pdf` has an empty
  stem and writes into `.`, and so does a file named `..pdf`. When both are present the pages of the
  later one overwrite those of the earlier (`BareAndDotPdfShareDirectory`). A file named `...pdf`
  writes into the parent directory `..`.
- **Page file names** (`PageNames`, `Conversion`). `page_%03d.png` of `pageNum+1`. The padded number
  has exactly three digits up to 999 and no leading zero beyond that width, and parses back to the
  page number. So distinct pages get distinct names, and no page of a document overwrites another.
  Page 2 of a 3-page PDF attempts to write only `page_002.png`. These are the names the program
  attempts to write: a page whose rendering or saving fails, or a PDF that cannot be opened or whose
  directory cannot be created, writes nothing.

The float64 ratio `4.0/3.0` is read as the integer pair (4, 3). The test `w/h > 4/3` becomes
`3w > 4h`. `int(h * 4/3)` becomes `(4h) / 3` and `int(w / (4/3))` becomes `(3w) / 4`, truncating as
Go's `int()` does. This integer reading stands in for the float64 expressions for realistic page
sizes. It also agrees with the float code on a zero width or height. A zero height makes the float
ratio +Inf (positive width) or NaN (zero width). A zero width with a positive height makes it 0.
All three cases give a 0 x 0 crop in both readings. Image bounds are taken to start at (0, 0).

Three things one might expect of such a converter do not hold of this code, and the model states
what the code does:

- One might expect the crop side to be rounded. The code truncates. With truncation a 3 x 2 raster is
  cropped to 2 x 2, which is further from 4:3 than the original (`TruncationCanWidenRatioError`). So
  "the crop never increases the aspect-ratio error" does not hold, and it is not claimed.
- One might expect `.pdf` to match in any letter case. The code compares exactly, so `report.PDF` is
  skipped (`UpperCasePdfIsSkipped`).
- One might expect a crop rectangle with `x0 < x1` and `y0 < y1`. The code yields an empty rectangle
  for rasters narrower than 2 pixels or of zero height (`CropNonEmptyIff`, `ExampleOnePixelWidePage`).

## Model

| member | source | states |
|---|---|---|
| PageSelection.Range | main.go:124-127 | the all-pages list has exactly `n` entries |
| PageSelection.RangeAt | main.go:124-127 | entry `i` of the all-pages list is `i` |
| PageSelection.SelectedPages | main.go:115-129 | a positive request selects at most one page, any other request exactly `n`; the exact results are in `SelectedPagesCases` |
| PageSelection.SelectedPagesCases | main.go:115-128 | page <= 0: the `n` indices 0..n-1 in order; 1 <= page <= n: exactly `[page-1]`; page > n: nothing |
| PageSelection.SelectedPagesValid | main.go:115-128 | every selected index is in `[0, n)` and the indices strictly ascend |
| PageSelection.GetPagesToProcess | main.go:115-129 | the array-filling procedure returns exactly the selection above |
| CropGeometry.CropDimensions | main.go:180-189 | crop fits in the raster; wider than 4:3 keeps the height and takes the widest width with 3w <= 4h; otherwise keeps the width and takes the tallest height with 4h <= 3w |
| CropGeometry.CropRect | main.go:148-177 | rectangle satisfies 0 <= x0 <= x1 <= w and 0 <= y0 <= y1 <= h, has exactly the crop size (clamps never fire), and is centred with margins differing by at most one pixel |
| CropGeometry.FourThreeIsUncropped | main.go:148-189 | a raster with 3w == 4h is kept whole: rectangle (0,0)-(w,h) |
| CropGeometry.CropNonEmptyIff | main.go:148-189 | the crop has pixels exactly when w >= 2 and h >= 1 |
| CropGeometry.ResizeTargetMatchesCropRatio | main.go:17-21 | the crop ratio 4:3 and the 1440 x 1080 resize target agree |
| CropGeometry.ExampleFourThreePage | main.go:148-189 | 1000 x 750 gives rectangle (0,0)-(1000,750) |
| CropGeometry.ExampleSixteenNinePage | main.go:148-189 | 1600 x 900 gives size 1200 x 900 and rectangle (200,0)-(1400,900) |
| CropGeometry.ExampleOnePixelWidePage | main.go:148-189 | 1 x 5 gives the empty rectangle (0,2)-(1,2) |
| CropGeometry.TruncationCanWidenRatioError | main.go:183-186 | 3 x 2 is cropped to 2 x 2, whose ratio is further from 4/3 than 3/2 is |
| CommandLine.ParseArgs | main.go:45-58 | result is 0 or >= 1; >= 1 exactly when an argument exists and parses to a number >= 1, and then equals it |
| PdfFiles.Ext | main.go:68 | the extension is a suffix of the path; empty, or a dot followed by no dot and no separator; empty exactly when the last element has no dot |
| PdfFiles.ExtOfDottedTail | main.go:68 | a name ending in "." + a dot-free tail has that extension |
| PdfFiles.PdfExtensionIffSuffix | main.go:68 | extension `.pdf` if and only if the name ends in `.pdf` |
| PdfFiles.UpperCasePdfIsSkipped | main.go:68 | `report.PDF` does not pass the test |
| PdfFiles.PdfNames | main.go:66-71 | the kept names are no more than the entries |
| PdfFiles.PdfNamesAppend | main.go:66-71 | filtering two parts and joining equals filtering the whole, so order is kept |
| PdfFiles.PdfNamesMembership | main.go:66-71 | a name is kept if and only if a non-directory entry has it and it ends in `.pdf` |
| PdfFiles.FindPdfs | main.go:60-74 | the appending loop returns exactly the filtered names |
| PdfFiles.Base | main.go:92 | never empty; `.` for the empty path; a single path element is its own base; a path of separators only gives the separator |
| PdfFiles.OutputDir | main.go:92 | for a separator-free name with something before its extension, directory + extension is the name again; with nothing before it, the directory is `.` |
| PdfFiles.OutputDirRoundTrip | main.go:92 | for a kept name other than `.pdf`, output directory + `.pdf` is the file name again |
| PdfFiles.OutputDirInjective | main.go:92 | distinct PDF names other than `.pdf` get distinct output directories |
| PdfFiles.BareAndDotPdfShareDirectory | main.go:68-92 | `.pdf` and `..pdf` are both kept and both write into `.`; `...pdf` writes into `..` |
| PdfFiles.BarePdfNameWritesIntoCurrentDirectory | main.go:92 | a file named just `.pdf` gets output directory `.` |
| PageNames.ZeroPad3 | main.go:140 | the `%03d` form is the decimal form preceded only by zeros, of length exactly 3 or the decimal form's length if longer; it reads back in `ZeroPad3RoundTrip` |
| PageNames.PageFileName | main.go:140 | the name is `page_` + digits + `.png`, at least 12 characters, the digits read back as `pageNum + 1`, and a name longer than 12 has no leading zero |
| PageNames.Decimal | main.go:140 | the decimal form is non-empty and all digits; one digit exactly below 10; starts with `0` only for 0 |
| PageNames.DecimalRoundTrip | main.go:140 | the decimal form parses back to the number |
| PageNames.ZeroPad3RoundTrip | main.go:140 | the `%03d` form is all digits and parses back to the number |
| PageNames.ZeroPad3Width | main.go:140 | the `%03d` form has at least 3 digits, exactly 3 for numbers up to 999 |
| PageNames.PageFileNameInjective | main.go:140 | distinct page indices give distinct file names |
| PageNames.PageFileNameLength | main.go:140 | page indices 0..998 give 12-character names |
| PageNames.ExampleSecondPageFileName | main.go:140 | index 1 gives `page_002.png` |
| PageNames.ExampleThousandthPageFileName | main.go:140 | index 999 gives `page_1000.png`, with no extra leading zero |
| Conversion.PageFiles | main.go:98-140 | one file name per selected page, in selection order, named after that page; at most one for a positive request, `n` otherwise |
| Conversion.PageFilesDistinct | main.go:98-140 | no two selected pages are given the same file name; for all pages the k-th file is named after page k |
| Conversion.ExampleSecondOfThreePages | main.go:98-140 | page 2 of a 3-page document attempts only `page_002.png` |
| Conversion.CommandLineSelectsExistingPages | main.go:29-140 | for any command line, a valid page names at most one file, otherwise `n`; every file is named after an existing page |

## Left out

- Rendering and document handling through go-fitz (`fitz.New`, `NumPage`, `Image`, `Close`). These
  are calls into a foreign library. The page count is an input.
- The pixel work: `SubImage` and the Catmull-Rom resampling by `draw.CatmullRom.Scale`. These are
  library calls, and the resampling is floating-point numerics. Only the rectangle handed to
  `SubImage` and the constant 1440 x 1080 output size are modelled.
- PNG encoding and file creation (`savePNG`), `os.MkdirAll`, `os.ReadDir` and its error, and
  `filepath.Join` of the directory and file name. These are I/O and path plumbing. The model starts
  from the directory listing and stops at the names.
- `strconv.Atoi` and `os.Args`. Both are passed in: the parse is a function argument.
- Logging and printing, including the warning for an invalid page argument and the "page does not
  exist" message. They have no behaviour to verify.
- The orchestration in `run`, `processFiles`, `processPDF` and `convertPage`. It only sequences the
  external calls and logs their errors. Only the file names it produces are modelled (`Conversion`).
- CropGeometry.CropDimensions: the exact IEEE-754 behaviour of the float64 ratio test and products is
  replaced by integer cross-multiplication. This could differ by one pixel where a float64 product
  lands just below a whole number. Go's 64-bit integer overflow is not modelled either, as sizes are
  unbounded integers.
- The image origin: the source passes the offsets computed from 0 to `SubImage` as absolute
  coordinates. The model assumes images whose bounds start at (0, 0), as rendered pages do.
- PdfFiles.Base: its contract does not state the result for a path of several elements, which the
  program never passes it (directory entry names are single elements).
- PdfFiles.Ext and PdfFiles.Base treat only `/` as a path separator, as on Unix. Windows separators
  and volume names are not modelled.
- PageSelection.SelectedPages requires a non-negative page count when all pages are selected, because
  Go's `make` panics on a negative length.
