# png2svg converter core in Dafny

This project models the core of the png2svg converter, `converter.py`, which has two parts.

1. **Binarisation in `png_to_svg`.** It calls `cv2.threshold(bitmap, 128, 255, THRESH_BINARY_INV)`, which turns the grayscale image into a mask. Pixels at or below 128 become 255 (foreground) and lighter pixels become 0.
2. **The serialiser `bitmap_to_svg`.** It writes:
   - an XML declaration;
   - an `<svg>` start tag whose width, height and viewBox come from the image size;
   - one filled `<path>` per traced contour whose area is at least 10, in the tracer's order;
   - a placeholder rectangle and label when no contour passes the filter;
   - the closing `</svg>`.

Modules:

- `Wrappers`: the `Option` type.
- `Sequences`: generic regrouping lemmas for concatenation.
- `Decimal`: Python's text for an `int` (`f"{x}"`) and for an integer halved by true division (`f"{width/2}"`, which prints as `N.0` or `N.5`), plus parsers for both, with round-trip lemmas.
- `Geometry`: contour points and `cv2.contourArea` as the shoelace formula. The area is kept as an integer: twice the signed area. The area filter `contourArea(c) < 10` becomes `|twice signed area| < 20`. The module also proves that the area does not change under rotation of the starting point, reversal of the winding, or translation.
- `Converter`:
  - the threshold (`ThresholdInv`, `Binarize`);
  - the document as specification functions (`SvgDocument` and its parts);
  - the source's accumulator loops as methods (`BitmapToSvg`, `PathDataOf`), each proved to build exactly `SvgDocument` or `PathData`;
  - `PngToSvg`, which chains threshold, closing, opening, tracing and serialising.
- `SvgReader`: a reader for the documents the serialiser writes. The main theorem, `ReadWrittenDocument`, states that reading back `SvgDocument(cs, w, h)` returns:
  - the canvas size, as width, height and viewBox;
  - exactly the contours that pass the area filter, in input order and point for point;
  - the placeholder (rectangle `w-20` by `h-20`, label at `(w/2, h/2)`) if and only if no contour passed.

Behaviour of `converter.py` that the model keeps as written:

- The threshold is inclusive: a pixel of intensity exactly 128 becomes foreground, because `THRESH_BINARY_INV` maps values above the level to 0 and all others to 255 (`Converter.ThresholdInv`).
- Paths are written in the tracer's order, not sorted by area (`Converter.KeptContoursAppend`).
- The minimum area is 10, compared as `contourArea(c) < 10`, so a contour of area exactly 10 is drawn.
- Every path is straight-line `M`/`L`/`Z` data with `fill="black" stroke="none"`; `converter.py` has no contour simplification, curves, opacity, background rectangle, transparency handling, denoising or edge blending.

## Model

| member | source | states |
|---|---|---|
| Converter.BitmapToSvg | converter.py:7-56 | The accumulator loop (header, then one path per contour not below area 10, then the placeholder when the list is empty or every contour is below 10, then `</svg>`) builds exactly `SvgDocument(contours, width, height)`; the loop keeps `svg == Header + PathElements(contours[..i])` |
| Converter.PathDataOf | converter.py:33-42 | The inner loop (`M x,y ` for the first point, `L x,y ` for each later one, then `Z`) builds exactly `PathData(contour)` |
| Converter.PngToSvg | converter.py:58-93 | For a grayscale grid of `height` rows of `width` pixels (the size and the array come from the same image), the output is the document of that size for the contours traced from the mask after threshold, closing and opening, in that order |
| Converter.ThresholdInv | converter.py:78-79 | A pixel becomes 0 or 255, and 255 exactly when its intensity is at most 128 |
| Converter.Binarize | converter.py:78-79 | The mask has the image's shape; each pixel is 255 iff the source pixel is at most 128, and 0 iff it is above 128 |
| Converter.DarkerKeepsForeground | converter.py:78-79 | Darkening a pixel never removes it from the foreground |
| Converter.KeptContours | converter.py:27-30 | The contours that pass the area filter: every one is in the input and kept, every kept input contour is among them, and each contour occurs as often as in the input if kept and not at all otherwise, so there are as many paths as contours of area at least 10 |
| Converter.KeptContoursAppend | converter.py:27-30 | Filtering a concatenation gives the kept contours of the first part followed by those of the second: the filter keeps the input order |
| Converter.SvgStartTag | converter.py:11 | Defines the `<svg>` start tag: the namespace, `width`, `height` and `viewBox="0 0 width height"` |
| Converter.Header | converter.py:10-12 | Defines the header: the XML declaration line followed by the start tag |
| Converter.PathData | converter.py:33-42 | Defines the `d` attribute of a contour (a move to the first point, a line to each later one, then `Z`); it always ends in `Z` and starts with `M` exactly when the contour has a point |
| Converter.PathElements | converter.py:27-45 | Defines the path elements: one `<path d="…" fill="black" stroke="none" />` line per contour that passes the area filter, in input order |
| Converter.NoneKept | converter.py:48 | Defines the fallback test: the contour list is empty or every contour has area below 10 |
| Converter.RectElement | converter.py:50 | Defines the placeholder rectangle at (10, 10), `width-20` by `height-20`, unfilled with a 2-unit black stroke |
| Converter.TextElement | converter.py:51 | Defines the placeholder label at `width/2`, `height/2`, centred, font size 20, with the fixed message |
| Converter.Placeholder | converter.py:50-51 | Defines the placeholder: the rectangle followed by the label |
| Converter.SvgDocument | converter.py:7-56 | Defines the returned document: header, path elements, the placeholder when the fallback test holds, then `</svg>` |
| Geometry.TwiceSignedArea | converter.py:29 | Defines twice the signed shoelace area of the closed polygon, the last point joined to the first |
| Geometry.ContourArea | converter.py:29 | Defines `cv2.contourArea`: the unsigned area, half the absolute shoelace sum |
| Geometry.IsKept | converter.py:29-30 | Defines the filter: a contour is drawn when twice its area is at least 20 |
| Converter.FallbackIffNothingKept | converter.py:27-51 | The fallback test (`len == 0` or every area below 10) holds exactly when the filter keeps no contour, and exactly when no path element is written |
| Converter.DocumentFrame | converter.py:10-54 | The document begins with the XML declaration followed by the `<svg>` start tag with the given width, height and viewBox, and ends with `</svg>` |
| Converter.LineTosSnoc | converter.py:34-39 | Appending a point to the line points appends one `L x,y ` command |
| Converter.PathElementsSnoc | converter.py:27-45 | Handling one more contour appends its path element when it is kept and nothing otherwise |
| Geometry.KeptIffAreaAtLeastTen | converter.py:29-30 | The integer test `|2·signed area| >= 20` keeps a contour exactly when `contourArea(c) < 10` is false |
| Geometry.FewPointsAreDropped | converter.py:29-30 | A contour of fewer than three points has zero area and is always dropped |
| Geometry.ChainSumSnoc | converter.py:29 | Appending a point to an open chain adds the shoelace term of the new edge |
| Geometry.RotationKeepsArea | converter.py:29 | Starting the boundary at its second point changes neither the area nor the filter's verdict |
| Geometry.ReverseChainSum | converter.py:29 | Reversing an open chain negates its shoelace sum |
| Geometry.ReversalNegatesArea | converter.py:29 | Reversing the winding negates the signed area and leaves the unsigned area and the filter's verdict unchanged |
| Geometry.ChainSumOfTranslate | converter.py:29 | Shifting a chain changes its shoelace sum by the last point's moment minus the first point's |
| Geometry.TranslationKeepsArea | converter.py:29 | Shifting a contour changes neither its signed area nor the filter's verdict |
| Geometry.CrossOfShifted | converter.py:29 | The shoelace term of a shifted edge is the original term plus two linear terms |
| Decimal.NatToString | converter.py:11 | The text of a natural number is a non-empty digit string with no leading zero, and it denotes the number |
| Decimal.IntToString | converter.py:37-39 | The text of an integer starts with `-` exactly when the integer is negative, and is all digits otherwise |
| Decimal.HalfToString | converter.py:51 | `n/2` prints with a sign exactly when `n` is negative and ends in `.0` or `.5` |
| Decimal.NatRoundTrip | converter.py:11 | Parsing the text of a natural number gives back the number and leaves what follows untouched |
| Decimal.IntRoundTrip | converter.py:37-39 | Parsing the text of an integer, sign included, gives back the integer |
| Decimal.HalfMagnitudeRoundTrip | converter.py:51 | Parsing the unsigned text of `m/2` gives back `m`, negated when a sign preceded it |
| Decimal.HalfRoundTrip | converter.py:51 | Parsing the text of `n/2` gives back `n`, so a distinct centre gives a distinct label position |
| SvgReader.ReadWrittenDocument | converter.py:7-56 | Reading back a written document gives the canvas size as width, height and viewBox, the kept contours in input order point for point, and the placeholder (rectangle `w-20` by `h-20`, label at `w/2`, `h/2`) exactly when no contour was kept |
| SvgReader.PlaceholderWhenNothingKept | converter.py:47-51 | When no contour passes the filter, the document holds no path and exactly the placeholder |
| SvgReader.PathElementsWritten | converter.py:27-45 | The path elements read back as exactly the kept contours |
| SvgReader.PathDataWritten | converter.py:33-42 | A contour's `d` attribute reads back as that contour |
| SvgReader.LineTosWritten | converter.py:34-39 | The `L` commands read back as the points they were written for |
| SvgReader.CommandWritten | converter.py:37-39 | One `M`/`L` command reads back as its point |
| SvgReader.HeaderWritten | converter.py:10-12 | The header reads back as width, height and a viewBox of the same width and height |
| SvgReader.FallbackWritten | converter.py:50-51 | The placeholder reads back as a rectangle of `width-20` by `height-20` and a label at `width/2`, `height/2` |
| SvgReader.NoPathAfterPaths | converter.py:45-54 | After the last path comes the placeholder or `</svg>`, never something read as another path |

## Left out

- Image decoding, grayscale conversion and the `uint8` cast (converter.py:62-75) are PIL and NumPy library code. `PngToSvg` starts from the grayscale grid and the image size.
- `cv2.morphologyEx` with a 3x3 kernel (converter.py:82-84) is library code. It is the parameter `morphology` of `PngToSvg`, which keeps only the order: close, then open.
- `cv2.findContours` and the unpacking of its two- or three-value result across OpenCV versions (converter.py:15-21) are library code. The traced contours are the input of `BitmapToSvg`, and the parameter `findContours` of `PngToSvg`.
- The debug prints (converter.py:24, 49, 92) are console output and have no effect on the result.
- The catch-and-re-raise in `png_to_svg` (converter.py:90-93) only logs. The stages modelled here cannot fail.
- `convert_file` (converter.py:95-100) only reads a file.
- The web service and the test script are outside the converter core.
- Decimal.HalfToString: does not model Python's float repr for huge values (exponent form from 1e16 on) or the precision lost above 2^53. Image sizes are far below both.
- Geometry.ContourArea: does not model rounding in OpenCV's double-precision sum. For integer coordinates of image size the sum is exact.
- Coordinates are unbounded integers rather than OpenCV's 32-bit `int` points. Image coordinates cannot overflow.
