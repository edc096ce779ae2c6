# ANPR plate selection

A Dafny model of the decision logic in an automatic number-plate recognition
app (`anpr_app.py`, the detection block of `main()`, lines 142-159). Given the
contours that OpenCV's `findContours` found in the edge map, the detector:

1. ranks the contours by area, largest first, and keeps the first ten
   (`sorted(cnts, key=cv2.contourArea, reverse=True)[:10]`);
2. scans them in that order, approximates each one by a closed polygon with
   tolerance `0.018 * arcLength(c, True)`, and accepts the first approximation
   with exactly four vertices; if none has four, there is no plate;
3. takes the axis-aligned bounding rectangle `(x, y, w, h)` of the accepted
   polygon and crops the smoothed grayscale image to `gray[y:y+h, x:x+w]`
   (`gray` is the bilateral-filtered image at that point, since line 139
   rebinds it; the model takes it as an input);
4. runs the OCR engine on the crop and reports the text with `strip()` applied.

Modules, one per step:

- `Wrappers` (`wrappers.dfy`): `Option` for Python's `None`.
- `Geometry` (`geometry.dfy`): points, contours, rectangles, `BoundingRect`.
- `Ranking` (`ranking.dfy`): the stable descending sort and the top-ten cut
  (`KeptCount(n)` is `min(n, 10)`).
  Python's sort is stable also with `reverse=True`, so the order is the strict
  total order on input positions "larger area first, equal areas in input
  order". The sort is computed on positions, so that equal contours at
  different positions stay apart. `StableSortIsUnique` proves that this is the
  only possible result of a stable descending sort, so the insertion sort used
  here and Python's Timsort agree.
- `Selection` (`selection.dfy`): the polygon test and first-match selection.
  `contourArea`, `arcLength` and `approxPolyDP` are opaque: they are fields of
  function type in a `Primitives` value, and no property depends on what they
  compute. `ScanForPlate` is the loop with `break` as written. `FirstQuad` and
  `SelectPlate` are the same rule as a pure function.
- `Crop` (`crop.dfy`): grayscale images as rows of 8-bit pixels, and numpy
  slicing with Python's bound rules. A negative bound counts from the end and
  every bound is clamped to the extent. `Min`/`Max` live here.
- `Text` (`text.dfy`): `str.strip()` over Python's `str.isspace` characters,
  both as a function and as CPython's two loops.
- `Detector` (`detector.dfy`): the whole step, `Detect` (pure) and
  `DetectPlate` (as written), with the end-to-end lemmas.

`boundingRect` is modelled by what OpenCV computes for integer points: the
least and greatest coordinates, `w = xmax - xmin + 1`, `h = ymax - ymin + 1`,
and `(0, 0, 0, 0)` for no points. It is the smallest rectangle containing every
point under the half-open convention `x <= px < x + w`. Containment and
minimality are proved, not assumed.

Where the system's specification and the code differ, the model follows the code:

- The code has no `InvalidInput` or `OcrUnavailable` outcomes. It performs no
  check on the decoded image and does not catch OCR failures.
- The code does not require the accepted polygon to have a positive area. Any
  four-vertex approximation is accepted.
- The code never checks that the rectangle lies inside the image.
  `PlateCropIsExact` proves that this holds when the polygon's vertices lie in
  the image. Otherwise the crop follows numpy's clamping and wrap-around rules.

## Model

| member | source | states |
|---|---|---|
| Ranking.Rank | anpr_app.py:143 | The ranked list has `min(len, 10)` entries and never more than ten. Entry `k` is the input contour at the `k`-th kept position of the stable ranking, so no input contour appears twice. Areas never increase along the list. |
| Ranking.SortedPositions | anpr_app.py:143 | The full sort lists every input position exactly once. Areas never increase, and equal areas keep their input order (stability with `reverse=True`). |
| Ranking.StableSortIsUnique | anpr_app.py:143 | Any listing of the positions with non-increasing areas and ties in input order equals `SortedPositions`. A stable descending sort has one result. |
| Ranking.TopPositions | anpr_app.py:143 | The kept positions are distinct input positions, at most ten, stable and non-increasing. Every kept position precedes every dropped one in the ranking order. |
| Ranking.DroppedNeverLarger | anpr_app.py:143 | If some contour was dropped, exactly ten were kept. The dropped contour's area is at most the smallest kept area. |
| Ranking.RankReadsTopPositions | anpr_app.py:143 | The ranked list is the input read at the kept positions, in rank order. |
| Ranking.PrecededByKept | anpr_app.py:143 | An input contour ranked before a kept one was kept too, at an earlier rank. |
| Detector.RankContours | anpr_app.py:143 | At most ten contours. Entry `k` is the input contour at the `k`-th position of the stable area ranking. |
| Selection.Approximate | anpr_app.py:147-148 | No contract of its own: the closed approximation with tolerance `0.018` times the closed perimeter. `ApproximationIsLocal` and `SelectionSeesOnlyApproximations` state what depends on it. |
| Selection.IsQuad | anpr_app.py:149 | No contract of its own: the polygon has exactly four vertices. |
| Selection.FirstQuad | anpr_app.py:146-151 | The answer is the position of a four-vertex approximation, and every earlier position fails the test. The answer is `None` exactly when every ranked contour fails it. |
| Selection.FirstQuadIsFirst | anpr_app.py:146-151 | If position `k` passes and all earlier positions fail, the answer is `k`. If all positions fail, the answer is `None`. |
| Selection.SelectPlate | anpr_app.py:144-153 | A selected polygon has exactly four vertices and is the approximation of the ranked contour at the position `FirstQuad` names. The result is `None` exactly when no ranked contour approximates to four vertices, and always when there are no contours. |
| Selection.ScanForPlate | anpr_app.py:144-151 | The loop with `break` gives the same result as `SelectPlate`. It stops at the position `FirstQuad` names exactly when a plate is found. |
| Selection.LaterContoursIrrelevant | anpr_app.py:146-151 | First match wins. Replacing every contour ranked after the selected one leaves the selection unchanged. |
| Selection.SelectionSeesOnlyApproximations | anpr_app.py:146-150 | Two ranked lists whose approximations agree position by position select the same polygon at the same position, even under different primitives. |
| Selection.ApproximationIsLocal | anpr_app.py:147-148 | A contour's approximation depends only on its own closed perimeter and on `approxPolyDP` applied to it. |
| Geometry.BoundingRect | anpr_app.py:155 | The rectangle contains every point under half-open bounds, and each of its four sides passes through some point. Width and height are at least 1 for a non-empty set. No points give `(0, 0, 0, 0)`. |
| Geometry.BoundingRectIsSmallest | anpr_app.py:155 | Every rectangle that contains all the points also contains the bounding rectangle. |
| Geometry.BoundingRectWithinImage | anpr_app.py:155 | Points inside a `width` x `height` image have a bounding rectangle inside that image. |
| Crop.SliceFromNonNegative | anpr_app.py:156 | With non-negative bounds, a Python slice has length `max(0, min(stop, len) - start)`. Its entry `k` is entry `start + k` of the sequence. |
| Crop.CropImage | anpr_app.py:156 | For a rectangle with non-negative fields, the crop has `max(0, min(y+h, H) - y)` rows. Row `i` has `max(0, min(x+w, W_i) - x)` pixels, and its pixel `j` is image pixel `(y+i, x+j)`. |
| Crop.CropIsClippedRectangle | anpr_app.py:156 | For a non-negative rectangle, the crop has `max(0, min(y+h, H) - y)` rows of `max(0, min(x+w, W) - x)` pixels. Its pixel `(i, j)` is image pixel `(y+i, x+j)`. |
| Crop.CropInsideImageIsExact | anpr_app.py:156 | A rectangle inside the image crops to exactly `h` rows of `w` pixels, with pixel `(i, j)` being image pixel `(y+i, x+j)`. |
| Text.IsSpace | anpr_app.py:159 | A character is whitespace for `strip()` exactly when its code point is in the table of the 29 code points that `str.isspace` accepts. |
| Text.Strip | anpr_app.py:159 | The result is a contiguous piece `s[i:j]` of the OCR text with only whitespace outside it. A non-empty result starts and ends with a non-whitespace character. |
| Text.StripSpanUnique | anpr_app.py:159 | Any two spans that cut only whitespace and leave none at the ends keep the same text. |
| Text.StripSpanGivesStrip | anpr_app.py:159 | Every such span keeps exactly `Strip(s)`. |
| Text.StripIdempotent | anpr_app.py:159 | Stripping twice gives the same text as stripping once. |
| Text.StripLoops | anpr_app.py:159 | CPython's two scanning loops produce a valid strip span, and the text they keep is `Strip(s)`. |
| Detector.Report | anpr_app.py:155-159 | A reported plate keeps the accepted polygon. Its rectangle is the polygon's bounding rectangle and contains every vertex. The crop is the image cut to that rectangle. The text is the crop's OCR output stripped, with no whitespace at either end. |
| Detector.Detect | anpr_app.py:142-159 | A plate is exactly `Report` of the selected polygon: it has four vertices, and its rectangle is their bounding rectangle. The crop is the image cut to that rectangle, and the text is the crop's OCR output stripped. No plate is reported exactly when no ranked contour approximates to four vertices, and always when there are no contours. |
| Detector.DetectPlate | anpr_app.py:142-159 | The block as written, with its loop and `break`, reports the same outcome as `Detect`. |
| Detector.NoPlateMeansNoKeptQuad | anpr_app.py:143-153 | If no ranked contour approximates to four vertices, no input contour kept among the top ten does. |
| Detector.NoPlateIffNoQuadInTopTen | anpr_app.py:143-153 | No plate is reported exactly when no input contour kept among the top ten approximates to four vertices. |
| Detector.FirstQuadNotPreceded | anpr_app.py:143-151 | The selected ranked contour is input contour `top[k]`. No input contour ranked before it approximates to four vertices, whether it was kept or dropped. |
| Detector.NoPrecedingQuad | anpr_app.py:143-151 | A reported plate approximates some kept input contour `s`. No input contour ranked before `s` approximates to four vertices: not one with a larger area, and not one with an equal area that comes earlier in the input. |
| Detector.PlateCropIsExact | anpr_app.py:155-156 | When the polygon's vertices lie in the image, its bounding rectangle lies in the image. The crop is then exactly `h` by `w` pixels of the image at `(x, y)`. |

## Left out

- Streamlit user interface (page setup, CSS, emoji markup, title, uploader, button, `st.image`, `st.success`, `st.error`, confetti): presentation only.
- Lottie animation download with `requests`: network I/O, unrelated to detection.
- Tesseract executable path and `pytesseract.image_to_string`: an external OCR engine. It is a function parameter from image to string, and the `--psm 8` mode hint is not modelled.
- `cv2.imdecode`: file-format parsing. The model starts from the smoothed grayscale image and the contour list.
- Grayscale conversion, bilateral filter (11, 17, 17) and Canny (30, 200): floating-point image numerics outside the decision logic.
- `cv2.findContours` (border following, `RETR_TREE` hierarchy, `CHAIN_APPROX_SIMPLE`): the contour list is an input, and the hierarchy is discarded as in the code.
- Internals of `contourArea`, `arcLength` and `approxPolyDP` (Douglas-Peucker): they are opaque functions. No property depends on them.
- `cv2.drawContours` on the displayed image: decoration only.
- Crop.CropImage: an empty row slice gives `[]`, which drops the column count that numpy keeps in shape `(0, k)`. This cannot happen for a polygon whose vertices lie in the image (`PlateCropIsExact`), and the OCR engine is opaque anyway.
- Floating point: areas, perimeters and the tolerance `0.018 * perimeter` are exact reals. NaN areas and double rounding of the tolerance are not modelled.
