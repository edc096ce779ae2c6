/**
 The plate detection step of `main()` (anpr_app.py lines 142-159), from the
 contour list that `findContours` returns to the reported plate text:
 rank by area and keep ten, select the first four-vertex approximation,
 crop the smoothed grayscale image to its bounding rectangle, read it with the OCR
 engine and strip the text. Contour extraction and the OCR engine are not
 modelled: the contours are an input and the OCR engine is a function
 parameter.
 */
module Detector {
  import opened Wrappers
  import opened Geometry
  import opened Ranking
  import opened Selection
  import opened Crop
  import opened Text

  /** The outcome shown to the user: no plate, or the plate with what was derived from it. */
  datatype Detection =
    | NoPlate
    | Plate(quad: Contour, rect: Rect, crop: Image, text: string)

  /**
   What is reported for an accepted polygon: its bounding rectangle, the
   smoothed grayscale image cut to it, and the OCR text of that crop, stripped.
   */
  function Report(quad: Contour, gray: Image, ocr: Image -> string): (d: Detection)
    ensures d.Plate? && d.quad == quad && ContainsAll(d.rect, quad)
    ensures d.rect == BoundingRect(quad)
    ensures d.crop == CropImage(gray, d.rect)
    ensures exists i, j :: 0 <= i <= j <= |ocr(d.crop)| && IsStripSpan(ocr(d.crop), i, j) && d.text == ocr(d.crop)[i..j]
    ensures |d.text| > 0 ==> !IsSpace(d.text[0]) && !IsSpace(d.text[|d.text| - 1])
  {
    var rect := BoundingRect(quad);
    var crop := CropImage(gray, rect);
    Plate(quad, rect, crop, Strip(ocr(crop)))
  }

  /**
   `sorted(cnts, key=cv2.contourArea, reverse=True)[:10]`: at most ten
   contours, entry `k` being the input contour at the `k`-th position of the
   stable area ranking.
   */
  function RankContours(cv: Primitives, contours: seq<Contour>): (ranked: seq<Contour>)
    ensures |ranked| <= MaxCandidates && |ranked| == |TopPositions(contours, cv.contourArea)|
    ensures forall k :: 0 <= k < |ranked| ==> ranked[k] == contours[TopPositions(contours, cv.contourArea)[k]]
  {
    Rank(contours, cv.contourArea)
  }

  /**
   The detection step. A plate is a four-vertex polygon, its rectangle
   contains every vertex, the crop is the smoothed image cut to that
   rectangle, and the text is the OCR output of exactly that crop with the
   surrounding whitespace removed. No plate is reported exactly when no
   ranked contour approximates to four vertices, in particular when there
   are no contours at all.
   */
  function Detect(cv: Primitives, contours: seq<Contour>, gray: Image, ocr: Image -> string): (d: Detection)
    ensures d.Plate? <==> SelectPlate(cv, RankContours(cv, contours)).Some?
    ensures d.Plate? ==> d.quad == SelectPlate(cv, RankContours(cv, contours)).value
    ensures d.Plate? ==> IsQuad(d.quad) && ContainsAll(d.rect, d.quad)
    ensures d.Plate? ==> d == Report(d.quad, gray, ocr) && d.rect == BoundingRect(d.quad)
    ensures d.Plate? ==> d.crop == CropImage(gray, d.rect)
    ensures d.Plate? ==> exists i, j :: 0 <= i <= j <= |ocr(d.crop)| && IsStripSpan(ocr(d.crop), i, j) && d.text == ocr(d.crop)[i..j]
    ensures d.Plate? && |d.text| > 0 ==> !IsSpace(d.text[0]) && !IsSpace(d.text[|d.text| - 1])
    ensures d.NoPlate? <==> forall k :: 0 <= k < |RankContours(cv, contours)| ==> !IsQuad(Approximate(cv, RankContours(cv, contours)[k]))
    ensures |contours| == 0 ==> d.NoPlate?
  {
    var ranked := RankContours(cv, contours);
    assert |contours| == 0 ==> |ranked| == 0;
    var plate := SelectPlate(cv, ranked);
    if plate.None? then NoPlate else Report(plate.value, gray, ocr)
  }

  /**
   The block of lines 142-159 as written, with the loop and its `break`: it
   reports the same outcome as `Detect`.
   */
  method DetectPlate(cv: Primitives, contours: seq<Contour>, gray: Image, ocr: Image -> string) returns (d: Detection)
    ensures d.NoPlate? <==> SelectPlate(cv, RankContours(cv, contours)).None?
    ensures d.Plate? ==> d == Report(SelectPlate(cv, RankContours(cv, contours)).value, gray, ocr)
    ensures d == Detect(cv, contours, gray, ocr)
  {
    var cnts := RankContours(cv, contours);
    var numberPlate, _ := ScanForPlate(cv, cnts);
    if numberPlate.Some? {
      var rect := BoundingRect(numberPlate.value);
      var plate := CropImage(gray, rect);
      var text := ocr(plate);
      d := Plate(numberPlate.value, rect, plate, Strip(text));
    } else {
      d := NoPlate;
    }
  }

  /**
   No plate exactly when no contour of the input that survives the top-ten
   cut approximates to four vertices; contours beyond the cut are never
   examined.
   */
  lemma NoPlateIffNoQuadInTopTen(cv: Primitives, contours: seq<Contour>, gray: Image, ocr: Image -> string)
    ensures Detect(cv, contours, gray, ocr).NoPlate? <==>
      forall j :: 0 <= j < |contours| && j in TopPositions(contours, cv.contourArea) ==>
        !IsQuad(Approximate(cv, contours[j]))
  {
    if Detect(cv, contours, gray, ocr).NoPlate? {
      NoPlateMeansNoKeptQuad(cv, contours);
    } else {
      var top := TopPositions(contours, cv.contourArea);
      var ranked := RankContours(cv, contours);
      var k := FirstQuad(cv, ranked).value;
      assert ranked[k] == contours[top[k]];
      assert top[k] in top;
    }
  }

  /** If no ranked contour approximates to four vertices, no kept input contour does. */
  lemma NoPlateMeansNoKeptQuad(cv: Primitives, contours: seq<Contour>)
    requires forall k :: 0 <= k < |RankContours(cv, contours)| ==> !IsQuad(Approximate(cv, RankContours(cv, contours)[k]))
    ensures forall j :: 0 <= j < |contours| && j in TopPositions(contours, cv.contourArea) ==>
      !IsQuad(Approximate(cv, contours[j]))
  {
    var top := TopPositions(contours, cv.contourArea);
    var ranked := RankContours(cv, contours);
    forall j | 0 <= j < |contours| && j in top
      ensures !IsQuad(Approximate(cv, contours[j]))
    {
      var k :| 0 <= k < |top| && top[k] == j;
      assert ranked[k] == contours[j];
    }
  }

  /**
   The contour at ranked position `k`, where the first four-vertex
   approximation occurs, is input contour `top[k]`, and no input contour
   that the stable ranking puts before it approximates to four vertices,
   whether it was kept among the ten or not.
   */
  lemma FirstQuadNotPreceded(cv: Primitives, contours: seq<Contour>, k: nat)
    requires FirstQuad(cv, RankContours(cv, contours)) == Some(k)
    ensures k < |TopPositions(contours, cv.contourArea)|
    ensures RankContours(cv, contours)[k] == contours[TopPositions(contours, cv.contourArea)[k]]
    ensures forall j :: 0 <= j < |contours| && Precedes(contours, cv.contourArea, j, TopPositions(contours, cv.contourArea)[k]) ==>
      !IsQuad(Approximate(cv, contours[j]))
  {
    var top := TopPositions(contours, cv.contourArea);
    var ranked := RankContours(cv, contours);
    forall j | 0 <= j < |contours| && Precedes(contours, cv.contourArea, j, top[k])
      ensures !IsQuad(Approximate(cv, contours[j]))
    {
      var m := PrecededByKept(contours, cv.contourArea, j, k);
      assert ranked[m] == contours[j];
    }
  }

  /**
   A larger plate candidate is never passed over: a selected polygon is the
   approximation of some input contour `s` among the ten kept, and every
   input contour that the stable ranking puts before `s` (a larger area, or
   an equal area earlier in the input) does not approximate to four
   vertices; in particular no contour with a strictly larger area does.
   */
  lemma NoPrecedingQuad(cv: Primitives, contours: seq<Contour>)
    ensures SelectPlate(cv, RankContours(cv, contours)).Some? ==> exists s ::
      && 0 <= s < |contours| && s in TopPositions(contours, cv.contourArea)
      && SelectPlate(cv, RankContours(cv, contours)).value == Approximate(cv, contours[s])
      && (forall j :: 0 <= j < |contours| && Precedes(contours, cv.contourArea, j, s) ==>
            !IsQuad(Approximate(cv, contours[j])))
      && (forall j :: 0 <= j < |contours| && cv.contourArea(contours[j]) > cv.contourArea(contours[s]) ==>
            !IsQuad(Approximate(cv, contours[j])))
  {
    var ranked := RankContours(cv, contours);
    if SelectPlate(cv, ranked).Some? {
      var k := FirstQuad(cv, ranked).value;
      FirstQuadNotPreceded(cv, contours, k);
      var top := TopPositions(contours, cv.contourArea);
      var s := top[k];
      assert forall j :: 0 <= j < |contours| && cv.contourArea(contours[j]) > cv.contourArea(contours[s]) ==>
        Precedes(contours, cv.contourArea, j, s);
    }
  }

  /**
   When the plate's vertices lie inside the `width` x `height` grayscale
   image, as contours found in that image do, the bounding rectangle lies
   inside the image and the crop is exactly `w` columns by `h` rows of it,
   its pixel `(i, j)` being the image's pixel `(y + i, x + j)`.
   */
  lemma PlateCropIsExact(quad: Contour, gray: Image, height: nat, width: nat)
    requires HasShape(gray, height, width)
    requires forall k :: 0 <= k < |quad| ==> 0 <= quad[k].x < width && 0 <= quad[k].y < height
    ensures var r := BoundingRect(quad);
      && 0 <= r.x && 0 <= r.y && 0 <= r.width && 0 <= r.height
      && r.x + r.width <= width && r.y + r.height <= height
    ensures var r := BoundingRect(quad);
      && HasShape(CropImage(gray, r), r.height, r.width)
      && forall i, j :: 0 <= i < r.height && 0 <= j < r.width ==>
           CropImage(gray, r)[i][j] == gray[r.y + i][r.x + j]
  {
    var r := BoundingRect(quad);
    BoundingRectWithinImage(quad, width, height);
    CropInsideImageIsExact(gray, height, width, r);
  }
}
