/**
 Cropping the smoothed grayscale image to the plate's bounding rectangle:
 `gray[y:y+h, x:x+w]`. The image is a sequence of rows; slicing follows
 Python's rules, so a bound below zero counts from the end and every bound is
 clamped to the extent of the image.
 */
module Crop {
  import opened Geometry

  function Min(a: int, b: int): int
  {
    if a <= b then a else b
  }

  function Max(a: int, b: int): int
  {
    if a <= b then b else a
  }

  /** An 8-bit grayscale intensity. */
  newtype uint8 = v: int | 0 <= v < 256

  /** A grayscale image as a sequence of rows of pixels. */
  type Image = seq<seq<uint8>>

  /** The image has `height` rows of `width` pixels each. */
  predicate HasShape(img: Image, height: nat, width: nat)
  {
    |img| == height && forall i :: 0 <= i < |img| ==> |img[i]| == width
  }

  /** Python's normalisation of a slice bound `i` against a length `n`. */
  function SliceBound(i: int, n: nat): (b: nat)
    ensures b <= n
  {
    if i < 0 then (if i + n < 0 then 0 else i + n)
    else if i > n then n
    else i
  }

  /** `s[start:stop]` with Python's slice semantics (step 1). */
  function Slice<T>(s: seq<T>, start: int, stop: int): seq<T>
  {
    var a, b := SliceBound(start, |s|), SliceBound(stop, |s|);
    if a <= b then s[a..b] else []
  }

  /**
   For non-negative bounds, `s[start:stop]` is the run of elements of `s` at
   positions `start .. stop-1` that exist: nothing before `start`, nothing
   past the end of `s`, nothing when `stop <= start`.
   */
  lemma SliceFromNonNegative<T>(s: seq<T>, start: int, stop: int)
    requires 0 <= start && 0 <= stop
    ensures |Slice(s, start, stop)| == Max(0, Min(stop, |s|) - start)
    ensures forall k :: 0 <= k < |Slice(s, start, stop)| ==> Slice(s, start, stop)[k] == s[start + k]
  {
  }

  /**
   `gray[y:y+h, x:x+w]`: rows sliced first, then each kept row sliced by
   columns. For a rectangle with non-negative corner and size, the crop has
   the rows `y .. y+h-1` that exist in the image, each cut to the columns
   `x .. x+w-1` that exist, and its pixel `(i, j)` is image pixel
   `(y + i, x + j)`.
   */
  function CropImage(img: Image, r: Rect): (crop: Image)
    ensures 0 <= r.y && 0 <= r.height ==> |crop| == Max(0, Min(r.y + r.height, |img|) - r.y)
    ensures 0 <= r.x && 0 <= r.y && 0 <= r.width && 0 <= r.height ==>
      forall i :: 0 <= i < |crop| ==>
        && |crop[i]| == Max(0, Min(r.x + r.width, |img[r.y + i]|) - r.x)
        && forall j :: 0 <= j < |crop[i]| ==> crop[i][j] == img[r.y + i][r.x + j]
  {
    var rows := Slice(img, r.y, r.y + r.height);
    var crop := seq(|rows|, i requires 0 <= i < |rows| => Slice(rows[i], r.x, r.x + r.width));
    if 0 <= r.x && 0 <= r.y && 0 <= r.width && 0 <= r.height then
      SliceFromNonNegative(img, r.y, r.y + r.height);
      assert forall i :: 0 <= i < |crop| ==> rows[i] == img[r.y + i];
      CropRowsFromNonNegative(rows, r.x, r.x + r.width);
      crop
    else
      crop
  }

  /** Every row sliced with the same non-negative bounds. */
  lemma CropRowsFromNonNegative(rows: Image, start: int, stop: int)
    requires 0 <= start && 0 <= stop
    ensures forall i :: 0 <= i < |rows| ==>
      && |Slice(rows[i], start, stop)| == Max(0, Min(stop, |rows[i]|) - start)
      && forall j :: 0 <= j < |Slice(rows[i], start, stop)| ==> Slice(rows[i], start, stop)[j] == rows[i][start + j]
  {
    forall i | 0 <= i < |rows| {
      SliceFromNonNegative(rows[i], start, stop);
    }
  }

  /**
   For a rectangle with non-negative corner and size, the crop holds exactly the
   pixels of rows `y .. y+h-1` and columns `x .. x+w-1` of the image, clipped
   to the image's extent, in their original arrangement.
   */
  lemma CropIsClippedRectangle(img: Image, height: nat, width: nat, r: Rect)
    requires HasShape(img, height, width)
    requires 0 <= r.x && 0 <= r.y && 0 <= r.width && 0 <= r.height
    ensures HasShape(CropImage(img, r),
                     Max(0, Min(r.y + r.height, height) - r.y),
                     Max(0, Min(r.x + r.width, width) - r.x))
    ensures forall i, j :: 0 <= i < |CropImage(img, r)| && 0 <= j < |CropImage(img, r)[i]| ==>
      r.y + i < height && r.x + j < width && CropImage(img, r)[i][j] == img[r.y + i][r.x + j]
  {
    var rows := Slice(img, r.y, r.y + r.height);
    var crop := CropImage(img, r);
    SliceFromNonNegative(img, r.y, r.y + r.height);
    forall i | 0 <= i < |crop|
      ensures |crop[i]| == Max(0, Min(r.x + r.width, width) - r.x)
      ensures forall j :: 0 <= j < |crop[i]| ==> crop[i][j] == img[r.y + i][r.x + j]
    {
      assert crop[i] == Slice(rows[i], r.x, r.x + r.width);
      SliceFromNonNegative(rows[i], r.x, r.x + r.width);
    }
  }

  /**
   A rectangle inside the image is cropped without clipping: the crop is
   exactly `h` rows of `w` pixels, pixel `(i, j)` of the crop being pixel
   `(y + i, x + j)` of the image.
   */
  lemma CropInsideImageIsExact(img: Image, height: nat, width: nat, r: Rect)
    requires HasShape(img, height, width)
    requires 0 <= r.x && 0 <= r.width && r.x + r.width <= width
    requires 0 <= r.y && 0 <= r.height && r.y + r.height <= height
    ensures HasShape(CropImage(img, r), r.height, r.width)
    ensures forall i, j :: 0 <= i < r.height && 0 <= j < r.width ==>
      CropImage(img, r)[i][j] == img[r.y + i][r.x + j]
  {
    CropIsClippedRectangle(img, height, width, r);
  }
}
