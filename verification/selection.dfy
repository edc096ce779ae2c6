/**
 Selection of the plate outline among the ranked contours (anpr_app.py lines
 144-153): each contour is approximated by a closed polygon with tolerance
 `0.018 * perimeter`, and the first approximation with exactly four vertices
 is the plate. OpenCV's `contourArea`, `arcLength` and `approxPolyDP` are not
 modelled; they are arbitrary functions carried by a `Primitives` value.
 */
module Selection {
  import opened Wrappers
  import opened Geometry

  /**
   The OpenCV primitives the detector calls, as opaque functions:
   `contourArea(c)`, `arcLength(c, closed)` and `approxPolyDP(c, epsilon, closed)`.
   */
  datatype Primitives = Primitives(
    contourArea: Contour -> real,
    arcLength: (Contour, bool) -> real,
    approxPolyDP: (Contour, real, bool) -> Contour)

  /** Tolerance of the polygon approximation, as a fraction of the perimeter. */
  const ApproxFactor: real := 0.018

  /** `approxPolyDP(c, 0.018 * arcLength(c, True), True)`: closed, with a tolerance from `c`'s own perimeter. */
  function Approximate(cv: Primitives, c: Contour): Contour
  {
    cv.approxPolyDP(c, ApproxFactor * cv.arcLength(c, true), true)
  }

  /** `len(approx) == 4`: the polygon is a candidate plate outline. */
  predicate IsQuad(poly: Contour)
  {
    |poly| == 4
  }

  /**
   Position of the first ranked contour whose approximation has four
   vertices: every earlier contour fails the test, and `None` exactly when
   none passes it.
   */
  function FirstQuad(cv: Primitives, ranked: seq<Contour>): (r: Option<nat>)
    ensures r.Some? ==> r.value < |ranked| && IsQuad(Approximate(cv, ranked[r.value]))
    ensures r.Some? ==> forall k :: 0 <= k < r.value ==> !IsQuad(Approximate(cv, ranked[k]))
    ensures r.None? <==> forall k :: 0 <= k < |ranked| ==> !IsQuad(Approximate(cv, ranked[k]))
  {
    if |ranked| == 0 then None
    else if IsQuad(Approximate(cv, ranked[0])) then Some(0)
    else
      match FirstQuad(cv, ranked[1..])
      case None => None
      case Some(k) => Some(k + 1)
  }

  /**
   `NumberPlateCnt`: the approximation of the first ranked contour that has
   four vertices, or `None`. A returned polygon always has four vertices.
   */
  function SelectPlate(cv: Primitives, ranked: seq<Contour>): (plate: Option<Contour>)
    ensures plate.Some? ==> IsQuad(plate.value)
    ensures plate.Some? ==> exists k :: 0 <= k < |ranked| && plate.value == Approximate(cv, ranked[k])
    ensures plate.Some? ==> FirstQuad(cv, ranked).Some? && plate.value == Approximate(cv, ranked[FirstQuad(cv, ranked).value])
    ensures plate.None? <==> forall k :: 0 <= k < |ranked| ==> !IsQuad(Approximate(cv, ranked[k]))
    ensures |ranked| == 0 ==> plate.None?
  {
    match FirstQuad(cv, ranked)
    case None => None
    case Some(k) => Some(Approximate(cv, ranked[k]))
  }

  /**
   The loop of lines 144-151 as written: scan in rank order, stop at the
   first four-vertex approximation. It computes the same result as
   `SelectPlate`, and the scan stops at the position `FirstQuad` names.
   */
  method ScanForPlate(cv: Primitives, ranked: seq<Contour>) returns (plate: Option<Contour>, stop: nat)
    ensures plate == SelectPlate(cv, ranked)
    ensures plate.Some? <==> stop < |ranked|
    ensures plate.Some? ==> FirstQuad(cv, ranked) == Some(stop) && plate.value == Approximate(cv, ranked[stop])
  {
    plate := None;
    stop := 0;
    while stop < |ranked|
      invariant stop <= |ranked|
      invariant forall k :: 0 <= k < stop ==> !IsQuad(Approximate(cv, ranked[k]))
      invariant plate.None?
    {
      var c := ranked[stop];
      var peri := cv.arcLength(c, true);
      var approx := cv.approxPolyDP(c, ApproxFactor * peri, true);
      if |approx| == 4 {
        plate := Some(approx);
        break;
      }
      stop := stop + 1;
    }
    FirstQuadIsFirst(cv, ranked, stop);
  }

  /**
   `FirstQuad` is characterised by its two halves: if position `k` passes the
   test and all earlier positions fail it, then `FirstQuad` answers `k`; if
   every position fails it, `FirstQuad` answers `None`.
   */
  lemma {:induction false} FirstQuadIsFirst(cv: Primitives, ranked: seq<Contour>, k: nat)
    requires k <= |ranked|
    requires forall j :: 0 <= j < k ==> !IsQuad(Approximate(cv, ranked[j]))
    ensures k < |ranked| && IsQuad(Approximate(cv, ranked[k])) ==> FirstQuad(cv, ranked) == Some(k)
    ensures k == |ranked| ==> FirstQuad(cv, ranked) == None
    decreases k
  {
    if k > 0 {
      FirstQuadIsFirst(cv, ranked[1..], k - 1);
      assert forall j :: 0 <= j < |ranked| - 1 ==> ranked[1..][j] == ranked[j + 1];
    }
  }

  /**
   First match wins: contours ranked after the selected one have no influence;
   replacing them by anything leaves the selection unchanged.
   */
  lemma {:induction false} LaterContoursIrrelevant(cv: Primitives, ranked: seq<Contour>, later: seq<Contour>, k: nat)
    requires FirstQuad(cv, ranked) == Some(k)
    ensures FirstQuad(cv, ranked[..k + 1] + later) == Some(k)
    ensures SelectPlate(cv, ranked[..k + 1] + later) == SelectPlate(cv, ranked)
  {
    var other := ranked[..k + 1] + later;
    assert forall j :: 0 <= j <= k ==> other[j] == ranked[j];
    FirstQuadIsFirst(cv, other, k);
  }

  /**
   Each contour's approximation is the only thing the selection looks at: two
   ranked lists whose approximations agree position by position, even under
   different primitives, select the same polygon at the same position.
   */
  lemma {:induction false} SelectionSeesOnlyApproximations(cv1: Primitives, r1: seq<Contour>, cv2: Primitives, r2: seq<Contour>)
    requires |r1| == |r2|
    requires forall k :: 0 <= k < |r1| ==> Approximate(cv1, r1[k]) == Approximate(cv2, r2[k])
    ensures FirstQuad(cv1, r1) == FirstQuad(cv2, r2)
    ensures SelectPlate(cv1, r1) == SelectPlate(cv2, r2)
    decreases |r1|
  {
    if |r1| > 0 && !IsQuad(Approximate(cv1, r1[0])) {
      SelectionSeesOnlyApproximations(cv1, r1[1..], cv2, r2[1..]);
    }
  }

  /**
   The approximation of a contour depends on that contour alone: on its own
   closed perimeter and on `approxPolyDP` applied to it, never on any other
   contour.
   */
  lemma ApproximationIsLocal(cv1: Primitives, cv2: Primitives, c: Contour)
    requires cv1.arcLength(c, true) == cv2.arcLength(c, true)
    requires forall eps :: cv1.approxPolyDP(c, eps, true) == cv2.approxPolyDP(c, eps, true)
    ensures Approximate(cv1, c) == Approximate(cv2, c)
  {
  }
}
