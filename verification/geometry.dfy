/**
 Points, contours and axis-aligned rectangles, and the bounding rectangle of a
 point set as OpenCV's `boundingRect` computes it for integer points: the
 smallest rectangle `(x, y, w, h)` with `x <= px < x + w` and `y <= py < y + h`
 for every point, and `(0, 0, 0, 0)` for an empty set.
 */
module Geometry {

  /** A pixel position: `x` is the column, `y` the row. */
  datatype Point = Point(x: int, y: int)

  /** A contour, and equally a polygon, is an ordered sequence of integer points. */
  type Contour = seq<Point>

  /** An axis-aligned rectangle: top-left corner `(x, y)`, then width and height. */
  datatype Rect = Rect(x: int, y: int, width: int, height: int)

  /** Half-open containment, the convention of OpenCV's rectangles. */
  predicate Contains(r: Rect, p: Point)
  {
    r.x <= p.x < r.x + r.width && r.y <= p.y < r.y + r.height
  }

  predicate ContainsAll(r: Rect, pts: seq<Point>)
  {
    forall k :: 0 <= k < |pts| ==> Contains(r, pts[k])
  }

  function Xs(pts: seq<Point>): (xs: seq<int>)
    ensures |xs| == |pts|
    ensures forall k :: 0 <= k < |pts| ==> xs[k] == pts[k].x
  {
    seq(|pts|, k requires 0 <= k < |pts| => pts[k].x)
  }

  function Ys(pts: seq<Point>): (ys: seq<int>)
    ensures |ys| == |pts|
    ensures forall k :: 0 <= k < |pts| ==> ys[k] == pts[k].y
  {
    seq(|pts|, k requires 0 <= k < |pts| => pts[k].y)
  }

  /** The least element of a non-empty sequence: a lower bound that is attained. */
  function Least(s: seq<int>): (m: int)
    requires |s| > 0
    ensures forall k :: 0 <= k < |s| ==> m <= s[k]
    ensures exists k :: 0 <= k < |s| && s[k] == m
  {
    if |s| == 1 then s[0]
    else
      var rest := Least(s[1..]);
      if s[0] <= rest then s[0] else rest
  }

  /** The greatest element of a non-empty sequence: an upper bound that is attained. */
  function Greatest(s: seq<int>): (m: int)
    requires |s| > 0
    ensures forall k :: 0 <= k < |s| ==> s[k] <= m
    ensures exists k :: 0 <= k < |s| && s[k] == m
  {
    if |s| == 1 then s[0]
    else
      var rest := Greatest(s[1..]);
      if rest <= s[0] then s[0] else rest
  }

  /**
   The bounding rectangle of a point set. It contains every point, each of its
   four sides passes through some point, and the empty set gives the zero
   rectangle.
   */
  function BoundingRect(pts: seq<Point>): (r: Rect)
    ensures ContainsAll(r, pts)
    ensures |pts| == 0 ==> r == Rect(0, 0, 0, 0)
    ensures |pts| > 0 ==> r.width >= 1 && r.height >= 1
    ensures |pts| > 0 ==> exists k :: 0 <= k < |pts| && pts[k].x == r.x
    ensures |pts| > 0 ==> exists k :: 0 <= k < |pts| && pts[k].x == r.x + r.width - 1
    ensures |pts| > 0 ==> exists k :: 0 <= k < |pts| && pts[k].y == r.y
    ensures |pts| > 0 ==> exists k :: 0 <= k < |pts| && pts[k].y == r.y + r.height - 1
  {
    if |pts| == 0 then Rect(0, 0, 0, 0)
    else
      var xs, ys := Xs(pts), Ys(pts);
      var x0, x1 := Least(xs), Greatest(xs);
      var y0, y1 := Least(ys), Greatest(ys);
      Rect(x0, y0, x1 - x0 + 1, y1 - y0 + 1)
  }

  /**
   No rectangle that contains every point is smaller than the bounding
   rectangle on any side: the bounding rectangle is the smallest one.
   */
  lemma BoundingRectIsSmallest(pts: seq<Point>, q: Rect)
    requires |pts| > 0
    requires ContainsAll(q, pts)
    ensures q.x <= BoundingRect(pts).x
    ensures q.y <= BoundingRect(pts).y
    ensures BoundingRect(pts).x + BoundingRect(pts).width <= q.x + q.width
    ensures BoundingRect(pts).y + BoundingRect(pts).height <= q.y + q.height
  {
    var r := BoundingRect(pts);
    var a :| 0 <= a < |pts| && pts[a].x == r.x;
    var b :| 0 <= b < |pts| && pts[b].x == r.x + r.width - 1;
    var c :| 0 <= c < |pts| && pts[c].y == r.y;
    var d :| 0 <= d < |pts| && pts[d].y == r.y + r.height - 1;
    assert Contains(q, pts[a]) && Contains(q, pts[b]);
    assert Contains(q, pts[c]) && Contains(q, pts[d]);
  }

  /** The bounding rectangle of points inside a `width` x `height` image lies inside it. */
  lemma BoundingRectWithinImage(pts: seq<Point>, width: int, height: int)
    requires forall k :: 0 <= k < |pts| ==> 0 <= pts[k].x < width && 0 <= pts[k].y < height
    ensures 0 <= BoundingRect(pts).x && 0 <= BoundingRect(pts).y
    ensures 0 <= BoundingRect(pts).width && 0 <= BoundingRect(pts).height
    ensures |pts| > 0 ==> BoundingRect(pts).x + BoundingRect(pts).width <= width
    ensures |pts| > 0 ==> BoundingRect(pts).y + BoundingRect(pts).height <= height
  {
    if |pts| > 0 {
      BoundingRectIsSmallest(pts, Rect(0, 0, width, height));
    }
  }
}
