/**
 The mapping from normalized device coordinates to canvas pixels in `tick`
 of main.js, and the mapping back that the `mousemove` handler applies to
 the pointer.

 The camera projection that produces the device coordinates is a library
 matrix operation; the model starts from its output.
 */
module Viewport {

  /** A point in the plane: device coordinates or pixels. */
  datatype Point2 = Point2(x: real, y: real)

  /** The canvas rectangle as the bounding-box query reports it. */
  datatype Rect = Rect(left: real, top: real, width: real, height: real)

  predicate InNdcSquare(p: Point2) {
    -1.0 <= p.x <= 1.0 && -1.0 <= p.y <= 1.0
  }

  predicate InRect(p: Point2, r: Rect) {
    r.left <= p.x <= r.left + r.width && r.top <= p.y <= r.top + r.height
  }

  function Centre(r: Rect): Point2 {
    Point2(r.left + r.width / 2.0, r.top + r.height / 2.0)
  }

  /** One axis of the mapping: device -1..1 onto the interval from `lo` of length `len`. */
  function Axis(n: real, lo: real, len: real): real {
    (n * 0.5 + 0.5) * len + lo
  }

  /** One axis of the pointer handler's mapping back: `lo` goes to -1, `lo + len` to 1. */
  function Unaxis(p: real, lo: real, len: real): real
    requires len != 0.0
  {
    (p - lo) / len * 2.0 - 1.0
  }

  /**
   Device coordinates to pixels: x runs left to right across the width; y is
   negated first, so that device +1 is the top edge and -1 the bottom edge.
   */
  function ToPixel(ndc: Point2, r: Rect): (p: Point2)
    ensures ndc == Point2(0.0, 0.0) ==> p == Centre(r)
    ensures ndc.x == -1.0 ==> p.x == r.left
    ensures ndc.x == 1.0 ==> p.x == r.left + r.width
    ensures ndc.y == 1.0 ==> p.y == r.top
    ensures ndc.y == -1.0 ==> p.y == r.top + r.height
  {
    Point2(Axis(ndc.x, r.left, r.width), Axis(-ndc.y, r.top, r.height))
  }

  /**
   Pixels to device coordinates as the pointer handler computes them; its y
   formula `-((y - top) / height) * 2 + 1` is the negated x formula.
   */
  function ToNdc(p: Point2, r: Rect): (ndc: Point2)
    requires r.width != 0.0 && r.height != 0.0
    ensures p == Centre(r) ==> ndc == Point2(0.0, 0.0)
    ensures p.x == r.left ==> ndc.x == -1.0
    ensures p.y == r.top ==> ndc.y == 1.0
  {
    Point2(Unaxis(p.x, r.left, r.width), -Unaxis(p.y, r.top, r.height))
  }

  /** A device coordinate in -1..1 lands inside an interval of non-negative length. */
  lemma AxisInRange(n: real, lo: real, len: real)
    requires -1.0 <= n <= 1.0 && len >= 0.0
    ensures lo <= Axis(n, lo, len) <= lo + len
  {
    var t := n * 0.5 + 0.5;
    assert 0.0 <= t <= 1.0;
    calc {
      Axis(n, lo, len) - lo;
      == t * len;
      <= 1.0 * len;
    }
    calc {
      Axis(n, lo, len) - lo;
      == t * len;
      >= 0.0 * len;
    }
  }

  /** On an interval of positive length the axis mapping is strictly increasing. */
  lemma AxisIncreasing(n1: real, n2: real, lo: real, len: real)
    requires n1 < n2 && len > 0.0
    ensures Axis(n1, lo, len) < Axis(n2, lo, len)
  {
    calc {
      Axis(n2, lo, len) - Axis(n1, lo, len);
      == (n2 - n1) * 0.5 * len;
      > 0.0;
    }
  }

  /** The pointer handler's mapping undoes the axis mapping... */
  lemma UnaxisAxis(n: real, lo: real, len: real)
    requires len != 0.0
    ensures Unaxis(Axis(n, lo, len), lo, len) == n
  {
    var t := n * 0.5 + 0.5;
    calc {
      (Axis(n, lo, len) - lo) / len;
      == t * len / len;
      == t;
    }
  }

  /** ...and the axis mapping undoes the pointer handler's mapping. */
  lemma AxisUnaxis(p: real, lo: real, len: real)
    requires len != 0.0
    ensures Axis(Unaxis(p, lo, len), lo, len) == p
  {
    var t := (p - lo) / len;
    calc {
      Axis(Unaxis(p, lo, len), lo, len);
      == t * len + lo;
      == (p - lo) + lo;
    }
  }

  /** On a canvas of non-negative size the device square lands inside the canvas. */
  lemma SquareMapsIntoRect(ndc: Point2, r: Rect)
    requires r.width >= 0.0 && r.height >= 0.0
    requires InNdcSquare(ndc)
    ensures InRect(ToPixel(ndc, r), r)
  {
    AxisInRange(ndc.x, r.left, r.width);
    AxisInRange(-ndc.y, r.top, r.height);
  }

  /** Pixel x grows with device x, while pixel y shrinks as device y grows. */
  lemma Orientation(a: Point2, b: Point2, r: Rect)
    requires r.width > 0.0 && r.height > 0.0
    ensures a.x < b.x ==> ToPixel(a, r).x < ToPixel(b, r).x
    ensures a.y < b.y ==> ToPixel(a, r).y > ToPixel(b, r).y
  {
    if a.x < b.x {
      AxisIncreasing(a.x, b.x, r.left, r.width);
    }
    if a.y < b.y {
      AxisIncreasing(-b.y, -a.y, r.top, r.height);
    }
  }

  /** Mapping to pixels and back returns the device coordinates. */
  lemma NdcRoundTrip(ndc: Point2, r: Rect)
    requires r.width != 0.0 && r.height != 0.0
    ensures ToNdc(ToPixel(ndc, r), r) == ndc
  {
    UnaxisAxis(ndc.x, r.left, r.width);
    UnaxisAxis(-ndc.y, r.top, r.height);
  }

  /** Mapping a pixel to device coordinates and back returns the pixel. */
  lemma PixelRoundTrip(p: Point2, r: Rect)
    requires r.width != 0.0 && r.height != 0.0
    ensures ToPixel(ToNdc(p, r), r) == p
  {
    AxisUnaxis(p.x, r.left, r.width);
    AxisUnaxis(p.y, r.top, r.height);
  }
}
