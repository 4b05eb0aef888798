/**
 The segment record built by the `btn` click handler of main.js, and the
 radius edit that `updateNewGeometry` applies to it.

 Points are triples of `real`. The library call `start.distanceTo(end)` is a
 square root the model does not compute: it arrives as a parameter that is
 required to BE that distance (non-negative, squaring to the squared
 distance).
 */
module Segments {
  import Radius

  datatype Vec3 = Vec3(x: real, y: real, z: real)

  function Add(a: Vec3, b: Vec3): Vec3 {
    Vec3(a.x + b.x, a.y + b.y, a.z + b.z)
  }

  function Sub(a: Vec3, b: Vec3): Vec3 {
    Vec3(a.x - b.x, a.y - b.y, a.z - b.z)
  }

  function Scale(a: Vec3, k: real): Vec3 {
    Vec3(a.x * k, a.y * k, a.z * k)
  }

  /** The square of a real. */
  function Sq(v: real): real {
    v * v
  }

  /** Squared Euclidean distance between two points. */
  function SqDist(a: Vec3, b: Vec3): real {
    var d := Sub(b, a);
    Sq(d.x) + Sq(d.y) + Sq(d.z)
  }

  /** `d` is the Euclidean distance from `a` to `b`, as `distanceTo` computes it. */
  predicate IsDistance(d: real, a: Vec3, b: Vec3) {
    d >= 0.0 && Sq(d) == SqDist(a, b)
  }

  lemma SqOfPositive(v: real)
    requires v > 0.0
    ensures Sq(v) > 0.0
  {
    calc {
      Sq(v);
      == v * v;
      > 0.0;
    }
  }

  lemma SqOfNegative(v: real)
    requires v < 0.0
    ensures Sq(v) > 0.0
  {
    calc {
      Sq(v);
      == v * v;
      > 0.0;
    }
  }

  /** A square is never negative, and it is zero only for zero. */
  lemma SqZeroIff(v: real)
    ensures Sq(v) >= 0.0
    ensures Sq(v) == 0.0 <==> v == 0.0
  {
    if v > 0.0 {
      SqOfPositive(v);
    } else if v < 0.0 {
      SqOfNegative(v);
    }
  }

  /** The squared distance is never negative, and it is zero only between equal points. */
  lemma SqDistZeroIff(a: Vec3, b: Vec3)
    ensures SqDist(a, b) >= 0.0
    ensures SqDist(a, b) == 0.0 <==> a == b
  {
    var v := Sub(b, a);
    SqZeroIff(v.x);
    SqZeroIff(v.y);
    SqZeroIff(v.z);
  }

  /** A distance is zero exactly when the two points coincide. */
  lemma DistanceZeroIff(d: real, a: Vec3, b: Vec3)
    requires IsDistance(d, a, b)
    ensures d == 0.0 <==> a == b
  {
    SqDistZeroIff(a, b);
    SqZeroIff(d);
  }

  /** The mesh position: the two endpoints added, then scaled by one half. */
  function Midpoint(a: Vec3, b: Vec3): (m: Vec3)
    ensures m == Add(a, Scale(Sub(b, a), 0.5))
    ensures SqDist(a, m) == SqDist(m, b)
    ensures 4.0 * SqDist(a, m) == SqDist(a, b)
  {
    Scale(Add(a, b), 0.5)
  }

  /**
   The record the source attaches to a cylinder: the two endpoints as typed,
   the two sanitised radii, and the height (the endpoint distance).
   */
  datatype Segment = Segment(startPoint: Vec3, endPoint: Vec3,
                             baseRadius: real, topRadius: real, height: real)

  /** What every stored record satisfies. */
  predicate Valid(s: Segment) {
    && Radius.InRange(s.baseRadius)
    && Radius.InRange(s.topRadius)
    && IsDistance(s.height, s.startPoint, s.endPoint)
  }

  /**
   The record the `btn` handler stores: endpoints as given, both radii
   sanitised from their raw field values, and the height taken from
   `distanceTo`.
   */
  function NewSegment(start: Vec3, end: Vec3, baseRaw: Radius.Parsed, topRaw: Radius.Parsed,
                      distance: real): (s: Segment)
    requires IsDistance(distance, start, end)
    ensures Valid(s)
    ensures s.startPoint == start && s.endPoint == end
    ensures s.baseRadius == Radius.ValidRadius(baseRaw)
    ensures s.topRadius == Radius.ValidRadius(topRaw)
    ensures s.height >= 0.0
    ensures s.height == 0.0 <==> start == end
  {
    DistanceZeroIff(distance, start, end);
    Segment(start, end, Radius.ValidRadius(baseRaw), Radius.ValidRadius(topRaw), distance)
  }

  /**
   The record half of `updateNewGeometry`: both radii are overwritten with
   sanitised values; the endpoints and the stored height are kept.
   */
  function WithRadii(s: Segment, baseRaw: Radius.Parsed, topRaw: Radius.Parsed): (t: Segment)
    ensures t.startPoint == s.startPoint && t.endPoint == s.endPoint
    ensures t.height == s.height
    ensures Radius.InRange(t.baseRadius) && Radius.InRange(t.topRadius)
    ensures Valid(s) ==> Valid(t)
    ensures t.baseRadius == Radius.ValidRadius(baseRaw) && t.topRadius == Radius.ValidRadius(topRaw)
  {
    s.(baseRadius := Radius.ValidRadius(baseRaw), topRadius := Radius.ValidRadius(topRaw))
  }

  /** Editing twice with the same raw values gives the record editing once gives. */
  lemma WithRadiiIdempotent(s: Segment, baseRaw: Radius.Parsed, topRaw: Radius.Parsed)
    ensures WithRadii(WithRadii(s, baseRaw, topRaw), baseRaw, topRaw) == WithRadii(s, baseRaw, topRaw)
  {
  }

  /** Feeding a valid record its own radii back leaves it as it is. */
  lemma WithOwnRadii(s: Segment)
    requires Valid(s)
    ensures WithRadii(s, Radius.Num(s.baseRadius), Radius.Num(s.topRadius)) == s
  {
    Radius.FixedPoints(s.baseRadius);
    Radius.FixedPoints(s.topRadius);
  }

  /** A segment parallel to the vertical axis has its vertical extent as its length. */
  lemma VerticalDistance(a: Vec3, h: real)
    requires h >= 0.0
    ensures IsDistance(h, a, Vec3(a.x, a.y + h, a.z))
  {
    assert Sub(Vec3(a.x, a.y + h, a.z), a) == Vec3(0.0, h, 0.0);
    assert Sq(0.0) == 0.0;
  }

  /**
   The worked case: from a point to the point 10 above it, with radius fields
   "5" and "-3", the record holds radii 5 and 3 and height 10.
   */
  lemma VerticalExample(p: Vec3)
    ensures IsDistance(10.0, p, Vec3(p.x, p.y + 10.0, p.z))
    ensures var s := NewSegment(p, Vec3(p.x, p.y + 10.0, p.z), Radius.Num(5.0), Radius.Num(-3.0), 10.0);
            s.baseRadius == 5.0 && s.topRadius == 3.0 && s.height == 10.0
  {
    VerticalDistance(p, 10.0);
  }

  /** The degenerate case: equal endpoints give a record of height 0. */
  lemma DegenerateExample(p: Vec3, baseRaw: Radius.Parsed, topRaw: Radius.Parsed)
    ensures IsDistance(0.0, p, p)
    ensures NewSegment(p, p, baseRaw, topRaw, 0.0).height == 0.0
  {
  }
}
