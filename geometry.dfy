/**
 * Values shared by both coverage solvers: closed ranges on one axis,
 * axis-aligned rectangles in (distance, light) space, points of that space,
 * and the comparison tolerance.
 *
 * Numbers are modelled as mathematical reals; IEEE-754 rounding is not modelled.
 */
module Geometry {

  datatype Option<T> = None | Some(value: T)

  /** A closed interval [min, max] on one axis; nothing forces min <= max. */
  datatype Range = Range(min: real, max: real)

  /** An axis-aligned box: a distance range paired with a light range. */
  datatype Rect = Rect(distanceRange: Range, lightRange: Range)

  /** A point of (distance, light) space. */
  datatype Point = Point(distance: real, light: real)

  /** A comparison tolerance; the source always uses Number.EPSILON. */
  type Tolerance = e: real | 0.0 <= e witness 0.0

  /** Number.EPSILON, the gap between 1 and the next double: 2^-52. */
  const NumberEpsilon: Tolerance := 1.0 / 4503599627370496.0

  function Max(a: real, b: real): real { if a >= b then a else b }

  function Min(a: real, b: real): real { if a <= b then a else b }

  function Abs(x: real): real { if x < 0.0 then -x else x }

  predicate IsValidRange(r: Range) { r.min <= r.max }

  predicate IsValidRect(r: Rect) { IsValidRange(r.distanceRange) && IsValidRange(r.lightRange) }

  /** Both axes have positive width, so the rectangle has interior points. */
  predicate IsProper(r: Rect) {
    r.distanceRange.min < r.distanceRange.max && r.lightRange.min < r.lightRange.max
  }

  predicate InRange(x: real, r: Range) { r.min <= x <= r.max }

  predicate InOpenRange(x: real, r: Range) { r.min < x < r.max }

  predicate InRect(p: Point, r: Rect) {
    InRange(p.distance, r.distanceRange) && InRange(p.light, r.lightRange)
  }

  /** The interiors of two ranges share a point. */
  predicate OpenOverlap(a: Range, b: Range) { Max(a.min, b.min) < Min(a.max, b.max) }

  /** The interiors of two rectangles share a point. */
  predicate RectOpenOverlap(a: Rect, b: Rect) {
    OpenOverlap(a.distanceRange, b.distanceRange) && OpenOverlap(a.lightRange, b.lightRange)
  }

  predicate RangeWithin(inner: Range, outer: Range) {
    outer.min <= inner.min && inner.max <= outer.max
  }

  /** The bounds of `inner` lie within the bounds of `outer` on both axes. */
  predicate RectWithin(inner: Rect, outer: Rect) {
    RangeWithin(inner.distanceRange, outer.distanceRange) && RangeWithin(inner.lightRange, outer.lightRange)
  }

  /** Every point of `target` lies in at least one of `rects`. */
  ghost predicate Covers(rects: seq<Rect>, target: Rect) {
    forall p: Point :: InRect(p, target) ==> exists k :: 0 <= k < |rects| && InRect(p, rects[k])
  }

  /** Within an open interval there is a sub-interval that no bound of `rs` falls into. */
  lemma {:induction false} FreeSubInterval(lo: real, hi: real, rs: seq<Range>) returns (a: real, b: real)
    requires lo < hi
    ensures lo <= a < b <= hi
    ensures forall k :: 0 <= k < |rs| ==> !(a < rs[k].min < b) && !(a < rs[k].max < b)
  {
    if rs == [] {
      a, b := lo, hi;
    } else {
      var a0, b0 := FreeSubInterval(lo, hi, rs[..|rs| - 1]);
      var r := rs[|rs| - 1];
      a, b := a0, b0;
      if a < r.min < b { b := r.min; }
      if a < r.max < b { b := r.max; }
      forall k | 0 <= k < |rs| - 1
        ensures !(a < rs[k].min < b) && !(a < rs[k].max < b)
      {
        assert rs[k] == rs[..|rs| - 1][k];
      }
    }
  }

  /** A point of an open interval that equals no bound of `rs`. */
  lemma AvoidingPoint(lo: real, hi: real, rs: seq<Range>) returns (x: real)
    requires lo < hi
    ensures lo < x < hi
    ensures forall k :: 0 <= k < |rs| ==> x != rs[k].min && x != rs[k].max
  {
    var a, b := FreeSubInterval(lo, hi, rs);
    x := (a + b) / 2.0;
  }
}
