/**
 * The exact coverage check of the Problem2 component
 * (src/app/phase2/feature/problem2.component.ts): the target rectangle is
 * cut down by each camera rectangle in turn, and the cameras cover the
 * target when nothing is left.
 *
 * The component compares with Number.EPSILON; here the tolerance is the
 * parameter `eps`, and the geometric guarantees are proved for eps = 0.
 */
module Subtraction {
  import opened Geometry

  /** The two numbers differ by less than the tolerance (symmetric in a and b). */
  function IsEqual(a: real, b: real, eps: Tolerance): (r: bool)
    ensures r <==> a < b + eps && b < a + eps
  {
    Abs(a - b) < eps
  }

  /** `a` is below `b`, or equal to it up to the tolerance. */
  function IsLessOrEqual(a: real, b: real, eps: Tolerance): (r: bool)
    ensures r <==> a < b + eps
    ensures eps == 0.0 ==> (r <==> a < b)
  {
    a < b || IsEqual(a, b, eps)
  }

  /** Intersection of two ranges, accepted when the lower bound exceeds the upper by less than eps. */
  function IntersectRanges(a: Range, b: Range, eps: Tolerance): (r: Option<Range>)
    ensures r.Some? <==> Max(a.min, b.min) < Min(a.max, b.max) + eps
    ensures r.Some? ==> r.value == Range(Max(a.min, b.min), Min(a.max, b.max))
    ensures r.Some? ==> (RangeWithin(r.value, Range(a.min, Min(a.max, b.max)))
                         && RangeWithin(r.value, Range(b.min, Min(a.max, b.max))))
    ensures eps == 0.0 ==> (r.Some? <==> OpenOverlap(a, b))
  {
    var lo := Max(a.min, b.min);
    var hi := Min(a.max, b.max);
    if IsLessOrEqual(lo, hi, eps) then Some(Range(lo, hi)) else None
  }

  /** Intersection of two rectangles: absent when either axis has no intersection. */
  function IntersectRectangles(a: Rect, b: Rect, eps: Tolerance): (r: Option<Rect>)
    ensures r.None? <==> (IntersectRanges(a.distanceRange, b.distanceRange, eps).None?
                          || IntersectRanges(a.lightRange, b.lightRange, eps).None?)
    ensures r.Some? ==> (r.value.distanceRange == IntersectRanges(a.distanceRange, b.distanceRange, eps).value
                         && r.value.lightRange == IntersectRanges(a.lightRange, b.lightRange, eps).value)
    ensures eps == 0.0 ==> (r.Some? <==> RectOpenOverlap(a, b))
  {
    var distance := IntersectRanges(a.distanceRange, b.distanceRange, eps);
    var light := IntersectRanges(a.lightRange, b.lightRange, eps);
    if distance.None? || light.None? then None
    else Some(Rect(distance.value, light.value))
  }

  /** The intersection holds exactly the points common to both ranges. */
  lemma IntersectRangesPoints(a: Range, b: Range, eps: Tolerance, x: real)
    requires IntersectRanges(a, b, eps).Some?
    ensures InRange(x, IntersectRanges(a, b, eps).value) <==> InRange(x, a) && InRange(x, b)
  {
  }

  /** The intersection holds exactly the points common to both rectangles. */
  lemma IntersectRectanglesPoints(a: Rect, b: Rect, eps: Tolerance, p: Point)
    requires IntersectRectangles(a, b, eps).Some?
    ensures InRect(p, IntersectRectangles(a, b, eps).value) <==> InRect(p, a) && InRect(p, b)
  {
  }

  /** Intersection does not depend on the order of its arguments. */
  lemma IntersectRangesSymmetric(a: Range, b: Range, eps: Tolerance)
    ensures IntersectRanges(a, b, eps) == IntersectRanges(b, a, eps)
  {
  }

  /**
   * One strip of `base` outside the intersection `isect`: a left or right strip
   * spans the full light range of `base`, a bottom or top strip spans the
   * distance range of the intersection; each is wider than eps across the cut.
   */
  predicate IsStrip(piece: Rect, base: Rect, isect: Rect, eps: Tolerance) {
    (piece.lightRange == base.lightRange
     && piece.distanceRange.max - piece.distanceRange.min > eps
     && (piece.distanceRange == Range(base.distanceRange.min, isect.distanceRange.min)
         || piece.distanceRange == Range(isect.distanceRange.max, base.distanceRange.max)))
    ||
    (piece.distanceRange == isect.distanceRange
     && piece.lightRange.max - piece.lightRange.min > eps
     && (piece.lightRange == Range(base.lightRange.min, isect.lightRange.min)
         || piece.lightRange == Range(isect.lightRange.max, base.lightRange.max)))
  }

  /** `base` minus `cut`, as up to four strips: left, right, bottom, top. */
  function SubtractRectangles(base: Rect, cut: Rect, eps: Tolerance): (r: seq<Rect>)
    ensures |r| <= 4
    ensures IntersectRectangles(base, cut, eps).None? ==> r == [base]
    ensures IntersectRectangles(base, cut, eps).Some? ==>
      forall k :: 0 <= k < |r| ==> IsStrip(r[k], base, IntersectRectangles(base, cut, eps).value, eps)
  {
    match IntersectRectangles(base, cut, eps)
    case None => [base]
    case Some(isect) =>
      var bd, bl := base.distanceRange, base.lightRange;
      var id, il := isect.distanceRange, isect.lightRange;
      var left := if bd.min < id.min - eps then [Rect(Range(bd.min, id.min), bl)] else [];
      var right := if id.max < bd.max - eps then [Rect(Range(id.max, bd.max), bl)] else [];
      var bottom := if bl.min < il.min - eps then [Rect(id, Range(bl.min, il.min))] else [];
      var top := if il.max < bl.max - eps then [Rect(id, Range(il.max, bl.max))] else [];
      left + right + bottom + top
  }

  /** With no tolerance, every point of `base` is in the intersection or in some strip. */
  lemma SubtractionCoversBase(base: Rect, cut: Rect, p: Point)
    requires InRect(p, base)
    ensures var pieces := SubtractRectangles(base, cut, 0.0);
            var isect := IntersectRectangles(base, cut, 0.0);
            (isect.Some? && InRect(p, isect.value)) || exists k :: 0 <= k < |pieces| && InRect(p, pieces[k])
  {
    var pieces := SubtractRectangles(base, cut, 0.0);
    var isect := IntersectRectangles(base, cut, 0.0);
    if isect.Some? && !InRect(p, isect.value) {
      var i := isect.value;
      var bd, bl := base.distanceRange, base.lightRange;
      var id, il := i.distanceRange, i.lightRange;
      var left := if bd.min < id.min then [Rect(Range(bd.min, id.min), bl)] else [];
      var right := if id.max < bd.max then [Rect(Range(id.max, bd.max), bl)] else [];
      var bottom := if bl.min < il.min then [Rect(id, Range(bl.min, il.min))] else [];
      var top := if il.max < bl.max then [Rect(id, Range(il.max, bl.max))] else [];
      assert pieces == left + right + bottom + top;
      var d, l := p.distance, p.light;
      if d < id.min {
        assert InRect(p, pieces[0]);
      } else if d > id.max {
        assert InRect(p, pieces[|left|]);
      } else if l < il.min {
        assert InRect(p, pieces[|left| + |right|]);
      } else {
        assert InRect(p, pieces[|left| + |right| + |bottom|]);
      }
    } else if isect.None? {
      assert pieces == [base];
      assert InRect(p, pieces[0]);
    }
  }

  /** With no tolerance, every point of a strip is a point of `base`. */
  lemma SubtractionInsideBase(base: Rect, cut: Rect, p: Point)
    requires exists k :: 0 <= k < |SubtractRectangles(base, cut, 0.0)| && InRect(p, SubtractRectangles(base, cut, 0.0)[k])
    ensures InRect(p, base)
  {
    var pieces := SubtractRectangles(base, cut, 0.0);
    var isect := IntersectRectangles(base, cut, 0.0);
    var k :| 0 <= k < |pieces| && InRect(p, pieces[k]);
    if isect.Some? {
      StripInsideBase(pieces[k], base, isect.value);
    }
  }

  /** Exact subtraction: every point of `base` is in the intersection or in a strip, and conversely. */
  lemma SubtractionRebuildsBase(base: Rect, cut: Rect, p: Point)
    ensures var pieces := SubtractRectangles(base, cut, 0.0);
            var isect := IntersectRectangles(base, cut, 0.0);
            InRect(p, base) <==>
              (isect.Some? && InRect(p, isect.value)) || exists k :: 0 <= k < |pieces| && InRect(p, pieces[k])
  {
    if InRect(p, base) {
      SubtractionCoversBase(base, cut, p);
    } else if exists k :: 0 <= k < |SubtractRectangles(base, cut, 0.0)| && InRect(p, SubtractRectangles(base, cut, 0.0)[k]) {
      SubtractionInsideBase(base, cut, p);
    }
  }

  /** With no tolerance, a strip lies inside `base` and is disjoint from the intersection's interior. */
  lemma StripInsideBase(piece: Rect, base: Rect, isect: Rect)
    requires RectWithin(isect, base) && IsProper(isect)
    requires IsStrip(piece, base, isect, 0.0)
    ensures RectWithin(piece, base) && IsProper(piece)
    ensures !RectOpenOverlap(piece, isect)
  {
  }

  /** With no tolerance the strips are proper rectangles inside `base`, and none overlaps the interior of `cut`. */
  lemma SubtractionPiecesInside(base: Rect, cut: Rect)
    requires IsProper(base)
    ensures var pieces := SubtractRectangles(base, cut, 0.0);
            forall k :: 0 <= k < |pieces| ==>
              RectWithin(pieces[k], base) && IsProper(pieces[k]) && !RectOpenOverlap(pieces[k], cut)
  {
    var pieces := SubtractRectangles(base, cut, 0.0);
    var isect := IntersectRectangles(base, cut, 0.0);
    if isect.Some? {
      forall k | 0 <= k < |pieces|
        ensures RectWithin(pieces[k], base) && IsProper(pieces[k]) && !RectOpenOverlap(pieces[k], cut)
      {
        StripInsideBase(pieces[k], base, isect.value);
      }
    }
  }

  /** With no tolerance the interiors of the strips are pairwise disjoint. */
  lemma SubtractionPiecesApart(base: Rect, cut: Rect)
    ensures var pieces := SubtractRectangles(base, cut, 0.0);
            forall j, k :: 0 <= j < k < |pieces| ==> !RectOpenOverlap(pieces[j], pieces[k])
  {
    var pieces := SubtractRectangles(base, cut, 0.0);
    var isect := IntersectRectangles(base, cut, 0.0);
    if isect.Some? {
      var i := isect.value;
      var bd, bl := base.distanceRange, base.lightRange;
      var id, il := i.distanceRange, i.lightRange;
      var l, r := Rect(Range(bd.min, id.min), bl), Rect(Range(id.max, bd.max), bl);
      var b, t := Rect(id, Range(bl.min, il.min)), Rect(id, Range(il.max, bl.max));
      var left := if bd.min < id.min then [l] else [];
      var right := if id.max < bd.max then [r] else [];
      var bottom := if bl.min < il.min then [b] else [];
      var top := if il.max < bl.max then [t] else [];
      assert pieces == left + right + bottom + top;
      assert id.min < id.max && il.min < il.max;
      assert !RectOpenOverlap(l, r) && !RectOpenOverlap(l, b) && !RectOpenOverlap(l, t);
      assert !RectOpenOverlap(r, b) && !RectOpenOverlap(r, t) && !RectOpenOverlap(b, t);
      assert forall j, k :: 0 <= j < k < |pieces| ==> !RectOpenOverlap(pieces[j], pieces[k]);
    }
  }

  /** Subtracting a rectangle that contains `base` leaves nothing, for any tolerance. */
  lemma SubtractContainedIsEmpty(base: Rect, cut: Rect, eps: Tolerance)
    requires IsValidRect(base) && RectWithin(base, cut)
    requires eps > 0.0 || IsProper(base)
    ensures SubtractRectangles(base, cut, eps) == []
  {
    var isect := IntersectRectangles(base, cut, eps);
    assert isect.Some?;
    assert isect.value == base;
  }

  /** The strips of every area of `areas` minus `cut`, in order (the inner loop). */
  function SubtractFromAll(areas: seq<Rect>, cut: Rect, eps: Tolerance): seq<Rect>
  {
    if areas == [] then []
    else SubtractFromAll(areas[..|areas| - 1], cut, eps) + SubtractRectangles(areas[|areas| - 1], cut, eps)
  }

  /** The uncovered list after the cameras `cams` have been subtracted from `target`, in order. */
  function Remaining(target: Rect, cams: seq<Rect>, eps: Tolerance): seq<Rect>
  {
    if cams == [] then [target]
    else SubtractFromAll(Remaining(target, cams[..|cams| - 1], eps), cams[|cams| - 1], eps)
  }

  /** Every fragment produced for `areas` is a strip of one of the areas. */
  lemma {:induction false} SubtractFromAllSound(areas: seq<Rect>, cut: Rect, eps: Tolerance, f: Rect)
    requires f in SubtractFromAll(areas, cut, eps)
    ensures exists j :: 0 <= j < |areas| && f in SubtractRectangles(areas[j], cut, eps)
  {
    var init := areas[..|areas| - 1];
    var last := SubtractRectangles(areas[|areas| - 1], cut, eps);
    assert SubtractFromAll(areas, cut, eps) == SubtractFromAll(init, cut, eps) + last;
    if f !in last {
      SubtractFromAllSound(init, cut, eps, f);
      var j :| 0 <= j < |init| && f in SubtractRectangles(init[j], cut, eps);
      assert areas[j] == init[j];
    }
  }

  /** Every strip of every area is kept in the fragments produced for `areas`. */
  lemma {:induction false} SubtractFromAllComplete(areas: seq<Rect>, cut: Rect, eps: Tolerance, j: nat, f: Rect)
    requires j < |areas| && f in SubtractRectangles(areas[j], cut, eps)
    ensures f in SubtractFromAll(areas, cut, eps)
  {
    var init := areas[..|areas| - 1];
    var last := SubtractRectangles(areas[|areas| - 1], cut, eps);
    assert SubtractFromAll(areas, cut, eps) == SubtractFromAll(init, cut, eps) + last;
    if j < |init| {
      assert areas[j] == init[j];
      SubtractFromAllComplete(init, cut, eps, j, f);
    }
  }

  /** Once nothing is left, later cameras leave nothing either (the early exit is sound). */
  lemma {:induction false} RemainingStaysEmpty(target: Rect, cams: seq<Rect>, i: nat, eps: Tolerance)
    requires i <= |cams|
    requires Remaining(target, cams[..i], eps) == []
    ensures Remaining(target, cams, eps) == []
    decreases |cams| - i
  {
    if i < |cams| {
      assert cams[..i + 1][..i] == cams[..i];
      assert Remaining(target, cams[..i + 1], eps) == [];
      RemainingStaysEmpty(target, cams, i + 1, eps);
    } else {
      assert cams[..i] == cams;
    }
  }

  /** What every fragment satisfies, with no tolerance, after the cameras `cams`. */
  ghost predicate FragmentInvariant(f: Rect, target: Rect, cams: seq<Rect>) {
    RectWithin(f, target) && IsProper(f)
    && forall k :: 0 <= k < |cams| ==> !RectOpenOverlap(f, cams[k])
  }

  lemma WithinKeepsApart(inner: Rect, outer: Rect, c: Rect)
    requires RectWithin(inner, outer) && !RectOpenOverlap(outer, c)
    ensures !RectOpenOverlap(inner, c)
  {
  }

  /** A strip of a fragment is again a fragment, now also apart from the camera just subtracted. */
  lemma StripKeepsInvariant(g: Rect, target: Rect, init: seq<Rect>, cut: Rect, f: Rect)
    requires FragmentInvariant(g, target, init)
    requires f in SubtractRectangles(g, cut, 0.0)
    ensures FragmentInvariant(f, target, init + [cut])
  {
    SubtractionPiecesInside(g, cut);
    var pieces := SubtractRectangles(g, cut, 0.0);
    var m :| 0 <= m < |pieces| && pieces[m] == f;
    var cams := init + [cut];
    forall k | 0 <= k < |cams|
      ensures !RectOpenOverlap(f, cams[k])
    {
      if k < |init| {
        WithinKeepsApart(f, g, init[k]);
      }
    }
  }

  /**
   * With no tolerance and a proper target, every fragment lies inside the target,
   * is proper, and its interior meets no processed camera's interior.
   */
  lemma {:induction false} RemainingFragments(target: Rect, cams: seq<Rect>)
    requires IsProper(target)
    ensures forall f :: f in Remaining(target, cams, 0.0) ==> FragmentInvariant(f, target, cams)
  {
    if cams != [] {
      var init := cams[..|cams| - 1];
      var cut := cams[|cams| - 1];
      var before := Remaining(target, init, 0.0);
      assert cams == init + [cut];
      RemainingFragments(target, init);
      forall f | f in Remaining(target, cams, 0.0)
        ensures FragmentInvariant(f, target, cams)
      {
        SubtractFromAllSound(before, cut, 0.0, f);
        var j :| 0 <= j < |before| && f in SubtractRectangles(before[j], cut, 0.0);
        StripKeepsInvariant(before[j], target, init, cut, f);
      }
    }
  }

  /** With no tolerance, every target point that no processed camera contains lies in some fragment. */
  lemma {:induction false} RemainingComplete(target: Rect, cams: seq<Rect>, p: Point)
    requires InRect(p, target)
    requires forall k :: 0 <= k < |cams| ==> !InRect(p, cams[k])
    ensures exists f :: f in Remaining(target, cams, 0.0) && InRect(p, f)
  {
    if cams == [] {
      assert target in Remaining(target, cams, 0.0);
    } else {
      var init := cams[..|cams| - 1];
      var cut := cams[|cams| - 1];
      var before := Remaining(target, init, 0.0);
      forall k | 0 <= k < |init| ensures !InRect(p, init[k]) {
        assert init[k] == cams[k];
      }
      RemainingComplete(target, init, p);
      var g :| g in before && InRect(p, g);
      var j :| 0 <= j < |before| && before[j] == g;
      SubtractionCoversBase(g, cut, p);
      var pieces := SubtractRectangles(g, cut, 0.0);
      var isect := IntersectRectangles(g, cut, 0.0);
      assert !(isect.Some? && InRect(p, isect.value));
      var m :| 0 <= m < |pieces| && InRect(p, pieces[m]);
      SubtractFromAllComplete(before, cut, 0.0, j, pieces[m]);
    }
  }

  /** Soundness: with no tolerance, an empty uncovered list means the cameras cover the target. */
  lemma EmptyRemainingCovers(target: Rect, cams: seq<Rect>)
    requires Remaining(target, cams, 0.0) == []
    ensures Covers(cams, target)
  {
    forall p | InRect(p, target)
      ensures exists k :: 0 <= k < |cams| && InRect(p, cams[k])
    {
      if forall k :: 0 <= k < |cams| ==> !InRect(p, cams[k]) {
        RemainingComplete(target, cams, p);
      }
    }
  }

  /**
   * Exactness: with no tolerance and a proper target, a fragment that is left
   * over contains a target point that no camera contains.
   */
  lemma NonEmptyRemainingUncovered(target: Rect, cams: seq<Rect>)
    requires IsProper(target)
    requires Remaining(target, cams, 0.0) != []
    ensures !Covers(cams, target)
  {
    var f := Remaining(target, cams, 0.0)[0];
    RemainingFragments(target, cams);
    assert FragmentInvariant(f, target, cams);
    var distances := seq(|cams|, k requires 0 <= k < |cams| => cams[k].distanceRange);
    var lights := seq(|cams|, k requires 0 <= k < |cams| => cams[k].lightRange);
    var x := AvoidingPoint(f.distanceRange.min, f.distanceRange.max, distances);
    var y := AvoidingPoint(f.lightRange.min, f.lightRange.max, lights);
    var p := Point(x, y);
    assert InRect(p, target);
    forall k | 0 <= k < |cams| ensures !InRect(p, cams[k]) {
      assert distances[k] == cams[k].distanceRange && lights[k] == cams[k].lightRange;
      assert !RectOpenOverlap(f, cams[k]);
    }
  }

  /** With no tolerance and a proper target, the subtraction answer is exactly "the cameras cover the target". */
  lemma RemainingEmptyIffCovered(target: Rect, cams: seq<Rect>)
    requires IsProper(target)
    ensures Remaining(target, cams, 0.0) == [] <==> Covers(cams, target)
  {
    if Remaining(target, cams, 0.0) == [] {
      EmptyRemainingCovers(target, cams);
    } else {
      NonEmptyRemainingUncovered(target, cams);
    }
  }

  /**
   * Returns true when the cameras together cover the target rectangle:
   * the target is cut down by each camera in turn, stopping as soon as
   * nothing is left. No cameras means no coverage.
   */
  method CanCamerasMeetRequirements(target: Rect, cameras: seq<Rect>, eps: Tolerance) returns (ok: bool)
    ensures ok <==> SolverSaysCovered(target, cameras, eps)
    ensures eps == 0.0 && ok ==> Covers(cameras, target)
    ensures eps == 0.0 && IsProper(target) ==> (ok <==> Covers(cameras, target))
  {
    if |cameras| == 0 {
      if eps == 0.0 && IsProper(target) {
        RemainingEmptyIffCovered(target, cameras);
      }
      return false;
    }
    var uncovered := [target];
    var i := 0;
    while i < |cameras|
      invariant 0 <= i <= |cameras|
      invariant uncovered == Remaining(target, cameras[..i], eps)
      invariant uncovered != []
    {
      assert cameras[..i + 1][..i] == cameras[..i];
      uncovered := SubtractFromEach(uncovered, cameras[i], eps);
      i := i + 1;
      if |uncovered| == 0 {
        RemainingStaysEmpty(target, cameras, i, eps);
        if eps == 0.0 {
          EmptyRemainingCovers(target, cameras);
        }
        return true;
      }
    }
    assert cameras[..i] == cameras;
    ok := |uncovered| == 0;
    if eps == 0.0 && IsProper(target) {
      RemainingEmptyIffCovered(target, cameras);
    }
  }

  /** The inner loop of the check: the strips of each uncovered area minus one camera, in order. */
  method SubtractFromEach(uncovered: seq<Rect>, camera: Rect, eps: Tolerance) returns (next: seq<Rect>)
    ensures next == SubtractFromAll(uncovered, camera, eps)
  {
    next := [];
    var j := 0;
    while j < |uncovered|
      invariant 0 <= j <= |uncovered|
      invariant next == SubtractFromAll(uncovered[..j], camera, eps)
    {
      assert uncovered[..j + 1][..j] == uncovered[..j];
      next := next + SubtractRectangles(uncovered[j], camera, eps);
      j := j + 1;
    }
    assert uncovered[..j] == uncovered;
  }

  /** Spec-level verdict of the solver, as the method computes it. */
  ghost predicate SolverSaysCovered(target: Rect, cams: seq<Rect>, eps: Tolerance) {
    |cams| > 0 && Remaining(target, cams, eps) == []
  }

  /** A camera containing a proper target makes the verdict true (no tolerance). */
  lemma ContainingCameraCovers(target: Rect, cams: seq<Rect>, k: nat)
    requires IsProper(target) && k < |cams| && RectWithin(target, cams[k])
    ensures SolverSaysCovered(target, cams, 0.0)
  {
    forall p | InRect(p, target) ensures exists m :: 0 <= m < |cams| && InRect(p, cams[m]) {
      assert InRect(p, cams[k]);
    }
    RemainingEmptyIffCovered(target, cams);
  }

  /** A single camera equal to a valid target covers it whenever the tolerance is positive, as in the source. */
  lemma SelfCover(target: Rect, eps: Tolerance)
    requires IsValidRect(target)
    requires eps > 0.0 || IsProper(target)
    ensures SolverSaysCovered(target, [target], eps)
  {
    assert [target][..0] == [];
    SubtractContainedIsEmpty(target, target, eps);
    assert Remaining(target, [target], eps) == SubtractFromAll([target], target, eps);
    assert [target][..0] == [];
  }

  /** With no tolerance, a target of zero width on either axis meets no camera's interior and is never cut. */
  lemma {:induction false} ImproperStaysWhole(target: Rect, cams: seq<Rect>)
    requires !IsProper(target)
    ensures Remaining(target, cams, 0.0) == [target]
  {
    if cams != [] {
      ImproperStaysWhole(target, cams[..|cams| - 1]);
      var cut := cams[|cams| - 1];
      assert IntersectRectangles(target, cut, 0.0).None?;
      assert SubtractFromAll([target], cut, 0.0) == SubtractFromAll([], cut, 0.0) + SubtractRectangles(target, cut, 0.0);
    }
  }

  /** With no tolerance, a target of zero width on either axis is never reported as covered. */
  lemma ImproperNeverCovered(target: Rect, cams: seq<Rect>)
    requires !IsProper(target)
    ensures !SolverSaysCovered(target, cams, 0.0)
  {
    ImproperStaysWhole(target, cams);
  }

  /** With no tolerance, the verdict does not depend on the cameras' order. */
  lemma OrderIndependent(target: Rect, cams: seq<Rect>, perm: seq<Rect>)
    requires multiset(cams) == multiset(perm)
    ensures SolverSaysCovered(target, cams, 0.0) <==> SolverSaysCovered(target, perm, 0.0)
  {
    if !IsProper(target) {
      ImproperNeverCovered(target, cams);
      ImproperNeverCovered(target, perm);
      return;
    }
    RemainingEmptyIffCovered(target, cams);
    RemainingEmptyIffCovered(target, perm);
    assert |cams| == |multiset(cams)| == |multiset(perm)| == |perm|;
    if Covers(cams, target) {
      forall p | InRect(p, target) ensures exists m :: 0 <= m < |perm| && InRect(p, perm[m]) {
        var k :| 0 <= k < |cams| && InRect(p, cams[k]);
        assert cams[k] in multiset(perm);
        var m :| 0 <= m < |perm| && perm[m] == cams[k];
      }
    }
    if Covers(perm, target) {
      forall p | InRect(p, target) ensures exists m :: 0 <= m < |cams| && InRect(p, cams[m]) {
        var k :| 0 <= k < |perm| && InRect(p, perm[k]);
        assert perm[k] in multiset(cams);
        var m :| 0 <= m < |cams| && cams[m] == perm[k];
      }
    }
  }

  /** With no tolerance, adding cameras never turns a true verdict false. */
  lemma Monotone(target: Rect, cams: seq<Rect>, more: seq<Rect>)
    requires forall k :: 0 <= k < |cams| ==> cams[k] in more
    requires SolverSaysCovered(target, cams, 0.0)
    ensures SolverSaysCovered(target, more, 0.0)
  {
    if !IsProper(target) {
      ImproperNeverCovered(target, cams);
      assert false;
    }
    RemainingEmptyIffCovered(target, cams);
    RemainingEmptyIffCovered(target, more);
    forall p | InRect(p, target) ensures exists m :: 0 <= m < |more| && InRect(p, more[m]) {
      var k :| 0 <= k < |cams| && InRect(p, cams[k]);
      var m :| 0 <= m < |more| && more[m] == cams[k];
    }
  }

  /** The source's own tolerance: a camera equal to the target always covers it. */
  lemma SourceToleranceSelfCover(target: Rect)
    requires IsValidRect(target)
    ensures SolverSaysCovered(target, [target], NumberEpsilon)
  {
    SelfCover(target, NumberEpsilon);
  }

  // ----- what a positive tolerance does -----

  /** One area minus one camera is the strips of that area. */
  lemma SubtractFromSingle(area: Rect, cut: Rect, eps: Tolerance)
    ensures SubtractFromAll([area], cut, eps) == SubtractRectangles(area, cut, eps)
  {
    assert [area][..0] == [];
  }

  /**
   * A near miss leaks past the base: a camera starting beyond the right edge
   * of `base` by less than eps is accepted as an intersection with inverted
   * distance bounds, and the left strip then reaches past that edge.
   */
  lemma NearMissLeaks(lo: real, hi: real, far: real, light: Range, d: real, eps: Tolerance)
    requires 0.0 < d < eps && lo < hi + d - eps && hi + d <= far && IsValidRange(light)
    ensures var pieces := SubtractRectangles(Rect(Range(lo, hi), light), Rect(Range(hi + d, far), light), eps);
            pieces == [Rect(Range(lo, hi + d), light)] && !RectWithin(pieces[0], Rect(Range(lo, hi), light))
  {
  }

  /** One more camera cuts every fragment left by the earlier ones. */
  lemma RemainingSnoc(target: Rect, cams: seq<Rect>, c: Rect, eps: Tolerance)
    ensures Remaining(target, cams + [c], eps) == SubtractFromAll(Remaining(target, cams, eps), c, eps)
  {
    assert (cams + [c])[..|cams|] == cams;
  }

  /** A widened fragment minus the original target keeps the part beyond the target's right edge. */
  lemma WidenedFragmentSurvives(lo: real, hi: real, d: real, light: Range, eps: Tolerance)
    requires lo < hi && eps < d && light.min < light.max
    ensures SubtractRectangles(Rect(Range(lo, hi + d), light), Rect(Range(lo, hi), light), eps) != []
  {
    assert IntersectRectangles(Rect(Range(lo, hi + d), light), Rect(Range(lo, hi), light), eps) == Some(Rect(Range(lo, hi), light));
    assert Rect(Range(hi, hi + d), light) in SubtractRectangles(Rect(Range(lo, hi + d), light), Rect(Range(lo, hi), light), eps);
  }

  /** With any positive tolerance, the target itself as first camera covers it; later cameras change nothing. */
  lemma TargetFirstCovers(target: Rect, rest: seq<Rect>, eps: Tolerance)
    requires IsValidRect(target) && eps > 0.0
    ensures SolverSaysCovered(target, [target] + rest, eps)
  {
    SelfCover(target, eps);
    assert ([target] + rest)[..1] == [target];
    RemainingStaysEmpty(target, [target] + rest, 1, eps);
  }

  /** When a single fragment is left, a near miss beyond its right edge widens it past that edge. */
  lemma NearMissWidensFragment(target: Rect, cams: seq<Rect>, lo: real, hi: real, far: real, light: Range, d: real, eps: Tolerance)
    requires Remaining(target, cams, eps) == [Rect(Range(lo, hi), light)]
    requires 0.0 < d < eps && lo < hi + d - eps && hi + d <= far && IsValidRange(light)
    ensures Remaining(target, cams + [Rect(Range(hi + d, far), light)], eps) == [Rect(Range(lo, hi + d), light)]
  {
    RemainingSnoc(target, cams, Rect(Range(hi + d, far), light), eps);
    SubtractFromSingle(Rect(Range(lo, hi), light), Rect(Range(hi + d, far), light), eps);
    NearMissLeaks(lo, hi, far, light, d, eps);
  }

  /** Two near misses beyond the right edge of the target widen its single fragment past that edge. */
  lemma NearMissesWiden(lo: real, hi: real, far: real, light: Range, d1: real, d2: real, eps: Tolerance)
    requires 0.0 < d1 < eps && d1 < d2 < d1 + eps && lo < hi + d1 - eps && hi + d2 <= far && IsValidRange(light)
    ensures Remaining(Rect(Range(lo, hi), light), [Rect(Range(hi + d1, far), light), Rect(Range(hi + d2, far), light)], eps)
            == [Rect(Range(lo, hi + d2), light)]
  {
    var target := Rect(Range(lo, hi), light);
    var a, b := Rect(Range(hi + d1, far), light), Rect(Range(hi + d2, far), light);
    assert Remaining(target, [], eps) == [target];
    NearMissWidensFragment(target, [], lo, hi, far, light, d1, eps);
    assert [] + [a] == [a];
    NearMissWidensFragment(target, [a], lo, hi + d1, far, light, d2 - d1, eps);
    assert hi + d1 + (d2 - d1) == hi + d2;
    assert [a] + [b] == [a, b];
  }

  /** After two near misses have widened the fragment, the target as third camera leaves a piece. */
  lemma NearMissesFirstLeave(lo: real, hi: real, far: real, light: Range, d1: real, d2: real, eps: Tolerance)
    requires 0.0 < d1 < eps < d2 < d1 + eps && lo < hi + d1 - eps && hi + d2 <= far && light.min < light.max
    ensures var target := Rect(Range(lo, hi), light);
            Remaining(target, [Rect(Range(hi + d1, far), light), Rect(Range(hi + d2, far), light), target], eps) != []
  {
    var target := Rect(Range(lo, hi), light);
    var a, b := Rect(Range(hi + d1, far), light), Rect(Range(hi + d2, far), light);
    var second := Rect(Range(lo, hi + d2), light);
    NearMissesWiden(lo, hi, far, light, d1, d2, eps);
    RemainingSnoc(target, [a, b], target, eps);
    SubtractFromSingle(second, target, eps);
    WidenedFragmentSurvives(lo, hi, d2, light, eps);
    assert [a, b, target] == [a, b] + [target];
  }

  /**
   * With a positive tolerance, fragments grow past the target, so the verdict
   * depends on the cameras' order, and a list holding a camera equal to the
   * target can still be rejected: the target first covers everything, but two
   * near misses first widen the fragment so that the target no longer does.
   */
  lemma ToleranceOrderMatters(eps: Tolerance)
    requires 0.0 < eps < 20.0
    ensures var target := Rect(Range(0.0, 10.0), Range(0.0, 10.0));
            var a := Rect(Range(10.0 + eps / 2.0, 40.0), Range(0.0, 10.0));
            var b := Rect(Range(10.0 + 7.0 * eps / 5.0, 40.0), Range(0.0, 10.0));
            SolverSaysCovered(target, [target, a, b], eps) && !SolverSaysCovered(target, [a, b, target], eps)
  {
    var target := Rect(Range(0.0, 10.0), Range(0.0, 10.0));
    var a := Rect(Range(10.0 + eps / 2.0, 40.0), Range(0.0, 10.0));
    var b := Rect(Range(10.0 + 7.0 * eps / 5.0, 40.0), Range(0.0, 10.0));
    TargetFirstCovers(target, [a, b], eps);
    assert [target] + [a, b] == [target, a, b];
    NearMissesFirstLeave(0.0, 10.0, 40.0, Range(0.0, 10.0), eps / 2.0, 7.0 * eps / 5.0, eps);
  }

  /** At the source's own tolerance Number.EPSILON the verdict already depends on the cameras' order. */
  lemma SourceToleranceOrderMatters()
    ensures var target := Rect(Range(0.0, 10.0), Range(0.0, 10.0));
            var a := Rect(Range(10.0 + NumberEpsilon / 2.0, 40.0), Range(0.0, 10.0));
            var b := Rect(Range(10.0 + 7.0 * NumberEpsilon / 5.0, 40.0), Range(0.0, 10.0));
            SolverSaysCovered(target, [target, a, b], NumberEpsilon) && !SolverSaysCovered(target, [a, b, target], NumberEpsilon)
  {
    ToleranceOrderMatters(NumberEpsilon);
  }
}
