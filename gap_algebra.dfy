/**
 * The one-axis range algebra of the gap-diagnostic solver (test.ts):
 * exact range and rectangle intersection, merging of overlapping or
 * adjacent ranges, and the sweep that lists the gaps left in a required
 * range. The tolerance Number.EPSILON used by the merge and the sweep is
 * the parameter `eps`.
 */
module GapAlgebra {
  import opened Geometry

  /** Exact intersection of two ranges (no tolerance). */
  function IntersectRanges(a: Range, b: Range): (r: Option<Range>)
    ensures r.Some? ==> IsValidRange(r.value) && RangeWithin(r.value, a) && RangeWithin(r.value, b)
  {
    var lo := Max(a.min, b.min);
    var hi := Min(a.max, b.max);
    if lo <= hi then Some(Range(lo, hi)) else None
  }

  /** A point is in both ranges exactly when the intersection exists and holds it. */
  lemma IntersectRangesPoints(a: Range, b: Range, x: real)
    ensures InRange(x, a) && InRange(x, b) <==> IntersectRanges(a, b).Some? && InRange(x, IntersectRanges(a, b).value)
  {
  }

  /** The intersection exists exactly when the ranges share a point. */
  lemma IntersectRangesNonEmpty(a: Range, b: Range)
    ensures IntersectRanges(a, b).Some? <==> exists x :: InRange(x, a) && InRange(x, b)
  {
    if IntersectRanges(a, b).Some? {
      var x := IntersectRanges(a, b).value.min;
      assert InRange(x, a) && InRange(x, b);
    } else {
      forall x ensures !(InRange(x, a) && InRange(x, b)) {
        IntersectRangesPoints(a, b, x);
      }
    }
  }

  /** Intersection does not depend on the order of its arguments. */
  lemma IntersectRangesSymmetric(a: Range, b: Range)
    ensures IntersectRanges(a, b) == IntersectRanges(b, a)
  {
  }

  /** Exact intersection of two coverage rectangles: absent when either axis is. */
  function IntersectCoverage(a: Rect, b: Rect): (r: Option<Rect>)
    ensures r.None? <==> (IntersectRanges(a.distanceRange, b.distanceRange).None?
                          || IntersectRanges(a.lightRange, b.lightRange).None?)
    ensures r.Some? ==> IsValidRect(r.value) && RectWithin(r.value, a) && RectWithin(r.value, b)
  {
    var distance := IntersectRanges(a.distanceRange, b.distanceRange);
    var light := IntersectRanges(a.lightRange, b.lightRange);
    if distance.None? || light.None? then None else Some(Rect(distance.value, light.value))
  }

  /** A point is in both rectangles exactly when the intersection exists and holds it. */
  lemma IntersectCoveragePoints(a: Rect, b: Rect, p: Point)
    ensures InRect(p, a) && InRect(p, b) <==> IntersectCoverage(a, b).Some? && InRect(p, IntersectCoverage(a, b).value)
  {
    IntersectRangesPoints(a.distanceRange, b.distanceRange, p.distance);
    IntersectRangesPoints(a.lightRange, b.lightRange, p.light);
  }

  /** The intersection exists exactly when the rectangles share a point. */
  lemma IntersectCoverageNonEmpty(a: Rect, b: Rect)
    ensures IntersectCoverage(a, b).Some? <==> exists p :: InRect(p, a) && InRect(p, b)
  {
    var r := IntersectCoverage(a, b);
    if r.Some? {
      var p := Point(r.value.distanceRange.min, r.value.lightRange.min);
      assert InRect(p, a) && InRect(p, b);
    } else {
      forall p ensures !(InRect(p, a) && InRect(p, b)) {
        IntersectCoveragePoints(a, b, p);
      }
    }
  }

  // ----- sorting by lower bound -----

  predicate SortedByMin(s: seq<Range>) {
    forall j, k :: 0 <= j < k < |s| ==> s[j].min <= s[k].min
  }

  /** Inserts `x` after every element whose lower bound is not above its own (keeps ties in order). */
  function InsertByMin(s: seq<Range>, x: Range): seq<Range> {
    if s == [] || s[|s| - 1].min <= x.min then s + [x]
    else InsertByMin(s[..|s| - 1], x) + [s[|s| - 1]]
  }

  /** A stable insertion sort by lower bound, as `[...ranges].sort((a, b) => a.min - b.min)`. */
  function SortByMin(s: seq<Range>): seq<Range> {
    if s == [] then [] else InsertByMin(SortByMin(s[..|s| - 1]), s[|s| - 1])
  }

  /** Inserting adds exactly `x`. */
  lemma {:induction false} InsertByMinPermutes(s: seq<Range>, x: Range)
    ensures multiset(InsertByMin(s, x)) == multiset(s) + multiset{x}
  {
    if s != [] && s[|s| - 1].min > x.min {
      var init, last := s[..|s| - 1], s[|s| - 1];
      InsertByMinPermutes(init, x);
      assert InsertByMin(s, x) == InsertByMin(init, x) + [last];
      assert s == init + [last];
    }
  }

  /** Inserting into a sorted list keeps it sorted. */
  lemma {:induction false} InsertByMinSorted(s: seq<Range>, x: Range)
    requires SortedByMin(s)
    ensures SortedByMin(InsertByMin(s, x))
  {
    if s == [] || s[|s| - 1].min <= x.min {
      var r := InsertByMin(s, x);
      assert r == s + [x];
      forall j, k | 0 <= j < k < |r| ensures r[j].min <= r[k].min {
        if k == |s| && j < |s| - 1 {
          assert s[j].min <= s[|s| - 1].min;
        }
      }
    } else {
      var init, last := s[..|s| - 1], s[|s| - 1];
      assert SortedByMin(init);
      InsertByMinSorted(init, x);
      InsertByMinPermutes(init, x);
      var r' := InsertByMin(init, x);
      MembersBelow(r', init, x, last.min);
      assert InsertByMin(s, x) == r' + [last];
    }
  }

  /** Every member of a multiset union of `s` and `x` inherits an upper bound on lower bounds. */
  lemma MembersBelow(r: seq<Range>, s: seq<Range>, x: Range, b: real)
    requires multiset(r) == multiset(s) + multiset{x}
    requires (forall k :: 0 <= k < |s| ==> s[k].min <= b) && x.min <= b
    ensures forall k :: 0 <= k < |r| ==> r[k].min <= b
  {
    forall k | 0 <= k < |r| ensures r[k].min <= b {
      assert r[k] in multiset(r);
      if r[k] != x {
        assert r[k] in multiset(s);
        assert r[k] in s;
      }
    }
  }

  /** The sort returns a permutation of its input. */
  lemma {:induction false} SortByMinPermutes(s: seq<Range>)
    ensures multiset(SortByMin(s)) == multiset(s)
  {
    if s != [] {
      var init, last := s[..|s| - 1], s[|s| - 1];
      SortByMinPermutes(init);
      InsertByMinPermutes(SortByMin(init), last);
      assert SortByMin(s) == InsertByMin(SortByMin(init), last);
      assert s == init + [last];
    }
  }

  /** The sort returns a list sorted by lower bound. */
  lemma {:induction false} SortByMinSorted(s: seq<Range>)
    ensures SortedByMin(SortByMin(s))
  {
    if s != [] {
      var init := s[..|s| - 1];
      SortByMinSorted(init);
      InsertByMinSorted(SortByMin(init), s[|s| - 1]);
    }
  }

  /** The sort returns a permutation of its input, sorted by lower bound. */
  lemma SortByMinSpec(s: seq<Range>)
    ensures SortedByMin(SortByMin(s)) && multiset(SortByMin(s)) == multiset(s)
  {
    SortByMinPermutes(s);
    SortByMinSorted(s);
  }

  /** Equal multisets have the same members. */
  lemma PermutationMembers(a: seq<Range>, b: seq<Range>)
    requires multiset(a) == multiset(b)
    ensures forall j :: 0 <= j < |a| ==> exists k :: 0 <= k < |b| && b[k] == a[j]
  {
    forall j | 0 <= j < |a| ensures exists k :: 0 <= k < |b| && b[k] == a[j] {
      assert a[j] in multiset(a);
      assert a[j] in multiset(b);
      assert a[j] in b;
      var k :| 0 <= k < |b| && b[k] == a[j];
    }
  }

  // ----- merging -----

  /** One step of the merge loop: widen the last merged range, or start a new one. */
  function MergeStep(merged: seq<Range>, current: Range, eps: Tolerance): seq<Range>
    requires merged != []
  {
    var last := merged[|merged| - 1];
    if current.min <= last.max + eps then
      merged[..|merged| - 1] + [Range(last.min, Max(last.max, current.max))]
    else
      merged + [current]
  }

  /** The merge loop run over `s`, starting from its first range. */
  function Coalesce(s: seq<Range>, eps: Tolerance): (m: seq<Range>)
    requires s != []
    ensures 1 <= |m| <= |s|
  {
    if |s| == 1 then [s[0]]
    else MergeStep(Coalesce(s[..|s| - 1], eps), s[|s| - 1], eps)
  }

  /** What mergeRanges returns: nothing for no ranges, else the merge loop over the sorted ranges. */
  function Merged(ranges: seq<Range>, eps: Tolerance): seq<Range> {
    if ranges == [] then [] else Coalesce(SortByMin(ranges), eps)
  }

  /** Consecutive ranges are apart by more than the tolerance. */
  predicate Separated(s: seq<Range>, eps: Tolerance) {
    forall k :: 0 <= k < |s| - 1 ==> s[k].max + eps < s[k + 1].min
  }

  predicate AllValid(s: seq<Range>) {
    forall k :: 0 <= k < |s| ==> IsValidRange(s[k])
  }

  /** `x` lies in `r` or at most eps below its lower bound. */
  predicate InRangeWithSlack(x: real, r: Range, eps: Tolerance) {
    r.min - eps <= x <= r.max
  }

  /** Every point of `m` lies in a range of `rs`, or at most eps below one. */
  ghost predicate WithinSlackOf(m: seq<Range>, rs: seq<Range>, eps: Tolerance) {
    forall k, x :: 0 <= k < |m| && InRange(x, m[k]) ==> exists j :: 0 <= j < |rs| && InRangeWithSlack(x, rs[j], eps)
  }

  /** Over sorted input, no merged range starts after the last input range. */
  lemma {:induction false} CoalesceMinsBelow(s: seq<Range>, eps: Tolerance)
    requires s != [] && SortedByMin(s)
    ensures forall k :: 0 <= k < |Coalesce(s, eps)| ==> Coalesce(s, eps)[k].min <= s[|s| - 1].min
  {
    if |s| > 1 {
      var init := s[..|s| - 1];
      assert SortedByMin(init);
      CoalesceMinsBelow(init, eps);
      var before := Coalesce(init, eps);
      var m := Coalesce(s, eps);
      assert m == MergeStep(before, s[|s| - 1], eps);
      assert init[|init| - 1] == s[|s| - 2];
      assert s[|s| - 2].min <= s[|s| - 1].min;
      forall k | 0 <= k < |m| ensures m[k].min <= s[|s| - 1].min {
        if k < |before| - 1 { assert m[k] == before[k]; }
        else if k == |before| - 1 { assert m[k].min == before[k].min; }
      }
    } else {
      assert Coalesce(s, eps) == [s[0]];
    }
  }

  /** Over sorted input, the merged ranges are sorted by lower bound. */
  lemma {:induction false} CoalesceSorted(s: seq<Range>, eps: Tolerance)
    requires s != [] && SortedByMin(s)
    ensures SortedByMin(Coalesce(s, eps))
  {
    if |s| > 1 {
      var init := s[..|s| - 1];
      assert SortedByMin(init);
      CoalesceSorted(init, eps);
      CoalesceMinsBelow(init, eps);
      var before := Coalesce(init, eps);
      var current := s[|s| - 1];
      var last := before[|before| - 1];
      var m := Coalesce(s, eps);
      assert m == MergeStep(before, current, eps);
      assert init[|init| - 1] == s[|s| - 2];
      assert s[|s| - 2].min <= current.min;
      if current.min <= last.max + eps {
        assert m == before[..|before| - 1] + [Range(last.min, Max(last.max, current.max))];
        forall j, k | 0 <= j < k < |m| ensures m[j].min <= m[k].min {
          assert m[j] == before[j];
          if k < |before| - 1 { assert m[k] == before[k]; }
        }
      } else {
        assert m == before + [current];
        forall j, k | 0 <= j < k < |m| ensures m[j].min <= m[k].min {
          assert m[j] == before[j];
          if k < |before| { assert m[k] == before[k]; }
        }
      }
    } else {
      assert Coalesce(s, eps) == [s[0]];
    }
  }

  /** The merged ranges are apart by more than eps, whatever the input order. */
  lemma {:induction false} CoalesceSeparated(s: seq<Range>, eps: Tolerance)
    requires s != []
    ensures Separated(Coalesce(s, eps), eps)
  {
    if |s| > 1 {
      var init := s[..|s| - 1];
      CoalesceSeparated(init, eps);
      var before := Coalesce(init, eps);
      var current := s[|s| - 1];
      var last := before[|before| - 1];
      var m := Coalesce(s, eps);
      assert m == MergeStep(before, current, eps);
      if current.min <= last.max + eps {
        assert m == before[..|before| - 1] + [Range(last.min, Max(last.max, current.max))];
        forall k | 0 <= k < |m| - 1 ensures m[k].max + eps < m[k + 1].min {
          assert m[k] == before[k];
          if k + 1 < |before| - 1 { assert m[k + 1] == before[k + 1]; }
        }
      } else {
        assert m == before + [current];
        forall k | 0 <= k < |m| - 1 ensures m[k].max + eps < m[k + 1].min {
          assert m[k] == before[k];
          if k + 1 < |before| { assert m[k + 1] == before[k + 1]; }
        }
      }
    } else {
      assert Coalesce(s, eps) == [s[0]];
    }
  }

  /** `r` lies inside one of the ranges `m`. */
  ghost predicate InsideSome(r: Range, m: seq<Range>) {
    exists k :: 0 <= k < |m| && RangeWithin(r, m[k])
  }

  /** Every range of `s` lies inside one of the ranges `m`. */
  ghost predicate Absorbs(m: seq<Range>, s: seq<Range>) {
    forall j :: 0 <= j < |s| ==> InsideSome(s[j], m)
  }

  /** A merge step keeps every earlier merged range inside some new one, and takes in the current range. */
  lemma MergeStepContains(before: seq<Range>, current: Range, eps: Tolerance)
    requires before != [] && before[|before| - 1].min <= current.min
    ensures var m := MergeStep(before, current, eps);
            RangeWithin(current, m[|m| - 1]) && Absorbs(m, before)
  {
    var m := MergeStep(before, current, eps);
    forall k | 0 <= k < |before| ensures InsideSome(before[k], m) {
      assert RangeWithin(before[k], m[k]);
    }
  }

  /** Lying inside is transitive through an intermediate sequence of ranges. */
  lemma AbsorbsTransitive(m: seq<Range>, mid: seq<Range>, s: seq<Range>)
    requires Absorbs(mid, s) && Absorbs(m, mid)
    ensures Absorbs(m, s)
  {
    forall j | 0 <= j < |s| ensures InsideSome(s[j], m) {
      var k :| 0 <= k < |mid| && RangeWithin(s[j], mid[k]);
      assert InsideSome(mid[k], m);
      var k' :| 0 <= k' < |m| && RangeWithin(mid[k], m[k']);
      assert RangeWithin(s[j], m[k']);
    }
  }

  /** A range inside some of `m` extends what `m` absorbs. */
  lemma AbsorbsAppend(m: seq<Range>, s: seq<Range>, r: Range)
    requires Absorbs(m, s) && InsideSome(r, m)
    ensures Absorbs(m, s + [r])
  {
    forall j | 0 <= j < |s| + 1 ensures InsideSome((s + [r])[j], m) {
      if j < |s| {
        assert (s + [r])[j] == s[j];
      }
    }
  }

  /** Every input range lies inside some merged range. */
  lemma {:induction false} CoalesceContains(s: seq<Range>, eps: Tolerance)
    requires s != [] && SortedByMin(s)
    ensures Absorbs(Coalesce(s, eps), s)
  {
    var m := Coalesce(s, eps);
    if |s| > 1 {
      var init := s[..|s| - 1];
      var before := Coalesce(init, eps);
      var current := s[|s| - 1];
      assert SortedByMin(init);
      CoalesceContains(init, eps);
      assert before[|before| - 1].min <= current.min by {
        CoalesceMinsBelow(init, eps);
        assert init[|init| - 1] == s[|s| - 2];
      }
      assert m == MergeStep(before, current, eps);
      MergeStepContains(before, current, eps);
      AbsorbsTransitive(m, before, init);
      assert InsideSome(current, m);
      AbsorbsAppend(m, init, current);
      assert s == init + [current];
    } else {
      assert RangeWithin(s[0], m[0]);
    }
  }

  /** Every point of a merged range lies in some input range, or at most eps below one. */
  lemma {:induction false} CoalesceWithinSlack(s: seq<Range>, eps: Tolerance)
    requires s != []
    ensures forall k, x :: 0 <= k < |Coalesce(s, eps)| && InRange(x, Coalesce(s, eps)[k]) ==>
              exists j :: 0 <= j < |s| && InRangeWithSlack(x, s[j], eps)
  {
    if |s| > 1 {
      var init := s[..|s| - 1];
      var before := Coalesce(init, eps);
      var m := Coalesce(s, eps);
      CoalesceWithinSlack(init, eps);
      var last := before[|before| - 1];
      var current := s[|s| - 1];
      forall k, x | 0 <= k < |m| && InRange(x, m[k])
        ensures exists j :: 0 <= j < |s| && InRangeWithSlack(x, s[j], eps)
      {
        if k < |before| - 1 || (k == |before| - 1 && x <= last.max && current.min > last.max + eps) {
          assert m[k] == before[k];
          assert InRange(x, before[k]);
          var j :| 0 <= j < |init| && InRangeWithSlack(x, init[j], eps);
          assert s[j] == init[j];
        } else if k == |before| - 1 && x <= last.max {
          assert InRange(x, last);
          var j :| 0 <= j < |init| && InRangeWithSlack(x, init[j], eps);
          assert s[j] == init[j];
        } else {
          assert InRangeWithSlack(x, current, eps);
        }
      }
    }
  }

  /** A point far from every input range is far from every merged range. */
  lemma {:induction false} CoalesceKeepsFar(s: seq<Range>, eps: Tolerance, x: real)
    requires s != [] && FarFromAll(x, s, eps)
    ensures FarFromAll(x, Coalesce(s, eps), eps)
  {
    if |s| > 1 {
      var init := s[..|s| - 1];
      assert FarFromAll(x, init, eps) by {
        forall k | 0 <= k < |init| ensures FarFrom(x, init[k], eps) { assert init[k] == s[k]; }
      }
      CoalesceKeepsFar(init, eps, x);
      assert FarFrom(x, s[|s| - 1], eps);
    } else {
      assert Coalesce(s, eps) == [s[0]];
    }
  }

  /** Merging valid ranges gives valid ranges. */
  lemma {:induction false} CoalesceValid(s: seq<Range>, eps: Tolerance)
    requires s != [] && AllValid(s)
    ensures AllValid(Coalesce(s, eps))
  {
    if |s| > 1 {
      CoalesceValid(s[..|s| - 1], eps);
    }
  }

  /** The merged list is sorted by lower bound and its ranges are apart by more than eps. */
  lemma MergedOrdered(ranges: seq<Range>, eps: Tolerance)
    ensures (ranges == []) == (Merged(ranges, eps) == []) && |Merged(ranges, eps)| <= |ranges|
    ensures SortedByMin(Merged(ranges, eps)) && Separated(Merged(ranges, eps), eps)
  {
    if ranges != [] {
      SortByMinSpec(ranges);
      CoalesceSorted(SortByMin(ranges), eps);
      CoalesceSeparated(SortByMin(ranges), eps);
      assert |multiset(SortByMin(ranges))| == |multiset(ranges)|;
    }
  }

  /** No coverage is lost: every input range lies inside some merged range. */
  lemma MergedContainsInputs(ranges: seq<Range>, eps: Tolerance)
    ensures Absorbs(Merged(ranges, eps), ranges)
  {
    if ranges != [] {
      var sorted := SortByMin(ranges);
      SortByMinSpec(ranges);
      var m := Merged(ranges, eps);
      assert m == Coalesce(sorted, eps);
      CoalesceContains(sorted, eps);
      PermutationMembers(ranges, sorted);
      forall j | 0 <= j < |ranges| ensures InsideSome(ranges[j], m) {
        var i :| 0 <= i < |sorted| && sorted[i] == ranges[j];
        assert InsideSome(sorted[i], m);
      }
    }
  }

  /** Nothing is invented: every merged point lies in an input range or at most eps below one. */
  lemma MergedWithinSlack(ranges: seq<Range>, eps: Tolerance)
    ensures WithinSlackOf(Merged(ranges, eps), ranges, eps)
  {
    if ranges != [] {
      var sorted := SortByMin(ranges);
      SortByMinSpec(ranges);
      var m := Merged(ranges, eps);
      assert m == Coalesce(sorted, eps);
      CoalesceWithinSlack(sorted, eps);
      PermutationMembers(sorted, ranges);
      forall k, x | 0 <= k < |m| && InRange(x, m[k])
        ensures exists j :: 0 <= j < |ranges| && InRangeWithSlack(x, ranges[j], eps)
      {
        var i :| 0 <= i < |sorted| && InRangeWithSlack(x, sorted[i], eps);
        var j :| 0 <= j < |ranges| && ranges[j] == sorted[i];
      }
    }
  }

  /** Merging one more range of `s` is one more merge step. */
  lemma CoalescePrefixStep(s: seq<Range>, i: nat, eps: Tolerance)
    requires 1 <= i < |s|
    ensures Coalesce(s[..i + 1], eps) == MergeStep(Coalesce(s[..i], eps), s[i], eps)
  {
    assert s[..i + 1][..i] == s[..i];
  }

  /**
   * Sorts the ranges by lower bound and merges each one that starts at most
   * eps after the current merged range into it.
   */
  method MergeRanges(ranges: seq<Range>, eps: Tolerance) returns (merged: seq<Range>)
    ensures merged == Merged(ranges, eps)
  {
    if |ranges| == 0 {
      return [];
    }
    var sorted := SortByMin(ranges);
    merged := [sorted[0]];
    var i := 1;
    while i < |sorted|
      invariant 1 <= i <= |sorted|
      invariant merged == Coalesce(sorted[..i], eps)
    {
      var current := sorted[i];
      CoalescePrefixStep(sorted, i, eps);
      ghost var next := MergeStep(merged, current, eps);
      var last := merged[|merged| - 1];
      if current.min <= last.max + eps {
        merged := merged[..|merged| - 1] + [Range(last.min, Max(last.max, current.max))];
      } else {
        merged := merged + [current];
      }
      assert merged == next;
      i := i + 1;
    }
    assert sorted[..i] == sorted;
  }

  // ----- gap sweep -----

  /** The sweep position after the ranges `ms`: where the last one ends. */
  function Position(ms: seq<Range>, start: real): real {
    if ms == [] then start else ms[|ms| - 1].max
  }

  /** The gaps the sweep records before each of the ranges `ms`. */
  function GapsBefore(ms: seq<Range>, start: real, eps: Tolerance): seq<Range> {
    if ms == [] then []
    else
      var init := ms[..|ms| - 1];
      var pos := Position(init, start);
      var r := ms[|ms| - 1];
      GapsBefore(init, start, eps) + (if r.min > pos + eps then [Range(pos, r.min)] else [])
  }

  /** What findGaps returns for the merged ranges `ms`: the inner gaps and a trailing one. */
  function Gaps(required: Range, ms: seq<Range>, eps: Tolerance): seq<Range> {
    var pos := Position(ms, required.min);
    GapsBefore(ms, required.min, eps) + (if pos < required.max - eps then [Range(pos, required.max)] else [])
  }

  /** Each gap is strictly wider than eps. */
  lemma {:induction false} GapsWide(required: Range, ms: seq<Range>, eps: Tolerance)
    ensures forall k :: 0 <= k < |Gaps(required, ms, eps)| ==>
              Gaps(required, ms, eps)[k].max - Gaps(required, ms, eps)[k].min > eps
  {
    GapsBeforeWide(ms, required.min, eps);
  }

  lemma {:induction false} GapsBeforeWide(ms: seq<Range>, start: real, eps: Tolerance)
    ensures forall k :: 0 <= k < |GapsBefore(ms, start, eps)| ==>
              GapsBefore(ms, start, eps)[k].max - GapsBefore(ms, start, eps)[k].min > eps
  {
    if ms != [] {
      GapsBeforeWide(ms[..|ms| - 1], start, eps);
    }
  }

  /** No range of `rs` has a point within eps of `x`. */
  predicate FarFrom(x: real, r: Range, eps: Tolerance) {
    x < r.min - eps || x > r.max + eps
  }

  predicate FarFromAll(x: real, rs: seq<Range>, eps: Tolerance) {
    forall k :: 0 <= k < |rs| ==> FarFrom(x, rs[k], eps)
  }

  predicate Ascending(gs: seq<Range>) {
    forall j, k :: 0 <= j < k < |gs| ==> gs[j].max <= gs[k].min
  }

  /** No interior point of a range of `gs` lies in a range of `rs`. */
  ghost predicate Avoids(gs: seq<Range>, rs: seq<Range>) {
    forall k, x, j :: 0 <= k < |gs| && InOpenRange(x, gs[k]) && 0 <= j < |rs| ==> !InRange(x, rs[j])
  }

  /** `x` lies in one of the ranges `gs`. */
  ghost predicate InSome(x: real, gs: seq<Range>) {
    exists k :: 0 <= k < |gs| && InRange(x, gs[k])
  }

  /**
   * A point at or after `start` that is far from every range is either in a
   * recorded gap or beyond the sweep position (by more than eps once a range was seen).
   */
  lemma {:induction false} GapsBeforeFindFarPoints(ms: seq<Range>, start: real, eps: Tolerance, x: real)
    requires start <= x && FarFromAll(x, ms, eps)
    ensures InSome(x, GapsBefore(ms, start, eps)) || (if ms == [] then start <= x else x > Position(ms, start) + eps)
  {
    if ms != [] {
      var init := ms[..|ms| - 1];
      var r := ms[|ms| - 1];
      var pos := Position(init, start);
      assert FarFromAll(x, init, eps) by {
        forall k | 0 <= k < |init| ensures FarFrom(x, init[k], eps) { assert init[k] == ms[k]; }
      }
      GapsBeforeFindFarPoints(init, start, eps, x);
      var before := GapsBefore(init, start, eps);
      var all := GapsBefore(ms, start, eps);
      assert all == before + (if r.min > pos + eps then [Range(pos, r.min)] else []);
      assert FarFrom(x, r, eps);
      if InSome(x, before) {
        var k :| 0 <= k < |before| && InRange(x, before[k]);
        assert all[k] == before[k];
        assert InSome(x, all);
      } else if r.min > pos + eps && x <= r.min {
        assert InRange(x, all[|all| - 1]);
        assert InSome(x, all);
      } else {
        assert Position(ms, start) == r.max;
      }
    }
  }

  /** With some coverage, every required point far from all merged ranges lies in a gap. */
  lemma GapsFindFarPoints(required: Range, ms: seq<Range>, eps: Tolerance, x: real)
    requires ms != [] && InRange(x, required) && FarFromAll(x, ms, eps)
    ensures InSome(x, Gaps(required, ms, eps))
  {
    GapsBeforeFindFarPoints(ms, required.min, eps, x);
    var gs := Gaps(required, ms, eps);
    var before := GapsBefore(ms, required.min, eps);
    if InSome(x, before) {
      var k :| 0 <= k < |before| && InRange(x, before[k]);
      assert gs[k] == before[k];
    } else {
      assert InRange(x, gs[|gs| - 1]);
    }
  }

  /** A valid, separated list of ranges ends at its largest upper bound. */
  predicate Chain(ms: seq<Range>, eps: Tolerance) {
    AllValid(ms) && Separated(ms, eps)
  }

  lemma {:induction false} ChainPrefix(ms: seq<Range>, eps: Tolerance)
    requires ms != [] && Chain(ms, eps)
    ensures Chain(ms[..|ms| - 1], eps)
  {
    var init := ms[..|ms| - 1];
    forall k | 0 <= k < |init| - 1 ensures init[k].max + eps < init[k + 1].min {
      assert init[k] == ms[k] && init[k + 1] == ms[k + 1];
    }
  }

  /** In a chain, every range ends no later than the last one. */
  lemma {:induction false} ChainMaxAtEnd(ms: seq<Range>, eps: Tolerance)
    requires ms != [] && Chain(ms, eps)
    ensures forall k :: 0 <= k < |ms| ==> ms[k].max <= ms[|ms| - 1].max
  {
    if |ms| > 1 {
      var init := ms[..|ms| - 1];
      ChainPrefix(ms, eps);
      ChainMaxAtEnd(init, eps);
      forall k | 0 <= k < |ms| ensures ms[k].max <= ms[|ms| - 1].max {
        if k < |init| {
          assert ms[k] == init[k];
          assert init[|init| - 1] == ms[|ms| - 2];
        }
      }
    }
  }

  /**
   * Over a chain, the recorded gaps are ascending, end no later than the sweep
   * position, and their interiors meet none of the ranges.
   */
  lemma {:induction false} GapsBeforeOfChain(ms: seq<Range>, start: real, eps: Tolerance)
    requires Chain(ms, eps)
    ensures var gs := GapsBefore(ms, start, eps);
            Ascending(gs)
            && (ms != [] ==> forall k :: 0 <= k < |gs| ==> gs[k].max <= Position(ms, start))
            && Avoids(gs, ms)
  {
    if ms != [] {
      var init := ms[..|ms| - 1];
      var r := ms[|ms| - 1];
      var pos := Position(init, start);
      ChainPrefix(ms, eps);
      GapsBeforeOfChain(init, start, eps);
      var before := GapsBefore(init, start, eps);
      var gs := GapsBefore(ms, start, eps);
      assert IsValidRange(r);
      if init != [] {
        ChainMaxAtEnd(init, eps);
        assert init[|init| - 1] == ms[|ms| - 2];
        assert pos < r.min;
      }
      forall k | 0 <= k < |gs| ensures gs[k].max <= r.max {
        if k < |before| { assert gs[k] == before[k]; }
      }
      forall j, k | 0 <= j < k < |gs| ensures gs[j].max <= gs[k].min {
        if k < |before| { assert gs[j] == before[j] && gs[k] == before[k]; }
        else { assert gs[j] == before[j]; }
      }
      forall k, x, j | 0 <= k < |gs| && InOpenRange(x, gs[k]) && 0 <= j < |ms|
        ensures !InRange(x, ms[j])
      {
        if k < |before| {
          assert gs[k] == before[k];
          if j < |init| { assert ms[j] == init[j]; }
        } else {
          assert gs[k] == Range(pos, r.min);
          if j < |init| {
            assert ms[j] == init[j];
          }
        }
      }
    }
  }

  /** Over a chain, all gaps are ascending and their interiors meet none of the ranges. */
  lemma GapsOfChain(required: Range, ms: seq<Range>, eps: Tolerance)
    requires Chain(ms, eps)
    ensures var gs := Gaps(required, ms, eps);
            Ascending(gs)
            && Avoids(gs, ms)
  {
    GapsBeforeOfChain(ms, required.min, eps);
    var gs := Gaps(required, ms, eps);
    var before := GapsBefore(ms, required.min, eps);
    if ms != [] {
      ChainMaxAtEnd(ms, eps);
    }
    forall j, k | 0 <= j < k < |gs| ensures gs[j].max <= gs[k].min {
      assert gs[j] == before[j];
      if k < |before| { assert gs[k] == before[k]; }
    }
    forall k, x, j | 0 <= k < |gs| && InOpenRange(x, gs[k]) && 0 <= j < |ms|
      ensures !InRange(x, ms[j])
    {
      if k < |before| { assert gs[k] == before[k]; }
    }
  }

  /** A point far from every input range is far from every merged range. */
  lemma FarFromMerged(ranges: seq<Range>, eps: Tolerance, x: real)
    requires ranges != [] && FarFromAll(x, ranges, eps)
    ensures FarFromAll(x, Merged(ranges, eps), eps)
  {
    var sorted := SortByMin(ranges);
    SortByMinSpec(ranges);
    PermutationMembers(sorted, ranges);
    assert FarFromAll(x, sorted, eps) by {
      forall k | 0 <= k < |sorted| ensures FarFrom(x, sorted[k], eps) {
        var i :| 0 <= i < |ranges| && ranges[i] == sorted[k];
      }
    }
    CoalesceKeepsFar(sorted, eps, x);
  }

  /** Merging valid ranges gives valid ranges. */
  lemma MergedValid(ranges: seq<Range>, eps: Tolerance)
    requires AllValid(ranges)
    ensures AllValid(Merged(ranges, eps))
  {
    if ranges != [] {
      var sorted := SortByMin(ranges);
      SortByMinSpec(ranges);
      PermutationMembers(sorted, ranges);
      assert AllValid(sorted) by {
        forall k | 0 <= k < |sorted| ensures IsValidRange(sorted[k]) {
          var i :| 0 <= i < |ranges| && ranges[i] == sorted[k];
        }
      }
      CoalesceValid(sorted, eps);
    }
  }

  /** The interior of a gap meets no covered range, when the covered ranges are valid. */
  lemma GapsMissCovered(required: Range, covered: seq<Range>, eps: Tolerance)
    requires AllValid(covered)
    ensures Ascending(Gaps(required, Merged(covered, eps), eps))
    ensures Avoids(Gaps(required, Merged(covered, eps), eps), covered)
  {
    var merged := Merged(covered, eps);
    var gs := Gaps(required, merged, eps);
    assert Chain(merged, eps) by {
      MergedValid(covered, eps);
      MergedOrdered(covered, eps);
    }
    GapsOfChain(required, merged, eps);
    MergedContainsInputs(covered, eps);
    forall k, x, j | 0 <= k < |gs| && InOpenRange(x, gs[k]) && 0 <= j < |covered|
      ensures !InRange(x, covered[j])
    {
      assert InsideSome(covered[j], merged);
      var m :| 0 <= m < |merged| && RangeWithin(covered[j], merged[m]);
      assert !InRange(x, merged[m]);
    }
  }

  /** With some coverage, every required point farther than eps from all covered ranges lies in a gap. */
  lemma GapsHoldFarPoints(required: Range, covered: seq<Range>, eps: Tolerance, x: real)
    requires covered != []
    requires InRange(x, required) && FarFromAll(x, covered, eps)
    ensures InSome(x, Gaps(required, Merged(covered, eps), eps))
  {
    FarFromMerged(covered, eps, x);
    MergedOrdered(covered, eps);
    GapsFindFarPoints(required, Merged(covered, eps), eps, x);
  }

  /** The properties of the gap list, gathered for the sweep below. */
  lemma GapsFacts(required: Range, covered: seq<Range>, eps: Tolerance)
    ensures var gaps := Gaps(required, Merged(covered, eps), eps);
            (forall k :: 0 <= k < |gaps| ==> gaps[k].max - gaps[k].min > eps)
            && (covered == [] ==> gaps == (if required.min < required.max - eps then [required] else []))
            && (AllValid(covered) ==> Ascending(gaps) && Avoids(gaps, covered))
            && (covered != [] ==> forall x :: InRange(x, required) && FarFromAll(x, covered, eps) ==> InSome(x, gaps))
  {
    GapsWide(required, Merged(covered, eps), eps);
    if AllValid(covered) {
      GapsMissCovered(required, covered, eps);
    }
    if covered != [] {
      forall x | InRange(x, required) && FarFromAll(x, covered, eps)
        ensures InSome(x, Gaps(required, Merged(covered, eps), eps))
      {
        GapsHoldFarPoints(required, covered, eps, x);
      }
    }
  }

  /**
   * Lists the stretches of `required` that the merged `covered` ranges leave
   * open, walking the merged ranges left to right, plus a trailing stretch.
   */
  method FindGaps(required: Range, covered: seq<Range>, eps: Tolerance) returns (gaps: seq<Range>)
    ensures gaps == Gaps(required, Merged(covered, eps), eps)
    ensures forall k :: 0 <= k < |gaps| ==> gaps[k].max - gaps[k].min > eps
    ensures covered == [] ==> gaps == (if required.min < required.max - eps then [required] else [])
    ensures AllValid(covered) ==> Ascending(gaps) && Avoids(gaps, covered)
    ensures covered != [] ==> forall x :: InRange(x, required) && FarFromAll(x, covered, eps) ==> InSome(x, gaps)
  {
    var merged := MergeRanges(covered, eps);
    gaps := [];
    var currentPos := required.min;
    var t := 0;
    while t < |merged|
      invariant 0 <= t <= |merged|
      invariant gaps == GapsBefore(merged[..t], required.min, eps)
      invariant currentPos == Position(merged[..t], required.min)
    {
      var range := merged[t];
      ghost var prefix := merged[..t + 1];
      assert prefix[..t] == merged[..t] && prefix[t] == range;
      assert Position(prefix, required.min) == range.max;
      assert GapsBefore(prefix, required.min, eps)
          == gaps + (if range.min > currentPos + eps then [Range(currentPos, range.min)] else []);
      if range.min > currentPos + eps {
        gaps := gaps + [Range(currentPos, range.min)];
      }
      currentPos := range.max;
      t := t + 1;
    }
    assert merged[..t] == merged;
    if currentPos < required.max - eps {
      gaps := gaps + [Range(currentPos, required.max)];
    }
    GapsFacts(required, covered, eps);
  }
}
