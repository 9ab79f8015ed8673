/**
 * The gap-diagnostic coverage check of test.ts: per-axis gaps from merging
 * the camera ranges, and a grid of candidate cells whose bounds come from
 * the camera ranges in input order; a cell that meets no camera is
 * reported as an uncovered area.
 */
module GapDiagnostics {
  import opened Geometry
  import opened GapAlgebra
  import Subtraction

  /** What the software needs: a distance range and a light range. */
  datatype SoftwareCamera = SoftwareCamera(requiredDistanceRange: Range, requiredLightRange: Range)

  /** One physical camera: a label and the distance and light ranges it can sense. */
  datatype HardwareCamera = HardwareCamera(id: string, distanceRange: Range, lightRange: Range)

  /** The diagnostics attached to a failed check. */
  datatype GapReport = GapReport(distanceGaps: seq<Range>, lightGaps: seq<Range>, uncoveredAreas: seq<Rect>)

  /** The result of the check: the verdict and, on failure, the diagnostics. */
  datatype Verdict = Verdict(success: bool, gaps: Option<GapReport>)

  function Coverage(c: HardwareCamera): Rect {
    Rect(c.distanceRange, c.lightRange)
  }

  function Target(spec: SoftwareCamera): Rect {
    Rect(spec.requiredDistanceRange, spec.requiredLightRange)
  }

  function DistanceRanges(cams: seq<HardwareCamera>): (r: seq<Range>)
    ensures |r| == |cams| && forall k :: 0 <= k < |cams| ==> r[k] == cams[k].distanceRange
  {
    seq(|cams|, k requires 0 <= k < |cams| => cams[k].distanceRange)
  }

  function LightRanges(cams: seq<HardwareCamera>): (r: seq<Range>)
    ensures |r| == |cams| && forall k :: 0 <= k < |cams| ==> r[k] == cams[k].lightRange
  {
    seq(|cams|, k requires 0 <= k < |cams| => cams[k].lightRange)
  }

  function Coverages(cams: seq<HardwareCamera>): (r: seq<Rect>)
    ensures |r| == |cams| && forall k :: 0 <= k < |cams| ==> r[k] == Coverage(cams[k])
  {
    seq(|cams|, k requires 0 <= k < |cams| => Coverage(cams[k]))
  }

  // ----- the grid of candidate cells -----

  /**
   * Grid cell (i, j). On the distance axis it runs from the end of camera
   * i - 1's range (or the required minimum) to the start of camera i's range
   * (or the required maximum), taking the cameras in input order; the light
   * axis is built the same way from column j.
   */
  function Cell(spec: SoftwareCamera, cams: seq<HardwareCamera>, i: nat, j: nat): Rect
    requires i <= |cams| && j <= |cams|
  {
    Rect(Range(if i == 0 then spec.requiredDistanceRange.min else cams[i - 1].distanceRange.max,
               if i == |cams| then spec.requiredDistanceRange.max else cams[i].distanceRange.min),
         Range(if j == 0 then spec.requiredLightRange.min else cams[j - 1].lightRange.max,
               if j == |cams| then spec.requiredLightRange.max else cams[j].lightRange.min))
  }

  /** The area's intersection with some camera's coverage exists, trying the cameras in order. */
  predicate MeetsSomeCamera(area: Rect, cams: seq<HardwareCamera>)
    decreases |cams|
  {
    cams != [] && (IntersectCoverage(area, Coverage(cams[0])).Some? || MeetsSomeCamera(area, cams[1..]))
  }

  /** The area meets some camera exactly when its intersection with one of them exists. */
  lemma {:induction false} MeetsSomeCameraIff(area: Rect, cams: seq<HardwareCamera>)
    ensures MeetsSomeCamera(area, cams) <==> exists k :: 0 <= k < |cams| && IntersectCoverage(area, Coverage(cams[k])).Some?
  {
    if cams != [] {
      MeetsSomeCameraIff(area, cams[1..]);
      if IntersectCoverage(area, Coverage(cams[0])).None? {
        forall k | 0 < k < |cams| ensures cams[k] == cams[1..][k - 1] {
        }
      }
    }
  }

  /** A cell is reported when both its ranges are valid and it meets no camera. */
  predicate Kept(area: Rect, cams: seq<HardwareCamera>) {
    IsValidRect(area) && !MeetsSomeCamera(area, cams)
  }

  /** The test a grid cell must pass to be reported. */
  function KeptIn(cams: seq<HardwareCamera>): Rect -> bool {
    area => Kept(area, cams)
  }

  /**
   * The cells of row i among columns 0 .. j - 1 that pass `keep`, in column
   * order. The check reports the cells passing `KeptIn(cams)`; the facts
   * about the grid's shape hold for any test.
   */
  function UncoveredRow(spec: SoftwareCamera, cams: seq<HardwareCamera>, i: nat, j: nat, keep: Rect -> bool): seq<Rect>
    requires i <= |cams| && j <= |cams| + 1
  {
    if j == 0 then []
    else
      var cell := Cell(spec, cams, i, j - 1);
      UncoveredRow(spec, cams, i, j - 1, keep) + (if keep(cell) then [cell] else [])
  }

  /** The cells of rows 0 .. i - 1 that pass `keep`, row by row. */
  function UncoveredGrid(spec: SoftwareCamera, cams: seq<HardwareCamera>, i: nat, keep: Rect -> bool): seq<Rect>
    requires i <= |cams| + 1
  {
    if i == 0 then [] else UncoveredGrid(spec, cams, i - 1, keep) + UncoveredRow(spec, cams, i - 1, |cams| + 1, keep)
  }

  /** What canCamerasMeetRequirements returns. */
  function Diagnosis(spec: SoftwareCamera, cams: seq<HardwareCamera>, eps: Tolerance): Verdict {
    var required := Target(spec);
    if cams == [] then
      Verdict(false, Some(GapReport([spec.requiredDistanceRange], [spec.requiredLightRange], [required])))
    else
      var distanceGaps := Gaps(spec.requiredDistanceRange, Merged(DistanceRanges(cams), eps), eps);
      var lightGaps := Gaps(spec.requiredLightRange, Merged(LightRanges(cams), eps), eps);
      var uncoveredAreas := UncoveredGrid(spec, cams, |cams| + 1, KeptIn(cams));
      var success := distanceGaps == [] && lightGaps == [] && uncoveredAreas == [];
      Verdict(success, if success then None else Some(GapReport(distanceGaps, lightGaps, uncoveredAreas)))
  }

  // ----- what the grid reports -----

  /** `a` is one of the grid cells of rows 0 .. rows - 1. */
  ghost predicate IsCellInRows(spec: SoftwareCamera, cams: seq<HardwareCamera>, a: Rect, rows: nat) {
    exists i, j :: 0 <= i < rows && i <= |cams| && 0 <= j <= |cams| && a == Cell(spec, cams, i, j)
  }

  /** `a` is one of the grid cells. */
  ghost predicate IsCell(spec: SoftwareCamera, cams: seq<HardwareCamera>, a: Rect) {
    IsCellInRows(spec, cams, a, |cams| + 1)
  }

  /** Each reported cell of a row is a kept cell of that row. */
  lemma {:induction false} UncoveredRowSound(spec: SoftwareCamera, cams: seq<HardwareCamera>, i: nat, j: nat, keep: Rect -> bool)
    requires i <= |cams| && j <= |cams| + 1
    ensures forall a :: a in UncoveredRow(spec, cams, i, j, keep) ==>
              keep(a) && exists c :: 0 <= c < j && a == Cell(spec, cams, i, c)
  {
    if j > 0 {
      UncoveredRowSound(spec, cams, i, j - 1, keep);
    }
  }

  /** Each kept cell of a row is reported. */
  lemma {:induction false} UncoveredRowComplete(spec: SoftwareCamera, cams: seq<HardwareCamera>, i: nat, j: nat, c: nat, keep: Rect -> bool)
    requires i <= |cams| && c < j <= |cams| + 1
    requires keep(Cell(spec, cams, i, c))
    ensures Cell(spec, cams, i, c) in UncoveredRow(spec, cams, i, j, keep)
  {
    if c < j - 1 {
      UncoveredRowComplete(spec, cams, i, j - 1, c, keep);
    }
  }

  lemma {:induction false} UncoveredRowSize(spec: SoftwareCamera, cams: seq<HardwareCamera>, i: nat, j: nat, keep: Rect -> bool)
    requires i <= |cams| && j <= |cams| + 1
    ensures |UncoveredRow(spec, cams, i, j, keep)| <= j
  {
    if j > 0 {
      UncoveredRowSize(spec, cams, i, j - 1, keep);
    }
  }

  /** Each reported cell is a kept grid cell. */
  lemma {:induction false} UncoveredGridSound(spec: SoftwareCamera, cams: seq<HardwareCamera>, i: nat, keep: Rect -> bool)
    requires i <= |cams| + 1
    ensures forall a :: a in UncoveredGrid(spec, cams, i, keep) ==> keep(a) && IsCellInRows(spec, cams, a, i)
  {
    if i > 0 {
      UncoveredGridSound(spec, cams, i - 1, keep);
      UncoveredRowSound(spec, cams, i - 1, |cams| + 1, keep);
      forall a | a in UncoveredGrid(spec, cams, i, keep) ensures IsCellInRows(spec, cams, a, i) {
        if a in UncoveredGrid(spec, cams, i - 1, keep) {
          var r, c :| 0 <= r < i - 1 && r <= |cams| && 0 <= c <= |cams| && a == Cell(spec, cams, r, c);
        } else {
          var c :| 0 <= c < |cams| + 1 && a == Cell(spec, cams, i - 1, c);
        }
      }
    }
  }

  /** Each kept cell of the first i rows is reported. */
  lemma {:induction false} UncoveredGridComplete(spec: SoftwareCamera, cams: seq<HardwareCamera>, i: nat, r: nat, c: nat, keep: Rect -> bool)
    requires r < i <= |cams| + 1 && c <= |cams|
    requires keep(Cell(spec, cams, r, c))
    ensures Cell(spec, cams, r, c) in UncoveredGrid(spec, cams, i, keep)
  {
    var before, row := UncoveredGrid(spec, cams, i - 1, keep), UncoveredRow(spec, cams, i - 1, |cams| + 1, keep);
    assert UncoveredGrid(spec, cams, i, keep) == before + row;
    if r < i - 1 {
      UncoveredGridComplete(spec, cams, i - 1, r, c, keep);
      assert Cell(spec, cams, r, c) in before;
    } else {
      UncoveredRowComplete(spec, cams, r, |cams| + 1, c, keep);
      assert Cell(spec, cams, r, c) in row;
    }
  }

  /** No cell of rows 0 .. rows - 1 passes `keep`. */
  ghost predicate NoKeptCell(spec: SoftwareCamera, cams: seq<HardwareCamera>, rows: nat, keep: Rect -> bool) {
    forall r, c :: 0 <= r < rows && r <= |cams| && 0 <= c <= |cams| ==> !keep(Cell(spec, cams, r, c))
  }

  /** The first i rows report at most i * (n + 1) cells. */
  lemma {:induction false} UncoveredGridSize(spec: SoftwareCamera, cams: seq<HardwareCamera>, i: nat, keep: Rect -> bool)
    requires i <= |cams| + 1
    ensures |UncoveredGrid(spec, cams, i, keep)| <= i * (|cams| + 1)
  {
    if i > 0 {
      var width := |cams| + 1;
      UncoveredGridSize(spec, cams, i - 1, keep);
      UncoveredRowSize(spec, cams, i - 1, width, keep);
      assert i * width == (i - 1) * width + width;
    }
  }

  /** A kept cell shares no point with any camera's coverage. */
  lemma KeptMissesCameras(area: Rect, cams: seq<HardwareCamera>, p: Point, k: nat)
    requires Kept(area, cams) && InRect(p, area) && k < |cams|
    ensures !InRect(p, Coverage(cams[k]))
  {
    MeetsSomeCameraIff(area, cams);
    IntersectCoveragePoints(area, Coverage(cams[k]), p);
  }

  /** Every reported area is a valid grid cell that shares no point with any camera's coverage. */
  lemma ReportedAreasUncovered(spec: SoftwareCamera, cams: seq<HardwareCamera>)
    ensures var areas := UncoveredGrid(spec, cams, |cams| + 1, KeptIn(cams));
            (forall a :: a in areas ==> IsValidRect(a) && IsCell(spec, cams, a))
            && (forall a, p, k :: a in areas && InRect(p, a) && 0 <= k < |cams| ==> !InRect(p, Coverage(cams[k])))
  {
    var areas := UncoveredGrid(spec, cams, |cams| + 1, KeptIn(cams));
    UncoveredGridSound(spec, cams, |cams| + 1, KeptIn(cams));
    forall a, p, k | a in areas && InRect(p, a) && 0 <= k < |cams| ensures !InRect(p, Coverage(cams[k])) {
      KeptMissesCameras(a, cams, p, k);
    }
  }

  /** Every valid grid cell that meets no camera is reported; there are at most (n + 1)^2 of them. */
  lemma ReportedAreasComplete(spec: SoftwareCamera, cams: seq<HardwareCamera>)
    ensures var areas := UncoveredGrid(spec, cams, |cams| + 1, KeptIn(cams));
            |areas| <= (|cams| + 1) * (|cams| + 1)
            && forall r, c :: 0 <= r <= |cams| && 0 <= c <= |cams| && Kept(Cell(spec, cams, r, c), cams) ==>
                 Cell(spec, cams, r, c) in areas
  {
    UncoveredGridSize(spec, cams, |cams| + 1, KeptIn(cams));
    forall r, c | 0 <= r <= |cams| && 0 <= c <= |cams| && Kept(Cell(spec, cams, r, c), cams)
      ensures Cell(spec, cams, r, c) in UncoveredGrid(spec, cams, |cams| + 1, KeptIn(cams))
    {
      UncoveredGridComplete(spec, cams, |cams| + 1, r, c, KeptIn(cams));
    }
  }

  /** The grid reports nothing exactly when no grid cell passes the test. */
  lemma NothingKeptIffNothingReported(spec: SoftwareCamera, cams: seq<HardwareCamera>, keep: Rect -> bool)
    ensures UncoveredGrid(spec, cams, |cams| + 1, keep) == [] <==> NoKeptCell(spec, cams, |cams| + 1, keep)
  {
    var grid := UncoveredGrid(spec, cams, |cams| + 1, keep);
    if grid != [] {
      UncoveredGridSound(spec, cams, |cams| + 1, keep);
      assert grid[0] in grid;
    }
    if !NoKeptCell(spec, cams, |cams| + 1, keep) {
      var r, c :| 0 <= r < |cams| + 1 && r <= |cams| && 0 <= c <= |cams| && keep(Cell(spec, cams, r, c));
      UncoveredGridComplete(spec, cams, |cams| + 1, r, c, keep);
    }
  }

  /**
   * On success, every required point on either axis lies within eps of some
   * camera's range on that axis.
   */
  lemma SuccessNearlyCoversAxes(spec: SoftwareCamera, cams: seq<HardwareCamera>, eps: Tolerance, d: real, l: real)
    requires Diagnosis(spec, cams, eps).success
    ensures cams != []
    ensures InRange(d, spec.requiredDistanceRange) ==> !FarFromAll(d, DistanceRanges(cams), eps)
    ensures InRange(l, spec.requiredLightRange) ==> !FarFromAll(l, LightRanges(cams), eps)
  {
    if InRange(d, spec.requiredDistanceRange) && FarFromAll(d, DistanceRanges(cams), eps) {
      GapsHoldFarPoints(spec.requiredDistanceRange, DistanceRanges(cams), eps, d);
    }
    if InRange(l, spec.requiredLightRange) && FarFromAll(l, LightRanges(cams), eps) {
      GapsHoldFarPoints(spec.requiredLightRange, LightRanges(cams), eps, l);
    }
  }

  /** On success, every valid grid cell meets some camera. */
  lemma SuccessMeetsEveryCell(spec: SoftwareCamera, cams: seq<HardwareCamera>, eps: Tolerance, r: nat, c: nat)
    requires Diagnosis(spec, cams, eps).success
    requires r <= |cams| && c <= |cams| && IsValidRect(Cell(spec, cams, r, c))
    ensures exists k :: 0 <= k < |cams| && IntersectCoverage(Cell(spec, cams, r, c), Coverage(cams[k])).Some?
  {
    ReportedAreasComplete(spec, cams);
    MeetsSomeCameraIff(Cell(spec, cams, r, c), cams);
  }

  // ----- two configurations where the verdict and the geometry part ways -----

  /** The square [0, 2] x [0, 2]. */
  const HoleSpec := SoftwareCamera(Range(0.0, 2.0), Range(0.0, 2.0))

  /** Two L-shaped cameras over the square that leave its top-right corner open. */
  const HoleCameras := [HardwareCamera("wide", Range(0.0, 2.0), Range(0.0, 1.0)),
                        HardwareCamera("tall", Range(0.0, 1.0), Range(0.0, 2.0))]

  /** Two ranges already in order of lower bound merge in a single step. */
  lemma MergedPair(a: Range, b: Range, eps: Tolerance)
    requires a.min <= b.min
    ensures Merged([a, b], eps) == MergeStep([a], b, eps)
  {
    assert [a, b][..1] == [a];
    assert SortByMin([a]) == [a] by {
      assert [a][..0] == [];
    }
    assert SortByMin([a, b]) == [a, b];
    assert Coalesce([a, b], eps) == MergeStep([a], b, eps);
  }

  /** The gaps around a single merged range. */
  lemma GapsSingle(required: Range, r: Range, eps: Tolerance)
    ensures Gaps(required, [r], eps)
         == (if r.min > required.min + eps then [Range(required.min, r.min)] else [])
            + (if r.max < required.max - eps then [Range(r.max, required.max)] else [])
  {
    assert [r][..0] == [];
    assert Position([r], required.min) == r.max;
    assert GapsBefore([r], required.min, eps)
        == (if r.min > required.min + eps then [Range(required.min, r.min)] else []);
  }

  /** The gap the sweep records before the second of two merged ranges. */
  lemma GapsBeforePair(r: Range, t: Range, start: real, eps: Tolerance)
    ensures GapsBefore([r, t], start, eps)
         == GapsBefore([r], start, eps) + (if t.min > r.max + eps then [Range(r.max, t.min)] else [])
  {
    assert [r, t][..1] == [r];
  }

  /** Neither axis has a gap for the L-shaped cameras. */
  lemma HoleAxesHaveNoGaps(eps: Tolerance)
    ensures Gaps(HoleSpec.requiredDistanceRange, Merged(DistanceRanges(HoleCameras), eps), eps) == []
    ensures Gaps(HoleSpec.requiredLightRange, Merged(LightRanges(HoleCameras), eps), eps) == []
  {
    var whole, half := Range(0.0, 2.0), Range(0.0, 1.0);
    assert DistanceRanges(HoleCameras) == [whole, half];
    assert LightRanges(HoleCameras) == [half, whole];
    MergedPair(whole, half, eps);
    assert MergeStep([whole], half, eps) == [whole];
    MergedPair(half, whole, eps);
    assert MergeStep([half], whole, eps) == [whole];
    GapsSingle(whole, whole, eps);
  }

  /** A valid cell that intersects one camera is not reported. */
  lemma MeetingCellNotKept(area: Rect, cams: seq<HardwareCamera>, k: nat)
    requires k < |cams| && IntersectCoverage(area, Coverage(cams[k])).Some?
    ensures !Kept(area, cams)
  {
    MeetsSomeCameraIff(area, cams);
  }

  /** Every valid grid cell of the L-shaped cameras meets one of them. */
  lemma HoleGridReportsNothing()
    ensures UncoveredGrid(HoleSpec, HoleCameras, 3, KeptIn(HoleCameras)) == []
  {
    var spec, cams := HoleSpec, HoleCameras;
    var wide, tall := Coverage(cams[0]), Coverage(cams[1]);
    assert wide == Rect(Range(0.0, 2.0), Range(0.0, 1.0)) && tall == Rect(Range(0.0, 1.0), Range(0.0, 2.0));
    // Rows span distances [0, 0], [2, 0] and [1, 2]; columns span light levels [0, 0], [1, 0] and [2, 2].
    assert !IsValidRect(Cell(spec, cams, 1, 0)) && !IsValidRect(Cell(spec, cams, 1, 1)) && !IsValidRect(Cell(spec, cams, 1, 2));
    assert !IsValidRect(Cell(spec, cams, 0, 1)) && !IsValidRect(Cell(spec, cams, 2, 1));
    MeetingCellNotKept(Cell(spec, cams, 0, 0), cams, 0);
    MeetingCellNotKept(Cell(spec, cams, 0, 2), cams, 1);
    MeetingCellNotKept(Cell(spec, cams, 2, 0), cams, 0);
    MeetingCellNotKept(Cell(spec, cams, 2, 2), cams, 1);
    assert NoKeptCell(spec, cams, 3, KeptIn(cams));
    NothingKeptIffNothingReported(spec, cams, KeptIn(cams));
  }

  /** The point (1.5, 1.5) of the square lies outside both L-shaped cameras. */
  lemma HoleLeftOpen()
    ensures !Covers(Coverages(HoleCameras), Target(HoleSpec))
    ensures !Subtraction.SolverSaysCovered(Target(HoleSpec), Coverages(HoleCameras), 0.0)
  {
    var target, rects := Target(HoleSpec), Coverages(HoleCameras);
    var hole := Point(1.5, 1.5);
    assert InRect(hole, target) && !InRect(hole, rects[0]) && !InRect(hole, rects[1]);
    Subtraction.RemainingEmptyIffCovered(target, rects);
  }

  /**
   * Success without coverage: the L-shaped cameras leave the point (1.5, 1.5)
   * of the square uncovered, yet neither axis has a gap and every grid cell
   * meets a camera. The exact subtraction check rejects the same cameras.
   */
  lemma HoleGoesUnreported(eps: Tolerance)
    ensures Diagnosis(HoleSpec, HoleCameras, eps).success
    ensures !Covers(Coverages(HoleCameras), Target(HoleSpec))
    ensures !Subtraction.SolverSaysCovered(Target(HoleSpec), Coverages(HoleCameras), 0.0)
  {
    HoleAxesHaveNoGaps(eps);
    HoleGridReportsNothing();
    HoleLeftOpen();
  }

  /**
   * Failure with coverage: the first camera alone covers the required square
   * [0, 1] x [0, 1], but a second camera far off on the distance axis makes
   * the sweep record the stretch between the two as a distance gap, which
   * lies outside the required range. The exact subtraction check accepts the
   * same cameras.
   */
  lemma OuterGapRejectsCover(eps: Tolerance)
    requires eps < 4.0
    ensures var spec := SoftwareCamera(Range(0.0, 1.0), Range(0.0, 1.0));
            var cams := [HardwareCamera("near", Range(0.0, 1.0), Range(0.0, 1.0)),
                         HardwareCamera("far", Range(5.0, 6.0), Range(0.0, 1.0))];
            var v := Diagnosis(spec, cams, eps);
            !v.success && v.gaps.value.distanceGaps == [Range(1.0, 5.0)]
            && Covers(Coverages(cams), Target(spec))
            && Subtraction.SolverSaysCovered(Target(spec), Coverages(cams), 0.0)
  {
    var spec := SoftwareCamera(Range(0.0, 1.0), Range(0.0, 1.0));
    var near, far := Range(0.0, 1.0), Range(5.0, 6.0);
    var cams := [HardwareCamera("near", near, near), HardwareCamera("far", far, near)];
    assert DistanceRanges(cams) == [near, far];
    MergedPair(near, far, eps);
    assert MergeStep([near], far, eps) == [near, far];
    assert Gaps(spec.requiredDistanceRange, [near, far], eps) == [Range(1.0, 5.0)] by {
      GapsBeforePair(near, far, 0.0, eps);
      GapsSingle(spec.requiredDistanceRange, near, eps);
      assert GapsBefore([near], 0.0, eps) == [] by {
        assert [near][..0] == [];
      }
    }
    var target := Target(spec);
    var rects := Coverages(cams);
    assert RectWithin(target, rects[0]);
    Subtraction.ContainingCameraCovers(target, rects, 0);
    Subtraction.RemainingEmptyIffCovered(target, rects);
  }

  // ----- the check -----

  /** Looks for a camera whose coverage intersects the area, stopping at the first one. */
  method IsAreaCovered(area: Rect, cameras: seq<HardwareCamera>) returns (covered: bool)
    ensures covered == MeetsSomeCamera(area, cameras)
  {
    covered := false;
    var k := 0;
    while k < |cameras|
      invariant 0 <= k <= |cameras|
      invariant !covered
      invariant MeetsSomeCamera(area, cameras) == MeetsSomeCamera(area, cameras[k..])
    {
      assert cameras[k..][1..] == cameras[k + 1..];
      var camera := cameras[k];
      var cameraCoverage := Rect(camera.distanceRange, camera.lightRange);
      if IntersectCoverage(area, cameraCoverage).Some? {
        covered := true;
        break;
      }
      k := k + 1;
    }
  }

  /** The inner loop over the columns of row i: each valid cell that meets no camera is reported. */
  method UncoveredInRow(spec: SoftwareCamera, cameras: seq<HardwareCamera>, i: nat) returns (row: seq<Rect>)
    requires i <= |cameras|
    ensures row == UncoveredRow(spec, cameras, i, |cameras| + 1, KeptIn(cameras))
  {
    var n := |cameras|;
    row := [];
    var j := 0;
    while j <= n
      invariant 0 <= j <= n + 1
      invariant row == UncoveredRow(spec, cameras, i, j, KeptIn(cameras))
    {
      var distRange := Range(if i == 0 then spec.requiredDistanceRange.min else cameras[i - 1].distanceRange.max,
                             if i == n then spec.requiredDistanceRange.max else cameras[i].distanceRange.min);
      var lightRange := Range(if j == 0 then spec.requiredLightRange.min else cameras[j - 1].lightRange.max,
                              if j == n then spec.requiredLightRange.max else cameras[j].lightRange.min);
      assert Rect(distRange, lightRange) == Cell(spec, cameras, i, j);
      if !IsValidRange(distRange) || !IsValidRange(lightRange) {
        j := j + 1;
        continue;
      }
      var area := Rect(distRange, lightRange);
      var isAreaCovered := IsAreaCovered(area, cameras);
      if !isAreaCovered {
        row := row + [area];
      }
      j := j + 1;
    }
  }

  /** The outer loop over the rows of the grid, in row order. */
  method UncoveredAreas(spec: SoftwareCamera, cameras: seq<HardwareCamera>) returns (areas: seq<Rect>)
    ensures areas == UncoveredGrid(spec, cameras, |cameras| + 1, KeptIn(cameras))
  {
    areas := [];
    var i := 0;
    while i <= |cameras|
      invariant 0 <= i <= |cameras| + 1
      invariant areas == UncoveredGrid(spec, cameras, i, KeptIn(cameras))
    {
      var row := UncoveredInRow(spec, cameras, i);
      areas := areas + row;
      i := i + 1;
    }
  }

  /**
   * Checks the cameras against the software's requirements and, on failure,
   * reports the per-axis gaps and the uncovered grid cells.
   */
  method CanCamerasMeetRequirements(spec: SoftwareCamera, cameras: seq<HardwareCamera>, eps: Tolerance)
    returns (res: Verdict)
    ensures res == Diagnosis(spec, cameras, eps)
    ensures res.success <==> res.gaps.None?
    ensures cameras == [] ==> !res.success
  {
    if |cameras| == 0 {
      var required := Rect(spec.requiredDistanceRange, spec.requiredLightRange);
      return Verdict(false, Some(GapReport([spec.requiredDistanceRange], [spec.requiredLightRange], [required])));
    }
    var coveredDistanceRanges := DistanceRanges(cameras);
    var coveredLightRanges := LightRanges(cameras);
    var distanceGaps := FindGaps(spec.requiredDistanceRange, coveredDistanceRanges, eps);
    var lightGaps := FindGaps(spec.requiredLightRange, coveredLightRanges, eps);
    var uncoveredAreas := UncoveredAreas(spec, cameras);
    var success := |distanceGaps| == 0 && |lightGaps| == 0 && |uncoveredAreas| == 0;
    res := Verdict(success, if success then None else Some(GapReport(distanceGaps, lightGaps, uncoveredAreas)));
  }
}
