/** Band coverage of the C1 segment: `compute_c1_coverage` and the selection
    of the two top-most labelled voxels, shared, line for line, by
    analyser_segmentation_test/couverture_C1.py and
    analyser_segmentation_test/vertebre_C1.py. */
module C1Coverage {
  import opened Wrappers
  import opened Volumes

  // ---------------------------------------------------------------------
  // Counting voxels of one Z plane
  // ---------------------------------------------------------------------

  /** Plane `z` of a volume, as `data[:, :, z]`. */
  function Plane(v: Grid, z: nat): (p: seq<seq<real>>)
    requires z < v.shape[2]
    ensures |p| == v.shape[0]
    ensures forall x | 0 <= x < |p| :: |p[x]| == v.shape[1]
    ensures forall x, y | 0 <= x < |p| && 0 <= y < |p[x]| :: p[x][y] == v.data[x][y][z]
  {
    seq(v.shape[0], x requires 0 <= x < v.shape[0] =>
      seq(v.shape[1], y requires 0 <= y < v.shape[1] => v.data[x][y][z]))
  }

  /** The number of selected values of a row. */
  function CountRow(row: seq<real>, sel: Selector): (n: nat)
    ensures n <= |row|
    ensures n > 0 <==> exists y | 0 <= y < |row| :: Selected(sel, row[y])
    decreases |row|
  {
    if row == [] then 0
    else
      var k := |row| - 1;
      assert forall y | 0 <= y < k :: row[..k][y] == row[y];
      CountRow(row[..k], sel) + (if Selected(sel, row[k]) then 1 else 0)
  }

  /** The number of selected values of a plane. */
  function CountGrid(p: seq<seq<real>>, sel: Selector): (n: nat)
    ensures n > 0 <==> exists x, y | 0 <= x < |p| && 0 <= y < |p[x]| :: Selected(sel, p[x][y])
    decreases |p|
  {
    if p == [] then 0
    else
      var k := |p| - 1;
      assert forall x | 0 <= x < k :: p[..k][x] == p[x];
      CountGrid(p[..k], sel) + CountRow(p[k], sel)
  }

  /** The number of positions where both rows are `> 0`: never more than the
      positive values of the first row, and all of them when the second row
      is positive wherever the first is. */
  function OverlapRow(g: seq<real>, q: seq<real>): (n: nat)
    requires |g| == |q|
    ensures n <= CountRow(g, Positive)
    ensures (forall y | 0 <= y < |g| :: g[y] > 0.0 ==> q[y] > 0.0) ==> n == CountRow(g, Positive)
    decreases |g|
  {
    if g == [] then 0
    else
      var k := |g| - 1;
      OverlapRow(g[..k], q[..k]) + (if g[k] > 0.0 && q[k] > 0.0 then 1 else 0)
  }

  /** `np.sum((pred > 0) & (gt > 0))` over one plane. */
  function OverlapGrid(g: seq<seq<real>>, q: seq<seq<real>>): (n: nat)
    requires |g| == |q| && forall x | 0 <= x < |g| :: |g[x]| == |q[x]|
    ensures n <= CountGrid(g, Positive)
    ensures (forall x, y | 0 <= x < |g| && 0 <= y < |g[x]| :: g[x][y] > 0.0 ==> q[x][y] > 0.0) ==> n == CountGrid(g, Positive)
    decreases |g|
  {
    if g == [] then 0
    else
      var k := |g| - 1;
      OverlapGrid(g[..k], q[..k]) + OverlapRow(g[k], q[k])
  }

  /** Selected voxels of plane `z`. */
  function PlaneCount(v: Grid, sel: Selector, z: nat): (n: nat)
    requires z < v.shape[2]
    ensures n > 0 <==> PlaneHas(v, sel, z)
  {
    var p := Plane(v, z);
    assert forall x, y | 0 <= x < |p| && 0 <= y < |p[x]| :: p[x][y] == v.data[x][y][z];
    CountGrid(p, sel)
  }

  // ---------------------------------------------------------------------
  // compute_c1_coverage
  // ---------------------------------------------------------------------

  /** Two grids of one shape that agree on plane `z` have equal planes. */
  lemma PlaneEqual(v: Grid, w: Grid, z: nat)
    requires v.shape == w.shape && z < v.shape[2]
    requires forall x, y | 0 <= x < v.shape[0] && 0 <= y < v.shape[1] :: v.data[x][y][z] == w.data[x][y][z]
    ensures Plane(v, z) == Plane(w, z)
  {
    assert forall x | 0 <= x < v.shape[0] :: Plane(v, z)[x] == Plane(w, z)[x];
  }

  /** Voxels `> 0` of every plane: the GT voxels, or the disc labels. */
  function PositiveCounts(gt: Grid): (c: seq<nat>)
    ensures |c| == gt.shape[2]
    ensures forall z | 0 <= z < |c| :: c[z] == PlaneCount(gt, Positive, z)
  {
    seq(gt.shape[2], z requires 0 <= z < gt.shape[2] => PlaneCount(gt, Positive, z))
  }

  /** GT voxels `> 0` that the prediction also marks `> 0`, for every plane;
      never more than the GT voxels of that plane. */
  function CoveredCounts(gt: Grid, pred: Grid): (c: seq<nat>)
    requires gt.shape == pred.shape
    ensures |c| == gt.shape[2]
    ensures forall z | 0 <= z < |c| :: c[z] == OverlapGrid(Plane(gt, z), Plane(pred, z)) <= PositiveCounts(gt)[z]
  {
    seq(gt.shape[2], z requires 0 <= z < gt.shape[2] => OverlapGrid(Plane(gt, z), Plane(pred, z)))
  }

  /** `mask_c1` of one plane: the closed band between the two labels. */
  predicate InBand(z: nat, sup: nat, inf: nat) {
    if sup > inf then inf <= z <= sup else sup <= z <= inf
  }

  /** A per-plane count summed over the band planes below `upto`. */
  function BandSum(counts: seq<nat>, sup: nat, inf: nat, upto: nat): nat
    requires upto <= |counts|
    decreases upto
  {
    if upto == 0 then 0
    else BandSum(counts, sup, inf, upto - 1) + (if InBand(upto - 1, sup, inf) then counts[upto - 1] else 0)
  }

  /** The percentage that the covered counts of the band make of the GT
      counts of the band, or `0.0` when the band holds no GT voxel. */
  function BandCoverage(covered: seq<nat>, total: seq<nat>, sup: nat, inf: nat): (r: real)
    requires |covered| == |total|
    ensures r >= 0.0
    ensures BandSum(total, sup, inf, |total|) == 0 ==> r == 0.0
    ensures BandSum(total, sup, inf, |total|) > 0 ==>
              r * BandSum(total, sup, inf, |total|) as real == BandSum(covered, sup, inf, |covered|) as real * 100.0
    ensures (forall z | 0 <= z < |total| :: covered[z] <= total[z]) ==> r <= 100.0
  {
    var t := BandSum(total, sup, inf, |total|);
    var c := BandSum(covered, sup, inf, |covered|);
    assert (forall z | 0 <= z < |total| :: covered[z] <= total[z]) ==> t == 0 || c as real / t as real <= 1.0 by {
      if forall z | 0 <= z < |total| :: covered[z] <= total[z] {
        BandSumMonotone(covered, total, sup, inf, |total|);
        assert c <= t;
        if t > 0 {
          RatioAtMostOne(c as real, t as real);
        }
      }
    }
    if t == 0 then 0.0 else (c as real / t as real) * 100.0
  }

  /** `compute_c1_coverage(gt, pred, sup, inf)`: the percentage of GT voxels
      of the band that the prediction also marks, or `0.0` for a band
      without GT voxel. */
  function Coverage(gt: Grid, pred: Grid, sup: nat, inf: nat): (c: real)
    requires gt.shape == pred.shape
    ensures 0.0 <= c <= 100.0
  {
    BandCoverage(CoveredCounts(gt, pred), PositiveCounts(gt), sup, inf)
  }

  /** Band sums grow with the counts in the band. */
  lemma {:induction false} BandSumMonotone(a: seq<nat>, b: seq<nat>, sup: nat, inf: nat, upto: nat)
    requires |a| == |b| && upto <= |a|
    requires forall z | 0 <= z < upto && InBand(z, sup, inf) :: a[z] <= b[z]
    ensures BandSum(a, sup, inf, upto) <= BandSum(b, sup, inf, upto)
    ensures (forall z | 0 <= z < upto && InBand(z, sup, inf) :: a[z] == b[z]) ==> BandSum(a, sup, inf, upto) == BandSum(b, sup, inf, upto)
    decreases upto
  {
    if upto > 0 {
      BandSumMonotone(a, b, sup, inf, upto - 1);
    }
  }

  /** The band sum is zero exactly when every count in the band is. */
  lemma {:induction false} BandSumZero(a: seq<nat>, sup: nat, inf: nat, upto: nat)
    requires upto <= |a|
    ensures BandSum(a, sup, inf, upto) == 0 <==> forall z | 0 <= z < upto && InBand(z, sup, inf) :: a[z] == 0
    decreases upto
  {
    if upto > 0 {
      BandSumZero(a, sup, inf, upto - 1);
    }
  }

  /** The band does not depend on which label is called `sup`. */
  lemma {:induction false} BandSymmetric(a: seq<nat>, sup: nat, inf: nat, upto: nat)
    requires upto <= |a|
    ensures BandSum(a, sup, inf, upto) == BandSum(a, inf, sup, upto)
    decreases upto
  {
    if upto > 0 {
      BandSymmetric(a, sup, inf, upto - 1);
    }
  }

  /** Swapping the two labels leaves the band, hence the coverage, unchanged. */
  lemma CoverageSymmetric(gt: Grid, pred: Grid, sup: nat, inf: nat)
    requires gt.shape == pred.shape
    ensures Coverage(gt, pred, sup, inf) == Coverage(gt, pred, inf, sup)
  {
    BandSymmetric(PositiveCounts(gt), sup, inf, gt.shape[2]);
    BandSymmetric(CoveredCounts(gt, pred), sup, inf, gt.shape[2]);
  }

  /** The coverage is `0.0` when no GT voxel `> 0` lies in the band. */
  lemma CoverageWithoutGroundTruth(gt: Grid, pred: Grid, sup: nat, inf: nat)
    requires gt.shape == pred.shape
    requires forall z: nat | z < gt.shape[2] && InBand(z, sup, inf) :: !PlaneHas(gt, Positive, z)
    ensures Coverage(gt, pred, sup, inf) == 0.0
  {
    BandSumZero(PositiveCounts(gt), sup, inf, gt.shape[2]);
  }

  /** On a plane where the prediction marks every GT voxel, the covered
      count is the GT count. */
  lemma PlaneFullyCovered(gt: Grid, pred: Grid, z: nat)
    requires gt.shape == pred.shape && z < gt.shape[2]
    requires forall x, y | 0 <= x < gt.shape[0] && 0 <= y < gt.shape[1] :: gt.data[x][y][z] > 0.0 ==> pred.data[x][y][z] > 0.0
    ensures CoveredCounts(gt, pred)[z] == PositiveCounts(gt)[z]
  {
    var p, q := Plane(gt, z), Plane(pred, z);
    assert forall x, y | 0 <= x < |p| && 0 <= y < |p[x]| :: p[x][y] > 0.0 ==> q[x][y] > 0.0;
    assert PositiveCounts(gt)[z] == CountGrid(p, Positive);
    assert CoveredCounts(gt, pred)[z] == OverlapGrid(p, q);
  }

  /** Equal covered and GT counts in a band holding GT voxels give 100
      percent. */
  lemma BandCoverageFull(covered: seq<nat>, total: seq<nat>, sup: nat, inf: nat, w: nat)
    requires |covered| == |total|
    requires forall z | 0 <= z < |total| && InBand(z, sup, inf) :: covered[z] == total[z]
    requires w < |total| && InBand(w, sup, inf) && total[w] > 0
    ensures BandCoverage(covered, total, sup, inf) == 100.0
  {
    BandSumMonotone(covered, total, sup, inf, |total|);
    BandSumZero(total, sup, inf, |total|);
    var t := BandSum(total, sup, inf, |total|);
    assert t > 0 && BandSum(covered, sup, inf, |covered|) == t;
    RatioOfEqual(t as real);
  }

  lemma RatioAtMostOne(c: real, t: real)
    requires 0.0 <= c <= t && t > 0.0
    ensures c / t <= 1.0
  {
    assert (c / t) * t == c;
  }

  lemma RatioOfEqual(r: real)
    requires r > 0.0
    ensures (r / r) * 100.0 == 100.0
  {
  }

  /** A prediction marking every GT voxel of a band that holds GT voxels
      covers 100 percent of it. */
  lemma FullCoverage(gt: Grid, pred: Grid, sup: nat, inf: nat)
    requires gt.shape == pred.shape
    requires forall x, y, z | 0 <= x < gt.shape[0] && 0 <= y < gt.shape[1] && 0 <= z < gt.shape[2] && InBand(z, sup, inf) ::
               gt.data[x][y][z] > 0.0 ==> pred.data[x][y][z] > 0.0
    requires exists z: nat | z < gt.shape[2] && InBand(z, sup, inf) :: PlaneHas(gt, Positive, z)
    ensures Coverage(gt, pred, sup, inf) == 100.0
  {
    forall z | 0 <= z < gt.shape[2] && InBand(z, sup, inf)
      ensures CoveredCounts(gt, pred)[z] == PositiveCounts(gt)[z]
    {
      PlaneFullyCovered(gt, pred, z);
    }
    var w: nat :| w < gt.shape[2] && InBand(w, sup, inf) && PlaneHas(gt, Positive, w);
    BandCoverageFull(CoveredCounts(gt, pred), PositiveCounts(gt), sup, inf, w);
  }

  /** Two pairs of volumes that agree on every voxel of the band planes have
      the same coverage: voxels outside the band never count. */
  lemma CoverageLocal(gt1: Grid, pred1: Grid, gt2: Grid, pred2: Grid, sup: nat, inf: nat)
    requires gt1.shape == pred1.shape == gt2.shape == pred2.shape
    requires forall x, y, z | 0 <= x < gt1.shape[0] && 0 <= y < gt1.shape[1] && 0 <= z < gt1.shape[2] && InBand(z, sup, inf) ::
               gt1.data[x][y][z] == gt2.data[x][y][z] && pred1.data[x][y][z] == pred2.data[x][y][z]
    ensures Coverage(gt1, pred1, sup, inf) == Coverage(gt2, pred2, sup, inf)
  {
    forall z | 0 <= z < gt1.shape[2] && InBand(z, sup, inf)
      ensures Plane(gt1, z) == Plane(gt2, z) && Plane(pred1, z) == Plane(pred2, z)
    {
      PlaneEqual(gt1, gt2, z);
      PlaneEqual(pred1, pred2, z);
    }
    BandSumMonotone(PositiveCounts(gt1), PositiveCounts(gt2), sup, inf, gt1.shape[2]);
    BandSumMonotone(CoveredCounts(gt1, pred1), CoveredCounts(gt2, pred2), sup, inf, gt1.shape[2]);
  }

  /** `gain = coverage_extend - coverage_contrast`. */
  function Gain(gt: Grid, extend: Grid, contrast: Grid, sup: nat, inf: nat): (g: real)
    requires gt.shape == extend.shape == contrast.shape
    ensures -100.0 <= g <= 100.0
  {
    Coverage(gt, extend, sup, inf) - Coverage(gt, contrast, sup, inf)
  }

  /** Two predictions that agree inside the band give no gain. */
  lemma GainZeroWhenMasksAgree(gt: Grid, extend: Grid, contrast: Grid, sup: nat, inf: nat)
    requires gt.shape == extend.shape == contrast.shape
    requires forall x, y, z | 0 <= x < gt.shape[0] && 0 <= y < gt.shape[1] && 0 <= z < gt.shape[2] && InBand(z, sup, inf) ::
               extend.data[x][y][z] == contrast.data[x][y][z]
    ensures Gain(gt, extend, contrast, sup, inf) == 0.0
  {
    CoverageLocal(gt, extend, gt, contrast, sup, inf);
  }

  /** `mask_c1`, one flag per plane: slice assignment sets whole planes
      from the lower label to the upper one, and a Python slice stops at the
      last plane. */
  method BandMask(depth: nat, sup: nat, inf: nat) returns (mask: array<bool>)
    ensures fresh(mask) && mask.Length == depth
    ensures forall k | 0 <= k < depth :: mask[k] <==> InBand(k, sup, inf)
    ensures sup == inf ==> forall k | 0 <= k < depth :: mask[k] <==> k == sup
  {
    mask := new bool[depth](_ => false);
    var lo, hi := if sup > inf then inf else sup, if sup > inf then sup else inf;
    var z := lo;
    while z < hi + 1 && z < depth
      invariant lo <= z <= hi + 1
      invariant forall k | 0 <= k < depth :: mask[k] <==> lo <= k < z
    {
      mask[z] := true;
      z := z + 1;
    }
  }

  /** `np.sum` of a per-plane count over the planes of the mask. */
  method MaskedSum(counts: seq<nat>, mask: array<bool>, sup: nat, inf: nat) returns (s: nat)
    requires mask.Length == |counts|
    requires forall k | 0 <= k < |counts| :: mask[k] <==> InBand(k, sup, inf)
    ensures s == BandSum(counts, sup, inf, |counts|)
  {
    s := 0;
    var z := 0;
    while z < |counts|
      invariant z <= |counts|
      invariant s == BandSum(counts, sup, inf, z)
    {
      if mask[z] {
        s := s + counts[z];
      }
      z := z + 1;
    }
  }

  /** `compute_c1_coverage`: restrict both segmentations to the band, count
      the GT voxels and those the prediction also marks, and take the
      percentage, or `0.0` without GT voxel. */
  method ComputeC1Coverage(gt: Grid, pred: Grid, sup: nat, inf: nat) returns (c: real)
    requires gt.shape == pred.shape
    ensures c == Coverage(gt, pred, sup, inf)
  {
    var mask := BandMask(gt.shape[2], sup, inf);
    var total := MaskedSum(PositiveCounts(gt), mask, sup, inf);
    if total == 0 {
      return 0.0;
    }
    var covered := MaskedSum(CoveredCounts(gt, pred), mask, sup, inf);
    c := (covered as real / total as real) * 100.0;
  }

  // ---------------------------------------------------------------------
  // The two top-most labels
  // ---------------------------------------------------------------------

  /** A per-plane count summed over planes `z` and above. */
  function SuffixSum(a: seq<nat>, z: nat): nat
    requires z <= |a|
    decreases |a| - z
  {
    if z == |a| then 0 else a[z] + SuffixSum(a, z + 1)
  }

  /** Planes counting zero add nothing to a suffix sum. */
  lemma {:induction false} SuffixSumZeros(a: seq<nat>, lo: nat, hi: nat)
    requires lo <= hi <= |a|
    requires forall z | lo <= z < hi :: a[z] == 0
    ensures SuffixSum(a, lo) == SuffixSum(a, hi)
    decreases hi - lo
  {
    if lo < hi {
      SuffixSumZeros(a, lo + 1, hi);
    }
  }

  /** Suffix sums shrink as the suffix does. */
  lemma {:induction false} SuffixSumMonotone(c: seq<nat>, lo: nat, hi: nat)
    requires lo <= hi <= |c|
    ensures SuffixSum(c, lo) >= SuffixSum(c, hi)
    decreases hi - lo
  {
    if lo < hi {
      SuffixSumMonotone(c, lo + 1, hi);
    }
  }

  /** The highest index below `bound` with a positive count. */
  function LastPositive(c: seq<nat>, bound: nat): (r: Option<nat>)
    requires bound <= |c|
    ensures r.Some? ==> r.value < bound && c[r.value] > 0 && forall z | r.value < z < bound :: c[z] == 0
    ensures r.None? ==> forall z | 0 <= z < bound :: c[z] == 0
    decreases bound
  {
    if bound == 0 then None
    else if c[bound - 1] > 0 then Some(bound - 1)
    else LastPositive(c, bound - 1)
  }

  /** The two top-most labelled voxels, read off the per-plane counts. */
  function TopTwoOf(c: seq<nat>): (r: Option<(nat, nat)>)
    ensures r.None? <==> SuffixSum(c, 0) < 2
    ensures r.Some? ==> r.value.1 <= r.value.0 < |c|
    ensures r.Some? ==> LastPositive(c, |c|) == Some(r.value.0)
    ensures r.Some? ==> SuffixSum(c, r.value.1) >= 2 && SuffixSum(c, r.value.1 + 1) <= 1
  {
    match LastPositive(c, |c|)
    case None =>
      SuffixSumZeros(c, 0, |c|);
      None
    case Some(sup) =>
      SuffixSumZeros(c, sup + 1, |c|);
      SuffixSumMonotone(c, 0, sup);
      assert SuffixSum(c, sup + 1) == SuffixSum(c, |c|) == 0;
      assert SuffixSum(c, sup) == c[sup];
      if c[sup] >= 2 then Some((sup, sup))
      else
        match LastPositive(c, sup)
        case None =>
          SuffixSumZeros(c, 0, sup);
          None
        case Some(inf) =>
          SuffixSumZeros(c, inf + 1, sup);
          SuffixSumMonotone(c, 0, inf);
          assert SuffixSum(c, inf) == c[inf] + SuffixSum(c, inf + 1);
          Some((sup, inf))
  }

  /** The highest plane with a positive GT count is the highest labelled
      plane. */
  lemma LastPositiveIsHighest(discs: Grid)
    ensures LastPositive(PositiveCounts(discs), discs.shape[2]) == HighestZ(discs, Positive)
  {
    var c := PositiveCounts(discs);
    var h := HighestZ(discs, Positive);
    if h.None? {
      forall z | 0 <= z < |c|
        ensures c[z] == 0
      {
        PlaneHasIffCount(discs, z);
      }
    } else {
      PlaneHasIffCount(discs, h.value);
      forall z | h.value < z < |c|
        ensures c[z] == 0
      {
        PlaneHasIffCount(discs, z);
      }
    }
    LastPositiveIsUnique(c, h);
  }

  /** The highest positive count is the one index with a positive count
      and none above it. */
  lemma LastPositiveIsUnique(c: seq<nat>, h: Option<nat>)
    requires h.None? ==> forall z | 0 <= z < |c| :: c[z] == 0
    requires h.Some? ==> h.value < |c| && c[h.value] > 0 && forall z | h.value < z < |c| :: c[z] == 0
    ensures LastPositive(c, |c|) == h
  {
  }

  /** A plane holds a labelled voxel exactly when its count is positive. */
  lemma PlaneHasIffCount(discs: Grid, z: nat)
    ensures PlaneHas(discs, Positive, z) <==> z < discs.shape[2] && PositiveCounts(discs)[z] > 0
  {
  }

  /** `(label_sup, label_inf)`: the Z of the first two voxels `> 0` of the
      disc labels once they are sorted by decreasing Z, or `None` when fewer
      than two voxels carry a label (`sorted_coords[1]` raises).
      `label_sup` is the highest labelled plane; `label_inf` is the plane on
      which, counting down from the top, the second labelled voxel is met:
      at least two labelled voxels lie on it or above, at most one above it. */
  function TopTwo(discs: Grid): (r: Option<(nat, nat)>)
    ensures r.None? <==> SuffixSum(PositiveCounts(discs), 0) < 2
    ensures r.Some? ==> r.value.1 <= r.value.0 < discs.shape[2]
    ensures r.Some? ==> HighestZ(discs, Positive) == Some(r.value.0)
    ensures r.Some? ==> SuffixSum(PositiveCounts(discs), r.value.1) >= 2 && SuffixSum(PositiveCounts(discs), r.value.1 + 1) <= 1
  {
    var c := PositiveCounts(discs);
    LastPositiveIsHighest(discs);
    TopTwoOf(c)
  }
}
