/**
 * leg.py: multi-threshold segmentation of a CT image. The boundary samples
 * (the same sampler as everywhere else) are clustered by k-means; the sorted
 * cluster centres become thresholds, and each band between consecutive
 * thresholds becomes one binary mask, with the literal offsets of the code
 * (-5 on the first mask's upper bound, -20 on the bounds of the others).
 *
 * k-means itself is not part of this model: its centres are an input.
 */
module Leg {
  import opened Common
  import opened Sequences
  import opened BoundarySampler

  /** `find_boundary_sample_points` of leg.py, the same loops as the shared sampler. */
  method FindBoundarySamplePoints(fs: Fields, tg: real) returns (samples: seq<real>)
    requires fs.Valid()
    ensures samples == Samples(fs, tg)
  {
    samples := BoundarySampler.FindBoundarySamplePoints(fs, tg);
  }

  // ----- k-means thresholds -----

  /**
   * `find_multilevel_thresholds_kmeans`: [] when there are no samples or
   * fewer samples than clusters, else the centres in ascending order.
   * `centres` stands for `kmeans.cluster_centers_.flatten()` on these samples.
   */
  function MultilevelThresholds(samples: seq<real>, clusters: int, centres: seq<real>): seq<real> {
    if |samples| == 0 || |samples| < clusters then [] else SortAscending(centres)
  }

  /** The guard: no thresholds exactly when the samples are too few (scikit-learn returns one centre per cluster). */
  lemma ThresholdsEmptyIff(samples: seq<real>, clusters: int, centres: seq<real>)
    requires clusters >= 1 && |centres| == clusters
    ensures MultilevelThresholds(samples, clusters, centres) == [] <==> |samples| == 0 || |samples| < clusters
  {
  }

  /** Otherwise the thresholds are the centres, rearranged into ascending order. */
  lemma ThresholdsAreSortedCentres(samples: seq<real>, clusters: int, centres: seq<real>)
    requires |samples| > 0 && |samples| >= clusters
    ensures Ascending(MultilevelThresholds(samples, clusters, centres))
    ensures multiset(MultilevelThresholds(samples, clusters, centres)) == multiset(centres)
  {
  }

  // ----- the binary masks -----

  /** `bounds = [0.0] + sorted(thresholds) + [256.0]`. */
  function Bounds(thresholds: seq<real>): (b: seq<real>)
    ensures |b| == |thresholds| + 2
  {
    [0.0] + SortAscending(thresholds) + [256.0]
  }

  /** Whether gray level g falls in mask i: the complement of [b0, b1 - 5] for i = 0, else (b_i - 20, b_{i+1} - 20]. */
  predicate InMask(bounds: seq<real>, i: int, g: int)
    requires 0 <= i < |bounds| - 1
  {
    if i == 0 then !(g as real >= bounds[0] && g as real <= bounds[1] - 5.0)
    else g as real > bounds[i] - 20.0 && g as real <= bounds[i + 1] - 20.0
  }

  /** `(mask * 255).astype(np.uint8)` for mask i. */
  function SegmentMask(img: seq<seq<int>>, h: nat, w: nat, bounds: seq<real>, i: int): seq<seq<int>>
    requires IsGrid(img, h, w) && 0 <= i < |bounds| - 1
  {
    seq(h, r requires 0 <= r < h => seq(w, c requires 0 <= c < w => if InMask(bounds, i, img[r][c]) then 255 else 0))
  }

  /** All the masks of `segment_image_by_thresholds`, one per band. */
  function Segments(img: seq<seq<int>>, h: nat, w: nat, thresholds: seq<real>): seq<seq<seq<int>>>
    requires IsGrid(img, h, w)
  {
    var bounds := Bounds(thresholds);
    seq(|bounds| - 1, i requires 0 <= i < |bounds| - 1 => SegmentMask(img, h, w, bounds, i))
  }

  /** `segment_image_by_thresholds`: one mask per band, appended in band order. */
  method SegmentImageByThresholds(img: seq<seq<int>>, h: nat, w: nat, thresholds: seq<real>)
    returns (segments: seq<seq<seq<int>>>)
    requires IsGrid(img, h, w)
    ensures |segments| == |thresholds| + 1
    ensures segments == Segments(img, h, w, thresholds)
  {
    segments := [];
    var sortedThresholds := SortAscending(thresholds);
    var bounds := [0.0] + sortedThresholds + [256.0];
    for i := 0 to |bounds| - 1
      invariant |segments| == i
      invariant forall k :: 0 <= k < i ==> segments[k] == SegmentMask(img, h, w, bounds, k)
    {
      var segmentMask := SegmentMask(img, h, w, bounds, i);
      segments := segments + [segmentMask];
    }
  }

  /** Every mask is binary, with the image's shape. */
  lemma MasksAreBinary(img: seq<seq<int>>, h: nat, w: nat, thresholds: seq<real>)
    requires IsGrid(img, h, w)
    ensures forall i :: 0 <= i < |Segments(img, h, w, thresholds)| ==> IsGrid(Segments(img, h, w, thresholds)[i], h, w)
    ensures forall i, r, c :: 0 <= i < |Segments(img, h, w, thresholds)| && 0 <= r < h && 0 <= c < w ==>
              Segments(img, h, w, thresholds)[i][r][c] in {0, 255}
  {
  }

  /** The masks depend on the thresholds only as a multiset: they are sorted first. */
  lemma SegmentsIgnoreThresholdOrder(img: seq<seq<int>>, h: nat, w: nat, t1: seq<real>, t2: seq<real>)
    requires IsGrid(img, h, w) && multiset(t1) == multiset(t2)
    ensures Segments(img, h, w, t1) == Segments(img, h, w, t2)
  {
    SortIgnoresOrder(t1, t2);
  }

  /** The first sorted threshold is the least one. */
  lemma SortedHeadIsMinimum(t: seq<real>)
    requires |t| > 0
    ensures SortAscending(t)[0] == Minimum(t)
  {
    var s := SortAscending(t);
    assert Minimum(t) in multiset(s);
    HeadIsLeast(s, Minimum(t));
    assert s[0] in multiset(t);
  }

  /** Entry (r, c) of mask i is 255 exactly when its gray level falls in band i. */
  lemma SegmentEntry(img: seq<seq<int>>, h: nat, w: nat, thresholds: seq<real>, i: int, r: int, c: int)
    requires IsGrid(img, h, w) && 0 <= i <= |thresholds| && 0 <= r < h && 0 <= c < w
    ensures Segments(img, h, w, thresholds)[i][r][c] == if InMask(Bounds(thresholds), i, img[r][c]) then 255 else 0
  {
    var m := SegmentMask(img, h, w, Bounds(thresholds), i);
    assert Segments(img, h, w, thresholds)[i] == m;
    assert m[r][c] == if InMask(Bounds(thresholds), i, img[r][c]) then 255 else 0;
  }

  /** Mask 0 marks exactly the levels outside [0, t_min - 5], t_min the least threshold. */
  lemma FirstMaskMeaning(img: seq<seq<int>>, h: nat, w: nat, thresholds: seq<real>, r: int, c: int)
    requires IsGrid(img, h, w) && |thresholds| > 0 && 0 <= r < h && 0 <= c < w
    ensures Segments(img, h, w, thresholds)[0][r][c] == 255
        <==> !(0.0 <= img[r][c] as real <= Minimum(thresholds) - 5.0)
  {
    var b := Bounds(thresholds);
    SegmentEntry(img, h, w, thresholds, 0, r, c);
    SortedHeadIsMinimum(thresholds);
    assert b[0] == 0.0 && b[1] == Minimum(thresholds);
  }

  /** Masks 1..K (K thresholds) never mark the same pixel: their bands follow the ascending thresholds. */
  lemma UpperMasksDisjoint(img: seq<seq<int>>, h: nat, w: nat, thresholds: seq<real>, i: int, k: int, r: int, c: int)
    requires IsGrid(img, h, w) && 1 <= i < k <= |thresholds| && 0 <= r < h && 0 <= c < w
    ensures !(Segments(img, h, w, thresholds)[i][r][c] == 255 && Segments(img, h, w, thresholds)[k][r][c] == 255)
  {
    var b, s := Bounds(thresholds), SortAscending(thresholds);
    SegmentEntry(img, h, w, thresholds, i, r, c);
    SegmentEntry(img, h, w, thresholds, k, r, c);
    assert b[i + 1] == s[i] && b[k] == s[k - 1];
    assert b[i + 1] <= b[k];
  }

  // ----- the gate retry of `process_ct_image` -----

  const CtGate: real := 15.0

  /** The second gate the code tries after an empty first pass; its message calls it lower, but it is higher. */
  const CtRetryGateAsWritten: real := 20.0

  /**
   * The samples `process_ct_image` goes on with: gate 15, then the retry
   * gate when gate 15 found nothing, else failure. The code as written uses
   * `CtSamples(fs, CtRetryGateAsWritten)`.
   */
  function CtSamples(fs: Fields, retryGate: real): Option<seq<real>>
    requires fs.Valid()
  {
    var first := Samples(fs, CtGate);
    if |first| > 0 then Some(first)
    else
      var retry := Samples(fs, retryGate);
      if |retry| > 0 then Some(retry) else None
  }

  /** As written the retry can never succeed: an empty list at 15 forces an empty list at 20. */
  lemma RetryAsWrittenNeverHelps(fs: Fields)
    requires fs.Valid()
    ensures CtSamples(fs, CtRetryGateAsWritten) == None <==> Samples(fs, CtGate) == []
  {
    GateMonotonicity(fs, CtGate, CtRetryGateAsWritten);
  }

  /**
   * The method fails iff both gates find nothing; with a retry gate of at
   * most 15, as the message intends, that is iff the retry gate finds nothing.
   */
  lemma CtSamplesFailIff(fs: Fields, retryGate: real)
    requires fs.Valid()
    ensures CtSamples(fs, retryGate) == None <==> Samples(fs, CtGate) == [] && Samples(fs, retryGate) == []
    ensures retryGate <= CtGate ==> (CtSamples(fs, retryGate) == None <==> Samples(fs, retryGate) == [])
    ensures CtSamples(fs, retryGate).Some? ==> CtSamples(fs, retryGate).value != []
  {
    if retryGate <= CtGate {
      GateMonotonicity(fs, retryGate, CtGate);
    }
  }

  /** A 2 x 2 image with one accepted edge of gradient sum 12: too weak for gates 15 and 20, strong enough for 10. */
  const WeakEdge: Fields := Fields([[0, 255], [0, 255]], [[6.0, 6.0], [6.0, 6.0]], [[1, -1], [1, -1]])

  /** On `WeakEdge` the code as written fails while a lower retry gate finds the edge's midpoint. */
  lemma WeakEdgeShowsRetry()
    ensures WeakEdge.Valid()
    ensures CtSamples(WeakEdge, CtRetryGateAsWritten) == None
    ensures CtSamples(WeakEdge, 10.0) == Some([127.5])
  {
    var fs := WeakEdge;
    assert fs.Valid();
    forall tg ensures Samples(fs, tg) == EdgeSample(fs, Edge(0, 0, Right), tg) + EdgeSample(fs, Edge(0, 0, Down), tg) {
      var f := EdgeSampler(fs, tg);
      assert ScanFold(f, 1, 2) == ScanFold(f, 0, 2) + RowFold(f, 0, 1);
      assert RowFold(f, 0, 1) == RowFold(f, 0, 0) + PixelFold(f, 0, 0);
    }
    forall tg ensures EdgeSample(fs, Edge(0, 0, Down), tg) == [] {
      assert !EdgeAccepted(fs, Edge(0, 0, Down), tg);
    }
    assert !EdgeAccepted(fs, Edge(0, 0, Right), 15.0);
    assert !EdgeAccepted(fs, Edge(0, 0, Right), 20.0);
    assert EdgeAccepted(fs, Edge(0, 0, Right), 10.0);
    assert Weight(1, -1) == 0.5;
    assert EdgeSample(fs, Edge(0, 0, Right), 10.0) == [127.5];
    assert Samples(fs, 10.0) == [127.5] + [];
    assert [127.5] + [] == [127.5];
    assert Samples(fs, 15.0) == [] + [];
    assert CtSamples(fs, 10.0) == Some(Samples(fs, 10.0));
  }

  /** The values `process_ct_image` returns: the thresholds and `boundary_points_found`. */
  datatype CtResult = CtResult(thresholds: seq<real>, boundaryPointsFound: nat)

  /**
   * `process_ct_image` without its I/O and plots: sample at gate 15, retry at
   * `retryGate`, cluster into `clusters` centres, and fail when either step
   * comes back empty. `centres` stands for k-means on the given samples.
   */
  function ProcessCtImage(fs: Fields, retryGate: real, clusters: int, centres: seq<real> -> seq<real>): Option<CtResult>
    requires fs.Valid()
  {
    match CtSamples(fs, retryGate)
    case None => None
    case Some(samples) =>
      var thresholds := MultilevelThresholds(samples, clusters, centres(samples));
      if |thresholds| == 0 then None else Some(CtResult(thresholds, |samples|))
  }

  /**
   * A successful run has `clusters` ascending thresholds and at least as many
   * boundary points as clusters, whatever the retry gate; and the run fails
   * when the lower of the two gates finds nothing.
   */
  lemma ProcessCtImageResult(fs: Fields, retryGate: real, clusters: int, centres: seq<real> -> seq<real>)
    requires fs.Valid() && clusters >= 1
    requires forall s :: |centres(s)| == clusters
    ensures ProcessCtImage(fs, retryGate, clusters, centres).Some? ==>
              var res := ProcessCtImage(fs, retryGate, clusters, centres).value;
              Ascending(res.thresholds) && |res.thresholds| == clusters && res.boundaryPointsFound >= clusters
    ensures Samples(fs, if retryGate < CtGate then retryGate else CtGate) == [] ==>
              ProcessCtImage(fs, retryGate, clusters, centres) == None
  {
    CtSamplesFailIff(fs, retryGate);
    if retryGate >= CtGate {
      GateMonotonicity(fs, CtGate, retryGate);
    }
    match CtSamples(fs, retryGate)
    case None =>
    case Some(samples) =>
      var cs := centres(samples);
      ThresholdsEmptyIff(samples, clusters, cs);
  }

  /**
   * `process_ct_image` as written, retrying at gate 20: it behaves exactly as
   * if there were no retry, so it fails whenever gate 15 finds nothing.
   */
  lemma ProcessCtImageAsWritten(fs: Fields, clusters: int, centres: seq<real> -> seq<real>)
    requires fs.Valid()
    ensures ProcessCtImage(fs, CtRetryGateAsWritten, clusters, centres) == ProcessCtImage(fs, CtGate, clusters, centres)
    ensures Samples(fs, CtGate) == [] ==> ProcessCtImage(fs, CtRetryGateAsWritten, clusters, centres) == None
  {
    RetryAsWrittenNeverHelps(fs);
    CtSamplesFailIff(fs, CtGate);
  }
}
