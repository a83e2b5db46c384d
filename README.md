# Boundary-sampling thresholds and classic segmentation, in Dafny

This project models two parts of an image-processing coursework repository and
proves properties of the model.

- **Project1.** Wang & Bai's boundary-point threshold selection. The sampler
  visits every pixel's right edge and bottom edge. It accepts an edge when the
  Laplacian changes sign strictly across it and the two gradient magnitudes
  together reach a gate `T_g`. It then records the gray level interpolated at the
  Laplacian's zero crossing. The sampler appears four times:
  - `girl.py` turns the samples into a threshold. It uses gate 90, with a
    fallback to gate 30, and sits next to Kapur's maximum-entropy threshold.
  - `leg.py` clusters the samples into several thresholds and cuts the image
    into binary masks, band by band.
  - `sensitivity2noise.py` records one threshold per noisy image.
  - `sensitivity2thresholds.py` also records the set of origin pixels. It sweeps
    three gates.
- **HW1.**
  - Seeded region growing: a breadth-first flood that writes the output image in
    place.
  - Quadtree splitting: recursive subdivision. Each leaf is filled with its
    truncated mean.
  - Canny non-maximum suppression.
  - The Laplacian-of-Gaussian zero-crossing marker.

Modules:
- `Common`, `Sequences` (`common.dfy`): the shared vocabulary. It covers optional
  results, grids, sums and means, subsequences and ascending order.
- `BoundarySampler` (`boundary_sampler.dfy`): the sampler. It defines `Samples`,
  a fold over the scan's own loop structure, and proves the nested-loop method
  equal to it. The four copies in the repository are line-for-line the same
  algorithm, and each is shown equal to this one definition.
- `Girl`, `Leg`, `NoiseSensitivity`, `GateSensitivity`: the per-script logic
  around the sampler.
- `RegionGrowing`, `QuadtreeSplit`, `CannyNms`, `LogZeroCrossing`: the HW1
  algorithms.
  - Arrays that the code writes in place are `array2` fields or parameters.
  - Images that are only read are `seq<seq<_>>` grids.
  - The methods are proved against value-level specifications: `Grid()`
    snapshots, `Paint`, `NmsAt` and `ZeroCrossingAt`.

Representation choices:
- Pixel intensities are integers in [0, 255].
- The 8-neighbour Laplacian is an integer, because its kernel has integer weights.
- Gradient magnitudes, gates, samples, means and angles are `real`.
- Inputs that library calls compute are parameters of the model:
  - Sobel gradients, Gaussian blur, `cv2.Laplacian`, `cv2.phase`, k-means
    centres and the entropy of a histogram slice.
  - The 8-neighbour kernel that `cv2.filter2D` applies is modelled, with its
    default border, but the sampler reads the Laplacian field as an input.

## Model

| member | source | states |
|---|---|---|
| BoundarySampler.Accepts | Project1/girls/girl.py:90 | an edge is accepted iff the Laplacian has strictly opposite signs at its ends and the gradient sum reaches the gate; a zero Laplacian at either end is never accepted, so the weight's denominator is positive |
| BoundarySampler.InterpolationIsConvex | Project1/girls/girl.py:92-93 | the weight lies strictly inside (0,1), and the sample lies between the two endpoint intensities (strictly between when they differ) |
| BoundarySampler.WeightInUnitInterval | Project1/girls/girl.py:92 | `abs(l1)/(abs(l1)+abs(l2))` lies strictly inside (0,1) whenever `l1*l2 < 0` |
| BoundarySampler.BlendBetween | Project1/girls/girl.py:93 | `(1-w)*f1 + w*f2` with 0<w<1 lies strictly between distinct f1 and f2, and equals them when they agree |
| BoundarySampler.RowFoldLength | Project1/girls/girl.py:74-104 | one row's first m origins contribute at most 2m samples |
| BoundarySampler.ScanFoldLength | Project1/girls/girl.py:73-104 | with at most one entry per edge, n rows of width w give at most 2n(w-1) entries |
| BoundarySampler.RowFoldMembers | Project1/girls/girl.py:74-104 | a value is in a row's output iff some edge of that row's visited origins contributes it |
| BoundarySampler.ScanFoldMembers | Project1/girls/girl.py:73-104 | a value is in the scan's output iff some edge whose origin the loops visit contributes it |
| BoundarySampler.RowFoldEmpty | Project1/girls/girl.py:74-104 | a row of edges that contribute nothing yields nothing |
| BoundarySampler.ScanFoldEmpty | Project1/girls/girl.py:73-104 | edges that contribute nothing make an empty scan |
| BoundarySampler.RowFoldWithin | Project1/girls/girl.py:74-104 | if every edge's entries lie in [lo,hi], so do a row's |
| BoundarySampler.ScanFoldWithin | Project1/girls/girl.py:73-104 | if every edge's entries lie in [lo,hi], so does the whole scan |
| BoundarySampler.EdgeSubsequence | Project1/girls/girl.py:90-94 | an edge output that is dropped or kept whole is a subsequence of the original |
| BoundarySampler.RowFoldSubsequence | Project1/girls/girl.py:74-104 | a row under a contribution that only drops whole edges is a subsequence of the row under the original |
| BoundarySampler.ScanFoldSubsequence | Project1/girls/girl.py:73-104 | the same for the whole scan |
| BoundarySampler.SampleCountBound | Project1/girls/girl.py:73-74 | at most 2(H-1)(W-1) samples |
| BoundarySampler.SamplesAreAcceptedEdgeValues | Project1/girls/girl.py:73-104 | s is a sample iff some visited edge is accepted and interpolates to s |
| BoundarySampler.EdgeSampleInByteRange | Project1/girls/girl.py:92-94 | on an 8-bit image an edge's sample lies in [0,255] |
| BoundarySampler.SamplesInByteRange | Project1/girls/girl.py:41-106 | on an 8-bit image every boundary sample lies in [0,255] |
| BoundarySampler.EdgeSampleGateMonotone | Project1/girls/girl.py:90 | at a higher gate an edge's sample is either dropped or unchanged |
| BoundarySampler.GateMonotonicity | Project1/girls/girl.py:90-100 | the samples at a larger gate are a subsequence of those at a smaller gate, so they are no more, and empty stays empty |
| BoundarySampler.ZeroLaplacianGivesNoSamples | Project1/girls/girl.py:90-100 | an all-zero Laplacian field yields no samples at any gate |
| BoundarySampler.RowStep | Project1/girls/girl.py:86-104 | visiting origin (i,j) extends the row's output by the right edge's part and then the bottom edge's part |
| BoundarySampler.EdgeSampleAt | Project1/girls/girl.py:82-104 | the sample of one edge, in terms of the three fields at its two ends: the interpolated value if accepted, else nothing |
| BoundarySampler.AppendEdgeSample | Project1/girls/girl.py:86-104 | one test-and-append block appends exactly that edge's sample |
| BoundarySampler.ScanRow | Project1/girls/girl.py:74-104 | the inner loop appends exactly row i's fold over columns 0..W-2 |
| BoundarySampler.FindBoundarySamplePoints | Project1/girls/girl.py:41-106 | the nested loops return exactly `Samples` |
| Girl.Reflect | Project1/girls/girl.py:37 | the default border of `cv2.filter2D` (reflect-101) maps an index one step outside the image back inside, and leaves indices inside unchanged |
| Girl.ConstantImageHasZeroLaplacian | Project1/girls/girl.py:31-37 | the kernel weights sum to 0, so a constant image has a Laplacian of 0 at every pixel, border included |
| Girl.LaplacianRange | Project1/girls/girl.py:31-37 | on an 8-bit image the response at every pixel lies in [-2040, 2040] |
| Girl.ConstantImageGivesNoSamples | Project1/girls/girl.py:31-106 | when `laplacian_image` is the kernel response of a constant gray image, the sampler finds no boundary point at any gate |
| Girl.WangBaiFailsIffFallbackEmpty | Project1/girls/girl.py:282-296 | the Wang & Bai threshold is None iff the fallback gate 30 finds no sample |
| Girl.WangBaiThresholdBounds | Project1/girls/girl.py:282-296 | a defined threshold lies between the least and the greatest sample averaged, hence in [0,255] |
| Girl.RavelLength | Project1/girls/girl.py:119 | the raveled image has H*W pixels |
| Girl.CountInSplit | Project1/girls/girl.py:119-126 | counts over adjacent level ranges add up |
| Girl.CountInExtremes | Project1/girls/girl.py:119-126 | a count is at most the pixel total; it is 0 iff no pixel lies in the range, and the total iff every pixel does |
| Girl.Histogram | Project1/girls/girl.py:119 | the histogram has 256 bins |
| Girl.ProbDist | Project1/girls/girl.py:122-123 | the probability distribution has 256 entries |
| Girl.CdfIsShareBelow | Project1/girls/girl.py:126-136 | `cdf_p[t-1]` is the share of pixels whose level lies in [0,t) |
| Girl.EmptyBackgroundHasNoEntropy | Project1/girls/girl.py:136-138 | a threshold with no pixel below it gives background entropy 0 |
| Girl.EmptyForegroundHasNoEntropy | Project1/girls/girl.py:146-148 | a threshold with every pixel below it gives foreground entropy 0 |
| Girl.FirstBestUnique | Project1/girls/girl.py:157-159 | the first maximiser of the entropy score is unique |
| Girl.KapurThreshold | Project1/girls/girl.py:108-161 | the scan over t = 1..255 returns the first t of maximal score, a value in [1,255] |
| Leg.FindBoundarySamplePoints | Project1/leg/leg.py:35-77 | leg.py's function is line-for-line the loops of girl.py:41-106, so the member delegates to the shared method and returns exactly `Samples` |
| Leg.ThresholdsEmptyIff | Project1/leg/leg.py:86-87 | no thresholds iff there are no samples or fewer samples than clusters |
| Leg.ThresholdsAreSortedCentres | Project1/leg/leg.py:97-100 | otherwise the thresholds are ascending and a permutation of the centres |
| Leg.Bounds | Project1/leg/leg.py:114 | the bounds list has two more entries than the thresholds |
| Leg.SegmentImageByThresholds | Project1/leg/leg.py:102-132 | the loop returns one mask per band (K+1 for K thresholds), equal to `Segments` |
| Leg.MasksAreBinary | Project1/leg/leg.py:128-129 | every mask has the image's shape and only the values 0 and 255 |
| Leg.SegmentsIgnoreThresholdOrder | Project1/leg/leg.py:111 | the masks depend only on the multiset of thresholds |
| Leg.SortedHeadIsMinimum | Project1/leg/leg.py:111-114 | the first sorted threshold is the least one |
| Leg.SegmentEntry | Project1/leg/leg.py:117-129 | entry (r,c) of mask i is 255 iff the pixel's level falls in band i |
| Leg.FirstMaskMeaning | Project1/leg/leg.py:122-123 | mask 0 marks exactly the levels outside [0, t_min - 5] |
| Leg.UpperMasksDisjoint | Project1/leg/leg.py:125-126 | no two of masks 1..K mark the same pixel |
| Leg.RetryAsWrittenNeverHelps | Project1/leg/leg.py:250-263 | as written, the retry at gate 20 fails exactly when gate 15 found nothing |
| Leg.CtSamplesFailIff | Project1/leg/leg.py:250-263 | the samples fail iff both gate 15 and the retry gate find nothing; with a retry gate of at most 15 that is iff the retry gate finds nothing; a success is non-empty |
| Leg.WeakEdgeShowsRetry | Project1/leg/leg.py:256-260 | on a concrete 2x2 input the code as written finds no samples, while a retry gate of 10 finds [127.5] |
| Leg.ProcessCtImageResult | Project1/leg/leg.py:217-309 | for any retry gate, a success has `clusters` ascending thresholds and at least that many boundary points, and no sample at the lower of the two gates means failure |
| Leg.ProcessCtImageAsWritten | Project1/leg/leg.py:217-309 | with the retry gate 20 of the code, the whole method behaves exactly as with no retry, so it fails whenever gate 15 finds nothing |
| NoiseSensitivity.FindBoundarySamplePoints | Project1/sensitivity2noise/sensitivity2noise.py:32-72 | this script's function is line-for-line the loops of girl.py:41-106, so the member delegates to the shared method and returns exactly `Samples` |
| NoiseSensitivity.ProcessNoiseAnalysisImages | Project1/sensitivity2noise/sensitivity2noise.py:120-163 | one result per image, in input order, each the image's sample count and mean-or-None threshold |
| NoiseSensitivity.ResultMeaning | Project1/sensitivity2noise/sensitivity2noise.py:146-159 | the threshold is None iff the count is 0; a threshold lies in [0,255]; the count is at most 2(H-1)(W-1) |
| NoiseSensitivity.HigherGateFewerSamples | Project1/sensitivity2noise/sensitivity2noise.py:141-151 | at a higher gate the count never grows and a missing threshold stays missing |
| GateSensitivity.RowMarksMember | Project1/sensitivity2thresholds/sensitivity2thresholds.py:53-78 | a pixel is among row i's recorded origins iff it is visited in that row and one of its edges contributes |
| GateSensitivity.ScanMarksMember | Project1/sensitivity2thresholds/sensitivity2thresholds.py:52-78 | a pixel is recorded iff the loops visit it and one of its edges contributes |
| GateSensitivity.PixelMarks | Project1/sensitivity2thresholds/sensitivity2thresholds.py:65-78 | one origin records at most itself, and 1 or 2 samples when it records itself |
| GateSensitivity.RowMarksFresh | Project1/sensitivity2thresholds/sensitivity2thresholds.py:53 | the first m origins of a row never include a later column |
| GateSensitivity.RowMarksCount | Project1/sensitivity2thresholds/sensitivity2thresholds.py:53-78 | within one row, recorded origins <= samples <= 2 * recorded origins |
| GateSensitivity.RowMarksAreNew | Project1/sensitivity2thresholds/sensitivity2thresholds.py:52-53 | a row's origins are not among those of the rows above |
| GateSensitivity.ScanMarksCount | Project1/sensitivity2thresholds/sensitivity2thresholds.py:52-78 | over the scan, recorded origins <= samples <= 2 * recorded origins |
| GateSensitivity.PositionsMeaning | Project1/sensitivity2thresholds/sensitivity2thresholds.py:48-78 | p is in `pixel_positions` iff p lies in rows 0..H-2 and columns 0..W-2 and its right or bottom edge is accepted |
| GateSensitivity.PositionsCountSamples | Project1/sensitivity2thresholds/sensitivity2thresholds.py:32-80 | \|positions\| <= \|samples\| <= 2\|positions\| |
| GateSensitivity.PositionsShrinkWithGate | Project1/sensitivity2thresholds/sensitivity2thresholds.py:65-74 | raising the gate shrinks the samples to a subsequence and the positions to a subset |
| GateSensitivity.RecordEdge | Project1/sensitivity2thresholds/sensitivity2thresholds.py:62-78 | one block appends the edge's sample and adds its origin exactly when the edge is accepted |
| GateSensitivity.RowStep | Project1/sensitivity2thresholds/sensitivity2thresholds.py:54-78 | visiting an origin extends both outputs by its right edge and then its bottom edge |
| GateSensitivity.ScanRowWithPositions | Project1/sensitivity2thresholds/sensitivity2thresholds.py:53-78 | the inner loop appends row i's samples and adds row i's recorded origins |
| GateSensitivity.FindBoundarySamplesAndPositions | Project1/sensitivity2thresholds/sensitivity2thresholds.py:32-80 | returns exactly the shared `Samples` and the recorded origins `Positions` |
| GateSensitivity.ThresholdOrZeroMeaning | Project1/sensitivity2thresholds/sensitivity2thresholds.py:204-207 | the threshold of an 8-bit image lies in [0,255]; a failure cannot be told apart from a list whose mean is 0 |
| GateSensitivity.AnalyseGates | Project1/sensitivity2thresholds/sensitivity2thresholds.py:169-220 | one result per tested gate (40, 100, 160), in order, each with its samples, positions, threshold and expected value (90, 87, 92) |
| GateSensitivity.SweepShrinks | Project1/sensitivity2thresholds/sensitivity2thresholds.py:169-201 | along the ascending gates the positions shrink and the sample lists thin to subsequences |
| RegionGrowing.RegionGrower.constructor | HW1/region_growing_test_images/region_growing.py:11-19 | the output image starts all zero, with the image's shape |
| RegionGrowing.RegionGrower.AddColumn | HW1/region_growing_test_images/region_growing.py:25-29 | the inner offset loop, skipping (0,0), lists exactly the in-image neighbours of one column offset, in order |
| RegionGrowing.RegionGrower.Get8Neighbors | HW1/region_growing_test_images/region_growing.py:21-30 | returns every in-image 8-neighbour, each once, never the pixel itself, so at most 8 |
| RegionGrowing.RegionGrower.QueueSimilarNeighbors | HW1/region_growing_test_images/region_growing.py:48-57 | appends, in order, exactly the neighbours that are unmarked and within `threshold` of the seed value |
| RegionGrowing.RegionGrower.MarkPixel | HW1/region_growing_test_images/region_growing.py:45 | sets one output entry to 255 and changes nothing else |
| RegionGrowing.RegionGrower.SkipKeepsFlooding | HW1/region_growing_test_images/region_growing.py:39-42 | popping an already-marked pixel keeps the flood invariant |
| RegionGrowing.RegionGrower.MarkKeepsFlooding | HW1/region_growing_test_images/region_growing.py:39-57 | marking the head and queueing its similar neighbours keeps the invariant, with one more marked pixel and one fewer unmarked pixel |
| RegionGrowing.RegionGrower.MarkKeepsTracks | HW1/region_growing_test_images/region_growing.py:45-46 | the marked set stays exactly the pixels changed to 255 |
| RegionGrowing.RegionGrower.MarkKeepsCover | HW1/region_growing_test_images/region_growing.py:48-57 | every similar neighbour of every marked pixel stays marked or queued |
| RegionGrowing.RegionGrower.MarkKeepsQueue | HW1/region_growing_test_images/region_growing.py:54-57 | the queue holds only in-image pixels similar to the seed, or the seed itself |
| RegionGrowing.RegionGrower.FloodStart | HW1/region_growing_test_images/region_growing.py:34-37 | the invariant holds with nothing marked and the seed alone queued |
| RegionGrowing.RegionGrower.FloodDone | HW1/region_growing_test_images/region_growing.py:38-59 | on an empty queue the invariant gives only-marks, the count, seed-already-marked means no change, similarity and closure |
| RegionGrowing.RegionGrower.Visit | HW1/region_growing_test_images/region_growing.py:39-57 | one loop round keeps the invariant and the connectivity to the seed, and either marks one pixel or shortens the queue without marking |
| RegionGrowing.ReachedGrows | HW1/region_growing_test_images/region_growing.py:38-57 | a path from the seed inside the marked pixels stays one as more pixels are marked |
| RegionGrowing.ReachedStep | HW1/region_growing_test_images/region_growing.py:50-57 | a pixel queued from a marked neighbour is reached from the seed once it is marked |
| RegionGrowing.SkipKeepsLinked | HW1/region_growing_test_images/region_growing.py:39-42 | popping a pixel keeps every queued pixel the seed or a neighbour of a marked pixel |
| RegionGrowing.MarkKeepsLinked | HW1/region_growing_test_images/region_growing.py:39-57 | marking the head keeps every marked pixel reached from the seed through marked pixels, and every queued pixel the seed or a neighbour of a marked one |
| RegionGrowing.RegionGrower.RegionGrowing | HW1/region_growing_test_images/region_growing.py:32-59 | entries only change to 255; `count` is the number of newly marked pixels; a seed already at 255 changes nothing and returns 0; every newly marked pixel except the seed is within `threshold` of the seed value; every newly marked pixel is reached from the seed by a path of 8-neighbours that were all newly marked; every similar neighbour of a newly marked pixel ends up marked; the seed ends at 255 |
| QuadtreeSplit.QuadrantsInside | HW1/region_splitting_merging_test_images/quadtree_split.py:41-56 | the four quadrants of a region of at least 2x2 pixels are non-empty, inside it and smaller, so the recursion terminates |
| QuadtreeSplit.QuadrantHolds | HW1/region_splitting_merging_test_images/quadtree_split.py:50-56 | every pixel of a region lies in one of its quadrants |
| QuadtreeSplit.QuadrantUnique | HW1/region_splitting_merging_test_images/quadtree_split.py:50-56 | a pixel lies in at most one quadrant, and only in pixels of the region |
| QuadtreeSplit.QuadTreeSplitter.constructor | HW1/region_splitting_merging_test_images/quadtree_split.py:10-19 | the result image starts all zero, with the image's shape |
| QuadtreeSplit.QuadTreeSplitter.RegionValues | HW1/region_splitting_merging_test_images/quadtree_split.py:24 | the ROI of a non-empty region is non-empty, with values in [0,255] |
| QuadtreeSplit.QuadTreeSplitter.LeafValueIsByte | HW1/region_splitting_merging_test_images/quadtree_split.py:27-37 | a leaf's fill value, the truncated mean, lies in [0,255] |
| QuadtreeSplit.QuadTreeSplitter.LeafOf | HW1/region_splitting_merging_test_images/quadtree_split.py:34-56 | the leaf reached for a pixel is a non-empty region inside the start region that holds the pixel and passes the leaf test |
| QuadtreeSplit.QuadTreeSplitter.LeafIsLeaf | HW1/region_splitting_merging_test_images/quadtree_split.py:34-56 | every leaf the recursion fills is inside the start region and passes the leaf test |
| QuadtreeSplit.QuadTreeSplitter.QuadrantOfLeaf | HW1/region_splitting_merging_test_images/quadtree_split.py:50-56 | a leaf of a split region comes from one of its quadrants |
| QuadtreeSplit.QuadTreeSplitter.LeavesTile | HW1/region_splitting_merging_test_images/quadtree_split.py:21-56 | the leaves tile the region: each pixel lies in exactly one leaf, and its painted value is that leaf's truncated mean |
| QuadtreeSplit.QuadTreeSplitter.PaintLeaf | HW1/region_splitting_merging_test_images/quadtree_split.py:34-37 | painting a leaf is filling it with its truncated mean |
| QuadtreeSplit.QuadTreeSplitter.PaintQuadrants | HW1/region_splitting_merging_test_images/quadtree_split.py:50-56 | painting the four quadrants in the source's order paints the whole region |
| QuadtreeSplit.QuadTreeSplitter.FillRow | HW1/region_splitting_merging_test_images/quadtree_split.py:37 | one row of the slice assignment sets columns x..x+w-1 of that row and nothing else |
| QuadtreeSplit.QuadTreeSplitter.FillRegion | HW1/region_splitting_merging_test_images/quadtree_split.py:37 | the slice assignment sets exactly the region's pixels to the value |
| QuadtreeSplit.QuadTreeSplitter.Split | HW1/region_splitting_merging_test_images/quadtree_split.py:21-56 | afterwards each pixel of the region holds its painted value and every other pixel is unchanged |
| QuadtreeSplit.QuadTreeSplitter.SplitQuadrants | HW1/region_splitting_merging_test_images/quadtree_split.py:41-56 | the four recursive calls together paint the whole region |
| QuadtreeSplit.QuadTreeSplitter.Run | HW1/region_splitting_merging_test_images/quadtree_split.py:58-62 | every pixel of the returned image holds the truncated mean of the one leaf containing it, a value in [0,255] |
| CannyNms.SectorsCoverHalfTurn | HW1/edge_detection_test_images/canny_edge_detection.py:24-38 | the four angle ranges together cover exactly [0,180] |
| CannyNms.FoldRange | HW1/edge_detection_test_images/canny_edge_detection.py:15 | a signed angle in [-180,180] folds into [0,180], onto the same gradient line, and so into a sector |
| CannyNms.NmsValue | HW1/edge_detection_test_images/canny_edge_detection.py:41-44 | an interior output is the pixel's magnitude or 0, never anything else |
| CannyNms.Direction | HW1/edge_detection_test_images/canny_edge_detection.py:24-38 | each sector compares along a non-zero unit offset |
| CannyNms.NmsMeaning | HW1/edge_detection_test_images/canny_edge_detection.py:20-44 | a pixel keeps its magnitude iff it is a local maximum along its sector's line; without a sector (both neighbours 255) iff its magnitude is at least 255 |
| CannyNms.ThinAlongGradient | HW1/edge_detection_test_images/canny_edge_detection.py:24-44 | two neighbouring pixels along a shared gradient line both survive only when their magnitudes are equal |
| CannyNms.PhaseAsWrittenSuppressesPeaks | HW1/edge_detection_test_images/canny_edge_detection.py:15-63 | an angle in (180,360), which `cv2.phase` produces, survives the fold without a sector, so a peak below 255 is zeroed |
| CannyNms.IsolatedPeakAt270 | HW1/edge_detection_test_images/canny_edge_detection.py:15-63 | a lone peak of 100 at angle 270 is suppressed as written and kept under the intended fold |
| CannyNms.FoldPhaseHasSector | HW1/edge_detection_test_images/canny_edge_detection.py:15-63 | the intended fold takes any angle in [-180,360) into [0,180], onto the same line and into a sector |
| CannyNms.PeakKept | HW1/edge_detection_test_images/canny_edge_detection.py:24-44 | under the intended fold a peak of its 3x3 neighbourhood always survives |
| CannyNms.NonMaxSuppression | HW1/edge_detection_test_images/canny_edge_detection.py:9-48 | negative angles gain 180 in place and the rest are unchanged; the fresh output is 0 on the border and `NmsValue` at the interior; every index read is in bounds, so the `IndexError` handler is unreachable |
| CannyNms.SuppressRow | HW1/edge_detection_test_images/canny_edge_detection.py:18-44 | one pass of the inner loop fills row i with its final values and leaves the other rows alone |
| LogZeroCrossing.ZeroCrossingAt | HW1/edge_detection_test_images/laplacian_edge_detection.py:24-42 | each entry is 0 or 255, and the last row and the last column are 0 |
| LogZeroCrossing.NegativeProduct | HW1/edge_detection_test_images/laplacian_edge_detection.py:33-40 | `curr*other < 0` iff strictly opposite signs, and then the two values differ |
| LogZeroCrossing.MarkedMeaning | HW1/edge_detection_test_images/laplacian_edge_detection.py:29-42 | (r,c) is 255 iff it is off the last row and column and has, to its right or below, a strictly opposite sign with a jump above the threshold; the `continue` does not change the result |
| LogZeroCrossing.NonPositiveThresholdIsSignChange | HW1/edge_detection_test_images/laplacian_edge_detection.py:33-41 | for a threshold <= 0 marking is exactly a sign change to the right or below |
| LogZeroCrossing.ThresholdMonotone | HW1/edge_detection_test_images/laplacian_edge_detection.py:34-41 | raising the threshold never adds a mark |
| LogZeroCrossing.FlatResponseUnmarked | HW1/edge_detection_test_images/laplacian_edge_detection.py:33-40 | an all-zero response marks nothing |
| LogZeroCrossing.ZeroCrossings | HW1/edge_detection_test_images/laplacian_edge_detection.py:23-44 | returns a fresh image of the response's shape holding `ZeroCrossingAt` everywhere |
| LogZeroCrossing.MarkRow | HW1/edge_detection_test_images/laplacian_edge_detection.py:28-42 | the column loop, with its early `continue`, fills row r with its final values and leaves the other rows alone |

## Left out

- Reading and writing images, `mkdir`, console reports, every plotting function, `main` drivers, and the mouse and window loop (`on_mouse`, `run_and_plot`). None of these hold algorithmic logic.
- Library computations are inputs of the model rather than code in it. These are `cv2.Sobel`, the square-root gradient magnitude, `cv2.GaussianBlur`, `cv2.Laplacian`, `cv2.phase`, `cv2.magnitude`, `cv2.Canny`, `cv2.threshold` (Otsu and the binary images) and scikit-learn `KMeans`. The 8-neighbour Laplacian kernel of `calculate_image_derivatives` (`cv2.filter2D` with its default reflect-101 border) is modelled, but the Laplacian field the sampler reads is an input; `Girl.LaplacianOf` ties the two together where a lemma needs it.
- `cv2.convertScaleAbs`, the last step of `non_max_suppression`, is not part of this model. `NonMaxSuppression` returns `nms_img` before that conversion.
- Kapur's entropy of a histogram slice uses `np.log`. It is a function parameter, so only the histogram, the cumulative sum and the arg-max scan are modelled.
- The random noisy images of `create_noisy_images` (`np.random.normal`, `cv2.circle`) are inputs.
- The plot-only `boundary_hist` of `process_noise_analysis_images` is left out, and so is the stored image itself.
- `cv2.meanStdDev` is exact here. The test `std <= std_thresh` is stated as `std_thresh >= 0 && variance <= std_thresh^2`, which is equivalent for a non-negative standard deviation.
- IEEE-754 rounding: all float arithmetic is exact `real` arithmetic.
- The `draw_lines` canvas of the quadtree splitter and its `cv2.line` calls are left out.
- QuadtreeSplit.QuadTreeSplitter.Split: requires a non-empty region inside the image and `min_size >= 1`. With `min_size <= 0` and a negative `std_thresh` the source recursion reaches empty regions and does not stop. `Run` accordingly requires a non-empty image.
- RegionGrowing.RegionGrower.RegionGrowing: requires the seed to lie inside the image. The source then indexes the image; NumPy's negative indices would wrap around instead.
- GateSensitivity.AnalyseGates: `cv2.threshold` of the image at the computed threshold (the binary image) is not recorded in the result.
- gradient_edge_detection.py, gaussian_filter.py and threshold_segmentation.py are thin OpenCV wrappers and are not part of this model.

## Findings

| source | as written | input that shows it | evidently intended | confidence | as-written member | corrected member |
|---|---|---|---|---|---|---|
| Project1/leg/leg.py:256-260 | after no sample at gate 15, the code retries at gate 20, which its message calls lower | any image with no sample at 15, for instance `Leg.WeakEdge` (one accepted edge of gradient sum 12): the retry at 20 also finds nothing | a retry gate below 15 (10 finds the edge's sample 127.5) | not executed | Leg.RetryAsWrittenNeverHelps, Leg.ProcessCtImageAsWritten, Leg.WeakEdgeShowsRetry | Leg.CtSamplesFailIff, Leg.ProcessCtImageResult |
| HW1/edge_detection_test_images/canny_edge_detection.py:15-63 | the angles come from `cv2.phase`, in [0,360), but only negative angles are folded, so angles in (180,360) match no sector and are compared with 255 | `CannyNms.IsolatedPeak`: a lone magnitude of 100 at angle 270 is zeroed | fold angles above 180 by subtracting 180, so every angle falls into a sector | not executed | CannyNms.PhaseAsWrittenSuppressesPeaks, CannyNms.IsolatedPeakAt270 | CannyNms.FoldPhaseHasSector, CannyNms.PeakKept |
