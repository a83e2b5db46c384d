/**
 * Boundary-point sampling of Wang & Bai (2003): scan every pixel's edge to its
 * right and to its bottom neighbour, accept the edge when the Laplacian
 * changes sign strictly across it and the two gradient magnitudes together
 * reach the gate T_g, and record the gray level linearly interpolated at the
 * Laplacian's zero crossing.
 *
 * The code appears four times in the repository (girl.py, leg.py,
 * sensitivity2noise.py and sensitivity2thresholds.py); this module is the
 * one definition they are all shown equal to.
 *
 * The specification follows the scan's own shape: the samples of one pixel,
 * of the first m pixels of a row, and of the first n rows, each a fold of
 * the previous level.
 */
module BoundarySampler {
  import opened Common
  import opened Sequences

  /**
   * The three H x W inputs of one sampling pass: the 8-bit image, its Sobel
   * gradient magnitude and its 8-neighbour Laplacian (integral, because the
   * kernel has integer weights and the image integer values).
   */
  datatype Fields = Fields(gray: seq<seq<int>>, grad: seq<seq<real>>, lap: seq<seq<int>>) {
    /** `height, width = image_gray.shape` */
    function Height(): int { |gray| }
    function Width(): int { if |gray| == 0 then 0 else |gray[0]| }
    predicate Valid() {
      IsGrid(gray, Height(), Width()) && IsGrid(grad, Height(), Width()) && IsGrid(lap, Height(), Width())
    }
  }

  datatype Direction = Right | Down

  /** The edge from origin pixel p1 = (i, j) to its right or its bottom neighbour. */
  datatype Edge = Edge(i: int, j: int, dir: Direction) {
    function FarRow(): int { if dir == Right then i else i + 1 }
    function FarCol(): int { if dir == Right then j + 1 else j }
  }

  /** Origins are visited only in rows 0..H-2 and columns 0..W-2. */
  predicate InScan(e: Edge, h: int, w: int) {
    0 <= e.i < h - 1 && 0 <= e.j < w - 1
  }

  /**
   * The acceptance rule: a strict sign change of the Laplacian and a combined
   * gradient strength of at least the gate. A zero Laplacian at either end
   * never qualifies, so the interpolation weight's denominator is positive.
   */
  predicate Accepts(l1: int, l2: int, g1: real, g2: real, tg: real)
    ensures Accepts(l1, l2, g1, g2, tg) ==> l1 != 0 && l2 != 0 && AbsInt(l1) + AbsInt(l2) > 0
    ensures Accepts(l1, l2, g1, g2, tg) <==> (l1 < 0 < l2 || l2 < 0 < l1) && g1 + g2 >= tg
  {
    l1 * l2 < 0 && g1 + g2 >= tg
  }

  /** `weight = abs(l_p1) / (abs(l_p1) + abs(l_p2))`, only ever evaluated after the sign test. */
  function Weight(l1: int, l2: int): real
    requires l1 * l2 < 0
  {
    AbsInt(l1) as real / (AbsInt(l1) + AbsInt(l2)) as real
  }

  /** `gray_sample = (1 - weight) * f_p1 + weight * f_p2` */
  function Blend(wt: real, x1: real, x2: real): real {
    (1.0 - wt) * x1 + wt * x2
  }

  /** The gray level at the Laplacian's zero crossing, by linear interpolation along the edge. */
  function Interpolate(f1: int, f2: int, l1: int, l2: int): real
    requires l1 * l2 < 0
  {
    Blend(Weight(l1, l2), f1 as real, f2 as real)
  }

  /**
   * The weight lies strictly inside (0,1), so a sample is a convex combination
   * of the two endpoint intensities: never outside them, and strictly between
   * them when they differ.
   */
  lemma InterpolationIsConvex(f1: int, f2: int, l1: int, l2: int)
    requires l1 * l2 < 0
    ensures 0.0 < Weight(l1, l2) < 1.0
    ensures f1 <= f2 ==> f1 as real <= Interpolate(f1, f2, l1, l2) <= f2 as real
    ensures f2 <= f1 ==> f2 as real <= Interpolate(f1, f2, l1, l2) <= f1 as real
    ensures f1 < f2 ==> f1 as real < Interpolate(f1, f2, l1, l2) < f2 as real
    ensures f2 < f1 ==> f2 as real < Interpolate(f1, f2, l1, l2) < f1 as real
  {
    WeightInUnitInterval(l1, l2);
    BlendBetween(Weight(l1, l2), f1 as real, f2 as real);
  }

  lemma WeightInUnitInterval(l1: int, l2: int)
    requires l1 * l2 < 0
    ensures 0.0 < Weight(l1, l2) < 1.0
  {
    var a, b := AbsInt(l1) as real, AbsInt(l2) as real;
    assert a > 0.0 && b > 0.0;
    var wt := Weight(l1, l2);
    assert wt == a / (a + b);
    assert wt * (a + b) == a;
  }

  lemma PositiveProduct(a: real, b: real)
    requires a > 0.0 && b > 0.0
    ensures a * b > 0.0
  {
  }

  /** A blend with a weight strictly inside (0,1) lies strictly between two distinct ends. */
  lemma BlendBetween(wt: real, x1: real, x2: real)
    requires 0.0 < wt < 1.0
    ensures x1 < x2 ==> x1 < Blend(wt, x1, x2) < x2
    ensures x2 < x1 ==> x2 < Blend(wt, x1, x2) < x1
    ensures x1 == x2 ==> Blend(wt, x1, x2) == x1
  {
    var b, v, d := Blend(wt, x1, x2), 1.0 - wt, x2 - x1;
    assert b == x1 + wt * d;
    assert b == x2 - v * d;
    if x1 < x2 {
      PositiveProduct(wt, d);
      PositiveProduct(v, d);
    } else if x2 < x1 {
      PositiveProduct(wt, -d);
      PositiveProduct(v, -d);
    }
  }

  predicate EdgeAccepted(fs: Fields, e: Edge, tg: real)
    requires fs.Valid() && InScan(e, fs.Height(), fs.Width())
  {
    Accepts(fs.lap[e.i][e.j], fs.lap[e.FarRow()][e.FarCol()],
            fs.grad[e.i][e.j], fs.grad[e.FarRow()][e.FarCol()], tg)
  }

  /** The interpolated gray level at an accepted edge's zero crossing. */
  function EdgeValue(fs: Fields, e: Edge): real
    requires fs.Valid() && InScan(e, fs.Height(), fs.Width())
    requires fs.lap[e.i][e.j] * fs.lap[e.FarRow()][e.FarCol()] < 0
  {
    Interpolate(fs.gray[e.i][e.j], fs.gray[e.FarRow()][e.FarCol()],
                fs.lap[e.i][e.j], fs.lap[e.FarRow()][e.FarCol()])
  }

  /**
   * What one edge appends to `boundary_samples`: its sample if accepted,
   * nothing otherwise (and nothing for an edge the scan never visits).
   */
  function EdgeSample(fs: Fields, e: Edge, tg: real): seq<real>
    requires fs.Valid()
  {
    if InScan(e, fs.Height(), fs.Width()) && EdgeAccepted(fs, e, tg) then [EdgeValue(fs, e)] else []
  }

  // ----- the scan order, for any per-edge contribution -----

  /** What each edge contributes to the output list. */
  type EdgeContribution = Edge -> seq<real>

  /** What the visit of origin (i, j) appends: the right edge's part, then the bottom edge's. */
  function PixelFold(f: EdgeContribution, i: int, j: int): seq<real> {
    f(Edge(i, j, Right)) + f(Edge(i, j, Down))
  }

  /** The inner loop: origins (i, 0), ..., (i, m-1) of row i, in order. */
  function RowFold(f: EdgeContribution, i: int, m: int): seq<real>
    decreases m
  {
    if m <= 0 then [] else RowFold(f, i, m - 1) + PixelFold(f, i, m - 1)
  }

  /** The outer loop: rows 0..n-1 of an image of width w, each over columns 0..w-2. */
  function ScanFold(f: EdgeContribution, n: int, w: int): seq<real>
    decreases n
  {
    if n <= 0 then [] else ScanFold(f, n - 1, w) + RowFold(f, n - 1, w - 1)
  }

  /** Every edge contributes at most one entry. */
  ghost predicate AtMostOneEach(f: EdgeContribution) {
    forall e :: |f(e)| <= 1
  }

  /** No edge contributes anything. */
  ghost predicate NoneAnywhere(f: EdgeContribution) {
    forall e :: f(e) == []
  }

  /** Every entry of every edge lies in [lo, hi]. */
  ghost predicate EntriesWithin(f: EdgeContribution, lo: real, hi: real) {
    forall e :: AllWithin(f(e), lo, hi)
  }

  lemma {:induction false} RowFoldLength(f: EdgeContribution, i: int, m: int)
    requires AtMostOneEach(f)
    requires m >= 0
    ensures |RowFold(f, i, m)| <= 2 * m
    decreases m
  {
    if m > 0 {
      RowFoldLength(f, i, m - 1);
      assert |f(Edge(i, m - 1, Right))| <= 1 && |f(Edge(i, m - 1, Down))| <= 1;
    }
  }

  /** With at most one entry per edge, the scan yields at most two per origin: 2n(w-1) in all. */
  lemma {:induction false} ScanFoldLength(f: EdgeContribution, n: int, w: int)
    requires AtMostOneEach(f)
    requires n >= 0 && w >= 1
    ensures |ScanFold(f, n, w)| <= 2 * n * (w - 1)
    decreases n
  {
    if n > 0 {
      ScanFoldLength(f, n - 1, w);
      RowFoldLength(f, n - 1, w - 1);
      assert 2 * n * (w - 1) == 2 * (n - 1) * (w - 1) + 2 * (w - 1);
    }
  }

  lemma {:induction false} RowFoldMembers(f: EdgeContribution, i: int, m: int)
    ensures forall s :: s in RowFold(f, i, m) <==> exists e: Edge :: e.i == i && 0 <= e.j < m && s in f(e)
    decreases m
  {
    if m > 0 {
      RowFoldMembers(f, i, m - 1);
      var r, d := Edge(i, m - 1, Right), Edge(i, m - 1, Down);
      forall s | s in RowFold(f, i, m)
        ensures exists e: Edge :: e.i == i && 0 <= e.j < m && s in f(e)
      {
        if s in f(r) {
          assert r.i == i && 0 <= r.j < m && s in f(r);
        } else if s in f(d) {
          assert d.i == i && 0 <= d.j < m && s in f(d);
        }
      }
      forall s, e: Edge | e.i == i && 0 <= e.j < m && s in f(e)
        ensures s in RowFold(f, i, m)
      {
        if e.j < m - 1 {
          assert s in RowFold(f, i, m - 1);
        } else {
          if e.dir == Right { assert e == r; } else { assert e == d; }
        }
      }
    }
  }

  /** An entry of the scan is an entry of some edge whose origin the loops visit, and conversely. */
  lemma {:induction false} ScanFoldMembers(f: EdgeContribution, n: int, w: int)
    ensures forall s :: s in ScanFold(f, n, w) <==> exists e: Edge :: 0 <= e.i < n && 0 <= e.j < w - 1 && s in f(e)
    decreases n
  {
    if n > 0 {
      ScanFoldMembers(f, n - 1, w);
      RowFoldMembers(f, n - 1, w - 1);
      forall s | s in ScanFold(f, n, w)
        ensures exists e: Edge :: 0 <= e.i < n && 0 <= e.j < w - 1 && s in f(e)
      {
        if s in ScanFold(f, n - 1, w) {
          var e: Edge :| 0 <= e.i < n - 1 && 0 <= e.j < w - 1 && s in f(e);
        } else {
          var e: Edge :| e.i == n - 1 && 0 <= e.j < w - 1 && s in f(e);
        }
      }
      forall s, e: Edge | 0 <= e.i < n && 0 <= e.j < w - 1 && s in f(e)
        ensures s in ScanFold(f, n, w)
      {
        if e.i < n - 1 {
          assert s in ScanFold(f, n - 1, w);
        } else {
          assert s in RowFold(f, n - 1, w - 1);
        }
      }
    }
  }

  lemma {:induction false} RowFoldEmpty(f: EdgeContribution, i: int, m: int)
    requires NoneAnywhere(f)
    ensures RowFold(f, i, m) == []
    decreases m
  {
    if m > 0 {
      RowFoldEmpty(f, i, m - 1);
      assert f(Edge(i, m - 1, Right)) == [] && f(Edge(i, m - 1, Down)) == [];
    }
  }

  /** Edges that contribute nothing make a scan that yields nothing. */
  lemma {:induction false} ScanFoldEmpty(f: EdgeContribution, n: int, w: int)
    requires NoneAnywhere(f)
    ensures ScanFold(f, n, w) == []
    decreases n
  {
    if n > 0 {
      ScanFoldEmpty(f, n - 1, w);
      RowFoldEmpty(f, n - 1, w - 1);
    }
  }

  lemma {:induction false} RowFoldWithin(f: EdgeContribution, i: int, m: int, lo: real, hi: real)
    requires EntriesWithin(f, lo, hi)
    ensures AllWithin(RowFold(f, i, m), lo, hi)
    decreases m
  {
    if m > 0 {
      RowFoldWithin(f, i, m - 1, lo, hi);
      AllWithinConcat(f(Edge(i, m - 1, Right)), f(Edge(i, m - 1, Down)), lo, hi);
      AllWithinConcat(RowFold(f, i, m - 1), PixelFold(f, i, m - 1), lo, hi);
    }
  }

  /** When every edge's entries lie in [lo, hi], so does the whole scan. */
  lemma {:induction false} ScanFoldWithin(f: EdgeContribution, n: int, w: int, lo: real, hi: real)
    requires EntriesWithin(f, lo, hi)
    ensures AllWithin(ScanFold(f, n, w), lo, hi)
    decreases n
  {
    if n > 0 {
      ScanFoldWithin(f, n - 1, w, lo, hi);
      RowFoldWithin(f, n - 1, w - 1, lo, hi);
      AllWithinConcat(ScanFold(f, n - 1, w), RowFold(f, n - 1, w - 1), lo, hi);
    }
  }

  /** g keeps or drops each edge's entries under f, whole. */
  ghost predicate Thins(f: EdgeContribution, g: EdgeContribution) {
    forall e :: g(e) == [] || g(e) == f(e)
  }

  lemma EdgeSubsequence(f: EdgeContribution, g: EdgeContribution, e: Edge)
    requires g(e) == [] || g(e) == f(e)
    ensures IsSubsequence(g(e), f(e))
  {
    if g(e) == [] {
      EmptySubsequence(f(e));
    } else {
      SubsequenceRefl(f(e));
    }
  }

  lemma {:induction false} RowFoldSubsequence(f: EdgeContribution, g: EdgeContribution, i: int, m: int)
    requires Thins(f, g)
    ensures IsSubsequence(RowFold(g, i, m), RowFold(f, i, m))
    decreases m
  {
    if m <= 0 {
      SubsequenceRefl<real>([]);
    } else {
      var r, d := Edge(i, m - 1, Right), Edge(i, m - 1, Down);
      RowFoldSubsequence(f, g, i, m - 1);
      EdgeSubsequence(f, g, r);
      EdgeSubsequence(f, g, d);
      SubsequenceConcat(g(r), f(r), g(d), f(d));
      SubsequenceConcat(RowFold(g, i, m - 1), RowFold(f, i, m - 1), PixelFold(g, i, m - 1), PixelFold(f, i, m - 1));
    }
  }

  /**
   * When g keeps or drops each edge's entries under f, the scan under g is a
   * subsequence of the scan under f.
   */
  lemma {:induction false} ScanFoldSubsequence(f: EdgeContribution, g: EdgeContribution, n: int, w: int)
    requires Thins(f, g)
    ensures IsSubsequence(ScanFold(g, n, w), ScanFold(f, n, w))
    decreases n
  {
    if n <= 0 {
      SubsequenceRefl<real>([]);
    } else {
      ScanFoldSubsequence(f, g, n - 1, w);
      RowFoldSubsequence(f, g, n - 1, w - 1);
      SubsequenceConcat(ScanFold(g, n - 1, w), ScanFold(f, n - 1, w), RowFold(g, n - 1, w - 1), RowFold(f, n - 1, w - 1));
    }
  }

  // ----- the boundary samples -----

  /** The per-edge contribution of `find_boundary_sample_points` on the fields `fs` at gate `tg`. */
  function EdgeSampler(fs: Fields, tg: real): EdgeContribution
    requires fs.Valid()
  {
    e => EdgeSample(fs, e, tg)
  }

  /**
   * `find_boundary_sample_points(image_gray, gradient_magnitude, laplacian_image, T_g)`:
   * origins in rows 0..H-2, each row over columns 0..W-2.
   */
  function Samples(fs: Fields, tg: real): seq<real>
    requires fs.Valid()
  {
    ScanFold(EdgeSampler(fs, tg), fs.Height() - 1, fs.Width())
  }

  /** A value is a boundary sample of `fs` when some scanned, accepted edge interpolates to it. */
  ghost predicate IsEdgeSample(fs: Fields, s: real, tg: real)
    requires fs.Valid()
  {
    exists e: Edge :: InScan(e, fs.Height(), fs.Width()) && EdgeAccepted(fs, e, tg) && s == EdgeValue(fs, e)
  }

  /** The whole scan yields at most two samples per origin pixel: at most 2(H-1)(W-1). */
  lemma SampleCountBound(fs: Fields, tg: real)
    requires fs.Valid() && fs.Height() >= 1 && fs.Width() >= 1
    ensures |Samples(fs, tg)| <= 2 * (fs.Height() - 1) * (fs.Width() - 1)
  {
    var f := EdgeSampler(fs, tg);
    forall e ensures |f(e)| <= 1 {
      assert f(e) == EdgeSample(fs, e, tg);
    }
    ScanFoldLength(f, fs.Height() - 1, fs.Width());
  }

  /**
   * The samples are exactly the interpolated values of the accepted edges:
   * every sample comes from a scanned edge that passes the test, and every
   * such edge contributes its value.
   */
  lemma SamplesAreAcceptedEdgeValues(fs: Fields, tg: real)
    requires fs.Valid()
    ensures forall s :: s in Samples(fs, tg) <==> IsEdgeSample(fs, s, tg)
  {
    var f, h, w := EdgeSampler(fs, tg), fs.Height(), fs.Width();
    ScanFoldMembers(f, h - 1, w);
    forall s | s in Samples(fs, tg)
      ensures IsEdgeSample(fs, s, tg)
    {
      var e: Edge :| 0 <= e.i < h - 1 && 0 <= e.j < w - 1 && s in f(e);
      assert f(e) == EdgeSample(fs, e, tg);
    }
    forall s | IsEdgeSample(fs, s, tg)
      ensures s in Samples(fs, tg)
    {
      var e :| InScan(e, h, w) && EdgeAccepted(fs, e, tg) && s == EdgeValue(fs, e);
      assert f(e) == EdgeSample(fs, e, tg) == [s];
    }
  }

  /** On an 8-bit image an edge's sample lies between its endpoint intensities, hence in [0,255]. */
  lemma EdgeSampleInByteRange(fs: Fields, e: Edge, tg: real)
    requires fs.Valid() && IsByteGrid(fs.gray, fs.Height(), fs.Width())
    ensures AllWithin(EdgeSample(fs, e, tg), 0.0, 255.0)
  {
    if InScan(e, fs.Height(), fs.Width()) && EdgeAccepted(fs, e, tg) {
      InterpolationIsConvex(fs.gray[e.i][e.j], fs.gray[e.FarRow()][e.FarCol()],
                            fs.lap[e.i][e.j], fs.lap[e.FarRow()][e.FarCol()]);
    }
  }

  /** On an 8-bit image every boundary sample is a gray level in [0,255]. */
  lemma SamplesInByteRange(fs: Fields, tg: real)
    requires fs.Valid() && IsByteGrid(fs.gray, fs.Height(), fs.Width())
    ensures AllWithin(Samples(fs, tg), 0.0, 255.0)
  {
    var f := EdgeSampler(fs, tg);
    forall e ensures AllWithin(f(e), 0.0, 255.0) {
      EdgeSampleInByteRange(fs, e, tg);
    }
    ScanFoldWithin(f, fs.Height() - 1, fs.Width(), 0.0, 255.0);
  }

  /** Raising the gate can only remove an edge's sample, never add or change one. */
  lemma EdgeSampleGateMonotone(fs: Fields, e: Edge, tg1: real, tg2: real)
    requires fs.Valid() && tg1 <= tg2
    ensures EdgeSample(fs, e, tg2) == [] || EdgeSample(fs, e, tg2) == EdgeSample(fs, e, tg1)
  {
  }

  /** Gate monotonicity: the samples at a larger T_g are a subsequence of those at a smaller one. */
  lemma GateMonotonicity(fs: Fields, tg1: real, tg2: real)
    requires fs.Valid() && tg1 <= tg2
    ensures IsSubsequence(Samples(fs, tg2), Samples(fs, tg1))
    ensures |Samples(fs, tg2)| <= |Samples(fs, tg1)|
    ensures Samples(fs, tg1) == [] ==> Samples(fs, tg2) == []
  {
    var f1, f2 := EdgeSampler(fs, tg1), EdgeSampler(fs, tg2);
    forall e ensures f2(e) == [] || f2(e) == f1(e) {
      EdgeSampleGateMonotone(fs, e, tg1, tg2);
    }
    ScanFoldSubsequence(f1, f2, fs.Height() - 1, fs.Width());
    SubsequenceLength(Samples(fs, tg2), Samples(fs, tg1));
  }

  /** An all-zero Laplacian field (for instance that of a constant image) yields no samples at any gate. */
  lemma ZeroLaplacianGivesNoSamples(fs: Fields, tg: real)
    requires fs.Valid()
    requires forall r, c :: 0 <= r < fs.Height() && 0 <= c < fs.Width() ==> fs.lap[r][c] == 0
    ensures Samples(fs, tg) == []
  {
    var f := EdgeSampler(fs, tg);
    forall e ensures f(e) == [] {
      if InScan(e, fs.Height(), fs.Width()) {
        assert fs.lap[e.i][e.j] == 0;
      }
    }
    ScanFoldEmpty(f, fs.Height() - 1, fs.Width());
  }

  /** Once the column index has reached W-1 (or 0 for an empty row), the row is done. */
  lemma RowDone(f: EdgeContribution, i: int, j: int, w: int)
    requires j == if w >= 1 then w - 1 else 0
    ensures RowFold(f, i, j) == RowFold(f, i, w - 1)
  {
  }

  /** Once the row index has reached H-1 (or 0 for an empty image), the whole scan is done. */
  lemma ScanDone(f: EdgeContribution, i: int, h: int, w: int)
    requires i == if h >= 1 then h - 1 else 0
    ensures ScanFold(f, i, w) == ScanFold(f, h - 1, w)
  {
  }

  /** Visiting origin (i, j) extends the samples gathered before it by its right and then its bottom edge. */
  lemma RowStep(fs: Fields, tg: real, before: seq<real>, i: int, j: int, sofar: seq<real>)
    requires fs.Valid() && j >= 0
    requires sofar == before + RowFold(EdgeSampler(fs, tg), i, j)
    ensures sofar + EdgeSample(fs, Edge(i, j, Right), tg) + EdgeSample(fs, Edge(i, j, Down), tg)
         == before + RowFold(EdgeSampler(fs, tg), i, j + 1)
  {
    var f := EdgeSampler(fs, tg);
    assert f(Edge(i, j, Right)) == EdgeSample(fs, Edge(i, j, Right), tg);
    assert f(Edge(i, j, Down)) == EdgeSample(fs, Edge(i, j, Down), tg);
    ConcatAssoc(before, RowFold(f, i, j), PixelFold(f, i, j));
    ConcatAssoc(before + RowFold(f, i, j), f(Edge(i, j, Right)), f(Edge(i, j, Down)));
  }

  /** The sample of one edge, spelled out on the three fields at its two ends. */
  lemma EdgeSampleAt(fs: Fields, e: Edge, tg: real, i2: int, j2: int)
    requires fs.Valid() && InScan(e, fs.Height(), fs.Width())
    requires i2 == e.FarRow() && j2 == e.FarCol()
    ensures Accepts(fs.lap[e.i][e.j], fs.lap[i2][j2], fs.grad[e.i][e.j], fs.grad[i2][j2], tg) ==>
              EdgeSample(fs, e, tg) == [Interpolate(fs.gray[e.i][e.j], fs.gray[i2][j2], fs.lap[e.i][e.j], fs.lap[i2][j2])]
    ensures !Accepts(fs.lap[e.i][e.j], fs.lap[i2][j2], fs.grad[e.i][e.j], fs.grad[i2][j2], tg) ==>
              EdgeSample(fs, e, tg) == []
  {
  }

  /**
   * One of the two identical blocks of the loop body: the edge from the origin
   * (i, j) to the neighbour (i2, j2) appends its interpolated gray level when
   * it is accepted.
   */
  method AppendEdgeSample(fs: Fields, i: int, j: int, i2: int, j2: int, dir: Direction, tg: real,
                          samples: seq<real>) returns (samples': seq<real>)
    requires fs.Valid() && InScan(Edge(i, j, dir), fs.Height(), fs.Width())
    requires i2 == Edge(i, j, dir).FarRow() && j2 == Edge(i, j, dir).FarCol()
    ensures samples' == samples + EdgeSample(fs, Edge(i, j, dir), tg)
  {
    var lP1, gP1, fP1 := fs.lap[i][j], fs.grad[i][j], fs.gray[i][j];
    var lP2, gP2 := fs.lap[i2][j2], fs.grad[i2][j2];
    EdgeSampleAt(fs, Edge(i, j, dir), tg, i2, j2);
    if Accepts(lP1, lP2, gP1, gP2, tg) {
      var weight := Weight(lP1, lP2);
      var graySample := Blend(weight, fP1 as real, fs.gray[i2][j2] as real);
      samples' := samples + [graySample];
    } else {
      samples' := samples;
      assert samples == samples + [];
    }
  }

  /**
   * One pass of the inner loop of `find_boundary_sample_points`: for each
   * origin of row `i`, test the right edge and then the bottom edge,
   * appending the interpolated gray level of each accepted one.
   */
  method ScanRow(fs: Fields, tg: real, i: int, samples: seq<real>) returns (samples': seq<real>)
    requires fs.Valid() && 0 <= i < fs.Height() - 1
    ensures samples' == samples + RowFold(EdgeSampler(fs, tg), i, fs.Width() - 1)
  {
    var width := fs.Width();
    ghost var f := EdgeSampler(fs, tg);
    samples' := samples;
    var j := 0;
    assert samples' == samples + RowFold(f, i, j);
    while j < width - 1
      invariant 0 <= j <= if width >= 1 then width - 1 else 0
      invariant samples' == samples + RowFold(f, i, j)
    {
      RowStep(fs, tg, samples, i, j, samples');
      samples' := AppendEdgeSample(fs, i, j, i, j + 1, Right, tg, samples');
      samples' := AppendEdgeSample(fs, i, j, i + 1, j, Down, tg, samples');
      j := j + 1;
    }
    RowDone(f, i, j, width);
  }

  /**
   * The nested loops of `find_boundary_sample_points`, rows top to bottom;
   * the result is the scan specified by `Samples`.
   */
  method FindBoundarySamplePoints(fs: Fields, tg: real) returns (samples: seq<real>)
    requires fs.Valid()
    ensures samples == Samples(fs, tg)
  {
    var height := fs.Height();
    samples := [];
    ghost var f := EdgeSampler(fs, tg);
    var i := 0;
    while i < height - 1
      invariant 0 <= i <= if height >= 1 then height - 1 else 0
      invariant samples == ScanFold(f, i, fs.Width())
    {
      samples := ScanRow(fs, tg, i, samples);
      i := i + 1;
    }
    ScanDone(f, i, height, fs.Width());
  }
}
