/**
 * sensitivity2thresholds.py: the boundary sampler with a second output, the
 * set of origin pixels that contributed at least one sample, and the sweep
 * of `main` over three gates, each giving a mean threshold (0 on failure).
 */
module GateSensitivity {
  import opened Common
  import opened Sequences
  import opened BoundarySampler

  type Pixel = (int, int)

  // ----- the origin set, for any per-edge contribution -----

  /** `pixel_positions.add(p1)` after an accepted edge: the origin when the edge contributes, else nothing. */
  function EdgeMark(f: EdgeContribution, e: Edge): set<Pixel> {
    if |f(e)| > 0 then {(e.i, e.j)} else {}
  }

  /** The origins marked by the first m pixels of row i. */
  function RowMarks(f: EdgeContribution, i: int, m: int): set<Pixel>
    decreases m
  {
    if m <= 0 then {}
    else RowMarks(f, i, m - 1) + EdgeMark(f, Edge(i, m - 1, Right)) + EdgeMark(f, Edge(i, m - 1, Down))
  }

  /** The origins marked by the first n rows of an image of width w. */
  function ScanMarks(f: EdgeContribution, n: int, w: int): set<Pixel>
    decreases n
  {
    if n <= 0 then {} else ScanMarks(f, n - 1, w) + RowMarks(f, n - 1, w - 1)
  }

  /** Whether origin (i, j) contributes anything through its right or bottom edge. */
  predicate Contributes(f: EdgeContribution, i: int, j: int) {
    |f(Edge(i, j, Right))| > 0 || |f(Edge(i, j, Down))| > 0
  }

  lemma {:induction false} RowMarksMember(f: EdgeContribution, i: int, m: int, p: Pixel)
    ensures p in RowMarks(f, i, m) <==> p.0 == i && 0 <= p.1 < m && Contributes(f, p.0, p.1)
    decreases m
  {
    if m > 0 {
      RowMarksMember(f, i, m - 1, p);
    }
  }

  /** A pixel is marked exactly when it is an origin the loops visit and one of its edges contributes. */
  lemma {:induction false} ScanMarksMember(f: EdgeContribution, n: int, w: int, p: Pixel)
    ensures p in ScanMarks(f, n, w) <==> 0 <= p.0 < n && 0 <= p.1 < w - 1 && Contributes(f, p.0, p.1)
    decreases n
  {
    if n > 0 {
      ScanMarksMember(f, n - 1, w, p);
      RowMarksMember(f, n - 1, w - 1, p);
    }
  }

  lemma CardinalityOfDisjointUnion<T>(a: set<T>, b: set<T>)
    requires a !! b
    ensures |a + b| == |a| + |b|
  {
    calc {
      |a + b|;
      |a| + |b| - |a * b|;
      { assert a * b == {}; }
      |a| + |b|;
    }
  }

  /** The marks of one origin: its own pixel when either edge contributes, and one or two samples for it. */
  lemma PixelMarks(f: EdgeContribution, i: int, j: int)
    requires AtMostOneEach(f)
    ensures EdgeMark(f, Edge(i, j, Right)) + EdgeMark(f, Edge(i, j, Down)) <= {(i, j)}
    ensures |EdgeMark(f, Edge(i, j, Right)) + EdgeMark(f, Edge(i, j, Down))| <= |PixelFold(f, i, j)|
         <= 2 * |EdgeMark(f, Edge(i, j, Right)) + EdgeMark(f, Edge(i, j, Down))|
  {
    var r, d := Edge(i, j, Right), Edge(i, j, Down);
    assert |f(r)| <= 1 && |f(d)| <= 1;
  }

  /** Row i's first m origins never include a later column. */
  lemma {:induction false} RowMarksFresh(f: EdgeContribution, i: int, m: int, k: int)
    requires k >= m
    ensures (i, k) !in RowMarks(f, i, m)
    decreases m
  {
    if m > 0 {
      RowMarksFresh(f, i, m - 1, k);
    }
  }

  lemma {:induction false} RowMarksCount(f: EdgeContribution, i: int, m: int)
    requires AtMostOneEach(f)
    ensures |RowMarks(f, i, m)| <= |RowFold(f, i, m)| <= 2 * |RowMarks(f, i, m)|
    decreases m
  {
    if m > 0 {
      RowMarksCount(f, i, m - 1);
      RowMarksFresh(f, i, m - 1, m - 1);
      PixelMarks(f, i, m - 1);
      var before := RowMarks(f, i, m - 1);
      var mark := EdgeMark(f, Edge(i, m - 1, Right)) + EdgeMark(f, Edge(i, m - 1, Down));
      assert before !! mark;
      CardinalityOfDisjointUnion(before, mark);
      var a, b, x, y := |before|, |mark|, |RowFold(f, i, m - 1)|, |PixelFold(f, i, m - 1)|;
      assert |RowMarks(f, i, m)| == a + b;
      assert |RowFold(f, i, m)| == x + y;
    }
  }

  /** The origins of row k are not among those of the rows above it. */
  lemma RowMarksAreNew(f: EdgeContribution, k: int, w: int)
    ensures ScanMarks(f, k, w) !! RowMarks(f, k, w - 1)
  {
    forall p: Pixel | p in ScanMarks(f, k, w) ensures p !in RowMarks(f, k, w - 1) {
      ScanMarksMember(f, k, w, p);
      RowMarksMember(f, k, w - 1, p);
    }
  }

  /** With at most one sample per edge, every marked origin accounts for one or two samples. */
  lemma {:induction false} ScanMarksCount(f: EdgeContribution, n: int, w: int)
    requires AtMostOneEach(f)
    ensures |ScanMarks(f, n, w)| <= |ScanFold(f, n, w)| <= 2 * |ScanMarks(f, n, w)|
    decreases n
  {
    if n > 0 {
      ScanMarksCount(f, n - 1, w);
      RowMarksCount(f, n - 1, w - 1);
      var earlier, row := ScanMarks(f, n - 1, w), RowMarks(f, n - 1, w - 1);
      RowMarksAreNew(f, n - 1, w);
      CardinalityOfDisjointUnion(earlier, row);
      var a, b, x, y := |earlier|, |row|, |ScanFold(f, n - 1, w)|, |RowFold(f, n - 1, w - 1)|;
      assert |ScanMarks(f, n, w)| == a + b;
      assert |ScanFold(f, n, w)| == x + y;
    }
  }

  // ----- the samples and the positions -----

  /** `pixel_positions` of `find_boundary_samples_and_positions` on the fields `fs` at gate `tg`. */
  function Positions(fs: Fields, tg: real): set<Pixel>
    requires fs.Valid()
  {
    ScanMarks(EdgeSampler(fs, tg), fs.Height() - 1, fs.Width())
  }

  /** Origin p is recorded exactly when p lies in rows 0..H-2 and columns 0..W-2 and its right or bottom edge is accepted. */
  lemma PositionsMeaning(fs: Fields, tg: real)
    requires fs.Valid()
    ensures forall p: Pixel :: p in Positions(fs, tg) <==>
              0 <= p.0 < fs.Height() - 1 && 0 <= p.1 < fs.Width() - 1
              && (EdgeAccepted(fs, Edge(p.0, p.1, Right), tg) || EdgeAccepted(fs, Edge(p.0, p.1, Down), tg))
  {
    var f := EdgeSampler(fs, tg);
    forall p: Pixel
      ensures p in Positions(fs, tg) <==>
              0 <= p.0 < fs.Height() - 1 && 0 <= p.1 < fs.Width() - 1
              && (EdgeAccepted(fs, Edge(p.0, p.1, Right), tg) || EdgeAccepted(fs, Edge(p.0, p.1, Down), tg))
    {
      ScanMarksMember(f, fs.Height() - 1, fs.Width(), p);
      assert f(Edge(p.0, p.1, Right)) == EdgeSample(fs, Edge(p.0, p.1, Right), tg);
      assert f(Edge(p.0, p.1, Down)) == EdgeSample(fs, Edge(p.0, p.1, Down), tg);
    }
  }

  /** The list and the set measure each other: |positions| <= |samples| <= 2 |positions|. */
  lemma PositionsCountSamples(fs: Fields, tg: real)
    requires fs.Valid()
    ensures |Positions(fs, tg)| <= |Samples(fs, tg)| <= 2 * |Positions(fs, tg)|
  {
    var f := EdgeSampler(fs, tg);
    forall e ensures |f(e)| <= 1 {
      assert f(e) == EdgeSample(fs, e, tg);
    }
    ScanMarksCount(f, fs.Height() - 1, fs.Width());
  }

  /** Raising the gate shrinks both outputs: the samples to a subsequence, the positions to a subset. */
  lemma PositionsShrinkWithGate(fs: Fields, tg1: real, tg2: real)
    requires fs.Valid() && tg1 <= tg2
    ensures IsSubsequence(Samples(fs, tg2), Samples(fs, tg1))
    ensures Positions(fs, tg2) <= Positions(fs, tg1)
  {
    GateMonotonicity(fs, tg1, tg2);
    var f1, f2 := EdgeSampler(fs, tg1), EdgeSampler(fs, tg2);
    var n, w := fs.Height() - 1, fs.Width();
    forall p: Pixel | p in ScanMarks(f2, n, w) ensures p in ScanMarks(f1, n, w) {
      ScanMarksMember(f1, n, w, p);
      ScanMarksMember(f2, n, w, p);
      EdgeSampleGateMonotone(fs, Edge(p.0, p.1, Right), tg1, tg2);
      EdgeSampleGateMonotone(fs, Edge(p.0, p.1, Down), tg1, tg2);
    }
  }

  // ----- the loops -----

  /** One accepted-edge block: append the edge's sample and record its origin, or do nothing. */
  method RecordEdge(fs: Fields, i: int, j: int, i2: int, j2: int, dir: Direction, tg: real,
                    samples: seq<real>, positions: set<Pixel>)
    returns (samples': seq<real>, positions': set<Pixel>)
    requires fs.Valid() && InScan(Edge(i, j, dir), fs.Height(), fs.Width())
    requires i2 == Edge(i, j, dir).FarRow() && j2 == Edge(i, j, dir).FarCol()
    ensures samples' == samples + EdgeSample(fs, Edge(i, j, dir), tg)
    ensures positions' == positions + EdgeMark(EdgeSampler(fs, tg), Edge(i, j, dir))
  {
    var lP1, gP1, fP1 := fs.lap[i][j], fs.grad[i][j], fs.gray[i][j];
    var lP2, gP2 := fs.lap[i2][j2], fs.grad[i2][j2];
    EdgeSampleAt(fs, Edge(i, j, dir), tg, i2, j2);
    if Accepts(lP1, lP2, gP1, gP2, tg) {
      var weight := Weight(lP1, lP2);
      var graySample := Blend(weight, fP1 as real, fs.gray[i2][j2] as real);
      samples' := samples + [graySample];
      positions' := positions + {(i, j)};
    } else {
      samples' := samples;
      positions' := positions;
      assert samples == samples + [];
    }
  }

  /** Visiting origin (i, j) extends the row's samples and marks by its right and then its bottom edge. */
  lemma RowStep(fs: Fields, tg: real, i: int, j: int, s0: seq<real>, p0: set<Pixel>, samples: seq<real>, positions: set<Pixel>)
    requires fs.Valid() && j >= 0
    requires samples == s0 + RowFold(EdgeSampler(fs, tg), i, j)
    requires positions == p0 + RowMarks(EdgeSampler(fs, tg), i, j)
    ensures samples + EdgeSample(fs, Edge(i, j, Right), tg) + EdgeSample(fs, Edge(i, j, Down), tg)
         == s0 + RowFold(EdgeSampler(fs, tg), i, j + 1)
    ensures positions + EdgeMark(EdgeSampler(fs, tg), Edge(i, j, Right)) + EdgeMark(EdgeSampler(fs, tg), Edge(i, j, Down))
         == p0 + RowMarks(EdgeSampler(fs, tg), i, j + 1)
  {
    BoundarySampler.RowStep(fs, tg, s0, i, j, samples);
  }

  /** One pass of the inner loop of `find_boundary_samples_and_positions`, over row i. */
  method ScanRowWithPositions(fs: Fields, tg: real, i: int, samples: seq<real>, positions: set<Pixel>)
    returns (samples': seq<real>, positions': set<Pixel>)
    requires fs.Valid() && 0 <= i < fs.Height() - 1
    ensures samples' == samples + RowFold(EdgeSampler(fs, tg), i, fs.Width() - 1)
    ensures positions' == positions + RowMarks(EdgeSampler(fs, tg), i, fs.Width() - 1)
  {
    var width := fs.Width();
    ghost var f := EdgeSampler(fs, tg);
    samples', positions' := samples, positions;
    var j := 0;
    assert samples' == samples + RowFold(f, i, j);
    while j < width - 1
      invariant 0 <= j <= if width >= 1 then width - 1 else 0
      invariant samples' == samples + RowFold(f, i, j)
      invariant positions' == positions + RowMarks(f, i, j)
    {
      RowStep(fs, tg, i, j, samples, positions, samples', positions');
      samples', positions' := RecordEdge(fs, i, j, i, j + 1, Right, tg, samples', positions');
      samples', positions' := RecordEdge(fs, i, j, i + 1, j, Down, tg, samples', positions');
      j := j + 1;
    }
    RowDone(f, i, j, width);
    assert RowMarks(f, i, j) == RowMarks(f, i, width - 1);
  }

  /** `find_boundary_samples_and_positions`: the shared samples, and the set of their origin pixels. */
  method FindBoundarySamplesAndPositions(fs: Fields, tg: real) returns (samples: seq<real>, positions: set<Pixel>)
    requires fs.Valid()
    ensures samples == Samples(fs, tg)
    ensures positions == Positions(fs, tg)
  {
    var height := fs.Height();
    samples, positions := [], {};
    ghost var f := EdgeSampler(fs, tg);
    var i := 0;
    while i < height - 1
      invariant 0 <= i <= if height >= 1 then height - 1 else 0
      invariant samples == ScanFold(f, i, fs.Width())
      invariant positions == ScanMarks(f, i, fs.Width())
    {
      samples, positions := ScanRowWithPositions(fs, tg, i, samples, positions);
      i := i + 1;
    }
    ScanDone(f, i, height, fs.Width());
    assert ScanMarks(f, i, fs.Width()) == ScanMarks(f, height - 1, fs.Width());
  }

  // ----- the threshold and the sweep of `main` -----

  /** `threshold`: the mean of the samples, or 0 when there are none. */
  function ThresholdOrZero(samples: seq<real>): real {
    if |samples| > 0 then Mean(samples) else 0.0
  }

  /** The threshold of an 8-bit image lies in [0, 255]; and a failure reads exactly like a list whose mean is 0. */
  lemma ThresholdOrZeroMeaning(fs: Fields, tg: real)
    requires fs.Valid() && IsByteGrid(fs.gray, fs.Height(), fs.Width())
    ensures 0.0 <= ThresholdOrZero(Samples(fs, tg)) <= 255.0
    ensures ThresholdOrZero([]) == ThresholdOrZero([0.0])
  {
    var samples := Samples(fs, tg);
    if |samples| > 0 {
      SamplesInByteRange(fs, tg);
      MeanWithin(samples, 0.0, 255.0);
    }
    assert [0.0][..0] == [];
  }

  /** `T_G_VALUES_TO_TEST` and `EXPECTED_THRESHOLDS`. */
  const GatesToTest: seq<real> := [40.0, 100.0, 160.0]
  const ExpectedThresholds: seq<int> := [90, 87, 92]

  /** One entry of `analysis_results`, without the binary image. */
  datatype GateResult = GateResult(tg: real, samples: seq<real>, positions: set<Pixel>, threshold: real, expected: int)

  function GateResultFor(fs: Fields, tg: real, expected: int): GateResult
    requires fs.Valid()
  {
    var samples := Samples(fs, tg);
    GateResult(tg, samples, Positions(fs, tg), ThresholdOrZero(samples), expected)
  }

  /** The loop of `main`: one result per tested gate, in order. */
  method AnalyseGates(fs: Fields) returns (analysisResults: seq<GateResult>)
    requires fs.Valid()
    ensures |analysisResults| == |GatesToTest|
    ensures forall k :: 0 <= k < |GatesToTest| ==>
              analysisResults[k] == GateResultFor(fs, GatesToTest[k], ExpectedThresholds[k])
  {
    analysisResults := [];
    for i := 0 to |GatesToTest|
      invariant |analysisResults| == i
      invariant forall k :: 0 <= k < i ==> analysisResults[k] == GateResultFor(fs, GatesToTest[k], ExpectedThresholds[k])
    {
      var tg := GatesToTest[i];
      var samples, positions := FindBoundarySamplesAndPositions(fs, tg);
      var threshold: real;
      if |samples| > 0 {
        threshold := Mean(samples);
      } else {
        threshold := 0.0;
      }
      analysisResults := analysisResults + [GateResult(tg, samples, positions, threshold, ExpectedThresholds[i])];
    }
  }

  /** Along the sweep's ascending gates the recorded positions shrink and the sample lists thin out. */
  lemma SweepShrinks(fs: Fields, k: int, m: int)
    requires fs.Valid() && 0 <= k <= m < |GatesToTest|
    ensures GateResultFor(fs, GatesToTest[m], ExpectedThresholds[m]).positions
         <= GateResultFor(fs, GatesToTest[k], ExpectedThresholds[k]).positions
    ensures IsSubsequence(GateResultFor(fs, GatesToTest[m], ExpectedThresholds[m]).samples,
                          GateResultFor(fs, GatesToTest[k], ExpectedThresholds[k]).samples)
  {
    PositionsShrinkWithGate(fs, GatesToTest[k], GatesToTest[m]);
  }
}
