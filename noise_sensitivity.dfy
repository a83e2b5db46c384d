/**
 * sensitivity2noise.py: the boundary samples and the mean threshold of each
 * of a list of images (the same picture under increasing noise), one result
 * per image in input order.
 *
 * The noisy images themselves come from `np.random.normal` and are inputs
 * here, each with its gradient magnitude and Laplacian already computed.
 */
module NoiseSensitivity {
  import opened Common
  import opened Sequences
  import opened BoundarySampler
  import Girl

  /** `find_boundary_sample_points` of sensitivity2noise.py, the same loops as the shared sampler. */
  method FindBoundarySamplePoints(fs: Fields, tg: real) returns (samples: seq<real>)
    requires fs.Valid()
    ensures samples == Samples(fs, tg)
  {
    samples := BoundarySampler.FindBoundarySamplePoints(fs, tg);
  }

  /** One entry of `results`, without the image itself and without the plot-only boundary histogram. */
  datatype NoiseResult = NoiseResult(
    title: string,
    globalHist: seq<nat>,
    boundarySamplesCount: nat,
    calculatedThreshold: Option<real>)

  /** `calculated_threshold`: the mean of the samples, None when there are none. */
  function CalculatedThreshold(samples: seq<real>): Option<real> {
    if |samples| > 0 then Some(Mean(samples)) else None
  }

  /** The result recorded for one titled image at gate tg. */
  function ResultFor(title: string, fs: Fields, tg: real): NoiseResult
    requires fs.Valid()
  {
    var samples := Samples(fs, tg);
    NoiseResult(title, Girl.Histogram(Girl.Ravel(fs.gray)), |samples|, CalculatedThreshold(samples))
  }

  /** `process_noise_analysis_images`: one result per image, appended in input order. */
  method ProcessNoiseAnalysisImages(images: seq<(string, Fields)>, tg: real) returns (results: seq<NoiseResult>)
    requires forall k :: 0 <= k < |images| ==> images[k].1.Valid()
    ensures |results| == |images|
    ensures forall k :: 0 <= k < |images| ==> results[k] == ResultFor(images[k].0, images[k].1, tg)
  {
    results := [];
    for k := 0 to |images|
      invariant |results| == k
      invariant forall m :: 0 <= m < k ==> results[m] == ResultFor(images[m].0, images[m].1, tg)
    {
      var (title, fs) := images[k];
      var globalHist := Girl.Histogram(Girl.Ravel(fs.gray));
      var boundarySamples := FindBoundarySamplePoints(fs, tg);
      var calculatedThreshold: Option<real>;
      if |boundarySamples| > 0 {
        calculatedThreshold := Some(Mean(boundarySamples));
      } else {
        calculatedThreshold := None;
      }
      results := results + [NoiseResult(title, globalHist, |boundarySamples|, calculatedThreshold)];
    }
  }

  /**
   * Each recorded result: no threshold exactly when no sample was found; a
   * threshold of an 8-bit image lies in [0, 255]; at most 2(H-1)(W-1)
   * samples are counted.
   */
  lemma ResultMeaning(title: string, fs: Fields, tg: real)
    requires fs.Valid() && IsByteGrid(fs.gray, fs.Height(), fs.Width())
    ensures ResultFor(title, fs, tg).calculatedThreshold == None <==> ResultFor(title, fs, tg).boundarySamplesCount == 0
    ensures ResultFor(title, fs, tg).calculatedThreshold.Some? ==>
              0.0 <= ResultFor(title, fs, tg).calculatedThreshold.value <= 255.0
    ensures fs.Height() >= 1 && fs.Width() >= 1 ==>
              ResultFor(title, fs, tg).boundarySamplesCount <= 2 * (fs.Height() - 1) * (fs.Width() - 1)
  {
    var samples := Samples(fs, tg);
    if fs.Height() >= 1 && fs.Width() >= 1 {
      SampleCountBound(fs, tg);
    }
    if |samples| > 0 {
      SamplesInByteRange(fs, tg);
      MeanWithin(samples, 0.0, 255.0);
    }
  }

  /** At a higher gate an image never yields more samples, and a failed threshold stays failed. */
  lemma HigherGateFewerSamples(title: string, fs: Fields, tg1: real, tg2: real)
    requires fs.Valid() && tg1 <= tg2
    ensures ResultFor(title, fs, tg2).boundarySamplesCount <= ResultFor(title, fs, tg1).boundarySamplesCount
    ensures ResultFor(title, fs, tg1).calculatedThreshold == None ==> ResultFor(title, fs, tg2).calculatedThreshold == None
  {
    GateMonotonicity(fs, tg1, tg2);
  }
}
