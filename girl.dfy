/**
 * girl.py: the 8-neighbour Laplacian kernel of `calculate_image_derivatives`,
 * the Wang & Bai threshold of `process_image_and_compare_methods` (the mean
 * of the boundary samples at gate 90, falling back to gate 30), and Kapur's
 * maximum-entropy threshold `calculate_kapur_entropy_threshold`.
 *
 * The entropy of a normalised histogram slice uses `np.log`; it is a
 * parameter here, and only the histogram, its cumulative sum and the
 * arg-max scan over t = 1..255 are modelled.
 */
module Girl {
  import opened Common
  import opened Sequences
  import opened BoundarySampler

  // ----- the Laplacian kernel [[1, 1, 1], [1, -8, 1], [1, 1, 1]] -----

  /**
   * `cv2.filter2D`'s default border, BORDER_REFLECT_101: an index one step
   * outside [0, n) is mirrored about the edge pixel, which is not repeated.
   */
  function Reflect(i: int, n: int): (k: int)
    requires n >= 1 && -1 <= i <= n
    ensures 0 <= k < n
    ensures 0 <= i < n ==> k == i
  {
    if n == 1 then 0 else if i < 0 then -i else if i >= n then 2 * n - 2 - i else i
  }

  /** The pixel at (r, c) after reflecting both indices into the image. */
  function At(img: seq<seq<int>>, h: int, w: int, r: int, c: int): int
    requires IsGrid(img, h, w) && h >= 1 && w >= 1 && -1 <= r <= h && -1 <= c <= w
  {
    img[Reflect(r, h)][Reflect(c, w)]
  }

  /** The kernel's response at (r, c): its eight (reflected) neighbours minus eight times itself. */
  function Laplacian(img: seq<seq<int>>, h: int, w: int, r: int, c: int): int
    requires IsGrid(img, h, w) && 0 <= r < h && 0 <= c < w
  {
    At(img, h, w, r - 1, c - 1) + At(img, h, w, r - 1, c) + At(img, h, w, r - 1, c + 1)
    + At(img, h, w, r, c - 1) - 8 * img[r][c] + At(img, h, w, r, c + 1)
    + At(img, h, w, r + 1, c - 1) + At(img, h, w, r + 1, c) + At(img, h, w, r + 1, c + 1)
  }

  /** `laplacian_image` is the kernel's response of the gray image at every pixel. */
  ghost predicate LaplacianOf(fs: Fields) {
    fs.Valid() &&
    forall r, c :: 0 <= r < fs.Height() && 0 <= c < fs.Width() ==> fs.lap[r][c] == Laplacian(fs.gray, fs.Height(), fs.Width(), r, c)
  }

  /** The kernel's weights sum to 0: on a constant image it responds with 0 everywhere, border included. */
  lemma ConstantImageHasZeroLaplacian(img: seq<seq<int>>, h: int, w: int, v: int)
    requires IsGrid(img, h, w)
    requires forall r, c :: 0 <= r < h && 0 <= c < w ==> img[r][c] == v
    ensures forall r, c :: 0 <= r < h && 0 <= c < w ==> Laplacian(img, h, w, r, c) == 0
  {
  }

  /** On an 8-bit image the response lies in [-8 * 255, 8 * 255]. */
  lemma LaplacianRange(img: seq<seq<int>>, h: int, w: int, r: int, c: int)
    requires IsByteGrid(img, h, w) && 0 <= r < h && 0 <= c < w
    ensures -2040 <= Laplacian(img, h, w, r, c) <= 2040
  {
  }

  /** A constant gray image has no boundary: its Laplacian is 0, so no edge changes sign, at any gate. */
  lemma ConstantImageGivesNoSamples(fs: Fields, v: int, tg: real)
    requires LaplacianOf(fs)
    requires forall r, c :: 0 <= r < fs.Height() && 0 <= c < fs.Width() ==> fs.gray[r][c] == v
    ensures Samples(fs, tg) == []
  {
    ConstantImageHasZeroLaplacian(fs.gray, fs.Height(), fs.Width(), v);
    ZeroLaplacianGivesNoSamples(fs, tg);
  }

  // ----- the Wang & Bai threshold with its fallback gate -----

  const PrimaryGate: real := 90.0
  const FallbackGate: real := 30.0

  /** `boundary_samples` after the fallback: the samples at gate 90, or at gate 30 when those are none. */
  function WangBaiSamples(fs: Fields): seq<real>
    requires fs.Valid()
  {
    var primary := Samples(fs, PrimaryGate);
    if |primary| > 0 then primary else Samples(fs, FallbackGate)
  }

  /** `wang_bai_thresh`: the mean of `WangBaiSamples`, or None when it is empty. */
  function WangBaiThreshold(fs: Fields): Option<real>
    requires fs.Valid()
  {
    var samples := WangBaiSamples(fs);
    if |samples| > 0 then Some(Mean(samples)) else None
  }

  /**
   * The method fails exactly when the lower gate finds nothing: by gate
   * monotonicity an empty list at 30 forces an empty list at 90.
   */
  lemma WangBaiFailsIffFallbackEmpty(fs: Fields)
    requires fs.Valid()
    ensures WangBaiThreshold(fs) == None <==> Samples(fs, FallbackGate) == []
  {
    GateMonotonicity(fs, FallbackGate, PrimaryGate);
  }

  /** A defined threshold lies between the smallest and the largest sample it averages, and so in [0, 255]. */
  lemma WangBaiThresholdBounds(fs: Fields)
    requires fs.Valid() && IsByteGrid(fs.gray, fs.Height(), fs.Width())
    ensures WangBaiThreshold(fs).Some? ==>
              Minimum(WangBaiSamples(fs)) <= WangBaiThreshold(fs).value <= Maximum(WangBaiSamples(fs))
    ensures WangBaiThreshold(fs).Some? ==> 0.0 <= WangBaiThreshold(fs).value <= 255.0
  {
    var samples := WangBaiSamples(fs);
    if |samples| > 0 {
      MeanBetweenExtremes(samples);
      SamplesInByteRange(fs, PrimaryGate);
      SamplesInByteRange(fs, FallbackGate);
      MeanWithin(samples, 0.0, 255.0);
    }
  }

  // ----- Kapur's maximum-entropy threshold -----

  /** `image_gray.ravel()`: the pixels in row-major order. */
  function Ravel(img: seq<seq<int>>): seq<int>
    decreases |img|
  {
    if |img| == 0 then [] else Ravel(img[..|img| - 1]) + img[|img| - 1]
  }

  lemma {:induction false} RavelLength(img: seq<seq<int>>, h: int, w: int)
    requires IsGrid(img, h, w)
    ensures |Ravel(img)| == h * w
    decreases h
  {
    if h > 0 {
      RavelLength(img[..h - 1], h - 1, w);
      assert h * w == (h - 1) * w + w;
    }
  }

  /** How many entries of `p` lie in [lo, hi). */
  function CountIn(p: seq<int>, lo: int, hi: int): nat
    decreases |p|
  {
    if |p| == 0 then 0
    else CountIn(p[..|p| - 1], lo, hi) + (if lo <= p[|p| - 1] < hi then 1 else 0)
  }

  lemma {:induction false} CountInSplit(p: seq<int>, lo: int, mid: int, hi: int)
    requires lo <= mid <= hi
    ensures CountIn(p, lo, hi) == CountIn(p, lo, mid) + CountIn(p, mid, hi)
    decreases |p|
  {
    if |p| > 0 {
      CountInSplit(p[..|p| - 1], lo, mid, hi);
    }
  }

  /** No entry lies in [lo, hi) exactly when the count is 0; every entry does exactly when it is |p|. */
  lemma {:induction false} CountInExtremes(p: seq<int>, lo: int, hi: int)
    ensures CountIn(p, lo, hi) <= |p|
    ensures CountIn(p, lo, hi) == 0 <==> forall k :: 0 <= k < |p| ==> !(lo <= p[k] < hi)
    ensures CountIn(p, lo, hi) == |p| <==> forall k :: 0 <= k < |p| ==> lo <= p[k] < hi
    decreases |p|
  {
    if |p| > 0 {
      var q := p[..|p| - 1];
      CountInExtremes(q, lo, hi);
      assert forall k :: 0 <= k < |q| ==> q[k] == p[k];
    }
  }

  /** `np.histogram(image_gray.ravel(), 256, [0, 256])`: one count per gray level. */
  function Histogram(p: seq<int>): (hist: seq<nat>)
    ensures |hist| == 256
  {
    seq(256, v => CountIn(p, v, v + 1))
  }

  /** `prob_dist = hist / total_pixels`. */
  function ProbDist(p: seq<int>): (prob: seq<real>)
    requires |p| > 0
    ensures |prob| == 256
  {
    var hist := Histogram(p);
    seq(256, v requires 0 <= v < 256 => hist[v] as real / |p| as real)
  }

  /** `cdf_p[t]`: the probability of the gray levels 0..t. */
  function Cdf(p: seq<int>, t: int): real
    requires |p| > 0 && 0 <= t < 256
  {
    Sum(ProbDist(p)[..t + 1])
  }

  lemma SumPrefixStep(s: seq<real>, t: int)
    requires 1 <= t <= |s|
    ensures Sum(s[..t]) == Sum(s[..t - 1]) + s[t - 1]
  {
    assert s[..t][..t - 1] == s[..t - 1];
  }

  lemma ShareSum(a: int, b: int, n: real)
    requires n > 0.0
    ensures a as real / n + b as real / n == (a + b) as real / n
  {
  }

  lemma WholeShare(n: int)
    requires n > 0
    ensures n as real / n as real == 1.0
  {
  }

  /** The cumulative sum up to level t - 1 is the share of pixels whose level lies in [0, t). */
  lemma {:induction false} CdfIsShareBelow(p: seq<int>, t: int)
    requires |p| > 0 && 1 <= t <= 256
    ensures Cdf(p, t - 1) == CountIn(p, 0, t) as real / |p| as real
    decreases t
  {
    var prob, n := ProbDist(p), |p| as real;
    SumPrefixStep(prob, t);
    var below, at := CountIn(p, 0, t - 1), CountIn(p, t - 1, t);
    assert prob[t - 1] == at as real / n;
    if t == 1 {
      assert prob[..0] == [];
      CountInExtremes(p, 0, 0);
    } else {
      CdfIsShareBelow(p, t - 1);
    }
    assert Sum(prob[..t - 1]) == below as real / n;
    CountInSplit(p, 0, t - 1, t);
    ShareSum(below, at, n);
  }

  /** The entropy of a normalised probability slice; `np.log` is not part of this model. */
  type EntropyOf = seq<real> -> real

  /** `entropy_background`: 0 when the levels below t carry no mass, else the entropy of their normalised slice. */
  function BackgroundEntropy(p: seq<int>, t: int, entropy: EntropyOf): real
    requires |p| > 0 && 1 <= t <= 255
  {
    var prob, pb := ProbDist(p), Cdf(p, t - 1);
    if pb <= 0.0 then 0.0 else entropy(seq(t, k requires 0 <= k < t => prob[k] / pb))
  }

  /** `entropy_foreground`: the same for the levels t..255, whose mass is `1 - cdf_p[t-1]`. */
  function ForegroundEntropy(p: seq<int>, t: int, entropy: EntropyOf): real
    requires |p| > 0 && 1 <= t <= 255
  {
    var prob, pf := ProbDist(p), 1.0 - Cdf(p, t - 1);
    if pf <= 0.0 then 0.0 else entropy(seq(256 - t, k requires 0 <= k < 256 - t => prob[t + k] / pf))
  }

  /** `total_entropy` for threshold t. */
  function KapurScore(p: seq<int>, t: int, entropy: EntropyOf): real
    requires |p| > 0 && 1 <= t <= 255
  {
    BackgroundEntropy(p, t, entropy) + ForegroundEntropy(p, t, entropy)
  }

  /** A background without pixels (no level below t occurs) contributes entropy 0. */
  lemma EmptyBackgroundHasNoEntropy(p: seq<int>, t: int, entropy: EntropyOf)
    requires |p| > 0 && 1 <= t <= 255
    requires forall k :: 0 <= k < |p| ==> !(0 <= p[k] < t)
    ensures BackgroundEntropy(p, t, entropy) == 0.0
  {
    CdfIsShareBelow(p, t);
    CountInExtremes(p, 0, t);
    assert CountIn(p, 0, t) == 0;
    assert Cdf(p, t - 1) == 0.0;
  }

  /** A foreground without pixels (every pixel's level lies in [0, t)) contributes entropy 0. */
  lemma EmptyForegroundHasNoEntropy(p: seq<int>, t: int, entropy: EntropyOf)
    requires |p| > 0 && 1 <= t <= 255
    requires forall k :: 0 <= k < |p| ==> 0 <= p[k] < t
    ensures ForegroundEntropy(p, t, entropy) == 0.0
  {
    CdfIsShareBelow(p, t);
    CountInExtremes(p, 0, t);
    assert CountIn(p, 0, t) == |p|;
    WholeShare(|p|);
  }

  /** t is the first threshold in 1..255 whose score is maximal. */
  ghost predicate IsFirstBest(p: seq<int>, best: int, entropy: EntropyOf)
    requires |p| > 0
  {
    1 <= best <= 255
    && (forall t :: 1 <= t <= 255 ==> KapurScore(p, t, entropy) <= KapurScore(p, best, entropy))
    && (forall t :: 1 <= t < best ==> KapurScore(p, t, entropy) < KapurScore(p, best, entropy))
  }

  /** The first maximiser is unique: the strict `>` of the scan leaves no choice. */
  lemma FirstBestUnique(p: seq<int>, b1: int, b2: int, entropy: EntropyOf)
    requires |p| > 0 && IsFirstBest(p, b1, entropy) && IsFirstBest(p, b2, entropy)
    ensures b1 == b2
  {
    var s1, s2 := KapurScore(p, b1, entropy), KapurScore(p, b2, entropy);
  }

  /**
   * `calculate_kapur_entropy_threshold`: scan t = 1..255 and keep the first t
   * whose total entropy beats every earlier one (`max_entropy` starts at
   * minus infinity, written None here).
   */
  method KapurThreshold(img: seq<seq<int>>, h: int, w: int, entropy: EntropyOf) returns (best: int)
    requires IsGrid(img, h, w) && h >= 1 && w >= 1
    ensures |Ravel(img)| == h * w
    ensures IsFirstBest(Ravel(img), best, entropy)
  {
    RavelLength(img, h, w);
    assert h * w >= 1;
    var pixels := Ravel(img);
    var maxEntropy: Option<real> := None;
    best := 0;
    for t := 1 to 256
      invariant 0 <= best < t && (best == 0 <==> t == 1)
      invariant maxEntropy == if best == 0 then None else Some(KapurScore(pixels, best, entropy))
      invariant forall u :: 1 <= u < t ==> KapurScore(pixels, u, entropy) <= KapurScore(pixels, best, entropy)
      invariant forall u :: 1 <= u < best ==> KapurScore(pixels, u, entropy) < KapurScore(pixels, best, entropy)
    {
      var backgroundEntropy := BackgroundEntropy(pixels, t, entropy);
      var foregroundEntropy := ForegroundEntropy(pixels, t, entropy);
      var totalEntropy := backgroundEntropy + foregroundEntropy;
      if maxEntropy == None || totalEntropy > maxEntropy.value {
        maxEntropy := Some(totalEntropy);
        best := t;
      }
    }
  }
}
