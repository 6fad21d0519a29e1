/**
 * get_threshold (Otsu's method, and the two constant variants) and
 * apply_threshold over a grayscale surface whose pixels are stored row by
 * row; a pixel's intensity is its red channel.
 */
module Threshold {

  /** An 8-bit channel value. */
  type Intensity = v: int | 0 <= v < 256

  /** A grayscale surface: `w * h` intensities, row `y` at positions y*w .. y*w + w - 1. */
  datatype Gray = Gray(w: nat, h: nat, pixels: seq<Intensity>)

  /** The pixel buffer holds exactly `w * h` pixels. */
  predicate Valid(g: Gray)
  {
    |g.pixels| == g.w * g.h
  }

  /** The 256-bin histogram of the intensities. */
  function Histogram(p: seq<Intensity>): (hist: seq<nat>)
    ensures |hist| == 256
  {
    seq(256, v => multiset(p)[v])
  }

  /** Number of pixels in the bins below `t` (the background weight `wB` once bin t-1 is added). */
  function Count(hist: seq<nat>, t: nat): nat
    requires t <= |hist|
  {
    if t == 0 then 0 else Count(hist, t - 1) + hist[t - 1]
  }

  /** Sum of the intensities of the pixels in the bins below `t` (`sum` for t = 256, `sumB` otherwise). */
  function Mass(hist: seq<nat>, t: nat): nat
    requires t <= |hist|
  {
    if t == 0 then 0 else Mass(hist, t - 1) + (t - 1) * hist[t - 1]
  }

  /** wB * wF * (mB - mF)^2 with the two class means. */
  function BetweenVariance(wB: int, wF: int, sumB: real, sum: real): real
    requires wB != 0 && wF != 0
  {
    var mB := sumB / wB as real;
    var mF := (sum - sumB) / wF as real;
    wB as real * wF as real * (mB - mF) * (mB - mF)
  }

  /**
   * The between-class variance of threshold `t`: the background is the bins
   * 0..t, the foreground the rest; 0 when either class is empty.
   */
  function Variance(hist: seq<nat>, t: int): real
    requires |hist| == 256 && 0 <= t < 256
  {
    var wB := Count(hist, t + 1);
    var wF := Count(hist, 256) - wB;
    if wB == 0 || wF == 0 then 0.0
    else BetweenVariance(wB, wF, Mass(hist, t + 1) as real, Mass(hist, 256) as real)
  }

  /**
   * Otsu's choice: the smallest threshold of greatest positive between-class
   * variance, or 0 when no threshold has a positive variance.
   */
  ghost predicate IsOtsu(hist: seq<nat>, t: int)
    requires |hist| == 256
  {
    && 0 <= t < 256
    && ((forall u :: 0 <= u < 256 ==> Variance(hist, u) <= 0.0) ==> t == 0)
    && ((exists u :: 0 <= u < 256 && Variance(hist, u) > 0.0) ==>
          && Variance(hist, t) > 0.0
          && (forall u :: 0 <= u < t ==> Variance(hist, u) < Variance(hist, t))
          && (forall u :: 0 <= u < 256 ==> Variance(hist, u) <= Variance(hist, t)))
  }

  /** The state of the threshold scan over bins below `n`: `varMax` is the greatest variance met, first at `thr`. */
  ghost predicate FirstMax(hist: seq<nat>, n: int, varMax: real, thr: int)
    requires |hist| == 256 && 0 <= n <= 256
  {
    && 0 <= thr < 256 && varMax >= 0.0
    && (forall u :: 0 <= u < n ==> Variance(hist, u) <= varMax)
    && (varMax == 0.0 ==> thr == 0)
    && (varMax > 0.0 ==> thr < n && Variance(hist, thr) == varMax && forall u :: 0 <= u < thr ==> Variance(hist, u) < varMax)
  }

  /** The histogram of the pixels, counted one pixel at a time (`histogram[r]++`). */
  method BuildHistogram(pixels: seq<Intensity>) returns (histogram: array<nat>)
    ensures fresh(histogram) && histogram[..] == Histogram(pixels)
  {
    histogram := new nat[256](_ => 0);
    assert histogram[..] == Histogram(pixels[..0]);
    var i := 0;
    while i < |pixels|
      invariant 0 <= i <= |pixels| && histogram.Length == 256
      invariant histogram[..] == Histogram(pixels[..i])
    {
      HistogramSnoc(pixels[..i], pixels[i]);
      assert pixels[..i + 1] == pixels[..i] + [pixels[i]];
      histogram[pixels[i]] := histogram[pixels[i]] + 1;
      i := i + 1;
    }
    assert pixels[..i] == pixels;
  }

  /** One more pixel adds one to its own bin. */
  lemma HistogramSnoc(p: seq<Intensity>, v: Intensity)
    ensures Histogram(p + [v]) == Histogram(p)[v := Histogram(p)[v] + 1]
  {
    assert multiset(p + [v]) == multiset(p) + multiset{v};
  }

  /** The histogram's bins add up to the number of pixels. */
  lemma {:induction false} HistogramTotal(p: seq<Intensity>)
    ensures Count(Histogram(p), 256) == |p|
  {
    if |p| == 0 {
      CountZero(Histogram(p), 256);
    } else {
      var q, v := p[..|p| - 1], p[|p| - 1];
      assert p == q + [v];
      HistogramTotal(q);
      HistogramSnoc(q, v);
      CountBump(Histogram(q), v, 256);
    }
  }

  /** All-empty bins count nothing. */
  lemma {:induction false} CountZero(hist: seq<nat>, t: nat)
    requires t <= |hist| && forall i :: 0 <= i < |hist| ==> hist[i] == 0
    ensures Count(hist, t) == 0
  {
    if t > 0 {
      CountZero(hist, t - 1);
    }
  }

  /** Adding one to bin `v` adds one to every count that includes it. */
  lemma {:induction false} CountBump(hist: seq<nat>, v: int, t: nat)
    requires 0 <= v < |hist| && t <= |hist|
    ensures Count(hist[v := hist[v] + 1], t) == Count(hist, t) + (if v < t then 1 else 0)
  {
    if t > 0 {
      CountBump(hist, v, t - 1);
    }
  }

  /** Counts grow with the number of bins included. */
  lemma {:induction false} CountMonotone(hist: seq<nat>, s: nat, t: nat)
    requires s <= t <= |hist|
    ensures Count(hist, s) <= Count(hist, t)
    decreases t - s
  {
    if s < t {
      CountMonotone(hist, s, t - 1);
    }
  }

  /** The between-class variance is never negative. */
  lemma VarianceNonNegative(hist: seq<nat>, t: int)
    requires |hist| == 256 && 0 <= t < 256
    ensures Variance(hist, t) >= 0.0
  {
    var wB := Count(hist, t + 1);
    var wF := Count(hist, 256) - wB;
    CountMonotone(hist, t + 1, 256);
    if wB != 0 && wF != 0 {
      BetweenVarianceNonNegative(wB, wF, Mass(hist, t + 1) as real, Mass(hist, 256) as real);
    }
  }

  lemma BetweenVarianceNonNegative(wB: int, wF: int, sumB: real, sum: real)
    requires wB > 0 && wF > 0
    ensures BetweenVariance(wB, wF, sumB, sum) >= 0.0
  {
    var d := sumB / wB as real - (sum - sumB) / wF as real;
    var c := wB as real * wF as real;
    assert c > 0.0;
    assert d * d >= 0.0;
    assert BetweenVariance(wB, wF, sumB, sum) == c * d * d;
  }

  /** A threshold whose background is still empty has variance 0 and adds no intensity. */
  lemma SkipEmpty(hist: seq<nat>, t: int, varMax: real, thr: int)
    requires |hist| == 256 && 0 <= t < 256
    requires Count(hist, t + 1) == 0
    requires FirstMax(hist, t, varMax, thr)
    ensures FirstMax(hist, t + 1, varMax, thr) && Mass(hist, t + 1) == Mass(hist, t)
  {
    assert Variance(hist, t) == 0.0;
  }

  /**
   * get_threshold (Otsu): the histogram, the total intensity, then one pass
   * over the thresholds that keeps the first strictly greater variance and
   * stops once the background holds every pixel.
   */
  method GetThreshold(gray: Gray) returns (threshold: int)
    requires Valid(gray)
    ensures IsOtsu(Histogram(gray.pixels), threshold)
  {
    var histogram := BuildHistogram(gray.pixels);
    ghost var hist := histogram[..];
    var totalPixels := gray.w * gray.h;
    HistogramTotal(gray.pixels);
    var sum := TotalIntensity(histogram);
    var sumB := 0.0;
    var wB := 0;
    var varMax := 0.0;
    threshold := 0;
    var t := 0;
    while t < 256
      invariant 0 <= t <= 256 && histogram[..] == hist
      invariant wB == Count(hist, t) && sumB == Mass(hist, t) as real
      invariant FirstMax(hist, t, varMax, threshold)
    {
      wB := wB + histogram[t];
      if wB == 0 {
        SkipEmpty(hist, t, varMax, threshold);
        t := t + 1;
        continue;
      }
      var wF := totalPixels - wB;
      if wF == 0 {
        RestEmpty(hist, t, varMax, threshold);
        break;
      }
      sumB := sumB + (t * histogram[t]) as real;
      var varBetween := ClassVariance(hist, t, wB, wF, sumB, sum);
      threshold, varMax := KeepGreater(hist, t, varBetween, varMax, threshold);
      t := t + 1;
    }
    OtsuFromScan(hist, varMax, threshold);
  }

  /** The total intensity, bin by bin (`sum += i * histogram[i]`). */
  method TotalIntensity(histogram: array<nat>) returns (sum: real)
    requires histogram.Length == 256
    ensures sum == Mass(histogram[..], 256) as real
  {
    sum := 0.0;
    var i := 0;
    while i < 256
      invariant 0 <= i <= 256
      invariant sum == Mass(histogram[..], i) as real
    {
      sum := sum + (i * histogram[i]) as real;
      i := i + 1;
    }
  }

  /** The two class means and the between-class variance of threshold `t`, once both classes are non-empty. */
  method ClassVariance(ghost hist: seq<nat>, t: int, wB: int, wF: int, sumB: real, sum: real) returns (varBetween: real)
    requires |hist| == 256 && 0 <= t < 256
    requires wB == Count(hist, t + 1) && wF == Count(hist, 256) - wB && wB != 0 && wF != 0
    requires sumB == Mass(hist, t + 1) as real && sum == Mass(hist, 256) as real
    ensures varBetween == Variance(hist, t)
  {
    var mB := sumB / wB as real;
    var mF := (sum - sumB) / wF as real;
    varBetween := wB as real * wF as real * (mB - mF) * (mB - mF);
  }

  /** Keeps threshold `t` when its variance is strictly greater than the best so far. */
  method KeepGreater(ghost hist: seq<nat>, t: int, varBetween: real, varMax: real, threshold: int)
    returns (threshold': int, varMax': real)
    requires |hist| == 256 && 0 <= t < 256 && varBetween == Variance(hist, t)
    requires FirstMax(hist, t, varMax, threshold)
    ensures FirstMax(hist, t + 1, varMax', threshold')
  {
    VarianceNonNegative(hist, t);
    if varBetween > varMax {
      threshold', varMax' := t, varBetween;
    } else {
      threshold', varMax' := threshold, varMax;
    }
  }

  /** Once the background holds every pixel, no later threshold has a positive variance. */
  lemma RestEmpty(hist: seq<nat>, t: int, varMax: real, thr: int)
    requires |hist| == 256 && 0 <= t < 256
    requires Count(hist, t + 1) == Count(hist, 256)
    requires FirstMax(hist, t, varMax, thr)
    ensures FirstMax(hist, 256, varMax, thr)
  {
    forall u | t <= u < 256
      ensures Variance(hist, u) == 0.0
    {
      CountMonotone(hist, t + 1, u + 1);
      CountMonotone(hist, u + 1, 256);
    }
  }

  /** The finished scan is Otsu's choice. */
  lemma OtsuFromScan(hist: seq<nat>, varMax: real, thr: int)
    requires |hist| == 256 && FirstMax(hist, 256, varMax, thr)
    ensures IsOtsu(hist, thr)
  {
    if exists u :: 0 <= u < 256 && Variance(hist, u) > 0.0 {
      var u :| 0 <= u < 256 && Variance(hist, u) > 0.0;
      assert varMax > 0.0;
    } else {
      forall u | 0 <= u < 256
        ensures Variance(hist, u) <= varMax
      {
      }
      VarianceNonNegative(hist, 0);
    }
  }

  /** Otsu's choice is unique. */
  lemma OtsuUnique(hist: seq<nat>, t1: int, t2: int)
    requires |hist| == 256 && IsOtsu(hist, t1) && IsOtsu(hist, t2)
    ensures t1 == t2
  {
  }

  /** Only the intensities `a < b` occur, both of them. */
  predicate TwoLevels(hist: seq<nat>, a: int, b: int)
  {
    && |hist| == 256 && 0 <= a < b < 256 && hist[a] > 0 && hist[b] > 0
    && forall i :: 0 <= i < 256 && i != a && i != b ==> hist[i] == 0
  }

  /** The counts and masses of a two-level histogram below `t`. */
  lemma {:induction false} TwoLevelsPrefix(hist: seq<nat>, a: int, b: int, t: nat)
    requires TwoLevels(hist, a, b) && t <= 256
    ensures Count(hist, t) == (if t > a then hist[a] else 0) + (if t > b then hist[b] else 0)
    ensures Mass(hist, t) == (if t > a then a * hist[a] else 0) + (if t > b then b * hist[b] else 0)
  {
    if t > 0 {
      TwoLevelsPrefix(hist, a, b, t - 1);
    }
  }

  /** With the classes {a} and {b} the variance is n_a * n_b * (a - b)^2. */
  lemma TwoMeans(na: nat, nb: nat, a: int, b: int)
    requires na > 0 && nb > 0 && a < b
    ensures BetweenVariance(na, nb, (a * na) as real, (a * na + b * nb) as real) > 0.0
  {
    var mB := (a * na) as real / na as real;
    var mF := ((a * na + b * nb) as real - (a * na) as real) / nb as real;
    assert (a * na) as real == a as real * na as real;
    assert (b * nb) as real == b as real * nb as real;
    assert mB == a as real;
    assert mF == b as real;
    assert (mB - mF) * (mB - mF) > 0.0;
  }

  /** The variance of a threshold between the two levels. */
  function TwoLevelsPeak(hist: seq<nat>, a: int, b: int): real
    requires TwoLevels(hist, a, b)
  {
    BetweenVariance(hist[a], hist[b], (a * hist[a]) as real, (a * hist[a] + b * hist[b]) as real)
  }

  /** Every threshold from `a` up to below `b` separates the two levels; the others leave a class empty. */
  lemma TwoLevelsVariance(hist: seq<nat>, a: int, b: int, u: int)
    requires TwoLevels(hist, a, b) && 0 <= u < 256
    ensures Variance(hist, u) == if a <= u < b then TwoLevelsPeak(hist, a, b) else 0.0
  {
    TwoLevelsPrefix(hist, a, b, 256);
    TwoLevelsPrefix(hist, a, b, u + 1);
  }

  /**
   * An image of two intensities `a < b` is split between them: the threshold
   * is `a`, the first of the thresholds that separate the two.
   */
  lemma TwoLevelsThreshold(hist: seq<nat>, a: int, b: int)
    requires TwoLevels(hist, a, b)
    ensures IsOtsu(hist, a)
  {
    TwoMeans(hist[a], hist[b], a, b);
    forall u | 0 <= u < 256
      ensures Variance(hist, u) == if a <= u < b then TwoLevelsPeak(hist, a, b) else 0.0
    {
      TwoLevelsVariance(hist, a, b, u);
    }
    assert Variance(hist, a) == TwoLevelsPeak(hist, a, b) > 0.0;
  }

  /**
   * The simplified get_threshold: it fills a histogram and then returns the
   * fixed threshold 127, whatever the image.
   */
  method GetThresholdFixed(gray: Gray) returns (threshold: int)
    requires Valid(gray)
    ensures threshold == 127
  {
    var histogram := BuildHistogram(gray.pixels);
    threshold := 127;
  }

  /** The recognition pipeline's get_threshold: the fixed threshold 254, whatever the image. */
  function GetThresholdNetwork(gray: Gray): (threshold: int)
    ensures threshold == 254
  {
    254
  }

  /** A pixel brighter than the threshold becomes white (255), any other black (0). */
  function Binarize(v: Intensity, threshold: int): Intensity
  {
    if v > threshold then 255 else 0
  }

  /** The thresholded pixels, position by position. */
  function Thresholded(p: seq<Intensity>, threshold: int): (r: seq<Intensity>)
    ensures |r| == |p|
  {
    seq(|p|, i requires 0 <= i < |p| => Binarize(p[i], threshold))
  }

  /** The number of pixels in `k` rows of width `w`: `k * w`, counted row by row. */
  function Rows(k: nat, w: nat): nat
  {
    if k == 0 then 0 else Rows(k - 1, w) + w
  }

  /** Counting row by row is multiplying. */
  lemma {:induction false} RowsProduct(k: nat, w: nat)
    ensures Rows(k, w) == k * w
  {
    if k > 0 {
      RowsProduct(k - 1, w);
    }
  }

  /** More rows hold more pixels. */
  lemma {:induction false} RowsMonotone(j: nat, k: nat, w: nat)
    requires j <= k
    ensures Rows(j, w) <= Rows(k, w)
    decreases k - j
  {
    if j < k {
      RowsMonotone(j, k - 1, w);
    }
  }

  /** Row `y` of a `w`-by-`h` surface lies inside its pixel buffer. */
  lemma RowInside(y: int, w: nat, h: nat)
    requires 0 <= y < h
    ensures y * w + w <= h * w
  {
    RowsProduct(y, w);
    RowsProduct(y + 1, w);
    RowsProduct(h, w);
    RowsMonotone(y + 1, h, w);
  }

  /**
   * apply_threshold: a copy of the surface whose every pixel, visited row by
   * row, is rewritten to 255 when brighter than the threshold and to 0
   * otherwise. Row `y` starts at `base`, which stays equal to y * w.
   */
  method ApplyThreshold(gray: Gray, threshold: int) returns (bnw: Gray)
    requires Valid(gray)
    ensures bnw.w == gray.w && bnw.h == gray.h && Valid(bnw)
    ensures bnw.pixels == Thresholded(gray.pixels, threshold)
  {
    var n := |gray.pixels|;
    var pixels := new Intensity[n](i requires 0 <= i < n => gray.pixels[i]);
    RowsProduct(gray.h, gray.w);
    var y := 0;
    var base: nat := 0;
    while y < gray.h
      invariant 0 <= y <= gray.h && pixels.Length == n
      invariant base + Rows(gray.h - y, gray.w) == n
      invariant forall i :: 0 <= i < base ==> pixels[i] == Binarize(gray.pixels[i], threshold)
      invariant forall i :: base <= i < n ==> pixels[i] == gray.pixels[i]
    {
      ThresholdRow(pixels, gray.pixels, threshold, base, gray.w);
      y := y + 1;
      base := base + gray.w;
    }
    assert base == n;
    assert forall i :: 0 <= i < n ==> pixels[..][i] == Thresholded(gray.pixels, threshold)[i];
    bnw := Gray(gray.w, gray.h, pixels[..]);
  }

  /** The inner loop of apply_threshold: the `w` pixels from `base` on are thresholded, the rest kept. */
  method ThresholdRow(pixels: array<Intensity>, ghost source: seq<Intensity>, threshold: int, base: nat, w: nat)
    requires pixels.Length == |source| && base + w <= |source|
    requires forall i :: 0 <= i < base ==> pixels[i] == Binarize(source[i], threshold)
    requires forall i :: base <= i < |source| ==> pixels[i] == source[i]
    modifies pixels
    ensures forall i :: 0 <= i < base + w ==> pixels[i] == Binarize(source[i], threshold)
    ensures forall i :: base + w <= i < |source| ==> pixels[i] == source[i]
  {
    var x := 0;
    while x < w
      invariant 0 <= x <= w
      invariant forall i :: 0 <= i < base + x ==> pixels[i] == Binarize(source[i], threshold)
      invariant forall i :: base + x <= i < |source| ==> pixels[i] == source[i]
    {
      var r := pixels[base + x];
      pixels[base + x] := if r > threshold then 255 else 0;
      x := x + 1;
    }
  }

  /** A thresholded image is black and white: 255 exactly where the pixel was brighter than the threshold, 0 elsewhere. */
  lemma ThresholdedBlackWhite(p: seq<Intensity>, threshold: int, i: int)
    requires 0 <= i < |p|
    ensures Thresholded(p, threshold)[i] == 255 <==> p[i] > threshold
    ensures Thresholded(p, threshold)[i] == 0 <==> p[i] <= threshold
  {
  }

  /** Thresholding again below white changes nothing: a 0/255 image is its own thresholded image. */
  lemma ThresholdIdempotent(p: seq<Intensity>, threshold: int, again: int)
    requires 0 <= again < 255
    ensures Thresholded(Thresholded(p, threshold), again) == Thresholded(p, threshold)
  {
  }
}
