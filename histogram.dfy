/**
 * The region error estimator (class ColorHistogram): per-channel 256-bucket
 * histograms of a window, their concatenation into one 768-entry list, and
 * the count-weighted mean and deviation of each channel.
 *
 * Java's doubles are modelled as exact reals. Math.sqrt is not modelled: it
 * is the parameter sqrt of the members that apply it.
 */
module Histogram {
  import opened Raster

  const Buckets := 256

  datatype Channel = RedChannel | GreenChannel | BlueChannel

  function ChannelOf(rgb: int, c: Channel): (v: int)
    ensures IsChannel(v)
  {
    match c
    case RedChannel => Red(rgb)
    case GreenChannel => Green(rgb)
    case BlueChannel => Blue(rgb)
  }

  /** The pixels of row y, columns 0 .. n-1, left to right. */
  function RowPrefix(v: View, y: nat, n: nat): (s: seq<int>)
    reads v.data
    requires v.Valid() && y < v.height && n <= v.width
    ensures |s| == n
  {
    if n == 0 then [] else RowPrefix(v, y, n - 1) + [v.GetRGB(n - 1, y)]
  }

  /** The pixels of rows 0 .. rows-1 in the order the histogram loop visits them. */
  function ScanOrder(v: View, rows: nat): seq<int>
    reads v.data
    requires v.Valid() && rows <= v.height
  {
    if rows == 0 then [] else ScanOrder(v, rows - 1) + RowPrefix(v, rows - 1, v.width)
  }

  /** All pixels of a window, row by row. */
  function Pixels(v: View): seq<int>
    reads v.data
    requires v.Valid()
  {
    ScanOrder(v, v.height)
  }

  lemma {:induction false} ScanOrderLength(v: View, rows: nat)
    requires v.Valid() && rows <= v.height
    ensures |ScanOrder(v, rows)| == rows * v.width
  {
    if rows > 0 {
      ScanOrderLength(v, rows - 1);
      assert (rows - 1) * v.width + v.width == rows * v.width;
    }
  }

  /** Number of pixels of s whose channel c has value k. */
  function Tally(s: seq<int>, c: Channel, k: int): nat
  {
    if s == [] then 0 else Tally(s[..|s| - 1], c, k) + (if ChannelOf(s[|s| - 1], c) == k then 1 else 0)
  }

  /** The 256-bucket histogram of channel c over the pixels s. */
  function Counts(s: seq<int>, c: Channel): seq<int>
  {
    seq(Buckets, k => Tally(s, c, k))
  }

  /** Adding one pixel adds one to exactly the bucket of its channel value. */
  lemma CountsSnoc(s: seq<int>, p: int, c: Channel)
    ensures Counts(s + [p], c) == Counts(s, c)[ChannelOf(p, c) := Counts(s, c)[ChannelOf(p, c)] + 1]
  {
    assert (s + [p])[..|s|] == s;
  }

  function Sum(h: seq<int>): int
  {
    if h == [] then 0 else Sum(h[..|h| - 1]) + h[|h| - 1]
  }

  lemma {:induction false} SumBump(h: seq<int>, k: nat)
    requires k < |h|
    ensures Sum(h[k := h[k] + 1]) == Sum(h) + 1
  {
    var n := |h| - 1;
    var h' := h[k := h[k] + 1];
    assert h'[..n] == if k < n then h[..n][k := h[k] + 1] else h[..n];
    if k < n {
      SumBump(h[..n], k);
    }
  }

  /** Every histogram of a list of pixels counts each pixel exactly once. */
  lemma {:induction false} CountsTotal(s: seq<int>, c: Channel)
    ensures Sum(Counts(s, c)) == |s|
  {
    if s == [] {
      SumOfZeros(Counts(s, c));
    } else {
      var n := |s| - 1;
      CountsTotal(s[..n], c);
      assert s == s[..n] + [s[n]];
      CountsSnoc(s[..n], s[n], c);
      SumBump(Counts(s[..n], c), ChannelOf(s[n], c));
    }
  }

  lemma {:induction false} SumOfZeros(h: seq<int>)
    requires forall k :: 0 <= k < |h| ==> h[k] == 0
    ensures Sum(h) == 0
  {
    if h != [] {
      SumOfZeros(h[..|h| - 1]);
    }
  }

  /** Each channel's histogram of a width x height window sums to width * height. */
  lemma CountsOfWindow(v: View, c: Channel)
    requires v.Valid()
    ensures |Counts(Pixels(v), c)| == Buckets
    ensures Sum(Counts(Pixels(v), c)) == v.width * v.height
  {
    ScanOrderLength(v, v.height);
    CountsTotal(Pixels(v), c);
  }

  /** The three histograms createColorHistogram files under "red", "green" and "blue". */
  datatype Histograms = Histograms(red: seq<int>, green: seq<int>, blue: seq<int>)

  function HistogramsOf(s: seq<int>): Histograms
  {
    Histograms(Counts(s, RedChannel), Counts(s, GreenChannel), Counts(s, BlueChannel))
  }

  /**
   * createColorHistogram: one pass over the window, row by row, counting each
   * pixel once in each channel's histogram.
   */
  method CreateColorHistogram(image: View) returns (h: Histograms)
    requires image.Valid()
    ensures h == HistogramsOf(Pixels(image))
    ensures |h.red| == |h.green| == |h.blue| == Buckets
  {
    var width, height := image.width, image.height;
    var red := new int[Buckets](_ => 0);
    var green := new int[Buckets](_ => 0);
    var blue := new int[Buckets](_ => 0);
    ghost var seen: seq<int> := [];
    assert Tallied(red, green, blue, seen);
    for y := 0 to height
      invariant seen == ScanOrder(image, y)
      invariant Tallied(red, green, blue, seen)
    {
      CountRow(image, y, red, green, blue, seen);
      seen := seen + RowPrefix(image, y, width);
    }
    h := Histograms(red[..], green[..], blue[..]);
  }

  /** The three arrays hold the histograms of the pixels seen so far. */
  ghost predicate Tallied(red: array<int>, green: array<int>, blue: array<int>, seen: seq<int>)
    reads red, green, blue
  {
    red[..] == Counts(seen, RedChannel) && green[..] == Counts(seen, GreenChannel) && blue[..] == Counts(seen, BlueChannel)
  }

  /** The inner loop of createColorHistogram: counts the pixels of row y, left to right. */
  method CountRow(image: View, y: nat, red: array<int>, green: array<int>, blue: array<int>, ghost seen: seq<int>)
    requires image.Valid() && y < image.height
    requires red != green && green != blue && red != blue
    requires Tallied(red, green, blue, seen)
    modifies red, green, blue
    ensures Tallied(red, green, blue, seen + RowPrefix(image, y, image.width))
  {
    ghost var counted := seen;
    assert seen + RowPrefix(image, y, 0) == seen;
    for x := 0 to image.width
      invariant counted == seen + RowPrefix(image, y, x)
      invariant Tallied(red, green, blue, counted)
    {
      var rgb := image.GetRGB(x, y);
      CountPixel(red, green, blue, rgb, counted);
      counted := counted + [rgb];
    }
  }

  /** The three increments of createColorHistogram's loop body, for one pixel. */
  method CountPixel(red: array<int>, green: array<int>, blue: array<int>, rgb: int, ghost seen: seq<int>)
    requires red != green && green != blue && red != blue
    requires Tallied(red, green, blue, seen)
    modifies red, green, blue
    ensures Tallied(red, green, blue, seen + [rgb])
  {
    CountsSnoc(seen, rgb, RedChannel);
    CountsSnoc(seen, rgb, GreenChannel);
    CountsSnoc(seen, rgb, BlueChannel);
    red[Red(rgb)] := red[Red(rgb)] + 1;
    green[Green(rgb)] := green[Green(rgb)] + 1;
    blue[Blue(rgb)] := blue[Blue(rgb)] + 1;
  }

  /**
   * hist: the red, green and blue histograms one after the other, so that
   * the slices [0, 256), [256, 512) and [512, 768) give them back.
   */
  method Hist(h: Histograms) returns (histogram: seq<int>)
    requires |h.red| >= Buckets && |h.green| >= Buckets && |h.blue| >= Buckets
    ensures |histogram| == 3 * Buckets
    ensures histogram[..256] == h.red[..256]
    ensures histogram[256..512] == h.green[..256]
    ensures histogram[512..] == h.blue[..256]
  {
    histogram := [];
    for i := 0 to Buckets
      invariant histogram == h.red[..i]
    {
      histogram := histogram + [h.red[i]];
    }
    for i := 0 to Buckets
      invariant histogram == h.red[..256] + h.green[..i]
    {
      histogram := histogram + [h.green[i]];
    }
    for i := 0 to Buckets
      invariant histogram == h.red[..256] + h.green[..256] + h.blue[..i]
    {
      histogram := histogram + [h.blue[i]];
    }
  }

  /** Sum of i * h[i]: the numerator of the weighted average. */
  function Moment(h: seq<int>): int
  {
    if h == [] then 0 else Moment(h[..|h| - 1]) + (|h| - 1) * h[|h| - 1]
  }

  /** Sum of h[i] * (m - i)^2: the numerator of the variance around m. */
  function Spread(h: seq<int>, m: real): real
  {
    if h == [] then 0.0
    else
      var i := (|h| - 1) as real;
      Spread(h[..|h| - 1], m) + h[|h| - 1] as real * (m - i) * (m - i)
  }

  /** The count-weighted mean bucket, 0 when the histogram is empty. */
  function Mean(h: seq<int>): real
  {
    if Sum(h) > 0 then Moment(h) as real / Sum(h) as real else 0.0
  }

  /** The population variance of the bucket values, 0 when the histogram is empty. */
  function Variance(h: seq<int>): real
  {
    if Sum(h) > 0 then Spread(h, Mean(h)) / Sum(h) as real else 0.0
  }

  /** The population standard deviation, sqrt standing for Math.sqrt. */
  function Deviation(h: seq<int>, sqrt: real -> real): real
  {
    if Sum(h) > 0 then sqrt(Variance(h)) else 0.0
  }

  /**
   * getWeightedAverage: the weighted mean of the bucket indices and the
   * square root of their population variance, both 0 for an empty histogram.
   */
  method GetWeightedAverage(subHistogram: seq<int>, sqrt: real -> real) returns (value: real, error: real)
    ensures value == Mean(subHistogram)
    ensures error == Deviation(subHistogram, sqrt)
  {
    var total := Sum(subHistogram);
    value, error := 0.0, 0.0;
    if total > 0 {
      for i := 0 to |subHistogram|
        invariant value == Moment(subHistogram[..i]) as real
      {
        assert subHistogram[..i + 1][..i] == subHistogram[..i];
        value := value + (i * subHistogram[i]) as real;
      }
      assert subHistogram[..|subHistogram|] == subHistogram;
      value := value / total as real;
      for i := 0 to |subHistogram|
        invariant error == Spread(subHistogram[..i], value)
      {
        assert subHistogram[..i + 1][..i] == subHistogram[..i];
        error := error + subHistogram[i] as real * (value - i as real) * (value - i as real);
      }
      error := error / total as real;
      error := sqrt(error);
    }
  }

  predicate NonNegative(h: seq<int>)
  {
    forall k :: 0 <= k < |h| ==> h[k] >= 0
  }

  lemma {:induction false} MomentBounds(h: seq<int>)
    requires NonNegative(h) && |h| > 0
    ensures 0 <= Moment(h) <= (|h| - 1) * Sum(h)
    ensures Sum(h) >= 0
  {
    var n := |h| - 1;
    if n > 0 {
      MomentBounds(h[..n]);
      assert 0 <= n * h[n];
      assert (n - 1) * Sum(h[..n]) <= n * Sum(h[..n]);
      assert n * Sum(h[..n]) + n * h[n] == n * Sum(h);
    } else {
      assert h[..n] == [];
    }
  }

  /** With non-negative counts the weighted mean is a bucket index in [0, |h| - 1]. */
  lemma MeanInRange(h: seq<int>)
    requires NonNegative(h) && |h| > 0
    ensures 0.0 <= Mean(h) <= (|h| - 1) as real
  {
    if Sum(h) > 0 {
      MomentBounds(h);
      var m, t := Moment(h) as real, Sum(h) as real;
      assert m <= (|h| - 1) as real * t;
      assert m / t <= (|h| - 1) as real;
    }
  }

  lemma {:induction false} SpreadNonNegative(h: seq<int>, m: real)
    requires NonNegative(h)
    ensures Spread(h, m) >= 0.0
  {
    if h != [] {
      var n := |h| - 1;
      SpreadNonNegative(h[..n], m);
      var d := m - n as real;
      assert d * d >= 0.0;
      assert h[n] as real * d * d >= 0.0;
    }
  }

  /** With non-negative counts the variance is never negative, so sqrt is taken of a non-negative value. */
  lemma VarianceNonNegative(h: seq<int>)
    requires NonNegative(h)
    ensures Variance(h) >= 0.0
  {
    SpreadNonNegative(h, Mean(h));
  }

  /** True when bucket k holds every count of h. */
  predicate SingleBucket(h: seq<int>, k: nat)
  {
    k < |h| && forall i :: 0 <= i < |h| && i != k ==> h[i] == 0
  }

  lemma {:induction false} SingleBucketSums(h: seq<int>, k: nat, m: real)
    requires SingleBucket(h, k)
    ensures Sum(h) == h[k] && Moment(h) == k * h[k]
    ensures Spread(h, m) == h[k] as real * (m - k as real) * (m - k as real)
  {
    var n := |h| - 1;
    if n == k {
      SumOfZeros(h[..n]);
      MomentOfZeros(h[..n]);
      SpreadOfZeros(h[..n], m);
    } else {
      SingleBucketSums(h[..n], k, m);
    }
  }

  lemma {:induction false} MomentOfZeros(h: seq<int>)
    requires forall k :: 0 <= k < |h| ==> h[k] == 0
    ensures Moment(h) == 0
  {
    if h != [] {
      MomentOfZeros(h[..|h| - 1]);
    }
  }

  lemma {:induction false} SpreadOfZeros(h: seq<int>, m: real)
    requires forall k :: 0 <= k < |h| ==> h[k] == 0
    ensures Spread(h, m) == 0.0
  {
    if h != [] {
      SpreadOfZeros(h[..|h| - 1], m);
    }
  }

  /** A histogram with one non-empty bucket k has mean k and variance 0. */
  lemma SingleBucketStatistics(h: seq<int>, k: nat)
    requires SingleBucket(h, k) && h[k] > 0
    ensures Mean(h) == k as real
    ensures Variance(h) == 0.0
  {
    SingleBucketSums(h, k, k as real);
    assert (k * h[k]) as real == k as real * h[k] as real;
  }

  /** A representative colour: the int[] {r, g, b} of a node. */
  datatype Rgb = Rgb(r: int, g: int, b: int)

  predicate InGamut(c: Rgb)
  {
    IsChannel(c.r) && IsChannel(c.g) && IsChannel(c.b)
  }

  /** Math.round: the nearest integer, halves rounded up. */
  function Round(x: real): int
  {
    (x + 0.5).Floor
  }

  /** The luma-weighted combination of the three channel deviations. */
  function Luma(red: real, green: real, blue: real): real
  {
    red * 0.2989 + green * 0.5870 + blue * 0.1140
  }

  /** What colourFromHistogram returns: the rounded channel means and the luma-weighted error. */
  datatype Estimate = Estimate(color: Rgb, error: real)

  /** The estimate read from a 768-entry histogram sliced into red, green and blue. */
  function EstimateOf(histogram: seq<int>, sqrt: real -> real): Estimate
    requires |histogram| >= 3 * Buckets
  {
    var red, green, blue := histogram[0..256], histogram[256..512], histogram[512..768];
    Estimate(Rgb(Round(Mean(red)), Round(Mean(green)), Round(Mean(blue))),
             Luma(Deviation(red, sqrt), Deviation(green, sqrt), Deviation(blue, sqrt)))
  }

  /**
   * colourFromHistogram: slices the list back into its three channels, takes
   * each one's weighted average and deviation, rounds the averages to the
   * colour and combines the deviations into the error.
   */
  method ColourFromHistogram(histogram: seq<int>, sqrt: real -> real) returns (rgb: Rgb, error: real)
    requires |histogram| >= 3 * Buckets
    ensures Estimate(rgb, error) == EstimateOf(histogram, sqrt)
  {
    var red := histogram[0..256];
    var green := histogram[256..512];
    var blue := histogram[512..768];
    var redAverage, redError := GetWeightedAverage(red, sqrt);
    var greenAverage, greenError := GetWeightedAverage(green, sqrt);
    var blueAverage, blueError := GetWeightedAverage(blue, sqrt);
    rgb := Rgb(Round(redAverage), Round(greenAverage), Round(blueAverage));
    error := Luma(redError, greenError, blueError);
  }

  /** The estimate of a window: its pixels' histograms, concatenated, then read back. */
  function RegionEstimate(v: View, sqrt: real -> real): Estimate
    reads v.data
    requires v.Valid()
  {
    var h := HistogramsOf(Pixels(v));
    EstimateOf(h.red + h.green + h.blue, sqrt)
  }

  /** With non-negative counts, a rounded weighted mean is a channel value. */
  lemma RoundedMeanIsChannel(h: seq<int>)
    requires NonNegative(h) && |h| == Buckets
    ensures IsChannel(Round(Mean(h)))
  {
    MeanInRange(h);
  }

  /** Every representative colour a window can get has its three channels in 0..255. */
  lemma RegionColourInGamut(v: View, sqrt: real -> real)
    requires v.Valid()
    ensures InGamut(RegionEstimate(v, sqrt).color)
  {
    var h := HistogramsOf(Pixels(v));
    var all := h.red + h.green + h.blue;
    assert all[0..256] == h.red && all[256..512] == h.green && all[512..768] == h.blue;
    RoundedMeanIsChannel(h.red);
    RoundedMeanIsChannel(h.green);
    RoundedMeanIsChannel(h.blue);
  }

  /** When every pixel of s is p, each channel's histogram has the single bucket of p's value, holding |s|. */
  lemma {:induction false} UniformCounts(s: seq<int>, p: int, c: Channel)
    requires forall i :: 0 <= i < |s| ==> s[i] == p
    ensures SingleBucket(Counts(s, c), ChannelOf(p, c))
    ensures Counts(s, c)[ChannelOf(p, c)] == |s|
  {
    if s != [] {
      var n := |s| - 1;
      UniformCounts(s[..n], p, c);
      assert s == s[..n] + [p];
      CountsSnoc(s[..n], p, c);
    }
  }

  /**
   * A uniform region gets its own colour and, since the square root of 0 is
   * 0, error 0: at most the threshold, so it is never split.
   */
  lemma UniformEstimate(s: seq<int>, p: int, sqrt: real -> real)
    requires |s| > 0 && forall i :: 0 <= i < |s| ==> s[i] == p
    requires sqrt(0.0) == 0.0
    ensures var h := HistogramsOf(s);
      EstimateOf(h.red + h.green + h.blue, sqrt) == Estimate(Rgb(Red(p), Green(p), Blue(p)), 0.0)
  {
    var h := HistogramsOf(s);
    var all := h.red + h.green + h.blue;
    assert all[0..256] == h.red && all[256..512] == h.green && all[512..768] == h.blue;
    UniformCounts(s, p, RedChannel);
    UniformCounts(s, p, GreenChannel);
    UniformCounts(s, p, BlueChannel);
    SingleBucketStatistics(h.red, Red(p));
    SingleBucketStatistics(h.green, Green(p));
    SingleBucketStatistics(h.blue, Blue(p));
    SingleBucketSums(h.red, Red(p), 0.0);
    SingleBucketSums(h.green, Green(p), 0.0);
    SingleBucketSums(h.blue, Blue(p), 0.0);
  }

  /** Every pixel of the window has the packed value p. */
  ghost predicate Uniform(v: View, p: int)
    reads v.data
    requires v.Valid()
  {
    forall x, y :: 0 <= x < v.width && 0 <= y < v.height ==> v.GetRGB(x, y) == p
  }

  lemma {:induction false} UniformRowPrefix(v: View, p: int, y: nat, n: nat)
    requires v.Valid() && Uniform(v, p) && y < v.height && n <= v.width
    ensures forall i :: 0 <= i < n ==> RowPrefix(v, y, n)[i] == p
  {
    if n > 0 {
      UniformRowPrefix(v, p, y, n - 1);
    }
  }

  lemma {:induction false} UniformScanOrder(v: View, p: int, rows: nat)
    requires v.Valid() && Uniform(v, p) && rows <= v.height
    ensures forall i :: 0 <= i < |ScanOrder(v, rows)| ==> ScanOrder(v, rows)[i] == p
  {
    if rows > 0 {
      UniformScanOrder(v, p, rows - 1);
      UniformRowPrefix(v, p, rows - 1, v.width);
    }
  }

  /** A non-empty window whose pixels are all p is estimated as p's colour with error 0. */
  lemma UniformRegionEstimate(v: View, p: int, sqrt: real -> real)
    requires v.Valid() && v.width > 0 && v.height > 0 && Uniform(v, p)
    requires sqrt(0.0) == 0.0
    ensures RegionEstimate(v, sqrt) == Estimate(Rgb(Red(p), Green(p), Blue(p)), 0.0)
  {
    UniformScanOrder(v, p, v.height);
    ScanOrderLength(v, v.height);
    assert |Pixels(v)| > 0 by {
      assert v.height * v.width > 0;
    }
    UniformEstimate(Pixels(v), p, sqrt);
  }
}
