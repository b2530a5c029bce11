/**
 * The deterministic part of `ImageProcessor` in image_processor.py: how `_extract_text`
 * assembles text blocks from what the OCR models report, and how `_analyze_image` and
 * `_get_dominant_colors` summarise the pixel array.
 *
 * The detector and recogniser are an input: the detected boxes in detection order, each
 * with the text lines recognised in its crop, or a failure.  The pixel array is an input
 * too: `np.array(image)` as its dimensions, its channel layout and its pixels flattened in
 * row-major order (what `reshape(-1, shape[2])` produces).
 */
module ImageProcessor {
  import opened Common
  import opened Text

  // ---------------------------------------------------------------------------
  // OCR assembly
  // ---------------------------------------------------------------------------

  /** A detected box `(x1, y1, x2, y2)`; it is only cropped and passed through. */
  datatype Box = Box(x1: real, y1: real, x2: real, y2: real)

  /** One detected box and the recognised lines of its crop; `None` when recognition raised. */
  datatype Region = Region(box: Box, lines: Option<seq<string>>)

  /** What the detector reports: the boxes in detection order, or a failure (it raised). */
  datatype Detection = DetectionFailed | Detected(regions: seq<Region>)

  /** One entry of "text_blocks". */
  datatype TextBlock = TextBlock(text: string, box: Box)

  /** The dictionary `_extract_text` returns: "text" and "text_blocks". */
  datatype OcrResult = OcrResult(text: string, blocks: seq<TextBlock>)

  /** Recognition answered for every region, so the loop runs to the end. */
  predicate Recognised(regions: seq<Region>) {
    forall k :: 0 <= k < |regions| ==> regions[k].lines.Some?
  }

  /** `" ".join(recognized_text)`: the lines of one region joined without filtering empty lines. */
  function RegionText(region: Region): string
    requires region.lines.Some?
  {
    Join(region.lines.value, " ")
  }

  /** The blocks the loop collects: one per region whose joined text is non-empty, in order. */
  function Blocks(regions: seq<Region>): seq<TextBlock>
    requires Recognised(regions)
    decreases |regions|
  {
    if regions == [] then []
    else
      var n := |regions| - 1;
      var text := RegionText(regions[n]);
      Blocks(regions[..n]) + (if text == "" then [] else [TextBlock(text, regions[n].box)])
  }

  /** The texts of the blocks, in order (the `full_text` list). */
  function Texts(blocks: seq<TextBlock>): (texts: seq<string>)
    ensures |texts| == |blocks|
    ensures forall k :: 0 <= k < |blocks| ==> texts[k] == blocks[k].text
  {
    seq(|blocks|, k requires 0 <= k < |blocks| => blocks[k].text)
  }

  /**
   * What `_extract_text` returns: the blocks and their space-joined texts, or the empty
   * result when detection or any recognition raised.
   */
  function Ocr(detection: Detection): (r: OcrResult)
    ensures detection.DetectionFailed? ==> r == OcrResult("", [])
    ensures detection.Detected? && !Recognised(detection.regions) ==> r == OcrResult("", [])
    ensures forall k :: 0 <= k < |r.blocks| ==> r.blocks[k].text != ""
    ensures r.text == "" <==> r.blocks == []
  {
    match detection
    case DetectionFailed => OcrResult("", [])
    case Detected(regions) =>
      if Recognised(regions) then
        var blocks := Blocks(regions);
        BlocksNonEmpty(regions);
        JoinEmptyIff(Texts(blocks), " ");
        OcrResult(Join(Texts(blocks), " "), blocks)
      else OcrResult("", [])
  }

  /** `_extract_text`: the loop over the detected boxes, with the catch-all handler. */
  method ExtractText(detection: Detection) returns (r: OcrResult)
    ensures r == Ocr(detection)
  {
    if detection.DetectionFailed? {
      return OcrResult("", []);
    }
    var regions := detection.regions;
    var textBlocks: seq<TextBlock> := [];
    var fullText: seq<string> := [];
    for i := 0 to |regions|
      invariant Recognised(regions[..i])
      invariant textBlocks == Blocks(regions[..i])
      invariant fullText == Texts(textBlocks)
    {
      var region := regions[i];
      if region.lines.None? {
        // the recogniser raised: the handler returns the empty result
        return OcrResult("", []);
      }
      var recognized := Join(region.lines.value, " ");
      BlocksStep(regions, i);
      if recognized != "" {
        textBlocks := textBlocks + [TextBlock(recognized, region.box)];
        fullText := fullText + [recognized];
      }
    }
    assert regions[..|regions|] == regions;
    r := OcrResult(Join(fullText, " "), textBlocks);
  }

  /** One more recognised region adds its block, unless its text is empty. */
  lemma BlocksStep(regions: seq<Region>, i: nat)
    requires i < |regions| && Recognised(regions[..i]) && regions[i].lines.Some?
    ensures Recognised(regions[..i + 1])
    ensures Blocks(regions[..i + 1]) == Blocks(regions[..i])
      + (if RegionText(regions[i]) == "" then [] else [TextBlock(RegionText(regions[i]), regions[i].box)])
  {
    assert regions[..i + 1][..i] == regions[..i];
  }

  /** No block has an empty text. */
  lemma {:induction false} BlocksNonEmpty(regions: seq<Region>)
    requires Recognised(regions)
    ensures forall k :: 0 <= k < |Blocks(regions)| ==> Blocks(regions)[k].text != ""
    decreases |regions|
  {
    if regions != [] {
      BlocksNonEmpty(regions[..|regions| - 1]);
    }
  }

  /** Blocks follow detection order: the blocks of two runs of regions are the blocks of each, in turn. */
  lemma {:induction false} BlocksAppend(a: seq<Region>, b: seq<Region>)
    requires Recognised(a) && Recognised(b)
    ensures Recognised(a + b)
    ensures Blocks(a + b) == Blocks(a) + Blocks(b)
    decreases |b|
  {
    if b == [] {
      assert a + b == a;
    } else {
      var n := |b| - 1;
      assert (a + b)[..|a + b| - 1] == a + b[..n];
      BlocksAppend(a, b[..n]);
    }
  }

  /** When every region has text, there is exactly one block per region, carrying its box unchanged. */
  lemma {:induction false} BlocksOnePerRegion(regions: seq<Region>)
    requires Recognised(regions)
    requires forall k :: 0 <= k < |regions| ==> RegionText(regions[k]) != ""
    ensures |Blocks(regions)| == |regions|
    ensures forall k :: 0 <= k < |regions| ==>
      Blocks(regions)[k] == TextBlock(RegionText(regions[k]), regions[k].box)
    decreases |regions|
  {
    if regions != [] {
      BlocksOnePerRegion(regions[..|regions| - 1]);
    }
  }

  /**
   * A region is skipped exactly when it has no line or a single empty line: lines are joined
   * unfiltered, so two empty lines give the kept text " ".
   */
  lemma RegionSkippedIff(region: Region)
    requires region.lines.Some?
    ensures RegionText(region) == "" <==> region.lines.value == [] || region.lines.value == [""]
  {
    JoinEmptyIff(region.lines.value, " ");
  }

  lemma TwoEmptyLinesKept(box: Box)
    ensures Blocks([Region(box, Some(["", ""]))]) == [TextBlock(" ", box)]
  {
    var regions := [Region(box, Some(["", ""]))];
    assert regions[..0] == [];
    assert ["", ""][1..] == [""];
    assert RegionText(regions[0]) == "" + " " + "";
    assert "" + " " + "" == " ";
  }

  // ---------------------------------------------------------------------------
  // Pixel arrays
  // ---------------------------------------------------------------------------

  /** One pixel: its channel values. */
  type Pixel = seq<int>

  /** The shape of `np.array(image)`: two-dimensional, or with a third axis of `channels` entries. */
  datatype Layout = Planar | Interleaved(channels: nat)

  /** An image as `_analyze_image` sees it: `image.size`, the array's layout and its pixels, row by row. */
  datatype Raster = Raster(width: nat, height: nat, layout: Layout, pixels: seq<Pixel>) {

    /** One pixel per position; with a channel axis every pixel has that many 8-bit values. */
    predicate Valid() {
      && |pixels| == width * height
      && (layout.Interleaved? ==>
            forall k :: 0 <= k < |pixels| ==> |pixels[k]| == layout.channels && Bytes(pixels[k]))
    }
  }

  /** Every value fits in an unsigned byte, as in an 8-bit image. */
  predicate Bytes(p: Pixel) {
    forall c :: 0 <= c < |p| ==> 0 <= p[c] <= 255
  }

  // ---------------------------------------------------------------------------
  // Dominant colours
  // ---------------------------------------------------------------------------

  const SampleStep: nat := 100
  const NumColors: nat := 5

  /** `pixels[::100]`: the pixels at positions 0, 100, 200, ... */
  function Sampled(pixels: seq<Pixel>): (sample: seq<Pixel>)
    ensures |sample| == (|pixels| + SampleStep - 1) / SampleStep
    ensures forall k :: 0 <= k < |sample| ==> SampleStep * k < |pixels| && sample[k] == pixels[SampleStep * k]
    decreases |pixels|
  {
    if |pixels| == 0 then []
    else if |pixels| <= SampleStep then [pixels[0]]
    else
      var rest := Sampled(pixels[SampleStep..]);
      assert forall k :: 0 < k < |rest| + 1 ==> ([pixels[0]] + rest)[k] == pixels[SampleStep..][SampleStep * (k - 1)];
      [pixels[0]] + rest
  }

  /** How often colour `c` occurs in the sample (`return_counts`). */
  function Count(sample: seq<Pixel>, c: Pixel): nat {
    multiset(sample)[c]
  }

  /** Each colour once, in order of first occurrence. */
  function Distinct(xs: seq<Pixel>): (d: seq<Pixel>)
    ensures NoDups(d)
    ensures Elems(d) == Elems(xs)
    decreases |xs|
  {
    if xs == [] then []
    else
      var n := |xs| - 1;
      var d := Distinct(xs[..n]);
      assert xs == xs[..n] + [xs[n]];
      assert Elems(xs) == Elems(xs[..n]) + {xs[n]};
      if xs[n] in d then d else d + [xs[n]]
  }

  /** Counts never increase along `colors`. */
  predicate ByCountDescending(sample: seq<Pixel>, colors: seq<Pixel>) {
    forall i, j :: 0 <= i < j < |colors| ==> Count(sample, colors[i]) >= Count(sample, colors[j])
  }

  /** Put `c` into a list ranked by count, after every colour counted at least as often. */
  function InsertByCount(sample: seq<Pixel>, c: Pixel, ranked: seq<Pixel>): (r: seq<Pixel>)
    requires ByCountDescending(sample, ranked)
    ensures ByCountDescending(sample, r)
    ensures multiset(r) == multiset(ranked) + multiset{c}
    ensures forall x :: x in r <==> x == c || x in ranked
    decreases |ranked|
  {
    if ranked == [] then [c]
    else if Count(sample, c) > Count(sample, ranked[0]) then [c] + ranked
    else
      var rest := InsertByCount(sample, c, ranked[1..]);
      assert ranked == [ranked[0]] + ranked[1..];
      forall x | x in rest
        ensures Count(sample, x) <= Count(sample, ranked[0])
      {
        if x != c {
          var j :| 1 <= j < |ranked| && ranked[j] == x;
        }
      }
      ConsDescending(sample, ranked[0], rest);
      [ranked[0]] + rest
  }

  lemma ConsDescending(sample: seq<Pixel>, x: Pixel, rest: seq<Pixel>)
    requires ByCountDescending(sample, rest)
    requires forall y :: y in rest ==> Count(sample, y) <= Count(sample, x)
    ensures ByCountDescending(sample, [x] + rest)
  {
    forall i, j | 0 <= i < j < |rest| + 1
      ensures Count(sample, ([x] + rest)[i]) >= Count(sample, ([x] + rest)[j])
    {
      assert ([x] + rest)[j] == rest[j - 1];
      if i > 0 {
        assert ([x] + rest)[i] == rest[i - 1];
      }
    }
  }

  /** The colours ranked by count, most frequent first (`unique_colors[argsort(-counts)]`). */
  function RankByCount(sample: seq<Pixel>, colors: seq<Pixel>): (r: seq<Pixel>)
    ensures ByCountDescending(sample, r)
    ensures multiset(r) == multiset(colors)
    decreases |colors|
  {
    if colors == [] then []
    else
      var n := |colors| - 1;
      assert colors == colors[..n] + [colors[n]];
      InsertByCount(sample, colors[n], RankByCount(sample, colors[..n]))
  }

  /** The distinct colours of the sample, most frequent first. */
  function Ranking(pixels: seq<Pixel>): seq<Pixel> {
    var sample := Sampled(pixels);
    RankByCount(sample, Distinct(sample))
  }

  /**
   * `_get_dominant_colors(img_array)`: at most five distinct sampled colours, most frequent
   * first.
   */
  function DominantColors(pixels: seq<Pixel>): (colors: seq<Pixel>)
    ensures var sample := Sampled(pixels);
      && |colors| == Min(NumColors, |Elems(sample)|)
      && NoDups(colors)
      && (forall k :: 0 <= k < |colors| ==> colors[k] in sample)
      && ByCountDescending(sample, colors)
  {
    var sample := Sampled(pixels);
    var distinct := Distinct(sample);
    var ranked := Ranking(pixels);
    RankingFacts(sample, distinct, ranked);
    ranked[..Min(NumColors, |ranked|)]
  }

  lemma RankingFacts(sample: seq<Pixel>, distinct: seq<Pixel>, ranked: seq<Pixel>)
    requires NoDups(distinct) && Elems(distinct) == Elems(sample)
    requires multiset(ranked) == multiset(distinct)
    ensures NoDups(ranked) && |ranked| == |Elems(sample)|
    ensures forall k :: 0 <= k < |ranked| ==> ranked[k] in sample
  {
    SubMultisetNoDups(ranked, distinct);
    NoDupsCardinality(distinct);
    assert |ranked| == |multiset(ranked)| == |distinct|;
    forall k | 0 <= k < |ranked|
      ensures ranked[k] in sample
    {
      assert ranked[k] in multiset(distinct);
      assert ranked[k] in Elems(distinct);
    }
  }

  /**
   * The dominant colours are the most frequent ones: a sampled colour left out occurs no more
   * often than any colour kept.
   */
  lemma DominantColorsAreMostFrequent(pixels: seq<Pixel>, c: Pixel, k: nat)
    requires c in Sampled(pixels) && c !in DominantColors(pixels)
    requires k < |DominantColors(pixels)|
    ensures Count(Sampled(pixels), c) <= Count(Sampled(pixels), DominantColors(pixels)[k])
  {
    var sample := Sampled(pixels);
    var distinct := Distinct(sample);
    var ranked := Ranking(pixels);
    var colors := DominantColors(pixels);
    assert c in Elems(distinct);
    assert c in multiset(ranked);
    var i :| 0 <= i < |ranked| && ranked[i] == c;
    assert colors == ranked[..|colors|];
    assert i >= |colors|;
    assert colors[k] == ranked[k];
  }

  /** Every dominant colour is one of the pixels, so it has as many components as a pixel has channels. */
  lemma DominantColorsArePixels(pixels: seq<Pixel>)
    ensures forall k :: 0 <= k < |DominantColors(pixels)| ==> DominantColors(pixels)[k] in pixels
  {
    var sample := Sampled(pixels);
    forall k | 0 <= k < |DominantColors(pixels)|
      ensures DominantColors(pixels)[k] in pixels
    {
      var j :| 0 <= j < |sample| && sample[j] == DominantColors(pixels)[k];
      assert pixels[SampleStep * j] == sample[j];
    }
  }

  // ---------------------------------------------------------------------------
  // Colour analysis
  // ---------------------------------------------------------------------------

  /** The sum of channel `c` over the pixels. */
  function ChannelTotal(pixels: seq<Pixel>, c: nat): int
    requires forall k :: 0 <= k < |pixels| ==> c < |pixels[k]|
    decreases |pixels|
  {
    if pixels == [] then 0
    else ChannelTotal(pixels[..|pixels| - 1], c) + pixels[|pixels| - 1][c]
  }

  /** With 8-bit values a channel total lies between 0 and 255 per pixel. */
  lemma {:induction false} ChannelTotalBounds(pixels: seq<Pixel>, c: nat)
    requires forall k :: 0 <= k < |pixels| ==> c < |pixels[k]| && Bytes(pixels[k])
    ensures 0 <= ChannelTotal(pixels, c) <= 255 * |pixels|
    decreases |pixels|
  {
    if pixels != [] {
      ChannelTotalBounds(pixels[..|pixels| - 1], c);
    }
  }

  /** When channel `c` is `v` in every pixel, its total is `v` once per pixel. */
  lemma {:induction false} ChannelTotalUniform(pixels: seq<Pixel>, c: nat, v: int)
    requires forall k :: 0 <= k < |pixels| ==> c < |pixels[k]| && pixels[k][c] == v
    ensures ChannelTotal(pixels, c) == v * |pixels|
    decreases |pixels|
  {
    if pixels != [] {
      ChannelTotalUniform(pixels[..|pixels| - 1], c, v);
    }
  }

  /**
   * `np.mean(img_array, axis=(0, 1))`: the mean of each channel over all pixels, computed
   * exactly; `None` for an image without pixels, where numpy's mean is NaN.
   */
  function AverageColor(pixels: seq<Pixel>, channels: nat): (avg: Option<seq<real>>)
    requires forall k :: 0 <= k < |pixels| ==> |pixels[k]| == channels
    ensures avg.None? <==> pixels == []
    ensures avg.Some? ==> |avg.value| == channels
    ensures avg.Some? ==>
      forall c :: 0 <= c < channels ==> avg.value[c] * |pixels| as real == ChannelTotal(pixels, c) as real
  {
    if pixels == [] then None
    else Some(seq(channels, c requires 0 <= c < channels => ChannelTotal(pixels, c) as real / |pixels| as real))
  }

  /** With 8-bit pixels every channel average lies between 0 and 255. */
  lemma AverageColorBounds(pixels: seq<Pixel>, channels: nat)
    requires forall k :: 0 <= k < |pixels| ==> |pixels[k]| == channels && Bytes(pixels[k])
    ensures var avg := AverageColor(pixels, channels);
      avg.Some? ==> forall c :: 0 <= c < channels ==> 0.0 <= avg.value[c] <= 255.0
  {
    var avg := AverageColor(pixels, channels);
    if avg.Some? {
      forall c | 0 <= c < channels
        ensures 0.0 <= avg.value[c] <= 255.0
      {
        ChannelTotalBounds(pixels, c);
        MeanBounds(avg.value[c], |pixels| as real, ChannelTotal(pixels, c) as real);
      }
    }
  }

  lemma MeanBounds(mean: real, n: real, total: real)
    requires n > 0.0 && mean * n == total && 0.0 <= total <= 255.0 * n
    ensures 0.0 <= mean <= 255.0
  {
    assert mean == total / n;
  }

  /**
   * `is_bright` as an integer: 1 when the three first channels sum to more than 381 per pixel,
   * that is, when their mean exceeds 127; 0 otherwise.
   */
  function IsBright(pixels: seq<Pixel>): (bright: int)
    requires forall k :: 0 <= k < |pixels| ==> 3 <= |pixels[k]|
    ensures bright == 0 || bright == 1
  {
    var total := ChannelTotal(pixels, 0) + ChannelTotal(pixels, 1) + ChannelTotal(pixels, 2);
    if total > 381 * |pixels| then 1 else 0
  }

  /**
   * `np.mean(avg_color[:3]) > 127` on the exact averages; a comparison with NaN is false, so
   * an image without pixels is not bright.
   */
  predicate MeanAbove127(avg: Option<seq<real>>)
    requires avg.Some? ==> 3 <= |avg.value|
  {
    avg.Some? && (avg.value[0] + avg.value[1] + avg.value[2]) / 3.0 > 127.0
  }

  lemma ScaledMean(s: real, n: real)
    requires n > 0.0
    ensures (s / n) / 3.0 > 127.0 <==> s > 381.0 * n
  {
    var q := s / n;
    assert s == q * n;
    if q > 381.0 {
      assert q * n > 381.0 * n;
    }
    if q <= 381.0 {
      assert q * n <= 381.0 * n;
    }
  }

  /** The integer test of `IsBright` is `_analyze_image`'s test `np.mean(avg_color[:3]) > 127` on the exact averages. */
  lemma IsBrightIffMeanAbove127(pixels: seq<Pixel>, channels: nat)
    requires 3 <= channels
    requires forall k :: 0 <= k < |pixels| ==> |pixels[k]| == channels
    ensures IsBright(pixels) == 1 <==> MeanAbove127(AverageColor(pixels, channels))
  {
    var avg := AverageColor(pixels, channels);
    if pixels != [] {
      var n := |pixels| as real;
      var t0, t1, t2 := ChannelTotal(pixels, 0), ChannelTotal(pixels, 1), ChannelTotal(pixels, 2);
      var a0, a1, a2 := avg.value[0], avg.value[1], avg.value[2];
      assert a0 * n == t0 as real && a1 * n == t1 as real && a2 * n == t2 as real;
      assert (a0 + a1 + a2) * n == (t0 + t1 + t2) as real;
      assert a0 + a1 + a2 == (t0 + t1 + t2) as real / n;
      ScaledMean((t0 + t1 + t2) as real, n);
      assert 381.0 * n == (381 * |pixels|) as real;
    }
  }

  /**
   * An image whose pixels all have the grey level `v` in the first three channels is bright
   * exactly when `v` is above 127: mid grey 127 itself counts as dark.
   */
  lemma UniformGreyBrightness(pixels: seq<Pixel>, v: int)
    requires pixels != []
    requires forall k :: 0 <= k < |pixels| ==>
      3 <= |pixels[k]| && pixels[k][0] == v && pixels[k][1] == v && pixels[k][2] == v
    ensures IsBright(pixels) == 1 <==> v > 127
  {
    ChannelTotalUniform(pixels, 0, v);
    ChannelTotalUniform(pixels, 1, v);
    ChannelTotalUniform(pixels, 2, v);
    assert ChannelTotal(pixels, 0) + ChannelTotal(pixels, 1) + ChannelTotal(pixels, 2) == 3 * v * |pixels|;
    if v > 127 {
      assert 3 * v * |pixels| >= 384 * |pixels|;
    } else {
      assert 3 * v * |pixels| <= 381 * |pixels|;
    }
  }

  // ---------------------------------------------------------------------------
  // _analyze_image
  // ---------------------------------------------------------------------------

  /** The "dimensions" entry. */
  datatype Dimensions = Dimensions(width: nat, height: nat, aspectRatio: real)

  /** The "color_info" entry; an average colour of `None` stands for numpy's NaN means. */
  datatype ColorInfo = ColorInfo(averageColor: Option<seq<real>>, isBright: int, dominantColors: seq<Pixel>)

  /** What `_analyze_image` returns. */
  datatype Analysis = Analysis(dimensions: Dimensions, colorInfo: ColorInfo)

  /** `width / height if height > 0 else 0`. */
  function AspectRatio(width: nat, height: nat): (ratio: real)
    ensures height > 0 ==> ratio * height as real == width as real
    ensures height == 0 ==> ratio == 0.0
    ensures 0.0 <= ratio
  {
    if height > 0 then width as real / height as real else 0.0
  }

  /** The colour branch is taken for a three-dimensional array with at least three channels. */
  predicate HasColor(layout: Layout) {
    layout.Interleaved? && 3 <= layout.channels
  }

  /** The "color_info" without colour: black average, dark, no dominant colours. */
  const NoColor := ColorInfo(Some([0.0, 0.0, 0.0]), 0, [])

  /**
   * The colour branch of `_analyze_image` for an array with `channels` values per pixel:
   * the exact averages, the brightness flag and the dominant colours.
   */
  function ColorAnalysis(pixels: seq<Pixel>, channels: nat): (info: ColorInfo)
    requires 3 <= channels
    requires forall k :: 0 <= k < |pixels| ==> |pixels[k]| == channels
    ensures info.averageColor.None? <==> pixels == []
    ensures info.averageColor.Some? ==> |info.averageColor.value| == channels
    ensures info.isBright == 1 <==> MeanAbove127(info.averageColor)
    ensures info.isBright == 0 || info.isBright == 1
    ensures info.dominantColors == DominantColors(pixels)
    ensures |info.dominantColors| <= NumColors
    ensures forall k :: 0 <= k < |info.dominantColors| ==> |info.dominantColors[k]| == channels
  {
    IsBrightIffMeanAbove127(pixels, channels);
    DominantColorsArePixels(pixels);
    ColorInfo(AverageColor(pixels, channels), IsBright(pixels), DominantColors(pixels))
  }

  /** `_analyze_image(image)`. */
  function AnalyzeImage(img: Raster): (a: Analysis)
    requires img.Valid()
    ensures a.dimensions.width == img.width && a.dimensions.height == img.height
    ensures img.height > 0 ==> a.dimensions.aspectRatio * img.height as real == img.width as real
    ensures img.height == 0 ==> a.dimensions.aspectRatio == 0.0
    ensures !HasColor(img.layout) ==> a.colorInfo == NoColor
    ensures HasColor(img.layout) ==> a.colorInfo == ColorAnalysis(img.pixels, img.layout.channels)
    ensures HasColor(img.layout) ==> (a.colorInfo.averageColor.None? <==> img.width * img.height == 0)
    ensures a.colorInfo.isBright == 0 || a.colorInfo.isBright == 1
  {
    var dimensions := Dimensions(img.width, img.height, AspectRatio(img.width, img.height));
    if HasColor(img.layout) then
      Analysis(dimensions, ColorAnalysis(img.pixels, img.layout.channels))
    else
      Analysis(dimensions, NoColor)
  }

  /** An image without pixels in the colour branch: NaN averages, not bright, no dominant colours. */
  lemma EmptyColorImage(img: Raster)
    requires img.Valid() && HasColor(img.layout) && img.width * img.height == 0
    ensures AnalyzeImage(img).colorInfo == ColorInfo(None, 0, [])
  {
    assert img.pixels == [];
    assert Sampled([]) == [];
  }
}
