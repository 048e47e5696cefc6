/** Choosing the bell's stroke colour from the background (src/App.tsx):
    the 32x32 sampling window 24 px in from the image's top-right corner
    (meant to be the area under the bell), the median luminance of the
    pixels read back from that window, and the dark/light threshold. */
module BellContrast {
  import opened Wrappers
  import opened Luma
  import opened Median
  import opened OrderStatistics

  /** The bell is 32 by 32 pixels, 24 pixels in from the top and right edges. */
  const BellSize: nat := 32
  const Margin: int := 24

  /** Returned when no 2D drawing context is available: "bright". */
  const FallbackLuminance: real := 255.0

  /** A median strictly above this picks the dark stroke. */
  const Threshold: real := 128.0

  /** A rectangle of the image: origin and size in pixels. */
  datatype Window = Window(x: int, y: int, width: nat, height: nat)

  function Max(a: int, b: int): int
  {
    if a < b then b else a
  }

  /** The window under the bell for an image of the given natural width,
      with its origin clamped to be non-negative. */
  function BellWindow(imageWidth: int): (w: Window)
    ensures 0 <= w.x && 0 <= w.y
    ensures w.width == BellSize && w.height == BellSize
    ensures w.y == Margin
    ensures imageWidth >= BellSize + Margin ==> w.x + w.width + Margin == imageWidth
    ensures imageWidth <= BellSize + Margin ==> w.x == 0
  {
    var x := imageWidth - BellSize - Margin;
    var y := Margin;
    Window(Max(x, 0), Max(y, 0), BellSize, BellSize)
  }

  /** A wider image never moves the window to the left. */
  lemma BellWindowMonotone(narrow: int, wide: int)
    requires narrow <= wide
    ensures BellWindow(narrow).x <= BellWindow(wide).x
    ensures BellWindow(wide).x - BellWindow(narrow).x <= wide - narrow
  {
  }

  /** Bytes read back for a window: four per pixel. */
  function BufferLength(w: Window): nat
  {
    Stride * (w.width * w.height)
  }

  /** The bell window always reads back 4096 bytes, i.e. 1024 pixels. */
  lemma BellBufferSize(imageWidth: int)
    ensures BufferLength(BellWindow(imageWidth)) == 4096
    ensures BufferLength(BellWindow(imageWidth)) / Stride == BellSize * BellSize == 1024
  {
  }

  /** getMedianLuminance: `pixels` is the buffer read back after drawing
      the window (None when the 2D context cannot be obtained). */
  function MedianLuminance(w: Window, pixels: Option<seq<byte>>): (m: Number)
    requires pixels.Some? ==> |pixels.value| == BufferLength(w)
    ensures pixels.None? ==> m == Finite(FallbackLuminance)
    ensures pixels.Some? ==> (m.NaN? <==> w.width * w.height == 0)
    ensures m.Finite? ==> 0.0 <= m.value <= 255.0
  {
    match pixels
    case None => Finite(FallbackLuminance)
    case Some(data) =>
      assert |data| % Stride == 0;
      var lumas := Lumas(data);
      if |lumas| > 0 then
        LumasInRange(data);
        MedianBounded(lumas, 0.0, 255.0);
        MedianOf(lumas)
      else
        MedianOf(lumas)
  }

  /** With a drawing context, the sampler's result is the median of the
      buffer's lumas. */
  lemma SampledMedian(w: Window, data: seq<byte>)
    requires |data| == BufferLength(w) && |data| % Stride == 0
    ensures MedianLuminance(w, Some(data)) == MedianOf(Lumas(data))
  {
  }

  /** The stroke colours of the bell: dark `#222` and light `#fff`. */
  datatype BellColor = Dark | Light {
    function Css(): (css: string)
      ensures css == "#222" <==> Dark?
      ensures css == "#fff" <==> Light?
    {
      match this
      case Dark => "#222"
      case Light => "#fff"
    }
  }

  /** The threshold rule applied to the sampler's result. A NaN median
      compares false, so it gives the light stroke. */
  function ColorFor(lum: Number): (c: BellColor)
    ensures c == Dark <==> lum.Finite? && lum.value > Threshold
    ensures c.Css() == "#222" <==> lum.Finite? && lum.value > Threshold
  {
    if lum.Finite? && lum.value > Threshold then Dark else Light
  }

  /** Boundary cases of the threshold: exactly 128 is light, the
      no-context fallback is dark and NaN is light. */
  lemma ThresholdBoundaries()
    ensures ColorFor(Finite(128.0)) == Light
    ensures ColorFor(MedianLuminance(BellWindow(0), None)) == Dark
    ensures ColorFor(NaN) == Light
  {
  }

  /** A brighter background never switches the bell from dark to light. */
  lemma ColorMonotone(darker: real, brighter: real)
    requires darker <= brighter
    ensures ColorFor(Finite(darker)) == Dark ==> ColorFor(Finite(brighter)) == Dark
  {
  }

  /** The colour chosen when an image of the given width has loaded and
      `pixels` were read back from its bell window. */
  function LoadedColor(imageWidth: int, pixels: Option<seq<byte>>): (c: BellColor)
    requires pixels.Some? ==> |pixels.value| == BufferLength(BellWindow(imageWidth))
    ensures pixels.None? ==> c == Dark
  {
    ColorFor(MedianLuminance(BellWindow(imageWidth), pixels))
  }

  /** A window whose every pixel has red == green == blue == v has median
      luminance v. */
  lemma UniformWindowLuminance(imageWidth: int, data: seq<byte>, v: byte)
    requires |data| == BufferLength(BellWindow(imageWidth))
    requires forall i :: 0 <= i < |data| && i % Stride != 3 ==> data[i] == v
    ensures MedianLuminance(BellWindow(imageWidth), Some(data)) == Finite(v as real)
  {
    var lumas := Lumas(data);
    GreyBufferLumas(data, v);
    assert forall i :: 0 <= i < |lumas| ==> lumas[i] in lumas;
    MedianOfConstant(lumas, v as real);
  }

  /** A pure white window gives the dark bell; a pure black one the light
      bell; a window of grey 128 the light bell. */
  lemma UniformWindowColors(imageWidth: int, data: seq<byte>, v: byte)
    requires |data| == BufferLength(BellWindow(imageWidth))
    requires forall i :: 0 <= i < |data| && i % Stride != 3 ==> data[i] == v
    ensures v == 255 ==> LoadedColor(imageWidth, Some(data)) == Dark
    ensures v == 0 ==> LoadedColor(imageWidth, Some(data)) == Light
    ensures v == 128 ==> LoadedColor(imageWidth, Some(data)) == Light
    ensures LoadedColor(imageWidth, Some(data)) == Dark <==> v > 128
  {
    UniformWindowLuminance(imageWidth, data, v);
  }

  /** The colour depends only on which lumas occur, not on where in the
      window they are. */
  lemma LoadedColorOrderIndependent(imageWidth: int, a: seq<byte>, b: seq<byte>)
    requires |a| == BufferLength(BellWindow(imageWidth))
    requires |b| == BufferLength(BellWindow(imageWidth))
    requires multiset(Lumas(a)) == multiset(Lumas(b))
    ensures LoadedColor(imageWidth, Some(a)) == LoadedColor(imageWidth, Some(b))
  {
    MedianOrderIndependent(Lumas(a), Lumas(b));
    SampledMedian(BellWindow(imageWidth), a);
    SampledMedian(BellWindow(imageWidth), b);
    assert MedianLuminance(BellWindow(imageWidth), Some(a)) == MedianLuminance(BellWindow(imageWidth), Some(b));
  }

  /** The bell window always reads back 1024 pixels, an even count, so the
      sampler takes the mean of the 512th and 513th smallest lumas (ranks
      511 and 512 counting from 0). */
  lemma BellMedianIsMeanOfMiddleRanks(imageWidth: int, data: seq<byte>, lo: real, hi: real)
    requires |data| == BufferLength(BellWindow(imageWidth))
    requires IsOrderStatistic(Lumas(data), 511, lo) && IsOrderStatistic(Lumas(data), 512, hi)
    ensures MedianLuminance(BellWindow(imageWidth), Some(data)) == Finite((lo + hi) / 2.0)
  {
    BellBufferSize(imageWidth);
    assert |Lumas(data)| == 1024;
    SampledMedian(BellWindow(imageWidth), data);
    MedianEvenIsMeanOfMiddleRanks(Lumas(data), lo, hi);
  }
}
