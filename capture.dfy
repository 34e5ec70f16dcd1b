/** The corrections applied to every capture before it is stored: glare
    reduction (when its checkbox is on), brightness and contrast, sharpening
    (when the slider is above 0) and grayscale (when its checkbox is on), in
    that order. Fractional arithmetic is exact real arithmetic here, not IEEE
    doubles; every store into the byte buffer is the Uint8ClampedArray
    conversion. */
module Capture {
  import opened Pixels
  import opened PixelMaps
  import Filters
  import Sharpen

  // ---------------------------------------------------------------------
  // reduceGlare
  // ---------------------------------------------------------------------

  /** The mean (r + g + b) / 3 that reduceGlare compares with 200. The
      channels are read out of the buffer as JavaScript numbers, so they are
      given here as reals. */
  function Brightness(x: real, y: real, z: real): real {
    (x + y + z) / 3.0
  }

  /** The factor 200 / brightness that reduceGlare scales a bright pixel by. */
  function GlareFactor(x: real, y: real, z: real): real
    requires Brightness(x, y, z) > 200.0
  {
    200.0 / Brightness(x, y, z)
  }

  /** One colour channel x scaled by the glare factor, capped at 255 by
      Math.min and stored into the byte buffer. */
  function Dimmed(x: real, factor: real): int {
    var scaled := x * factor;
    ToUint8Clamp(if scaled < MaxByte as real then scaled else MaxByte as real)
  }

  /** reduceGlare on one pixel: only a pixel brighter than 200 is touched. */
  function DeglarePixel(p: Pixel): Pixel {
    var x, y, z := p.r as real, p.g as real, p.b as real;
    if Brightness(x, y, z) > 200.0 then
      var factor := GlareFactor(x, y, z);
      Pixel(Dimmed(x, factor), Dimmed(y, factor), Dimmed(z, factor), p.a)
    else p
  }

  function GlareReduced(s: seq<int>): seq<int>
    requires |s| % 4 == 0
  {
    MapPixels(s, DeglarePixel)
  }

  /** The glare factor of a pixel brighter than 200 lies strictly between 0
      and 1, and scales the pixel's channel sum to exactly 600. */
  lemma GlareFactorBounds(x: real, y: real, z: real)
    requires Brightness(x, y, z) > 200.0
    ensures 0.0 < GlareFactor(x, y, z) < 1.0
    ensures (x + y + z) * GlareFactor(x, y, z) == 600.0
  {
    var bright := Brightness(x, y, z);
    var factor := 200.0 / bright;
    assert factor * bright == 200.0;
    assert x + y + z == 3.0 * bright;
  }

  /** A channel value read out of the buffer as a JavaScript number: a whole
      number between 0 and 255 (the real-valued form of `IsByte`, which the
      real arithmetic of the glare lemmas needs). */
  predicate IsWholeByte(x: real) {
    0.0 <= x <= MaxByte as real && x.Floor as real == x
  }

  /** Scaling a non-negative value by a factor below 1 does not increase it. */
  lemma ScaleDown(x: real, factor: real)
    requires x >= 0.0 && 0.0 < factor < 1.0
    ensures 0.0 <= x * factor <= x
  {
    assert x * (1.0 - factor) == x - x * factor;
  }

  /** Capping a value between 0 and the byte `bound` at 255 and storing it
      gives a byte no larger than `bound` and within half a unit of the
      value. */
  lemma CappedStoreNear(scaled: real, bound: real)
    requires IsWholeByte(bound) && 0.0 <= scaled <= bound
    ensures var stored := ToUint8Clamp(if scaled < MaxByte as real then scaled else MaxByte as real);
      IsByte(stored) && stored as real <= bound &&
      scaled - 0.5 <= stored as real <= scaled + 0.5
  {
    var capped := if scaled < MaxByte as real then scaled else MaxByte as real;
    ToUint8ClampAtMost(capped, bound.Floor);
  }

  /** A dimmed channel is a byte no larger than the original channel, and is
      its scaled value up to the rounding of the store. */
  lemma DimmedNear(x: real, factor: real)
    requires IsWholeByte(x) && 0.0 < factor < 1.0
    ensures IsByte(Dimmed(x, factor)) && Dimmed(x, factor) as real <= x
    ensures x * factor - 0.5 <= Dimmed(x, factor) as real <= x * factor + 0.5
  {
    ScaleDown(x, factor);
    CappedStoreNear(x * factor, x);
  }

  /** After dimming, a pixel's three channels sum to between 599 and 601:
      its mean brightness is brought to 200, up to the rounding of the
      stores. */
  lemma DimmedPixelBrightness(x: real, y: real, z: real)
    requires IsWholeByte(x) && IsWholeByte(y) && IsWholeByte(z) && Brightness(x, y, z) > 200.0
    ensures var factor := GlareFactor(x, y, z);
      599 <= Dimmed(x, factor) + Dimmed(y, factor) + Dimmed(z, factor) <= 601
  {
    var factor := GlareFactor(x, y, z);
    GlareFactorBounds(x, y, z);
    assert x * factor + y * factor + z * factor == 600.0;
    DimmedNear(x, factor);
    DimmedNear(y, factor);
    DimmedNear(z, factor);
  }

  /** Pixel q after reduceGlare: alpha kept; a pixel of brightness at most 200
      kept whole; a brighter one has no channel raised and a channel sum
      between 599 and 601, so its mean brightness is 200 up to rounding. */
  lemma GlareReducedAt(s: seq<int>, q: nat)
    requires IsPixelBuffer(s) && 4 * q + 4 <= |s|
    ensures |GlareReduced(s)| == |s|
    ensures GlareReduced(s)[4 * q + 3] == s[4 * q + 3]
    ensures Brightness(s[4 * q] as real, s[4 * q + 1] as real, s[4 * q + 2] as real) <= 200.0 ==>
      PixelAt(GlareReduced(s), 4 * q) == PixelAt(s, 4 * q)
    ensures var o, p := PixelAt(GlareReduced(s), 4 * q), PixelAt(s, 4 * q);
      IsByte(o.r) && IsByte(o.g) && IsByte(o.b) && o.r <= p.r && o.g <= p.g && o.b <= p.b
    ensures Brightness(s[4 * q] as real, s[4 * q + 1] as real, s[4 * q + 2] as real) > 200.0 ==>
      599 <= GlareReduced(s)[4 * q] + GlareReduced(s)[4 * q + 1] + GlareReduced(s)[4 * q + 2] <= 601
  {
    MapPixelsAt(s, DeglarePixel, q);
    var x, y, z := s[4 * q] as real, s[4 * q + 1] as real, s[4 * q + 2] as real;
    if Brightness(x, y, z) > 200.0 {
      var factor := GlareFactor(x, y, z);
      GlareFactorBounds(x, y, z);
      DimmedNear(x, factor);
      DimmedNear(y, factor);
      DimmedNear(z, factor);
      DimmedPixelBrightness(x, y, z);
    }
  }

  /** The loop of reduceGlare. */
  method ReduceGlare(data: array<int>)
    requires data.Length % 4 == 0
    modifies data
    ensures data[..] == GlareReduced(old(data[..]))
  {
    MapInPlace(data, DeglarePixel);
  }

  // ---------------------------------------------------------------------
  // adjustBrightnessContrast
  // ---------------------------------------------------------------------

  /** The contrast factor for a slider position given in percent. */
  function ContrastFactor(contrastPercent: int): real {
    contrastPercent as real / 100.0
  }

  /** (value - 128) * contrast + 128 + brightness: the channel stretched about
      mid-grey and shifted. */
  function Level(x: real, brightness: int, contrast: real): real {
    (x - 128.0) * contrast + 128.0 + brightness as real
  }

  /** One colour channel after adjustBrightnessContrast: leveled, passed
      through the scanner's clamp and stored. */
  function Adjusted(v: int, brightness: int, contrast: real): int {
    ToUint8Clamp(Clamp(Level(v as real, brightness, contrast)))
  }

  function AdjustPixel(p: Pixel, brightness: int, contrast: real): Pixel {
    Pixel(Adjusted(p.r, brightness, contrast), Adjusted(p.g, brightness, contrast),
          Adjusted(p.b, brightness, contrast), p.a)
  }

  /** The per-pixel step of adjustBrightnessContrast for fixed slider values. */
  function Adjuster(brightness: int, contrast: real): Pixel -> Pixel {
    p => AdjustPixel(p, brightness, contrast)
  }

  function BrightnessContrast(s: seq<int>, brightness: int, contrast: real): seq<int>
    requires |s| % 4 == 0
  {
    MapPixels(s, Adjuster(brightness, contrast))
  }

  /** The neutral setting (brightness 0, contrast 1) levels every value to itself. */
  lemma LevelNeutral(x: real)
    ensures Level(x, 0, 1.0) == x
  {
  }

  /** With contrast 0 every value levels to 128 + brightness. */
  lemma LevelFlat(x: real, brightness: int)
    ensures Level(x, brightness, 0.0) == 128.0 + brightness as real
  {
  }

  /** With a non-negative contrast, leveling keeps the order of values. */
  lemma LevelMonotone(x: real, y: real, brightness: int, contrast: real)
    requires x <= y && contrast >= 0.0
    ensures Level(x, brightness, contrast) <= Level(y, brightness, contrast)
  {
    assert Level(y, brightness, contrast) - Level(x, brightness, contrast) == (y - x) * contrast;
  }

  /** A byte under the neutral setting comes out unchanged. */
  lemma AdjustedNeutral(v: int, brightness: int, contrast: real)
    requires IsByte(v) && brightness == 0 && contrast == 1.0
    ensures Adjusted(v, brightness, contrast) == v
  {
    LevelNeutral(v as real);
    ToUint8ClampOfByte(v);
  }

  /** With contrast 0 every channel comes out as the same byte, the stored
      clamp of 128 + brightness. */
  lemma AdjustedFlat(v: int, brightness: int)
    ensures Adjusted(v, brightness, 0.0) == ToUint8Clamp(Clamp(128.0 + brightness as real))
  {
    LevelFlat(v as real, brightness);
  }

  /** With a non-negative contrast a brighter channel never comes out darker. */
  lemma AdjustedMonotone(v: int, w: int, brightness: int, contrast: real)
    requires v <= w && contrast >= 0.0
    ensures Adjusted(v, brightness, contrast) <= Adjusted(w, brightness, contrast)
  {
    LevelMonotone(v as real, w as real, brightness, contrast);
    ClampMonotone(Level(v as real, brightness, contrast), Level(w as real, brightness, contrast));
    ToUint8ClampMonotone(Clamp(Level(v as real, brightness, contrast)), Clamp(Level(w as real, brightness, contrast)));
  }

  /** Pixel q after adjustBrightnessContrast: each colour byte is its own
      adjusted value, so bytes; alpha kept. */
  lemma BrightnessContrastAt(s: seq<int>, brightness: int, contrast: real, q: nat)
    requires |s| % 4 == 0 && 4 * q + 4 <= |s|
    ensures |BrightnessContrast(s, brightness, contrast)| == |s|
    ensures var o := PixelAt(BrightnessContrast(s, brightness, contrast), 4 * q);
      o.r == Adjusted(s[4 * q], brightness, contrast) && o.g == Adjusted(s[4 * q + 1], brightness, contrast) &&
      o.b == Adjusted(s[4 * q + 2], brightness, contrast) && IsByte(o.r) && IsByte(o.g) && IsByte(o.b)
    ensures BrightnessContrast(s, brightness, contrast)[4 * q + 3] == s[4 * q + 3]
  {
    MapPixelsAt(s, Adjuster(brightness, contrast), q);
  }

  /** Under the neutral setting the whole buffer comes out unchanged. */
  lemma BrightnessContrastNeutral(s: seq<int>)
    requires IsPixelBuffer(s)
    ensures BrightnessContrast(s, 0, 1.0) == s
  {
    var t := BrightnessContrast(s, 0, 1.0);
    forall q | 0 <= q < |s| / 4
      ensures PixelAt(s, 4 * q) == AdjustPixel(PixelAt(s, 4 * q), 0, 1.0)
    {
      AdjustedNeutral(s[4 * q], 0, 1.0);
      AdjustedNeutral(s[4 * q + 1], 0, 1.0);
      AdjustedNeutral(s[4 * q + 2], 0, 1.0);
    }
    MapPixelsPointwise(s, s, Adjuster(0, 1.0));
  }

  /** The loop of adjustBrightnessContrast, with the two slider values as
      parameters. */
  method AdjustBrightnessContrast(data: array<int>, brightness: int, contrastPercent: int)
    requires data.Length % 4 == 0
    modifies data
    ensures data[..] == BrightnessContrast(old(data[..]), brightness, ContrastFactor(contrastPercent))
  {
    var contrast := contrastPercent as real / 100.0;
    MapInPlace(data, Adjuster(brightness, contrast));
  }

  // ---------------------------------------------------------------------
  // The capture pipeline
  // ---------------------------------------------------------------------

  /** The controls captureImage reads: the glare reduction checkbox, the
      brightness and contrast sliders, the sharpness slider and the grayscale
      checkbox. */
  datatype CaptureSettings = CaptureSettings(
    glareReduction: bool,
    brightness: int,
    contrastPercent: int,
    sharpnessPercent: int,
    grayscale: bool)

  /** Glare reduction keeps alpha, and sends a pixel of bytes to a pixel of bytes. */
  lemma DeglarePixelKeeps(p: Pixel)
    ensures DeglarePixel(p).a == p.a
    ensures IsBytePixel(p) ==> IsBytePixel(DeglarePixel(p))
  {
    var x, y, z := p.r as real, p.g as real, p.b as real;
    if IsBytePixel(p) && Brightness(x, y, z) > 200.0 {
      var factor := GlareFactor(x, y, z);
      GlareFactorBounds(x, y, z);
      DimmedNear(x, factor);
      DimmedNear(y, factor);
      DimmedNear(z, factor);
    }
  }

  /** The buffer after the in-place corrections: glare reduction when it is
      on, then brightness and contrast. */
  function Corrected(d: seq<int>, settings: CaptureSettings): (r: seq<int>)
    requires |d| % 4 == 0
    ensures |r| == |d|
  {
    MapPixelsLength(d, DeglarePixel);
    var glare := if settings.glareReduction then GlareReduced(d) else d;
    var contrast := ContrastFactor(settings.contrastPercent);
    MapPixelsLength(glare, Adjuster(settings.brightness, contrast));
    BrightnessContrast(glare, settings.brightness, contrast)
  }

  /** The buffer after sharpening, which runs only when the slider is above 0. */
  function SharpenStage(d: seq<int>, w: nat, h: nat, settings: CaptureSettings): (r: seq<int>)
    requires |d| == 4 * (w * h)
    ensures |r| == |d|
  {
    if settings.sharpnessPercent > 0 then Sharpen.Sharpened(d, w, h, Sharpen.Strength(settings.sharpnessPercent))
    else d
  }

  /** What the pipeline leaves in the buffer of a w-by-h capture. */
  function Processed(d: seq<int>, w: nat, h: nat, settings: CaptureSettings): (r: seq<int>)
    requires |d| == 4 * (w * h)
    ensures |r| == |d|
  {
    assert |d| % 4 == 0 by { assert |d| == 4 * (w * h); }
    var sharpened := SharpenStage(Corrected(d, settings), w, h, settings);
    MapPixelsLength(sharpened, Filters.GrayscalePixel);
    if settings.grayscale then Filters.Grayscaled(sharpened) else sharpened
  }

  /** The in-place corrections keep a buffer of bytes a buffer of bytes and
      keep every alpha byte. */
  lemma CorrectedKeepsBytesAndAlpha(d: seq<int>, settings: CaptureSettings)
    requires IsPixelBuffer(d)
    ensures IsPixelBuffer(Corrected(d, settings))
    ensures forall j :: 0 <= j < |d| && IsAlpha(j) ==> Corrected(d, settings)[j] == d[j]
  {
    forall p
      ensures DeglarePixel(p).a == p.a && (IsBytePixel(p) ==> IsBytePixel(DeglarePixel(p)))
    {
      DeglarePixelKeeps(p);
    }
    MapPixelsKeepsBytes(d, DeglarePixel);
    MapPixelsKeepsAlpha(d, DeglarePixel);
    var glare := if settings.glareReduction then GlareReduced(d) else d;
    var contrast := ContrastFactor(settings.contrastPercent);
    var adjust := Adjuster(settings.brightness, contrast);
    MapPixelsKeepsBytes(glare, adjust);
    MapPixelsKeepsAlpha(glare, adjust);
  }

  /** Sharpening keeps an image of bytes an image of bytes and keeps every
      alpha byte. */
  lemma SharpenStageKeepsBytesAndAlpha(d: seq<int>, w: nat, h: nat, settings: CaptureSettings)
    requires IsImage(d, w, h)
    ensures IsImage(SharpenStage(d, w, h, settings), w, h)
    ensures forall j :: 0 <= j < |d| && IsAlpha(j) ==> SharpenStage(d, w, h, settings)[j] == d[j]
  {
    forall j | 0 <= j < |d|
      ensures IsByte(SharpenStage(d, w, h, settings)[j])
      ensures IsAlpha(j) ==> SharpenStage(d, w, h, settings)[j] == d[j]
    {
      Sharpen.SharpenedShape(d, w, h, Sharpen.Strength(settings.sharpnessPercent), j);
    }
  }

  /** A capture of bytes comes out a capture of bytes of the same size, with
      every alpha byte as it was. */
  lemma ProcessedKeepsBytesAndAlpha(d: seq<int>, w: nat, h: nat, settings: CaptureSettings)
    requires IsImage(d, w, h)
    ensures IsImage(Processed(d, w, h, settings), w, h)
    ensures forall j :: 0 <= j < |d| && IsAlpha(j) ==> Processed(d, w, h, settings)[j] == d[j]
  {
    ImageIsPixelBuffer(d, w, h);
    CorrectedKeepsBytesAndAlpha(d, settings);
    var corrected := Corrected(d, settings);
    SharpenStageKeepsBytesAndAlpha(corrected, w, h, settings);
    var sharpened := SharpenStage(corrected, w, h, settings);
    ImageIsPixelBuffer(sharpened, w, h);
    MapPixelsKeepsBytes(sharpened, Filters.GrayscalePixel);
    MapPixelsKeepsAlpha(sharpened, Filters.GrayscalePixel);
  }

  /** With the grayscale checkbox on, every pixel of the capture comes out grey. */
  lemma ProcessedGrey(d: seq<int>, w: nat, h: nat, settings: CaptureSettings, q: nat)
    requires IsImage(d, w, h) && settings.grayscale && 4 * q + 4 <= |d|
    ensures var r := Processed(d, w, h, settings); r[4 * q] == r[4 * q + 1] == r[4 * q + 2]
  {
    ImageIsPixelBuffer(d, w, h);
    CorrectedKeepsBytesAndAlpha(d, settings);
    var corrected := Corrected(d, settings);
    SharpenStageKeepsBytesAndAlpha(corrected, w, h, settings);
    var sharpened := SharpenStage(corrected, w, h, settings);
    ImageIsPixelBuffer(sharpened, w, h);
    Filters.GrayscaledAt(sharpened, q);
  }

  /** With glare reduction and grayscale off, brightness 0, contrast 100 and
      sharpness 0, a capture comes out unchanged. */
  lemma ProcessedNeutral(d: seq<int>, w: nat, h: nat)
    requires IsImage(d, w, h)
    ensures Processed(d, w, h, CaptureSettings(false, 0, 100, 0, false)) == d
  {
    ImageIsPixelBuffer(d, w, h);
    assert ContrastFactor(100) == 1.0;
    BrightnessContrastNeutral(d);
  }

  /** The correction steps of captureImage, from the ImageData read off the
      capture canvas to the buffer put back on it. */
  method ProcessCapture(data: array<int>, w: nat, h: nat, settings: CaptureSettings) returns (result: seq<int>)
    requires IsImage(data[..], w, h)
    modifies data
    ensures result == Processed(old(data[..]), w, h, settings)
  {
    ghost var d := data[..];
    ImageIsPixelBuffer(d, w, h);
    CorrectedKeepsBytesAndAlpha(d, settings);
    if settings.glareReduction {
      ReduceGlare(data);
    }
    AdjustBrightnessContrast(data, settings.brightness, settings.contrastPercent);
    assert data[..] == Corrected(d, settings);
    var image := data;
    if settings.sharpnessPercent > 0 {
      var sharpened := Sharpen.ApplySharpen(data, w, h, settings.sharpnessPercent);
      image := new int[|sharpened|](j requires 0 <= j < |sharpened| => sharpened[j]);
      assert image[..] == sharpened;
    }
    assert image[..] == SharpenStage(Corrected(d, settings), w, h, settings);
    if settings.grayscale {
      Filters.Grayscale(image);
    }
    result := image[..];
  }
}
