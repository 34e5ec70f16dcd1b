/** The filters of the edit view's filter menu (grayscale, blackwhite, sepia
    and invert), each rewriting an ImageData buffer in place one pixel per
    loop step. Each is given twice: as a function of the whole buffer built
    from what it does to one pixel, and as the in-place loop the scanner runs,
    proved to leave exactly that function's result in the array. The
    fractional weights are exact reals here, not IEEE doubles. */
module Filters {
  import opened Pixels
  import opened PixelMaps

  // ---------------------------------------------------------------------
  // grayscale
  // ---------------------------------------------------------------------

  /** The weighted grey 0.299 r + 0.587 g + 0.114 b. */
  function GrayLevel(x: real, y: real, z: real): real {
    x * 0.299 + y * 0.587 + z * 0.114
  }

  /** The `grayscale` filter on one pixel: the grey is stored into all three
      colour bytes. */
  function GrayscalePixel(p: Pixel): Pixel {
    var v := ToUint8Clamp(GrayLevel(p.r as real, p.g as real, p.b as real));
    Pixel(v, v, v, p.a)
  }

  function Grayscaled(s: seq<int>): seq<int>
    requires |s| % 4 == 0
  {
    MapPixels(s, GrayscalePixel)
  }

  /** The grey of three bytes lies between the smallest and the largest of them. */
  lemma GrayBetween(r: int, g: int, b: int, lo: int, hi: int)
    requires lo <= r <= hi && lo <= g <= hi && lo <= b <= hi
    ensures lo as real <= GrayLevel(r as real, g as real, b as real) <= hi as real
  {
  }

  /** Pixel q after `grayscale`: three equal colour bytes, lying between the
      darkest and the brightest of the pixel's colour bytes; alpha kept. */
  lemma GrayscaledAt(s: seq<int>, q: nat)
    requires IsPixelBuffer(s) && 4 * q + 4 <= |s|
    ensures |Grayscaled(s)| == |s|
    ensures Grayscaled(s)[4 * q] == Grayscaled(s)[4 * q + 1] == Grayscaled(s)[4 * q + 2]
    ensures var v, r, g, b := Grayscaled(s)[4 * q], s[4 * q], s[4 * q + 1], s[4 * q + 2];
      (v >= r || v >= g || v >= b) && (v <= r || v <= g || v <= b)
    ensures Grayscaled(s)[4 * q + 3] == s[4 * q + 3]
  {
    MapPixelsAt(s, GrayscalePixel, q);
    var r, g, b := s[4 * q], s[4 * q + 1], s[4 * q + 2];
    var lo := if r <= g && r <= b then r else if g <= b then g else b;
    var hi := if r >= g && r >= b then r else if g >= b then g else b;
    GrayBetween(r, g, b, lo, hi);
    ToUint8ClampAtLeast(GrayLevel(r as real, g as real, b as real), lo);
    ToUint8ClampAtMost(GrayLevel(r as real, g as real, b as real), hi);
  }

  /** A grey pixel is its own grey. */
  lemma GrayscalePixelIdempotent(p: Pixel)
    ensures GrayscalePixel(GrayscalePixel(p)) == GrayscalePixel(p)
  {
    var v := GrayscalePixel(p).r;
    assert GrayLevel(v as real, v as real, v as real) == v as real;
    ToUint8ClampOfByte(v);
  }

  /** Applying `grayscale` to its own output changes nothing. */
  lemma GrayscaledIdempotent(s: seq<int>)
    requires |s| % 4 == 0
    ensures |Grayscaled(s)| == |s| && Grayscaled(Grayscaled(s)) == Grayscaled(s)
  {
    forall p {
      GrayscalePixelIdempotent(p);
    }
    MapPixelsIdempotent(s, GrayscalePixel);
  }

  /** The `grayscale` loop of applyFilter, also the whole of convertToGrayscale. */
  method Grayscale(data: array<int>)
    requires data.Length % 4 == 0
    modifies data
    ensures data[..] == Grayscaled(old(data[..]))
  {
    MapInPlace(data, GrayscalePixel);
  }

  // ---------------------------------------------------------------------
  // sepia
  // ---------------------------------------------------------------------

  /** Math.min(255, value) as the sepia filter applies it before storing. */
  function AtMost255(v: real): real {
    if v < MaxByte as real then v else MaxByte as real
  }

  function SepiaRed(x: real, y: real, z: real): real { x * 0.393 + y * 0.769 + z * 0.189 }
  function SepiaGreen(x: real, y: real, z: real): real { x * 0.349 + y * 0.686 + z * 0.168 }
  function SepiaBlue(x: real, y: real, z: real): real { x * 0.272 + y * 0.534 + z * 0.131 }

  /** The `sepia` filter on one pixel: each colour byte becomes a weighted sum
      of the original three, capped at 255 and stored; alpha kept. */
  function SepiaPixel(p: Pixel): Pixel {
    var x, y, z := p.r as real, p.g as real, p.b as real;
    Pixel(ToUint8Clamp(AtMost255(SepiaRed(x, y, z))),
          ToUint8Clamp(AtMost255(SepiaGreen(x, y, z))),
          ToUint8Clamp(AtMost255(SepiaBlue(x, y, z))),
          p.a)
  }

  function Sepia(s: seq<int>): seq<int>
    requires |s| % 4 == 0
  {
    MapPixels(s, SepiaPixel)
  }

  /** On non-negative channels the red weights dominate the green ones and the
      green ones the blue ones. */
  lemma SepiaWeightsOrdered(x: real, y: real, z: real)
    requires x >= 0.0 && y >= 0.0 && z >= 0.0
    ensures SepiaBlue(x, y, z) <= SepiaGreen(x, y, z) <= SepiaRed(x, y, z)
  {
  }

  /** Pixel q after `sepia`: bytes with red at least green and green at least
      blue, a black pixel staying black; alpha kept. */
  lemma SepiaAt(s: seq<int>, q: nat)
    requires IsPixelBuffer(s) && 4 * q + 4 <= |s|
    ensures |Sepia(s)| == |s|
    ensures var o := PixelAt(Sepia(s), 4 * q);
      IsByte(o.r) && IsByte(o.g) && IsByte(o.b) && o.b <= o.g <= o.r
    ensures s[4 * q] == s[4 * q + 1] == s[4 * q + 2] == 0 ==>
      Sepia(s)[4 * q] == Sepia(s)[4 * q + 1] == Sepia(s)[4 * q + 2] == 0
    ensures Sepia(s)[4 * q + 3] == s[4 * q + 3]
  {
    MapPixelsAt(s, SepiaPixel, q);
    var x, y, z := s[4 * q] as real, s[4 * q + 1] as real, s[4 * q + 2] as real;
    SepiaWeightsOrdered(x, y, z);
    ToUint8ClampMonotone(AtMost255(SepiaBlue(x, y, z)), AtMost255(SepiaGreen(x, y, z)));
    ToUint8ClampMonotone(AtMost255(SepiaGreen(x, y, z)), AtMost255(SepiaRed(x, y, z)));
  }

  /** The `sepia` loop of applyFilter. */
  method SepiaFilter(data: array<int>)
    requires data.Length % 4 == 0
    modifies data
    ensures data[..] == Sepia(old(data[..]))
  {
    MapInPlace(data, SepiaPixel);
  }

  // ---------------------------------------------------------------------
  // invert
  // ---------------------------------------------------------------------

  /** The `invert` filter on one pixel: each colour byte v becomes 255 - v. */
  function InvertPixel(p: Pixel): Pixel {
    Pixel(MaxByte - p.r, MaxByte - p.g, MaxByte - p.b, p.a)
  }

  function Inverted(s: seq<int>): seq<int>
    requires |s| % 4 == 0
  {
    MapPixels(s, InvertPixel)
  }

  /** Pixel q after `invert`: colour bytes mirrored around 255, alpha kept. */
  lemma InvertedAt(s: seq<int>, q: nat)
    requires |s| % 4 == 0 && 4 * q + 4 <= |s|
    ensures |Inverted(s)| == |s|
    ensures Inverted(s)[4 * q] == MaxByte - s[4 * q]
    ensures Inverted(s)[4 * q + 1] == MaxByte - s[4 * q + 1]
    ensures Inverted(s)[4 * q + 2] == MaxByte - s[4 * q + 2]
    ensures Inverted(s)[4 * q + 3] == s[4 * q + 3]
  {
    MapPixelsAt(s, InvertPixel, q);
  }

  /** Inverting twice gives back the original buffer. */
  lemma InvertedTwice(s: seq<int>)
    requires |s| % 4 == 0
    ensures |Inverted(s)| == |s| && Inverted(Inverted(s)) == s
  {
    MapPixelsInverse(s, InvertPixel, InvertPixel);
  }

  /** The `invert` loop of applyFilter. */
  method Invert(data: array<int>)
    requires data.Length % 4 == 0
    modifies data
    ensures data[..] == Inverted(old(data[..]))
  {
    MapInPlace(data, InvertPixel);
  }

  // ---------------------------------------------------------------------
  // blackwhite
  // ---------------------------------------------------------------------

  /** The weighted grey 0.299 r + 0.587 g + 0.114 b, scaled by 1000 so that
      it is an exact integer. */
  function Gray1000(r: int, g: int, b: int): int {
    299 * r + 587 * g + 114 * b
  }

  /** The `blackwhite` threshold: white when the grey exceeds 128, else black. */
  function BlackOrWhite(r: int, g: int, b: int): int {
    if Gray1000(r, g, b) > 128 * 1000 then MaxByte else 0
  }

  /** The integer test is the scanner's own test on the fractional grey: the
      pixel turns white exactly when 0.299 r + 0.587 g + 0.114 b exceeds 128. */
  lemma BlackWhiteThreshold(r: int, g: int, b: int)
    ensures BlackOrWhite(r, g, b) == MaxByte <==> GrayLevel(r as real, g as real, b as real) > 128.0
    ensures BlackOrWhite(r, g, b) == 0 <==> GrayLevel(r as real, g as real, b as real) <= 128.0
  {
    assert GrayLevel(r as real, g as real, b as real) * 1000.0 == Gray1000(r, g, b) as real;
  }

  /** A pixel at least as bright in every channel is never the darker of the two. */
  lemma BlackOrWhiteMonotone(r: int, g: int, b: int, r': int, g': int, b': int)
    requires r <= r' && g <= g' && b <= b'
    ensures BlackOrWhite(r, g, b) <= BlackOrWhite(r', g', b')
  {
  }

  /** The `blackwhite` filter on one pixel: all three colour bytes become the
      threshold of its grey. */
  function BlackWhitePixel(p: Pixel): Pixel {
    var v := BlackOrWhite(p.r, p.g, p.b);
    Pixel(v, v, v, p.a)
  }

  function BlackWhite(s: seq<int>): seq<int>
    requires |s| % 4 == 0
  {
    MapPixels(s, BlackWhitePixel)
  }

  /** Pixel q after `blackwhite`: three equal colour bytes, 255 exactly when the
      weighted grey exceeds 128 and 0 otherwise; alpha kept. */
  lemma BlackWhiteAt(s: seq<int>, q: nat)
    requires |s| % 4 == 0 && 4 * q + 4 <= |s|
    ensures |BlackWhite(s)| == |s|
    ensures BlackWhite(s)[4 * q] == BlackWhite(s)[4 * q + 1] == BlackWhite(s)[4 * q + 2]
    ensures BlackWhite(s)[4 * q] in {0, MaxByte}
    ensures BlackWhite(s)[4 * q] == MaxByte <==> Gray1000(s[4 * q], s[4 * q + 1], s[4 * q + 2]) > 128 * 1000
    ensures BlackWhite(s)[4 * q + 3] == s[4 * q + 3]
  {
    MapPixelsAt(s, BlackWhitePixel, q);
  }

  /** Applying `blackwhite` to its own output changes nothing. */
  lemma BlackWhiteIdempotent(s: seq<int>)
    requires |s| % 4 == 0
    ensures |BlackWhite(s)| == |s| && BlackWhite(BlackWhite(s)) == BlackWhite(s)
  {
    MapPixelsIdempotent(s, BlackWhitePixel);
  }

  /** The `blackwhite` loop of applyFilter. */
  method BlackWhiteFilter(data: array<int>)
    requires data.Length % 4 == 0
    modifies data
    ensures data[..] == BlackWhite(old(data[..]))
  {
    MapInPlace(data, BlackWhitePixel);
  }
}
