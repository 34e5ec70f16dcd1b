/** A pixel buffer seen pixel by pixel: the buffer a filter loop
    `for (i = 0; i < data.length; i += 4)` leaves behind when it rewrites each
    pixel from that pixel alone, and the facts every such loop relies on. */
module PixelMaps {
  import opened Pixels

  /** One pixel: its four bytes in buffer order. */
  datatype Pixel = Pixel(r: int, g: int, b: int, a: int)

  /** The pixel whose red byte is at index i. */
  function PixelAt(s: seq<int>, i: nat): Pixel
    requires i + 4 <= |s|
  {
    Pixel(s[i], s[i + 1], s[i + 2], s[i + 3])
  }

  /** The four bytes of a pixel, in buffer order. */
  function Bytes(p: Pixel): (bs: seq<int>)
    ensures |bs| == 4 && PixelAt(bs, 0) == p
  {
    [p.r, p.g, p.b, p.a]
  }

  /** The buffer obtained by replacing every pixel p of s by f(p): what a loop
      `for (i = 0; i < data.length; i += 4)` that rewrites data[i..i+3] from
      data[i..i+3] leaves behind. */
  function MapPixels(s: seq<int>, f: Pixel -> Pixel): seq<int>
    requires |s| % 4 == 0
    decreases |s|
  {
    if |s| == 0 then [] else MapPixels(s[..|s| - 4], f) + Bytes(f(PixelAt(s, |s| - 4)))
  }

  lemma {:induction false} MapPixelsLength(s: seq<int>, f: Pixel -> Pixel)
    requires |s| % 4 == 0
    ensures |MapPixels(s, f)| == |s|
    decreases |s|
  {
    if |s| > 0 {
      MapPixelsLength(s[..|s| - 4], f);
    }
  }

  /** Mapping keeps the length, and pixel q of the result is f of pixel q of s. */
  lemma {:induction false} MapPixelsAt(s: seq<int>, f: Pixel -> Pixel, q: nat)
    requires |s| % 4 == 0 && 4 * q + 4 <= |s|
    ensures |MapPixels(s, f)| == |s|
    ensures PixelAt(MapPixels(s, f), 4 * q) == f(PixelAt(s, 4 * q))
    decreases |s|
  {
    var init := s[..|s| - 4];
    MapPixelsLength(init, f);
    if 4 * q + 4 < |s| {
      MapPixelsAt(init, f, q);
      assert PixelAt(s, 4 * q) == PixelAt(init, 4 * q);
      assert PixelAt(MapPixels(s, f), 4 * q) == PixelAt(MapPixels(init, f), 4 * q);
    } else {
      assert PixelAt(MapPixels(s, f), 4 * q) == PixelAt(Bytes(f(PixelAt(s, |s| - 4))), 0);
    }
  }

  /** A buffer whose every pixel is f of the same pixel of s is MapPixels(s, f). */
  lemma {:induction false} MapPixelsPointwise(t: seq<int>, s: seq<int>, f: Pixel -> Pixel)
    requires |s| % 4 == 0 && |t| == |s|
    requires forall q :: 0 <= q < |s| / 4 ==> PixelAt(t, 4 * q) == f(PixelAt(s, 4 * q))
    ensures t == MapPixels(s, f)
    decreases |s|
  {
    if |s| > 0 {
      var n := |s| - 4;
      forall q | 0 <= q < n / 4
        ensures PixelAt(t[..n], 4 * q) == f(PixelAt(s[..n], 4 * q))
      {
        assert PixelAt(t[..n], 4 * q) == PixelAt(t, 4 * q);
        assert PixelAt(s[..n], 4 * q) == PixelAt(s, 4 * q);
      }
      MapPixelsPointwise(t[..n], s[..n], f);
      assert PixelAt(t, 4 * (n / 4)) == f(PixelAt(s, n));
      assert t == t[..n] + Bytes(PixelAt(t, n));
    }
  }

  /** The loop `for (let i = 0; i < data.length; i += 4)` shared by the
      scanner's per-pixel filters: read the pixel at i, and overwrite its red,
      green and blue bytes with those of f of it. The alpha byte is never
      written, so f must keep alpha. */
  method MapInPlace(data: array<int>, f: Pixel -> Pixel)
    requires data.Length % 4 == 0
    requires forall p :: f(p).a == p.a
    modifies data
    ensures data[..] == MapPixels(old(data[..]), f)
  {
    ghost var original := data[..];
    var i := 0;
    while i < data.Length
      invariant 0 <= i <= data.Length && i % 4 == 0
      invariant forall q :: 0 <= q < i / 4 ==> PixelAt(data[..], 4 * q) == f(PixelAt(original, 4 * q))
      invariant forall j :: i <= j < data.Length ==> data[j] == original[j]
    {
      var p := f(Pixel(data[i], data[i + 1], data[i + 2], data[i + 3]));
      data[i] := p.r;
      data[i + 1] := p.g;
      data[i + 2] := p.b;
      i := i + 4;
    }
    MapPixelsPointwise(data[..], original, f);
  }

  /** If g undoes f on every pixel, mapping g after f gives back the buffer. */
  lemma {:induction false} MapPixelsInverse(s: seq<int>, f: Pixel -> Pixel, g: Pixel -> Pixel)
    requires |s| % 4 == 0
    requires forall p :: g(f(p)) == p
    ensures |MapPixels(s, f)| == |s| && MapPixels(MapPixels(s, f), g) == s
    decreases |s|
  {
    MapPixelsLength(s, f);
    if |s| > 0 {
      var init := s[..|s| - 4];
      var t := MapPixels(s, f);
      MapPixelsInverse(init, f, g);
      assert t[..|t| - 4] == MapPixels(init, f);
      assert PixelAt(t, |t| - 4) == f(PixelAt(s, |s| - 4));
      assert s == init + Bytes(PixelAt(s, |s| - 4));
    }
  }

  /** If f is idempotent on every pixel, mapping it twice is mapping it once. */
  lemma {:induction false} MapPixelsIdempotent(s: seq<int>, f: Pixel -> Pixel)
    requires |s| % 4 == 0
    requires forall p :: f(f(p)) == f(p)
    ensures |MapPixels(s, f)| == |s| && MapPixels(MapPixels(s, f), f) == MapPixels(s, f)
    decreases |s|
  {
    MapPixelsLength(s, f);
    if |s| > 0 {
      var init := s[..|s| - 4];
      var t := MapPixels(s, f);
      MapPixelsIdempotent(init, f);
      assert t[..|t| - 4] == MapPixels(init, f);
      assert PixelAt(t, |t| - 4) == f(PixelAt(s, |s| - 4));
    }
  }

  /** All four bytes of a pixel are bytes. */
  predicate IsBytePixel(p: Pixel) {
    IsByte(p.r) && IsByte(p.g) && IsByte(p.b) && IsByte(p.a)
  }

  /** A per-pixel map that sends byte pixels to byte pixels sends a buffer of
      bytes to a buffer of bytes. */
  lemma MapPixelsKeepsBytes(s: seq<int>, f: Pixel -> Pixel)
    requires IsPixelBuffer(s)
    requires forall p {:trigger f(p)} :: IsBytePixel(p) ==> IsBytePixel(f(p))
    ensures IsPixelBuffer(MapPixels(s, f))
  {
    MapPixelsLength(s, f);
    forall j | 0 <= j < |s|
      ensures IsByte(MapPixels(s, f)[j])
    {
      var q := j / 4;
      MapPixelsAt(s, f, q);
      assert IsBytePixel(PixelAt(s, 4 * q));
    }
  }

  /** A per-pixel map that keeps each pixel's alpha keeps every alpha byte of
      the buffer. */
  lemma MapPixelsKeepsAlpha(s: seq<int>, f: Pixel -> Pixel)
    requires |s| % 4 == 0
    requires forall p :: f(p).a == p.a
    ensures |MapPixels(s, f)| == |s|
    ensures forall j :: 0 <= j < |s| && IsAlpha(j) ==> MapPixels(s, f)[j] == s[j]
  {
    MapPixelsLength(s, f);
    forall j | 0 <= j < |s| && IsAlpha(j)
      ensures MapPixels(s, f)[j] == s[j]
    {
      MapPixelsAt(s, f, j / 4);
    }
  }
}
