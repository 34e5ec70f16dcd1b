/** Pixel buffers as the browser's ImageData lays them out: a flat sequence of
    byte values, four per pixel (red, green, blue, alpha), pixels row after row.
    Also the two ways a number becomes a byte in the scanner: its own `clamp`
    helper and the conversion a Uint8ClampedArray applies on every store. */
module Pixels {

  const MaxByte: int := 255

  predicate IsByte(v: int) { 0 <= v <= MaxByte }

  /** Every entry is a byte, as in a Uint8ClampedArray. */
  predicate AllBytes(s: seq<int>) {
    forall i :: 0 <= i < |s| ==> IsByte(s[i])
  }

  /** A buffer whose length is a whole number of pixels. */
  predicate IsPixelBuffer(s: seq<int>) {
    |s| % 4 == 0 && AllBytes(s)
  }

  /** The buffer of a w-by-h ImageData. */
  predicate IsImage(s: seq<int>, w: nat, h: nat) {
    |s| == 4 * (w * h) && AllBytes(s)
  }

  lemma ImageIsPixelBuffer(s: seq<int>, w: nat, h: nat)
    requires IsImage(s, w, h)
    ensures IsPixelBuffer(s)
  {
    assert |s| == 4 * (w * h);
  }

  /** A buffer of bytes as long as a w-by-h image is one. */
  lemma SameSizeImage(s: seq<int>, t: seq<int>, w: nat, h: nat)
    requires IsImage(s, w, h) && |t| == |s| && AllBytes(t)
    ensures IsImage(t, w, h)
  {
  }

  // ---------------------------------------------------------------------
  // Numbers to bytes
  // ---------------------------------------------------------------------

  /** The scanner's `clamp`: Math.max(0, Math.min(255, value)). */
  function Clamp(v: real): (r: real)
    ensures 0.0 <= r <= MaxByte as real
    ensures 0.0 <= v <= MaxByte as real ==> r == v
    ensures v < 0.0 ==> r == 0.0
    ensures v > MaxByte as real ==> r == MaxByte as real
  {
    var m := if MaxByte as real < v then MaxByte as real else v;
    if 0.0 < m then m else 0.0
  }

  /** The clamp of the scanner keeps the order of values. */
  lemma ClampMonotone(u: real, v: real)
    requires u <= v
    ensures Clamp(u) <= Clamp(v)
  {
  }

  /** What a Uint8ClampedArray stores when a number is assigned to one of its
      elements (ECMAScript ToUint8Clamp): clamp to [0, 255], then round to the
      nearest integer, ties to the even one. */
  function ToUint8Clamp(v: real): (b: int)
    ensures IsByte(b)
    ensures Clamp(v) - 0.5 <= b as real <= Clamp(v) + 0.5
    ensures Clamp(v) - 0.5 == b as real || Clamp(v) + 0.5 == b as real ==> b % 2 == 0
  {
    if v <= 0.0 then 0
    else if v >= MaxByte as real then MaxByte
    else
      var f := v.Floor;
      if f as real + 0.5 < v then f + 1
      else if v < f as real + 0.5 then f
      else if f % 2 == 1 then f + 1
      else f
  }

  /** A byte stored into a Uint8ClampedArray is stored unchanged. */
  lemma ToUint8ClampOfByte(v: int)
    requires IsByte(v)
    ensures ToUint8Clamp(v as real) == v
  {
  }

  /** Storing never rounds past a byte bound the value itself respects. */
  lemma ToUint8ClampAtMost(v: real, bound: int)
    requires IsByte(bound) && v <= bound as real
    ensures ToUint8Clamp(v) <= bound
  {
  }

  /** Storing never rounds below a byte bound the value itself respects. */
  lemma ToUint8ClampAtLeast(v: real, bound: int)
    requires IsByte(bound) && v >= bound as real
    ensures ToUint8Clamp(v) >= bound
  {
  }

  /** A larger number never stores as a smaller byte. */
  lemma ToUint8ClampMonotone(u: real, v: real)
    requires u <= v
    ensures ToUint8Clamp(u) <= ToUint8Clamp(v)
  {
  }

  // ---------------------------------------------------------------------
  // Geometry of the flat buffer
  // ---------------------------------------------------------------------

  /** The flat index of channel c of pixel (x, y), as the sharpening loop
      computes it: ((y * w + x) * 4 + c). */
  function Index(w: nat, x: nat, y: nat, c: nat): nat {
    (y * w + x) * 4 + c
  }

  predicate IsAlpha(i: int) { i % 4 == 3 }

  /** The column of the pixel that flat index i belongs to. */
  function Column(w: nat, i: nat): nat
    requires w > 0
  {
    (i / 4) % w
  }

  /** The row of the pixel that flat index i belongs to. */
  function Row(w: nat, i: nat): nat
    requires w > 0
  {
    (i / 4) / w
  }

  /** Index i lies in a pixel of the outermost rows or columns. */
  predicate OnBorder(w: nat, h: nat, i: nat) {
    w > 0 && (Column(w, i) == 0 || Column(w, i) == w - 1 || Row(w, i) == 0 || Row(w, i) == h - 1)
  }

  /** Index i is a red, green or blue byte of a pixel off the border. */
  predicate IsInteriorColour(w: nat, h: nat, i: nat) {
    w > 0 && !IsAlpha(i) && 0 < Column(w, i) < w - 1 && 0 < Row(w, i) < h - 1
  }

  /** Every byte of an image is an alpha byte, a border byte or an interior colour byte. */
  lemma ByteKinds(w: nat, h: nat, i: nat)
    requires i < 4 * (w * h)
    ensures IsAlpha(i) || OnBorder(w, h, i) || IsInteriorColour(w, h, i)
  {
  }

  lemma DivModUnique(n: int, d: int, q: int, r: int)
    requires d > 0 && 0 <= r < d && n == q * d + r
    ensures n / d == q && n % d == r
  {
    var k := q - n / d;
    assert k * d == n % d - r;
    assert k == 0;
  }

  /** The index of channel c of pixel (x, y) decodes back to x, y and c. */
  lemma IndexDecodes(w: nat, x: nat, y: nat, c: nat)
    requires x < w && c < 4
    ensures Index(w, x, y, c) % 4 == c
    ensures Column(w, Index(w, x, y, c)) == x && Row(w, Index(w, x, y, c)) == y
  {
    var i := Index(w, x, y, c);
    DivModUnique(i, 4, y * w + x, c);
    DivModUnique(y * w + x, w, y, x);
  }

  /** A flat index is the index of its own column, row and channel. */
  lemma IndexOfCoordinates(w: nat, i: nat)
    requires w > 0
    ensures i == Index(w, Column(w, i), Row(w, i), i % 4)
  {
  }

  /** The pixel (x, y) of a w-by-h image lies inside its buffer. */
  lemma IndexInImage(w: nat, h: nat, x: nat, y: nat, c: nat)
    requires x < w && y < h && c < 4
    ensures Index(w, x, y, c) < 4 * (w * h)
  {
    MulMonotone(y + 1, h, w);
    assert (y + 1) * w == y * w + w;
    assert y * w + x < h * w == w * h;
  }

  lemma MulMonotone(a: int, b: int, m: nat)
    requires a <= b
    ensures a * m <= b * m
  {
    assert (b - a) * m >= 0;
  }

  /** The four neighbours of an interior colour byte lie inside the buffer. */
  lemma NeighboursInImage(w: nat, h: nat, i: nat)
    requires IsInteriorColour(w, h, i)
    ensures 4 * w + 4 <= i
    ensures i + 4 * w + 4 < 4 * (w * h)
  {
    var p, c := i / 4, i % 4;
    var x, y := p % w, p / w;
    assert p == y * w + x;
    MulMonotone(1, y, w);
    MulMonotone(y + 2, h, w);
    assert (y + 2) * w == y * w + 2 * w;
    assert p + w + 1 < h * w;
    assert 4 * (w * h) == 4 * (h * w);
  }
}
