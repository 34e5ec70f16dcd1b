/** The sharpening pass of the capture pipeline: a 3-by-3 convolution with the
    kernel
        0   -s    0
       -s  1+4s  -s
        0   -s    0
    where s is the sharpness slider divided by 100, applied to the red, green
    and blue bytes of every pixel off the border and written into a copy of
    the buffer, each sum clamped to [0, 255] before it is stored. */
module Sharpen {
  import opened Pixels

  /** The kernel weight s for a slider position given in percent. */
  function Strength(sharpnessPercent: int): real {
    sharpnessPercent as real / 100.0
  }

  /** Entry t of the kernel, read row after row: entry (ky + 1) * 3 + (kx + 1)
      weighs the neighbour ky rows down and kx columns right. The centre
      weighs 1 + 4s, the four edge neighbours -s and the corners nothing. */
  function Weight(s: real, t: nat): real {
    if t == 4 then 1.0 + 4.0 * s else if t == 1 || t == 3 || t == 5 || t == 7 then -s else 0.0
  }

  /** The kernel array applySharpen builds holds these nine weights. */
  predicate IsKernel(kernel: seq<real>, s: real) {
    |kernel| == 9 && forall t :: 0 <= t < 9 ==> kernel[t] == Weight(s, t)
  }

  /** How far, in bytes, the neighbour weighed by kernel entry t lies from the
      centre byte: a row up is w pixels back, a row down w pixels on. */
  function TapOffset(w: nat, t: nat): int {
    var rowShift := if t < 3 then -(w as int) else if t < 6 then 0 else w as int;
    var column := if t < 3 then t - 1 else if t < 6 then t - 4 else t - 7;
    4 * (rowShift + column)
  }

  lemma TapOffsetBounds(w: nat, t: nat)
    requires t < 9
    ensures -(4 * w + 4) <= TapOffset(w, t) <= 4 * w + 4
  {
  }

  /** The buffer entries the kernel at centre i reads all exist. */
  predicate TapsInside(d: seq<int>, w: nat, i: nat) {
    4 * w + 4 <= i && i + 4 * w + 4 < |d|
  }

  /** The neighbour weighed by kernel entry t, as a number. */
  function Sample(d: seq<int>, w: nat, i: nat, t: nat): real
    requires TapsInside(d, w, i) && t < 9
  {
    TapOffsetBounds(w, t);
    d[i + TapOffset(w, t)] as real
  }

  /** The running sum after the first n of the nine products, added in the
      order of the ky and kx loops. */
  function PartialSum(d: seq<int>, w: nat, i: nat, s: real, n: nat): real
    requires TapsInside(d, w, i) && n <= 9
  {
    if n == 0 then 0.0 else PartialSum(d, w, i, s, n - 1) + Sample(d, w, i, n - 1) * Weight(s, n - 1)
  }

  /** The full convolution sum at centre i. */
  function KernelSum(d: seq<int>, w: nat, i: nat, s: real): real
    requires TapsInside(d, w, i)
  {
    PartialSum(d, w, i, s, 9)
  }

  /** What byte j of the sharpened copy holds: for a colour byte off the
      border, its convolution sum clamped and stored; any other byte is copied. */
  function SharpenedAt(d: seq<int>, w: nat, h: nat, s: real, j: nat): int
    requires |d| == 4 * (w * h) && j < |d|
  {
    if IsInteriorColour(w, h, j) then
      NeighboursInImage(w, h, j);
      ToUint8Clamp(Clamp(KernelSum(d, w, j, s)))
    else d[j]
  }

  /** The buffer applySharpen returns. */
  function Sharpened(d: seq<int>, w: nat, h: nat, s: real): (r: seq<int>)
    requires |d| == 4 * (w * h)
    ensures |r| == |d|
  {
    seq(|d|, j requires 0 <= j < |d| => SharpenedAt(d, w, h, s, j))
  }

  // ---------------------------------------------------------------------
  // The sum in closed form
  // ---------------------------------------------------------------------

  /** Nine numbers weighed by the kernel and added in order are the centre
      scaled by 1 + 4s less s times its four edge neighbours. */
  lemma NineTaps(v0: real, v1: real, v2: real, v3: real, v4: real, v5: real, v6: real, v7: real, v8: real, s: real)
    ensures 0.0 + v0 * Weight(s, 0) + v1 * Weight(s, 1) + v2 * Weight(s, 2) + v3 * Weight(s, 3) + v4 * Weight(s, 4)
      + v5 * Weight(s, 5) + v6 * Weight(s, 6) + v7 * Weight(s, 7) + v8 * Weight(s, 8)
      == (1.0 + 4.0 * s) * v4 - s * (v1 + v3 + v5 + v7)
  {
    assert v1 * Weight(s, 1) == -(s * v1) && v3 * Weight(s, 3) == -(s * v3);
    assert v5 * Weight(s, 5) == -(s * v5) && v7 * Weight(s, 7) == -(s * v7);
    assert v4 * Weight(s, 4) == (1.0 + 4.0 * s) * v4;
  }

  /** The convolution sum is the five-point stencil: the centre byte times
      1 + 4s less s times the bytes above, left, right and below. */
  lemma KernelSumIsStencil(d: seq<int>, w: nat, i: nat, s: real)
    requires TapsInside(d, w, i)
    ensures KernelSum(d, w, i, s)
      == (1.0 + 4.0 * s) * d[i] as real
       - s * (d[i - 4 * w] as real + d[i - 4] as real + d[i + 4] as real + d[i + 4 * w] as real)
  {
    var v0, v1, v2 := Sample(d, w, i, 0), Sample(d, w, i, 1), Sample(d, w, i, 2);
    var v3, v4, v5 := Sample(d, w, i, 3), Sample(d, w, i, 4), Sample(d, w, i, 5);
    var v6, v7, v8 := Sample(d, w, i, 6), Sample(d, w, i, 7), Sample(d, w, i, 8);
    assert PartialSum(d, w, i, s, 0) == 0.0;
    assert PartialSum(d, w, i, s, 1) == PartialSum(d, w, i, s, 0) + v0 * Weight(s, 0);
    assert PartialSum(d, w, i, s, 2) == PartialSum(d, w, i, s, 1) + v1 * Weight(s, 1);
    assert PartialSum(d, w, i, s, 3) == PartialSum(d, w, i, s, 2) + v2 * Weight(s, 2);
    assert PartialSum(d, w, i, s, 4) == PartialSum(d, w, i, s, 3) + v3 * Weight(s, 3);
    assert PartialSum(d, w, i, s, 5) == PartialSum(d, w, i, s, 4) + v4 * Weight(s, 4);
    assert PartialSum(d, w, i, s, 6) == PartialSum(d, w, i, s, 5) + v5 * Weight(s, 5);
    assert PartialSum(d, w, i, s, 7) == PartialSum(d, w, i, s, 6) + v6 * Weight(s, 6);
    assert PartialSum(d, w, i, s, 8) == PartialSum(d, w, i, s, 7) + v7 * Weight(s, 7);
    assert PartialSum(d, w, i, s, 9) == PartialSum(d, w, i, s, 8) + v8 * Weight(s, 8);
    NineTaps(v0, v1, v2, v3, v4, v5, v6, v7, v8, s);
    assert TapOffset(w, 1) == -4 * w && TapOffset(w, 3) == -4;
    assert TapOffset(w, 5) == 4 && TapOffset(w, 7) == 4 * w && TapOffset(w, 4) == 0;
  }

  /** The stencil leaves a value whose four neighbours equal it as it is. */
  lemma FlatStencil(v: real, s: real)
    ensures (1.0 + 4.0 * s) * v - s * (v + v + v + v) == v
  {
  }

  /** With strength 0 the stencil is the centre value. */
  lemma ZeroStencil(c: real, n: real)
    ensures (1.0 + 4.0 * 0.0) * c - 0.0 * n == c
  {
  }

  /** With a non-negative strength, a centre at least as bright as its four
      neighbours is not darkened, and one at most as bright is not brightened. */
  lemma StencilSharpens(c: real, n1: real, n2: real, n3: real, n4: real, s: real)
    requires s >= 0.0
    ensures n1 <= c && n2 <= c && n3 <= c && n4 <= c ==> (1.0 + 4.0 * s) * c - s * (n1 + n2 + n3 + n4) >= c
    ensures c <= n1 && c <= n2 && c <= n3 && c <= n4 ==> (1.0 + 4.0 * s) * c - s * (n1 + n2 + n3 + n4) <= c
  {
    assert (1.0 + 4.0 * s) * c - s * (n1 + n2 + n3 + n4) - c
      == s * ((c - n1) + (c - n2) + (c - n3) + (c - n4));
  }

  // ---------------------------------------------------------------------
  // Properties of the sharpened buffer
  // ---------------------------------------------------------------------

  /** The sharpened copy is a buffer of bytes of the same image size; its
      alpha bytes and its border pixels are those of the input, and every
      other byte is the stored stencil of the input. */
  lemma SharpenedShape(d: seq<int>, w: nat, h: nat, s: real, j: nat)
    requires IsImage(d, w, h) && j < |d|
    ensures |Sharpened(d, w, h, s)| == |d|
    ensures IsByte(Sharpened(d, w, h, s)[j])
    ensures IsAlpha(j) || OnBorder(w, h, j) || IsInteriorColour(w, h, j)
    ensures IsAlpha(j) || OnBorder(w, h, j) ==> Sharpened(d, w, h, s)[j] == d[j]
    ensures IsInteriorColour(w, h, j) ==>
      TapsInside(d, w, j) &&
      Sharpened(d, w, h, s)[j] == ToUint8Clamp(Clamp((1.0 + 4.0 * s) * d[j] as real
        - s * (d[j - 4 * w] as real + d[j - 4] as real + d[j + 4] as real + d[j + 4 * w] as real)))
  {
    ByteKinds(w, h, j);
    if IsInteriorColour(w, h, j) {
      NeighboursInImage(w, h, j);
      KernelSumIsStencil(d, w, j, s);
    }
  }

  /** The four neighbours of colour byte j off the border (same channel, one
      pixel up, left, right and down) all equal it. */
  predicate IsFlatAt(d: seq<int>, w: nat, h: nat, j: nat)
    requires |d| == 4 * (w * h) && IsInteriorColour(w, h, j)
  {
    NeighboursInImage(w, h, j);
    d[j - 4 * w] == d[j - 4] == d[j + 4] == d[j + 4 * w] == d[j]
  }

  /** Colour byte j off the border is at least as bright as its four neighbours. */
  predicate IsLocalMaxAt(d: seq<int>, w: nat, h: nat, j: nat)
    requires |d| == 4 * (w * h) && IsInteriorColour(w, h, j)
  {
    NeighboursInImage(w, h, j);
    d[j - 4 * w] <= d[j] && d[j - 4] <= d[j] && d[j + 4] <= d[j] && d[j + 4 * w] <= d[j]
  }

  /** Colour byte j off the border is at most as bright as its four neighbours. */
  predicate IsLocalMinAt(d: seq<int>, w: nat, h: nat, j: nat)
    requires |d| == 4 * (w * h) && IsInteriorColour(w, h, j)
  {
    NeighboursInImage(w, h, j);
    d[j] <= d[j - 4 * w] && d[j] <= d[j - 4] && d[j] <= d[j + 4] && d[j] <= d[j + 4 * w]
  }

  /** A colour byte off the border whose four neighbours all equal it is left
      unchanged. */
  lemma FlatRegionUnchanged(d: seq<int>, w: nat, h: nat, s: real, j: nat)
    requires IsImage(d, w, h) && j < |d| && IsInteriorColour(w, h, j) && IsFlatAt(d, w, h, j)
    ensures Sharpened(d, w, h, s)[j] == d[j]
  {
    NeighboursInImage(w, h, j);
    var v := d[j] as real;
    KernelSumIsStencil(d, w, j, s);
    FlatStencil(v, s);
    assert KernelSum(d, w, j, s) == v;
    assert IsByte(d[j]);
    ToUint8ClampOfByte(d[j]);
    assert Sharpened(d, w, h, s)[j] == SharpenedAt(d, w, h, s, j) == ToUint8Clamp(Clamp(v));
  }

  /** With a non-negative strength, the convolution sum of a centre at least
      as bright as its four neighbours is at least the centre, and that of a
      centre at most as bright is at most the centre. */
  lemma LocalExtremaSum(d: seq<int>, w: nat, s: real, j: nat)
    requires TapsInside(d, w, j) && s >= 0.0
    ensures d[j - 4 * w] <= d[j] && d[j - 4] <= d[j] && d[j + 4] <= d[j] && d[j + 4 * w] <= d[j] ==>
      KernelSum(d, w, j, s) >= d[j] as real
    ensures d[j] <= d[j - 4 * w] && d[j] <= d[j - 4] && d[j] <= d[j + 4] && d[j] <= d[j + 4 * w] ==>
      KernelSum(d, w, j, s) <= d[j] as real
  {
    KernelSumIsStencil(d, w, j, s);
    StencilSharpens(d[j] as real, d[j - 4 * w] as real, d[j - 4] as real, d[j + 4] as real, d[j + 4 * w] as real, s);
  }

  /** A colour byte off the border at least as bright as its four neighbours
      is not darkened by a non-negative strength, nor a byte at most as bright
      brightened. */
  lemma LocalExtremaKept(d: seq<int>, w: nat, h: nat, s: real, j: nat)
    requires IsImage(d, w, h) && j < |d| && IsInteriorColour(w, h, j) && s >= 0.0
    ensures IsLocalMaxAt(d, w, h, j) ==> Sharpened(d, w, h, s)[j] >= d[j]
    ensures IsLocalMinAt(d, w, h, j) ==> Sharpened(d, w, h, s)[j] <= d[j]
  {
    NeighboursInImage(w, h, j);
    LocalExtremaSum(d, w, s, j);
    var sum := KernelSum(d, w, j, s);
    assert Sharpened(d, w, h, s)[j] == ToUint8Clamp(Clamp(sum));
    if IsLocalMaxAt(d, w, h, j) {
      ToUint8ClampAtLeast(Clamp(sum), d[j]);
    }
    if IsLocalMinAt(d, w, h, j) {
      ToUint8ClampAtMost(Clamp(sum), d[j]);
    }
  }

  /** At strength 0 sharpening returns the image unchanged. */
  lemma ZeroStrengthIsIdentity(d: seq<int>, w: nat, h: nat)
    requires IsImage(d, w, h)
    ensures Sharpened(d, w, h, 0.0) == d
  {
    forall j | 0 <= j < |d|
      ensures Sharpened(d, w, h, 0.0)[j] == d[j]
    {
      if IsInteriorColour(w, h, j) {
        NeighboursInImage(w, h, j);
        KernelSumIsStencil(d, w, j, 0.0);
        ZeroStencil(d[j] as real, d[j - 4 * w] as real + d[j - 4] as real + d[j + 4] as real + d[j + 4 * w] as real);
        ToUint8ClampOfByte(d[j]);
      }
    }
  }

  // ---------------------------------------------------------------------
  // The loops of applySharpen
  // ---------------------------------------------------------------------

  /** Byte j comes before the byte of channel c of pixel (x, y) in the order
      the y, x and c loops visit bytes. */
  predicate VisitedBefore(w: nat, j: nat, y: int, x: int, c: int)
    requires w > 0
  {
    Row(w, j) < y || (Row(w, j) == y && (Column(w, j) < x || (Column(w, j) == x && j % 4 < c)))
  }

  /** Byte j of the output buffer once the loops have reached channel c of
      pixel (x, y): sharpened if it is a colour byte off the border visited
      before, a copy of the input byte otherwise. */
  function InProgress(d: seq<int>, w: nat, h: nat, s: real, j: nat, y: int, x: int, c: int): int
    requires |d| == 4 * (w * h) && j < |d|
  {
    if IsInteriorColour(w, h, j) && VisitedBefore(w, j, y, x, c) then SharpenedAt(d, w, h, s, j) else d[j]
  }

  /** The byte the kx loop reads for kernel entry (ky + 1) * 3 + (kx + 1) lies
      inside the buffer and is the neighbour that entry weighs. */
  lemma TapStep(d: seq<int>, w: nat, x: nat, y: nat, c: nat, ky: int, kx: int, n: nat)
    requires TapsInside(d, w, Index(w, x, y, c))
    requires -1 <= ky <= 1 && -1 <= kx <= 1 && n == 3 * (ky + 1) + (kx + 1)
    ensures (ky + 1) * 3 + (kx + 1) == n < 9
    ensures 0 <= ((y + ky) * w + (x + kx)) * 4 + c < |d|
    ensures d[((y + ky) * w + (x + kx)) * 4 + c] as real == Sample(d, w, Index(w, x, y, c), n)
  {
    TapOffsetBounds(w, n);
    assert (y + ky) * w == y * w + ky * w;
    assert ((y + ky) * w + (x + kx)) * 4 + c == Index(w, x, y, c) + TapOffset(w, n);
  }

  /** The convolution sum at centre i, computed by the ky and kx loops. */
  method Convolve(data: array<int>, w: nat, x: nat, y: nat, c: nat, kernel: seq<real>, ghost s: real) returns (sum: real)
    requires IsKernel(kernel, s)
    requires TapsInside(data[..], w, Index(w, x, y, c))
    ensures sum == KernelSum(data[..], w, Index(w, x, y, c), s)
  {
    ghost var d := data[..];
    ghost var i := Index(w, x, y, c);
    ghost var n := 0;
    sum := 0.0;
    var ky := -1;
    while ky <= 1
      invariant -1 <= ky <= 2 && n == 3 * (ky + 1)
      invariant sum == PartialSum(d, w, i, s, n)
    {
      var kx := -1;
      while kx <= 1
        invariant -1 <= kx <= 2 && n == 3 * (ky + 1) + (kx + 1)
        invariant sum == PartialSum(d, w, i, s, n)
      {
        TapStep(d, w, x, y, c, ky, kx, n);
        var idx := ((y + ky) * w + (x + kx)) * 4 + c;
        assert kernel[(ky + 1) * 3 + (kx + 1)] == Weight(s, n);
        sum := sum + data[idx] as real * kernel[(ky + 1) * 3 + (kx + 1)];
        n := n + 1;
        kx := kx + 1;
      }
      ky := ky + 1;
    }
  }

  /** applySharpen: the input is left alone and the sharpened copy returned. */
  method ApplySharpen(data: array<int>, w: nat, h: nat, sharpnessPercent: int) returns (result: seq<int>)
    requires IsImage(data[..], w, h)
    ensures result == Sharpened(data[..], w, h, Strength(sharpnessPercent))
  {
    var s := sharpnessPercent as real / 100.0;
    var kernel := [0.0, -s, 0.0, -s, 1.0 + 4.0 * s, -s, 0.0, -s, 0.0];
    var output := new int[data.Length](j requires 0 <= j < data.Length reads data => data[j]);
    ghost var d := data[..];
    var y := 1;
    while y < h - 1
      invariant 1 <= y && (y <= h - 1 || h < 2)
      invariant output.Length == |d|
      invariant forall j :: 0 <= j < |d| ==> output[j] == InProgress(d, w, h, s, j, y, 1, 0)
    {
      var x := 1;
      while x < w - 1
        invariant 1 <= x && (x <= w - 1 || w < 2)
        invariant forall j :: 0 <= j < |d| ==> output[j] == InProgress(d, w, h, s, j, y, x, 0)
      {
        var c := 0;
        while c < 3
          invariant 0 <= c <= 3
          invariant forall j :: 0 <= j < |d| ==> output[j] == InProgress(d, w, h, s, j, y, x, c)
        {
          ghost var i := Index(w, x, y, c);
          IndexDecodes(w, x, y, c);
          IndexInImage(w, h, x, y, c);
          NeighboursInImage(w, h, i);
          var sum := Convolve(data, w, x, y, c, kernel, s);
          output[(y * w + x) * 4 + c] := ToUint8Clamp(Clamp(sum));
          forall j | 0 <= j < |d| && j != i
            ensures Column(w, j) != x || Row(w, j) != y || j % 4 != c
          {
            IndexOfCoordinates(w, j);
          }
          c := c + 1;
        }
        x := x + 1;
      }
      y := y + 1;
    }
    result := output[..];
  }
}
