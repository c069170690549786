/** Byte-buffer pixel kernels shared by the capture and encoder code: the
    RGBA→RGB alpha strip, the BGRA↔RGBA channel swap over whole 4-byte
    pixels (`chunks_exact(4)`), and the stride-aware BGRA→RGBA conversion
    that skips any pixel whose four bytes are not all inside the buffer. */
module Pixels {
  import opened Bytes

  /** Channel selector of the swap: output channel `c` reads input channel
      `SwapIndex(c)` (R←2, G←1, B←0, A←3). */
  function SwapIndex(c: nat): nat
    requires c < 4
  {
    if c == 0 then 2 else if c == 2 then 0 else c
  }

  /** One pixel with its first and third channels exchanged. */
  function SwapRB<T>(px: seq<T>): (r: seq<T>)
    requires |px| == 4
    ensures |r| == 4
  {
    [px[2], px[1], px[0], px[3]]
  }

  /** `for chunk in rgba.chunks_exact(4) { push R, G, B }`: keep the first
      three bytes of every whole pixel; a trailing partial pixel is dropped. */
  function StripAlpha<T>(rgba: seq<T>): (rgb: seq<T>)
    ensures |rgb| == 3 * (|rgba| / 4)
    decreases |rgba|
  {
    if |rgba| < 4 then [] else rgba[0..3] + StripAlpha(rgba[4..])
  }

  /** Byte `c` of RGB pixel `i` is byte `c` of RGBA pixel `i`. */
  lemma {:induction false} StripAlphaPixel<T>(rgba: seq<T>, i: nat, c: nat)
    requires i < |rgba| / 4 && c < 3
    ensures 3 * i + c < |StripAlpha(rgba)| && 4 * i + c < |rgba|
    ensures StripAlpha(rgba)[3 * i + c] == rgba[4 * i + c]
    decreases i
  {
    if i > 0 {
      StripAlphaPixel(rgba[4..], i - 1, c);
    }
  }

  /** `for chunk in buffer.chunks_exact(4) { push chunk[2], chunk[1], chunk[0], chunk[3] }`. */
  function SwapChannels<T>(bgra: seq<T>): (rgba: seq<T>)
    ensures |rgba| == 4 * (|bgra| / 4)
    decreases |bgra|
  {
    if |bgra| < 4 then [] else SwapRB(bgra[..4]) + SwapChannels(bgra[4..])
  }

  /** Byte `c` of output pixel `i` is byte `SwapIndex(c)` of input pixel `i`. */
  lemma {:induction false} SwapChannelsPixel<T>(bgra: seq<T>, i: nat, c: nat)
    requires i < |bgra| / 4 && c < 4
    ensures 4 * i + c < |SwapChannels(bgra)| && 4 * i + SwapIndex(c) < |bgra|
    ensures SwapChannels(bgra)[4 * i + c] == bgra[4 * i + SwapIndex(c)]
    decreases i
  {
    if i > 0 {
      SwapChannelsPixel(bgra[4..], i - 1, c);
    }
  }

  /** Swapping twice gives back the whole pixels of the input: the swap is
      its own inverse, which is why the same loop serves BGRA→RGBA and back. */
  lemma {:induction false} SwapChannelsInvolution<T>(bgra: seq<T>)
    ensures SwapChannels(SwapChannels(bgra)) == bgra[..4 * (|bgra| / 4)]
    decreases |bgra|
  {
    if |bgra| >= 4 {
      var rest := bgra[4..];
      SwapChannelsInvolution(rest);
      var once := SwapChannels(bgra);
      assert once[..4] == SwapRB(bgra[..4]) && once[4..] == SwapChannels(rest);
      assert SwapRB(SwapRB(bgra[..4])) == bgra[..4];
      assert bgra[..4 * (|bgra| / 4)] == bgra[..4] + rest[..4 * (|rest| / 4)];
    }
  }

  /** The guarded push of the strided loops: the pixel at byte offset `o`,
      swapped to RGBA, if all four of its bytes are inside the buffer;
      nothing otherwise. */
  function PixelAt<T>(src: seq<T>, o: nat): seq<T>
  {
    if o + 3 < |src| then [src[o + 2], src[o + 1], src[o], src[o + 3]] else []
  }

  /** Pixels `0..w` of the row starting at byte `rowStart`, each as the
      guarded push emits it. */
  function RowParts<T>(src: seq<T>, rowStart: nat, w: nat): (parts: seq<seq<T>>)
    ensures |parts| == w
  {
    seq(w, x requires 0 <= x < w => PixelAt(src, rowStart + 4 * x))
  }

  /** The inner loop's output for one row. */
  function RowPixels<T>(src: seq<T>, rowStart: nat, w: nat): seq<T>
  {
    Flatten(RowParts(src, rowStart, w))
  }

  /** The rows `0..h`, row `y` starting at byte `y * stride`. */
  function Rows<T>(src: seq<T>, w: nat, h: nat, stride: nat): (rows: seq<seq<T>>)
    ensures |rows| == h
  {
    seq(h, y requires 0 <= y < h => RowPixels(src, y * stride, w))
  }

  /** The nested loop's output: the rows in order. */
  function Strided<T>(src: seq<T>, w: nat, h: nat, stride: nat): seq<T>
  {
    Flatten(Rows(src, w, h, stride))
  }

  /** A row never has more than `4w` bytes, and has exactly that many when
      it ends within the buffer. */
  lemma RowLength<T>(src: seq<T>, rowStart: nat, w: nat)
    ensures |RowPixels(src, rowStart, w)| <= 4 * w
    ensures rowStart + 4 * w <= |src| ==> |RowPixels(src, rowStart, w)| == 4 * w
  {
    var parts := RowParts(src, rowStart, w);
    FlattenUniformLength(parts, 4);
  }

  /** The conversion never produces more than `4wh` bytes. */
  lemma StridedBounded<T>(src: seq<T>, w: nat, h: nat, stride: nat)
    ensures |Strided(src, w, h, stride)| <= 4 * w * h
  {
    var rows := Rows(src, w, h, stride);
    forall y | 0 <= y < h
      ensures |rows[y]| <= 4 * w
    {
      RowLength(src, y * stride, w);
    }
    FlattenUniformLength(rows, 4 * w);
  }

  /** The inner loop of the strided conversion: pixels `0..w` of the row
      starting at `rowStart`, each pushed when its last byte is inside the
      buffer. */
  method PushRow<T>(out: seq<T>, src: seq<T>, rowStart: nat, w: nat) returns (res: seq<T>)
    ensures res == out + RowPixels(src, rowStart, w)
  {
    res := out;
    var x := 0;
    while x < w
      invariant 0 <= x <= w
      invariant res == out + RowPixels(src, rowStart, x)
    {
      var px := PixelAt(src, rowStart + 4 * x);
      assert RowParts(src, rowStart, x + 1) == RowParts(src, rowStart, x) + [px];
      FlattenAppend(RowParts(src, rowStart, x), px);
      res := res + px;
      x := x + 1;
    }
  }

  /** The nested loop of the strided conversion: rows `0..h`, `stride`
      bytes apart. */
  method ConvertStrided<T>(src: seq<T>, w: nat, h: nat, stride: nat) returns (out: seq<T>)
    ensures out == Strided(src, w, h, stride)
  {
    out := [];
    var y := 0;
    while y < h
      invariant 0 <= y <= h
      invariant out == Strided(src, w, y, stride)
    {
      var rowStart := y * stride;
      out := PushRow(out, src, rowStart, w);
      assert Rows(src, w, y + 1, stride) == Rows(src, w, y, stride) + [RowPixels(src, rowStart, w)];
      FlattenAppend(Rows(src, w, y, stride), RowPixels(src, rowStart, w));
      y := y + 1;
    }
  }

  /** Every pixel's four bytes are inside the buffer: the last row ends
      within it. */
  predicate Covered(len: nat, w: nat, h: nat, stride: nat)
  {
    w == 0 || h == 0 || (h - 1) * stride + 4 * w <= len
  }

  /** In a covered conversion every row lies inside the buffer. */
  lemma RowInside(len: nat, w: nat, h: nat, stride: nat, y: nat)
    requires Covered(len, w, h, stride) && y < h && w > 0
    ensures y * stride + 4 * w <= len
  {
    assert y * stride <= (h - 1) * stride by {
      assert (h - 1) * stride == y * stride + (h - 1 - y) * stride;
    }
  }

  /** In a covered conversion every row has exactly `4w` bytes. */
  lemma FullRows<T>(src: seq<T>, w: nat, h: nat, stride: nat)
    requires Covered(|src|, w, h, stride)
    ensures forall y :: 0 <= y < h ==> |Rows(src, w, h, stride)[y]| == 4 * w
  {
    forall y | 0 <= y < h
      ensures |Rows(src, w, h, stride)[y]| == 4 * w
    {
      RowLength(src, y * stride, w);
      if w > 0 {
        RowInside(|src|, w, h, stride, y);
      }
    }
  }

  /** With every pixel covered the conversion has exactly `4wh` bytes. */
  lemma StridedFullLength<T>(src: seq<T>, w: nat, h: nat, stride: nat)
    requires Covered(|src|, w, h, stride)
    ensures |Strided(src, w, h, stride)| == 4 * w * h
  {
    FullRows(src, w, h, stride);
    FlattenUniformLength(Rows(src, w, h, stride), 4 * w);
  }

  /** Inside a row that ends within the buffer, byte `c` of pixel `x` is the
      swapped byte of the source pixel at `rowStart + 4x`. */
  lemma RowPixel<T>(src: seq<T>, rowStart: nat, w: nat, x: nat, c: nat)
    requires rowStart + 4 * w <= |src| && x < w && c < 4
    ensures 4 * x + c < |RowPixels(src, rowStart, w)|
    ensures RowPixels(src, rowStart, w)[4 * x + c] == src[rowStart + 4 * x + SwapIndex(c)]
  {
    var parts := RowParts(src, rowStart, w);
    FlattenUniformIndex(parts, 4, x, c);
  }

  /** Output offset of byte `c` of pixel `(x, y)`, row by row. */
  lemma PixelOffset(w: nat, y: nat, x: nat, c: nat)
    ensures (4 * w) * y + (4 * x + c) == 4 * (w * y + x) + c
  {
  }

  /** Byte `i` of `out` exists and equals byte `j` of `src`. */
  predicate SameByte<T(==)>(out: seq<T>, i: int, src: seq<T>, j: int)
  {
    0 <= i < |out| && 0 <= j < |src| && out[i] == src[j]
  }

  /** With every pixel covered, byte `c` of output pixel `(x, y)` (offset
      `(y * w + x) * 4 + c`) is the swapped byte of the source pixel at
      `y * stride + 4x`. */
  lemma StridedPixel<T>(src: seq<T>, w: nat, h: nat, stride: nat, x: nat, y: nat, c: nat)
    requires Covered(|src|, w, h, stride)
    requires x < w && y < h && c < 4
    ensures SameByte(Strided(src, w, h, stride), 4 * (w * y + x) + c, src, y * stride + 4 * x + SwapIndex(c))
  {
    RowInside(|src|, w, h, stride, y);
    FullRows(src, w, h, stride);
    FlattenUniformIndex(Rows(src, w, h, stride), 4 * w, y, 4 * x + c);
    RowPixel(src, y * stride, w, x, c);
    PixelOffset(w, y, x, c);
  }

  /** The size and stride checks of the scrap path guarantee coverage: rows
      of at least `4w` bytes, `h` of them inside the buffer. */
  lemma StrideCovers(len: nat, w: nat, h: nat, stride: nat)
    requires stride >= 4 * w && h * stride <= len
    ensures Covered(len, w, h, stride)
  {
    if w > 0 && h > 0 {
      assert h * stride == (h - 1) * stride + stride;
    }
  }

  /** Every part holding whole pixels makes the concatenation whole pixels. */
  lemma {:induction false} FlattenWholePixels<T>(parts: seq<seq<T>>)
    requires forall i :: 0 <= i < |parts| ==> |parts[i]| % 4 == 0
    ensures |Flatten(parts)| % 4 == 0
    decreases |parts|
  {
    if |parts| > 0 {
      FlattenWholePixels(parts[1..]);
    }
  }

  /** The conversion only ever emits whole pixels. */
  lemma StridedWholePixels<T>(src: seq<T>, w: nat, h: nat, stride: nat)
    ensures |Strided(src, w, h, stride)| % 4 == 0
  {
    var rows := Rows(src, w, h, stride);
    forall y | 0 <= y < h
      ensures |rows[y]| % 4 == 0
    {
      FlattenWholePixels(RowParts(src, y * stride, w));
    }
    FlattenWholePixels(rows);
  }

  /** `ImageBuffer::from_raw(width as u32, height as u32, buf)` of the image
      crate: it accepts the buffer exactly when it holds at least
      `channels * width * height` samples, the dimensions first truncated to
      32 bits (a product that overflows `usize` is rejected, and exceeds any
      buffer length anyway). */
  predicate FromRawFits(len: nat, channels: nat, w: nat, h: nat)
  {
    channels * (w % U32Modulus) * (h % U32Modulus) <= len
  }

  /** A buffer of exactly `channels * width * height` samples is accepted,
      whatever the truncation does. */
  lemma FromRawFitsExact(channels: nat, w: nat, h: nat)
    ensures FromRawFits(channels * w * h, channels, w, h)
  {
    MulMono(w % U32Modulus, h % U32Modulus, w, h);
    MulMono(channels, (w % U32Modulus) * (h % U32Modulus), channels, w * h);
    assert channels * (w % U32Modulus) * (h % U32Modulus) == channels * ((w % U32Modulus) * (h % U32Modulus));
    assert channels * w * h == channels * (w * h);
  }

  /** Any buffer at least that large is accepted too. */
  lemma FromRawFitsLarger(len: nat, channels: nat, w: nat, h: nat)
    requires len >= channels * w * h
    ensures FromRawFits(len, channels, w, h)
  {
    FromRawFitsExact(channels, w, h);
  }
}
