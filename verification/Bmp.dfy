/**
 * `ConvertBmpToGopBlt` (common/uefi_utils.c): decoding an uncompressed bitmap of 1, 4, 8
 * or 24 bits a pixel into a top-down buffer of pixels, walking both with pointers.
 */
module Bmp {
  import opened Machine

  datatype Status = Success | InvalidParameter | Unsupported | OutOfResources | BufferTooSmall

  datatype Pixel = Pixel(blue: byte, green: byte, red: byte, reserved: byte)

  const HEADER_SIZE := 54

  // Fields of BMP_IMAGE_HEADER.
  function Size(bmp: seq<byte>): nat requires |bmp| >= HEADER_SIZE { Field(bmp, 2, 4) }
  function ImageOffset(bmp: seq<byte>): nat requires |bmp| >= HEADER_SIZE { Field(bmp, 10, 4) }
  function HeaderSize(bmp: seq<byte>): nat requires |bmp| >= HEADER_SIZE { Field(bmp, 14, 4) }
  function PixelWidth(bmp: seq<byte>): nat requires |bmp| >= HEADER_SIZE { Field(bmp, 18, 4) }
  function PixelHeight(bmp: seq<byte>): nat requires |bmp| >= HEADER_SIZE { Field(bmp, 22, 4) }
  function BitPerPixel(bmp: seq<byte>): nat requires |bmp| >= HEADER_SIZE { Field(bmp, 28, 2) }
  function CompressionType(bmp: seq<byte>): nat requires |bmp| >= HEADER_SIZE { Field(bmp, 30, 4) }

  /** DataSizePerLine: the bits of a row, rounded up to whole 32-bit words. */
  function Stride(width: nat, depth: nat): nat
  {
    (Times(width, depth) + 31) / 8 / 4 * 4
  }

  function ColorMapNum(depth: nat): nat
  {
    if depth == 1 then 2 else if depth == 4 then 16 else if depth == 8 then 256 else 0
  }

  /** The checks made before any pixel is read, in their order; None lets the image through. */
  function Check(bmp: seq<byte>): Option<Status>
  {
    if |bmp| < HEADER_SIZE then Some(InvalidParameter)
    else if bmp[0] != 'B' as int || bmp[1] != 'M' as int then Some(Unsupported)
    else if CompressionType(bmp) != 0 then Some(Unsupported)
    else if HeaderSize(bmp) != HEADER_SIZE - 14 then Some(Unsupported)
    else
      var data := Times(PixelHeight(bmp), Stride(PixelWidth(bmp), BitPerPixel(bmp)));
      if data >= TWO_32 then Some(InvalidParameter)
      else if Size(bmp) != |bmp| || Size(bmp) < ImageOffset(bmp) || Size(bmp) - ImageOffset(bmp) != data then
        Some(InvalidParameter)
      else if ImageOffset(bmp) < HEADER_SIZE then Some(InvalidParameter)
      else if ImageOffset(bmp) > HEADER_SIZE && ImageOffset(bmp) - HEADER_SIZE != 4 * ColorMapNum(BitPerPixel(bmp)) then
        Some(InvalidParameter)
      else if Times(PixelHeight(bmp), PixelWidth(bmp)) > (TWO_32 - 1) / 4 then Some(Unsupported)
      else None
  }

  /** What the code takes for granted: the row size fits 32 bits, and a palettised image has a palette. */
  predicate Sane(bmp: seq<byte>)
  {
    |bmp| >= HEADER_SIZE ==>
      && Times(PixelWidth(bmp), BitPerPixel(bmp)) + 31 < TWO_32
      && (BitPerPixel(bmp) in {1, 4, 8} ==> ImageOffset(bmp) > HEADER_SIZE)
  }

  // ------------------------------------------------------------ the closed form

  function ShiftRight(b: nat, n: nat): nat
  {
    if n == 0 then b else ShiftRight(b / 2, n - 1)
  }

  /** Bytes the first x samples of a row take. */
  function BytesOf(depth: nat, x: nat): nat
  {
    if depth == 1 then (x + 7) / 8 else if depth == 4 then (x + 1) / 2 else if depth == 8 then x else 3 * x
  }

  /** The palette index of sample x in the row at `row`. */
  function Sample(bmp: seq<byte>, depth: nat, row: nat, x: nat): nat
    requires depth in {1, 4, 8} && row + BytesOf(depth, x + 1) <= |bmp|
  {
    if depth == 1 then ShiftRight(bmp[row + x / 8], 7 - x % 8) % 2
    else if depth == 4 then (if x % 2 == 0 then bmp[row + x / 2] / 16 else bmp[row + x / 2] % 16)
    else bmp[row + x]
  }

  lemma SampleInPalette(bmp: seq<byte>, depth: nat, row: nat, x: nat)
    requires depth in {1, 4, 8} && row + BytesOf(depth, x + 1) <= |bmp|
    ensures Sample(bmp, depth, row, x) < ColorMapNum(depth)
  {
  }

  predicate Layout(bmp: seq<byte>, depth: nat)
  {
    depth in {1, 4, 8, 24} && HEADER_SIZE + 4 * ColorMapNum(depth) <= |bmp|
  }

  function Palette(bmp: seq<byte>, depth: nat, index: nat, reserved: byte): Pixel
    requires Layout(bmp, depth) && index < ColorMapNum(depth)
  {
    var at := HEADER_SIZE + 4 * index;
    Pixel(bmp[at], bmp[at + 1], bmp[at + 2], reserved)
  }

  /** The color of sample x in the row at `row`, with the reserved byte left as it was. */
  function PixelAt(bmp: seq<byte>, depth: nat, row: nat, x: nat, reserved: byte): Pixel
    requires Layout(bmp, depth) && row + BytesOf(depth, x + 1) <= |bmp|
  {
    if depth == 24 then Pixel(bmp[row + 3 * x], bmp[row + 3 * x + 1], bmp[row + 3 * x + 2], reserved)
    else
      SampleInPalette(bmp, depth, row, x);
      Palette(bmp, depth, Sample(bmp, depth, row, x), reserved)
  }

  /** The pixel at base + x is decoded from sample x of the row, over what `was` there. */
  ghost predicate PixelDone(bmp: seq<byte>, depth: nat, row: nat, blt: seq<Pixel>, was: seq<Pixel>, base: nat, x: nat)
    requires Layout(bmp, depth)
  {
    && row + BytesOf(depth, x + 1) <= |bmp| && base + x < |blt| == |was|
    && blt[base + x] == PixelAt(bmp, depth, row, x, was[base + x].reserved)
  }

  ghost predicate RowDone(bmp: seq<byte>, depth: nat, row: nat, blt: seq<Pixel>, was: seq<Pixel>, base: nat, n: nat)
    requires Layout(bmp, depth)
  {
    forall x: nat | x < n :: PixelDone(bmp, depth, row, blt, was, base, x)
  }

  /** Outside [lo, hi) nothing changed. */
  ghost predicate Unchanged(blt: seq<Pixel>, was: seq<Pixel>, lo: nat, hi: nat)
  {
    |blt| == |was| && forall k | 0 <= k < |blt| && !(lo <= k < hi) :: blt[k] == was[k]
  }

  // ------------------------------------------------------------ the pointer walk

  method WriteIndexed(bmp: seq<byte>, depth: nat, index: nat, blt: array<Pixel>, b: nat)
    requires Layout(bmp, depth) && index < ColorMapNum(depth) && b < blt.Length
    modifies blt
    ensures blt[..] == old(blt[..])[b := Palette(bmp, depth, index, old(blt[b]).reserved)]
  {
    var at := HEADER_SIZE + 4 * index;
    blt[b] := blt[b].(red := bmp[at + 2]);
    blt[b] := blt[b].(green := bmp[at + 1]);
    blt[b] := blt[b].(blue := bmp[at]);
  }

  /** One more pixel: what is decoded so far stays so. */
  lemma RowGrows(bmp: seq<byte>, depth: nat, row: nat, blt: seq<Pixel>, blt': seq<Pixel>, was: seq<Pixel>, base: nat,
      n: nat)
    requires Layout(bmp, depth) && RowDone(bmp, depth, row, blt, was, base, n) && Unchanged(blt, was, base, base + n)
    requires row + BytesOf(depth, n + 1) <= |bmp| && base + n < |blt|
    requires blt' == blt[base + n := PixelAt(bmp, depth, row, n, blt[base + n].reserved)]
    ensures RowDone(bmp, depth, row, blt', was, base, n + 1) && Unchanged(blt', was, base, base + n + 1)
  {
    forall x: nat | x < n + 1
      ensures PixelDone(bmp, depth, row, blt', was, base, x)
    {
      if x < n {
        assert PixelDone(bmp, depth, row, blt, was, base, x);
      }
    }
  }

  lemma SampleAt1(bmp: seq<byte>, row: nat, first: nat, index: nat)
    requires first % 8 == 0 && index < 8 && row + BytesOf(1, first + index + 1) <= |bmp|
    ensures row + first / 8 < |bmp| && row + first / 8 == row + BytesOf(1, first)
    ensures Sample(bmp, 1, row, first + index) == ShiftRight(bmp[row + first / 8], 7 - index) % 2
  {
    assert (first + index) / 8 == first / 8 && (first + index) % 8 == index;
  }

  /** Decoding sample x through the palette, with the row so far kept. */
  method WritePixel(bmp: seq<byte>, depth: nat, row: nat, x: nat, index: nat, blt: array<Pixel>, base: nat,
      ghost was: seq<Pixel>)
    requires Layout(bmp, depth) && depth != 24 && row + BytesOf(depth, x + 1) <= |bmp| && base + x < blt.Length
    requires index == Sample(bmp, depth, row, x)
    requires RowDone(bmp, depth, row, blt[..], was, base, x) && Unchanged(blt[..], was, base, base + x)
    modifies blt
    ensures RowDone(bmp, depth, row, blt[..], was, base, x + 1) && Unchanged(blt[..], was, base, base + x + 1)
  {
    SampleInPalette(bmp, depth, row, x);
    ghost var blt0 := blt[..];
    WriteIndexed(bmp, depth, index, blt, base + x);
    RowGrows(bmp, depth, row, blt0, blt[..], was, base, x);
  }

  /** The eight samples of one byte, or those the row still has. */
  method ConvertByte1(bmp: seq<byte>, row: nat, image: nat, first: nat, blt: array<Pixel>, base: nat,
      pixelWidth: nat, ghost was: seq<Pixel>)
    returns (width: nat)
    requires Layout(bmp, 1) && row + BytesOf(1, pixelWidth) <= |bmp| && base + pixelWidth <= blt.Length
    requires first < pixelWidth && first % 8 == 0 && image == row + first / 8
    requires RowDone(bmp, 1, row, blt[..], was, base, first) && Unchanged(blt[..], was, base, base + first)
    modifies blt
    ensures width == if first + 8 <= pixelWidth then first + 8 else pixelWidth
    ensures RowDone(bmp, 1, row, blt[..], was, base, width) && Unchanged(blt[..], was, base, base + width)
  {
    hide PixelAt, Palette, RowDone, Unchanged, ShiftRight, Sample;
    width := first;
    var index := 0;
    while index < 8 && width < pixelWidth
      invariant index <= 8 && width == first + index <= pixelWidth
      invariant RowDone(bmp, 1, row, blt[..], was, base, width) && Unchanged(blt[..], was, base, base + width)
    {
      SampleAt1(bmp, row, first, index);
      WritePixel(bmp, 1, row, width, ShiftRight(bmp[image], 7 - index) % 2, blt, base, was);
      index := index + 1;
      width := width + 1;
    }
  }

  lemma SampleAt48(bmp: seq<byte>, row: nat, x: nat)
    ensures row + BytesOf(4, x + 1) <= |bmp| ==>
      Sample(bmp, 4, row, x) == if x % 2 == 0 then bmp[row + x / 2] / 16 else bmp[row + x / 2] % 16
    ensures row + BytesOf(8, x + 1) <= |bmp| ==> Sample(bmp, 8, row, x) == bmp[row + x]
  {
  }

  /** The two samples of one byte, or the one the row still has. */
  method ConvertByte4(bmp: seq<byte>, row: nat, image: nat, first: nat, blt: array<Pixel>, base: nat,
      pixelWidth: nat, ghost was: seq<Pixel>)
    returns (width: nat)
    requires Layout(bmp, 4) && row + BytesOf(4, pixelWidth) <= |bmp| && base + pixelWidth <= blt.Length
    requires first < pixelWidth && first % 2 == 0 && image == row + first / 2
    requires RowDone(bmp, 4, row, blt[..], was, base, first) && Unchanged(blt[..], was, base, base + first)
    modifies blt
    ensures width == if first + 2 <= pixelWidth then first + 2 else pixelWidth
    ensures RowDone(bmp, 4, row, blt[..], was, base, width) && Unchanged(blt[..], was, base, base + width)
  {
    hide PixelAt, Palette, RowDone, Unchanged, Sample;
    width := first;
    SampleAt48(bmp, row, width);
    WritePixel(bmp, 4, row, width, bmp[image] / 16, blt, base, was);
    if width < pixelWidth - 1 {
      width := width + 1;
      SampleAt48(bmp, row, width);
      WritePixel(bmp, 4, row, width, bmp[image] % 16, blt, base, was);
    }
    width := width + 1;
  }

  /** Between steps the loop stands at the first sample of a byte. */
  predicate OnByte(depth: nat, width: nat, pixelWidth: nat)
  {
    width <= pixelWidth && (width < pixelWidth ==> (depth == 1 ==> width % 8 == 0) && (depth == 4 ==> width % 2 == 0))
  }

  /** Samples the loop consumes in one step. */
  function Advance(depth: nat, width: nat, pixelWidth: nat): nat
  {
    var next := width + if depth == 1 then 8 else if depth == 4 then 2 else 1;
    if next <= pixelWidth then next else pixelWidth
  }

  lemma StepBytes1(width: nat, next: nat, pixelWidth: nat)
    requires width % 8 == 0 && width < next <= width + 8 && next <= pixelWidth
    ensures (width + 7) / 8 == width / 8 && (next + 7) / 8 == width / 8 + 1 == (width + 8) / 8 <= (pixelWidth + 7) / 8
  {
    var q := width / 8;
    DivModUnique(width + 7, 8, q, 7);
    DivModUnique(width + 8, 8, q + 1, 0);
    DivModUnique(next + 7, 8, q + 1, next - width - 1);
  }

  lemma StepBytes4(width: nat, next: nat, pixelWidth: nat)
    requires width % 2 == 0 && width < next <= width + 2 && next <= pixelWidth
    ensures (width + 1) / 2 == width / 2 && (next + 1) / 2 == width / 2 + 1 == (width + 2) / 2 <= (pixelWidth + 1) / 2
  {
    var q := width / 2;
    DivModUnique(width + 1, 2, q, 1);
    DivModUnique(width + 2, 2, q + 1, 0);
    DivModUnique(next + 1, 2, q + 1, next - width - 1);
  }

  lemma StepBytes(depth: nat, width: nat, pixelWidth: nat)
    requires depth in {1, 4, 8, 24} && OnByte(depth, width, pixelWidth) && width < pixelWidth
    ensures var next := Advance(depth, width, pixelWidth);
            && OnByte(depth, next, pixelWidth) && width < next
            && BytesOf(depth, next) == BytesOf(depth, width) + (if depth == 24 then 3 else 1)
            && BytesOf(depth, next) <= BytesOf(depth, pixelWidth)
            && BytesOf(depth, width + 1) <= BytesOf(depth, next)
    ensures BytesOf(depth, width) ==
            if depth == 1 then width / 8 else if depth == 4 then width / 2 else if depth == 8 then width else 3 * width
  {
    if depth == 1 {
      StepBytes1(width, Advance(depth, width, pixelWidth), pixelWidth);
    } else if depth == 4 {
      StepBytes4(width, Advance(depth, width, pixelWidth), pixelWidth);
    }
  }

  lemma RowBegins(bmp: seq<byte>, depth: nat, row: nat, was: seq<Pixel>, base: nat)
    requires Layout(bmp, depth)
    ensures RowDone(bmp, depth, row, was, was, base, 0) && Unchanged(was, was, base, base)
  {
  }

  lemma NoBytes(depth: nat)
    ensures BytesOf(depth, 0) == 0
  {
  }

  method WriteTrueColor(bmp: seq<byte>, row: nat, x: nat, blt: array<Pixel>, base: nat, ghost was: seq<Pixel>)
    requires Layout(bmp, 24) && row + BytesOf(24, x + 1) <= |bmp| && base + x < blt.Length
    requires RowDone(bmp, 24, row, blt[..], was, base, x) && Unchanged(blt[..], was, base, base + x)
    modifies blt
    ensures RowDone(bmp, 24, row, blt[..], was, base, x + 1) && Unchanged(blt[..], was, base, base + x + 1)
  {
    ghost var blt0 := blt[..];
    var image := row + 3 * x;
    blt[base + x] := blt[base + x].(blue := bmp[image]);
    blt[base + x] := blt[base + x].(green := bmp[image + 1]);
    blt[base + x] := blt[base + x].(red := bmp[image + 2]);
    assert blt[..] == blt0[base + x := PixelAt(bmp, 24, row, x, blt0[base + x].reserved)];
    RowGrows(bmp, 24, row, blt0, blt[..], was, base, x);
  }

  /** One row: `image` moves over its samples while the pixel index moves from base to base + width. */
  method ConvertRow(bmp: seq<byte>, depth: nat, row: nat, blt: array<Pixel>, base: nat, pixelWidth: nat)
    returns (image: nat)
    requires Layout(bmp, depth) && row + BytesOf(depth, pixelWidth) <= |bmp| && base + pixelWidth <= blt.Length
    modifies blt
    ensures image == row + BytesOf(depth, pixelWidth)
    ensures RowDone(bmp, depth, row, blt[..], old(blt[..]), base, pixelWidth)
    ensures Unchanged(blt[..], old(blt[..]), base, base + pixelWidth)
  {
    hide PixelAt, Palette, RowDone, Unchanged, ShiftRight, Sample, BytesOf;
    ghost var was := blt[..];
    RowBegins(bmp, depth, row, was, base);
    NoBytes(depth);
    image := row;
    var width := 0;
    while width < pixelWidth
      invariant OnByte(depth, width, pixelWidth) && image == row + BytesOf(depth, width)
      invariant RowDone(bmp, depth, row, blt[..], was, base, width) && Unchanged(blt[..], was, base, base + width)
    {
      StepBytes(depth, width, pixelWidth);
      if depth == 1 {
        width := ConvertByte1(bmp, row, image, width, blt, base, pixelWidth, was);
      } else if depth == 4 {
        width := ConvertByte4(bmp, row, image, width, blt, base, pixelWidth, was);
      } else if depth == 8 {
        SampleAt48(bmp, row, width);
        WritePixel(bmp, depth, row, width, bmp[image], blt, base, was);
        width := width + 1;
      } else {
        WriteTrueColor(bmp, row, width, blt, base, was);
        width, image := width + 1, image + 2;
      }
      image := image + 1;
    }
  }

  // ------------------------------------------------------------ rows

  /** Byte offset of row y in the image data, and index of its first pixel in the buffer. */
  function RowAt(bmp: seq<byte>, y: nat): nat
    requires |bmp| >= HEADER_SIZE
  {
    ImageOffset(bmp) + Times(y, Stride(PixelWidth(bmp), BitPerPixel(bmp)))
  }

  function BaseOf(height: nat, width: nat, y: nat): nat
    requires y < height
  {
    Times(height - 1 - y, width)
  }

  lemma {:induction false} TimesMonotone(a: nat, b: nat, m: nat)
    requires a <= b
    ensures Times(a, m) <= Times(b, m)
    decreases b
  {
    if a < b {
      TimesMonotone(a, b - 1, m);
    }
  }

  lemma {:induction false} TimesDepth(width: nat)
    ensures Times(width, 1) == width && Times(width, 4) == 4 * width
    ensures Times(width, 8) == 8 * width && Times(width, 24) == 24 * width
  {
    if width > 0 {
      TimesDepth(width - 1);
    }
  }

  lemma RoundDown(x: nat)
    ensures x / 4 * 4 % 4 == 0 && x / 4 * 4 <= x < x / 4 * 4 + 4
  {
  }

  /** The row size is the bytes of its samples rounded up to a multiple of four. */
  lemma StrideRoundsUp(depth: nat, width: nat)
    requires depth in {1, 4, 8, 24}
    ensures Stride(width, depth) % 4 == 0 && BytesOf(depth, width) <= Stride(width, depth) < BytesOf(depth, width) + 4
  {
    TimesDepth(width);
    var b := BytesOf(depth, width);
    var bits := Times(width, depth);
    DivModUnique(bits + 31, 8, b + 3, bits + 31 - 8 * (b + 3));
    RoundDown(b + 3);
  }

  /** Padding the pointer to a 32-bit boundary after a row lands on the closed-form stride. */
  lemma PaddingIsStride(depth: nat, width: nat, y: nat, used: nat)
    requires depth in {1, 4, 8, 24}
    requires used == Times(y, Stride(width, depth)) + BytesOf(depth, width)
    ensures (if used % 4 != 0 then used + (4 - used % 4) else used) == Times(y + 1, Stride(width, depth))
    ensures BytesOf(depth, width) <= Stride(width, depth)
  {
    StrideRoundsUp(depth, width);
    TimesMultipleOf4(y, Stride(width, depth));
    hide Stride, BytesOf;
  }

  /** Rows 0 to n - 1 are decoded, bottom row of the buffer first. */
  ghost predicate RowsDone(bmp: seq<byte>, blt: seq<Pixel>, was: seq<Pixel>, n: nat)
    requires |bmp| >= HEADER_SIZE && Layout(bmp, BitPerPixel(bmp)) && n <= PixelHeight(bmp)
  {
    var w, h, depth := PixelWidth(bmp), PixelHeight(bmp), BitPerPixel(bmp);
    forall y: nat | y < n :: RowDone(bmp, depth, RowAt(bmp, y), blt, was, BaseOf(h, w, y), w)
  }

  /** Changes elsewhere keep a decoded row. */
  lemma RowKept(bmp: seq<byte>, depth: nat, row: nat, blt: seq<Pixel>, blt': seq<Pixel>, was: seq<Pixel>, base: nat,
      n: nat, lo: nat, hi: nat)
    requires Layout(bmp, depth) && RowDone(bmp, depth, row, blt, was, base, n)
    requires Unchanged(blt', blt, lo, hi) && (hi <= base || base + n <= lo)
    ensures RowDone(bmp, depth, row, blt', was, base, n)
  {
    forall x: nat | x < n
      ensures PixelDone(bmp, depth, row, blt', was, base, x)
    {
      assert PixelDone(bmp, depth, row, blt, was, base, x);
    }
  }

  /** A row decoded over a buffer that still agreed with `was` there is decoded over `was`. */
  lemma RowRebased(bmp: seq<byte>, depth: nat, row: nat, blt': seq<Pixel>, blt: seq<Pixel>, was: seq<Pixel>,
      base: nat, n: nat)
    requires Layout(bmp, depth) && RowDone(bmp, depth, row, blt', blt, base, n) && |blt| == |was|
    requires forall k | 0 <= k < |blt| && base <= k < base + n :: blt[k] == was[k]
    ensures RowDone(bmp, depth, row, blt', was, base, n)
  {
    forall x: nat | x < n
      ensures PixelDone(bmp, depth, row, blt', was, base, x)
    {
      assert PixelDone(bmp, depth, row, blt', blt, base, x);
    }
  }

  lemma RowsGrow(bmp: seq<byte>, blt: seq<Pixel>, blt': seq<Pixel>, was: seq<Pixel>, n: nat)
    requires |bmp| >= HEADER_SIZE && Layout(bmp, BitPerPixel(bmp)) && n < PixelHeight(bmp) && |blt| == |was|
    requires RowsDone(bmp, blt, was, n)
    requires Unchanged(blt, was, Times(PixelHeight(bmp) - n, PixelWidth(bmp)), Times(PixelHeight(bmp), PixelWidth(bmp)))
    requires var base := BaseOf(PixelHeight(bmp), PixelWidth(bmp), n);
      && RowDone(bmp, BitPerPixel(bmp), RowAt(bmp, n), blt', blt, base, PixelWidth(bmp))
      && Unchanged(blt', blt, base, base + PixelWidth(bmp))
    ensures RowsDone(bmp, blt', was, n + 1)
    ensures var w, h := PixelWidth(bmp), PixelHeight(bmp);
            Unchanged(blt', was, Times(h - n - 1, w), Times(h, w))
  {
    var w, h, depth := PixelWidth(bmp), PixelHeight(bmp), BitPerPixel(bmp);
    var base := BaseOf(h, w, n);
    assert Times(h - n, w) == w + base;
    TimesMonotone(h - n, h, w);
    forall y: nat | y < n + 1
      ensures RowDone(bmp, depth, RowAt(bmp, y), blt', was, BaseOf(h, w, y), w)
    {
      if y < n {
        TimesMonotone(h - n, h - 1 - y, w);
        assert RowDone(bmp, depth, RowAt(bmp, y), blt, was, BaseOf(h, w, y), w);
        RowKept(bmp, depth, RowAt(bmp, y), blt, blt', was, BaseOf(h, w, y), w, base, base + w);
      } else {
        RowRebased(bmp, depth, RowAt(bmp, n), blt', blt, was, base, w);
      }
    }
  }

  // ------------------------------------------------------------ the conversion

  /** The checks leave room for the palette, and for every row of pixels. */
  lemma CheckedLayout(bmp: seq<byte>)
    requires Sane(bmp) && Check(bmp).None? && BitPerPixel(bmp) in {1, 4, 8, 24}
    ensures Layout(bmp, BitPerPixel(bmp)) && RowAt(bmp, PixelHeight(bmp)) == |bmp|
  {
  }

  lemma RowInside(bmp: seq<byte>, y: nat)
    requires Sane(bmp) && Check(bmp).None? && BitPerPixel(bmp) in {1, 4, 8, 24} && y < PixelHeight(bmp)
    ensures RowAt(bmp, y) + BytesOf(BitPerPixel(bmp), PixelWidth(bmp)) <= |bmp|
    ensures BaseOf(PixelHeight(bmp), PixelWidth(bmp), y) + PixelWidth(bmp) <= Times(PixelHeight(bmp), PixelWidth(bmp))
  {
    hide Field;
    var h, w, stride := PixelHeight(bmp), PixelWidth(bmp), Stride(PixelWidth(bmp), BitPerPixel(bmp));
    CheckedLayout(bmp);
    TimesMonotone(y + 1, h, stride);
    PaddingIsStride(BitPerPixel(bmp), w, y, Times(y, stride) + BytesOf(BitPerPixel(bmp), w));
    TimesMonotone(h - y, h, w);
  }

  /** The loop over the rows of an image that has passed the checks. */
  method ConvertRows(bmp: seq<byte>, blt: array<Pixel>)
    requires Sane(bmp) && Check(bmp).None? && BitPerPixel(bmp) in {1, 4, 8, 24}
    requires Times(PixelHeight(bmp), PixelWidth(bmp)) <= blt.Length
    modifies blt
    ensures Layout(bmp, BitPerPixel(bmp)) && RowsDone(bmp, blt[..], old(blt[..]), PixelHeight(bmp))
    ensures Unchanged(blt[..], old(blt[..]), 0, Times(PixelHeight(bmp), PixelWidth(bmp)))
  {
    hide Field, Check, RowDone, Stride;
    CheckedLayout(bmp);
    ghost var was := blt[..];
    var pixelWidth, pixelHeight, depth := PixelWidth(bmp), PixelHeight(bmp), BitPerPixel(bmp);
    var image := ImageOffset(bmp);
    var height := 0;
    while height < pixelHeight
      invariant height <= pixelHeight && image == RowAt(bmp, height)
      invariant RowsDone(bmp, blt[..], was, height)
      invariant Unchanged(blt[..], was, Times(pixelHeight - height, pixelWidth), Times(pixelHeight, pixelWidth))
    {
      ghost var blt0 := blt[..];
      RowInside(bmp, height);
      PaddingIsStride(depth, pixelWidth, height, image - ImageOffset(bmp) + BytesOf(depth, pixelWidth));
      image := ConvertRow(bmp, depth, image, blt, BaseOf(pixelHeight, pixelWidth, height), pixelWidth);
      RowsGrow(bmp, blt0, blt[..], was, height);
      var imageIndex := image - ImageOffset(bmp);
      if imageIndex % 4 != 0 {
        image := image + (4 - imageIndex % 4);
      }
      height := height + 1;
    }
  }

  /**
   * `given` is the caller's buffer, or null to have one allocated, in which case the pool
   * hands out a buffer of arbitrary pixels or fails.
   *
   * On success every pixel (x, y) of the image is the palette entry or the BGR triple of
   * sample (x, y), the bottom row last, and pixels past the image keep their contents.
   * `size` is what is written to *GopBltSize, in bytes, and `dims` to *PixelWidth and
   * *PixelHeight, if they are written.
   */
  method ConvertBmpToGopBlt(bmp: seq<byte>, given: array?<Pixel>, poolOk: bool, junk: nat -> Pixel)
    returns (st: Status, blt: array?<Pixel>, size: Option<nat>, dims: Option<(nat, nat)>, ghost was: seq<Pixel>)
    requires Sane(bmp)
    modifies given
    ensures given != null && st != OutOfResources ==> blt == given && was == old(given[..])
    ensures Check(bmp).Some? ==>
      st == Check(bmp).value && blt == given && (given != null ==> given[..] == was) && size.None? && dims.None?
    ensures Check(bmp).None? ==>
      var w, h, depth := PixelWidth(bmp), PixelHeight(bmp), BitPerPixel(bmp);
      && size == (if given == null || given.Length < Times(h, w) then Some(4 * Times(h, w)) else None)
      && dims == (if st in {OutOfResources, BufferTooSmall} then None else Some((w, h)))
      && if given == null && !poolOk then st == OutOfResources && blt == null
      else if given != null && given.Length < Times(h, w) then st == BufferTooSmall && given[..] == was
      else if depth !in {1, 4, 8, 24} && w > 0 && h > 0 then
        st == Unsupported && (given == null ==> blt == null) && (given != null ==> given[..] == was)
      else
        && st == Success && blt != null
        && (depth in {1, 4, 8, 24} ==> Layout(bmp, depth) && RowsDone(bmp, blt[..], was, h))
        && Unchanged(blt[..], was, 0, Times(h, w))
  {
    blt, size, dims, was := given, None, None, if given != null then given[..] else [];
    if Check(bmp).Some? {
      st := Check(bmp).value;
      return;
    }
    var pixelWidth, pixelHeight, depth := PixelWidth(bmp), PixelHeight(bmp), BitPerPixel(bmp);
    var buffer: array<Pixel>;
    if given == null {
      size := Some(4 * Times(pixelHeight, pixelWidth));
      if !poolOk {
        st, blt := OutOfResources, null;
        return;
      }
      buffer := new Pixel[Times(pixelHeight, pixelWidth)]((i: nat) => junk(i));
    } else {
      if given.Length < Times(pixelHeight, pixelWidth) {
        size := Some(4 * Times(pixelHeight, pixelWidth));
        st := BufferTooSmall;
        return;
      }
      buffer := given;
    }
    dims := Some((pixelWidth, pixelHeight));
    was := buffer[..];
    if depth !in {1, 4, 8, 24} && pixelWidth > 0 && pixelHeight > 0 {
      // the first pixel reaches the default case of the switch
      st := Unsupported;
      return;
    }
    blt := buffer;
    if depth in {1, 4, 8, 24} {
      ConvertRows(bmp, buffer);
    }
    st := Success;
  }

  // ------------------------------------------------------------ what success means

  lemma StrideIsProduct(w: nat, depth: nat)
    ensures Stride(w, depth) == (w * depth + 31) / 32 * 4
  {
    TimesIsProduct(w, depth);
  }

  lemma NotNegative(x: int, y: int)
    requires x >= 0 && y >= 0
    ensures x * y >= 0
  {
  }

  /**
   * The files that are let through: uncompressed, with the common header, as long as they say
   * and as long as their rows take, with a palette of the right size or none at all, and small
   * enough for a buffer of four bytes a pixel.
   */
  lemma LetThroughIff(bmp: seq<byte>)
    ensures Check(bmp).None? <==>
            && |bmp| >= 54 && bmp[0] == 0x42 && bmp[1] == 0x4d
            && Field(bmp, 30, 4) == 0 && Field(bmp, 14, 4) == 40
            && var offset, w, h, depth := Field(bmp, 10, 4), Field(bmp, 18, 4), Field(bmp, 22, 4), Field(bmp, 28, 2);
            var data := h * ((w * depth + 31) / 32 * 4);
            && data < 0x1_0000_0000 && |bmp| == Field(bmp, 2, 4) == offset + data
            && (|| offset == 54 || (depth == 1 && offset == 54 + 4 * 2) || (depth == 4 && offset == 54 + 4 * 16)
                || (depth == 8 && offset == 54 + 4 * 256))
            && h * w <= 0xffff_ffff / 4
  {
    if |bmp| >= 54 {
      var w, h, depth := Field(bmp, 18, 4), Field(bmp, 22, 4), Field(bmp, 28, 2);
      TimesIsProduct(w, depth);
      TimesIsProduct(h, w);
      StrideIsProduct(w, depth);
      TimesIsProduct(h, Stride(w, depth));
      hide Field, Times, Stride;
      NotNegative(h, (w * depth + 31) / 32 * 4);
    }
  }

  /** The padded pointer and the pixel index in closed form. */
  lemma ClosedForms(offset: nat, w: nat, h: nat, depth: nat, y: nat)
    requires y < h
    ensures Stride(w, depth) == (w * depth + 31) / 32 * 4
    ensures offset + Times(y, Stride(w, depth)) == offset + y * ((w * depth + 31) / 32 * 4)
    ensures BaseOf(h, w, y) == (h - 1 - y) * w
  {
    TimesIsProduct(w, depth);
    TimesIsProduct(y, Stride(w, depth));
    TimesIsProduct(h - 1 - y, w);
  }

  predicate PositionOf(h: nat, w: nat, k: nat, x: nat, y: nat)
  {
    x < w && y < h && k == BaseOf(h, w, y) + x
  }

  /** Every one of the width * height buffer positions belongs to a sample ... */
  lemma {:induction false} PositionExists(h: nat, w: nat, k: nat) returns (x: nat, y: nat)
    requires k < Times(h, w)
    ensures PositionOf(h, w, k, x, y)
    decreases h
  {
    if k >= Times(h - 1, w) {
      x, y := k - Times(h - 1, w), 0;
    } else {
      x, y := PositionExists(h - 1, w, k);
      y := y + 1;
    }
  }

  /** ... and to only one. */
  lemma PositionUnique(h: nat, w: nat, k: nat, x: nat, y: nat, x': nat, y': nat)
    requires PositionOf(h, w, k, x, y) && PositionOf(h, w, k, x', y')
    ensures x == x' && y == y'
  {
    if y < y' {
      TimesMonotone(h - y', h - 1 - y, w);
    } else if y' < y {
      TimesMonotone(h - y, h - 1 - y', w);
    }
  }
}
