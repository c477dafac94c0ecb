/**
 * Bitmap files as they are made: a reference encoder for pictures of 1, 4, 8 and 24 bits a
 * pixel, and that decoding what it writes gives the colors of the picture.
 */
module Bitmap {
  import opened Machine
  import opened Bmp

  datatype Color = Color(blue: byte, green: byte, red: byte)

  function Pow2(n: nat): (r: nat)
    ensures n <= 8 ==> r <= 256
  {
    if n == 0 then 1 else if n > 8 then 2 * Pow2(n - 1)
    else [2, 4, 8, 16, 32, 64, 128, 256][n - 1]
  }

  /** Eight bits, the first one the highest. */
  function Bits(bits: seq<nat>): (r: nat)
    requires |bits| <= 8 && forall i | 0 <= i < |bits| :: bits[i] < 2
    ensures r < Pow2(|bits|) <= 256
  {
    if bits == [] then 0 else 2 * Bits(bits[..|bits| - 1]) + bits[|bits| - 1]
  }

  /** Four bytes a color, the last one unused. */
  function PaletteBytes(palette: seq<Color>): (r: seq<byte>)
    ensures |r| == 4 * |palette|
  {
    if palette == [] then []
    else [palette[0].blue, palette[0].green, palette[0].red, 0] + PaletteBytes(palette[1..])
  }

  /** A picture of w columns and h rows, the bottom row first; colors may come from a palette. */
  datatype Picture =
    | Indexed(w: nat, h: nat, depth: nat, palette: seq<Color>, index: (nat, nat) -> nat)
    | TrueColor(w: nat, h: nat, color: (nat, nat) -> Color)
  {
    function Depth(): nat { if Indexed? then depth else 24 }

    function Colors(): seq<Color> { if Indexed? then palette else [] }

    ghost predicate Valid()
    {
      && (Indexed? ==>
          && (depth, |palette|) in {(1, 2), (4, 16), (8, 256)}
          && forall x: nat, y: nat :: index(x, y) < |palette|)
      && |File()| < TWO_32 && Times(h, w) <= (TWO_32 - 1) / 4
      && w < TWO_32 && h < TWO_32 && 24 * w + 31 < TWO_32
    }

    /** The color of the pixel in column x of row y. */
    function At(x: nat, y: nat): Color
      requires Indexed? ==> index(x, y) < |palette|
    {
      if Indexed? then palette[index(x, y)] else color(x, y)
    }

    /** The palette index of a pixel, and 0 past the end of the row. */
    function Sample(x: nat, y: nat): nat
      requires Indexed?
    {
      if x < w then index(x, y) else 0
    }

    /** Byte k of row y. Earlier pixels are in the higher bits; a color is blue, green, red. */
    function RowByte(y: nat, k: nat): byte
    {
      if TrueColor? then
        if k >= 3 * w then 0
        else if k % 3 == 0 then color(k / 3, y).blue
        else if k % 3 == 1 then color(k / 3, y).green
        else color(k / 3, y).red
      else if depth == 8 then Sample(k, y) % 256
      else if depth == 4 then Sample(2 * k, y) % 16 * 16 + Sample(2 * k + 1, y) % 16
      else Bits(EightFrom(8 * k, y))
    }

    /** The indices of eight pixels, as bits. */
    function EightFrom(x: nat, y: nat): (r: seq<nat>)
      requires Indexed?
      ensures |r| == 8 && forall j | 0 <= j < 8 :: r[j] == Sample(x + j, y) % 2
    {
      seq(8, (j: nat) => Sample(x + j, y) % 2)
    }

    /** Bytes of a row: whole 32-bit words. */
    function RowSize(): nat
    {
      if Depth() == 1 then (w + 31) / 32 * 4
      else if Depth() == 4 then (4 * w + 31) / 32 * 4
      else if Depth() == 8 then (8 * w + 31) / 32 * 4
      else (24 * w + 31) / 32 * 4
    }

    function Row(y: nat): (r: seq<byte>)
      ensures |r| == RowSize() && forall k | 0 <= k < |r| :: r[k] == RowByte(y, k)
    {
      seq<byte>(RowSize(), (k: nat) => RowByte(y, k))
    }

    /** The first n rows. */
    function Rows(n: nat): seq<byte>
    {
      if n == 0 then [] else Rows(n - 1) + Row(n - 1)
    }

    /** Magic, size of the file, and offset of the rows. */
    function FileHeader(): (r: seq<byte>)
      ensures |r| == 14
    {
      ['B' as int, 'M' as int] + Put(54 + 4 * |Colors()| + |Rows(h)|, 4) + Put(0, 4) + Put(54 + 4 * |Colors()|, 4)
    }

    /** Its own size, columns, rows, planes, depth, and no compression. */
    function InfoHeader(): (r: seq<byte>)
      ensures |r| == 40
    {
      Put(40, 4) + Put(w, 4) + Put(h, 4) + Put(1, 2) + Put(Depth(), 2) + Put(0, 4) + seq<byte>(20, (i: nat) => 0)
    }

    function Header(): (r: seq<byte>)
      ensures |r| == 54
    {
      FileHeader() + InfoHeader()
    }

    function File(): seq<byte>
    {
      Header() + PaletteBytes(Colors()) + Rows(h)
    }
  }

  // ------------------------------------------------------------ the header is accepted

  lemma {:induction false} RowsSize(pic: Picture, n: nat)
    ensures |pic.Rows(n)| == Times(n, pic.RowSize())
    decreases n
  {
    if n > 0 {
      RowsSize(pic, n - 1);
    }
  }

  /** The row size is the one the decoder computes. */
  lemma RowSizeIsStride(pic: Picture)
    requires pic.Depth() in {1, 4, 8, 24}
    ensures pic.RowSize() == Stride(pic.w, pic.Depth())
    ensures BytesOf(pic.Depth(), pic.w) <= pic.RowSize()
  {
    TimesDepth(pic.w);
    StrideRoundsUp(pic.Depth(), pic.w);
    var bits := Times(pic.w, pic.Depth()) + 31;
    assert bits / 8 / 4 == bits / 32;
  }

  lemma HeaderFields(pic: Picture)
    ensures var h := pic.Header();
            && h[0] == 'B' as int && h[1] == 'M' as int
            && h[2..6] == Put(54 + 4 * |pic.Colors()| + |pic.Rows(pic.h)|, 4)
            && h[10..14] == Put(54 + 4 * |pic.Colors()|, 4)
            && h[14..18] == Put(40, 4) && h[18..22] == Put(pic.w, 4) && h[22..26] == Put(pic.h, 4)
            && h[28..30] == Put(pic.Depth(), 2) && h[30..34] == Put(0, 4)
  {
    hide Put, Picture.Rows, Picture.Colors, Picture.Depth;
    var f, i, h := pic.FileHeader(), pic.InfoHeader(), pic.Header();
    assert h[..14] == f && h[14..54] == i;
    assert f[2..6] == Put(54 + 4 * |pic.Colors()| + |pic.Rows(pic.h)|, 4);
    assert f[10..14] == Put(54 + 4 * |pic.Colors()|, 4);
    assert i[0..4] == Put(40, 4) && i[4..8] == Put(pic.w, 4) && i[8..12] == Put(pic.h, 4);
    assert i[14..16] == Put(pic.Depth(), 2) && i[16..20] == Put(0, 4);
    hide Picture.FileHeader, Picture.InfoHeader, Picture.Header;
    assert forall a: nat, k: nat | a <= k <= 40 :: i[a..k] == h[14..54][a..k];
    assert h[14..18] == h[14..54][0..4] && h[18..22] == h[14..54][4..8] && h[22..26] == h[14..54][8..12];
    assert h[28..30] == h[14..54][14..16] && h[30..34] == h[14..54][16..20];
    assert h[2..6] == h[..14][2..6] && h[10..14] == h[..14][10..14];
  }

  /** The decoder reads the fields that were written. */
  lemma FieldsRead(pic: Picture)
    requires pic.Valid()
    ensures var f := pic.File();
            && |f| >= HEADER_SIZE && f[0] == 'B' as int && f[1] == 'M' as int
            && Size(f) == |f| && ImageOffset(f) == 54 + 4 * |pic.Colors()| && Bmp.HeaderSize(f) == 40
            && PixelWidth(f) == pic.w && PixelHeight(f) == pic.h && BitPerPixel(f) == pic.Depth()
            && CompressionType(f) == 0
  {
    hide Put, Le, Picture.Header, Picture.Rows;
    var f, h := pic.File(), pic.Header();
    HeaderFields(pic);
    assert f[..54] == h;
    forall a: nat, k: nat | a <= k <= 54
      ensures f[a..k] == h[a..k]
    {
      assert f[a..k] == f[..54][a..k];
    }
    assert Range(4) == TWO_32 && Range(2) == 0x1_0000;
    PutRoundTrip(|f|, 4);
    PutRoundTrip(54 + 4 * |pic.Colors()|, 4);
    PutRoundTrip(40, 4);
    PutRoundTrip(pic.w, 4);
    PutRoundTrip(pic.h, 4);
    PutRoundTrip(pic.Depth(), 2);
    PutRoundTrip(0, 4);
  }

  /** The checks let every encoded picture through. */
  lemma CheckPasses(pic: Picture)
    requires pic.Valid()
    ensures Check(pic.File()) == None && Sane(pic.File())
    ensures |pic.File()| >= HEADER_SIZE && Layout(pic.File(), pic.Depth())
  {
    FieldsRead(pic);
    RowsSize(pic, pic.h);
    RowSizeIsStride(pic);
    TimesDepth(pic.w);
    hide Picture.Rows, Picture.Header, Stride, Times, Field, Le;
  }

  // ------------------------------------------------------------ and the pixels come out

  lemma {:induction false} RowAtPlace(pic: Picture, n: nat, y: nat, k: nat)
    requires y < n && k < pic.RowSize()
    ensures Times(y, pic.RowSize()) + k < |pic.Rows(n)|
    ensures pic.Rows(n)[Times(y, pic.RowSize()) + k] == pic.RowByte(y, k)
    decreases n
  {
    hide Picture.RowByte, Picture.RowSize;
    RowsSize(pic, n);
    RowsSize(pic, n - 1);
    if y < n - 1 {
      RowAtPlace(pic, n - 1, y, k);
    }
  }

  lemma {:induction false} PaletteAt(palette: seq<Color>, i: nat)
    requires i < |palette|
    ensures var r := PaletteBytes(palette);
            r[4 * i] == palette[i].blue && r[4 * i + 1] == palette[i].green && r[4 * i + 2] == palette[i].red
    decreases i
  {
    if i > 0 {
      PaletteAt(palette[1..], i - 1);
    }
  }

  lemma {:induction false} BitOf(bits: seq<nat>, n: nat)
    requires n < |bits| <= 8 && forall i | 0 <= i < |bits| :: bits[i] < 2
    ensures ShiftRight(Bits(bits), n) % 2 == bits[|bits| - 1 - n]
    decreases n
  {
    var front := bits[..|bits| - 1];
    assert Bits(bits) / 2 == Bits(front) && Bits(bits) % 2 == bits[|bits| - 1];
    if n > 0 {
      BitOf(front, n - 1);
    }
  }

  /** A byte of the encoded file in row y. */
  lemma FileByte(pic: Picture, y: nat, k: nat)
    requires pic.Valid() && y < pic.h && k < pic.RowSize() && |pic.File()| >= HEADER_SIZE
    ensures RowAt(pic.File(), y) + k < |pic.File()|
    ensures pic.File()[RowAt(pic.File(), y) + k] == pic.RowByte(y, k)
  {
    hide Picture.Rows, Picture.Header, Picture.RowByte, Picture.RowSize, Stride, Times, Field;
    FieldsRead(pic);
    RowSizeIsStride(pic);
    RowAtPlace(pic, pic.h, y, k);
    var offset := 54 + 4 * |pic.Colors()|;
    assert pic.File()[offset..] == pic.Rows(pic.h);
  }

  lemma SampleIs1(pic: Picture, x: nat, y: nat, b: byte)
    requires pic.Indexed? && pic.depth == 1 && x < pic.w && pic.index(x, y) < 2 && b == pic.RowByte(y, x / 8)
    ensures ShiftRight(b, 7 - x % 8) % 2 == pic.index(x, y)
  {
    hide ShiftRight, Bits, Picture.EightFrom;
    var bits := pic.EightFrom(8 * (x / 8), y);
    BitOf(bits, 7 - x % 8);
    assert bits[x % 8] == pic.Sample(x, y) % 2;
  }

  lemma SampleIs4(pic: Picture, x: nat, y: nat, b: byte)
    requires pic.Indexed? && pic.depth == 4 && x < pic.w && pic.index(x, y) < 16 && b == pic.RowByte(y, x / 2)
    ensures (if x % 2 == 0 then b / 16 else b % 16) == pic.index(x, y)
  {
    var k := x / 2;
    assert x == if x % 2 == 0 then 2 * k else 2 * k + 1;
  }

  lemma SampleIs8(pic: Picture, x: nat, y: nat, b: byte)
    requires pic.Indexed? && pic.depth == 8 && x < pic.w && pic.index(x, y) < 256 && b == pic.RowByte(y, x)
    ensures b == pic.index(x, y)
  {
  }

  /** The decoder finds the palette index that was encoded. */
  lemma SampleRead(pic: Picture, f: seq<byte>, row: nat, x: nat, y: nat)
    requires pic.Indexed? && pic.depth in {1, 4, 8} && x < pic.w && pic.index(x, y) < ColorMapNum(pic.depth)
    requires row + BytesOf(pic.depth, x + 1) <= |f| && BytesOf(pic.depth, x + 1) <= pic.RowSize()
    requires forall k: nat | k < pic.RowSize() && row + k < |f| :: f[row + k] == pic.RowByte(y, k)
    ensures Bmp.Sample(f, pic.depth, row, x) == pic.index(x, y)
  {
    hide ShiftRight, Picture.RowSize, Picture.RowByte;
    if pic.depth == 1 {
      SampleIs1(pic, x, y, f[row + x / 8]);
    } else if pic.depth == 4 {
      SampleIs4(pic, x, y, f[row + x / 2]);
    } else {
      SampleIs8(pic, x, y, f[row + x]);
    }
  }

  lemma IndexedPixel(pic: Picture, f: seq<byte>, row: nat, x: nat, y: nat, reserved: byte)
    requires pic.Indexed? && (pic.depth, |pic.palette|) in {(1, 2), (4, 16), (8, 256)}
    requires x < pic.w && pic.index(x, y) < |pic.palette| && Layout(f, pic.depth)
    requires f[54..54 + 4 * |pic.palette|] == PaletteBytes(pic.palette)
    requires row + BytesOf(pic.depth, x + 1) <= |f| && BytesOf(pic.depth, x + 1) <= pic.RowSize()
    requires forall k: nat | k < pic.RowSize() && row + k < |f| :: f[row + k] == pic.RowByte(y, k)
    ensures PixelAt(f, pic.depth, row, x, reserved) ==
            Pixel(pic.At(x, y).blue, pic.At(x, y).green, pic.At(x, y).red, reserved)
  {
    hide Picture.RowSize, Picture.RowByte, Bmp.Sample, BytesOf, PaletteBytes;
    SampleRead(pic, f, row, x, y);
    var i := pic.index(x, y);
    PaletteAt(pic.palette, i);
    var p := f[54..54 + 4 * |pic.palette|];
    assert f[54 + 4 * i] == p[4 * i] && f[54 + 4 * i + 1] == p[4 * i + 1] && f[54 + 4 * i + 2] == p[4 * i + 2];
  }

  lemma TrueColorPixel(pic: Picture, f: seq<byte>, row: nat, x: nat, y: nat, reserved: byte)
    requires pic.TrueColor? && x < pic.w && Layout(f, 24)
    requires row + 3 * x + 3 <= |f| && 3 * x + 3 <= pic.RowSize()
    requires forall k: nat | k < pic.RowSize() && row + k < |f| :: f[row + k] == pic.RowByte(y, k)
    ensures PixelAt(f, 24, row, x, reserved) ==
            Pixel(pic.At(x, y).blue, pic.At(x, y).green, pic.At(x, y).red, reserved)
  {
    hide Picture.RowSize;
    assert f[row + 3 * x] == pic.RowByte(y, 3 * x);
    assert f[row + (3 * x + 1)] == pic.RowByte(y, 3 * x + 1);
    assert f[row + (3 * x + 2)] == pic.RowByte(y, 3 * x + 2);
  }

  lemma BytesMonotone(depth: nat, x: nat, w: nat)
    requires x < w
    ensures BytesOf(depth, x + 1) <= BytesOf(depth, w)
  {
  }

  lemma RowInFile(pic: Picture, y: nat)
    requires pic.Valid() && y < pic.h && |pic.File()| >= HEADER_SIZE
    ensures var f, row := pic.File(), RowAt(pic.File(), y);
            forall k: nat | k < pic.RowSize() && row + k < |f| :: f[row + k] == pic.RowByte(y, k)
  {
    hide Picture.File, Picture.Valid, Picture.RowByte, Picture.RowSize, RowAt;
    forall k: nat | k < pic.RowSize() && RowAt(pic.File(), y) + k < |pic.File()|
      ensures pic.File()[RowAt(pic.File(), y) + k] == pic.RowByte(y, k)
    {
      FileByte(pic, y, k);
    }
  }

  lemma FilePalette(pic: Picture)
    requires pic.Valid()
    ensures pic.Indexed? ==>
      && |pic.File()| >= 54 + 4 * |pic.palette| && (pic.depth, |pic.palette|) in {(1, 2), (4, 16), (8, 256)}
      && pic.File()[54..54 + 4 * |pic.palette|] == PaletteBytes(pic.palette)
      && forall x: nat, y: nat :: pic.index(x, y) < |pic.palette|
  {
    hide Picture.Header, Picture.Rows, PaletteBytes;
  }

  /** Every pixel is decoded to the color it was encoded from. */
  lemma PixelRead(pic: Picture, x: nat, y: nat, reserved: byte)
    requires pic.Valid() && x < pic.w && y < pic.h
    ensures |pic.File()| >= HEADER_SIZE && Layout(pic.File(), pic.Depth())
    ensures RowAt(pic.File(), y) + BytesOf(pic.Depth(), x + 1) <= |pic.File()|
    ensures PixelAt(pic.File(), pic.Depth(), RowAt(pic.File(), y), x, reserved) ==
            Pixel(pic.At(x, y).blue, pic.At(x, y).green, pic.At(x, y).red, reserved)
  {
    CheckPasses(pic);
    FieldsRead(pic);
    RowSizeIsStride(pic);
    BytesMonotone(pic.Depth(), x, pic.w);
    hide Picture.RowSize, Picture.RowByte, Picture.Header, Picture.Rows;
    hide RowAt, Check, Sane, Stride, Field, Layout, PixelAt;
    var f, row := pic.File(), RowAt(pic.File(), y);
    hide Picture.File, Picture.Valid, PaletteBytes;
    RowInFile(pic, y);
    FilePalette(pic);
    FileByte(pic, y, BytesOf(pic.Depth(), x + 1) - 1);
    if pic.TrueColor? {
      TrueColorPixel(pic, f, row, x, y, reserved);
    } else {
      IndexedPixel(pic, f, row, x, y, reserved);
    }
  }

  /**
   * Main result: decoding an encoded picture puts the color of the pixel in column x of row y,
   * counted from the bottom, at position (h - 1 - y) * w + x of the buffer.
   */
  lemma DecodesPicture(pic: Picture, blt: seq<Pixel>, was: seq<Pixel>, x: nat, y: nat)
    requires pic.Valid() && x < pic.w && y < pic.h
    requires |pic.File()| >= HEADER_SIZE && Layout(pic.File(), BitPerPixel(pic.File()))
    requires PixelHeight(pic.File()) == pic.h
    requires RowsDone(pic.File(), blt, was, pic.h)
    ensures var at := (pic.h - 1 - y) * pic.w + x;
            && 0 <= at < |blt| == |was|
            && blt[at] == Pixel(pic.At(x, y).blue, pic.At(x, y).green, pic.At(x, y).red, was[at].reserved)
  {
    hide Picture.File, RowAt, Layout, PixelAt, Field, BitPerPixel, PixelWidth, PixelHeight;
    FieldsRead(pic);
    var f := pic.File();
    var base := BaseOf(pic.h, pic.w, y);
    ClosedForms(0, pic.w, pic.h, pic.Depth(), y);
    assert RowDone(f, pic.Depth(), RowAt(f, y), blt, was, base, pic.w);
    assert PixelDone(f, pic.Depth(), RowAt(f, y), blt, was, base, x);
    PixelRead(pic, x, y, was[base + x].reserved);
  }
}
