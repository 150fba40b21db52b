/** The Windows bitmap writer of bmp.c: channel layout dispatch, header bytes, pixel repacking. */
module BMP {
  import opened Wrappers
  import opened FlatIndex

  // Flag values of bmp.h.
  const RGB: bv32 := 1
  const ARGB: bv32 := 2
  const RGBA: bv32 := 3
  const LITTLE: bv32 := 4
  const BIG: bv32 := 8
  const FORMAT: bv32 := 3
  const ENDIAN: bv32 := 12

  /** Size of BITMAPFILEHEADER plus BITMAPINFOHEADER, and the offset of the pixel data. */
  const HeaderSize: int := 0x36

  const Int32Limit: int := 0x8000_0000

  /** An unsigned char. */
  newtype byte = b: int | 0 <= b < 0x100

  /** Bytes per source pixel and the offsets of its red, green and blue bytes. */
  datatype Layout = Layout(bytes: int, r: int, g: int, b: int)

  /** The switch on `flags & BMP_FORMAT` and `flags & BMP_ENDIAN`; None where the source returns early. */
  function ChannelLayout(flags: bv32): (l: Option<Layout>)
    ensures l.Some? <==> flags & FORMAT != 0 && (flags & ENDIAN == LITTLE || flags & ENDIAN == BIG)
    ensures l.Some? ==> l.value.bytes == (if flags & FORMAT == RGB then 3 else 4)
    ensures l.Some? ==> 0 <= l.value.r < l.value.bytes && 0 <= l.value.g < l.value.bytes && 0 <= l.value.b < l.value.bytes
    ensures l.Some? ==> l.value.r != l.value.g && l.value.g != l.value.b && l.value.r != l.value.b
  {
    var format := flags & FORMAT;
    var endian := flags & ENDIAN;
    if format == ARGB then
      if endian == LITTLE then Some(Layout(4, 2, 1, 0))
      else if endian == BIG then Some(Layout(4, 1, 2, 3))
      else None
    else if format == RGBA then
      if endian == LITTLE then Some(Layout(4, 3, 2, 1))
      else if endian == BIG then Some(Layout(4, 0, 1, 2))
      else None
    else if format == RGB then
      if endian == LITTLE then Some(Layout(3, 2, 1, 0))
      else if endian == BIG then Some(Layout(3, 0, 1, 2))
      else None
    else None
  }

  /** The channels of a format named from the most significant byte of the pixel word down. */
  function ChannelNames(format: bv32): seq<char>
  {
    if format == ARGB then "ARGB" else if format == RGBA then "RGBA" else "RGB"
  }

  /** Byte order in memory: big-endian keeps the name order, little-endian reverses it. */
  function MemoryOrder(format: bv32, endian: bv32): seq<char>
  {
    var names := ChannelNames(format);
    if endian == BIG then names else Reverse(names)
  }

  function Reverse(s: seq<char>): seq<char>
  {
    if s == [] then [] else Reverse(s[1..]) + [s[0]]
  }

  function IndexOf(s: seq<char>, c: char): int
  {
    if s == [] then -1 else if s[0] == c then 0 else var k := IndexOf(s[1..], c); if k < 0 then -1 else k + 1
  }

  /** The table in the source agrees with the channel order the format and endianness name. */
  lemma LayoutMatchesChannelOrder(flags: bv32)
    requires ChannelLayout(flags).Some?
    ensures var l := ChannelLayout(flags).value;
            var order := MemoryOrder(flags & FORMAT, flags & ENDIAN);
            && l.bytes == |order|
            && l.r == IndexOf(order, 'R')
            && l.g == IndexOf(order, 'G')
            && l.b == IndexOf(order, 'B')
  {
    var format := flags & FORMAT;
    var endian := flags & ENDIAN;
    var order := MemoryOrder(format, endian);
    assert Reverse("ARGB") == "BGRA" by { ReverseIndex("ARGB"); }
    assert Reverse("RGBA") == "ABGR" by { ReverseIndex("RGBA"); }
    assert Reverse("RGB") == "BGR" by { ReverseIndex("RGB"); }
    var l := ChannelLayout(flags).value;
    IndexOfFirst(order, 'R', l.r);
    IndexOfFirst(order, 'G', l.g);
    IndexOfFirst(order, 'B', l.b);
  }

  /** IndexOf finds the first occurrence. */
  lemma {:induction false} IndexOfFirst(s: seq<char>, c: char, i: int)
    requires 0 <= i < |s| && s[i] == c && forall j :: 0 <= j < i ==> s[j] != c
    ensures IndexOf(s, c) == i
  {
    if i > 0 {
      IndexOfFirst(s[1..], c, i - 1);
    }
  }

  lemma {:induction false} ReverseIndex(s: seq<char>)
    ensures |Reverse(s)| == |s|
    ensures forall i :: 0 <= i < |s| ==> Reverse(s)[i] == s[|s| - 1 - i]
  {
    if s != [] {
      ReverseIndex(s[1..]);
    }
  }

  /** `wpitch`: the row length of the file, three bytes per pixel padded to a multiple of four. */
  function WPitch(width: int): (p: int)
    requires width >= 0
    ensures p % 4 == 0 && 3 * width <= p < 3 * width + 4
  {
    var wpitch := width * 3;
    if wpitch % 4 != 0 then wpitch + (4 - wpitch % 4) else wpitch
  }

  /** No smaller multiple of four holds a row. */
  lemma WPitchIsSmallest(width: int, p: int)
    requires width >= 0
    requires p % 4 == 0 && p >= 3 * width
    ensures WPitch(width) <= p
  {
  }

  /** BYTES(x): the four bytes of a 32-bit integer, least significant first (shifts by 0, 8, 16, 24). */
  function LE32(x: int): (bs: seq<byte>)
    requires -Int32Limit <= x < Int32Limit
    ensures |bs| == 4
  {
    var u0 := x % 0x1_0000_0000;
    var u1 := u0 / 0x100;
    var u2 := u1 / 0x100;
    var u3 := u2 / 0x100;
    [(u0 % 0x100) as byte, (u1 % 0x100) as byte, (u2 % 0x100) as byte, (u3 % 0x100) as byte]
  }

  /** Little-endian reading of four bytes. */
  function DecodeLE32(bs: seq<byte>): int
    requires |bs| == 4
  {
    bs[0] as int + 0x100 * bs[1] as int + 0x1_0000 * bs[2] as int + 0x100_0000 * bs[3] as int
  }

  /** Reading back BYTES(x) gives x as an unsigned 32-bit number, hence x itself when x is not negative. */
  lemma LE32RoundTrip(x: int)
    requires -Int32Limit <= x < Int32Limit
    ensures DecodeLE32(LE32(x)) == x % 0x1_0000_0000
    ensures 0 <= x ==> DecodeLE32(LE32(x)) == x
  {
    var u0 := x % 0x1_0000_0000;
    var u1 := u0 / 0x100;
    var u2 := u1 / 0x100;
    var u3 := u2 / 0x100;
    assert u0 == u0 % 0x100 + 0x100 * u1;
    assert u1 == u1 % 0x100 + 0x100 * u2;
    assert u2 == u2 % 0x100 + 0x100 * u3;
    assert u3 < 0x100;
    var bs := LE32(x);
    assert bs[0] as int == u0 % 0x100 && bs[1] as int == u1 % 0x100;
    assert bs[2] as int == u2 % 0x100 && bs[3] as int == u3;
  }

  /** The 0x36-byte file and info header, field by field as bmp.c lays them out. */
  function Header(width: int, height: int, sizeBitmap: int, res: int): (h: seq<byte>)
    requires -Int32Limit <= width < Int32Limit && -Int32Limit <= height < Int32Limit
    requires 0 <= sizeBitmap && HeaderSize + sizeBitmap < Int32Limit
    requires -Int32Limit <= res < Int32Limit
    ensures |h| == HeaderSize
  {
    ['B' as byte, 'M' as byte] + LE32(HeaderSize + sizeBitmap)
    + [0, 0, 0, 0]
    + [0x36, 0, 0, 0]
    + [0x28, 0, 0, 0]
    + LE32(width) + LE32(height)
    + [0x01, 0x00]
    + [0x18, 0x00]
    + [0, 0, 0, 0]
    + LE32(sizeBitmap) + LE32(res) + LE32(res)
    + [0, 0, 0, 0, 0, 0, 0, 0]
  }

  /** Reading the header back: each field decodes to the value the writer was given. */
  lemma HeaderFields(width: int, height: int, sizeBitmap: int, res: int)
    requires -Int32Limit <= width < Int32Limit && -Int32Limit <= height < Int32Limit
    requires 0 <= sizeBitmap && HeaderSize + sizeBitmap < Int32Limit
    requires -Int32Limit <= res < Int32Limit
    ensures var h := Header(width, height, sizeBitmap, res);
            && h[0] == 'B' as byte && h[1] == 'M' as byte
            && DecodeLE32(h[2..6]) == HeaderSize + sizeBitmap
            && h[6..10] == [0, 0, 0, 0]
            && DecodeLE32(h[10..14]) == HeaderSize
            && DecodeLE32(h[14..18]) == 0x28
            && DecodeLE32(h[18..22]) == width % 0x1_0000_0000
            && DecodeLE32(h[22..26]) == height % 0x1_0000_0000
            && h[26..28] == [1, 0]
            && h[28..30] == [0x18, 0]
            && DecodeLE32(h[30..34]) == 0
            && DecodeLE32(h[34..38]) == sizeBitmap
            && DecodeLE32(h[38..42]) == res % 0x1_0000_0000
            && DecodeLE32(h[42..46]) == res % 0x1_0000_0000
            && h[46..54] == [0, 0, 0, 0, 0, 0, 0, 0]
  {
    var h := Header(width, height, sizeBitmap, res);
    LE32RoundTrip(HeaderSize + sizeBitmap);
    LE32RoundTrip(width);
    LE32RoundTrip(height);
    LE32RoundTrip(sizeBitmap);
    LE32RoundTrip(res);
    assert h[2..6] == LE32(HeaderSize + sizeBitmap);
    assert h[18..22] == LE32(width);
    assert h[22..26] == LE32(height);
    assert h[34..38] == LE32(sizeBitmap);
    assert h[38..42] == LE32(res);
    assert h[42..46] == LE32(res);
  }

  /** Offset of a byte of source pixel (x, y). */
  function SourceIndex(pitch: int, bytes: int, y: int, x: int, off: int): int
  {
    y * pitch + x * bytes + off
  }

  /** Every byte the repacking loop reads lies inside the caller's bitmap. */
  predicate ReadsInRange(width: int, height: int, pitch: int, l: Layout, size: int)
  {
    forall y, x :: 0 <= y < height && 0 <= x < width ==>
      && 0 <= SourceIndex(pitch, l.bytes, y, x, l.r) < size
      && 0 <= SourceIndex(pitch, l.bytes, y, x, l.g) < size
      && 0 <= SourceIndex(pitch, l.bytes, y, x, l.b) < size
  }

  /** The channel of the source pixel that file byte `c` (0 = blue, 1 = green, 2 = red) comes from. */
  function ChannelFor(l: Layout, c: int): int
  {
    if c == 0 then l.b else if c == 1 then l.g else l.r
  }

  /**
   * `pixels` is the pixel area of the file as far as row `done`: rows below `done` hold
   * blue, green and red of each source pixel, every other byte (later rows and the row
   * padding) is zero.
   */
  ghost predicate PixelRows(pixels: seq<byte>, width: int, height: int, pitch: int, l: Layout, bitmap: seq<byte>, done: int)
    requires 0 <= width && 0 <= done <= height
    requires ReadsInRange(width, height, pitch, l, |bitmap|)
  {
    && |pixels| == WPitch(width) * height
    && (forall y, o :: 0 <= y < height && 0 <= o < WPitch(width) ==> 0 <= Flat(WPitch(width), y, o) < |pixels|)
    && (forall y, x, c :: 0 <= y < done && 0 <= x < width && 0 <= c < 3 ==>
         pixels[Flat(WPitch(width), y, 3 * x + c)] == bitmap[SourceIndex(pitch, l.bytes, y, x, ChannelFor(l, c))])
    && (forall y, o :: 0 <= y < height && 0 <= o < WPitch(width) && (done <= y || 3 * width <= o) ==>
         pixels[Flat(WPitch(width), y, o)] == 0)
  }

  /**
   * The nested loop over rows and columns: the zero-filled `pixels` buffer receives,
   * for each pixel, blue, green and red in that order; row padding stays zero.
   */
  method Repack(width: int, height: int, pitch: int, l: Layout, bitmap: seq<byte>) returns (pixels: array<byte>)
    requires width >= 0 && height >= 0
    requires ReadsInRange(width, height, pitch, l, |bitmap|)
    ensures fresh(pixels)
    ensures PixelRows(pixels[..], width, height, pitch, l, bitmap, height)
  {
    var wpitch := WPitch(width);
    assert wpitch * height >= 0;
    AllFlatInBounds(wpitch, height);
    pixels := new byte[wpitch * height](_ => 0);
    var y := 0;
    while y < height
      invariant 0 <= y <= height
      invariant PixelRows(pixels[..], width, height, pitch, l, bitmap, y)
    {
      RepackNext(width, height, pitch, l, bitmap, pixels, y);
      y := y + 1;
    }
  }

  /** One pass of the outer loop: row `y` is filled in and nothing else changes. */
  method RepackNext(width: int, height: int, pitch: int, l: Layout, bitmap: seq<byte>, pixels: array<byte>, y: int)
    requires 0 <= width && 0 <= y < height
    requires ReadsInRange(width, height, pitch, l, |bitmap|)
    requires PixelRows(pixels[..], width, height, pitch, l, bitmap, y)
    modifies pixels
    ensures PixelRows(pixels[..], width, height, pitch, l, bitmap, y + 1)
  {
    var wpitch := WPitch(width);
    RowEnd(wpitch, height, y);
    ghost var before := pixels[..];
    RepackRow(width, pitch, l, bitmap, pixels, wpitch, y);
    forall y', o | 0 <= y' < height && 0 <= o < wpitch && (y' != y || o >= 3 * width)
      ensures pixels[Flat(wpitch, y', o)] == before[Flat(wpitch, y', o)]
    {
      FlatBound(wpitch, height, y', o);
      if y' < y {
        RowsOrdered(wpitch, y', o, y, 0);
      } else if y' > y {
        RowsOrdered(wpitch, y, wpitch - 1, y', o);
      }
    }
  }

  /** The inner loop for row `y`: three bytes per pixel, nothing outside the row's pixel bytes changes. */
  method RepackRow(width: int, pitch: int, l: Layout, bitmap: seq<byte>, pixels: array<byte>, wpitch: int, y: int)
    requires 0 <= width && 3 * width <= wpitch && 0 <= y
    requires 0 <= Flat(wpitch, y, 0) && Flat(wpitch, y, wpitch) <= pixels.Length
    requires forall x :: 0 <= x < width ==>
      && 0 <= SourceIndex(pitch, l.bytes, y, x, l.r) < |bitmap|
      && 0 <= SourceIndex(pitch, l.bytes, y, x, l.g) < |bitmap|
      && 0 <= SourceIndex(pitch, l.bytes, y, x, l.b) < |bitmap|
    modifies pixels
    ensures forall x, c :: 0 <= x < width && 0 <= c < 3 ==>
      pixels[Flat(wpitch, y, 3 * x + c)] == bitmap[SourceIndex(pitch, l.bytes, y, x, ChannelFor(l, c))]
    ensures forall q :: 0 <= q < pixels.Length && !(Flat(wpitch, y, 0) <= q < Flat(wpitch, y, 3 * width)) ==>
      pixels[q] == old(pixels[q])
  {
    var x := 0;
    while x < width
      invariant 0 <= x <= width
      invariant forall x', c :: 0 <= x' < x && 0 <= c < 3 ==>
        pixels[Flat(wpitch, y, 3 * x' + c)] == bitmap[SourceIndex(pitch, l.bytes, y, x', ChannelFor(l, c))]
      invariant forall q :: 0 <= q < pixels.Length && !(Flat(wpitch, y, 0) <= q < Flat(wpitch, y, 3 * x)) ==>
        pixels[q] == old(pixels[q])
    {
      var poff := Flat(wpitch, y, 3 * x);
      pixels[poff] := bitmap[SourceIndex(pitch, l.bytes, y, x, l.b)];
      pixels[poff + 1] := bitmap[SourceIndex(pitch, l.bytes, y, x, l.g)];
      pixels[poff + 2] := bitmap[SourceIndex(pitch, l.bytes, y, x, l.r)];
      x := x + 1;
    }
  }

  /**
   * `file` is the BMP file of the bitmap: the header, then row after row three bytes per pixel
   * (blue, green, red, each taken from its channel of the source pixel) and every row padded
   * with zeros to WPitch(width) bytes.
   */
  ghost predicate Encodes(file: seq<byte>, width: int, height: int, pitch: int, l: Layout, res: int, bitmap: seq<byte>)
    requires 0 <= width && 0 <= height && 3 * width + 3 < Int32Limit && height < Int32Limit
    requires HeaderSize + WPitch(width) * height < Int32Limit
    requires -Int32Limit <= res < Int32Limit
    requires ReadsInRange(width, height, pitch, l, |bitmap|)
  {
    assert WPitch(width) * height >= 0;
    && HeaderSize <= |file|
    && file[..HeaderSize] == Header(width, height, WPitch(width) * height, res)
    && PixelRows(file[HeaderSize..], width, height, pitch, l, bitmap, height)
  }

  /**
   * BMP_WriteBitmap with the file written as a byte string: None where the flags are
   * unsupported (nothing is allocated or written), otherwise the header followed by the pixels.
   * The resolution `res` stands for round(39.3701 * dpi).
   */
  method WriteBitmap(width: int, height: int, pitch: int, flags: bv32, res: int, bitmap: seq<byte>)
    returns (file: Option<seq<byte>>)
    requires 0 <= width && 0 <= height && 3 * width + 3 < Int32Limit && height < Int32Limit
    requires HeaderSize + WPitch(width) * height < Int32Limit
    requires -Int32Limit <= res < Int32Limit
    requires ChannelLayout(flags).Some? ==> ReadsInRange(width, height, pitch, ChannelLayout(flags).value, |bitmap|)
    ensures file.None? <==> ChannelLayout(flags).None?
    ensures file.Some? ==> Encodes(file.value, width, height, pitch, ChannelLayout(flags).value, res, bitmap)
  {
    var layout := ChannelLayout(flags);
    if layout.None? {
      return None;
    }
    var l := layout.value;
    var wpitch := WPitch(width);
    assert wpitch * height >= 0;
    var sizeBitmap := wpitch * height;
    var header := Header(width, height, sizeBitmap, res);
    var pixels := Repack(width, height, pitch, l, bitmap);
    var bytes := header + pixels[..];
    assert bytes[HeaderSize..] == pixels[..];
    file := Some(bytes);
  }
}
