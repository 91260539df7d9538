/** `writeBMP` in src/__main.cpp: a 24-bit Windows BMP made of a 14-byte
    `BITMAPFILEHEADER`, a 40-byte `BITMAPINFOHEADER` and the pixel rows,
    bottom row first, each padded with zeros to a multiple of 4 bytes.
    The sizes are `uint32_t` values and are computed with 32-bit
    wrap-around, as the source does. */
module Bmp {
  import opened Common

  // ---------------------------------------------------------------------------
  // 32-bit sizes
  // ---------------------------------------------------------------------------

  /** The `uint32_t` result of an arithmetic expression. */
  function Wrap32(x: int): (v: nat)
    ensures v < U32
    ensures 0 <= x < U32 ==> v == x
  {
    x % U32
  }

  /** No intermediate of the row-size computation overflows. */
  predicate WidthFits(width: nat)
  {
    width * 3 + 3 < U32
  }

  /** `((width * 3 + 3) / 4) * 4` in `uint32_t` arithmetic. */
  function RowSize(width: nat): (rs: nat)
    ensures rs < U32
  {
    Wrap32(Wrap32(Wrap32(width * 3) + 3) / 4 * 4)
  }

  /** A BMP row is the pixel bytes rounded up to the next multiple of 4. */
  lemma RowSizeBounds(width: nat)
    requires WidthFits(width)
    ensures RowSize(width) % 4 == 0
    ensures width * 3 <= RowSize(width) < width * 3 + 4
  {
    var a := width * 3;
    var q := (a + 3) / 4;
    assert a + 3 == q * 4 + (a + 3) % 4;
    assert Wrap32(a) == a && Wrap32(a + 3) == a + 3;
    assert Wrap32(q * 4) == q * 4;
  }

  /** The zero bytes after the pixels of a row, `rowSize - width * 3`. */
  function Padding(width: nat): (pad: nat)
    requires WidthFits(width)
    ensures pad < 4 && width * 3 + pad == RowSize(width)
  {
    RowSizeBounds(width);
    RowSize(width) - width * 3
  }

  /** `rowSize * height`, then the file size `14 + 40 + imageSize`. */
  function ImageSize(width: nat, height: nat): (n: nat)
    ensures n < U32
  {
    Wrap32(RowSize(width) * height)
  }

  function FileSize(width: nat, height: nat): (n: nat)
    ensures n < U32
  {
    Wrap32(14 + 40 + ImageSize(width, height))
  }

  /** Without overflow the sizes are the exact products and sums. */
  lemma SizesExact(width: nat, height: nat)
    requires WidthFits(width) && RowSize(width) * height + 54 < U32
    ensures ImageSize(width, height) == RowSize(width) * height
    ensures FileSize(width, height) == 54 + RowSize(width) * height
  {
  }

  // ---------------------------------------------------------------------------
  // Little-endian fields
  // ---------------------------------------------------------------------------

  /** The bytes `writeLE16` stores: `v & 0xFF`, then `(v >> 8) & 0xFF`. */
  function LE16(v: nat): (b: seq<byte>)
    requires v < 0x1_0000
    ensures |b| == 2
  {
    [v % 0x100, v / 0x100 % 0x100]
  }

  /** The bytes `writeLE32` stores, least significant first. */
  function LE32(v: nat): (b: seq<byte>)
    requires v < U32
    ensures |b| == 4
  {
    [v % 0x100, v / 0x100 % 0x100, v / 0x1_0000 % 0x100, v / 0x100_0000 % 0x100]
  }

  /** The value a little-endian reader sees in two bytes. */
  function ReadLE16(b: seq<byte>): nat
    requires |b| == 2
  {
    b[0] as int + 0x100 * (b[1] as int)
  }

  /** The value a little-endian reader sees in four bytes. */
  function ReadLE32(b: seq<byte>): nat
    requires |b| == 4
  {
    b[0] as int + 0x100 * (b[1] as int) + 0x1_0000 * (b[2] as int) + 0x100_0000 * (b[3] as int)
  }

  lemma LE16RoundTrip(v: nat)
    requires v < 0x1_0000
    ensures ReadLE16(LE16(v)) == v
  {
  }

  lemma LE32RoundTrip(v: nat)
    requires v < U32
    ensures ReadLE32(LE32(v)) == v
  {
    var q1 := v / 0x100;
    var q2 := q1 / 0x100;
    var q3 := q2 / 0x100;
    assert v / 0x1_0000 == q2;
    assert v / 0x100_0000 == q3;
    assert q3 < 0x100;
  }

  /** Every four bytes are the encoding of the value they are read as. */
  lemma ReadLE32RoundTrip(b: seq<byte>)
    requires |b| == 4
    ensures ReadLE32(b) < U32 && LE32(ReadLE32(b)) == b
  {
    var v := ReadLE32(b);
    assert v / 0x100 == b[1] as int + 0x100 * (b[2] as int) + 0x1_0000 * (b[3] as int);
    assert v / 0x1_0000 == b[2] as int + 0x100 * (b[3] as int);
    assert v / 0x100_0000 == b[3];
  }

  /** `writeLE16(&dst[at], v)`. */
  method WriteLE16(dst: array<byte>, at: nat, v: nat)
    requires v < 0x1_0000 && at + 2 <= dst.Length
    modifies dst
    ensures dst[..] == old(dst[..at]) + LE16(v) + old(dst[at + 2..])
  {
    dst[at] := v % 0x100;
    dst[at + 1] := v / 0x100 % 0x100;
  }

  /** `writeLE32(&dst[at], v)`. */
  method WriteLE32(dst: array<byte>, at: nat, v: nat)
    requires v < U32 && at + 4 <= dst.Length
    modifies dst
    ensures dst[..] == old(dst[..at]) + LE32(v) + old(dst[at + 4..])
  {
    dst[at] := v % 0x100;
    dst[at + 1] := v / 0x100 % 0x100;
    dst[at + 2] := v / 0x1_0000 % 0x100;
    dst[at + 3] := v / 0x100_0000 % 0x100;
  }

  // ---------------------------------------------------------------------------
  // Headers
  // ---------------------------------------------------------------------------

  /** A write of `part` at `at` = `|done|` into a zero-filled tail appends
      `part` to what is already written. */
  lemma Appended(before: seq<byte>, done: seq<byte>, part: seq<byte>, z: nat, at: nat, len: nat, after: seq<byte>)
    requires at == |done| && len == |part|
    requires before == done + Zeros(len + z)
    requires after == before[..at] + part + before[at + len..]
    ensures after == (done + part) + Zeros(z)
  {
    OverwriteZerosPadded(before, done, part, 0, z, at, len, after);
    assert part + Zeros(0) == part;
  }

  /** `WriteLE32` at the end of the bytes written so far, into the
      zero-initialised rest of the header. */
  method PutLE32(a: array<byte>, ghost done: seq<byte>, ghost z: nat, at: nat, v: nat)
    requires v < U32 && at == |done| && z >= 4 && a[..] == done + Zeros(z)
    modifies a
    ensures a[..] == (done + LE32(v)) + Zeros(z - 4)
  {
    ghost var before := a[..];
    WriteLE32(a, at, v);
    Appended(before, done, LE32(v), z - 4, at, 4, a[..]);
  }

  /** `WriteLE16` likewise. */
  method PutLE16(a: array<byte>, ghost done: seq<byte>, ghost z: nat, at: nat, v: nat)
    requires v < 0x1_0000 && at == |done| && z >= 2 && a[..] == done + Zeros(z)
    modifies a
    ensures a[..] == (done + LE16(v)) + Zeros(z - 2)
  {
    ghost var before := a[..];
    WriteLE16(a, at, v);
    Appended(before, done, LE16(v), z - 2, at, 2, a[..]);
  }

  /** The bytes of the `BITMAPFILEHEADER`. */
  function FileHeaderBytes(fileSize: nat): (b: seq<byte>)
    requires fileSize < U32
    ensures |b| == 14
  {
    ['B' as int, 'M' as int] + LE32(fileSize) + Zeros(4) + LE32(14 + 40)
  }

  /** The header read back: the signature "BM", the file size, four
      reserved zero bytes and the offset 54 of the pixel data. */
  lemma FileHeaderFields(fileSize: nat)
    requires fileSize < U32
    ensures var b := FileHeaderBytes(fileSize);
            b[0] == 'B' as int && b[1] == 'M' as int && ReadLE32(b[2..6]) == fileSize &&
            b[6..10] == Zeros(4) && ReadLE32(b[10..14]) == 54
  {
    var b := FileHeaderBytes(fileSize);
    assert b[2..6] == LE32(fileSize);
    assert b[10..14] == LE32(54);
    LE32RoundTrip(fileSize);
    LE32RoundTrip(54);
  }

  /** Fills the 14 bytes of the file header, zero-initialised (`= {}`). */
  method FileHeader(fileSize: nat) returns (hdr: seq<byte>)
    requires fileSize < U32
    ensures hdr == FileHeaderBytes(fileSize)
  {
    var a := new byte[14](_ => 0);
    assert a[..] == [] + Zeros(14);
    a[0] := 'B' as int;
    a[1] := 'M' as int;
    ghost var done: seq<byte> := ['B' as int, 'M' as int];
    assert a[..] == done + Zeros(12);
    PutLE32(a, done, 12, 2, fileSize);
    done := done + LE32(fileSize);
    ZerosSplit(4, 4);                              // bytes 6..9 stay reserved zeros
    done := done + Zeros(4);
    PutLE32(a, done, 4, 10, 14 + 40);              // offset of the pixel data
    hdr := a[..];
  }

  /** The bytes of the `BITMAPINFOHEADER`. */
  function InfoHeaderBytes(width: nat, height: nat, imageSize: nat): (b: seq<byte>)
    requires width < U32 && height < U32 && imageSize < U32
    ensures |b| == 40
  {
    LE32(40) + LE32(width) + LE32(height) + LE16(1) + LE16(24) + LE32(0)
    + LE32(imageSize) + LE32(2835) + LE32(2835) + LE32(0) + LE32(0)
  }

  /** The info header read back: its own size 40, the width, the height
      (positive, so rows are stored bottom-up), one plane, 24 bits per
      pixel, no compression, the image size, 2835 pixels per metre on both
      axes and no palette. */
  lemma InfoHeaderFields(width: nat, height: nat, imageSize: nat)
    requires width < U32 && height < U32 && imageSize < U32
    ensures var b := InfoHeaderBytes(width, height, imageSize);
            ReadLE32(b[0..4]) == 40 && ReadLE32(b[4..8]) == width && ReadLE32(b[8..12]) == height &&
            ReadLE16(b[12..14]) == 1 && ReadLE16(b[14..16]) == 24 && ReadLE32(b[16..20]) == 0 &&
            ReadLE32(b[20..24]) == imageSize && ReadLE32(b[24..28]) == 2835 && ReadLE32(b[28..32]) == 2835 &&
            ReadLE32(b[32..36]) == 0 && ReadLE32(b[36..40]) == 0
  {
    var b := InfoHeaderBytes(width, height, imageSize);
    assert b[0..4] == LE32(40);
    assert b[4..8] == LE32(width);
    assert b[8..12] == LE32(height);
    assert b[12..14] == LE16(1);
    assert b[14..16] == LE16(24);
    assert b[16..20] == LE32(0);
    assert b[20..24] == LE32(imageSize);
    assert b[24..28] == LE32(2835);
    assert b[28..32] == LE32(2835);
    assert b[32..36] == LE32(0);
    assert b[36..40] == LE32(0);
    LE32RoundTrip(40);
    LE32RoundTrip(width);
    LE32RoundTrip(height);
    LE16RoundTrip(1);
    LE16RoundTrip(24);
    LE32RoundTrip(0);
    LE32RoundTrip(imageSize);
    LE32RoundTrip(2835);
  }

  /** Fills the 40 bytes of the info header, zero-initialised, field by
      field. */
  method InfoHeader(width: nat, height: nat, imageSize: nat) returns (hdr: seq<byte>)
    requires width < U32 && height < U32 && imageSize < U32
    ensures hdr == InfoHeaderBytes(width, height, imageSize)
  {
    var a := new byte[40](_ => 0);
    assert a[..] == [] + Zeros(40);
    PutLE32(a, [], 40, 0, 40);                     // header size
    ghost var done := LE32(40);
    PutLE32(a, done, 36, 4, width);
    done := done + LE32(width);
    PutLE32(a, done, 32, 8, height);                // positive: bottom-up
    done := done + LE32(height);
    PutLE16(a, done, 28, 12, 1);                   // planes
    done := done + LE16(1);
    PutLE16(a, done, 26, 14, 24);                  // bits per pixel
    done := done + LE16(24);
    PutLE32(a, done, 24, 16, 0);                   // BI_RGB, no compression
    done := done + LE32(0);
    PutLE32(a, done, 20, 20, imageSize);
    done := done + LE32(imageSize);
    PutLE32(a, done, 16, 24, 2835);                // x pixels per metre
    done := done + LE32(2835);
    PutLE32(a, done, 12, 28, 2835);                // y pixels per metre
    done := done + LE32(2835);
    PutLE32(a, done, 8, 32, 0);                    // colours used
    done := done + LE32(0);
    PutLE32(a, done, 4, 36, 0);                    // important colours
    hdr := a[..];
  }

  // ---------------------------------------------------------------------------
  // Pixel rows
  // ---------------------------------------------------------------------------

  /** The first `n` rows written: row `y` is the `len` visible bytes of
      source row `h - 1 - y` followed by `pad` zero bytes. */
  function BottomUp(src: seq<byte>, len: nat, pad: nat, h: nat, n: nat, stride: nat): (out: seq<byte>)
    requires n <= h && (h == 0 || Offset(h - 1, stride) + len <= |src|)
    ensures |out| == Offset(n, len + pad)
  {
    if n == 0 then []
    else
      OffsetMono(h - n, h - 1, stride);
      BottomUp(src, len, pad, h, n - 1, stride) + src[Offset(h - n, stride) .. Offset(h - n, stride) + len] + Zeros(pad)
  }

  /** Output row `y` holds source row `h - 1 - y` and then zeros. */
  lemma {:induction false} BottomUpAt(src: seq<byte>, len: nat, pad: nat, h: nat, n: nat, stride: nat, y: nat, c: nat)
    requires n <= h && (h == 0 || Offset(h - 1, stride) + len <= |src|)
    requires y < n && c < len + pad
    ensures Offset(y, len + pad) + c < Offset(n, len + pad)
    ensures c < len ==> Offset(h - 1 - y, stride) + c < |src|
    ensures BottomUp(src, len, pad, h, n, stride)[Offset(y, len + pad) + c] ==
            if c < len then src[Offset(h - 1 - y, stride) + c] else 0
    decreases n, 1
  {
    OffsetInside(y, n, len + pad);
    OffsetMono(h - 1 - y, h - 1, stride);
    if y < n - 1 {
      EarlierRowAt(src, len, pad, h, n, stride, y, c);
    } else {
      LastRowAt(src, len, pad, h, n, y, stride, c);
    }
  }

  /** A row before the last one is where the first `n - 1` rows put it. */
  lemma {:induction false} EarlierRowAt(src: seq<byte>, len: nat, pad: nat, h: nat, n: nat, stride: nat, y: nat, c: nat)
    requires y + 1 < n <= h && Offset(h - 1, stride) + len <= |src|
    requires c < len + pad
    ensures Offset(y, len + pad) + c < |BottomUp(src, len, pad, h, n, stride)|
    ensures c < len ==> Offset(h - 1 - y, stride) + c < |src|
    ensures BottomUp(src, len, pad, h, n, stride)[Offset(y, len + pad) + c] ==
            if c < len then src[Offset(h - 1 - y, stride) + c] else 0
    decreases n, 0
  {
    BottomUpAt(src, len, pad, h, n - 1, stride, y, c);
    BottomUpFront(src, len, pad, h, n, stride, Offset(y, len + pad) + c);
  }

  /** Appending a row leaves the bytes before it alone. */
  lemma BottomUpFront(src: seq<byte>, len: nat, pad: nat, h: nat, n: nat, stride: nat, i: nat)
    requires 0 < n <= h && Offset(h - 1, stride) + len <= |src|
    requires i < Offset(n - 1, len + pad)
    ensures BottomUp(src, len, pad, h, n, stride)[i] == BottomUp(src, len, pad, h, n - 1, stride)[i]
  {
    OffsetMono(h - n, h - 1, stride);
    var front := BottomUp(src, len, pad, h, n - 1, stride);
    var row := src[Offset(h - n, stride) .. Offset(h - n, stride) + len];
    assert BottomUp(src, len, pad, h, n, stride) == front + row + Zeros(pad);
    AppendAtFront(front + row, Zeros(pad), i);
    AppendAtFront(front, row, i);
  }

  /** The last of the first `y + 1` rows is source row `h - 1 - y`. */
  lemma LastRowAt(src: seq<byte>, len: nat, pad: nat, h: nat, n: nat, y: nat, stride: nat, c: nat)
    requires n == y + 1 && n <= h && Offset(h - 1, stride) + len <= |src| && c < len + pad
    ensures Offset(h - 1 - y, stride) + len <= |src|
    ensures Offset(y, len + pad) + c < |BottomUp(src, len, pad, h, n, stride)|
    ensures BottomUp(src, len, pad, h, n, stride)[Offset(y, len + pad) + c] ==
            if c < len then src[Offset(h - 1 - y, stride) + c] else 0
  {
    var from := Offset(h - (y + 1), stride);
    assert from == Offset(h - 1 - y, stride);
    OffsetMono(h - 1 - y, h - 1, stride);
    PaddedRowAt(BottomUp(src, len, pad, h, y, stride), src[from .. from + len], pad, c);
  }

  /** Byte `c` of a row appended after `done`. */
  lemma PaddedRowAt(done: seq<byte>, row: seq<byte>, pad: nat, c: nat)
    requires c < |row| + pad
    ensures (done + row + Zeros(pad))[|done| + c] == if c < |row| then row[c] else 0
  {
  }

  /** One row more: `rowBuf` after the copy and the padding. */
  lemma BottomUpStep(src: seq<byte>, len: nat, pad: nat, h: nat, y: nat, stride: nat, from: nat, row: seq<byte>)
    requires y < h && Offset(h - 1, stride) + len <= |src|
    requires from == Offset(h - (y + 1), stride) && from + len <= |src|
    requires row == src[from .. from + len] + Zeros(pad)
    ensures BottomUp(src, len, pad, h, y + 1, stride) == BottomUp(src, len, pad, h, y, stride) + row
  {
  }

  /** One pass of the row loop: the visible bytes are copied to the
      start of `rowBuf` and the rest of it is zeroed. */
  method FillRow(rowBuf: array<byte>, part: seq<byte>)
    requires |part| <= rowBuf.Length
    modifies rowBuf
    ensures rowBuf[..] == part + Zeros(rowBuf.Length - |part|)
  {
    CopyInto(rowBuf, 0, part);
    assert rowBuf[..|part|] == part;
    if rowBuf.Length > |part| {
      ZeroRange(rowBuf, |part|, rowBuf.Length);
    }
  }

  /** The pixel-data loop of `writeBMP`: one reused row buffer of
      `rowSize` bytes, refilled with source row `height - 1 - y` and zero
      padding, then written out. */
  method PixelData(src: seq<byte>, width: nat, height: nat, stride: nat) returns (data: seq<byte>)
    requires WidthFits(width) && RowsReadable(|src|, width, height, stride)
    ensures data == BottomUp(src, width * 3, Padding(width), height, height, stride)
  {
    var len := width * 3;
    var rowSize := RowSize(width);
    var rowBuf := new byte[rowSize](_ => 0);
    data := [];
    var y := 0;
    while y < height
      invariant y <= height
      invariant data == BottomUp(src, len, Padding(width), height, y, stride)
    {
      var srcY := height - 1 - y;
      var from := Offset(srcY, stride);
      OffsetMono(srcY, height - 1, stride);
      FillRow(rowBuf, src[from .. from + len]);
      BottomUpStep(src, len, Padding(width), height, y, stride, from, rowBuf[..]);
      data := data + rowBuf[..];
      y := y + 1;
    }
  }

  /** The pixel data in the source's terms: `height` rows of `rowSize`
      bytes; byte `c` of output row `y` (at `i = y * rowSize + c`) is byte
      `c` of source row `height - 1 - y` (at `j = (height - 1 - y) * stride
      + c`) for `c < width * 3`, and 0 in the padding. */
  lemma PixelDataRows(src: seq<byte>, width: nat, height: nat, stride: nat, y: nat, c: nat, i: nat, j: nat)
    requires WidthFits(width) && RowsReadable(|src|, width, height, stride)
    requires y < height && c < RowSize(width)
    requires i == y * RowSize(width) + c && j == (height - 1 - y) * stride + c
    ensures var data := BottomUp(src, width * 3, Padding(width), height, height, stride);
            |data| == height * RowSize(width) && i < |data| && (c < width * 3 ==> j < |src|) &&
            data[i] == if c < width * 3 then src[j] else 0
  {
    RowSizeBounds(width);
    var rowSize := RowSize(width);
    BottomUpAt(src, width * 3, Padding(width), height, height, stride, y, c);
    OffsetIsProduct(height, rowSize);
    OffsetIsProduct(y, rowSize);
    OffsetIsProduct(height - 1 - y, stride);
  }

  // ---------------------------------------------------------------------------
  // The whole file
  // ---------------------------------------------------------------------------

  /** The pixel type libCZI reports; only `Bgr24` is written. */
  datatype PixelType = Bgr24 | Other(code: int)

  /** The bytes `writeBMP` writes for a `Bgr24` bitmap: the file header,
      the info header, then the padded rows, bottom row first. */
  function BmpBytes(width: nat, height: nat, stride: nat, src: seq<byte>): (f: seq<byte>)
    requires width < U32 && height < U32
    requires WidthFits(width) && RowsReadable(|src|, width, height, stride)
  {
    FileHeaderBytes(FileSize(width, height)) + InfoHeaderBytes(width, height, ImageSize(width, height))
    + BottomUp(src, width * 3, Padding(width), height, height, stride)
  }

  /** The file is 54 header bytes and `rowSize * height` bytes of rows. */
  lemma BmpSize(width: nat, height: nat, stride: nat, src: seq<byte>)
    requires width < U32 && height < U32
    requires WidthFits(width) && RowsReadable(|src|, width, height, stride)
    ensures |BmpBytes(width, height, stride, src)| == 54 + RowSize(width) * height
  {
    OffsetIsProduct(height, RowSize(width));
  }

  /** Bytes 0-13 of the file are the file header, bytes 14-53 the info
      header and the rest the pixel rows. */
  lemma BmpLayout(width: nat, height: nat, stride: nat, src: seq<byte>)
    requires width < U32 && height < U32
    requires WidthFits(width) && RowsReadable(|src|, width, height, stride)
    ensures var f := BmpBytes(width, height, stride, src);
            |f| >= 54 &&
            f[..14] == FileHeaderBytes(FileSize(width, height)) &&
            f[14..54] == InfoHeaderBytes(width, height, ImageSize(width, height)) &&
            f[54..] == BottomUp(src, width * 3, Padding(width), height, height, stride)
  {
    var h1, h2 := FileHeaderBytes(FileSize(width, height)), InfoHeaderBytes(width, height, ImageSize(width, height));
    var rows := BottomUp(src, width * 3, Padding(width), height, height, stride);
    ThreeParts(h1, h2, rows);
  }

  /** `writeBMP`: `None` (nothing written) unless the bitmap is `Bgr24`,
      otherwise the bytes written to the file. */
  method WriteBmp(pixelType: PixelType, width: nat, height: nat, stride: nat, src: seq<byte>)
    returns (file: Option<seq<byte>>)
    requires width < U32 && height < U32
    requires WidthFits(width) && RowsReadable(|src|, width, height, stride)
    ensures file.None? <==> pixelType != Bgr24
    ensures file.Some? ==> file.value == BmpBytes(width, height, stride, src)
  {
    if pixelType != Bgr24 {
      return None;
    }
    var rowSize := RowSize(width);
    var imageSize := Wrap32(rowSize * height);
    var fileSize := Wrap32(14 + 40 + imageSize);
    var fileHeader := FileHeader(fileSize);
    var infoHeader := InfoHeader(width, height, imageSize);
    var pixels := PixelData(src, width, height, stride);
    file := Some(fileHeader + infoHeader + pixels);
  }

  // ---------------------------------------------------------------------------
  // 32-bit row addresses
  // ---------------------------------------------------------------------------

  /** The source row address as the loop computes it: `srcY * srcStride`
      in `uint32_t`. */
  function RowAddress32(srcY: nat, stride: nat): (a: nat)
    ensures a < U32
  {
    Wrap32(srcY * stride)
  }

  /** A bitmap of 65537 rows with a 65536-byte stride (21845 pixels wide):
      for the first row written, source row 65536, the 32-bit address wraps
      to 0, so the top row is copied where the bottom row belongs. */
  lemma RowAddressWraps()
    ensures RowAddress32(65537 - 1 - 0, 65536) == 0
    ensures Offset(65537 - 1 - 0, 65536) == 0x1_0000_0000
  {
    OffsetIsProduct(65536, 65536);
  }
}
