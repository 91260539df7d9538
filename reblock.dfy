/** The re-blocking engine of src/main.cpp: cutting a tightly packed RGB raster
    into fixed-size tiles (`write_tiff_tiles_helper`) or horizontal strips
    (`write_tiff_strips_helper`), and packing a stride-padded bitmap into such a
    raster (`CziBitmapToBuffer`). The libtiff calls are not modelled: each helper
    yields the sequence of byte buffers, with their origins and byte counts, that
    it would hand to the encoder, in the order it hands them over.

    Byte positions are written with `Offset(n, size)`, the start of block `n`
    of `size` bytes (`n * size`); `RasterIndex` and the lemmas that state the
    source's own formulas recover the products. */
module Reblock {
  import opened Common

  /** A tightly packed, row-major RGB raster: `height` rows of `width * 3`
      bytes, pixel (x, y) at bytes `(y * width + x) * 3 .. + 3`. */
  datatype Raster = Raster(pixels: seq<byte>, width: nat, height: nat) {
    predicate Valid() { |pixels| == Offset(height, width * 3) }

    /** Sample `k` (0 red, 1 green, 2 blue) of pixel (x, y). */
    function Sample(x: nat, y: nat, k: nat): byte
      requires Valid() && x < width && y < height && k < 3
    {
      OffsetInside(y, height, width * 3);
      pixels[Offset(y, width * 3) + x * 3 + k]
    }
  }

  /** A raster is valid exactly when it holds `width * height * 3` bytes, and
      sample `k` of pixel (x, y) is byte `(y * width + x) * 3 + k`. */
  lemma RasterIndex(r: Raster, x: nat, y: nat, k: nat)
    ensures r.Valid() <==> |r.pixels| == r.width * r.height * 3
    ensures Offset(y, r.width * 3) + x * 3 + k == (y * r.width + x) * 3 + k
  {
    PlaneSize(r.width, r.height);
    OffsetIsProduct(y, r.width * 3);
  }

  /** `h` rows of `w` RGB pixels take `w * h * 3` bytes. */
  lemma PlaneSize(w: nat, h: nat)
    ensures Offset(h, w * 3) == w * h * 3
  {
    OffsetIsProduct(h, w * 3);
  }

  /** One `TIFFWriteEncodedTile` call: the tile's origin in the raster, the
      buffer handed over and the byte count passed with it. */
  datatype TileWrite = TileWrite(tx: nat, ty: nat, data: seq<byte>, nBytes: nat)

  /** One `TIFFWriteEncodedStrip` call: the first row of the strip, the number
      of rows it holds, the byte offset of its source address and the bytes
      handed over (as many as its byte count says). */
  datatype StripWrite = StripWrite(row: nat, rows: nat, offset: nat, data: seq<byte>)

  // ---------------------------------------------------------------------------
  // Tiles
  // ---------------------------------------------------------------------------

  /** How many of the `tileW` columns of a tile starting at column `tx` lie
      inside the raster (`xMax - tx`, line 36). */
  function VisibleCols(r: Raster, tileW: nat, tx: nat): (cols: nat)
    ensures cols <= tileW && (tx < r.width ==> tx + cols <= r.width)
  {
    if tx < r.width then Min(tx + tileW, r.width) - tx else 0
  }

  /** The visible part of source row `y` for a tile starting at column `tx`:
      `VisibleCols * 3` bytes from byte `(y * width + tx) * 3` on. */
  function VisibleRow(r: Raster, tileW: nat, tx: nat, y: nat): (v: seq<byte>)
    requires r.Valid() && tx < r.width && y < r.height
    ensures |v| == VisibleCols(r, tileW, tx) * 3
  {
    OffsetInside(y, r.height, r.width * 3);
    var src := Offset(y, r.width * 3) + tx * 3;
    r.pixels[src .. src + VisibleCols(r, tileW, tx) * 3]
  }

  /** Row `row` of the tile buffer for the tile whose origin is (tx, ty)
      (lines 35-44): the part of source row `ty + row` that lies inside the
      raster, followed by zeros up to the tile width; a row below the bottom
      edge of the raster is all zeros. */
  function TileRow(r: Raster, tileW: nat, tx: nat, ty: nat, row: nat): (t: seq<byte>)
    requires r.Valid()
    ensures |t| == tileW * 3
  {
    if tx < r.width && ty + row < r.height then
      VisibleRow(r, tileW, tx, ty + row) + Zeros((tileW - VisibleCols(r, tileW, tx)) * 3)
    else
      Zeros(tileW * 3)
  }

  /** The first `n` rows of the tile buffer, laid end to end. */
  function TileBytes(r: Raster, tileW: nat, tx: nat, ty: nat, n: nat): (t: seq<byte>)
    requires r.Valid()
    ensures |t| == Offset(n, tileW * 3)
  {
    if n == 0 then [] else TileBytes(r, tileW, tx, ty, n - 1) + TileRow(r, tileW, tx, ty, n - 1)
  }

  /** The full-size buffer handed to the encoder for the tile at (tx, ty):
      its `tileH` rows laid end to end. */
  function Tile(r: Raster, tileW: nat, tileH: nat, tx: nat, ty: nat): (t: seq<byte>)
    requires r.Valid()
    ensures |t| == Offset(tileH, tileW * 3)
  {
    TileBytes(r, tileW, tx, ty, tileH)
  }

  /** Byte `c` of row `i` of the tile buffer is byte `c` of that row. */
  lemma {:induction false} TileBytesAt(r: Raster, tileW: nat, tx: nat, ty: nat, n: nat, i: nat, c: nat)
    requires r.Valid() && i < n && c < tileW * 3
    ensures Offset(i, tileW * 3) + c < Offset(n, tileW * 3)
    ensures TileBytes(r, tileW, tx, ty, n)[Offset(i, tileW * 3) + c] == TileRow(r, tileW, tx, ty, i)[c]
  {
    var front, last := TileBytes(r, tileW, tx, ty, n - 1), TileRow(r, tileW, tx, ty, n - 1);
    assert TileBytes(r, tileW, tx, ty, n) == front + last;
    if i < n - 1 {
      TileBytesAt(r, tileW, tx, ty, n - 1, i, c);
      AppendAtFront(front, last, Offset(i, tileW * 3) + c);
    } else {
      AppendAtBack(front, last, c);
    }
  }

  /** Sample `k` of pixel `col` of a tile row is the source sample of pixel
      (tx + col, ty + row) when that pixel exists, and 0 otherwise. */
  lemma TileRowAt(r: Raster, tileW: nat, tx: nat, ty: nat, row: nat, col: nat, k: nat)
    requires r.Valid() && col < tileW && k < 3
    ensures TileRow(r, tileW, tx, ty, row)[col * 3 + k] ==
              if tx + col < r.width && ty + row < r.height then r.Sample(tx + col, ty + row, k) else 0
  {
    if tx < r.width && ty + row < r.height {
      OffsetInside(ty + row, r.height, r.width * 3);
      if col < VisibleCols(r, tileW, tx) {
        assert TileRow(r, tileW, tx, ty, row)[col * 3 + k] == VisibleRow(r, tileW, tx, ty + row)[col * 3 + k];
      }
    }
  }

  /** Inside the tile at (tx, ty), sample `k` of pixel (col, row), at byte
      `(row * tileW + col) * 3 + k` of the buffer, is the source sample of pixel
      (tx + col, ty + row) when that pixel exists, and 0 when it lies beyond the
      right or bottom edge of the raster. */
  lemma TileAtOffset(r: Raster, tileW: nat, tileH: nat, tx: nat, ty: nat, row: nat, col: nat, k: nat)
    requires r.Valid()
    requires row < tileH && col < tileW && k < 3
    ensures Offset(row, tileW * 3) + (col * 3 + k) < |Tile(r, tileW, tileH, tx, ty)|
    ensures Tile(r, tileW, tileH, tx, ty)[Offset(row, tileW * 3) + (col * 3 + k)] ==
              if tx + col < r.width && ty + row < r.height
              then r.Sample(tx + col, ty + row, k)
              else 0
  {
    assert Tile(r, tileW, tileH, tx, ty) == TileBytes(r, tileW, tx, ty, tileH);
    TileBytesAt(r, tileW, tx, ty, tileH, row, col * 3 + k);
    TileRowAt(r, tileW, tx, ty, row, col, k);
  }

  lemma TileAt(r: Raster, tileW: nat, tileH: nat, tx: nat, ty: nat, row: nat, col: nat, k: nat)
    requires r.Valid()
    requires row < tileH && col < tileW && k < 3
    ensures (row * tileW + col) * 3 + k < |Tile(r, tileW, tileH, tx, ty)|
    ensures Tile(r, tileW, tileH, tx, ty)[(row * tileW + col) * 3 + k] ==
              if tx + col < r.width && ty + row < r.height
              then r.Sample(tx + col, ty + row, k)
              else 0
  {
    TileAtOffset(r, tileW, tileH, tx, ty, row, col, k);
    TileIndex(tileW, row, col, k);
  }

  lemma TileIndex(tileW: nat, row: nat, col: nat, k: nat)
    ensures Offset(row, tileW * 3) + (col * 3 + k) == (row * tileW + col) * 3 + k
  {
    OffsetIsProduct(row, tileW * 3);
  }

  /** Rows of the tile at (tx, ty) that start at or below the bottom edge of
      the raster are all zeros: the first `i + rest` rows are the first `i`
      rows followed by zeros. */
  lemma {:induction false} TileRowsBelow(r: Raster, tileW: nat, tx: nat, ty: nat, i: nat, rest: nat)
    requires r.Valid()
    requires rest == 0 || ty + i >= r.height
    ensures TileBytes(r, tileW, tx, ty, i + rest) == TileBytes(r, tileW, tx, ty, i) + Zeros(Offset(rest, tileW * 3))
  {
    if rest > 0 {
      TileRowsBelow(r, tileW, tx, ty, i, rest - 1);
      ZerosSplit(Offset(rest - 1, tileW * 3), tileW * 3);
    }
  }

  /** One pass of the row loop of lines 39-44: copying the `n` visible bytes
      of source row `y` = `ty + row`, found at byte `src`, to byte `dst` of the
      buffer, over the zeros that follow the `row` rows already filled, adds
      tile row `row`. */
  lemma FillTileStep(r: Raster, tileW: nat, tx: nat, ty: nat, y: nat, row: nat, rest: nat,
                     src: nat, dst: nat, n: nat, before: seq<byte>, after: seq<byte>)
    requires r.Valid() && tx < r.width && y < r.height && y == ty + row && rest > 0
    requires src == Offset(y, r.width * 3) + tx * 3 && n == VisibleCols(r, tileW, tx) * 3
    requires dst == Offset(row, tileW * 3)
    requires before == TileBytes(r, tileW, tx, ty, row) + Zeros(Offset(rest, tileW * 3))
    requires src + n <= |r.pixels| && dst + n <= |before|
    requires after == before[..dst] + r.pixels[src .. src + n] + before[dst + n..]
    ensures after == TileBytes(r, tileW, tx, ty, row + 1) + Zeros(Offset(rest - 1, tileW * 3))
  {
    var done := TileBytes(r, tileW, tx, ty, row);
    var pad := (tileW - VisibleCols(r, tileW, tx)) * 3;
    TileRowFromSlice(r, tileW, tx, ty, row, src, n);
    assert Offset(rest, tileW * 3) == n + pad + Offset(rest - 1, tileW * 3);
    OverwriteZerosPadded(before, done, r.pixels[src .. src + n], pad, Offset(rest - 1, tileW * 3), dst, n, after);
    assert TileBytes(r, tileW, tx, ty, row + 1) == done + TileRow(r, tileW, tx, ty, row);
  }

  /** The `n` bytes at `src`, padded with zeros to the tile width, are tile
      row `row`. */
  lemma TileRowFromSlice(r: Raster, tileW: nat, tx: nat, ty: nat, row: nat, src: nat, n: nat)
    requires r.Valid() && tx < r.width && ty + row < r.height
    requires src == Offset(ty + row, r.width * 3) + tx * 3 && n == VisibleCols(r, tileW, tx) * 3
    ensures src + n <= |r.pixels|
    ensures r.pixels[src .. src + n] + Zeros((tileW - VisibleCols(r, tileW, tx)) * 3) == TileRow(r, tileW, tx, ty, row)
  {
    VisibleRowSlice(r, tileW, tx, ty + row, src, n);
    TileRowVisible(r, tileW, tx, ty, row);
  }

  /** A tile row that starts inside the raster is its visible part padded
      with zeros. */
  lemma TileRowVisible(r: Raster, tileW: nat, tx: nat, ty: nat, row: nat)
    requires r.Valid() && tx < r.width && ty + row < r.height
    ensures TileRow(r, tileW, tx, ty, row) ==
              VisibleRow(r, tileW, tx, ty + row) + Zeros((tileW - VisibleCols(r, tileW, tx)) * 3)
  {
  }

  /** The `n` bytes at `src` are the visible part of source row `y`. */
  lemma VisibleRowSlice(r: Raster, tileW: nat, tx: nat, y: nat, src: nat, n: nat)
    requires r.Valid() && tx < r.width && y < r.height
    requires src == Offset(y, r.width * 3) + tx * 3 && n == VisibleCols(r, tileW, tx) * 3
    ensures src + n <= |r.pixels| && r.pixels[src .. src + n] == VisibleRow(r, tileW, tx, y)
  {
    OffsetInside(y, r.height, r.width * 3);
  }

  /** Lines 35-44: clear the tile buffer, then copy the visible part of each
      source row of the tile into its row of the buffer. */
  method FillTile(tileBuf: array<byte>, r: Raster, tileW: nat, tileH: nat, tx: nat, ty: nat)
    requires r.Valid() && tx < r.width && ty < r.height
    requires tileBuf.Length == Offset(tileH, tileW * 3)
    modifies tileBuf
    ensures tileBuf[..] == Tile(r, tileW, tileH, tx, ty)
  {
    var yMax := Min(ty + tileH, r.height);
    ZeroRange(tileBuf, 0, tileBuf.Length);

    var y := ty;
    ghost var row, rest := 0, tileH;
    while y < yMax
      invariant ty <= y <= yMax && row == y - ty && row + rest == tileH
      invariant tileBuf[..] == TileBytes(r, tileW, tx, ty, row) + Zeros(Offset(rest, tileW * 3))
    {
      CopyTileRow(tileBuf, r, tileW, tx, ty, y, row, rest);
      y := y + 1;
      row, rest := row + 1, rest - 1;
    }
    TileFromRows(r, tileW, tileH, tx, ty, row, rest);
  }

  /** One pass of the row loop of lines 39-44: the visible part of source row
      `y`, which starts at byte `(y * width + tx) * 3` (`RasterIndex`), is
      copied to byte `(y - ty) * tileW * 3` of the buffer, over the zeros
      that follow the rows already filled. */
  method CopyTileRow(tileBuf: array<byte>, r: Raster, tileW: nat, tx: nat, ty: nat, y: nat,
                     ghost row: nat, ghost rest: nat)
    requires r.Valid() && tx < r.width && y < r.height && y == ty + row && rest > 0
    requires tileBuf[..] == TileBytes(r, tileW, tx, ty, row) + Zeros(Offset(rest, tileW * 3))
    modifies tileBuf
    ensures tileBuf[..] == TileBytes(r, tileW, tx, ty, row + 1) + Zeros(Offset(rest - 1, tileW * 3))
  {
    var xMax := Min(tx + tileW, r.width);
    var src := Offset(y, r.width * 3) + tx * 3;
    var dst := Offset(y - ty, tileW * 3);
    var n := (xMax - tx) * 3;
    OffsetInside(y, r.height, r.width * 3);
    ghost var before := tileBuf[..];
    var part := r.pixels[src .. src + n];
    assert |part| == n && dst + n <= |before|;
    CopyInto(tileBuf, dst, part);
    FillTileStep(r, tileW, tx, ty, y, row, rest, src, dst, n, before, tileBuf[..]);
  }

  /** Once every row of the tile that starts inside the raster is filled,
      the buffer is the whole tile. */
  lemma TileFromRows(r: Raster, tileW: nat, tileH: nat, tx: nat, ty: nat, row: nat, rest: nat)
    requires r.Valid() && row + rest == tileH && (rest == 0 || ty + row >= r.height)
    ensures Tile(r, tileW, tileH, tx, ty) == TileBytes(r, tileW, tx, ty, row) + Zeros(Offset(rest, tileW * 3))
  {
    TileRowsBelow(r, tileW, tx, ty, row, rest);
  }

  /** The origin (top-left pixel) of a tile. */
  datatype Origin = Origin(tx: nat, ty: nat)

  /** The origins the inner loop visits in the band of rows starting at `ty`,
      from column `tx` to the right edge. */
  function RowOrigins(width: nat, tileW: nat, ty: nat, tx: nat): seq<Origin>
    requires tileW > 0
    decreases width - tx
  {
    if tx >= width then [] else [Origin(tx, ty)] + RowOrigins(width, tileW, ty, tx + tileW)
  }

  /** The origins of every band from row `ty` down, band after band. */
  function OriginsFrom(width: nat, height: nat, tileW: nat, tileH: nat, ty: nat): seq<Origin>
    requires tileW > 0 && tileH > 0
    decreases height - ty
  {
    if ty >= height then []
    else RowOrigins(width, tileW, ty, 0) + OriginsFrom(width, height, tileW, tileH, ty + tileH)
  }

  /** The write handed to the encoder for the tile at origin `o`: the full
      tile buffer with the full byte count `tileW * tileH * 3`, written
      `Offset(tileH, tileW * 3)` (`PlaneSize`). */
  function TileFor(r: Raster, tileW: nat, tileH: nat, o: Origin): TileWrite
    requires r.Valid()
  {
    TileWrite(o.tx, o.ty, Tile(r, tileW, tileH, o.tx, o.ty), Offset(tileH, tileW * 3))
  }

  /** The writes for a sequence of origins, in the same order. */
  function TileWrites(r: Raster, tileW: nat, tileH: nat, os: seq<Origin>): (ws: seq<TileWrite>)
    requires r.Valid()
    ensures |ws| == |os|
  {
    seq(|os|, i requires 0 <= i < |os| => TileFor(r, tileW, tileH, os[i]))
  }

  /** Every tile write of the raster, in the order `write_tiff_tiles_helper`
      makes them. */
  function Tiles(r: Raster, tileW: nat, tileH: nat): seq<TileWrite>
    requires r.Valid() && tileW > 0 && tileH > 0
  {
    TileWrites(r, tileW, tileH, OriginsFrom(r.width, r.height, tileW, tileH, 0))
  }

  /** One more tile visited is one more write at the end. */
  lemma TileWritesSnoc(r: Raster, tileW: nat, tileH: nat, os: seq<Origin>, o: Origin)
    requires r.Valid()
    ensures TileWrites(r, tileW, tileH, os + [o]) == TileWrites(r, tileW, tileH, os) + [TileFor(r, tileW, tileH, o)]
  {
    var ws, ws' := TileWrites(r, tileW, tileH, os), TileWrites(r, tileW, tileH, os + [o]);
    forall i | 0 <= i < |ws'|
      ensures ws'[i] == (ws + [TileFor(r, tileW, tileH, o)])[i]
    {
      if i < |os| {
        assert (os + [o])[i] == os[i];
      }
    }
  }

  lemma {:induction false} RowOriginsLength(width: nat, tileW: nat, ty: nat, tx: nat)
    requires tileW > 0
    ensures |RowOrigins(width, tileW, ty, tx)| == if tx < width then CeilDiv(width - tx, tileW) else 0
    decreases width - tx
  {
    if tx < width {
      RowOriginsLength(width, tileW, ty, tx + tileW);
      CeilDivStep(width, tileW, tx);
    }
  }

  /** The `i`-th tile of a band lies `i` tile widths to the right of where the
      band's walk started. */
  lemma {:induction false} RowOriginsAt(width: nat, tileW: nat, ty: nat, tx: nat, i: nat)
    requires tileW > 0 && i < |RowOrigins(width, tileW, ty, tx)|
    ensures tx + Offset(i, tileW) < width
    ensures RowOrigins(width, tileW, ty, tx)[i] == Origin(tx + Offset(i, tileW), ty)
    decreases i
  {
    if i > 0 {
      RowOriginsAt(width, tileW, ty, tx + tileW, i - 1);
    }
  }

  lemma {:induction false} OriginsFromLength(width: nat, height: nat, tileW: nat, tileH: nat, ty: nat)
    requires tileW > 0 && tileH > 0
    ensures |OriginsFrom(width, height, tileW, tileH, ty)| ==
              Offset(if ty < height then CeilDiv(height - ty, tileH) else 0, CeilDiv(width, tileW))
    decreases height - ty
  {
    if ty < height {
      RowOriginsLength(width, tileW, ty, 0);
      OriginsFromLength(width, height, tileW, tileH, ty + tileH);
      CeilDivStep(height, tileH, ty);
    }
  }

  /** Tile `q * cols + m` of the walk from band `ty` is the `m`-th tile of the
      `q`-th band after it. */
  lemma OriginsFromAt(width: nat, height: nat, tileW: nat, tileH: nat, ty: nat, q: nat, m: nat)
    requires tileW > 0 && tileH > 0 && ty < height
    requires q < CeilDiv(height - ty, tileH) && m < CeilDiv(width, tileW)
    ensures ty + Offset(q, tileH) < height && Offset(m, tileW) < width
    ensures Offset(q, CeilDiv(width, tileW)) + m < |OriginsFrom(width, height, tileW, tileH, ty)|
    ensures OriginsFrom(width, height, tileW, tileH, ty)[Offset(q, CeilDiv(width, tileW)) + m] ==
              Origin(Offset(m, tileW), ty + Offset(q, tileH))
    decreases q, 1
  {
    if q > 0 {
      var p := q - 1;
      assert q == p + 1;
      OriginsFromLaterBand(width, height, tileW, tileH, ty, p, m);
    } else {
      OriginsFromFirstBand(width, height, tileW, tileH, ty, m);
    }
  }

  /** The first band's tiles come first. */
  lemma OriginsFromFirstBand(width: nat, height: nat, tileW: nat, tileH: nat, ty: nat, m: nat)
    requires tileW > 0 && tileH > 0 && ty < height && m < CeilDiv(width, tileW)
    ensures ty + Offset(0, tileH) < height && Offset(m, tileW) < width
    ensures Offset(0, CeilDiv(width, tileW)) + m < |OriginsFrom(width, height, tileW, tileH, ty)|
    ensures OriginsFrom(width, height, tileW, tileH, ty)[Offset(0, CeilDiv(width, tileW)) + m] ==
              Origin(Offset(m, tileW), ty + Offset(0, tileH))
  {
    var row, rest := RowOrigins(width, tileW, ty, 0), OriginsFrom(width, height, tileW, tileH, ty + tileH);
    BandSplit(width, height, tileW, tileH, ty);
    BandLength(width, tileW, ty);
    RowOriginsAt(width, tileW, ty, 0, m);
    AppendAtFront(row, rest, m);
    assert Offset(0, CeilDiv(width, tileW)) == 0 && Offset(0, tileH) == 0;
  }

  /** A tile of a later band is a tile of the walk from the next band on. */
  lemma {:induction false} OriginsFromLaterBand(width: nat, height: nat, tileW: nat, tileH: nat, ty: nat, p: nat, m: nat)
    requires tileW > 0 && tileH > 0 && ty < height
    requires p + 1 < CeilDiv(height - ty, tileH) && m < CeilDiv(width, tileW)
    ensures ty + Offset(p + 1, tileH) < height && Offset(m, tileW) < width
    ensures Offset(p + 1, CeilDiv(width, tileW)) + m < |OriginsFrom(width, height, tileW, tileH, ty)|
    ensures OriginsFrom(width, height, tileW, tileH, ty)[Offset(p + 1, CeilDiv(width, tileW)) + m] ==
              Origin(Offset(m, tileW), ty + Offset(p + 1, tileH))
    decreases p + 1, 0
  {
    var row, rest := RowOrigins(width, tileW, ty, 0), OriginsFrom(width, height, tileW, tileH, ty + tileH);
    BandSplit(width, height, tileW, tileH, ty);
    BandLength(width, tileW, ty);
    NextBand(height, tileH, ty, p);
    OriginsFromAt(width, height, tileW, tileH, ty + tileH, p, m);
    AppendAtBack(row, rest, Offset(p, CeilDiv(width, tileW)) + m);
    OffsetNext(p, CeilDiv(width, tileW));
    OffsetNext(p, tileH);
  }

  /** The walk from band `ty` is that band followed by the walk from the next. */
  lemma BandSplit(width: nat, height: nat, tileW: nat, tileH: nat, ty: nat)
    requires tileW > 0 && tileH > 0 && ty < height
    ensures OriginsFrom(width, height, tileW, tileH, ty) ==
              RowOrigins(width, tileW, ty, 0) + OriginsFrom(width, height, tileW, tileH, ty + tileH)
  {
  }

  /** A band holds `ceil(width / tileW)` tiles. */
  lemma BandLength(width: nat, tileW: nat, ty: nat)
    requires tileW > 0
    ensures |RowOrigins(width, tileW, ty, 0)| == CeilDiv(width, tileW)
  {
    RowOriginsLength(width, tileW, ty, 0);
    assert width - 0 == width;
  }

  /** Band `p + 1` from row `ty` is band `p` from the next band. */
  lemma NextBand(height: nat, tileH: nat, ty: nat, p: nat)
    requires tileH > 0 && ty < height && p + 1 < CeilDiv(height - ty, tileH)
    ensures ty + tileH < height && p < CeilDiv(height - (ty + tileH), tileH)
  {
    CeilDivStep(height, tileH, ty);
  }

  /** An index below `Offset(n, d)` lies in block `i / d`, one of the first
      `n`, at position `i % d`. */
  lemma BlockOf(i: nat, d: nat, n: nat)
    requires d > 0 && i < Offset(n, d)
    ensures 0 <= i / d < n && 0 <= i % d < d && i == Offset(i / d, d) + i % d
  {
    OffsetIsProduct(i / d, d);
    if i / d >= n {
      OffsetMono(n, i / d, d);
    }
  }

  /** The tile in band `q` and column `m` of the tile grid is written as
      tile number `k` = `q * cols + m` (`Offset(q, cols) + m`), with origin
      (m * tileW, q * tileH), and that origin lies inside the raster. */
  lemma TileOfGridOffset(r: Raster, tileW: nat, tileH: nat, q: nat, m: nat, k: nat)
    requires r.Valid() && tileW > 0 && tileH > 0
    requires q < CeilDiv(r.height, tileH) && m < CeilDiv(r.width, tileW)
    requires k == Offset(q, CeilDiv(r.width, tileW)) + m
    ensures Offset(m, tileW) < r.width && Offset(q, tileH) < r.height
    ensures k < |Tiles(r, tileW, tileH)|
    ensures Tiles(r, tileW, tileH)[k].tx == Offset(m, tileW) && Tiles(r, tileW, tileH)[k].ty == Offset(q, tileH)
    ensures Tiles(r, tileW, tileH)[k].data == Tile(r, tileW, tileH, Offset(m, tileW), Offset(q, tileH))
    ensures Tiles(r, tileW, tileH)[k].nBytes == Offset(tileH, tileW * 3)
  {
    OriginsFromAt(r.width, r.height, tileW, tileH, 0, q, m);
    assert r.height - 0 == r.height;
  }

  /** `TileOfGridOffset` with the products written out. */
  lemma TileOfGrid(r: Raster, tileW: nat, tileH: nat, q: nat, m: nat, k: nat)
    requires r.Valid() && tileW > 0 && tileH > 0
    requires q < CeilDiv(r.height, tileH) && m < CeilDiv(r.width, tileW)
    requires k == q * CeilDiv(r.width, tileW) + m
    ensures m * tileW < r.width && q * tileH < r.height
    ensures k < |Tiles(r, tileW, tileH)|
    ensures Tiles(r, tileW, tileH)[k].tx == m * tileW && Tiles(r, tileW, tileH)[k].ty == q * tileH
    ensures |Tiles(r, tileW, tileH)[k].data| == Tiles(r, tileW, tileH)[k].nBytes == Offset(tileH, tileW * 3)
  {
    OffsetIsProduct(q, CeilDiv(r.width, tileW));
    OffsetIsProduct(m, tileW);
    OffsetIsProduct(q, tileH);
    TileOfGridOffset(r, tileW, tileH, q, m, k);
  }

  /** Tiles are written band by band (`ty` in the outer loop) and, within a
      band, left to right (`tx` in the inner loop): there are
      `ceil(width / tileW) * ceil(height / tileH)` of them, tile `k` has its
      origin at column `(k % cols) * tileW` and row `(k / cols) * tileH`, and
      every buffer and byte count is the full `tileW * tileH * 3` bytes. */
  lemma TilesInRowMajorOrder(r: Raster, tileW: nat, tileH: nat, k: nat)
    requires r.Valid() && tileW > 0 && tileH > 0
    ensures |Tiles(r, tileW, tileH)| == CeilDiv(r.height, tileH) * CeilDiv(r.width, tileW)
    ensures k < |Tiles(r, tileW, tileH)| ==>
              var t := Tiles(r, tileW, tileH)[k];
              var cols := CeilDiv(r.width, tileW);
              t.tx == (k % cols) * tileW && t.ty == (k / cols) * tileH &&
              |t.data| == t.nBytes == tileW * tileH * 3
  {
    var cols := CeilDiv(r.width, tileW);
    var rows := CeilDiv(r.height, tileH);
    OriginsFromLength(r.width, r.height, tileW, tileH, 0);
    OffsetIsProduct(rows, cols);
    if k < |Tiles(r, tileW, tileH)| {
      BlockOf(k, cols, rows);
      OffsetIsProduct(k / cols, cols);
      TileOfGrid(r, tileW, tileH, k / cols, k % cols, k);
      PlaneSize(tileW, tileH);
    }
  }

  /** Coverage: pixel (x, y) of the raster is written in tile number
      `n` = `(y / tileH) * cols + x / tileW`, whose origin is the pixel's position
      rounded down to the tile grid, as pixel (x % tileW, y % tileH) of that
      tile, at byte `i` = `((y % tileH) * tileW + x % tileW) * 3 + k`. Together with `TileAt` (everything else in a tile is 0) the
      visible parts of the tiles reassemble the raster. */
  lemma PixelInTile(r: Raster, tileW: nat, tileH: nat, x: nat, y: nat, k: nat, n: nat, i: nat)
    requires r.Valid() && tileW > 0 && tileH > 0
    requires x < r.width && y < r.height && k < 3
    requires n == (y / tileH) * CeilDiv(r.width, tileW) + x / tileW
    requires i == ((y % tileH) * tileW + x % tileW) * 3 + k
    ensures n < |Tiles(r, tileW, tileH)|
    ensures Tiles(r, tileW, tileH)[n].tx == x - x % tileW && Tiles(r, tileW, tileH)[n].ty == y - y % tileH
    ensures i < |Tiles(r, tileW, tileH)[n].data| && Tiles(r, tileW, tileH)[n].data[i] == r.Sample(x, y, k)
  {
    BlockOf(x, tileW, CeilDiv(r.width, tileW));
    BlockOf(y, tileH, CeilDiv(r.height, tileH));
    var q, m, row, col := y / tileH, x / tileW, y % tileH, x % tileW;
    OffsetIsProduct(q, CeilDiv(r.width, tileW));
    TileIndex(tileW, row, col, k);
    PixelInGrid(r, tileW, tileH, q, m, row, col, k, n, i);
  }

  /** `PixelInTile` with the pixel given by its band `q`, column `m` and
      position (col, row) inside the tile. */
  lemma PixelInGrid(r: Raster, tileW: nat, tileH: nat, q: nat, m: nat, row: nat, col: nat, k: nat, n: nat, i: nat)
    requires r.Valid() && tileW > 0 && tileH > 0
    requires q < CeilDiv(r.height, tileH) && m < CeilDiv(r.width, tileW)
    requires row < tileH && col < tileW && k < 3
    requires Offset(m, tileW) + col < r.width && Offset(q, tileH) + row < r.height
    requires n == Offset(q, CeilDiv(r.width, tileW)) + m && i == Offset(row, tileW * 3) + (col * 3 + k)
    ensures n < |Tiles(r, tileW, tileH)|
    ensures Tiles(r, tileW, tileH)[n].tx == Offset(m, tileW) && Tiles(r, tileW, tileH)[n].ty == Offset(q, tileH)
    ensures i < |Tiles(r, tileW, tileH)[n].data|
    ensures Tiles(r, tileW, tileH)[n].data[i] == r.Sample(Offset(m, tileW) + col, Offset(q, tileH) + row, k)
  {
    TileOfGridOffset(r, tileW, tileH, q, m, n);
    TileAtOffset(r, tileW, tileH, Offset(m, tileW), Offset(q, tileH), row, col, k);
  }

  /** Entering the band at row `ty`: its tiles come first. */
  lemma BandStart(done: seq<Origin>, width: nat, height: nat, tileW: nat, tileH: nat, ty: nat)
    requires tileW > 0 && tileH > 0 && ty < height
    ensures done + OriginsFrom(width, height, tileW, tileH, ty) ==
            done + RowOrigins(width, tileW, ty, 0) + OriginsFrom(width, height, tileW, tileH, ty + tileH)
  {
  }

  /** Visiting the tile at (tx, ty) moves its origin to the visited part. */
  lemma RowStep(done: seq<Origin>, width: nat, tileW: nat, ty: nat, tx: nat, later: seq<Origin>)
    requires tileW > 0 && tx < width
    ensures done + RowOrigins(width, tileW, ty, tx) + later ==
            (done + [Origin(tx, ty)]) + RowOrigins(width, tileW, ty, tx + tileW) + later
  {
  }

  /** `write_tiff_tiles_helper`: the sequence of tile writes, each with the
      one reused tile buffer cleared and refilled and with the full tile byte
      count (the short-tile byte count on line 46 is commented out). */
  method WriteTiles(r: Raster, tileW: nat, tileH: nat) returns (writes: seq<TileWrite>)
    requires r.Valid() && tileW > 0 && tileH > 0
    ensures writes == Tiles(r, tileW, tileH)
    ensures |writes| == CeilDiv(r.height, tileH) * CeilDiv(r.width, tileW)
    ensures forall k :: 0 <= k < |writes| ==> |writes[k].data| == writes[k].nBytes == tileW * tileH * 3
  {
    var tileBuf := new byte[Offset(tileH, tileW * 3)];
    ghost var all := OriginsFrom(r.width, r.height, tileW, tileH, 0);
    ghost var done: seq<Origin> := [];
    writes := [];
    var ty := 0;
    while ty < r.height
      invariant done + OriginsFrom(r.width, r.height, tileW, tileH, ty) == all
      invariant writes == TileWrites(r, tileW, tileH, done)
    {
      BandStart(done, r.width, r.height, tileW, tileH, ty);
      ghost var later := OriginsFrom(r.width, r.height, tileW, tileH, ty + tileH);
      var tx := 0;
      while tx < r.width
        invariant done + RowOrigins(r.width, tileW, ty, tx) + later == all
        invariant writes == TileWrites(r, tileW, tileH, done)
      {
        FillTile(tileBuf, r, tileW, tileH, tx, ty);
        var nBytes := Offset(tileH, tileW * 3);  // tileW * tileH * 3 (PlaneSize)
        writes := writes + [TileWrite(tx, ty, tileBuf[..], nBytes)];
        TileWritesSnoc(r, tileW, tileH, done, Origin(tx, ty));
        RowStep(done, r.width, tileW, ty, tx, later);
        done := done + [Origin(tx, ty)];
        tx := tx + tileW;
      }
      assert done + RowOrigins(r.width, tileW, ty, tx) + later == done + later;
      ty := ty + tileH;
    }
    assert done + OriginsFrom(r.width, r.height, tileW, tileH, ty) == done;
    TileSizes(r, tileW, tileH);
  }

  /** The number of tiles, and the full size of every tile write. */
  lemma TileSizes(r: Raster, tileW: nat, tileH: nat)
    requires r.Valid() && tileW > 0 && tileH > 0
    ensures |Tiles(r, tileW, tileH)| == CeilDiv(r.height, tileH) * CeilDiv(r.width, tileW)
    ensures forall k :: 0 <= k < |Tiles(r, tileW, tileH)| ==>
              |Tiles(r, tileW, tileH)[k].data| == Tiles(r, tileW, tileH)[k].nBytes == tileW * tileH * 3
  {
    TileCount(r, tileW, tileH);
    OffsetIsProduct(CeilDiv(r.height, tileH), CeilDiv(r.width, tileW));
    PlaneSize(tileW, tileH);
  }

  /** There are `rows` bands of `cols` tiles each. */
  lemma TileCount(r: Raster, tileW: nat, tileH: nat)
    requires r.Valid() && tileW > 0 && tileH > 0
    ensures |Tiles(r, tileW, tileH)| == Offset(CeilDiv(r.height, tileH), CeilDiv(r.width, tileW))
  {
    OriginsFromLength(r.width, r.height, tileW, tileH, 0);
    assert (if 0 < r.height then CeilDiv(r.height - 0, tileH) else 0) == CeilDiv(r.height, tileH);
  }

  // ---------------------------------------------------------------------------
  // Strips
  // ---------------------------------------------------------------------------

  /** `n` whole rows starting at row `y` lie inside the raster's bytes and end
      where row `y + n` starts. */
  lemma RowsInRaster(r: Raster, y: nat, n: nat)
    requires r.Valid() && y + n <= r.height
    ensures Offset(y, r.width * 3) + Offset(n, r.width * 3) == Offset(y + n, r.width * 3) <= |r.pixels|
  {
    OffsetAdd(y, n, r.width * 3);
    OffsetMono(y + n, r.height, r.width * 3);
  }

  /** The strip write for the band starting at row `y` (lines 67-72): it holds
      `min(rowsPerStrip, height - y)` rows, its source address is at the start
      of row `y`, and its byte count covers exactly those rows. */
  function StripAt(r: Raster, rowsPerStrip: nat, y: nat): StripWrite
    requires r.Valid() && y < r.height
  {
    var nRows := Min(rowsPerStrip, r.height - y);
    var offset := Offset(y, r.width * 3);
    RowsInRaster(r, y, nRows);
    StripWrite(y, nRows, offset, r.pixels[offset .. offset + Offset(nRows, r.width * 3)])
  }

  /** The strips from row `y` down, in the order the loop visits them. */
  function StripsFrom(r: Raster, rowsPerStrip: nat, y: nat): seq<StripWrite>
    requires r.Valid() && rowsPerStrip > 0
    decreases r.height - y
  {
    if y >= r.height then []
    else [StripAt(r, rowsPerStrip, y)] + StripsFrom(r, rowsPerStrip, y + rowsPerStrip)
  }

  /** Every strip of the raster, in the order `write_tiff_strips_helper` writes them. */
  function Strips(r: Raster, rowsPerStrip: nat): seq<StripWrite>
    requires r.Valid() && rowsPerStrip > 0
  {
    StripsFrom(r, rowsPerStrip, 0)
  }

  /** The bytes of a sequence of strips, one after the other. */
  function StripBytes(ws: seq<StripWrite>): seq<byte>
  {
    if ws == [] then [] else ws[0].data + StripBytes(ws[1..])
  }

  /** The total number of rows of a sequence of strips. */
  function StripRows(ws: seq<StripWrite>): nat
  {
    if ws == [] then 0 else ws[0].rows + StripRows(ws[1..])
  }

  lemma StripsCons(s: StripWrite, rest: seq<StripWrite>)
    ensures StripBytes([s] + rest) == s.data + StripBytes(rest)
    ensures StripRows([s] + rest) == s.rows + StripRows(rest)
  {
    assert ([s] + rest)[1..] == rest;
  }

  /** The strips from row `y` on are contiguous and non-overlapping: laid end
      to end their bytes are exactly the raster's bytes from row `y` on, and
      their row counts add up to the rows left. */
  lemma {:induction false} StripsFromCover(r: Raster, rowsPerStrip: nat, y: nat)
    requires r.Valid() && rowsPerStrip > 0 && y <= r.height
    ensures Offset(y, r.width * 3) <= |r.pixels|
    ensures StripBytes(StripsFrom(r, rowsPerStrip, y)) == r.pixels[Offset(y, r.width * 3)..]
    ensures StripRows(StripsFrom(r, rowsPerStrip, y)) == r.height - y
    decreases r.height - y, 1
  {
    OffsetMono(y, r.height, r.width * 3);
    if y + rowsPerStrip < r.height {
      StripsCoverMore(r, rowsPerStrip, y);
    } else if y < r.height {
      StripsCoverLast(r, rowsPerStrip, y);
    }
  }

  /** The last strip holds every row left. */
  lemma StripsCoverLast(r: Raster, rowsPerStrip: nat, y: nat)
    requires r.Valid() && rowsPerStrip > 0 && y < r.height <= y + rowsPerStrip
    ensures Offset(y, r.width * 3) <= |r.pixels|
    ensures StripBytes(StripsFrom(r, rowsPerStrip, y)) == r.pixels[Offset(y, r.width * 3)..]
    ensures StripRows(StripsFrom(r, rowsPerStrip, y)) == r.height - y
  {
    var s := StripAt(r, rowsPerStrip, y);
    assert StripsFrom(r, rowsPerStrip, y) == [s] + [];
    RowsInRaster(r, y, r.height - y);
    StripsCons(s, []);
    assert s.data + StripBytes([]) == s.data;
  }

  /** A strip that is not the last is followed by the strips from
      `rowsPerStrip` rows further down. */
  lemma {:induction false} StripsCoverMore(r: Raster, rowsPerStrip: nat, y: nat)
    requires r.Valid() && rowsPerStrip > 0 && y + rowsPerStrip < r.height
    ensures Offset(y, r.width * 3) <= |r.pixels|
    ensures StripBytes(StripsFrom(r, rowsPerStrip, y)) == r.pixels[Offset(y, r.width * 3)..]
    ensures StripRows(StripsFrom(r, rowsPerStrip, y)) == r.height - y
    decreases r.height - y, 0
  {
    var s := StripAt(r, rowsPerStrip, y);
    var rest := StripsFrom(r, rowsPerStrip, y + rowsPerStrip);
    assert StripsFrom(r, rowsPerStrip, y) == [s] + rest;
    RowsInRaster(r, y, rowsPerStrip);
    StripsCons(s, rest);
    StripsFromCover(r, rowsPerStrip, y + rowsPerStrip);
    SuffixSplit(r.pixels, Offset(y, r.width * 3), Offset(y + rowsPerStrip, r.width * 3));
  }

  lemma {:induction false} StripsFromLength(r: Raster, rowsPerStrip: nat, y: nat)
    requires r.Valid() && rowsPerStrip > 0
    ensures |StripsFrom(r, rowsPerStrip, y)| == if y < r.height then CeilDiv(r.height - y, rowsPerStrip) else 0
    decreases r.height - y
  {
    if y < r.height {
      StripsFromLength(r, rowsPerStrip, y + rowsPerStrip);
      CeilDivStep(r.height, rowsPerStrip, y);
    }
  }

  lemma {:induction false} StripsFromAt(r: Raster, rowsPerStrip: nat, y: nat, k: nat)
    requires r.Valid() && rowsPerStrip > 0
    requires k < |StripsFrom(r, rowsPerStrip, y)|
    ensures y + Offset(k, rowsPerStrip) < r.height
    ensures StripsFrom(r, rowsPerStrip, y)[k] == StripAt(r, rowsPerStrip, y + Offset(k, rowsPerStrip))
    decreases k
  {
    if k > 0 {
      StripsFromAt(r, rowsPerStrip, y + rowsPerStrip, k - 1);
    }
  }

  /** Strip mode: there are `ceil(height / rowsPerStrip)` strips; laid end to
      end their bytes are exactly the raster (so they are contiguous and do not
      overlap) and their row counts sum to `height`. */
  lemma StripsPartitionRaster(r: Raster, rowsPerStrip: nat)
    requires r.Valid() && rowsPerStrip > 0
    ensures |Strips(r, rowsPerStrip)| == CeilDiv(r.height, rowsPerStrip)
    ensures StripBytes(Strips(r, rowsPerStrip)) == r.pixels
    ensures StripRows(Strips(r, rowsPerStrip)) == r.height
  {
    StripsFromLength(r, rowsPerStrip, 0);
    StripsFromCover(r, rowsPerStrip, 0);
  }

  /** Of the `CeilDiv(n, d)` blocks of `d` rows covering `n` rows, every one
      but the last is full and the last holds `n % d`, or `d` when that is 0. */
  lemma BlockRows(n: nat, d: nat, k: nat)
    requires d > 0 && k < CeilDiv(n, d)
    ensures Offset(k, d) < n
    ensures k + 1 < CeilDiv(n, d) ==> Min(d, n - Offset(k, d)) == d
    ensures k + 1 == CeilDiv(n, d) ==> Min(d, n - Offset(k, d)) == if n % d == 0 then d else n % d
  {
    if k + 1 < CeilDiv(n, d) {
      OffsetMono(k + 1, CeilDiv(n, d) - 1, d);
    } else {
      LastBlock(n, d, k);
    }
  }

  /** Strip `k` starts at row `k * rowsPerStrip` and byte `row * width * 3`,
      holds `min(rowsPerStrip, height - row)` rows and exactly that many rows'
      bytes; every strip but the last is full, and the last one holds
      `height % rowsPerStrip` rows, or `rowsPerStrip` when that is 0. Strips
      are not padded. */
  lemma StripShape(r: Raster, rowsPerStrip: nat, k: nat)
    requires r.Valid() && rowsPerStrip > 0
    requires k < |Strips(r, rowsPerStrip)|
    ensures var s := Strips(r, rowsPerStrip)[k];
            s.row == k * rowsPerStrip &&
            s.rows == Min(rowsPerStrip, r.height - s.row) &&
            s.offset == s.row * r.width * 3 &&
            |s.data| == s.rows * r.width * 3 &&
            (k + 1 < |Strips(r, rowsPerStrip)| ==> s.rows == rowsPerStrip) &&
            (k + 1 == |Strips(r, rowsPerStrip)| ==>
               s.rows == if r.height % rowsPerStrip == 0 then rowsPerStrip else r.height % rowsPerStrip)
  {
    StripsFromAt(r, rowsPerStrip, 0, k);
    StripsFromLength(r, rowsPerStrip, 0);
    BlockRows(r.height, rowsPerStrip, k);
    OffsetIsProduct(k, rowsPerStrip);
    StripAtShape(r, rowsPerStrip, k * rowsPerStrip);
  }

  /** The strip starting at row `y` starts at byte `y * width * 3` and holds
      `min(rowsPerStrip, height - y)` rows, exactly that many rows' bytes. */
  lemma StripAtShape(r: Raster, rowsPerStrip: nat, y: nat)
    requires r.Valid() && y < r.height
    ensures var s := StripAt(r, rowsPerStrip, y);
            s.row == y && s.rows == Min(rowsPerStrip, r.height - y) &&
            s.offset == y * r.width * 3 && |s.data| == s.rows * r.width * 3
  {
    var nRows := Min(rowsPerStrip, r.height - y);
    RowsInRaster(r, y, nRows);
    OffsetOfPixelRows(y, r.width);
    OffsetOfPixelRows(nRows, r.width);
  }

  /** `write_tiff_strips_helper`: the sequence of strip writes, each a slice
      of the raster that is not padded. The source address `y * width * 3` and
      the byte count `nRows * width * 3` are the starts of rows `y` and `nRows`
      (`StripShape`). */
  method WriteStrips(r: Raster, rowsPerStrip: nat) returns (writes: seq<StripWrite>)
    requires r.Valid() && rowsPerStrip > 0
    ensures writes == Strips(r, rowsPerStrip)
    ensures |writes| == CeilDiv(r.height, rowsPerStrip)
    ensures StripBytes(writes) == r.pixels && StripRows(writes) == r.height
  {
    writes := [];
    var y := 0;
    while y < r.height
      invariant writes + StripsFrom(r, rowsPerStrip, y) == Strips(r, rowsPerStrip)
    {
      var strip := WriteStrip(r, rowsPerStrip, y);
      StripsStep(r, rowsPerStrip, y, writes);
      writes := writes + [strip];
      y := y + rowsPerStrip;
    }
    StripsDone(r, rowsPerStrip, y, writes);
    StripsPartitionRaster(r, rowsPerStrip);
  }

  /** The body of the strip loop (lines 67-72): `nRows` rows from row `y`,
      handed over from byte `y * width * 3` with byte count
      `nRows * width * 3`. */
  method WriteStrip(r: Raster, rowsPerStrip: nat, y: nat) returns (strip: StripWrite)
    requires r.Valid() && y < r.height
    ensures strip == StripAt(r, rowsPerStrip, y)
  {
    var nRows := Min(rowsPerStrip, r.height - y);
    var nBytes := Offset(nRows, r.width * 3);
    var src := Offset(y, r.width * 3);
    RowsInRaster(r, y, nRows);
    strip := StripWrite(y, nRows, src, r.pixels[src .. src + nBytes]);
  }

  /** Writing the strip at row `y` moves it from the strips still to write to
      the strips written. */
  lemma StripsStep(r: Raster, rowsPerStrip: nat, y: nat, writes: seq<StripWrite>)
    requires r.Valid() && rowsPerStrip > 0 && y < r.height
    ensures writes + StripsFrom(r, rowsPerStrip, y) ==
            (writes + [StripAt(r, rowsPerStrip, y)]) + StripsFrom(r, rowsPerStrip, y + rowsPerStrip)
  {
  }

  /** Past the last row there is nothing left to write. */
  lemma StripsDone(r: Raster, rowsPerStrip: nat, y: nat, writes: seq<StripWrite>)
    requires r.Valid() && rowsPerStrip > 0 && y >= r.height
    requires writes + StripsFrom(r, rowsPerStrip, y) == Strips(r, rowsPerStrip)
    ensures writes == Strips(r, rowsPerStrip)
  {
    assert writes + StripsFrom(r, rowsPerStrip, y) == writes;
  }

  // ---------------------------------------------------------------------------
  // Re-striding a decoded bitmap
  // ---------------------------------------------------------------------------

  /** The tightly packed raster of the bitmap: the first `w * 3` bytes of each
      of its `h` rows, without the padding the stride adds, laid end to end. */
  function Restrided(src: seq<byte>, w: nat, h: nat, stride: nat): (out: seq<byte>)
    requires RowsReadable(|src|, w, h, stride)
    ensures |out| == Offset(h, w * 3)
  {
    Gathered(src, h, stride, w * 3)
  }

  /** Sample `k` of pixel (x, y) of the packed raster is the byte `x * 3 + k`
      of source row `y`, which starts `y * stride` bytes into the bitmap. */
  lemma RestridedAt(src: seq<byte>, w: nat, h: nat, stride: nat, x: nat, y: nat, k: nat)
    requires RowsReadable(|src|, w, h, stride) && x < w && y < h && k < 3
    ensures Raster(Restrided(src, w, h, stride), w, h).Valid()
    ensures y * stride + x * 3 + k < |src|
    ensures Raster(Restrided(src, w, h, stride), w, h).Sample(x, y, k) == src[y * stride + x * 3 + k]
  {
    GatheredAt(src, h, stride, w * 3, y, x * 3 + k);
    OffsetIsProduct(y, stride);
  }

  /** When the stride is exactly `w * 3` there is no padding and the packed
      raster is the start of the source itself. */
  lemma RestridedTight(src: seq<byte>, w: nat, h: nat)
    requires RowsReadable(|src|, w, h, w * 3)
    ensures w * h * 3 <= |src|
    ensures Restrided(src, w, h, w * 3) == src[..w * h * 3]
  {
    PlaneSize(w, h);
    GatheredTight(src, h, w * 3);
  }

  /** `CziBitmapToBuffer` (lines 83-104): copy the `h` rows of a locked bitmap,
      `stride` bytes apart, into a fresh zero-filled buffer of exactly
      `w * h * 3` bytes, row `y` landing at byte `y * w * 3`; the width, the
      height and the 3 bytes per pixel are reported back. */
  method CziBitmapToBuffer(src: seq<byte>, w: nat, h: nat, stride: nat)
      returns (buffer: seq<byte>, outW: nat, outH: nat, outBpp: nat)
    requires RowsReadable(|src|, w, h, stride)
    ensures buffer == Restrided(src, w, h, stride)
    ensures Raster(buffer, w, h).Valid() && |buffer| == w * h * 3
    ensures outW == w && outH == h && outBpp == 3
  {
    var buf := new byte[Offset(h, w * 3)](_ => 0);
    NothingCopied(src, w, h, stride, buf[..]);
    var y := 0;
    while y < h
      invariant y <= h && buf[..] == PartlyCopied(src, w, h, stride, y)
    {
      CopyRow(buf, src, w, h, stride, y);
      y := y + 1;
    }
    buffer := buf[..];
    AllCopied(src, w, h, stride);
    PlaneSize(w, h);
    outW, outH, outBpp := w, h, 3;
  }

  /** The buffer of `CziBitmapToBuffer` once its first `y` rows are copied:
      those rows packed, then the zeros of the rows still to come. */
  ghost function PartlyCopied(src: seq<byte>, w: nat, h: nat, stride: nat, y: nat): seq<byte>
    requires y <= h && RowsReadable(|src|, w, h, stride)
  {
    FewerRowsReadable(|src|, w, y, h, stride);
    Gathered(src, y, stride, w * 3) + Zeros(Offset(h - y, w * 3))
  }

  lemma FewerRowsReadable(n: nat, w: nat, y: nat, h: nat, stride: nat)
    requires y <= h && RowsReadable(n, w, h, stride)
    ensures RowsReadable(n, w, y, stride)
  {
    if y > 0 {
      OffsetMono(y - 1, h - 1, stride);
    }
  }

  /** The fresh buffer is all zeros: no row copied yet. */
  lemma NothingCopied(src: seq<byte>, w: nat, h: nat, stride: nat, buf: seq<byte>)
    requires RowsReadable(|src|, w, h, stride)
    requires |buf| == Offset(h, w * 3) && forall i :: 0 <= i < |buf| ==> buf[i] == 0
    ensures buf == PartlyCopied(src, w, h, stride, 0)
  {
    assert Gathered(src, 0, stride, w * 3) == [];
    assert buf == Zeros(Offset(h, w * 3));
  }

  /** Once all `h` rows are copied, the buffer is the packed raster. */
  lemma AllCopied(src: seq<byte>, w: nat, h: nat, stride: nat)
    requires RowsReadable(|src|, w, h, stride)
    ensures PartlyCopied(src, w, h, stride, h) == Restrided(src, w, h, stride)
  {
    assert Zeros(Offset(0, w * 3)) == [];
  }

  /** One pass of the row loop of lines 91-99: source row `y`, `w * 3` bytes
      from byte `y * stride` on, is copied to byte `y * w * 3` of the
      buffer, over the zeros that follow the rows already copied. */
  method CopyRow(buf: array<byte>, src: seq<byte>, w: nat, h: nat, stride: nat, y: nat)
    requires y < h && RowsReadable(|src|, w, h, stride)
    requires buf[..] == PartlyCopied(src, w, h, stride, y)
    modifies buf
    ensures buf[..] == PartlyCopied(src, w, h, stride, y + 1)
  {
    var from := Offset(y, stride);
    var to := Offset(y, w * 3);
    OffsetMono(y, h - 1, stride);
    OffsetInside(y, h, w * 3);
    var row := src[from .. from + w * 3];
    CopyInto(buf, to, row);
    RowCopied(src, w, h, stride, y, old(buf[..]), buf[..]);
  }

  /** The buffer contents before and after one pass of the row loop. */
  lemma RowCopied(src: seq<byte>, w: nat, h: nat, stride: nat, y: nat, before: seq<byte>, after: seq<byte>)
    requires y < h && RowsReadable(|src|, w, h, stride)
    requires before == PartlyCopied(src, w, h, stride, y)
    requires Offset(y, stride) + w * 3 <= |src| && Offset(y, w * 3) + w * 3 <= |before|
    requires after == before[..Offset(y, w * 3)] + src[Offset(y, stride) .. Offset(y, stride) + w * 3] +
                      before[Offset(y, w * 3) + w * 3..]
    ensures after == PartlyCopied(src, w, h, stride, y + 1)
  {
    FewerRowsReadable(|src|, w, y, h, stride);
    PartlyCopiedIs(src, w, h, stride, y, h - y);
    GatheredStep(src, y, h - y, stride, w * 3, Offset(y, stride), Offset(y, w * 3), before, after);
    PartlyCopiedIs(src, w, h, stride, y + 1, h - y - 1);
  }

  /** `PartlyCopied` with the number of rows still to copy named `rest`. */
  lemma PartlyCopiedIs(src: seq<byte>, w: nat, h: nat, stride: nat, y: nat, rest: nat)
    requires y <= h && RowsReadable(|src|, w, h, stride) && rest == h - y
    ensures RowsReadable(|src|, w, y, stride)
    ensures PartlyCopied(src, w, h, stride, y) == Gathered(src, y, stride, w * 3) + Zeros(Offset(rest, w * 3))
  {
    FewerRowsReadable(|src|, w, y, h, stride);
  }

  /** One pass of the row loop of lines 91-99: copying source row `y`, at
      byte `from`, to byte `at` of the buffer, over the zeros that follow the
      `y` rows already copied, adds row `y`. */
  lemma GatheredStep(src: seq<byte>, y: nat, rest: nat, stride: nat, len: nat, from: nat, at: nat,
                     before: seq<byte>, after: seq<byte>)
    requires rest > 0 && from == Offset(y, stride) && at == Offset(y, len) && from + len <= |src|
    requires y == 0 || Offset(y - 1, stride) + len <= |src|
    requires before == Gathered(src, y, stride, len) + Zeros(Offset(rest, len))
    requires after == before[..at] + src[from .. from + len] + before[at + len..]
    ensures after == Gathered(src, y + 1, stride, len) + Zeros(Offset(rest - 1, len))
  {
    var done, part := Gathered(src, y, stride, len), src[from .. from + len];
    assert |part| == len;
    assert Offset(rest, len) == len + 0 + Offset(rest - 1, len);
    OverwriteZerosPadded(before, done, part, 0, Offset(rest - 1, len), at, len, after);
    assert part + Zeros(0) == part;
    assert Gathered(src, y + 1, stride, len) == done + part;
  }
}
