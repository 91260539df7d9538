# CZI → Aperio SVS converter core, modelled in Dafny

The converter reads a Zeiss CZI slide and writes an Aperio-style pyramidal
TIFF. This project models the parts of it that move bytes and text, and proves
properties of them. Two source files are covered.

- **`src/main.cpp`**
  - Re-blocking of an RGB raster into TIFF tiles (`write_tiff_tiles_helper`)
    or strips (`write_tiff_strips_helper`).
  - Packing of a stride-padded libCZI bitmap into a tight raster
    (`CziBitmapToBuffer`).
  - The Aperio `ImageDescription` texts written into each directory
    (`description_generators`): `encode_bg`, `pad_equals`, and the
    full-resolution, thumbnail, overview, label and macro descriptors.
- **`src/__main.cpp`**
  - The 24-bit BMP writer (`writeBMP`), with its little-endian helpers,
    headers and bottom-up padded rows.
  - The XML metadata scraper: `trim`, `findFirstTagValue`,
    `findMaxTagDouble` and `extractCziMetadataFromXml`, with the defaults of
    `CziMetadataDefaults`.

There is one module per concern:

- `Common` (common.dfy): bytes, `Option`, block offsets, ceiling division,
  the gathering of rows out of a strided buffer, and the `memcpy`/`memset`
  methods on arrays.
- `Reblock` (reblock.dfy): tiles, strips and re-striding.
- `Descriptor` (descriptor.dfy): the description texts.
- `Bmp` (bmp.dfy): the BMP writer.
- `XmlScrape` (xmlscrape.dfy): the XML scraper.

The code that works in place (the tile buffer, the row buffers, the loops of
the helpers) is written as methods over arrays and sequences. Each such method
is proved against a function that says what it produces, and the lemmas state
the source's promises about those functions:

- every pixel lands in the right tile at the right place;
- strips partition the raster;
- headers read back to their fields;
- descriptors split back into their fields;
- the scraper returns the maximum.

Integers are unbounded. The source's 32-bit arithmetic is written out where
it matters (`Bmp.Wrap32`, `Bmp.RowAddress32`, `bv32` in `encode_bg`). A C++
`double` is `XmlScrape.Double`: `NaN` or an exact real. `std::stod` is a
parameter `parse: string -> Option<Double>`, where `None` stands for a thrown
exception.

## Model

| member | source | states |
|---|---|---|
| Reblock.RasterIndex | src/main.cpp:41 | a raster holds `width*height*3` bytes, and sample `k` of pixel (x, y) is byte `(y*width+x)*3+k` |
| Reblock.VisibleCols | src/main.cpp:35-43 | the copied width `xMax - tx` is at most a tile wide and stays inside the raster |
| Reblock.Tile | src/main.cpp:38-47 | the tile holds `tileW*tileH*3` bytes, the product taken without the 32-bit wrap of line 30 (see Left out) |
| Reblock.TileAt | src/main.cpp:38-44 | byte `(row*tileW+col)*3+k` of a tile is the raster sample at (tx+col, ty+row), or 0 outside the raster (the cleared buffer) |
| Reblock.TileRowVisible | src/main.cpp:40-44 | a tile row is the visible part of the source row followed by zeros |
| Reblock.TileFromRows | src/main.cpp:40-44 | rows below the raster's last row stay zero, so the row loop ending at `yMax` yields the whole tile |
| Reblock.FillTile | src/main.cpp:38-44 | clearing the buffer and copying rows `ty..yMax` leaves exactly the tile in the buffer |
| Reblock.CopyTileRow | src/main.cpp:40-44 | one `memcpy` of the row loop adds the next tile row over the zeros |
| Reblock.WriteTiles | src/main.cpp:18-52 | the writes are the tiles in row-major order, `ceil(h/tileH)*ceil(w/tileW)` of them, each with full byte count `tileW*tileH*3`; the buffer length equals it only because the buffer size is taken without the 32-bit wrap of line 30 (see Left out) |
| Reblock.TileSizes | src/main.cpp:46-47 | every tile write has byte count `tileW*tileH*3`, edge tiles included |
| Reblock.TileCount | src/main.cpp:32-33 | the two loops visit `ceil(h/tileH)` bands of `ceil(w/tileW)` tiles |
| Reblock.RowOriginsLength | src/main.cpp:33 | the inner loop from `tx` makes `ceil((w-tx)/tileW)` steps |
| Reblock.RowOriginsAt | src/main.cpp:33 | step `i` of the inner loop is at column `tx + i*tileW`, inside the raster |
| Reblock.OriginsFromLength | src/main.cpp:32-33 | the nested loops visit `bands * columns` origins |
| Reblock.OriginsFromAt | src/main.cpp:32-33 | visit `q*cols+m` is at (m*tileW, ty+q*tileH), inside the raster |
| Reblock.TileOfGrid | src/main.cpp:32-49 | write `q*cols+m` is the tile at (m*tileW, q*tileH), with buffer length = byte count = `tileW*tileH*3` |
| Reblock.TilesInRowMajorOrder | src/main.cpp:32-49 | write `k` of `Tiles` (the helper's writes) is the tile at column `k % cols` and band `k / cols` |
| Reblock.PixelInTile | src/main.cpp:32-49 | every raster sample (x, y, k) appears in write `(y/tileH)*cols + x/tileW` at byte `((y%tileH)*tileW + x%tileW)*3+k` |
| Reblock.PixelInGrid | src/main.cpp:32-49 | the same, stated by grid cell and in-tile position |
| Reblock.StripAtShape | src/main.cpp:67-69 | `StripAt`, the strip at row `y`, has `min(rowsPerStrip, h-y)` rows, starts at byte `y*w*3` and holds `rows*w*3` bytes |
| Reblock.WriteStrip | src/main.cpp:67-72 | one loop pass produces the strip at row `y` |
| Reblock.StripShape | src/main.cpp:66-69 | strip `k` starts at row `k*rowsPerStrip`; every strip but the last is full, and the last has `h % rowsPerStrip` rows (or a full strip) |
| Reblock.StripsFromLength | src/main.cpp:66 | the loop from row `y` makes `ceil((h-y)/rowsPerStrip)` strips |
| Reblock.StripsFromAt | src/main.cpp:66-71 | strip `k` of the loop from `y` is the strip at row `y + k*rowsPerStrip` |
| Reblock.StripsFromCover | src/main.cpp:66-72 | the strips from row `y` concatenate to the raster bytes from row `y` on and cover `h-y` rows |
| Reblock.StripsPartitionRaster | src/main.cpp:66-72 | the strips (`Strips`, the loop from row 0) are `ceil(h/rowsPerStrip)` in number, their bytes concatenate to the whole raster, and their row counts sum to `h` |
| Reblock.WriteStrips | src/main.cpp:55-74 | the writes are the strips, and they partition the raster bytes and rows; `y` is unbounded, without the 32-bit wrap of line 66 (see Left out) |
| Reblock.Restrided | src/main.cpp:89-98 | the packed buffer holds `w*h*3` bytes |
| Reblock.RestridedAt | src/main.cpp:91-97 | packed sample (x, y, k) is source byte `y*stride + x*3 + k` |
| Reblock.RestridedTight | src/main.cpp:89-97 | with `stride == w*3` the packing is the identity on the first `w*h*3` bytes |
| Reblock.CopyRow | src/main.cpp:90-98 | one pass copies source row `y` to row `y` of the buffer and leaves the other bytes as they were |
| Reblock.RowCopied | src/main.cpp:91-97 | the `memcpy` of row `y` turns the buffer with `y` rows copied into the one with `y+1` |
| Reblock.CziBitmapToBuffer | src/main.cpp:76-104 | the buffer is the re-strided bitmap: a valid `w*h*3` raster, with out-parameters `w`, `h` and 3 |
| Common.CopyInto | src/main.cpp:43 | `memcpy` into an array: the target range holds the source, and everything else is unchanged |
| Common.ZeroRange | src/main.cpp:38 | `std::fill` with 0 over a range; over the whole array it leaves zeros |
| Descriptor.EncodeBg | src/main.cpp:259-267 | the packed colour is `R*65536 + G*256 + B`, at most 0xFFFFFF |
| Descriptor.EncodeDecodeBg | src/main.cpp:264-266 | each channel is recovered from the packed colour |
| Descriptor.DecodeEncodeBg | src/main.cpp:264-266 | every value up to 0xFFFFFF is the packing of its channels |
| Descriptor.WhiteBg | src/main.cpp:259-267 | white packs to 0xFFFFFF |
| Descriptor.PadEquals | src/main.cpp:269-273 | the result is as long as `s` or `padLength` characters, whichever is more, starts with `s` and continues with '=' only |
| Descriptor.PadEqualsIdempotent | src/main.cpp:269-273 | padding twice equals padding once |
| Descriptor.UnpadPadEquals | src/main.cpp:269-273 | removing trailing '=' undoes the padding of a text not ending in '=' |
| Descriptor.NatDigitsValue | src/main.cpp:293 | the decimal digits of `n` read back as `n` |
| Descriptor.DecimalRoundTrip | src/main.cpp:293-300 | an integer printed by `operator<<` parses back to itself, negative ones included |
| Descriptor.DecimalInjective | src/main.cpp:293-300 | two integers print alike exactly when they are equal |
| Descriptor.Decimal | src/main.cpp:293-300 | a printed integer is non-empty and holds no vertical bar, 'x' or '=' |
| Descriptor.DimsSplit | src/main.cpp:293 | `W x H` splits at the 'x' into the two numbers |
| Descriptor.DimsRoundTrip | src/main.cpp:382 | `W x H` parses back to (W, H) |
| Descriptor.SplitTerminated | src/main.cpp:297-301 | fields each followed by a vertical bar split back into the fields (and a final empty piece) |
| Descriptor.DescriptorFields | src/main.cpp:297-305 | padding and then removing it and splitting on a vertical bar gives the fields back |
| Descriptor.Fields | src/main.cpp:297-301 | the five `Key = value` fields, the first one after the geometry |
| Descriptor.FieldsNoBar | src/main.cpp:297-301 | no field holds a vertical bar unless the MPP text or the barcode does |
| Descriptor.IFD0Geometry | src/main.cpp:292-296 | the geometry starts with the library header and holds no vertical bar |
| Descriptor.DescriptionIFD0 | src/main.cpp:275-306 | the descriptor starts with the header and is as long as its bar-terminated fields or `pad_length`, whichever is more |
| Descriptor.IFD0Fields | src/main.cpp:289-305 | the full-resolution descriptor splits back into its geometry, Q, AppMag, MPP, BackgroundColor and Barcode fields |
| Descriptor.ThumbnailGeometry | src/main.cpp:325-327 | the thumbnail geometry starts with the header and holds no vertical bar |
| Descriptor.DescriptionThumbnail | src/main.cpp:308-337 | the descriptor starts with the header and is as long as its terminated fields or `pad_length`, whichever is more |
| Descriptor.ThumbnailFields | src/main.cpp:322-336 | the thumbnail descriptor splits back into its five fields |
| Descriptor.OverviewGeometry | src/main.cpp:357-362 | the overview geometry starts with the header and holds no vertical bar |
| Descriptor.DescriptionOverview | src/main.cpp:339-372 | the descriptor starts with the header and is as long as its terminated fields or `pad_length`, whichever is more |
| Descriptor.OverviewFields | src/main.cpp:354-371 | the overview descriptor splits back into its five fields |
| Descriptor.AssociatedField | src/main.cpp:380-382 | the label/macro text starts with the header and holds no vertical bar |
| Descriptor.AssociatedFieldSplit | src/main.cpp:380-382 | after the header, separator and kind comes exactly `W x H` |
| Descriptor.DescriptionLabel | src/main.cpp:374-387 | the label descriptor starts with the header and is one character longer than its field, or `pad_length` long if that is more |
| Descriptor.DescriptionMacro | src/main.cpp:389-403 | the macro descriptor starts with the header and is one character longer than its field, or `pad_length` long if that is more |
| Descriptor.SingleField | src/main.cpp:382-386 | a one-field descriptor splits back into that field |
| Descriptor.AssociatedRoundTrip | src/main.cpp:380-386 | a label or macro descriptor parses back to its width and height |
| Descriptor.LabelRoundTrip | src/main.cpp:374-387 | the label descriptor parses back to (label_w, label_h) |
| Descriptor.MacroRoundTrip | src/main.cpp:389-403 | the macro descriptor parses back to (macro_w, macro_h) |
| Descriptor.AssociatedMismatch | src/main.cpp:381-398 | a descriptor does not parse as another kind whose separator differs |
| Descriptor.LabelIsNotMacro | src/main.cpp:381-398 | the label descriptor (three newlines) never parses as a macro descriptor (two) |
| Bmp.RowSize | src/__main.cpp:46 | `rowSize`, `((width*3 + 3) / 4) * 4` taken in `uint32_t`, is a 32-bit value; `RowSizeBounds` gives its exact value when nothing wraps |
| Bmp.ImageSize | src/__main.cpp:47 | `imageSize = rowSize*height` taken in `uint32_t` is a 32-bit value; `SizesExact` gives it without wrap |
| Bmp.FileSize | src/__main.cpp:48 | `fileSize = 14 + 40 + imageSize` taken in `uint32_t` is a 32-bit value; `SizesExact` gives it without wrap |
| Bmp.LE16 | src/__main.cpp:56-59 | `writeLE16` stores two bytes, which `LE16RoundTrip` reads back as the value |
| Bmp.LE32 | src/__main.cpp:61-66 | `writeLE32` stores four bytes, which `LE32RoundTrip` reads back as the value |
| Bmp.RowSizeBounds | src/__main.cpp:44-46 | the padded row size is a multiple of 4 and exceeds `width*3` by less than 4 |
| Bmp.Padding | src/__main.cpp:104-108 | the zeroed tail of a row is under 4 bytes and completes `width*3` to the row size |
| Bmp.SizesExact | src/__main.cpp:46-48 | when nothing wraps, imageSize is `rowSize*height` and fileSize is `54 + imageSize` |
| Bmp.LE16RoundTrip | src/__main.cpp:56-59 | reading back the two bytes `writeLE16` stores gives the value |
| Bmp.LE32RoundTrip | src/__main.cpp:61-66 | reading back the four bytes `writeLE32` stores gives the value |
| Bmp.ReadLE32RoundTrip | src/__main.cpp:61-66 | every four bytes are the `writeLE32` encoding of the value they read as |
| Bmp.WriteLE16 | src/__main.cpp:56-59 | `writeLE16` stores the low and high byte at `dst` and touches nothing else |
| Bmp.WriteLE32 | src/__main.cpp:61-66 | `writeLE32` stores the four bytes, least significant first, and touches nothing else |
| Bmp.PutLE32 | src/__main.cpp:72-88 | a 32-bit field written into the zeroed header extends the written prefix |
| Bmp.PutLE16 | src/__main.cpp:81-82 | a 16-bit field written into the zeroed header extends the written prefix |
| Bmp.FileHeaderFields | src/__main.cpp:68-74 | the file header is "BM", fileSize, four zero bytes, and 54 |
| Bmp.FileHeader | src/__main.cpp:68-74 | the 14-byte header built in place is the file header |
| Bmp.InfoHeaderFields | src/__main.cpp:76-88 | the info header reads back as 40, width, height, 1 plane, 24 bits, no compression, imageSize, 2835, 2835, 0, 0 |
| Bmp.InfoHeader | src/__main.cpp:76-88 | the 40-byte header built in place is the info header |
| Bmp.BottomUp | src/__main.cpp:93-111 | after `n` passes of the row loop the output holds `n` padded rows of `rowSize` bytes; `BottomUpAt` says which source byte each one is |
| Bmp.BottomUpAt | src/__main.cpp:96-108 | byte `c` of output row `y` is source byte `c` of row `h-1-y` (through the stride), or 0 in the padding |
| Bmp.BottomUpStep | src/__main.cpp:96-110 | each pass appends the next source row from the bottom, padded |
| Bmp.FillRow | src/__main.cpp:101-108 | the row buffer holds the visible bytes followed by zeros |
| Bmp.PixelData | src/__main.cpp:93-111 | the pixel data are the source rows bottom-up, each padded to the row size |
| Bmp.PixelDataRows | src/__main.cpp:96-111 | byte `y*rowSize + c` of the pixel data is source byte `(h-1-y)*stride + c`, or 0 in the padding, and there are `h*rowSize` bytes |
| Bmp.BmpSize | src/__main.cpp:46-48 | the file is `54 + rowSize*height` bytes |
| Bmp.BmpLayout | src/__main.cpp:68-111 | the file is the file header, then the info header, then the bottom-up pixel data |
| Bmp.WriteBmp | src/__main.cpp:26-114 | nothing is written for a pixel type other than Bgr24; otherwise the file is the BMP of the bitmap |
| Bmp.RowAddress32 | src/__main.cpp:98-99 | the row address computed in 32 bits is below 2^32 |
| Bmp.RowAddressWraps | src/__main.cpp:98-99 | for height 65537 and stride 65536 the 32-bit row address of the first written row is 0, not 2^32 |
| XmlScrape.FindIsFirst | src/__main.cpp:156-160 | `find` returns the first match at or after the start, and none when there is no match |
| XmlScrape.Find | src/__main.cpp:156-160 | a match `std::string::find` reports lies at or after the start and inside the text; `FindIsFirst` says it is the first one |
| XmlScrape.FirstNotSpaceIsFirst | src/__main.cpp:142-143 | `find_first_not_of(" \t\r\n")` skips exactly the leading whitespace |
| XmlScrape.LastNotSpaceIsLast | src/__main.cpp:144 | `find_last_not_of` skips exactly the trailing whitespace |
| XmlScrape.Trim | src/__main.cpp:140-146 | the result is no longer than its input, and neither starts nor ends with whitespace |
| XmlScrape.TrimSlice | src/__main.cpp:140-146 | the result is a slice of the input with only whitespace cut on either side |
| XmlScrape.TrimEmpty | src/__main.cpp:142-143 | the result is empty exactly when the input is all whitespace |
| XmlScrape.TrimIdempotent | src/__main.cpp:140-146 | trimming twice equals trimming once |
| XmlScrape.TagSpan | src/__main.cpp:153-161 | the text between `<tag>` and `</tag>` is a span inside the document; `TagSpanBetween` locates it |
| XmlScrape.TagSpanBetween | src/__main.cpp:153-161 | the text lies between the first `<tag>` and the first `</tag>` after it, and there is none when either is missing |
| XmlScrape.FindFirstTagValue | src/__main.cpp:149-165 | `out` is kept when a tag is missing; the flag is true exactly when a span exists and its trimmed text is non-empty; when both tags exist, `out` becomes the trimmed text between the first `<tag>` and the next `</tag>` |
| XmlScrape.MaxParsedIsMax | src/__main.cpp:174-194 | `MaxParsed`, the running maximum over the texts, is NaN exactly when nothing parses; otherwise it is the start or a parsed value, and neither the start nor any parsed value exceeds it |
| XmlScrape.WalkStep | src/__main.cpp:176-192 | one pass folds the current pair's text and moves to the next `<tag>` after the `</tag>` |
| XmlScrape.WalkEnd | src/__main.cpp:179 | an opening tag without a closing tag ends the walk (`break`) |
| XmlScrape.Consider | src/__main.cpp:181-190 | one text is trimmed, parsed and kept when it is larger or the best is NaN; a parse failure is skipped |
| XmlScrape.WalkPair | src/__main.cpp:177-192 | one loop pass keeps the maximum over the remaining walk and advances past the current position |
| XmlScrape.FoldPair | src/__main.cpp:178-192 | the pass when a closing tag exists |
| XmlScrape.FindMaxTagDouble | src/__main.cpp:168-195 | the loop computes `MaxTag`, the maximum over all `<tag>` texts on the walk (`TagTexts`) |
| XmlScrape.MaxTagIsMax | src/__main.cpp:168-195 | `findMaxTagDouble` (`MaxTag`) is NaN exactly when no text parses; otherwise it is a parsed value and no parsed value exceeds it |
| XmlScrape.Section | src/__main.cpp:211-221 | there is no section without a start tag |
| XmlScrape.SectionBetween | src/__main.cpp:211-221 | a non-empty section runs from the first start tag through the first end tag after it |
| XmlScrape.Truncate | src/__main.cpp:297 | `static_cast<int>` truncates toward zero |
| XmlScrape.ScanBarcode | src/__main.cpp:208-229 | the barcode block replaces only the barcode, by `BarcodeOf`: the section's first non-blank `<Content>` |
| XmlScrape.ScanScaling | src/__main.cpp:231-268 | the scaling block replaces only the two resolutions, by `MppXOf` and `MppYOf` |
| XmlScrape.ScanMagnification | src/__main.cpp:270-283 | the magnification block replaces only the apparent magnification |
| XmlScrape.ScanPyramid | src/__main.cpp:285-299 | the last two blocks replace only minification and layer count |
| XmlScrape.ExtractCziMetadataFromXml | src/__main.cpp:197-302 | the blocks in sequence produce `Extract`, the metadata built field by field from `BarcodeOf`, `MppXOf`, `MppYOf`, `MagnificationOf`, `MinificationOf` and `LayersOf` |
| XmlScrape.NoTagsKeepsDefaults | src/__main.cpp:200-206 | a document with none of the tags yields the defaults unchanged, in particular the `CziMetadataDefaults` values (no barcode, NaN resolutions, magnification 21, minification 2, one layer) |
| XmlScrape.BarcodeFromSection | src/__main.cpp:208-229 | the barcode is the default or the first non-blank `<Content>` of the `<Barcodes>` section, and it is that content whenever the section holds one |
| XmlScrape.MppFromScaling | src/__main.cpp:231-268 | with no `<Scaling>` section both resolutions are the defaults; otherwise the X resolution is the default or the first `<Value>` read in metres, times 10^6, and the Y resolution is the default or, the same way, the first `<Value>` after the first `</Value>`; conversely, a first `<Value>` that is found and parses becomes the X resolution, and a second one that is found and parses becomes the Y resolution |
| XmlScrape.MagnificationIsMax | src/__main.cpp:270-283 | the magnification (`MagnificationOf`) is the larger of the two tag maxima, and the default when neither exists |
| XmlScrape.MinificationIsMax | src/__main.cpp:285-291 | the minification (`MinificationOf`) is the default when nothing parses, else the largest parsed `<MinificationFactor>` |
| XmlScrape.LayersFromMax | src/__main.cpp:293-299 | the layer count (`LayersOf`) is the default when nothing parses, else the truncation of a parsed value, with every parsed value below it plus one |

## Left out

- libtiff (`TIFFGetField`, `TIFFComputeTile`, `TIFFComputeStrip`, encoding), libCZI (locking, pixel-type queries), file streams and exceptions are not modelled. The tile size and rows per strip are parameters. A helper's output is the sequence of writes it would hand to libtiff. The BMP output is the byte sequence `ofs.write` would receive.
- Reblock.WriteTiles: requires `tileW > 0` and `tileH > 0`. With a zero tile size the source loops forever.
- Reblock.WriteStrips: requires `rowsPerStrip > 0` for the same reason.
- Reblock.WriteTiles: the 32-bit wrap of `tx + tileW` and `ty + tileH` near 2^32 is not modelled. Origins are unbounded, and `pixels.size() == width*height*3` is required (the source reads out of bounds otherwise).
- Reblock.WriteTiles: the tile buffer is sized with the unbounded product `tileW*tileH*3` (also in `Reblock.Tile`). At line 30 the source computes it in 32 bits, while `nBytes` on line 47 is a 64-bit product. For tiles of 2^32 bytes or more the buffer would be shorter than `nBytes` and the row copies would overrun it (undefined behaviour); the model does not cover that case, and its promise that the buffer length equals `nBytes` holds only for tiles under 2^32 bytes.
- Reblock.WriteStrips: the 32-bit wrap of `y += rowsPerStrip` (src/main.cpp:66) near 2^32 is not modelled; `y` is unbounded, so the model always ends after `ceil(h/rowsPerStrip)` strips. In the source, whenever the last strip starts within `rowsPerStrip` of 2^32 (height 4294967295 with 2 rows per strip), `y + rowsPerStrip` wraps to a value below the height and the loop rewrites the strips without end.
- Reblock.CziBitmapToBuffer: requires every source row to lie inside the locked bitmap (`RowsReadable`). `int` width, height and stride are naturals, so negative sizes are not modelled.
- Bmp.WriteBmp: requires `WidthFits(width)` (`width*3 + 3` does not wrap in 32 bits) and source rows inside the bitmap. Wider images, where `rowSize` wraps, are not modelled.
- Bmp.PixelData, Bmp.PixelDataRows, Bmp.BottomUp and Bmp.WriteBmp: the pixel data are built with unbounded row addresses (the corrected behaviour, see Findings). The 32-bit product of the source is modelled separately by `Bmp.RowAddress32`.
- Bmp.WriteBmp: the pixel type is reduced to `Bgr24` or any other value. The error message is not modelled.
- Descriptor.EncodeBg: takes channels already rounded to 0..255. `std::lround(x * 255.0)` on doubles and out-of-range channels are not modelled.
- Descriptor.DescriptionIFD0 and the thumbnail and overview descriptors take the MPP text as a parameter. Iostream floating-point formatting (default and `std::fixed << std::setprecision(6)`) is not modelled.
- Descriptor.PadEquals: the in-place `append` on a `std::string&` is a function returning the padded text.
- XmlScrape: `std::stod` is a parameter. Its acceptance of leading text and its exceptions are whatever that parameter says. The values are exact reals, so rounding of `* 1e6` and of comparisons is not modelled, and infinities are not modelled.
- XmlScrape.Truncate: models `static_cast<int>` for values in range. Out-of-range values, which are undefined behaviour in C++, get the mathematical truncation.
- XmlScrape.WalkPair: the `break` on a missing closing tag is modelled as ending the walk (`next == None`).
- `CziMetadata` string fields are sequences of characters. No encoding conversion (`ws2utf8`) is modelled.

## Findings

| source | as written | input that shows it | evidently intended | confidence | as-written member | corrected member |
|---|---|---|---|---|---|---|
| src/__main.cpp:98-99 | `srcY * srcStride` is computed in `uint32_t`, so the row address wraps modulo 2^32 | height 65537 and stride 65536: the first row written (srcY 65536) is read from offset 0 instead of 2^32 | the row address computed without wrap-around (`size_t`) | medium, not executed | Bmp.RowAddressWraps | Bmp.PixelDataRows |
