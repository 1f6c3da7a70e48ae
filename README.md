# TiffUtility bilevel packing, modelled in Dafny

TiffUtility is a small WinForms tool. It loads an image and saves it as a
1-bit-per-pixel TIFF. This project models the part of it with real logic, from
`TiffUtility/TiffUtility/Form1.cs`:

- **`ConvertTo1bppArray`** thresholds a 24-bit B, G, R raster into a packed
  1-bpp bitmap.
  - The raster is read row by row from a strided buffer.
  - A pixel whose luminance is below 128 is black.
  - A black pixel sets one bit in a zeroed array of `((W + 7) / 8) * H` bytes.
  - The bit is mask `0x80 >> (x % 8)` of byte `y * bytesPerRow + x / 8`.
    Rows are therefore MSB-first and padded to a whole byte.
- **The scanline loop of `ConvertTo1bppTiffBytes`** cuts the packed array
  into `bytesPerRow`-byte rows. It hands them to the TIFF writer top to bottom
  and stops with an error at the first row the writer rejects.
- **The directory fields** the conversion sets: size, 1 bit per sample, one
  sample per pixel, one row per strip, WhiteIsZero, CCITT T.6, 200 dpi,
  contiguous planes. These are recorded as TIFF 6.0 tag numbers and values.

Modules:

- `Bits` (Bits.dfy): MSB-first bit masks on `bv8`.
- `Bilevel` (Bilevel.dfy): the raster, the reference definition `Packed` of
  the packed bitmap, its bit-level characterisation, and the imperative
  packing method `ConvertTo1bppArray`.
  - The method works on an `array<bv8>` with nested `for` loops.
  - Its postcondition ties the array to `Packed`.
- `TiffWrite` (TiffWrite.dfy): the scanline slicing and the writer loop
  (`WriteScanlines`), and the conversion driver `ConvertTo1bppTiff`.
- `TiffFields` (TiffFields.dfy): the directory fields and what a reader
  derives from them.

Modelling choices:

- **Luminance.** The source computes it as `(int)(r * 0.3 + g * 0.59 + b * 0.11)`
  in double arithmetic. Here it is a parameter `luma` (a function of r, g, b
  to `int`), and a pixel is black when `luma(r, g, b) < 128`. No integer
  formula is claimed for it.
- **Input image.** The locked bitmap is a `Raster`: width, height, stride and
  a flat byte buffer. `Valid()` asks that `stride >= 3 * width` and that the
  last row's `3 * width` bytes exist. This is what `LockBits` with
  `Format24bppRgb` guarantees.
- **Writer outcomes.** The answers of `Tiff.ClientOpen` and `WriteScanline`
  come from outside. They are parameters:
  - `tiffOpened: bool`;
  - `accepts(rowData, row)`, the writer's answer for each row.

## Model

| member | source | states |
|---|---|---|
| Bits.MaskIsShift | TiffUtility/TiffUtility/Form1.cs:165 | the table `Mask(x)` is `0x80 >> (x % 8)`: column x's bit, MSB first |
| Bits.MaskBit | TiffUtility/TiffUtility/Form1.cs:165 | the mask of column x holds the bit of column x' exactly when x and x' have the same position in their byte |
| Bits.OrBit | TiffUtility/TiffUtility/Form1.cs:166 | a bit of the bitwise or of a and b is set iff it is set in a or in b, so or-assignment never clears a bit |
| Bits.OrMaskBit | TiffUtility/TiffUtility/Form1.cs:166 | or-ing in column x's mask sets exactly that bit position and keeps every other bit |
| Bits.ByteExtensional | TiffUtility/TiffUtility/Form1.cs:165-166 | two bytes that agree on all eight mask positions are equal |
| Bilevel.BytesPerRow | TiffUtility/TiffUtility/Form1.cs:136 | `(width + 7) / 8` is the ceiling of width / 8: `width <= 8 * bpr < width + 8` |
| Bilevel.GridIndex | TiffUtility/TiffUtility/Form1.cs:164 | every column of a padded row maps into that row's byte range `[y * bpr, (y + 1) * bpr)`, inside the `bpr * h` bytes |
| Bilevel.IndexInRow | TiffUtility/TiffUtility/Form1.cs:164-165 | the byte of image pixel (x, y) lies in row y's range and inside the result array, so no pixel writes into another row |
| Bilevel.SameByte | TiffUtility/TiffUtility/Form1.cs:164 | two pixels sharing a byte are in the same row and the same group of eight columns |
| Bilevel.RowOfByte | TiffUtility/TiffUtility/Form1.cs:164 | every byte of the array is byte `i % bpr` of row `i / bpr`, the byte of column `8 * (i % bpr)` |
| Bilevel.BitsDetermineBytes | TiffUtility/TiffUtility/Form1.cs:164-166 | two arrays of `bpr * h` bytes that agree on every pixel bit of the padded grid are equal |
| Bilevel.RowFits | TiffUtility/TiffUtility/Form1.cs:149-151 | row y's `3 * width` bytes, starting at `y * stride`, lie inside the buffer |
| Bilevel.RowBytes | TiffUtility/TiffUtility/Form1.cs:149-151 | the bytes copied for row y are `3 * width` long |
| Bilevel.ChannelsInRow | TiffUtility/TiffUtility/Form1.cs:155-157 | blue, green and red of pixel x are bytes `3x`, `3x + 1` and `3x + 2` of the row's copied bytes |
| Bilevel.BlackRow | TiffUtility/TiffUtility/Form1.cs:153-160 | a row's black/white classification has one flag per image column |
| Bilevel.PackByteBit | TiffUtility/TiffUtility/Form1.cs:162-166 | within a packed byte, the bit of column x is set iff x is an image column, it is black, and it is among the columns already folded in |
| Bilevel.ContributedBit | TiffUtility/TiffUtility/Form1.cs:162-166 | one column's contribution to its byte carries column x's bit iff that column is x and is black |
| Bilevel.PackRow | TiffUtility/TiffUtility/Form1.cs:136 | a packed row is `bpr` bytes |
| Bilevel.PackedRows | TiffUtility/TiffUtility/Form1.cs:136-137 | the raster packs to `height` rows of exactly `bpr` bytes each |
| Bilevel.Packed | TiffUtility/TiffUtility/Form1.cs:136-137 | the packed bitmap has exactly `((W + 7) / 8) * H` bytes |
| Bilevel.ConcatLength | TiffUtility/TiffUtility/Form1.cs:137 | rows of `bpr` bytes laid end to end take `bpr` bytes per row |
| Bilevel.ConcatAt | TiffUtility/TiffUtility/Form1.cs:164 | byte j of row y of the laid-out rows sits at `y * bpr + j` |
| Bilevel.CellBelow | TiffUtility/TiffUtility/Form1.cs:164 | byte j of row y < n lies before the end of the first n rows |
| Bilevel.PackedBit | TiffUtility/TiffUtility/Form1.cs:159-166 | the bit of pixel (x, y) is set iff x < width and the pixel is black; a pixel with luminance 128 or more, and every padding column, leaves its bit 0 |
| Bilevel.WhiteAndPaddingClear | TiffUtility/TiffUtility/Form1.cs:137-167 | padding bits past column W - 1 and the bits of white pixels are 0 |
| Bilevel.RowPaddingIgnored | TiffUtility/TiffUtility/Form1.cs:149-157 | only the first `3 * W` bytes of each row are read: rasters that agree on them pack identically, whatever the stride padding holds |
| Bilevel.SameRowSameClass | TiffUtility/TiffUtility/Form1.cs:149-160 | rasters that agree on row y's read bytes classify row y identically |
| Bilevel.SetPixelBit | TiffUtility/TiffUtility/Form1.cs:164-166 | or-ing the mask into `result[index]` sets pixel (x, y)'s bit and changes no other bit of the grid |
| Bilevel.SetPixel | TiffUtility/TiffUtility/Form1.cs:166 | setting one pixel keeps the bitmap's length |
| Bilevel.Paint | TiffUtility/TiffUtility/Form1.cs:162-166 | setting a sequence of in-grid pixels keeps the bitmap's length |
| Bilevel.PaintBit | TiffUtility/TiffUtility/Form1.cs:166 | after setting a sequence of pixels, a bit is set iff it was set before or its pixel is in the sequence |
| Bilevel.PaintOrderIndependent | TiffUtility/TiffUtility/Form1.cs:166 | because or-assignment only adds bits, the result depends only on the set of pixels set, not on their order or on repeats |
| Bilevel.PaintBlackPixels | TiffUtility/TiffUtility/Form1.cs:137-166 | setting the black pixels on a zeroed array, in any order, gives the packed bitmap |
| Bilevel.PaintedBlackBit | TiffUtility/TiffUtility/Form1.cs:137-166 | the same, one bit at a time |
| Bilevel.DiagonalExample | TiffUtility/TiffUtility/Form1.cs:132-178 | a 2 x 2 raster, black at (0, 0) and (1, 1), packs to row bytes `0x80` and `0x40` |
| Bilevel.DiagonalRows | TiffUtility/TiffUtility/Form1.cs:153-160 | the example's rows classify as [black, white] and [white, black] |
| Bilevel.PackRowByte | TiffUtility/TiffUtility/Form1.cs:162-166 | a two-column row with one black column x packs to the single byte `Mask(x)` |
| Bilevel.ScanStart | TiffUtility/TiffUtility/Form1.cs:137 | the freshly allocated zeroed array holds no pixel yet |
| Bilevel.ScanPixel | TiffUtility/TiffUtility/Form1.cs:153-167 | visiting pixel (x, y) extends "holds exactly the black pixels seen so far" by that pixel, black or white |
| Bilevel.ScanRow | TiffUtility/TiffUtility/Form1.cs:147-169 | finishing row y's columns finishes row y |
| Bilevel.ScanDone | TiffUtility/TiffUtility/Form1.cs:147-177 | once every row is visited, the array is the packed bitmap |
| Bilevel.PackRowInto | TiffUtility/TiffUtility/Form1.cs:153-168 | the inner loop over row y's columns leaves the array holding exactly the black pixels of rows 0..y |
| Bilevel.ConvertTo1bppArray | TiffUtility/TiffUtility/Form1.cs:132-178 | the returned array is exactly `Packed(img, luma)`, with its length, bit layout, thresholding and padding properties as above |
| TiffWrite.Scanline | TiffUtility/TiffUtility/Form1.cs:119-120 | row r's scanline is `bpr` bytes |
| TiffWrite.Scanlines | TiffUtility/TiffUtility/Form1.cs:117-120 | the first n scanlines are n rows of `bpr` bytes |
| TiffWrite.ScanlinesPrefix | TiffUtility/TiffUtility/Form1.cs:117-120 | the first m of the first n scanlines are the first m scanlines |
| TiffWrite.AllScanlines | TiffUtility/TiffUtility/Form1.cs:119-120 | scanline r in the sequence of all rows is the slice `imageData[r * bpr .. r * bpr + bpr]` |
| TiffWrite.RowEndFits | TiffUtility/TiffUtility/Form1.cs:120 | the copy of row r < n ends inside the n rows' bytes |
| TiffWrite.ConcatScanlines | TiffUtility/TiffUtility/Form1.cs:116-120 | laying the emitted rows end to end reproduces the packed array's first `bpr * n` bytes |
| TiffWrite.ScanlineOfConcat | TiffUtility/TiffUtility/Form1.cs:119-120 | slicing row r out of laid-out `bpr`-byte rows gives row r back |
| TiffWrite.PackedScanline | TiffUtility/TiffUtility/Form1.cs:117-120 | scanline r of the packed array is row r of the raster packed on its own |
| TiffWrite.PackedScanlines | TiffUtility/TiffUtility/Form1.cs:117-120 | the first n scanlines of the packed array are the first n packed rows |
| TiffWrite.ScanlineBit | TiffUtility/TiffUtility/Form1.cs:116-120 | bit x of scanline r is set iff x < width and pixel (x, r) is black; its padding bits are 0 |
| TiffWrite.CopyRow | TiffUtility/TiffUtility/Form1.cs:119-120 | the fresh `rowData` buffer holds `src[offset .. offset + count]` |
| TiffWrite.WriteScanlines | TiffUtility/TiffUtility/Form1.cs:116-123 | the rows handed to the writer are a prefix of the scanlines, in order: all of them if every write succeeded, otherwise up to and including the first rejected row, with no later row written |
| TiffWrite.ConvertTo1bppTiff | TiffUtility/TiffUtility/Form1.cs:81-123 | fails with CouldNotOpen if the TIFF does not open. Otherwise it succeeds iff the writer accepts every packed row; the rows written are then the packed rows, and laid end to end they are the packed bitmap. On failure it names the first rejected row and returns no data |
| TiffFields.Lookup | TiffUtility/TiffUtility/Form1.cs:95-114 | a tag has a value iff some field sets it, and the value is one that was set for it |
| TiffFields.LookupFinds | TiffUtility/TiffUtility/Form1.cs:95-114 | a field whose tag is not set again later is the value found for its tag |
| TiffFields.ConverterField | TiffUtility/TiffUtility/Form1.cs:95-114 | each field the conversion sets is the value a reader finds for its tag |
| TiffFields.ConverterNumbers | TiffUtility/TiffUtility/Form1.cs:95-101 | a reader finds ImageWidth = W, ImageLength = H, BitsPerSample = 1, SamplesPerPixel = 1 and RowsPerStrip = 1 |
| TiffFields.LayoutFromNumbers | TiffUtility/TiffUtility/Form1.cs:97-101 | with 1 bit per sample, 1 sample per pixel and 1 row per strip, a reader's row size is `(W + 7) / 8` and there is one strip per row |
| TiffFields.FieldsDescribePacking | TiffUtility/TiffUtility/Form1.cs:95-101 | the fields the conversion sets make a reader expect exactly `BytesPerRow(W)`-byte rows, one strip each, matching the scanlines written |
| TiffFields.ShownAsThresholded | TiffUtility/TiffUtility/Form1.cs:104 | under the WhiteIsZero photometric value it sets, a reader shows pixel (x, y) black iff its luminance is below 128 |

## Left out

- GUI and file I/O: `Form1()`, `BtnLoadImage_Click`, `BtnSaveTiff_Click`
  (`Form1.cs:21-78`), the dialogs, message boxes and `File.WriteAllBytes`.
- Image decoding and pixel locking: `Image.FromFile`, `new Bitmap(img)`,
  `LockBits`/`UnlockBits` and `Marshal.Copy`. These are replaced by the
  `Raster` value and its `Valid()` condition.
- The luminance formula: it is double arithmetic with truncation and is kept
  abstract as the `luma` parameter. Only its comparison with 128 is modelled.
- Inside LibTiff.Net, not visible here:
  - the TIFF container bytes: header, IFD, strip offsets and byte counts,
    `WriteDirectory` and the bytes returned by `ms.ToArray()`;
  - the CCITT Group 4 (ITU-T T.6) codec applied by `WriteScanline`.

  `ConvertTo1bppTiff` returns the scanlines the writer accepted instead of
  the TIFF file. `TiffFields` records the field values but not their encoding.
- `InMemoryTiffStream` (`Form1.cs:182-213`): a pass-through adapter over
  `System.IO.Stream`.
- Bilevel.ConvertTo1bppArray: does not state that the returned array is
  freshly allocated.
- Bilevel.ConvertTo1bppArray: does not model 32-bit overflow of `width + 7`,
  `width * 3`, `y * stride` or `bytesPerRow * height`. Integers here are
  unbounded.
- TiffWrite.WriteScanlines: does not model 32-bit overflow of
  `row * bytesPerRow`. A bottom-up bitmap (negative stride) is also not
  modelled; `Raster` has a non-negative stride.
- Exceptions are modelled as a `Result` value. The disposal of the `Tiff`
  and `MemoryStream` objects on the error path is not modelled.

## Notes

A 2 x 2 raster with black pixels at (0, 0) and (1, 1) packs to `0x80` for
row 0 and `0x40` for row 1. Column 1 is mask `0x80 >> 1`. This follows from
`Form1.cs:164-166` and is proved in `Bilevel.DiagonalExample`.
