/** The bilevel quantizer: a 24-bit B,G,R raster packed into a 1-bit-per-pixel
    bitmap, rows padded to whole bytes, most significant bit first. */
module Bilevel {
  import opened Bits

  /** The locked 24-bit pixel buffer: `height` rows, each starting `stride`
      bytes after the previous one, each holding `width` pixels as B, G, R. */
  datatype Raster = Raster(width: nat, height: nat, stride: nat, data: seq<bv8>)
  {
    /** A row holds its 3 * width channel bytes, and the last row's are present. */
    predicate Valid()
    {
      3 * width <= stride &&
      (height > 0 ==> (height - 1) * stride + 3 * width <= |data|)
    }
  }

  /** The truncated luminance of a pixel, from its red, green and blue channels.
      The source computes it in floating point; here it is left uninterpreted. */
  type Luma = (bv8, bv8, bv8) -> int

  /** A pixel is black when its luminance is strictly below this value. */
  const Threshold: int := 128

  /** Bytes in one packed row: width / 8 rounded up. */
  function BytesPerRow(width: nat): (bpr: nat)
    ensures width <= 8 * bpr < width + 8
  {
    (width + 7) / 8
  }

  /** The byte of the packed bitmap that holds pixel (x, y). */
  function ByteIndex(bpr: nat, x: nat, y: nat): nat
  {
    y * bpr + x / 8
  }

  /** Is the bit of pixel (x, y) set in `bits`? (False outside `bits`.) */
  predicate PixelBit(bits: seq<bv8>, bpr: nat, x: nat, y: nat)
  {
    ByteIndex(bpr, x, y) < |bits| && BitSet(bits[ByteIndex(bpr, x, y)], x)
  }

  /** Every column of a padded row, image or padding, maps into that row's bytes. */
  lemma GridIndex(bpr: nat, h: nat, x: nat, y: nat)
    requires x < 8 * bpr && y < h
    ensures y * bpr <= ByteIndex(bpr, x, y) < (y + 1) * bpr <= h * bpr
  {
    assert (y + 1) * bpr == y * bpr + bpr;
    assert (y + 1) * bpr <= h * bpr by {
      MulMonotone(y + 1, h, bpr);
    }
  }

  lemma MulMonotone(a: nat, b: nat, c: nat)
    requires a <= b
    ensures a * c <= b * c
  {
  }

  lemma MulSucc(a: nat, b: nat)
    ensures a * (b + 1) == a * b + a
  {
  }

  lemma MulCommutes(a: nat, b: nat)
    ensures a * b == b * a
  {
  }

  /** Pixel (x, y) of the image lands inside row y's byte range. */
  lemma IndexInRow(width: nat, height: nat, x: nat, y: nat)
    requires x < width && y < height
    ensures y * BytesPerRow(width) <= ByteIndex(BytesPerRow(width), x, y) < (y + 1) * BytesPerRow(width)
    ensures ByteIndex(BytesPerRow(width), x, y) < BytesPerRow(width) * height
  {
    GridIndex(BytesPerRow(width), height, x, y);
  }

  /** Two in-grid pixels that share a byte are in the same row and the same
      group of eight columns. */
  lemma SameByte(bpr: nat, h: nat, x: nat, y: nat, x': nat, y': nat)
    requires x < 8 * bpr && y < h && x' < 8 * bpr && y' < h
    requires ByteIndex(bpr, x, y) == ByteIndex(bpr, x', y')
    ensures y == y' && x / 8 == x' / 8
  {
    GridIndex(bpr, h, x, y);
    GridIndex(bpr, h, x', y');
  }

  /** Byte `i` of a `bpr`-byte-per-row bitmap is byte `i % bpr` of row `i / bpr`. */
  lemma RowOfByte(i: nat, bpr: nat, h: nat)
    requires i < bpr * h
    ensures 0 < bpr && i / bpr < h && ByteIndex(bpr, 8 * (i % bpr), i / bpr) == i
  {
    if h <= i / bpr {
      MulMonotone(h, i / bpr, bpr);
      assert false;
    }
  }

  /** Two bitmaps of the same shape that agree on every bit of every padded
      row are equal. */
  lemma BitsDetermineBytes(s: seq<bv8>, t: seq<bv8>, bpr: nat, h: nat)
    requires |s| == |t| == bpr * h
    requires forall x: nat, y: nat :: x < 8 * bpr && y < h ==>
               (PixelBit(s, bpr, x, y) <==> PixelBit(t, bpr, x, y))
    ensures s == t
  {
    forall i | 0 <= i < |s|
      ensures s[i] == t[i]
    {
      RowOfByte(i, bpr, h);
      var y, j := i / bpr, i % bpr;
      forall k: nat | k < 8
        ensures BitSet(s[i], k) <==> BitSet(t[i], k)
      {
        var x := 8 * j + k;
        assert PixelBit(s, bpr, x, y) <==> PixelBit(t, bpr, x, y);
        BitOfByte(s, bpr, i, j, y, k);
        BitOfByte(t, bpr, i, j, y, k);
      }
      ByteExtensional(s[i], t[i]);
    }
  }

  /** Bit k of byte i is the bit of column 8j + k of row y, where byte i is
      byte j of row y. */
  lemma BitOfByte(bits: seq<bv8>, bpr: nat, i: nat, j: nat, y: nat, k: nat)
    requires i < |bits| && k < 8 && j < bpr && ByteIndex(bpr, 8 * j, y) == i
    ensures PixelBit(bits, bpr, 8 * j + k, y) <==> BitSet(bits[i], k)
  {
    assert ByteIndex(bpr, 8 * j + k, y) == i;
    assert Mask(8 * j + k) == Mask(k);
  }

  /** Row y's 3 * width channel bytes lie inside the buffer. */
  lemma RowFits(img: Raster, y: nat)
    requires img.Valid() && y < img.height
    ensures y * img.stride + 3 * img.width <= |img.data|
  {
    MulMonotone(y, img.height - 1, img.stride);
  }

  /** The blue, green and red channels of pixel (x, y), at offsets 0, 1 and 2 of
      its three bytes in row y. */
  function Blue(img: Raster, x: nat, y: nat): bv8
    requires img.Valid() && x < img.width && y < img.height
  {
    RowFits(img, y);
    img.data[y * img.stride + 3 * x]
  }

  function Green(img: Raster, x: nat, y: nat): bv8
    requires img.Valid() && x < img.width && y < img.height
  {
    RowFits(img, y);
    img.data[y * img.stride + 3 * x + 1]
  }

  function Red(img: Raster, x: nat, y: nat): bv8
    requires img.Valid() && x < img.width && y < img.height
  {
    RowFits(img, y);
    img.data[y * img.stride + 3 * x + 2]
  }

  /** The 3 * width channel bytes of row y, the part of the row that is read. */
  function RowBytes(img: Raster, y: nat): (row: seq<bv8>)
    requires img.Valid() && y < img.height
    ensures |row| == 3 * img.width
  {
    RowFits(img, y);
    img.data[y * img.stride .. y * img.stride + 3 * img.width]
  }

  /** Blue, green and red are bytes 3x, 3x + 1 and 3x + 2 of the row's read part. */
  lemma ChannelsInRow(img: Raster, x: nat, y: nat)
    requires img.Valid() && x < img.width && y < img.height
    ensures Blue(img, x, y) == RowBytes(img, y)[3 * x]
    ensures Green(img, x, y) == RowBytes(img, y)[3 * x + 1]
    ensures Red(img, x, y) == RowBytes(img, y)[3 * x + 2]
  {
    RowFits(img, y);
    var start := y * img.stride;
    var row := img.data[start .. start + 3 * img.width];
    assert row[3 * x] == img.data[start + 3 * x];
    assert row[3 * x + 1] == img.data[start + 3 * x + 1];
    assert row[3 * x + 2] == img.data[start + 3 * x + 2];
  }

  /** Pixel (x, y) is black when its luminance is below the threshold. */
  predicate IsBlack(img: Raster, luma: Luma, x: nat, y: nat)
    requires img.Valid() && x < img.width && y < img.height
  {
    luma(Red(img, x, y), Green(img, x, y), Blue(img, x, y)) < Threshold
  }

  /** The black/white classification of row y, one flag per image column. */
  function BlackRow(img: Raster, luma: Luma, y: nat): (row: seq<bool>)
    requires img.Valid() && y < img.height
    ensures |row| == img.width
  {
    seq(img.width, x requires 0 <= x < img.width => IsBlack(img, luma, x, y))
  }

  /** Bits k..7 of packed byte j of a row: the mask of every black column among
      8j+k .. 8j+7; columns past the end of the row contribute nothing. */
  function PackByte(row: seq<bool>, j: nat, k: nat): bv8
    requires k <= 8
    decreases 8 - k
  {
    if k == 8 then 0
    else
      var x := 8 * j + k;
      (if x < |row| && row[x] then Mask(x) else 0) | PackByte(row, j, k + 1)
  }

  /** Column 8 * (x / 8) + k is x exactly when k is x's position in its byte. */
  lemma ColumnInByte(x: nat, k: nat)
    requires k < 8
    ensures (8 * (x / 8) + k) % 8 == k
    ensures 8 * (x / 8) + k == x <==> k == x % 8
  {
  }

  /** The bit of column x in byte x / 8 is set exactly when x is a column of the
      row at or after position k in its byte and is black. */
  lemma {:induction false} PackByteBit(row: seq<bool>, x: nat, k: nat)
    requires k <= 8
    ensures BitSet(PackByte(row, x / 8, k), x) <==> k <= x % 8 && x < |row| && row[x]
    decreases 8 - k
  {
    if k == 8 {
      ZeroNoBit(x);
    } else {
      var j := x / 8;
      var x0 := 8 * j + k;
      var m: bv8 := if x0 < |row| && row[x0] then Mask(x0) else 0;
      var rest := PackByte(row, j, k + 1);
      assert PackByte(row, j, k) == m | rest;
      OrBit(m, rest, x);
      PackByteBit(row, x, k + 1);
      ContributedBit(row, m, x, k);
    }
  }

  /** The contribution of column 8 * (x / 8) + k to its byte holds the bit of
      column x exactly when that column is x and it is black. */
  lemma ContributedBit(row: seq<bool>, m: bv8, x: nat, k: nat)
    requires k < 8
    requires m == var x0 := 8 * (x / 8) + k; if x0 < |row| && row[x0] then Mask(x0) else 0
    ensures BitSet(m, x) <==> k == x % 8 && x < |row| && row[x]
  {
    var x0 := 8 * (x / 8) + k;
    ColumnInByte(x, k);
    if x0 < |row| && row[x0] {
      MaskBit(x0, x);
    } else {
      ZeroNoBit(x);
    }
  }

  /** One packed row: `bpr` bytes, column x in byte x / 8. */
  function PackRow(row: seq<bool>, bpr: nat): (bytes: seq<bv8>)
    ensures |bytes| == bpr
  {
    seq(bpr, j requires 0 <= j => PackByte(row, j, 0))
  }

  /** The packed rows of the raster, top to bottom. */
  function PackedRows(img: Raster, luma: Luma): (rows: seq<seq<bv8>>)
    requires img.Valid()
    ensures |rows| == img.height && Uniform(rows, BytesPerRow(img.width))
  {
    seq(img.height, y requires 0 <= y < img.height =>
      PackRow(BlackRow(img, luma, y), BytesPerRow(img.width)))
  }

  /** The packed bitmap the quantizer produces: every row of the raster packed,
      the rows laid one after the other. */
  function Packed(img: Raster, luma: Luma): (bits: seq<bv8>)
    requires img.Valid()
    ensures |bits| == BytesPerRow(img.width) * img.height
  {
    ConcatAt(PackedRows(img, luma), BytesPerRow(img.width), 0, 0);
    Concat(PackedRows(img, luma))
  }

  /** A 2 x 2 raster, B, G, R samples without row padding: black at (0, 0)
      and (1, 1), white elsewhere. */
  const Diagonal := Raster(2, 2, 6, [0, 0, 0, 255, 255, 255, 255, 255, 255, 0, 0, 0])

  /** For any luminance that puts pure black below the threshold and pure
      white above it, the diagonal raster packs to 0x80 for row 0 and 0x40 for
      row 1. */
  lemma DiagonalExample(luma: Luma)
    requires luma(0, 0, 0) < Threshold && luma(255, 255, 255) >= Threshold
    ensures Diagonal.Valid()
    ensures Packed(Diagonal, luma) == [0x80, 0x40]
  {
    DiagonalRows(luma);
    PackRowByte(BlackRow(Diagonal, luma, 0), 0);
    PackRowByte(BlackRow(Diagonal, luma, 1), 1);
    assert PackedRows(Diagonal, luma) == [[0x80], [0x40]];
    assert Concat([[0x80], [0x40]]) == [0x80] + [0x40];
  }

  /** The black/white classification of the diagonal raster's rows. */
  lemma DiagonalRows(luma: Luma)
    requires luma(0, 0, 0) < Threshold && luma(255, 255, 255) >= Threshold
    ensures Diagonal.Valid()
    ensures BlackRow(Diagonal, luma, 0) == [true, false]
    ensures BlackRow(Diagonal, luma, 1) == [false, true]
  {
    assert IsBlack(Diagonal, luma, 0, 0) && !IsBlack(Diagonal, luma, 1, 0);
    assert !IsBlack(Diagonal, luma, 0, 1) && IsBlack(Diagonal, luma, 1, 1);
  }

  /** A row of two columns with only column x black packs to one byte holding x's mask. */
  lemma PackRowByte(row: seq<bool>, x: nat)
    requires x < 2 && |row| == 2 && row[x] && !row[1 - x]
    ensures PackRow(row, 1) == [Mask(x)]
  {
    assert PackByte(row, 0, 2) == 0 by {
      assert PackByte(row, 0, 7) == 0;
      assert PackByte(row, 0, 6) == 0;
      assert PackByte(row, 0, 5) == 0;
      assert PackByte(row, 0, 4) == 0;
      assert PackByte(row, 0, 3) == 0;
    }
  }

  /** Rows laid one after the other. */
  function Concat(rows: seq<seq<bv8>>): seq<bv8>
  {
    if rows == [] then [] else Concat(rows[..|rows| - 1]) + rows[|rows| - 1]
  }

  /** Every row is `bpr` bytes long. */
  predicate Uniform(rows: seq<seq<bv8>>, bpr: nat)
  {
    forall y :: 0 <= y < |rows| ==> |rows[y]| == bpr
  }

  /** Concatenated `bpr`-byte rows take `bpr` bytes per row. */
  lemma {:induction false} ConcatLength(rows: seq<seq<bv8>>, bpr: nat)
    requires Uniform(rows, bpr)
    ensures |Concat(rows)| == bpr * |rows|
  {
    if rows != [] {
      var n := |rows| - 1;
      assert Uniform(rows[..n], bpr);
      ConcatLength(rows[..n], bpr);
      MulSucc(bpr, n);
    }
  }

  /** Concatenated `bpr`-byte rows: byte j of row y sits at y * bpr + j. */
  lemma {:induction false} ConcatAt(rows: seq<seq<bv8>>, bpr: nat, y: nat, j: nat)
    requires Uniform(rows, bpr)
    ensures |Concat(rows)| == bpr * |rows|
    ensures y < |rows| && j < bpr ==> y * bpr + j < bpr * |rows|
    ensures y < |rows| && j < bpr ==> Concat(rows)[y * bpr + j] == rows[y][j]
  {
    ConcatLength(rows, bpr);
    if y < |rows| && j < bpr {
      CellBelow(bpr, |rows|, y, j);
      var n := |rows| - 1;
      var front := rows[..n];
      assert Uniform(front, bpr);
      ConcatLength(front, bpr);
      var i := y * bpr + j;
      assert Concat(rows) == Concat(front) + rows[n];
      if y < n {
        ConcatAt(front, bpr, y, j);
        CellBelow(bpr, n, y, j);
        assert Concat(rows)[i] == Concat(front)[i];
      } else {
        MulCommutes(bpr, n);
        assert i == |Concat(front)| + j;
      }
    }
  }

  /** Byte j of row y comes before the end of row n - 1 when y < n. */
  lemma CellBelow(bpr: nat, n: nat, y: nat, j: nat)
    requires y < n && j < bpr
    ensures y * bpr + j < bpr * n
  {
    MulMonotone(y + 1, n, bpr);
    MulCommutes(n, bpr);
  }

  /** The bit of pixel (x, y) is set exactly when x is an image column and the
      pixel is black; the padding columns of every row stay 0. */
  lemma PackedBit(img: Raster, luma: Luma, x: nat, y: nat)
    requires img.Valid() && y < img.height && x < 8 * BytesPerRow(img.width)
    ensures PixelBit(Packed(img, luma), BytesPerRow(img.width), x, y) <==>
                x < img.width && IsBlack(img, luma, x, y)
  {
    var bpr := BytesPerRow(img.width);
    var i := ByteIndex(bpr, x, y);
    GridIndex(bpr, img.height, x, y);
    ConcatAt(PackedRows(img, luma), bpr, y, x / 8);
    PackByteBit(BlackRow(img, luma, y), x, 0);
  }

  /** A pixel whose luminance is the threshold or above leaves its bit 0, and
      the padding columns after the last image column of a row are 0. */
  lemma WhiteAndPaddingClear(img: Raster, luma: Luma, x: nat, y: nat)
    requires img.Valid() && y < img.height && x < 8 * BytesPerRow(img.width)
    requires x < img.width ==> !IsBlack(img, luma, x, y)
    ensures !PixelBit(Packed(img, luma), BytesPerRow(img.width), x, y)
  {
    PackedBit(img, luma, x, y);
  }

  /** Only the first 3 * width bytes of each row are read: rasters that differ
      only in the bytes past them pack to the same bitmap. */
  lemma RowPaddingIgnored(img: Raster, img': Raster, luma: Luma)
    requires img.Valid() && img'.Valid()
    requires img.width == img'.width && img.height == img'.height
    requires forall y: nat :: y < img.height ==> RowBytes(img, y) == RowBytes(img', y)
    ensures Packed(img, luma) == Packed(img', luma)
  {
    forall y: nat | y < img.height
      ensures PackedRows(img, luma)[y] == PackedRows(img', luma)[y]
    {
      SameRowSameClass(img, img', luma, y);
    }
    assert PackedRows(img, luma) == PackedRows(img', luma);
  }

  /** Rows whose read parts agree are classified alike. */
  lemma SameRowSameClass(img: Raster, img': Raster, luma: Luma, y: nat)
    requires img.Valid() && img'.Valid()
    requires img.width == img'.width && y < img.height && y < img'.height
    requires RowBytes(img, y) == RowBytes(img', y)
    ensures BlackRow(img, luma, y) == BlackRow(img', luma, y)
  {
    forall x: nat | x < img.width
      ensures IsBlack(img, luma, x, y) == IsBlack(img', luma, x, y)
    {
      ChannelsInRow(img, x, y);
      ChannelsInRow(img', x, y);
    }
  }

  /** `result[index] |= mask` for pixel (x, y). */
  function SetPixel(bits: seq<bv8>, bpr: nat, x: nat, y: nat): (r: seq<bv8>)
    requires ByteIndex(bpr, x, y) < |bits|
    ensures |r| == |bits|
  {
    bits[ByteIndex(bpr, x, y) := bits[ByteIndex(bpr, x, y)] | Mask(x)]
  }

  /** Setting pixel (x, y) sets its bit and changes no other bit: in particular
      it never clears a bit and never touches another row. */
  lemma SetPixelBit(bits: seq<bv8>, bpr: nat, h: nat, x: nat, y: nat, x': nat, y': nat)
    requires |bits| == bpr * h
    requires x < 8 * bpr && y < h && x' < 8 * bpr && y' < h
    ensures ByteIndex(bpr, x, y) < |bits|
    ensures PixelBit(SetPixel(bits, bpr, x, y), bpr, x', y') <==>
                PixelBit(bits, bpr, x', y') || (x' == x && y' == y)
  {
    GridIndex(bpr, h, x, y);
    GridIndex(bpr, h, x', y');
    var i, i' := ByteIndex(bpr, x, y), ByteIndex(bpr, x', y');
    if i == i' {
      SameByte(bpr, h, x, y, x', y');
      OrMaskBit(bits[i], x, x');
      assert x % 8 == x' % 8 <==> x == x';
    }
  }

  /** A pixel position of the padded grid. */
  datatype Cell = Cell(x: nat, y: nat)

  predicate InGrid(bpr: nat, h: nat, c: Cell)
  {
    c.x < 8 * bpr && c.y < h
  }

  /** The bitmap after setting the pixels of `cells`, in that order. */
  function Paint(bits: seq<bv8>, bpr: nat, h: nat, cells: seq<Cell>): (r: seq<bv8>)
    requires |bits| == bpr * h
    requires forall i :: 0 <= i < |cells| ==> InGrid(bpr, h, cells[i])
    ensures |r| == |bits|
    decreases |cells|
  {
    if cells == [] then bits
    else
      var c := cells[|cells| - 1];
      var before := Paint(bits, bpr, h, cells[..|cells| - 1]);
      assert InGrid(bpr, h, c);
      GridIndex(bpr, h, c.x, c.y);
      SetPixel(before, bpr, c.x, c.y)
  }

  /** After painting, a bit is set exactly when it was set before or its pixel
      is one of the painted cells. */
  lemma {:induction false} PaintBit(bits: seq<bv8>, bpr: nat, h: nat, cells: seq<Cell>, x: nat, y: nat)
    requires |bits| == bpr * h
    requires forall i :: 0 <= i < |cells| ==> InGrid(bpr, h, cells[i])
    requires x < 8 * bpr && y < h
    ensures PixelBit(Paint(bits, bpr, h, cells), bpr, x, y) <==>
                PixelBit(bits, bpr, x, y) || Cell(x, y) in cells
    decreases |cells|
  {
    if cells != [] {
      var c := cells[|cells| - 1];
      var front := cells[..|cells| - 1];
      PaintBit(bits, bpr, h, front, x, y);
      SetPixelBit(Paint(bits, bpr, h, front), bpr, h, c.x, c.y, x, y);
      assert cells == front + [c];
    }
  }

  /** Because `|=` only ever adds bits, the painted bitmap depends only on the
      set of painted pixels: not on their order, nor on repetitions. */
  lemma PaintOrderIndependent(bits: seq<bv8>, bpr: nat, h: nat, cells: seq<Cell>, cells': seq<Cell>)
    requires |bits| == bpr * h
    requires forall i :: 0 <= i < |cells| ==> InGrid(bpr, h, cells[i])
    requires forall i :: 0 <= i < |cells'| ==> InGrid(bpr, h, cells'[i])
    requires forall c :: c in cells <==> c in cells'
    ensures Paint(bits, bpr, h, cells) == Paint(bits, bpr, h, cells')
  {
    forall x: nat, y: nat | x < 8 * bpr && y < h
      ensures PixelBit(Paint(bits, bpr, h, cells), bpr, x, y) <==>
                  PixelBit(Paint(bits, bpr, h, cells'), bpr, x, y)
    {
      PaintBit(bits, bpr, h, cells, x, y);
      PaintBit(bits, bpr, h, cells', x, y);
    }
    BitsDetermineBytes(Paint(bits, bpr, h, cells), Paint(bits, bpr, h, cells'), bpr, h);
  }

  /** Starting from a zeroed array and setting the black pixels in any order
      whatsoever yields the packed bitmap. */
  lemma PaintBlackPixels(img: Raster, luma: Luma, cells: seq<Cell>)
    requires img.Valid()
    requires forall c :: c in cells <==>
               c.x < img.width && c.y < img.height && IsBlack(img, luma, c.x, c.y)
    ensures forall i :: 0 <= i < |cells| ==> InGrid(BytesPerRow(img.width), img.height, cells[i])
    ensures Paint(seq(BytesPerRow(img.width) * img.height, _ => 0), BytesPerRow(img.width), img.height, cells)
              == Packed(img, luma)
  {
    var bpr := BytesPerRow(img.width);
    var zeros: seq<bv8> := seq(bpr * img.height, _ => 0);
    assert forall i :: 0 <= i < |cells| ==> cells[i] in cells;
    var painted := Paint(zeros, bpr, img.height, cells);
    forall x: nat, y: nat | x < 8 * bpr && y < img.height
      ensures PixelBit(painted, bpr, x, y) <==> PixelBit(Packed(img, luma), bpr, x, y)
    {
      PaintedBlackBit(img, luma, cells, x, y);
    }
    BitsDetermineBytes(painted, Packed(img, luma), bpr, img.height);
  }

  /** One bit of PaintBlackPixels: painting the black cells onto zeros sets
      the bit of (x, y) exactly when the packed bitmap has it. */
  lemma PaintedBlackBit(img: Raster, luma: Luma, cells: seq<Cell>, x: nat, y: nat)
    requires img.Valid() && x < 8 * BytesPerRow(img.width) && y < img.height
    requires forall c :: c in cells <==>
               c.x < img.width && c.y < img.height && IsBlack(img, luma, c.x, c.y)
    requires forall i :: 0 <= i < |cells| ==> InGrid(BytesPerRow(img.width), img.height, cells[i])
    ensures PixelBit(Paint(seq(BytesPerRow(img.width) * img.height, _ => 0), BytesPerRow(img.width), img.height, cells),
                     BytesPerRow(img.width), x, y) <==>
            PixelBit(Packed(img, luma), BytesPerRow(img.width), x, y)
  {
    var bpr := BytesPerRow(img.width);
    var zeros: seq<bv8> := seq(bpr * img.height, _ => 0);
    assert !PixelBit(zeros, bpr, x, y) by {
      ZeroNoBit(x);
    }
    assert Cell(x, y) in cells <==> x < img.width && IsBlack(img, luma, x, y);
    PaintBit(zeros, bpr, img.height, cells, x, y);
    PackedBit(img, luma, x, y);
  }

  /** The bitmap holds exactly the black pixels scanned so far: every row
      above y, and the columns of row y left of x. */
  predicate ScannedUpTo(bits: seq<bv8>, img: Raster, luma: Luma, y: nat, x: nat)
    requires img.Valid()
  {
    forall x': nat, y': nat :: x' < 8 * BytesPerRow(img.width) && y' < img.height ==>
      (PixelBit(bits, BytesPerRow(img.width), x', y') <==>
         (y' < y || (y' == y && x' < x)) && x' < img.width && IsBlack(img, luma, x', y'))
  }

  /** Nothing is scanned in a zeroed bitmap. */
  lemma ScanStart(img: Raster, luma: Luma, bits: seq<bv8>)
    requires img.Valid() && bits == seq(BytesPerRow(img.width) * img.height, _ => 0)
    ensures ScannedUpTo(bits, img, luma, 0, 0)
  {
    forall x': nat, y': nat | x' < 8 * BytesPerRow(img.width) && y' < img.height
      ensures !PixelBit(bits, BytesPerRow(img.width), x', y')
    {
      ZeroNoBit(x');
    }
  }

  /** Scanning a black pixel sets its bit; scanning a white one changes nothing. */
  lemma ScanPixel(img: Raster, luma: Luma, before: seq<bv8>, after: seq<bv8>, x: nat, y: nat)
    requires img.Valid() && x < img.width && y < img.height
    requires |before| == BytesPerRow(img.width) * img.height
    requires ScannedUpTo(before, img, luma, y, x)
    requires ByteIndex(BytesPerRow(img.width), x, y) < |before|
    requires after == if IsBlack(img, luma, x, y) then SetPixel(before, BytesPerRow(img.width), x, y) else before
    ensures ScannedUpTo(after, img, luma, y, x + 1)
  {
    var bpr := BytesPerRow(img.width);
    forall x': nat, y': nat | x' < 8 * bpr && y' < img.height
      ensures PixelBit(after, bpr, x', y') <==>
                (y' < y || (y' == y && x' < x + 1)) && x' < img.width && IsBlack(img, luma, x', y')
    {
      if IsBlack(img, luma, x, y) {
        SetPixelBit(before, bpr, img.height, x, y, x', y');
      }
    }
  }

  /** Scanning every column of row y finishes the row. */
  lemma ScanRow(img: Raster, luma: Luma, bits: seq<bv8>, y: nat)
    requires img.Valid() && ScannedUpTo(bits, img, luma, y, img.width)
    ensures ScannedUpTo(bits, img, luma, y + 1, 0)
  {
  }

  /** Once every row is scanned, the bitmap is the packed bitmap. */
  lemma ScanDone(img: Raster, luma: Luma, bits: seq<bv8>)
    requires img.Valid() && |bits| == BytesPerRow(img.width) * img.height
    requires ScannedUpTo(bits, img, luma, img.height, 0)
    ensures bits == Packed(img, luma)
  {
    var bpr := BytesPerRow(img.width);
    forall x: nat, y: nat | x < 8 * bpr && y < img.height
      ensures PixelBit(bits, bpr, x, y) <==> PixelBit(Packed(img, luma), bpr, x, y)
    {
      PackedBit(img, luma, x, y);
    }
    BitsDetermineBytes(bits, Packed(img, luma), bpr, img.height);
  }

  /** The packing loop: a zeroed array of BytesPerRow(width) * height bytes,
      filled row by row by or-ing in the mask of each black pixel. */
  method ConvertTo1bppArray(img: Raster, luma: Luma) returns (result: array<bv8>)
    requires img.Valid()
    ensures result[..] == Packed(img, luma)
  {
    var width, height, stride := img.width, img.height, img.stride;
    var bytesPerRow := (width + 7) / 8;
    result := new bv8[bytesPerRow * height](_ => 0);
    ScanStart(img, luma, result[..]);

    for y := 0 to height
      invariant result.Length == bytesPerRow * height
      invariant ScannedUpTo(result[..], img, luma, y, 0)
    {
      RowFits(img, y);
      var pixelRow := img.data[y * stride .. y * stride + width * 3];
      assert pixelRow == RowBytes(img, y);
      PackRowInto(result, img, luma, y, pixelRow);
      ScanRow(img, luma, result[..], y);
    }
    ScanDone(img, luma, result[..]);
  }

  /** The inner loop of the packing: or the mask of every black pixel of row
      y, read from the row's copied channel bytes, into the bitmap. */
  method PackRowInto(result: array<bv8>, img: Raster, luma: Luma, y: nat, pixelRow: seq<bv8>)
    requires img.Valid() && y < img.height && pixelRow == RowBytes(img, y)
    requires result.Length == BytesPerRow(img.width) * img.height
    requires ScannedUpTo(result[..], img, luma, y, 0)
    modifies result
    ensures ScannedUpTo(result[..], img, luma, y, img.width)
  {
    var width, height := img.width, img.height;
    var bytesPerRow := (width + 7) / 8;
    for x := 0 to width
      invariant ScannedUpTo(result[..], img, luma, y, x)
    {
      var b := pixelRow[x * 3 + 0];
      var g := pixelRow[x * 3 + 1];
      var r := pixelRow[x * 3 + 2];
      var gray := luma(r, g, b);
      var isBlack := gray < Threshold;
      ChannelsInRow(img, x, y);

      IndexInRow(width, height, x, y);
      ghost var before := result[..];
      if isBlack {
        var index := y * bytesPerRow + x / 8;
        var mask: bv8 := (0x80 as bv8) >> (x % 8);
        MaskIsShift(x);
        result[index] := result[index] | mask;
      }
      ScanPixel(img, luma, before, result[..], x, y);
    }
  }
}
