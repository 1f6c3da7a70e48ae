/** The conversion driver: pack the raster, then hand the packed bitmap to the
    TIFF writer one scanline at a time, top to bottom, stopping at the first
    scanline the writer rejects. */
module TiffWrite {
  import opened Bits
  import opened Bilevel

  /** Row `row` of a bitmap with `bpr` bytes per row. */
  function Scanline(bits: seq<bv8>, bpr: nat, row: nat): (line: seq<bv8>)
    requires row * bpr + bpr <= |bits|
    ensures |line| == bpr
  {
    bits[row * bpr .. row * bpr + bpr]
  }

  /** Rows 0 .. n - 1, in order. */
  function Scanlines(bits: seq<bv8>, bpr: nat, n: nat): (lines: seq<seq<bv8>>)
    requires bpr * n <= |bits|
    ensures |lines| == n && Uniform(lines, bpr)
  {
    if n == 0 then []
    else
      RowEndFits(bpr, n, n - 1);
      MulMonotone(n - 1, n, bpr);
      MulCommutes(bpr, n - 1);
      MulCommutes(bpr, n);
      Scanlines(bits, bpr, n - 1) + [Scanline(bits, bpr, n - 1)]
  }

  /** The first m of n scanlines are the first m scanlines. */
  lemma {:induction false} ScanlinesPrefix(bits: seq<bv8>, bpr: nat, m: nat, n: nat)
    requires m <= n && bpr * n <= |bits|
    ensures bpr * m <= |bits|
    ensures Scanlines(bits, bpr, m) == Scanlines(bits, bpr, n)[..m]
    decreases n - m
  {
    MulMonotone(m, n, bpr);
    MulCommutes(bpr, m);
    MulCommutes(bpr, n);
    if m < n {
      ScanlinesPrefix(bits, bpr, m, n - 1);
      MulMonotone(n - 1, n, bpr);
      MulCommutes(bpr, n - 1);
      assert Scanlines(bits, bpr, n)[..n - 1] == Scanlines(bits, bpr, n - 1);
    }
  }

  /** Row r of n ends inside the n rows' bytes. */
  lemma RowEndFits(bpr: nat, n: nat, r: nat)
    requires r < n
    ensures r * bpr + bpr <= bpr * n
  {
    MulMonotone(r + 1, n, bpr);
    MulCommutes(n, bpr);
  }

  /** Laying the first n scanlines back to back gives back the first n rows'
      bytes: slicing loses and reorders nothing. */
  lemma {:induction false} ConcatScanlines(bits: seq<bv8>, bpr: nat, n: nat)
    requires bpr * n <= |bits|
    ensures Concat(Scanlines(bits, bpr, n)) == bits[..bpr * n]
  {
    if n > 0 {
      var lines := Scanlines(bits, bpr, n);
      RowEndFits(bpr, n, n - 1);
      MulMonotone(n - 1, n, bpr);
      MulCommutes(bpr, n - 1);
      ConcatScanlines(bits, bpr, n - 1);
      assert lines[..n - 1] == Scanlines(bits, bpr, n - 1);
      assert bits[..bpr * n] == bits[..bpr * (n - 1)] + Scanline(bits, bpr, n - 1);
    }
  }

  /** Slicing concatenated `bpr`-byte rows gives each row back. */
  lemma ScanlineOfConcat(rows: seq<seq<bv8>>, bpr: nat, r: nat)
    requires Uniform(rows, bpr) && r < |rows|
    ensures r * bpr + bpr <= |Concat(rows)|
    ensures Scanline(Concat(rows), bpr, r) == rows[r]
  {
    ConcatAt(rows, bpr, r, 0);
    RowEndFits(bpr, |rows|, r);
    forall j | 0 <= j < bpr
      ensures Scanline(Concat(rows), bpr, r)[j] == rows[r][j]
    {
      ConcatAt(rows, bpr, r, j);
    }
  }

  /** Scanline r of the packed bitmap is row r of the raster packed on its own:
      no pixel of another row reaches it. */
  lemma PackedScanline(img: Raster, luma: Luma, r: nat)
    requires img.Valid() && r < img.height
    ensures r * BytesPerRow(img.width) + BytesPerRow(img.width) <= |Packed(img, luma)|
    ensures Scanline(Packed(img, luma), BytesPerRow(img.width), r) == PackedRows(img, luma)[r]
  {
    ScanlineOfConcat(PackedRows(img, luma), BytesPerRow(img.width), r);
  }

  /** Slicing the packed bitmap into its first n scanlines gives the first n
      packed rows of the raster. */
  lemma {:induction false} PackedScanlines(img: Raster, luma: Luma, n: nat)
    requires img.Valid() && n <= img.height
    ensures BytesPerRow(img.width) * n <= |Packed(img, luma)|
    ensures Scanlines(Packed(img, luma), BytesPerRow(img.width), n) == PackedRows(img, luma)[..n]
  {
    var bpr := BytesPerRow(img.width);
    MulMonotone(n, img.height, bpr);
    MulCommutes(bpr, n);
    MulCommutes(bpr, img.height);
    if n > 0 {
      PackedScanlines(img, luma, n - 1);
      PackedScanline(img, luma, n - 1);
      assert PackedRows(img, luma)[..n] == PackedRows(img, luma)[..n - 1] + [PackedRows(img, luma)[n - 1]];
    }
  }

  /** Column x of scanline r is set exactly when x is an image column whose
      pixel in row r is black; its padding columns are 0. */
  lemma ScanlineBit(img: Raster, luma: Luma, r: nat, x: nat)
    requires img.Valid() && r < img.height && x < 8 * BytesPerRow(img.width)
    ensures r * BytesPerRow(img.width) + BytesPerRow(img.width) <= |Packed(img, luma)|
    ensures BitSet(Scanline(Packed(img, luma), BytesPerRow(img.width), r)[x / 8], x) <==>
              x < img.width && IsBlack(img, luma, x, r)
  {
    PackedScanline(img, luma, r);
    PackByteBit(BlackRow(img, luma, r), x, 0);
  }

  /** How the scanline loop ended: every row written, or the writer rejected
      row `row`. */
  datatype Outcome = Completed | Rejected(row: nat)

  /** `Buffer.BlockCopy` of `count` bytes from `offset` into a new buffer. */
  method CopyRow(src: array<bv8>, offset: nat, count: nat) returns (dst: array<bv8>)
    requires offset + count <= src.Length
    ensures fresh(dst) && dst[..] == src[offset .. offset + count]
  {
    dst := new bv8[count];
    forall j | 0 <= j < count {
      dst[j] := src[offset + j];
    }
  }

  /** The scanline loop. `accepts(rowData, row)` stands for the writer's answer
      to `WriteScanline(rowData, row)`. Returns the buffers handed to the writer,
      in call order: a prefix of the bitmap's scanlines, all of them when every
      row was accepted, up to and including the first rejected row otherwise. */
  method WriteScanlines(imageData: array<bv8>, width: nat, height: nat,
                        accepts: (seq<bv8>, nat) -> bool)
    returns (handed: seq<seq<bv8>>, outcome: Outcome)
    requires BytesPerRow(width) * height <= imageData.Length
    ensures |handed| <= height
    ensures handed == Scanlines(imageData[..], BytesPerRow(width), height)[..|handed|]
    ensures outcome.Completed? ==>
              |handed| == height && forall r :: 0 <= r < height ==> accepts(handed[r], r)
    ensures outcome.Rejected? ==>
              |handed| == outcome.row + 1 &&
              (forall r :: 0 <= r < outcome.row ==> accepts(handed[r], r)) &&
              !accepts(handed[outcome.row], outcome.row)
  {
    var bytesPerRow := (width + 7) / 8;
    ghost var bits := imageData[..];
    ghost var all := Scanlines(bits, bytesPerRow, height);
    handed := [];
    for row := 0 to height
      invariant imageData[..] == bits
      invariant handed == all[..row]
      invariant forall r :: 0 <= r < row ==> accepts(handed[r], r)
    {
      RowEndFits(bytesPerRow, height, row);
      var rowData := CopyRow(imageData, row * bytesPerRow, bytesPerRow);
      var line := rowData[..];
      AllScanlines(bits, bytesPerRow, height, row);
      assert all[..row + 1] == handed + [line];
      handed := handed + [line];
      if !accepts(line, row) {
        outcome := Rejected(row);
        return;
      }
    }
    outcome := Completed;
  }

  /** Scanline r of all n is the slice of row r. */
  lemma AllScanlines(bits: seq<bv8>, bpr: nat, n: nat, r: nat)
    requires r < n && bpr * n <= |bits|
    ensures r * bpr + bpr <= |bits|
    ensures Scanlines(bits, bpr, n)[r] == Scanline(bits, bpr, r)
  {
    RowEndFits(bpr, n, r);
    MulSucc(bpr, r);
    MulCommutes(bpr, r);
    ScanlinesPrefix(bits, bpr, r + 1, n);
  }

  /** Why a conversion fails: the in-memory TIFF could not be opened, or the
      writer rejected a scanline. */
  datatype ConvertError = CouldNotOpen | ScanlineFailed(row: nat)

  datatype Result<T> = Success(value: T) | Failure(error: ConvertError)

  /** The conversion: the raster is packed, then (if the in-memory TIFF opened)
      its scanlines are written top to bottom. On success the result is the
      scanlines the writer accepted; on failure no data is returned. */
  method ConvertTo1bppTiff(img: Raster, luma: Luma, tiffOpened: bool, accepts: (seq<bv8>, nat) -> bool)
    returns (result: Result<seq<seq<bv8>>>)
    requires img.Valid()
    ensures !tiffOpened ==> result == Failure(CouldNotOpen)
    ensures result.Success? <==>
              tiffOpened && forall r :: 0 <= r < img.height ==> accepts(PackedRows(img, luma)[r], r)
    ensures result.Success? ==>
              result.value == PackedRows(img, luma) &&
              Concat(result.value) == Packed(img, luma)
    ensures result.Failure? && tiffOpened ==>
              result.error.ScanlineFailed? && result.error.row < img.height &&
              !accepts(PackedRows(img, luma)[result.error.row], result.error.row) &&
              forall r :: 0 <= r < result.error.row ==> accepts(PackedRows(img, luma)[r], r)
  {
    var imageData := ConvertTo1bppArray(img, luma);
    if !tiffOpened {
      return Failure(CouldNotOpen);
    }
    var handed, outcome := WriteScanlines(imageData, img.width, img.height, accepts);
    PackedScanlines(img, luma, img.height);
    assert PackedRows(img, luma)[..img.height] == PackedRows(img, luma);
    match outcome
    case Completed =>
      result := Success(handed);
    case Rejected(row) =>
      result := Failure(ScanlineFailed(row));
  }
}
