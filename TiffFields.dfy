/** The directory fields the converter sets on the TIFF it writes (tag numbers
    and values as in TIFF 6.0), and what they say about the packed scanlines. */
module TiffFields {
  import opened Bits
  import opened Bilevel

  // Tag numbers (TIFF 6.0, section 8 and section 3).
  const ImageWidth: nat := 256
  const ImageLength: nat := 257
  const BitsPerSample: nat := 258
  const Compression: nat := 259
  const PhotometricInterpretation: nat := 262
  const SamplesPerPixel: nat := 277
  const RowsPerStrip: nat := 278
  const XResolution: nat := 282
  const YResolution: nat := 283
  const PlanarConfiguration: nat := 284
  const ResolutionUnit: nat := 296

  // Field values.
  const CompressionCcittT6: nat := 4
  const PhotometricWhiteIsZero: nat := 0
  const PhotometricBlackIsZero: nat := 1
  const PlanarContiguous: nat := 1
  const ResolutionInch: nat := 2
  const Dpi: nat := 200

  datatype Value = Number(n: nat) | Ratio(numerator: nat, denominator: nat)

  datatype Field = Field(tag: nat, value: Value)

  datatype Option<T> = None | Some(value: T)

  /** The fields in the order the converter sets them. */
  function ConverterFields(width: nat, height: nat): seq<Field>
  {
    [ Field(ImageWidth, Number(width)),
      Field(ImageLength, Number(height)),
      Field(BitsPerSample, Number(1)),
      Field(SamplesPerPixel, Number(1)),
      Field(RowsPerStrip, Number(1)),
      Field(PhotometricInterpretation, Number(PhotometricWhiteIsZero)),
      Field(Compression, Number(CompressionCcittT6)),
      Field(XResolution, Ratio(Dpi, 1)),
      Field(YResolution, Ratio(Dpi, 1)),
      Field(ResolutionUnit, Number(ResolutionInch)),
      Field(PlanarConfiguration, Number(PlanarContiguous)) ]
  }

  /** The value last set for `tag`, if any (a later SetField replaces an earlier one). */
  function Lookup(fields: seq<Field>, tag: nat): (v: Option<Value>)
    ensures v.Some? <==> exists i :: 0 <= i < |fields| && fields[i].tag == tag
    ensures v.Some? ==> exists i :: 0 <= i < |fields| && fields[i] == Field(tag, v.value)
  {
    if fields == [] then None
    else if fields[|fields| - 1].tag == tag then Some(fields[|fields| - 1].value)
    else
      var v := Lookup(fields[..|fields| - 1], tag);
      assert forall i :: 0 <= i < |fields| - 1 ==> fields[..|fields| - 1][i] == fields[i];
      v
  }

  /** Looking up the tag of a field that no later field sets again finds
      that field's value. */
  lemma {:induction false} LookupFinds(fields: seq<Field>, i: nat)
    requires i < |fields|
    requires forall k :: i < k < |fields| ==> fields[k].tag != fields[i].tag
    ensures Lookup(fields, fields[i].tag) == Some(fields[i].value)
  {
    if i < |fields| - 1 {
      var front := fields[..|fields| - 1];
      assert front[i] == fields[i];
      LookupFinds(front, i);
    }
  }

  function NumberOf(fields: seq<Field>, tag: nat): Option<nat>
  {
    match Lookup(fields, tag)
    case Some(Number(n)) => Some(n)
    case _ => None
  }

  /** Bytes in one uncompressed row as a reader computes it from the fields:
      ImageWidth * BitsPerSample * SamplesPerPixel bits, rounded up to bytes. */
  function RowBytes(fields: seq<Field>): Option<nat>
  {
    var w, b, s := NumberOf(fields, ImageWidth), NumberOf(fields, BitsPerSample), NumberOf(fields, SamplesPerPixel);
    if w.Some? && b.Some? && s.Some? then Some((w.value * b.value * s.value + 7) / 8) else None
  }

  /** Strips in the image: ImageLength / RowsPerStrip, rounded up. */
  function StripCount(fields: seq<Field>): Option<nat>
  {
    var h, r := NumberOf(fields, ImageLength), NumberOf(fields, RowsPerStrip);
    if h.Some? && r.Some? && r.value != 0 then Some((h.value + r.value - 1) / r.value) else None
  }

  /** The fields describe the packed bitmap: a reader expects rows of exactly
      BytesPerRow(width) bytes, one strip per row, so each scanline the
      converter writes is one whole strip. */
  lemma FieldsDescribePacking(width: nat, height: nat)
    ensures RowBytes(ConverterFields(width, height)) == Some(BytesPerRow(width))
    ensures StripCount(ConverterFields(width, height)) == Some(height)
  {
    ConverterNumbers(width, height);
    LayoutFromNumbers(ConverterFields(width, height), width, height);
  }

  /** One bit per sample, one sample per pixel and one row per strip make a
      row ceil(width / 8) bytes and give one strip per row. */
  lemma LayoutFromNumbers(fields: seq<Field>, width: nat, height: nat)
    requires NumberOf(fields, ImageWidth) == Some(width)
    requires NumberOf(fields, ImageLength) == Some(height)
    requires NumberOf(fields, BitsPerSample) == Some(1)
    requires NumberOf(fields, SamplesPerPixel) == Some(1)
    requires NumberOf(fields, RowsPerStrip) == Some(1)
    ensures RowBytes(fields) == Some(BytesPerRow(width))
    ensures StripCount(fields) == Some(height)
  {
    assert width * 1 * 1 == width;
  }

  /** The numeric fields a reader needs to lay out the strips. */
  lemma ConverterNumbers(width: nat, height: nat)
    ensures NumberOf(ConverterFields(width, height), ImageWidth) == Some(width)
    ensures NumberOf(ConverterFields(width, height), ImageLength) == Some(height)
    ensures NumberOf(ConverterFields(width, height), BitsPerSample) == Some(1)
    ensures NumberOf(ConverterFields(width, height), SamplesPerPixel) == Some(1)
    ensures NumberOf(ConverterFields(width, height), RowsPerStrip) == Some(1)
  {
    ConverterField(width, height, 0);
    ConverterField(width, height, 1);
    ConverterField(width, height, 2);
    ConverterField(width, height, 3);
    ConverterField(width, height, 4);
  }

  /** Each field the converter sets is the one a reader finds for its tag. */
  lemma ConverterField(width: nat, height: nat, i: nat)
    requires i < |ConverterFields(width, height)|
    ensures Lookup(ConverterFields(width, height), ConverterFields(width, height)[i].tag)
              == Some(ConverterFields(width, height)[i].value)
  {
    LookupFinds(ConverterFields(width, height), i);
  }

  datatype Shade = White | Black

  /** How a reader shows a 1-bit sample under a photometric interpretation:
      WhiteIsZero shows 0 as white, BlackIsZero shows 0 as black. */
  function Shown(photometric: nat, bit: bool): Shade
  {
    if photometric == PhotometricWhiteIsZero then (if bit then Black else White)
    else (if bit then White else Black)
  }

  /** Under the photometric value the converter sets, a reader shows each
      pixel of the packed bitmap black exactly when the pixel's luminance is
      below the threshold. */
  lemma ShownAsThresholded(img: Raster, luma: Luma, x: nat, y: nat)
    requires img.Valid() && x < img.width && y < img.height
    ensures NumberOf(ConverterFields(img.width, img.height), PhotometricInterpretation)
              == Some(PhotometricWhiteIsZero)
    ensures Shown(PhotometricWhiteIsZero, PixelBit(Packed(img, luma), BytesPerRow(img.width), x, y))
              == if IsBlack(img, luma, x, y) then Black else White
  {
    ConverterField(img.width, img.height, 5);
    PackedBit(img, luma, x, y);
  }
}
