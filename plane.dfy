/**
 * Image formats, the format-to-plane table of Image.getFormat, and the
 * layout promises of Image.Plane: strides and how far a plane's buffer
 * must reach.
 */
module Planes {
  import opened Graphics

  /** The android.graphics.ImageFormat values the table names, and every other one. */
  datatype Format = Jpeg | Yuv420888 | RawSensor | Other(code: int32)

  /** The format has a row in the plane table. */
  predicate Tabulated(f: Format)
  {
    !f.Other?
  }

  /** JPEG data is compressed: it has no pixel grid. */
  predicate Compressed(f: Format)
  {
    f == Jpeg
  }

  /**
   * The plane-count column of the table: every tabulated format has at
   * least one plane, and YUV_420_888 alone has three (luminance, Cb, Cr).
   */
  function PlaneCount(f: Format): (n: nat)
    requires Tabulated(f)
    ensures n >= 1
    ensures n == 3 <==> f == Yuv420888
    ensures n == 1 <==> f == Jpeg || f == RawSensor
  {
    match f
    case Jpeg => 1
    case Yuv420888 => 3
    case RawSensor => 1
  }

  /** Formats whose sample size the table gives: 8 bits for YUV_420_888, 16 bits for RAW_SENSOR. */
  predicate KnownSampleSize(f: Format)
  {
    f == Yuv420888 || f == RawSensor
  }

  function SampleBytes(f: Format): nat
    requires KnownSampleSize(f)
  {
    if f == Yuv420888 then 1 else 2
  }

  /**
   * Width or height of plane `index` of an image whose full width or height
   * is `full`: the chroma planes of YUV_420_888 have half of it.
   */
  function PlaneDimension(f: Format, index: nat, full: int): (d: int)
    ensures f == Yuv420888 && index > 0 && full >= 0 ==> full <= 2 * d <= full + 1
    ensures !(f == Yuv420888 && index > 0) ==> d == full
  {
    if f == Yuv420888 && index > 0 then (full + 1) / 2 else full
  }

  /**
   * One color plane: its row stride, its pixel stride and the size in
   * bytes of its buffer. The buffer's contents are not modelled.
   */
  datatype Plane = Plane(rowStride: int32, pixelStride: int32, bufferSize: int32)

  /** Byte offset of byte `k` of the sample at column `x`, row `y`. */
  function Offset(rowStride: int, pixelStride: int, x: int, y: int, k: int): int
  {
    y * rowStride + x * pixelStride + k
  }

  /** One past the last byte of the last pixel of the last row of a w-by-h plane. */
  function DataEnd(w: int, h: int, rowStride: int, pixelStride: int, sampleBytes: int): int
  {
    (h - 1) * rowStride + (w - 1) * pixelStride + sampleBytes
  }

  /** A buffer of `size` bytes holds every byte of every sample of a w-by-h plane. */
  ghost predicate CoversAllSamples(size: int, w: int, h: int, rowStride: int, pixelStride: int, sampleBytes: int)
  {
    forall x: int, y: int, k: int :: 0 <= x < w && 0 <= y < h && 0 <= k < sampleBytes ==>
      0 <= Offset(rowStride, pixelStride, x, y, k) < size
  }

  /**
   * What the table and Plane promise of plane `index` of a format-`f`
   * image of the given size. JPEG planes have both strides 0; every other
   * plane has positive strides, and for the formats whose sample size is
   * known the buffer reaches the end of the last pixel of the last row.
   */
  ghost predicate FitsLayout(f: Format, index: nat, width: int, height: int, p: Plane)
    ensures FitsLayout(f, index, width, height, p) && Compressed(f) ==> p.rowStride == 0 && p.pixelStride == 0
    ensures FitsLayout(f, index, width, height, p) && !Compressed(f) ==> p.rowStride > 0 && p.pixelStride > 0
    ensures FitsLayout(f, index, width, height, p) && KnownSampleSize(f) ==>
              p.bufferSize as int >= DataEnd(PlaneDimension(f, index, width), PlaneDimension(f, index, height),
                                             p.rowStride as int, p.pixelStride as int, SampleBytes(f))
  {
    if Compressed(f) then
      p.rowStride == 0 && p.pixelStride == 0
    else
      p.rowStride > 0 && p.pixelStride > 0 &&
      (KnownSampleSize(f) ==>
        p.bufferSize as int >= DataEnd(PlaneDimension(f, index, width), PlaneDimension(f, index, height),
                                      p.rowStride as int, p.pixelStride as int, SampleBytes(f)))
  }

  /** A sample's bytes lie between 0 and DataEnd when both strides are positive. */
  lemma OffsetBelowDataEnd(w: int, h: int, rowStride: int, pixelStride: int, sampleBytes: int,
                           x: int, y: int, k: int)
    requires rowStride > 0 && pixelStride > 0
    requires 0 <= x < w && 0 <= y < h && 0 <= k < sampleBytes
    ensures 0 <= Offset(rowStride, pixelStride, x, y, k) < DataEnd(w, h, rowStride, pixelStride, sampleBytes)
  {
  }

  /**
   * DataEnd is exactly the extent a buffer needs: it covers every sample
   * if and only if it is at least DataEnd bytes long.
   */
  lemma CoversIffReachesDataEnd(size: int, w: int, h: int, rowStride: int, pixelStride: int,
                                sampleBytes: int)
    requires w > 0 && h > 0 && sampleBytes > 0 && rowStride > 0 && pixelStride > 0
    ensures CoversAllSamples(size, w, h, rowStride, pixelStride, sampleBytes) <==>
            size >= DataEnd(w, h, rowStride, pixelStride, sampleBytes)
  {
    if CoversAllSamples(size, w, h, rowStride, pixelStride, sampleBytes) {
      assert 0 <= Offset(rowStride, pixelStride, w - 1, h - 1, sampleBytes - 1) < size;
    }
    if size >= DataEnd(w, h, rowStride, pixelStride, sampleBytes) {
      forall x: int, y: int, k: int | 0 <= x < w && 0 <= y < h && 0 <= k < sampleBytes
        ensures 0 <= Offset(rowStride, pixelStride, x, y, k) < size
      {
        OffsetBelowDataEnd(w, h, rowStride, pixelStride, sampleBytes, x, y, k);
      }
    }
  }

  /**
   * A plane that fits its layout covers every sample of that plane: for
   * YUV_420_888 the luminance plane at full size and the chroma planes at
   * half size, for RAW_SENSOR its single plane.
   */
  lemma PlaneCoversItsSamples(f: Format, index: nat, width: int, height: int, p: Plane)
    requires KnownSampleSize(f) && width > 0 && height > 0
    requires FitsLayout(f, index, width, height, p)
    ensures CoversAllSamples(p.bufferSize as int, PlaneDimension(f, index, width), PlaneDimension(f, index, height),
                             p.rowStride as int, p.pixelStride as int, SampleBytes(f))
  {
    CoversIffReachesDataEnd(p.bufferSize as int, PlaneDimension(f, index, width), PlaneDimension(f, index, height),
                            p.rowStride as int, p.pixelStride as int, SampleBytes(f));
  }

  /**
   * The padding after the last row need not be in the buffer: when a row's
   * samples end before the row stride does, a buffer that ends at the last
   * sample fits the layout and is shorter than height times the row stride.
   */
  lemma LastRowPaddingNotRequired(f: Format, index: nat, width: int, height: int, p: Plane)
    requires KnownSampleSize(f) && width > 0 && height > 0
    requires p.rowStride > 0 && p.pixelStride > 0
    requires (PlaneDimension(f, index, width) - 1) * p.pixelStride as int + SampleBytes(f) < p.rowStride as int
    requires p.bufferSize as int == DataEnd(PlaneDimension(f, index, width), PlaneDimension(f, index, height),
                                             p.rowStride as int, p.pixelStride as int, SampleBytes(f))
    ensures FitsLayout(f, index, width, height, p)
    ensures p.bufferSize as int < PlaneDimension(f, index, height) * p.rowStride as int
  {
    var ph := PlaneDimension(f, index, height);
    assert ph * p.rowStride as int == (ph - 1) * p.rowStride as int + p.rowStride as int;
  }
}
