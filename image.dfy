/**
 * android.media.Image: one image buffer with fixed geometry and planes,
 * a crop rectangle the holder may change, and a Live/Closed lifecycle.
 * The abstract accessors are given the contract their documentation
 * states (they fail once the image is closed); the members the base class
 * implements do what its code does.
 */
module Media {
  import opened Graphics
  import opened Planes

  /** Java's `long`. */
  newtype int64 = x: int | -0x8000_0000_0000_0000 <= x < 0x8000_0000_0000_0000

  datatype Exception = IllegalStateException

  /** A call that returns `value` or throws `error`. */
  datatype Result<T> = Ok(value: T) | Err(error: Exception)

  /** The full image, `new Rect(0, 0, width, height)`. */
  function FullBounds(width: int32, height: int32): RectValue
  {
    RectValue(0, 0, width, height)
  }

  /**
   * What a stored crop may look like: inside the full image, or (when the
   * argument of setCropRect missed the image altogether) disjoint from it.
   */
  predicate CropInvariant(c: RectValue, width: int32, height: int32)
  {
    Encloses(FullBounds(width, height), c) || !Overlaps(c, FullBounds(width, height))
  }

  /** The crop setCropRect stores for a non-null argument holding `c`. */
  function StoredCrop(c: RectValue, width: int32, height: int32): (r: RectValue)
    ensures CropInvariant(r, width, height)
    ensures Overlaps(c, FullBounds(width, height)) ==>
              forall x: int, y: int :: HasPoint(r, x, y) <==>
                HasPoint(c, x, y) && 0 <= x < width as int && 0 <= y < height as int
    ensures !Overlaps(c, FullBounds(width, height)) ==> r == c
  {
    if Overlaps(c, FullBounds(width, height)) then Clip(c, FullBounds(width, height)) else c
  }

  /** Setting the crop to what getCropRect returned leaves it as it was. */
  lemma StoredCropIdempotent(c: RectValue, width: int32, height: int32)
    ensures StoredCrop(StoredCrop(c, width, height), width, height) == StoredCrop(c, width, height)
  {
  }

  /** A crop already within the image is stored unchanged. */
  lemma StoredCropKeepsEnclosed(c: RectValue, width: int32, height: int32)
    requires Encloses(FullBounds(width, height), c)
    ensures StoredCrop(c, width, height) == c
  {
  }

  /**
   * The planes an image of this format and size may carry: none when
   * opaque, otherwise as many as the table says, each fitting its layout.
   */
  ghost predicate PlanesMatchFormat(f: Format, width: int32, height: int32, opaqueImage: bool, planes: seq<Plane>)
    ensures PlanesMatchFormat(f, width, height, opaqueImage, planes) && Tabulated(f) ==>
              (planes == [] <==> opaqueImage)
    ensures PlanesMatchFormat(f, width, height, opaqueImage, planes) && f == Yuv420888 && !opaqueImage ==>
              |planes| == 3
  {
    (opaqueImage ==> planes == []) &&
    (!opaqueImage && Tabulated(f) ==> |planes| == PlaneCount(f)) &&
    forall i :: 0 <= i < |planes| ==> FitsLayout(f, i, width as int, height as int, planes[i])
  }

  class Image {
    const format: Format
    const width: int32
    const height: int32
    const timestamp: int64
    const planes: seq<Plane>
    /** What isOpaque reports: false in the base class, true for an overriding opaque image. */
    const opaqueImage: bool
    /** False once close() has run. */
    var live: bool
    /** mCropRect: null while unset, otherwise a Rect that only this image refers to. */
    var cropRect: Rect?

    /** The geometry and planes fixed at construction agree with the format. */
    ghost predicate WellFormed()
    {
      width > 0 && height > 0 && PlanesMatchFormat(format, width, height, opaqueImage, planes)
    }

    ghost predicate Valid()
      reads this, cropRect
    {
      WellFormed() &&
      (cropRect != null ==> CropInvariant(cropRect.Value(), width, height))
    }

    /** The objects this image's state lives in. */
    ghost function Repr(): set<object>
      reads this
    {
      if cropRect == null then {this} else {this, cropRect}
    }

    /** The crop getCropRect reports while it can: the stored one, or the full image. */
    ghost function Crop(): (r: RectValue)
      reads this, cropRect
      requires Valid()
      ensures CropInvariant(r, width, height)
    {
      if cropRect == null then FullBounds(width, height) else cropRect.Value()
    }

    /** An image as the base class makes it: not opaque, its planes matching the format. */
    constructor (format: Format, width: int32, height: int32, timestamp: int64, planes: seq<Plane>)
      requires width > 0 && height > 0
      requires PlanesMatchFormat(format, width, height, false, planes)
      ensures Valid() && live && cropRect == null && !opaqueImage
      ensures this.format == format && this.width == width && this.height == height
      ensures this.timestamp == timestamp && this.planes == planes
    {
      this.format, this.width, this.height := format, width, height;
      this.timestamp, this.planes, this.opaqueImage := timestamp, planes, false;
      live, cropRect := true, null;
    }

    /** An image whose class overrides isOpaque to return true: it exposes no planes. */
    constructor Opaque(format: Format, width: int32, height: int32, timestamp: int64)
      requires width > 0 && height > 0
      ensures Valid() && live && cropRect == null && opaqueImage && planes == []
      ensures this.format == format && this.width == width && this.height == height
      ensures this.timestamp == timestamp
    {
      this.format, this.width, this.height := format, width, height;
      this.timestamp, this.planes, this.opaqueImage := timestamp, [], true;
      live, cropRect := true, null;
    }

    function GetFormat(): (r: Result<Format>)
      reads this
      ensures r.Ok? <==> live
      ensures r.Ok? ==> r.value == format
      ensures r.Err? ==> r.error == IllegalStateException
    {
      if live then Ok(format) else Err(IllegalStateException)
    }

    function GetWidth(): (r: Result<int32>)
      reads this
      ensures r.Ok? <==> live
      ensures r.Ok? ==> r.value == width
      ensures r.Err? ==> r.error == IllegalStateException
    {
      if live then Ok(width) else Err(IllegalStateException)
    }

    function GetHeight(): (r: Result<int32>)
      reads this
      ensures r.Ok? <==> live
      ensures r.Ok? ==> r.value == height
      ensures r.Err? ==> r.error == IllegalStateException
    {
      if live then Ok(height) else Err(IllegalStateException)
    }

    function GetTimestamp(): (r: Result<int64>)
      reads this
      ensures r.Ok? <==> live
      ensures r.Ok? ==> r.value == timestamp
      ensures r.Err? ==> r.error == IllegalStateException
    {
      if live then Ok(timestamp) else Err(IllegalStateException)
    }

    /** The base class ignores the timestamp it is given. */
    method SetTimestamp(t: int64)
      ensures unchanged(this)
      ensures GetTimestamp() == old(GetTimestamp())
    {
      return;
    }

    /** Base-class isOpaque; an opaque image exposes no planes. */
    function IsOpaque(): (r: bool)
      requires WellFormed()
      ensures r ==> planes == []
      ensures Tabulated(format) ==> (r <==> planes == [])
    {
      opaqueImage
    }

    /** Base-class isAttachable: never attachable to a new owner. */
    function IsAttachable(): (r: bool)
      ensures !r
    {
      false
    }

    /** Base-class getOwner: no known owner. */
    function GetOwner(): (r: object?)
      ensures r == null
    {
      null
    }

    /**
     * getPlanes: fails once closed; otherwise the planes fixed at
     * construction, none exactly when opaque for a tabulated format.
     */
    function GetPlanes(): (r: Result<seq<Plane>>)
      reads this
      requires WellFormed()
      ensures r.Ok? <==> live
      ensures r.Err? ==> r.error == IllegalStateException
      ensures r.Ok? ==> r.value == planes
      ensures r.Ok? && opaqueImage ==> r.value == []
      ensures r.Ok? && Tabulated(format) ==> |r.value| == (if opaqueImage then 0 else PlaneCount(format))
      ensures r.Ok? ==> forall i :: 0 <= i < |r.value| ==>
                FitsLayout(format, i, width as int, height as int, r.value[i])
    {
      if live then Ok(planes) else Err(IllegalStateException)
    }

    /**
     * Plane.getBuffer for plane `index`, reduced to the buffer's size:
     * fails once the image is closed; otherwise the buffer covers every
     * sample of the plane when the format's sample size is known.
     */
    function GetPlaneBuffer(index: nat): (r: Result<int32>)
      reads this
      requires WellFormed() && index < |planes|
      ensures r.Ok? <==> live
      ensures r.Err? ==> r.error == IllegalStateException
      ensures r.Ok? ==> r.value == planes[index].bufferSize
      ensures r.Ok? && KnownSampleSize(format) ==>
                CoversAllSamples(r.value as int, PlaneDimension(format, index, width as int),
                                 PlaneDimension(format, index, height as int), planes[index].rowStride as int,
                                 planes[index].pixelStride as int, SampleBytes(format))
    {
      if live then
        if KnownSampleSize(format) then
          PlaneCoversItsSamples(format, index, width as int, height as int, planes[index]);
          Ok(planes[index].bufferSize)
        else
          Ok(planes[index].bufferSize)
      else
        Err(IllegalStateException)
    }

    /**
     * getCropRect: a fresh copy of the stored crop, or, when none is
     * stored, a fresh (0, 0, width, height), which needs getWidth and
     * getHeight and so fails once the image is closed.
     */
    method GetCropRect() returns (r: Result<Rect>)
      requires Valid()
      ensures r.Err? <==> cropRect == null && !live
      ensures r.Err? ==> r.error == IllegalStateException
      ensures r.Ok? ==> fresh(r.value) && r.value.Value() == Crop()
      ensures r.Ok? && cropRect == null ==> r.value.Value() == FullBounds(width, height)
    {
      if cropRect == null {
        var w := GetWidth();
        if w.Err? { return Err(w.error); }
        var h := GetHeight();  // cannot fail once getWidth has succeeded
        var full := new Rect(0, 0, w.value, h.value);
        r := Ok(full);
      } else {
        var copy := new Rect.Copy(cropRect);
        r := Ok(copy);
      }
    }

    /**
     * setCropRect: null resets the crop to unset; otherwise a copy of the
     * argument, intersected with (0, 0, width, height), is stored. The
     * intersection needs getWidth and getHeight, so a non-null argument
     * fails once the image is closed and then changes nothing.
     */
    method SetCropRect(crop: Rect?) returns (r: Result<()>)
      requires Valid()
      modifies this`cropRect
      ensures Valid() && live == old(live)
      ensures r.Err? <==> crop != null && !live
      ensures r.Err? ==> r.error == IllegalStateException && cropRect == old(cropRect)
      ensures crop == null ==> cropRect == null && Crop() == FullBounds(width, height)
      ensures crop != null && live ==>
                cropRect != null && fresh(cropRect) &&
                Crop() == StoredCrop(crop.Value(), width, height)
    {
      if crop != null {
        var copy := new Rect.Copy(crop);
        var w := GetWidth();
        if w.Err? { return Err(w.error); }
        var h := GetHeight();  // cannot fail once getWidth has succeeded
        var _ := copy.Intersect(0, 0, w.value, h.value);
        cropRect := copy;
      } else {
        cropRect := null;
      }
      r := Ok(());
    }

    /**
     * close: frees the image. The first call succeeds; the image is closed
     * from then on, and a further call fails like every other accessor.
     */
    method Close() returns (r: Result<()>)
      requires Valid()
      modifies this`live
      ensures Valid() && !live
      ensures r.Ok? <==> old(live)
      ensures r.Err? ==> r.error == IllegalStateException
    {
      if !live { return Err(IllegalStateException); }
      live := false;
      r := Ok(());
    }
  }

  /**
   * The crop is isolated from every Rect the caller holds: writes to
   * objects outside the image's Repr (the argument given to setCropRect,
   * a Rect returned by getCropRect) leave the crop as it was.
   */
  twostate lemma CropIsolated(img: Image)
    requires old(img.Valid())
    requires unchanged(old(img.Repr()))
    ensures img.Valid() && img.Crop() == old(img.Crop())
  {
  }

  /** Once closed, every accessor documented to fail after close does fail. */
  lemma ClosedImageRejectsAccess(img: Image)
    requires img.WellFormed() && !img.live
    ensures img.GetFormat().Err? && img.GetWidth().Err? && img.GetHeight().Err?
    ensures img.GetTimestamp().Err? && img.GetPlanes().Err?
    ensures forall i :: 0 <= i < |img.planes| ==> img.GetPlaneBuffer(i).Err?
  {
  }
}
