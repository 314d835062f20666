/**
 * Clients of Image: what a holder can conclude from the contracts alone.
 */
module Scenarios {
  import opened Graphics
  import opened Planes
  import opened Media

  /** Writing to the Rect given to setCropRect afterwards does not reach the stored copy. */
  method ArgumentWriteKeepsCrop(img: Image, c: Rect)
    requires img.Valid() && img.live
    modifies img`cropRect, c
    ensures img.Valid()
    ensures img.Crop() == StoredCrop(old(c.Value()), img.width, img.height)
  {
    var r := img.SetCropRect(c);
    label stored:
    c.left, c.right := c.right, c.left;
    CropIsolated@stored(img);
  }

  /** Writing to a Rect returned by getCropRect does not reach the stored crop. */
  method ReturnedCopyWriteKeepsCrop(img: Image)
    requires img.Valid() && img.live
    ensures img.Valid() && img.Crop() == old(img.Crop())
  {
    var r := img.GetCropRect();
    var copy := r.value;
    label read:
    copy.left, copy.right := copy.right, copy.left;
    CropIsolated@read(img);
  }

  /**
   * A 640 x 480 YUV_420_888 image: the crop starts as the full image, a crop
   * running past the image is clipped, one that misses the image is stored
   * as given, null resets it, and nothing but the stored crop survives close.
   */
  method YuvCropScenario()
  {
    var luma := Plane(640, 1, 307200);
    var cb := Plane(320, 1, 76800);
    var cr := Plane(320, 1, 76800);
    assert FitsLayout(Yuv420888, 0, 640, 480, luma);
    assert FitsLayout(Yuv420888, 1, 640, 480, cb);
    assert FitsLayout(Yuv420888, 2, 640, 480, cr);
    var img := new Image(Yuv420888, 640, 480, 0, [luma, cb, cr]);

    var got := img.GetCropRect();
    assert got.Ok? && got.value.Value() == RectValue(0, 0, 640, 480);

    var past := new Rect(100, 100, 1000, 1000);
    var status := img.SetCropRect(past);
    got := img.GetCropRect();
    assert got.Ok? && got.value.Value() == RectValue(100, 100, 640, 480);

    var outside := new Rect(700, 0, 800, 10);
    status := img.SetCropRect(outside);
    got := img.GetCropRect();
    assert got.Ok? && got.value.Value() == RectValue(700, 0, 800, 10);

    status := img.SetCropRect(null);
    got := img.GetCropRect();
    assert got.Ok? && got.value.Value() == RectValue(0, 0, 640, 480);

    status := img.SetCropRect(past);
    var closed := img.Close();
    assert closed.Ok?;
    assert img.GetPlanes().Err? && img.GetWidth().Err?;
    got := img.GetCropRect();
    assert got.Ok? && got.value.Value() == RectValue(100, 100, 640, 480);
    status := img.SetCropRect(past);
    assert status.Err?;
    status := img.SetCropRect(null);
    assert status.Ok?;
    got := img.GetCropRect();
    assert got.Err?;
    closed := img.Close();
    assert closed.Err?;
  }
}
