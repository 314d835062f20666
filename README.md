# android.media.Image, modelled in Dafny

This project models `android.media.Image`. An Image is one image buffer that a
camera, codec or reader hands to application code. The model covers:

- its geometry, fixed at construction: format, width, height and planes;
- the crop rectangle, the only logic the base class implements itself;
- the Live → Closed lifecycle that `close()` starts;
- the format → plane-count table;
- the layout promises of the nested `Plane` class: stride signs and how far a
  plane's buffer reaches;
- the base-class defaults of `setTimestamp`, `isOpaque`, `isAttachable` and
  `getOwner`.

Files and modules:

- `rect.dfy`, module `Graphics`: the part of `android.graphics.Rect` that Image
  uses. `RectValue` holds a rectangle's four edges (right and bottom
  exclusive). The mutable class `Rect` has a copy constructor and `Intersect`.
  `Clip` is the intersection, characterised as the largest rectangle enclosed
  by both inputs and as the set of their common pixels.
- `plane.dfy`, module `Planes`: `Format` (JPEG, YUV_420_888, RAW_SENSOR and any
  other format), the plane-count table, the per-plane sizes of YUV_420_888,
  `Plane` (row stride, pixel stride, buffer size) and the layout predicate
  `FitsLayout`. It also holds the lemmas that a buffer reaching `DataEnd`
  covers every sample byte, that no shorter buffer does, and that the padding
  after the last row is not needed.
- `image.dfy`, module `Media`: the `Image` class. Its immutable geometry is
  held in `const` fields. `live` is the lifecycle flag. `cropRect` is the
  nullable `mCropRect` field. Errors come back as `Result` values carrying
  `IllegalStateException`.
- `scenarios.dfy`, module `Scenarios`: clients that combine the contracts.
  Two show that writing to a caller's Rect leaves the stored crop as it was.
  One walks a 640 × 480 YUV_420_888 image through crop, reset and close.

How the source is read:

- **Liveness.** The abstract accessors (`getFormat`, `getWidth`, `getHeight`,
  `getTimestamp`, `getPlanes`, the plane buffer) get the contract that the
  `close()` comment states: each fails with `IllegalStateException` once the
  image is closed. `close()` itself fails on a second call, because the
  comment says every method call fails after close.
- **Crop methods after close.** The base-class crop methods check nothing
  directly. They reach liveness only through `getWidth()`/`getHeight()`, so
  the model gives them exactly that behaviour. `getCropRect()` on a closed
  image fails only when no crop is stored. `setCropRect(null)` succeeds on a
  closed image. `setCropRect(r)` fails on a closed image and leaves the stored
  crop as it was, because the exception comes before the assignment.
- **Methods that still succeed after close.** The `close()` comment
  (Image.java:203-204) says every method call fails after close. The base
  class does not do this everywhere:
  - the crop methods fail only as described in the previous item;
  - `setTimestamp`, `isOpaque`, `isAttachable` and `getOwner` check nothing
    and succeed after close as before.

  The model follows the code. `ClosedImageRejectsAccess` covers only the
  abstract accessors and the plane buffers.
- **Crops that miss the image.** `intersect` is taken to leave an argument
  that misses the image unchanged (see "## Left out"), so `setCropRect`
  stores such an argument as given. The model's
  invariant is therefore `CropInvariant`: the stored crop is inside the
  image, or disjoint from it.
- **Copying.** The crop is copied in and out. `SetCropRect` stores a freshly
  allocated Rect. `GetCropRect` returns a freshly allocated Rect. The two-state
  lemma `CropIsolated` states that writes to any Rect outside the image's
  `Repr` cannot change the crop. That covers the argument that was passed in
  and any Rect that `getCropRect` returned earlier. The client methods
  `ArgumentWriteKeepsCrop` and `ReturnedCopyWriteKeepsCrop` combine that
  lemma with the `fresh` postconditions.
- **JPEG strides.** The table says JPEG strides are 0. The `Plane` comments say
  strides are always greater than 0. `FitsLayout` therefore requires positive
  strides only for formats that are not compressed, and zero strides for JPEG.

Inputs that the Java code gets from outside are parameters of the model. These
are the format, sizes, timestamp and planes given to the constructor, and the
timestamp given to `SetTimestamp`.

## Model

| member | source | states |
|---|---|---|
| `Graphics.Clip` | media/java/android/media/Image.java:186 | the clipped crop lies within both rectangles; it is the largest rectangle that does; it holds exactly the pixels the two share |
| `Graphics.OverlapsIffCommonPoint` | media/java/android/media/Image.java:186 | for non-empty rectangles, the overlap test `intersect` makes holds iff the two share a pixel |
| `Graphics.Rect.constructor` | media/java/android/media/Image.java:171 | `new Rect(l, t, r, b)` holds exactly the four edges given, as for the full bounds `(0, 0, getWidth(), getHeight())` |
| `Graphics.Rect.Copy` | media/java/android/media/Image.java:173 | `new Rect(src)` holds the same four edges as `src` |
| `Graphics.Rect.Intersect` | media/java/android/media/Image.java:186 | returns true iff the rectangles overlap; if so each edge becomes the larger left/top or the smaller right/bottom; otherwise the rectangle is unchanged (assumed) |
| `Planes.PlaneCount` | media/java/android/media/Image.java:67-97 | every tabulated format has at least one plane; YUV_420_888 alone has 3, JPEG and RAW_SENSOR have 1 |
| `Planes.FitsLayout` | media/java/android/media/Image.java:271-298 | a JPEG plane has both strides 0 (line 76); every other plane has positive row and pixel strides; for YUV_420_888 and RAW_SENSOR the buffer reaches the end of the last pixel of the last row |
| `Planes.PlaneDimension` | media/java/android/media/Image.java:81-86 | YUV_420_888 chroma planes have half the image width and height (rounded up); every other plane has the full width and height |
| `Planes.OffsetBelowDataEnd` | media/java/android/media/Image.java:271-285 | with positive row and pixel strides, every byte of every sample lies at an offset from 0 up to, but not including, the end of the last pixel of the last row |
| `Planes.CoversIffReachesDataEnd` | media/java/android/media/Image.java:295-298 | a buffer covers every sample byte iff it reaches the end of the last pixel of the last row, so that extent is both sufficient and necessary |
| `Planes.PlaneCoversItsSamples` | media/java/android/media/Image.java:271-298 | a YUV_420_888 or RAW_SENSOR plane that fits its layout covers every byte of every sample at the plane's own size |
| `Planes.LastRowPaddingNotRequired` | media/java/android/media/Image.java:295-298 | a buffer ending at the last sample is a valid plane even though it is shorter than height × row stride when rows are padded |
| `Media.StoredCrop` | media/java/android/media/Image.java:183-189 | the stored crop keeps the invariant (inside the image or disjoint from it); when the argument overlaps the image it holds exactly the argument's pixels inside (0,0,width,height); otherwise it is the argument unchanged |
| `Media.StoredCropIdempotent` | media/java/android/media/Image.java:169-189 | storing again a crop that was just stored changes nothing |
| `Media.StoredCropKeepsEnclosed` | media/java/android/media/Image.java:183-188 | a crop already inside the image is stored as given |
| `Media.PlanesMatchFormat` | media/java/android/media/Image.java:67-97 | for a tabulated format the plane sequence is empty iff the image is opaque (lines 153-154, 192-196); a non-opaque YUV_420_888 image has exactly 3 planes; each plane fits its layout |
| `Media.Image.Crop` | media/java/android/media/Image.java:169-175 | the crop the image reports is the stored one, or the full bounds when unset, and it always meets the crop invariant |
| `Media.Image.constructor` | media/java/android/media/Image.java:67-97 | a base-class image is live, has no crop set, is not opaque, and has as many planes as the format table says, each fitting its layout |
| `Media.Image.Opaque` | media/java/android/media/Image.java:150-159 | an image whose class reports itself opaque is live and exposes no planes |
| `Media.Image.GetFormat` | media/java/android/media/Image.java:56-101 | returns the construction-time format while live; fails with IllegalStateException once closed |
| `Media.Image.GetWidth` | media/java/android/media/Image.java:103-107 | returns the fixed width while live; fails with IllegalStateException once closed |
| `Media.Image.GetHeight` | media/java/android/media/Image.java:109-113 | returns the fixed height while live; fails with IllegalStateException once closed |
| `Media.Image.GetTimestamp` | media/java/android/media/Image.java:115-125 | returns the timestamp while live; fails with IllegalStateException once closed |
| `Media.Image.SetTimestamp` | media/java/android/media/Image.java:146-148 | the base class changes no state, so the timestamp read afterwards is the one read before |
| `Media.Image.IsOpaque` | media/java/android/media/Image.java:150-159 | an opaque image has no planes; for the tabulated formats, being opaque is equivalent to having no planes |
| `Media.Image.IsAttachable` | media/java/android/media/Image.java:218-232 | the base class is never attachable to a new owner |
| `Media.Image.GetOwner` | media/java/android/media/Image.java:234-251 | the base class reports no owner (null) |
| `Media.Image.GetPlanes` | media/java/android/media/Image.java:191-198 | fails once closed; otherwise returns the construction-time planes: empty when opaque, as many as the format table says otherwise, each fitting its layout |
| `Media.Image.GetPlaneBuffer` | media/java/android/media/Image.java:286-302 | a plane's buffer is reachable only while the image is live; its size then covers every sample of that plane when the sample size is known |
| `Media.Image.GetCropRect` | media/java/android/media/Image.java:163-175 | returns a fresh copy of the crop; when unset it is (0,0,width,height) and fails once closed; when a crop is stored it always succeeds |
| `Media.Image.SetCropRect` | media/java/android/media/Image.java:177-189 | null resets to unset (the full bounds are reported again); otherwise a fresh copy clipped to the image is stored; a non-null argument on a closed image fails and changes nothing; the lifecycle state is untouched |
| `Media.Image.Close` | media/java/android/media/Image.java:200-216 | the image is closed afterwards and nothing reopens it; the first call succeeds and any later call fails with IllegalStateException |
| `Media.CropIsolated` | media/java/android/media/Image.java:169-189 | writes to any object outside the image's footprint, such as a caller's Rect or a returned copy, leave the crop unchanged |
| `Scenarios.ArgumentWriteKeepsCrop` | media/java/android/media/Image.java:183-188 | after `setCropRect(c)`, writing to `c` leaves the crop at the clipped copy of `c`'s value at the time of the call |
| `Scenarios.ReturnedCopyWriteKeepsCrop` | media/java/android/media/Image.java:169-175 | writing to a Rect returned by `getCropRect` leaves the image's crop as it was |
| `Media.ClosedImageRejectsAccess` | media/java/android/media/Image.java:200-206 | on a closed image, getFormat, getWidth, getHeight, getTimestamp, getPlanes and every plane buffer fail |

## Left out

- Buffer contents, direct-buffer mapping and JNI address access (`getBuffer`): a buffer is modelled only by its size, reached through `Image.GetPlaneBuffer` under the liveness guard, because the memory is hardware-mapped.
- Media.Image.GetPlaneBuffer: `getBuffer` is a method of `Plane`. The model has no reference from a plane back to its image, so the guard sits on the image method. Reading a buffer obtained before `close()` is undefined behaviour in the source and is not modelled.
- Graphics.Rect.Intersect: `android.graphics.Rect` is not part of this model. The overlapping case is the contract Image needs. The disjoint case ("the rectangle is left unchanged") is an assumption about that class.
- The owners `ImageReader`, `ImageWriter` and `MediaCodec` are not part of this model. This leaves out the maximum-outstanding-image limit, automatic timestamping, automatic close on `queueInputImage`, and how owners change `isAttachable`/`getOwner`.
- Timestamp monotonicity: it depends on the producing source and nothing here enforces it.
- JPEG decoding through `BitmapFactory` and any interpretation of pixel values.
- Numeric `ImageFormat` codes: formats are a datatype. Formats other than the three tabulated ones carry no plane-count constraint, because the table says nothing about them.
- Planes.PlaneDimension: the source says only "half the width and height". Rounding up for odd sizes is the model's choice.
- Planes.FitsLayout: the buffer-extent promise is stated only for YUV_420_888 (1-byte samples) and RAW_SENSOR (2-byte samples). For other formats the sample size is not given.
- Media.Image.GetPlanes: Java returns a fresh array of Plane objects. The model returns an immutable sequence of plane values, so aliasing of that array is not modelled.
- Subclass storage and virtual dispatch: the abstract getters are given the documented contract instead of a concrete subclass.
- Concurrency: an image is used by one holder at a time, and nothing in Image synchronises.
