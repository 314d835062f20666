/**
 * The part of android.graphics.Rect that Image relies on: four edges
 * (right and bottom exclusive), a copy constructor and intersect.
 * The Rect class itself is not part of this model; `Intersect` is given
 * the contract that Image needs of it.
 */
module Graphics {

  /** Java's `int`. */
  newtype int32 = x: int | -0x8000_0000 <= x < 0x8000_0000

  function Max(a: int32, b: int32): int32 { if a < b then b else a }

  function Min(a: int32, b: int32): int32 { if a < b then a else b }

  /** The value held by a Rect at one moment: its four edges. */
  datatype RectValue = RectValue(left: int32, top: int32, right: int32, bottom: int32)

  /** The pixel (x, y) lies in `r` (half-open on the right and bottom). */
  predicate HasPoint(r: RectValue, x: int, y: int)
  {
    r.left as int <= x < r.right as int && r.top as int <= y < r.bottom as int
  }

  predicate NonEmpty(r: RectValue)
  {
    r.left < r.right && r.top < r.bottom
  }

  /** Every edge of `inner` lies on or inside the matching edge of `outer`. */
  predicate Encloses(outer: RectValue, inner: RectValue)
  {
    outer.left <= inner.left && inner.right <= outer.right &&
    outer.top <= inner.top && inner.bottom <= outer.bottom
  }

  /** The test `intersect` makes before it changes anything. */
  predicate Overlaps(a: RectValue, b: RectValue)
  {
    a.left < b.right && b.left < a.right && a.top < b.bottom && b.top < a.bottom
  }

  /** The rectangle `intersect` leaves behind when the two overlap. */
  function Clip(a: RectValue, b: RectValue): (r: RectValue)
    ensures Encloses(a, r) && Encloses(b, r)
    ensures forall c :: Encloses(a, c) && Encloses(b, c) ==> Encloses(r, c)
    ensures forall x: int, y: int :: HasPoint(r, x, y) <==> HasPoint(a, x, y) && HasPoint(b, x, y)
  {
    RectValue(Max(a.left, b.left), Max(a.top, b.top), Min(a.right, b.right), Min(a.bottom, b.bottom))
  }

  /** Two non-empty rectangles pass the overlap test exactly when they share a pixel. */
  lemma OverlapsIffCommonPoint(a: RectValue, b: RectValue)
    requires NonEmpty(a) && NonEmpty(b)
    ensures Overlaps(a, b) <==> exists x: int, y: int :: HasPoint(a, x, y) && HasPoint(b, x, y)
  {
    if Overlaps(a, b) {
      var c := Clip(a, b);
      assert HasPoint(a, c.left as int, c.top as int) && HasPoint(b, c.left as int, c.top as int);
    }
  }

  /** A mutable android.graphics.Rect. */
  class Rect {
    var left: int32
    var top: int32
    var right: int32
    var bottom: int32

    function Value(): RectValue
      reads this
    {
      RectValue(left, top, right, bottom)
    }

    constructor (left: int32, top: int32, right: int32, bottom: int32)
      ensures Value() == RectValue(left, top, right, bottom)
    {
      this.left, this.top, this.right, this.bottom := left, top, right, bottom;
    }

    /** `new Rect(src)`: a fresh object holding the same edges. */
    constructor Copy(src: Rect)
      ensures Value() == src.Value()
    {
      left, top, right, bottom := src.left, src.top, src.right, src.bottom;
    }

    /**
     * `intersect(l, t, r, b)`. When this rectangle overlaps the argument,
     * each edge moves to the larger left/top or the smaller right/bottom of
     * the two, and the result is true. Otherwise the result is false and
     * this rectangle is left as it was: that second half is an assumption
     * about android.graphics.Rect, which is not part of this model.
     */
    method Intersect(l: int32, t: int32, r: int32, b: int32) returns (hit: bool)
      modifies this
      ensures hit <==> Overlaps(old(Value()), RectValue(l, t, r, b))
      ensures hit ==> left == Max(old(left), l) && top == Max(old(top), t) &&
                      right == Min(old(right), r) && bottom == Min(old(bottom), b)
      ensures hit ==> Value() == Clip(old(Value()), RectValue(l, t, r, b))
      ensures !hit ==> Value() == old(Value())
    {
      if left < r && l < right && top < b && t < bottom {
        if left < l { left := l; }
        if top < t { top := t; }
        if right > r { right := r; }
        if bottom > b { bottom := b; }
        hit := true;
      } else {
        hit := false;
      }
    }
  }
}
