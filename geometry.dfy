/** Axis-aligned rectangles with real coordinates, the scale-then-translate
    mapping used for page slices and target rectangles, and the strict-overlap
    intersection test. */
module Geometry {

  datatype Rect = Rect(left: real, top: real, right: real, bottom: real)

  function Width(r: Rect): real { r.right - r.left }

  function Height(r: Rect): real { r.bottom - r.top }

  /** A rectangle whose edges are in order (a sorted rectangle). */
  predicate Proper(r: Rect) { r.left <= r.right && r.top <= r.bottom }

  function Min(a: real, b: real): real { if a <= b then a else b }

  function Max(a: real, b: real): real { if a <= b then b else a }

  /** The matrix built by `postScale(width(frame), height(frame))` followed by
      `postTranslate(frame.left, frame.top)`, applied corner by corner: each
      edge of `local` is scaled by the frame's width or height and shifted by
      the frame's left or top edge. */
  function Scaled(local: Rect, frame: Rect): Rect
  {
    Rect(Width(frame) * local.left + frame.left, Height(frame) * local.top + frame.top,
         Width(frame) * local.right + frame.left, Height(frame) * local.bottom + frame.top)
  }

  /** `mapRect` with that matrix: both corners are mapped and the result is
      their bounding box, which for sorted inputs is the corner-wise image. */
  function MapRect(local: Rect, frame: Rect): (r: Rect)
    ensures Proper(r)
    ensures Proper(local) && Proper(frame) ==> r == Scaled(local, frame)
  {
    var e := Scaled(local, frame);
    assert Proper(local) && Proper(frame) ==> Proper(e) by {
      if Proper(local) && Proper(frame) {
        ScaleMonotone(Width(frame), local.left, local.right);
        ScaleMonotone(Height(frame), local.top, local.bottom);
      }
    }
    Rect(Min(e.left, e.right), Min(e.top, e.bottom), Max(e.left, e.right), Max(e.top, e.bottom))
  }

  lemma ScaleMonotone(s: real, a: real, b: real)
    requires s >= 0.0 && a <= b
    ensures s * a <= s * b
  {
    assert s * b - s * a == s * (b - a);
  }

  /** `RectF.intersects(a, b)`: the two rectangles overlap in a region of
      positive area (touching edges do not count). */
  predicate Intersects(a: Rect, b: Rect)
  {
    a.left < b.right && b.left < a.right && a.top < b.bottom && b.top < a.bottom
  }

  /** The point lies in the rectangle, left and top edges included, right and
      bottom edges excluded. */
  predicate HalfOpenContains(r: Rect, x: real, y: real)
  {
    r.left <= x < r.right && r.top <= y < r.bottom
  }

  /** The local slices of the four children, in the order they are created:
      top-left, top-right, bottom-left, bottom-right. */
  const Quadrants: seq<Rect> := [
    Rect(0.0, 0.0, 0.5, 0.5),
    Rect(0.5, 0.0, 1.0, 0.5),
    Rect(0.0, 0.5, 0.5, 1.0),
    Rect(0.5, 0.5, 1.0, 1.0)
  ]

  /** The absolute slice of child `k` of a node whose slice is `parent`. */
  function ChildSlice(parent: Rect, k: nat): Rect
    requires k < 4
  {
    MapRect(Quadrants[k], parent)
  }

  /** The four child slices tile the parent slice exactly: a point of the
      parent lies in exactly one child, and a point of a child lies in the
      parent. */
  lemma QuadrantsPartition(parent: Rect, x: real, y: real)
    requires Proper(parent)
    ensures HalfOpenContains(parent, x, y) <==>
      exists k :: 0 <= k < 4 && HalfOpenContains(ChildSlice(parent, k), x, y)
    ensures forall j, k ::
      (0 <= j < 4 && 0 <= k < 4 &&
       HalfOpenContains(ChildSlice(parent, j), x, y) &&
       HalfOpenContains(ChildSlice(parent, k), x, y)) ==> j == k
  {
    var midX := Width(parent) * 0.5 + parent.left;
    var midY := Height(parent) * 0.5 + parent.top;
    assert parent.left <= midX <= parent.right;
    assert parent.top <= midY <= parent.bottom;
    var c0, c1, c2, c3 := ChildSlice(parent, 0), ChildSlice(parent, 1),
                          ChildSlice(parent, 2), ChildSlice(parent, 3);
    assert c0 == Rect(parent.left, parent.top, midX, midY);
    assert c1 == Rect(midX, parent.top, parent.right, midY);
    assert c2 == Rect(parent.left, midY, midX, parent.bottom);
    assert c3 == Rect(midX, midY, parent.right, parent.bottom);
    if HalfOpenContains(parent, x, y) {
      var k := (if x < midX then 0 else 1) + (if y < midY then 0 else 2);
      assert HalfOpenContains(ChildSlice(parent, k), x, y);
    }
  }

  /** Mapping is composition-consistent: a grandchild's local slice mapped
      through the child's local slice and then the parent's slice equals the
      grandchild mapped through the composed slice. */
  lemma MapRectCompose(a: Rect, b: Rect, c: Rect)
    requires Proper(a) && Proper(b) && Proper(c)
    ensures MapRect(MapRect(a, b), c) == MapRect(a, MapRect(b, c))
  {
    var ab, bc := MapRect(a, b), MapRect(b, c);
    assert ab == Scaled(a, b) && bc == Scaled(b, c);
    assert MapRect(ab, c) == Scaled(ab, c) && MapRect(a, bc) == Scaled(a, bc);
    ScaledCompose(a, b, c);
  }

  /** The corner-wise images compose: scaling through `b` and then `c` is
      scaling through the image of `b` under `c`. */
  lemma ScaledCompose(a: Rect, b: Rect, c: Rect)
    ensures Scaled(Scaled(a, b), c) == Scaled(a, Scaled(b, c))
  {
    var lhs, rhs := Scaled(Scaled(a, b), c), Scaled(a, Scaled(b, c));
    assert lhs.left == rhs.left by { HorizontalCompose(a.left, b, c); }
    assert lhs.right == rhs.right by { HorizontalCompose(a.right, b, c); }
    assert lhs.top == rhs.top by { VerticalCompose(a.top, b, c); }
    assert lhs.bottom == rhs.bottom by { VerticalCompose(a.bottom, b, c); }
  }

  /** One horizontal edge at `x` scaled through `b` and then `c` lands where
      it lands when scaled through the image of `b` under `c`. */
  lemma HorizontalCompose(x: real, b: Rect, c: Rect)
    ensures Width(c) * (Width(b) * x + b.left) + c.left == Width(Scaled(b, c)) * x + Scaled(b, c).left
  {
    var bc := Scaled(b, c);
    assert Width(bc) == Width(c) * Width(b) by { ScaleDifference(Width(c), b.left, b.right); }
    AffineCompose(Width(b), b.left, Width(c), c.left, x);
  }

  /** The same for a vertical edge at `y`. */
  lemma VerticalCompose(y: real, b: Rect, c: Rect)
    ensures Height(c) * (Height(b) * y + b.top) + c.top == Height(Scaled(b, c)) * y + Scaled(b, c).top
  {
    var bc := Scaled(b, c);
    assert Height(bc) == Height(c) * Height(b) by { ScaleDifference(Height(c), b.top, b.bottom); }
    AffineCompose(Height(b), b.top, Height(c), c.top, y);
  }

  /** Scaling distributes over a difference. */
  lemma ScaleDifference(s: real, x: real, y: real)
    ensures s * y - s * x == s * (y - x)
  {
  }

  /** Two scale-then-translate maps in a row are one such map. */
  lemma AffineCompose(s: real, o: real, t: real, q: real, x: real)
    ensures t * (s * x + o) + q == (t * s) * x + (t * o + q)
  {
    assert t * (s * x + o) == t * (s * x) + t * o;
  }
}
