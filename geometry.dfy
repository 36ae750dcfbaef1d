/**
 * Integer screen coordinates: the `Point` and `BBox` value types and their
 * algebra (translation, scaling, building a box from two corners, the
 * midpoint, the top-left corner and vertical centring).
 *
 * Python 2 `/` on integers is floor division; Dafny's `/` agrees with it for
 * the positive divisor 2 used here.
 */
module Geometry {

  /** A point `(x, y)` on the screen. */
  datatype Point = Point(x: int, y: int) {

    /** `self + other` for two points: the translated point. */
    function Add(other: Point): (r: Point)
      ensures r.Sub(other) == this && r.Sub(this) == other
    {
      Point(x + other.x, y + other.y)
    }

    /** `self - other`: the coordinates of this point relative to `other`. */
    function Sub(other: Point): (r: Point)
      ensures r.x + other.x == x && r.y + other.y == y
    {
      Point(x - other.x, y - other.y)
    }

    /** `self * k` for an integer `k`: both coordinates scaled by `k`. */
    function Scale(k: int): (r: Point)
      ensures k == 0 ==> r == Point(0, 0)
      ensures k == 1 ==> r == this
      ensures k == -1 ==> r.Add(this) == Point(0, 0)
    {
      Point(k * x, k * y)
    }

    /** `self * other` for two points: the box with this point as its first
        corner and `other` as its second, taken as they are (no reordering). */
    function Pair(other: Point): (r: BBox)
      ensures r.Offset() == this && r.BottomRight() == other
      ensures r.Width() == other.x - x && r.Height() == other.y - y
    {
      BBox(x, y, other.x, other.y)
    }

    /** `self + box`: Python falls back to `box + self`. */
    function AddBox(box: BBox): (r: BBox)
      ensures r.Sub(this) == box
      ensures r.Offset() == box.Offset().Add(this)
    {
      box.Add(this)
    }
  }

  /** A box stored as `(x1, y1, x2, y2)`; `x1 <= x2` and `y1 <= y2` is expected
      of callers but never enforced. */
  datatype BBox = BBox(x1: int, y1: int, x2: int, y2: int) {

    /** The box is not inverted: its first corner is its top-left one. */
    predicate WellFormed() {
      x1 <= x2 && y1 <= y2
    }

    /** `self + p`: every coordinate shifted by `p`. */
    function Add(p: Point): (r: BBox)
      ensures r.Sub(p) == this
      ensures r.Offset() == Offset().Add(p) && r.BottomRight() == BottomRight().Add(p)
      ensures r.Width() == Width() && r.Height() == Height()
    {
      BBox(x1 + p.x, y1 + p.y, x2 + p.x, y2 + p.y)
    }

    /** `self - p`: every coordinate shifted by `-p`. */
    function Sub(p: Point): (r: BBox)
      ensures r.Offset().Add(p) == Offset() && r.BottomRight().Add(p) == BottomRight()
    {
      BBox(x1 - p.x, y1 - p.y, x2 - p.x, y2 - p.y)
    }

    /** The middle of the box, each coordinate rounded down. */
    function Midpoint(): (r: Point)
      ensures 2 * r.x <= x1 + x2 < 2 * r.x + 2
      ensures 2 * r.y <= y1 + y2 < 2 * r.y + 2
      ensures WellFormed() ==> Contains(r)
    {
      Point((x1 + x2) / 2, (y1 + y2) / 2)
    }

    /** The upper left corner. */
    function Offset(): Point {
      Point(x1, y1)
    }

    /** The second corner, `(x2, y2)`. */
    function BottomRight(): Point {
      Point(x2, y2)
    }

    function Width(): (w: int)
      ensures x1 + w == x2
      ensures WellFormed() ==> w >= 0
    {
      x2 - x1
    }

    function Height(): (h: int)
      ensures y1 + h == y2
      ensures WellFormed() ==> h >= 0
    {
      y2 - y1
    }

    /** The point lies inside the box or on its border. */
    predicate Contains(p: Point) {
      x1 <= p.x <= x2 && y1 <= p.y <= y2
    }

    /** The box moved vertically so that it is centred on row `pos`: the same
        horizontal extent and height, with `y1 = pos - height / 2`. */
    function CenterVertically(pos: int): (r: BBox)
      ensures r.x1 == x1 && r.x2 == x2
      ensures r.Height() == Height()
      ensures r.y1 == pos - Height() / 2
      ensures r.Midpoint().y == pos
      ensures r.Midpoint().x == Midpoint().x
    {
      var h := Height();
      BBox(x1, pos - h / 2, x2, pos + (h - h / 2))
    }
  }

  /** Subtracting a point undoes adding it, and adding undoes subtracting. */
  lemma AddSubRoundTrip(a: Point, b: Point)
    ensures a.Add(b).Sub(b) == a
    ensures a.Sub(b).Add(b) == a
  {
  }

  /** Point addition is associative and commutative, with `(0, 0)` as unit. */
  lemma AddAlgebra(a: Point, b: Point, c: Point)
    ensures a.Add(b).Add(c) == a.Add(b.Add(c))
    ensures a.Add(b) == b.Add(a)
    ensures a.Add(Point(0, 0)) == a
  {
  }

  /** Scaling distributes over addition of points and of factors, and
      composes by multiplying the factors; with `Scale(1)` being the point
      itself, this makes `p * k` the sum of `k` copies of `p`. */
  lemma ScaleAlgebra(a: Point, b: Point, j: int, k: int)
    ensures a.Add(b).Scale(k) == a.Scale(k).Add(b.Scale(k))
    ensures a.Scale(j + k) == a.Scale(j).Add(a.Scale(k))
    ensures a.Scale(j).Scale(k) == a.Scale(j * k)
  {
  }

  /** Doubling a point is adding it to itself. */
  lemma ScaleTwice(a: Point)
    ensures a.Scale(2) == a.Add(a)
  {
    ScaleAlgebra(a, a, 1, 1);
  }

  /** Translating a box by `p` moves all four coordinates by `p`, translating
      back by `p` recovers it, and translating by `p` then `q` is translating
      by `p + q`; `p + box` equals `box + p`. */
  lemma BoxTranslation(box: BBox, p: Point, q: Point)
    ensures box.Add(p) == BBox(box.x1 + p.x, box.y1 + p.y, box.x2 + p.x, box.y2 + p.y)
    ensures box.Add(p).Sub(p) == box && box.Sub(p).Add(p) == box
    ensures box.Add(p).Add(q) == box.Add(p.Add(q))
    ensures p.AddBox(box) == box.Add(p)
  {
  }

  /** Translation commutes with taking the midpoint, even with rounding down. */
  lemma MidpointTranslate(box: BBox, p: Point)
    ensures box.Add(p).Midpoint() == box.Midpoint().Add(p)
  {
  }

  /** Translation keeps a box well-formed. */
  lemma TranslatePreservesWellFormed(box: BBox, p: Point)
    ensures box.Add(p).WellFormed() <==> box.WellFormed()
  {
  }

  /** A box is the pair of its top-left and bottom-right corners. */
  lemma PairCorners(box: BBox, p: Point, q: Point)
    ensures box.Offset().Pair(box.BottomRight()) == box
    ensures p.Pair(q).Offset() == p && p.Pair(q).BottomRight() == q
  {
  }

  /** The documented example: `Point(50, 10) * Point(150, 210)`. */
  lemma PairExample()
    ensures Point(50, 10).Pair(Point(150, 210)) == BBox(50, 10, 150, 210)
    ensures BBox(50, 10, 150, 210).Width() == 100 && BBox(50, 10, 150, 210).Height() == 200
    ensures BBox(50, 10, 150, 210).Midpoint() == Point(100, 110)
  {
  }

  /** No corner normalisation: pairing the corners in the other order gives
      an inverted box with negative width and height. */
  lemma PairKeepsOrder()
    ensures Point(150, 210).Pair(Point(50, 10)) == BBox(150, 210, 50, 10)
    ensures !BBox(150, 210, 50, 10).WellFormed()
    ensures BBox(150, 210, 50, 10).Width() == -100
  {
  }
}
