/**
 * `MapCoordinate` (src/coordinates/mod.rs): a pair of `usize` components,
 * `width` and `height`, with getters, setters, structural equality,
 * component-wise arithmetic, tuple conversions and a distance.
 */
module Coordinates {

  /** The largest `usize` on a 64-bit target. */
  const USIZE_MAX: nat := 0xFFFF_FFFF_FFFF_FFFF

  type USize = x: nat | x <= USIZE_MAX

  datatype MapCoordinate = MapCoordinate(width: USize, height: USize) {

    /** `MapCoordinate::new`: the getters give back what was passed in. */
    static function New(width: USize, height: USize): (c: MapCoordinate)
      ensures c.GetWidth() == width && c.GetHeight() == height
    {
      MapCoordinate(width, height)
    }

    /** `get_width`: the component that, with the height, makes up the coordinate. */
    function GetWidth(): (w: USize)
      ensures this == MapCoordinate(w, height)
    {
      width
    }

    /** `get_height`: the component that, with the width, makes up the coordinate. */
    function GetHeight(): (h: USize)
      ensures this == MapCoordinate(width, h)
    {
      height
    }

    /**
     * `set_width`. `MapCoordinate` is `Copy` and nothing in the core aliases
     * it, so the in-place update is the value with one field replaced.
     */
    function SetWidth(w: USize): (c: MapCoordinate)
      ensures c.GetWidth() == w && c.GetHeight() == GetHeight()
    {
      this.(width := w)
    }

    /** `set_height`: replaces the height and keeps the width. */
    function SetHeight(h: USize): (c: MapCoordinate)
      ensures c.GetHeight() == h && c.GetWidth() == GetWidth()
    {
      this.(height := h)
    }

    /** `PartialEq::eq`: the hand-written comparison is structural identity. */
    function Eq(other: MapCoordinate): (b: bool)
      ensures b <==> this == other
    {
      height == other.height && width == other.width
    }

    /** `Add::add`; a sum that would leave `usize` is excluded by the requires. */
    function Add(rhs: MapCoordinate): (c: MapCoordinate)
      requires width + rhs.width <= USIZE_MAX && height + rhs.height <= USIZE_MAX
      ensures c.GetWidth() == GetWidth() + rhs.GetWidth()
      ensures c.GetHeight() == GetHeight() + rhs.GetHeight()
    {
      MapCoordinate(width + rhs.width, height + rhs.height)
    }

    /** `Sub::sub`; `usize` subtraction needs each component of `rhs` to be at most ours. */
    function Sub(rhs: MapCoordinate): (c: MapCoordinate)
      requires rhs.width <= width && rhs.height <= height
      ensures c.GetWidth() == GetWidth() - rhs.GetWidth()
      ensures c.GetHeight() == GetHeight() - rhs.GetHeight()
    {
      MapCoordinate(width - rhs.width, height - rhs.height)
    }

    /** `From<(usize, usize)>`: the first component becomes the width. */
    static function From(t: (USize, USize)): (c: MapCoordinate)
      ensures c.GetWidth() == t.0 && c.GetHeight() == t.1
    {
      MapCoordinate(t.0, t.1)
    }

    /** `Into<(usize, usize)>`: width first, then height. */
    function Into(): (t: (USize, USize))
      ensures t.0 == GetWidth() && t.1 == GetHeight()
    {
      (width, height)
    }

    /**
     * The radicand of `get_distance`: the square of the Euclidean distance,
     * computed on the signed differences as the `f64` code does.
     */
    function SquaredDistance(other: MapCoordinate): (d: nat)
      ensures d == 0 <==> this == other
    {
      Square(width - other.width) + Square(height - other.height)
    }
  }

  function Square(x: int): (y: nat)
    ensures y == 0 <==> x == 0
  {
    if x < 0 then SquareNat(-x) else SquareNat(x)
  }

  function SquareNat(n: nat): (y: nat)
    ensures y == n * n
    ensures y == 0 <==> n == 0
  {
    n * n
  }

  /** Changing the width leaves the height alone and vice versa, whatever the order. */
  lemma SettersCommute(c: MapCoordinate, w: USize, h: USize)
    ensures c.SetWidth(w).SetHeight(h) == c.SetHeight(h).SetWidth(w) == MapCoordinate.New(w, h)
  {
  }

  /** Subtracting what was just added gives back the left operand. */
  lemma AddThenSub(a: MapCoordinate, b: MapCoordinate)
    requires a.width + b.width <= USIZE_MAX && a.height + b.height <= USIZE_MAX
    ensures a.Add(b).Sub(b) == a
  {
  }

  /** Adding back what was subtracted gives back the left operand. */
  lemma SubThenAdd(a: MapCoordinate, b: MapCoordinate)
    requires b.width <= a.width && b.height <= a.height
    ensures a.Sub(b).Add(b) == a
  {
  }

  lemma AddCommutes(a: MapCoordinate, b: MapCoordinate)
    requires a.width + b.width <= USIZE_MAX && a.height + b.height <= USIZE_MAX
    ensures a.Add(b) == b.Add(a)
  {
  }

  /** Tuple to coordinate to tuple is the identity, and so is the other way round. */
  lemma FromIntoRoundTrip(t: (USize, USize), c: MapCoordinate)
    ensures MapCoordinate.From(t).Into() == t
    ensures MapCoordinate.From(c.Into()) == c
  {
  }

  /** The distance does not depend on the order of its two arguments. */
  lemma DistanceSymmetric(a: MapCoordinate, b: MapCoordinate)
    ensures a.SquaredDistance(b) == b.SquaredDistance(a)
  {
  }

  /**
   * The two pairs of the distance test: (4,0)-(1,1) is sqrt 10, but
   * (4,0)-(3,1) is sqrt 2, not the sqrt 10 the test asserts for it.
   */
  lemma DistanceTestValues()
    ensures MapCoordinate.New(4, 0).SquaredDistance(MapCoordinate.New(1, 1)) == 10
    ensures MapCoordinate.New(1, 1).SquaredDistance(MapCoordinate.New(4, 0)) == 10
    ensures MapCoordinate.New(4, 0).SquaredDistance(MapCoordinate.New(3, 1)) == 2
  {
  }
}
