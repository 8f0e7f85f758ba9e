/** Integer boxes, the box-overlap test used for every collision, the screen
    rectangle test used before firing, and the float-to-int conversion that
    turns an entity position into a box origin (main.cpp, Player.hpp, Enemy.hpp). */
module Geometry {

  /** An `SDL_Rect`: origin and extent in whole pixels. */
  datatype Box = Box(x: int, y: int, w: int, h: int)

  /** `checkCollision`; `SDL_HasIntersection` computes the same answer for the
      positive-size boxes the game builds. */
  predicate Collides(a: Box, b: Box)
  {
    a.x < b.x + b.w && a.x + a.w > b.x && a.y < b.y + b.h && a.y + a.h > b.y
  }

  predicate Positive(b: Box)
  {
    b.w > 0 && b.h > 0
  }

  /** The pixel (px, py) lies in the half-open area of `b`. */
  predicate Covers(b: Box, px: int, py: int)
  {
    b.x <= px < b.x + b.w && b.y <= py < b.y + b.h
  }

  /** Two positive boxes collide exactly when some pixel lies in both of them,
      i.e. they overlap strictly on both axes. */
  lemma CollidesIffSharedPixel(a: Box, b: Box)
    requires Positive(a) && Positive(b)
    ensures Collides(a, b) <==> exists px, py :: Covers(a, px, py) && Covers(b, px, py)
  {
    if Collides(a, b) {
      var px := if a.x < b.x then b.x else a.x;
      var py := if a.y < b.y then b.y else a.y;
      assert Covers(a, px, py) && Covers(b, px, py);
    }
  }

  lemma CollidesSymmetric(a: Box, b: Box)
    ensures Collides(a, b) <==> Collides(b, a)
  {
  }

  /** Boxes that only share an edge do not collide. */
  lemma EdgeContactDoesNotCollide(a: Box, b: Box)
    requires a.x + a.w == b.x || a.y + a.h == b.y
    ensures !Collides(a, b)
  {
  }

  /** The C++ conversion `(int)r` of a float: truncation toward zero. */
  function Trunc(r: real): (t: int)
    ensures r >= 0.0 ==> 0 <= t && t as real <= r < t as real + 1.0
    ensures r < 0.0 ==> t <= 0 && t as real - 1.0 < r <= t as real
  {
    if r >= 0.0 then r.Floor else -((-r).Floor)
  }

  /** The game's own `Rect`, whose `width` and `height` fields are used as the
      right and bottom edges, not as extents. */
  datatype Rect = Rect(x: int, y: int, width: int, height: int)

  /** `Rect::contains`: strictly inside on every side. */
  predicate Contains(r: Rect, px: int, py: int)
  {
    (px > r.x && px < r.width) && (py > r.y && py < r.height)
  }

  const ScreenWidth: int := 800
  const ScreenHeight: int := 600
  const ScreenBounds: Rect := Rect(0, 0, ScreenWidth, ScreenHeight)

  /** On the screen rectangle the test accepts exactly the interior points; the
      border rows and columns 0, 800, 0 and 600 are rejected. */
  lemma ScreenContainsInterior(px: int, py: int)
    ensures Contains(ScreenBounds, px, py) <==> 0 < px < 800 && 0 < py < 600
    ensures px == 0 || px == 800 || py == 0 || py == 600 ==> !Contains(ScreenBounds, px, py)
  {
  }

  /** A position handed to the screen test through `(int)` conversions passes
      exactly when it lies in [1,800) x [1,600): anything left of x = 1 or above
      y = 1 truncates onto the rejected border. */
  lemma ScreenContainsTruncated(x: real, y: real)
    ensures Contains(ScreenBounds, Trunc(x), Trunc(y)) <==> 1.0 <= x < 800.0 && 1.0 <= y < 600.0
  {
  }

  /** Because `width` is read as the right edge, a rectangle whose origin lies
      past its own width contains no point at all. */
  lemma ContainsReadsWidthAsEdge(px: int, py: int)
    ensures !Contains(Rect(100, 100, 50, 50), px, py)
  {
  }
}
