/** Sprite-sheet frame cycling (`Animation::update`, Animation.hpp); the
    texture and drawing are not modelled. */
module Animations {
  import opened Wrappers

  /** The frame-count part of a `Sprite` record. */
  datatype Sprite = Sprite(frameWidth: int, frameHeight: int, totalFrames: int)

  datatype Animation = Animation(sprite: Option<Sprite>, currentFrame: int, timer: real, frameDuration: real)

  /** C++ `/` on `int`: the quotient is truncated toward zero. */
  function CQuot(a: int, b: int): (q: int)
    requires b > 0
    ensures a >= 0 ==> q >= 0
    ensures a < 0 ==> q <= 0
  {
    if a >= 0 then a / b else -((-a) / b)
  }

  /** C++ `%` on `int`: what is left after the truncated quotient, so the
      remainder takes the sign of the dividend. */
  function CRem(a: int, b: int): (r: int)
    requires b > 0
    ensures a == CQuot(a, b) * b + r
    ensures a >= 0 ==> 0 <= r < b
    ensures a < 0 ==> -b < r <= 0
  {
    if a >= 0 then a % b else -((-a) % b)
  }

  /** Inside the range the remainder is the identity, and `b % b` wraps to 0. */
  lemma CRemWraps(a: int, b: int)
    requires b > 0
    ensures 0 <= a < b ==> CRem(a, b) == a
    ensures a == b ==> CRem(a, b) == 0
  {
    if 0 <= a < b {
      assert a % b == a;
    }
    if a == b {
      assert a % b == 0;
    }
  }

  /** The animation cycles only with a sprite of at least two frames. */
  predicate Cycles(a: Animation)
  {
    a.sprite.Some? && a.sprite.value.totalFrames > 1
  }

  predicate FrameInRange(a: Animation)
  {
    a.sprite.Some? ==> 0 <= a.currentFrame < a.sprite.value.totalFrames
  }

  /** `Animation::update`. */
  function Update(a: Animation, dt: real): (r: Animation)
    ensures r.sprite == a.sprite && r.frameDuration == a.frameDuration
    ensures !Cycles(a) ==> r == a
    ensures Cycles(a) && a.timer + dt < a.frameDuration ==> r == a.(timer := a.timer + dt)
    ensures Cycles(a) && a.timer + dt >= a.frameDuration ==> r.timer == 0.0
  {
    if !Cycles(a) then a
    else
      var t := a.timer + dt;
      if t >= a.frameDuration then
        a.(timer := 0.0, currentFrame := CRem(a.currentFrame + 1, a.sprite.value.totalFrames))
      else a.(timer := t)
  }

  /** When the timer fires, the frame advances by one and wraps from the last frame to the first. */
  lemma UpdateAdvancesFrame(a: Animation, dt: real)
    requires Cycles(a) && FrameInRange(a) && a.timer + dt >= a.frameDuration
    ensures a.currentFrame + 1 < a.sprite.value.totalFrames ==> Update(a, dt).currentFrame == a.currentFrame + 1
    ensures a.currentFrame + 1 == a.sprite.value.totalFrames ==> Update(a, dt).currentFrame == 0
  {
    CRemWraps(a.currentFrame + 1, a.sprite.value.totalFrames);
  }

  /** A frame index inside the sheet stays inside it. */
  lemma UpdateKeepsFrameInRange(a: Animation, dt: real)
    requires FrameInRange(a)
    ensures FrameInRange(Update(a, dt))
  {
  }
}
