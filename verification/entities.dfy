/** The two records declared in main.cpp: projectiles and experience gems. */
module Entities {
  import opened Geometry

  datatype Projectile = Projectile(x: real, y: real, velX: real, velY: real, active: bool)

  datatype Gem = Gem(x: real, y: real, xpValue: int, active: bool)

  const BulletWidth: int := 10
  const BulletHeight: int := 5
  const GemSize: int := 15
  const GemXp: int := 10

  /** The `bulletRect` built in the collision pass: 10 by 5 at the truncated position. */
  function BulletBox(b: Projectile): (r: Box)
    ensures Positive(r) && r.w == 10 && r.h == 5
    ensures b.x >= 0.0 ==> r.x as real <= b.x < r.x as real + 1.0
    ensures b.y >= 0.0 ==> r.y as real <= b.y < r.y as real + 1.0
    ensures b.x < 0.0 ==> r.x as real - 1.0 < b.x <= r.x as real
    ensures b.y < 0.0 ==> r.y as real - 1.0 < b.y <= r.y as real
  {
    Box(Trunc(b.x), Trunc(b.y), BulletWidth, BulletHeight)
  }

  /** `Gem::getRect`: 15 by 15 at the truncated position. */
  function GemBox(g: Gem): (r: Box)
    ensures Positive(r) && r.w == 15 && r.h == 15
    ensures g.x >= 0.0 ==> r.x as real <= g.x < r.x as real + 1.0
    ensures g.y >= 0.0 ==> r.y as real <= g.y < r.y as real + 1.0
    ensures g.x < 0.0 ==> r.x as real - 1.0 < g.x <= r.x as real
    ensures g.y < 0.0 ==> r.y as real - 1.0 < g.y <= r.y as real
  {
    Box(Trunc(g.x), Trunc(g.y), GemSize, GemSize)
  }

  /** A gem built with the record's defaults: worth 10 experience and active. */
  function NewGem(x: real, y: real): (g: Gem)
    ensures g.active && g.xpValue == 10
    ensures g.x == x && g.y == y
  {
    Gem(x, y, GemXp, true)
  }

  /** One frame of straight-line travel; only the position changes. */
  function Travel(b: Projectile, dt: real): (r: Projectile)
    ensures r.velX == b.velX && r.velY == b.velY && r.active == b.active
    ensures r.x - b.x == b.velX * dt && r.y - b.y == b.velY * dt
  {
    b.(x := b.x + b.velX * dt, y := b.y + b.velY * dt)
  }
}
