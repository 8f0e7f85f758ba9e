/** The enemy record (Enemy.hpp) and its per-frame pursuit step (Enemy.cpp). */
module Enemies {
  import opened Geometry

  datatype Enemy = Enemy(x: real, y: real, speed: real, health: int, active: bool)

  const EnemySize: int := 40
  const DefaultSpeed: real := 120.0
  const DefaultHealth: int := 1

  /** `Enemy{.x = x, .y = y}`: the remaining fields take their defaults. */
  function NewEnemy(x: real, y: real): (e: Enemy)
    ensures e.active
    ensures e.x == x && e.y == y
    ensures e.speed == 120.0 && e.health == 1
  {
    Enemy(x, y, DefaultSpeed, DefaultHealth, true)
  }

  /** `Enemy::getRect`: a 40 by 40 box whose origin is the position truncated toward zero. */
  function EnemyBox(e: Enemy): (r: Box)
    ensures Positive(r) && r.w == 40 && r.h == 40
    ensures e.x >= 0.0 ==> r.x as real <= e.x < r.x as real + 1.0
    ensures e.y >= 0.0 ==> r.y as real <= e.y < r.y as real + 1.0
    ensures e.x < 0.0 ==> r.x as real - 1.0 < e.x <= r.x as real
    ensures e.y < 0.0 ==> r.y as real - 1.0 < e.y <= r.y as real
  {
    Box(Trunc(e.x), Trunc(e.y), EnemySize, EnemySize)
  }

  /** The normalised-vector displacement of `Enemy::update`, supplied from
      outside: given the enemy, the player position and `dt`, its new position. */
  type Pursuit = (Enemy, real, real, real) -> (real, real)

  /** `Enemy::update`: an enemy standing exactly on the player (distance 0) does
      not move; otherwise only its position changes, as `step` says. */
  function Pursue(e: Enemy, px: real, py: real, dt: real, step: Pursuit): (r: Enemy)
    ensures r.speed == e.speed && r.health == e.health && r.active == e.active
    ensures e.x == px && e.y == py ==> r == e
    ensures !(e.x == px && e.y == py) ==> (r.x, r.y) == step(e, px, py, dt)
  {
    if e.x == px && e.y == py then e
    else
      var (nx, ny) := step(e, px, py, dt);
      e.(x := nx, y := ny)
  }
}
