# Survivor game: per-frame simulation model

A Dafny model of the simulation core of a small SDL arcade survival game. The
player auto-attacks the nearest enemy. Enemies spawn every 1.5 seconds and chase
the player. A defeated enemy drops an experience gem, and experience levels the
player up. Rendering, asset loading and SDL plumbing are not modelled; what
remains is the frame step of `main`, the player rules, the enemy record,
targeting, the three collision passes, the end-of-frame sweep and sprite frame
cycling.

Modules (one per component):

- `Geometry`: `SDL_Rect` boxes, `checkCollision`, the game's `Rect::contains`, and `(int)` truncation toward zero.
- `Entities`: the `Projectile` and `Gem` records of main.cpp.
- `Players`: the player record, `AnimKey` ordering, `handleInput`, `update` and `takeDamage`.
- `Enemies`: the enemy record, its box, and the guarded pursuit step.
- `Animations`: `Animation::update`, with the C++ `%` written out.
- `Targeting`: `findClosestEnemy`.
- `Combat`: the projectile×enemy, player×enemy and player×gem passes.
- `Lifecycle`: the three `erase_if` sweeps.
- `Game`: the attack timer, spawning, the frame and the Playing/GameOver state machine.
- `Seqs` and `Wrappers`: generic helpers.

Modelling conventions:

- Positions, speeds and timers are `real`, with no IEEE rounding.
- Every `(int)` cast of a float is `Geometry.Trunc`, which truncates toward zero.
- `SDL_HasIntersection` is modelled by the same `Collides` as `checkCollision`. The two agree on boxes of positive size, and every box the game builds is positive (player 50×50, enemy 40×40, bullet 10×5, gem 15×15).
- The target position is converted to `int` when it is passed to `Rect::contains`. So a target fires only when it lies in [1,800) × [1,600) (`Geometry.ScreenContainsTruncated`).
- Three things come from outside as parameters of `Game.Frame`:
  - the random spawn point (`Input.spawnX/spawnY`, whole numbers in [0,800] × [0,600]);
  - the projectile velocity for a target offset (`Aim`);
  - the enemy displacement of `Enemy::update` (`Enemies.Pursuit`). Only its "distance > 0" guard is modelled: an enemy standing exactly on the player does not move.

Quirks of the code that the model keeps as written:

- A gem drops at `(e.x+10, e.y+10)`, not at the enemy's position (main.cpp:247).
- The gem pass does not test `gem.active` (main.cpp:263-268). `Game.GemPassSeesOnlyActiveGems` shows this is unobservable in a frame that starts swept.
- `handleInput` never updates the facing direction (Player.cpp:4-15).
- The invincibility countdown can go below zero (Player.cpp:20-22).
- The clear-radius fallback puts the enemy at (0,0). That point can itself be within 100 of the player (`Game.SpawnFallbackCanLandOnPlayer`).
- The test named `distSq` compares the true distance with 100. It is modelled as `dx*dx+dy*dy <= 10000`.
- Restart keeps `xpToNextLevel`, `attackInterval`, both player timers and the spawn timer (main.cpp:172-180).
- Restart sets `life` from the float `maxLife` through an `(int)` conversion.
- The arena size, damage, spawn interval and the other tuning values are fixed constants in the code, and so they are constants here.

## Model

| member | source | states |
|---|---|---|
| Geometry.Collides | main.cpp:15-18 | `checkCollision`: strict overlap on both axes; its meaning as a shared pixel is `Geometry.CollidesIffSharedPixel` |
| Geometry.CollidesIffSharedPixel | main.cpp:15-18 | two positive boxes collide iff some pixel lies in both, i.e. they overlap strictly on both axes |
| Geometry.CollidesSymmetric | main.cpp:15-18 | the collision test is symmetric |
| Geometry.EdgeContactDoesNotCollide | main.cpp:15-18 | boxes that only share an edge (`a.x + a.w == b.x`, or the same vertically) do not collide |
| Geometry.Trunc | Player.hpp:46 | the float-to-int cast lands within 1 of the value, toward zero, for both signs |
| Geometry.Contains | main.cpp:58-60 | `Rect::contains`: strictly right of `x`, left of `width`, below `y` and above `height`; pinned down for the screen by `Geometry.ScreenContainsInterior` |
| Geometry.ScreenContainsInterior | main.cpp:58-60 | the screen rectangle accepts exactly 0 < px < 800 and 0 < py < 600; the border lines never pass |
| Geometry.ScreenContainsTruncated | main.cpp:193 | a float position passed through the int conversion is inside iff it lies in [1,800) × [1,600) |
| Geometry.ContainsReadsWidthAsEdge | main.cpp:55-60 | `width`/`height` act as right/bottom edges: Rect(100,100,50,50) contains no point |
| Entities.BulletBox | main.cpp:236 | a bullet's box is 10×5, and its origin is the position truncated toward zero for both signs. A bullet can be boxed left of or above the screen before the sweep |
| Entities.GemBox | main.cpp:74-76 | a gem's box is 15×15, and its origin is the position truncated toward zero for both signs |
| Entities.NewGem | main.cpp:69-73 | a new gem is active, is worth 10 and sits at the given point |
| Entities.Travel | main.cpp:208-211 | integration moves a bullet by exactly velocity × dt and changes nothing else |
| Players.KeyLess | Player.hpp:15-17 | the `std::tie` comparison of (state, direction); shown lexicographic and a strict total order by the next two rows |
| Players.KeyLessLexicographic | Player.hpp:15-17 | `AnimKey` order compares the state first (Idle before Walk) and breaks ties by direction |
| Players.KeyLessStrictOrder | Player.hpp:15-17 | `AnimKey` order is irreflexive, transitive, asymmetric and total on distinct keys |
| Players.HandleInput | Player.cpp:4-15 | W/S move y by ∓speed·dt and A/D move x likewise; opposite keys cancel; nothing but x, y changes |
| Players.Clamp | Player.cpp:18-19 | the result lies in [lo,hi], equals the input when it is already inside, and is a bound otherwise |
| Players.ClampIdempotent | Player.cpp:18-19 | clamping twice is clamping once |
| Players.ClampPosition | Player.cpp:18-19 | each axis is clamped on its own to the nearest bound of [0,750] × [0,550], so the player ends in bounds and an in-bounds player is unchanged |
| Players.ClampPositionIdempotent | Player.cpp:18-19 | position clamping is idempotent |
| Players.TickInvincibility | Player.cpp:20-22 | a positive countdown drops by exactly dt (possibly below 0); a non-positive one is untouched |
| Players.LevelUp | Player.cpp:23-28 | at threshold: level+1, xp 0, threshold +50, interval ×0.9; below it the player is unchanged |
| Players.Update | Player.cpp:17-28 | the position is clamped per axis into bounds, the player gains at most one level (exactly one iff xp ≥ threshold), and keeps its life and timers apart from the countdown |
| Players.LevelUpShortensInterval | Player.cpp:27 | a level-up strictly shortens a positive attack interval and keeps it positive |
| Players.LevelUpExample | Player.cpp:23-28 | 100/100 experience gives level+1, xp 0, threshold 150 and interval ×0.9 |
| Players.TakeDamage | Player.cpp:36-41 | when not invincible, life drops by d and the countdown becomes 0.5; otherwise nothing changes; afterwards the player is invincible |
| Players.TakeDamageOnce | Player.cpp:36-41 | two hits without an update in between cost life once |
| Players.GracePeriodWindow | Player.cpp:20-41 | after a hit, a 0.4 s update still blocks the next hit, while a 0.6 s update lets it through |
| Players.PlayerBox | Player.hpp:45-47 | the player's box is 50×50, with its origin the position truncated toward zero |
| Players.FreshPlayer | Player.hpp:22-31 | defaults: life 100, xp 0, level 1, threshold 100, interval 1.0, both timers 0 |
| Enemies.NewEnemy | Enemy.hpp:4-8 | a new enemy is active, has speed 120 and health 1, and sits at the given point |
| Enemies.EnemyBox | Enemy.hpp:13-15 | an enemy's box is 40×40, with its origin the position truncated toward zero |
| Enemies.Pursue | Enemy.cpp:4-14 | an enemy on the player's exact position does not move; pursuit changes only the position |
| Animations.CQuot | Animation.hpp:19 | the C++ quotient truncates toward zero, so it has the sign of the dividend |
| Animations.CRem | Animation.hpp:19 | the C++ remainder is what the truncated quotient leaves (`a == CQuot(a, b) * b + r`), so it takes the dividend's sign and is smaller than the divisor in magnitude |
| Animations.CRemWraps | Animation.hpp:19 | the remainder is the identity below the divisor, and the divisor itself wraps to 0 |
| Animations.Update | Animation.hpp:12-21 | with no sprite or ≤ 1 frame nothing changes; below the duration only the timer grows, by dt; otherwise the timer resets to 0 |
| Animations.UpdateAdvancesFrame | Animation.hpp:16-20 | when the timer fires the frame advances by one, and wraps from the last frame to 0 |
| Animations.UpdateKeepsFrameInRange | Animation.hpp:19 | a frame index inside [0,totalFrames) stays inside |
| Targeting.DistSqNonNegative | main.cpp:28-30 | the squared distance the scan compares is never negative, and is 0 for an enemy standing on the player |
| Targeting.ScanFrom | main.cpp:24-38 | the scan's loop keeps "earliest active enemy at minimum distance so far" and ends with it for the whole list |
| Targeting.Closest | main.cpp:20-40 | none iff no enemy is active; otherwise an active enemy at distance ≤ every active one, with no earlier active enemy as close |
| Targeting.ClosestUnique | main.cpp:34-37 | a strictly nearest active enemy is the one returned |
| Targeting.ScanFromReadsPosition | main.cpp:28-30 | the scan depends on the player only through its position |
| Targeting.ClosestReadsPosition | main.cpp:28-30 | players at the same position get the same target |
| Combat.FirstHitFrom | main.cpp:238-250 | the inner loop from index i stops at the first active enemy the bullet overlaps, or finds none |
| Combat.FirstHit | main.cpp:238-250 | a bullet's victim is the first active overlapping enemy; none iff it overlaps no active enemy |
| Combat.DropFor | main.cpp:247 | a dropped gem is active, is worth 10, and sits 10 right of and 10 below the enemy |
| Combat.Shot | main.cpp:232-251 | an active bullet with a victim deactivates both and appends one gem; otherwise nothing changes; active enemies plus gems is conserved |
| Combat.ShotDrops | main.cpp:244-248 | a gem a shot appends is the drop of the enemy it deactivated |
| Combat.BulletPass | main.cpp:232-251 | only active bullets and enemies change, and only to inactive; earlier gems are kept; the active enemies plus the gems stay constant in number, so each new gem matches one enemy newly inactive |
| Combat.BulletPassGemPerBullet | main.cpp:244-248 | one gem is appended per bullet that goes inactive, so no enemy is claimed by two bullets |
| Combat.BulletPassDrops | main.cpp:244-248 | every appended gem is the drop of an enemy that was active before the pass and is inactive after |
| Combat.BulletPassExample | main.cpp:232-251 | a bullet and an enemy both at (100,100) end inactive, with one gem at (110,110) |
| Combat.SurvivorMisses | main.cpp:232-251 | a bullet still active after the pass overlaps no enemy that is active after it |
| Combat.StoppedBulletHit | main.cpp:232-251 | a bullet the pass deactivates overlaps an enemy that was active before the pass and is inactive after it |
| Combat.CollectedXp | main.cpp:263-269 | the summed value of the gems whose box overlaps the player's, active or not: 0 when none overlaps, never negative when no gem is worth less than 0 |
| Combat.ContactPass | main.cpp:253-262 | exactly the active touching enemies go inactive; any contact costs one `takeDamage(40)`, and none leaves the player unchanged |
| Combat.GemPass | main.cpp:263-269 | exactly the gems overlapping the player go inactive, whatever their flag; only the player's xp changes |
| Combat.GemPassXp | main.cpp:263-269 | xp rises by exactly the summed value of the overlapping gems |
| Lifecycle.BulletKept | main.cpp:278 | a bullet survives the sweep iff it is active and inside [0,800] × [0,600], borders included |
| Lifecycle.SweepBullets | main.cpp:277-279 | keeps, in order, exactly the active bullets within [0,800] × [0,600] (a subsequence) |
| Lifecycle.SweepEnemies | main.cpp:280 | keeps, in order, exactly the active enemies (a subsequence) |
| Lifecycle.SweepGems | main.cpp:281 | keeps, in order, exactly the active gems (a subsequence) |
| Lifecycle.SweepCompacts | main.cpp:277-281 | the sweep leaves nothing to remove, leaves compact collections unchanged, and is idempotent |
| Game.TargetOnScreen | main.cpp:192-193 | there is a closest active enemy and its truncated position passes the screen test |
| Game.Attack | main.cpp:190-206 | below the interval the timer accumulates and nothing fires; otherwise it resets to 0, and at most one bullet is appended, exactly when a target is on screen, at player+25 and aimed at that target |
| Game.AttackOnlyAtInteriorTargets | main.cpp:192-193 | a bullet is fired only at a target in [1,800) × [1,600), so never at x=0, 800 or y=0, 600 |
| Game.AttackSplitInterval | main.cpp:190-206 | two frames summing to the interval fire exactly once, on the second, and reset the timer |
| Game.TooClose | main.cpp:217-220 | the draw is within distance 100 of the player, stated without the square root as a squared distance of at most 10000 |
| Game.SpawnPoint | main.cpp:215-223 | the enemy goes to the draw unless that is within distance 100 of the player, in which case it goes to (0,0) |
| Game.Spawn | main.cpp:213-226 | at 1.5 s exactly one active enemy is appended and the timer resets to 0; otherwise only the timer grows |
| Game.SpawnFallbackCanLandOnPlayer | main.cpp:219-223 | a player at (0,0) gets the fallback enemy on top of itself |
| Game.TravelAll | main.cpp:208-211 | every bullet, active or not, travels |
| Game.PursueAll | main.cpp:227-229 | every enemy, active or not, takes its pursuit step |
| Game.Advance | main.cpp:187-229 | before collisions, the player is in bounds with unchanged life, and at most one bullet and one enemy are added |
| Game.Resolve | main.cpp:231-273 | GameOver iff life ≤ 0 after the passes; the passes cost 0 or exactly 40 life; enemies change only their active flag, never from inactive to active |
| Game.Restart | main.cpp:170-183 | resets life to maxLife, xp 0, level 1 and position (400,300), and empties all three collections; keeps the threshold, the interval and the timers |
| Game.Sweep | main.cpp:276-281 | the end-of-frame sweep leaves compact collections and leaves the player and state alone |
| Game.Frame | main.cpp:165-281 | every frame ends swept; GameOver persists without R; only R leaves GameOver; when playing, GameOver iff life ≤ 0, and a frame costs at most 40 life |
| Game.GameOverWaitsForRestart | main.cpp:170-187 | in GameOver without R, a swept world is left exactly as it is |
| Game.RestartFrame | main.cpp:170-187 | R in GameOver restarts and then plays a frame from empty collections |
| Game.GemPassSeesOnlyActiveGems | main.cpp:263-269 | in a frame that starts swept, every gem the gem pass visits is active |
| Game.StartWorldIsReady | main.cpp:126-141 | the game starts Playing and swept, with a fresh in-bounds player at (400,300) |

## Left out

- Drawing is not modelled because it is I/O: SDL/TTF/IMG initialisation, window, renderer, texture and font loading, `drawText`, `Player::draw`, `Enemy::draw`, `Animation::draw`, and the render block with its health-bar clamp (main.cpp:283-335).
- Input and the clock are not modelled; they become `Input.keys`, `Input.restart` and `Input.dt`. The quit event and `isRunning` are left out because they only end the loop.
- The Mersenne-Twister spawn draw is left out as randomness; the draw is `Input.spawnX/spawnY`.
- Enemies.Pursue: the displacement `(diff / distance) * speed * dt` needs a square root. It is the `Pursuit` parameter, and only the zero-distance guard and "only the position changes" are stated.
- Game.Attack: the bullet velocity `(dx / distance) * 600` needs a square root. It is the `Aim` parameter applied to the target offset.
- Targeting.Closest: the `numeric_limits<float>::max()` starting minimum is read as "no candidate yet". An enemy at a squared distance of FLT_MAX or more is therefore still a target here, which it would not be in the code.
- IEEE float rounding is left out (for example `attackInterval * 0.9f`, `x += velX * dt`). So is the undefined behaviour of casting an out-of-range float to `int`.
- The sprite library and animation wiring are left out because the code is inconsistent there: `animController` is declared but `idleAnim` is used, and the map is indexed by `Direction`. For the same reason `Player::update` is modelled without its `idleAnim.update` call. `Animations.Update` models the frame cycling on its own.
- The global `bullets` vector is left out because `main` shadows it with a local vector. There is a single bullet sequence in `Game.World`.
- `Sprite.hpp` is reduced to its frame width, frame height and frame count, because the texture is a foreign handle.
- Game.Attack: when the closest enemy stands exactly on the player, the code divides 0 by 0 (main.cpp:201-202). The resulting NaN bullet fails every comparison of the sweep test (main.cpp:278), so the code never removes it. Here `Aim(0, 0)` is an ordinary real velocity, and `Lifecycle.BulletKept` sweeps that bullet like any other.
