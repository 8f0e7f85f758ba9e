/** One frame of the game loop in `main` (main.cpp): the restart key, the
    Playing step (input, player update, attack timer, projectile travel, enemy
    spawning, pursuit, the three collision passes, the game-over check) and the
    sweep that every frame ends with. */
module Game {
  import opened Wrappers
  import opened Seqs
  import opened Geometry
  import opened Players
  import opened Enemies
  import opened Entities
  import opened Targeting
  import opened Combat
  import opened Lifecycle

  datatype GameState = Playing | GameOver

  /** Everything that survives from one frame to the next: the player, the
      three collections and the spawn accumulator. */
  datatype World = World(
    state: GameState,
    player: Player,
    bullets: seq<Projectile>,
    enemies: seq<Enemy>,
    gems: seq<Gem>,
    spawnTimer: real)

  /** What the frame reads from outside: held movement keys, whether R was
      pressed, the elapsed time, and the random spawn draw. */
  datatype Input = Input(keys: Keys, restart: bool, dt: real, spawnX: int, spawnY: int)

  /** The velocity a new projectile gets for a target offset (dx, dy): the
      normalised offset times the projectile speed, supplied from outside. */
  type Aim = (real, real) -> (real, real)

  const SpawnInterval: real := 1.5
  const ClearRadiusSq: real := 10000.0
  const MuzzleOffset: real := 25.0

  const StartPlayer: Player := DefaultPlayer.(x := 400.0, y := 300.0)
  const StartWorld: World := World(Playing, StartPlayer, [], [], [], 0.0)

  // ---------------------------------------------------------------- attack

  /** The closest enemy exists and its truncated position is strictly inside the screen. */
  predicate TargetOnScreen(p: Player, es: seq<Enemy>)
  {
    var c := Closest(p, es);
    c.Some? && Contains(ScreenBounds, Trunc(es[c.value].x), Trunc(es[c.value].y))
  }

  /** The attack timer: it accumulates `dt`; once it reaches the interval it
      resets to 0 and, if a target is on screen, one projectile leaves the
      player's centre toward it. Missed attacks are not retried. */
  function Attack(p: Player, es: seq<Enemy>, bs: seq<Projectile>, dt: real, aim: Aim): (r: (Player, seq<Projectile>))
    ensures p.attackTimer + dt < p.attackInterval ==> r == (p.(attackTimer := p.attackTimer + dt), bs)
    ensures p.attackTimer + dt >= p.attackInterval ==> r.0 == p.(attackTimer := 0.0)
    ensures |bs| <= |r.1| <= |bs| + 1 && r.1[..|bs|] == bs
    ensures |r.1| == |bs| + 1 <==> p.attackTimer + dt >= p.attackInterval && TargetOnScreen(p, es)
    ensures |r.1| == |bs| + 1 ==>
      var t := es[Closest(p, es).value];
      && r.1[|bs|].active
      && r.1[|bs|].x == p.x + 25.0 && r.1[|bs|].y == p.y + 25.0
      && (r.1[|bs|].velX, r.1[|bs|].velY) == aim(t.x - p.x, t.y - p.y)
  {
    var timer := p.attackTimer + dt;
    if timer >= p.attackInterval then
      var fired :=
        if TargetOnScreen(p, es) then
          var t := es[Closest(p, es).value];
          var (vx, vy) := aim(t.x - p.x, t.y - p.y);
          bs + [Projectile(p.x + MuzzleOffset, p.y + MuzzleOffset, vx, vy, true)]
        else bs;
      (p.(attackTimer := 0.0), fired)
    else (p.(attackTimer := timer), bs)
  }

  /** A projectile is only ever fired at a target in [1,800) x [1,600); in
      particular targets on the lines x = 0, x = 800, y = 0, y = 600 never draw fire. */
  lemma AttackOnlyAtInteriorTargets(p: Player, es: seq<Enemy>, bs: seq<Projectile>, dt: real, aim: Aim)
    ensures |Attack(p, es, bs, dt, aim).1| == |bs| + 1 ==>
      var t := es[Closest(p, es).value];
      1.0 <= t.x < 800.0 && 1.0 <= t.y < 600.0
  {
    if |Attack(p, es, bs, dt, aim).1| == |bs| + 1 {
      var t := es[Closest(p, es).value];
      ScreenContainsTruncated(t.x, t.y);
    }
  }

  /** Two frames whose times add up to the interval, starting from a reset
      timer: the first accumulates, the second fires (given a target) and resets. */
  lemma AttackSplitInterval(p: Player, es: seq<Enemy>, bs: seq<Projectile>, dt1: real, dt2: real, aim: Aim)
    requires p.attackTimer == 0.0 && dt1 >= 0.0 && dt2 > 0.0 && dt1 + dt2 == p.attackInterval
    requires TargetOnScreen(p, es)
    ensures var a1 := Attack(p, es, bs, dt1, aim);
      var a2 := Attack(a1.0, es, a1.1, dt2, aim);
      a1.1 == bs && |a2.1| == |bs| + 1 && a2.0.attackTimer == 0.0
  {
    var a1 := Attack(p, es, bs, dt1, aim);
    assert a1.0 == p.(attackTimer := dt1);
    ClosestReadsPosition(p, a1.0, es);
    assert TargetOnScreen(a1.0, es);
  }

  // ---------------------------------------------------------------- spawning

  /** The random draw: whole numbers in [0,800] x [0,600]. */
  predicate ValidDraw(sx: int, sy: int)
  {
    0 <= sx <= 800 && 0 <= sy <= 600
  }

  /** The clear-radius test: the distance from the player is at most 100. */
  predicate TooClose(x: real, y: real, p: Player)
  {
    var dx := x - p.x;
    var dy := y - p.y;
    dx * dx + dy * dy <= ClearRadiusSq
  }

  /** Where a drawn enemy appears: at the draw, or at the corner (0,0) when the
      draw is too close to the player. */
  function SpawnPoint(sx: int, sy: int, p: Player): (r: (real, real))
    ensures r == (sx as real, sy as real) || r == (0.0, 0.0)
    ensures r != (0.0, 0.0) ==> !TooClose(r.0, r.1, p)
    ensures !TooClose(sx as real, sy as real, p) ==> r == (sx as real, sy as real)
  {
    if TooClose(sx as real, sy as real, p) then (0.0, 0.0) else (sx as real, sy as real)
  }

  /** The spawn timer: once 1.5 seconds have accumulated, exactly one new active
      enemy is appended and the timer resets; otherwise nothing but the timer changes. */
  function Spawn(timer: real, es: seq<Enemy>, p: Player, dt: real, sx: int, sy: int): (r: (real, seq<Enemy>))
    requires ValidDraw(sx, sy)
    ensures timer + dt < 1.5 ==> r == (timer + dt, es)
    ensures timer + dt >= 1.5 ==> r.0 == 0.0 && |r.1| == |es| + 1 && r.1[..|es|] == es
    ensures timer + dt >= 1.5 ==> r.1[|es|] == NewEnemy(SpawnPoint(sx, sy, p).0, SpawnPoint(sx, sy, p).1)
    ensures timer + dt >= 1.5 ==> r.1[|es|].active
  {
    var t := timer + dt;
    if t >= SpawnInterval then
      var (x, y) := SpawnPoint(sx, sy, p);
      (0.0, es + [NewEnemy(x, y)])
    else (t, es)
  }

  /** The corner fallback does not keep enemies away from the player: a player
      standing at the corner gets the new enemy on top of it. */
  lemma SpawnFallbackCanLandOnPlayer(p: Player)
    requires p.x == 0.0 && p.y == 0.0
    ensures var r := Spawn(1.5, [], p, 0.0, 50, 50);
      |r.1| == 1 && r.1[0].x == p.x && r.1[0].y == p.y
  {
    assert TooClose(50.0, 50.0, p);
  }

  // ---------------------------------------------------------------- movement

  /** Every projectile, active or not, moves by its velocity times `dt`. */
  function TravelAll(bs: seq<Projectile>, dt: real): (r: seq<Projectile>)
    ensures |r| == |bs|
    ensures forall i :: 0 <= i < |bs| ==> r[i] == Travel(bs[i], dt)
  {
    seq(|bs|, i requires 0 <= i < |bs| => Travel(bs[i], dt))
  }

  /** Every enemy, active or not, takes its pursuit step toward the player. */
  function PursueAll(es: seq<Enemy>, px: real, py: real, dt: real, step: Pursuit): (r: seq<Enemy>)
    ensures |r| == |es|
    ensures forall i :: 0 <= i < |es| ==> r[i] == Pursue(es[i], px, py, dt, step)
  {
    seq(|es|, i requires 0 <= i < |es| => Pursue(es[i], px, py, dt, step))
  }

  // ---------------------------------------------------------------- the frame

  /** The Playing part of a frame up to the collision passes. */
  function Advance(w: World, input: Input, aim: Aim, step: Pursuit): (r: World)
    requires ValidDraw(input.spawnX, input.spawnY)
    ensures r.state == w.state && r.gems == w.gems
    ensures |r.enemies| == |w.enemies| || |r.enemies| == |w.enemies| + 1
    ensures |r.bullets| == |w.bullets| || |r.bullets| == |w.bullets| + 1
    ensures InBounds(r.player) && r.player.life == w.player.life
  {
    var p1 := Update(HandleInput(w.player, input.keys, input.dt), input.dt);
    var (p2, bs1) := Attack(p1, w.enemies, w.bullets, input.dt, aim);
    var (timer, es1) := Spawn(w.spawnTimer, w.enemies, p2, input.dt, input.spawnX, input.spawnY);
    World(w.state, p2, TravelAll(bs1, input.dt), PursueAll(es1, p2.x, p2.y, input.dt, step), w.gems, timer)
  }

  /** The collision passes in their source order, then the game-over check. */
  function Resolve(w: World): (r: World)
    ensures r.state == GameOver <==> r.player.life <= 0
    ensures r.player.life == w.player.life || r.player.life == w.player.life - ContactDamage
    ensures r.player.x == w.player.x && r.player.y == w.player.y && r.player.level == w.player.level
    ensures r.spawnTimer == w.spawnTimer
    ensures |r.enemies| == |w.enemies| && |r.bullets| == |w.bullets| && |r.gems| >= |w.gems|
    ensures forall j :: 0 <= j < |w.enemies| ==> r.enemies[j] == w.enemies[j].(active := r.enemies[j].active)
    ensures forall j :: 0 <= j < |w.enemies| && !w.enemies[j].active ==> !r.enemies[j].active
  {
    var (bs, es, gems) := BulletPass(w.bullets, w.enemies, w.gems);
    var pr := PlayerBox(w.player);
    var (es2, p1) := ContactPass(es, pr, w.player);
    var (gems2, p2) := GemPass(gems, pr, p1);
    World(if p2.life <= 0 then GameOver else Playing, p2, bs, es2, gems2, w.spawnTimer)
  }

  /** Pressing R in GameOver resets life, experience, level and position and
      empties the collections; the level threshold, attack interval, both player
      timers and the spawn timer are kept. */
  function Restart(w: World): (r: World)
    ensures r.state == Playing
    ensures r.bullets == [] && r.enemies == [] && r.gems == []
    ensures r.player.life == Trunc(w.player.maxLife) && (w.player.maxLife == 100.0 ==> r.player.life == 100)
    ensures r.player.xp == 0 && r.player.level == 1 && r.player.x == 400.0 && r.player.y == 300.0
    ensures r.player.xpToNextLevel == w.player.xpToNextLevel && r.player.attackInterval == w.player.attackInterval
    ensures r.player.invincibilityTimer == w.player.invincibilityTimer && r.player.attackTimer == w.player.attackTimer
    ensures r.player.speed == w.player.speed && r.player.maxLife == w.player.maxLife
    ensures r.spawnTimer == w.spawnTimer
  {
    World(Playing, w.player.(life := Trunc(w.player.maxLife), xp := 0, level := 1, x := 400.0, y := 300.0),
          [], [], [], w.spawnTimer)
  }

  function Sweep(w: World): (r: World)
    ensures Compact(r.bullets, r.enemies, r.gems)
    ensures r.state == w.state && r.player == w.player && r.spawnTimer == w.spawnTimer
  {
    SweepCompacts(w.bullets, w.enemies, w.gems);
    w.(bullets := SweepBullets(w.bullets), enemies := SweepEnemies(w.enemies), gems := SweepGems(w.gems))
  }

  predicate Swept(w: World)
  {
    Compact(w.bullets, w.enemies, w.gems)
  }

  /** One iteration of the main loop. */
  function Frame(w: World, input: Input, aim: Aim, step: Pursuit): (r: World)
    requires ValidDraw(input.spawnX, input.spawnY)
    ensures Swept(r)
    ensures w.state == GameOver && !input.restart ==> r.state == GameOver
    ensures w.state == GameOver && r.state == Playing ==> input.restart
    ensures w.state == Playing || input.restart ==> (r.state == GameOver <==> r.player.life <= 0)
    ensures w.state == Playing ==> r.player.life >= w.player.life - ContactDamage
  {
    var w1 := if w.state == GameOver && input.restart then Restart(w) else w;
    var w2 := if w1.state == Playing then Resolve(Advance(w1, input, aim, step)) else w1;
    Sweep(w2)
  }

  /** Game over is a resting state: without R, a swept world stays exactly as it is. */
  lemma GameOverWaitsForRestart(w: World, input: Input, aim: Aim, step: Pursuit)
    requires ValidDraw(input.spawnX, input.spawnY)
    requires w.state == GameOver && !input.restart && Swept(w)
    ensures Frame(w, input, aim, step) == w
  {
    SweepCompacts(w.bullets, w.enemies, w.gems);
  }

  /** The frame after a restart starts from the reset player with empty collections. */
  lemma RestartFrame(w: World, input: Input, aim: Aim, step: Pursuit)
    requires ValidDraw(input.spawnX, input.spawnY)
    requires w.state == GameOver && input.restart
    ensures Frame(w, input, aim, step) == Sweep(Resolve(Advance(Restart(w), input, aim, step)))
    ensures Advance(Restart(w), input, aim, step).gems == []
    ensures |Advance(Restart(w), input, aim, step).enemies| <= 1
  {
  }

  /** The gem pass never checks `active`, but in a frame that starts swept every
      gem it looks at is active, so the missing check changes nothing. */
  lemma GemPassSeesOnlyActiveGems(w: World, input: Input, aim: Aim, step: Pursuit)
    requires ValidDraw(input.spawnX, input.spawnY)
    requires Swept(w)
    ensures var a := Advance(w, input, aim, step);
      var gems := BulletPass(a.bullets, a.enemies, a.gems).2;
      forall k :: 0 <= k < |gems| ==> gems[k].active
  {
    var a := Advance(w, input, aim, step);
    var r := BulletPass(a.bullets, a.enemies, a.gems);
    BulletPassDrops(a.bullets, a.enemies, a.gems);
    forall k | 0 <= k < |r.2|
      ensures r.2[k].active
    {
      if k < |a.gems| {
        assert r.2[k] == r.2[..|a.gems|][k];
      } else {
        assert IsDropOf(a.enemies, r.1, r.2[k]);
      }
    }
  }

  /** The starting world is swept and playing, with the fresh player's stats at (400,300). */
  lemma StartWorldIsReady()
    ensures StartWorld.state == Playing && Swept(StartWorld)
    ensures StartWorld.player.life == 100 && StartWorld.player.level == 1 && InBounds(StartWorld.player)
  {
  }
}
