/** The player record and its rules (Player.hpp, Player.cpp): key-driven
    movement, position clamping, the invincibility countdown, single-step
    levelling and damage gated by invincibility. */
module Players {
  import opened Geometry

  datatype PlayerState = Idle | Walk

  datatype Direction = Left | Right | Up | Down

  /** Key of the sprite library map. */
  datatype AnimKey = AnimKey(state: PlayerState, dir: Direction)

  /** Underlying values of the two scoped enums, in declaration order. */
  function StateRank(s: PlayerState): nat
  {
    match s
    case Idle => 0
    case Walk => 1
  }

  function DirRank(d: Direction): nat
  {
    match d
    case Left => 0
    case Right => 1
    case Up => 2
    case Down => 3
  }

  /** `std::tie(a, b) < std::tie(c, d)` on two integer components. */
  predicate TieLess(a0: int, a1: int, b0: int, b1: int)
  {
    a0 < b0 || (!(b0 < a0) && a1 < b1)
  }

  /** `AnimKey::operator<`. */
  predicate KeyLess(a: AnimKey, b: AnimKey)
  {
    TieLess(StateRank(a.state), DirRank(a.dir), StateRank(b.state), DirRank(b.dir))
  }

  /** The order is lexicographic: the state decides, and the direction only
      breaks ties between equal states. */
  lemma KeyLessLexicographic(a: AnimKey, b: AnimKey)
    ensures a.state != b.state ==> (KeyLess(a, b) <==> a.state == Idle)
    ensures a.state == b.state ==> (KeyLess(a, b) <==> DirRank(a.dir) < DirRank(b.dir))
  {
  }

  /** A strict total order, as the key of an ordered map needs. */
  lemma KeyLessStrictOrder(a: AnimKey, b: AnimKey, c: AnimKey)
    ensures !KeyLess(a, a)
    ensures KeyLess(a, b) && KeyLess(b, c) ==> KeyLess(a, c)
    ensures a != b ==> KeyLess(a, b) || KeyLess(b, a)
    ensures KeyLess(a, b) ==> !KeyLess(b, a)
  {
  }

  /** The game-relevant fields of `Player`; the sprite library, the animation
      controller and the unused `isMoving` flag are not modelled. */
  datatype Player = Player(
    x: real, y: real,
    speed: real,
    attackTimer: real,
    life: int,
    maxLife: real,
    invincibilityTimer: real,
    xp: int,
    level: int,
    xpToNextLevel: int,
    attackInterval: real,
    currentState: PlayerState,
    currentDir: Direction)

  /** The in-class default member initialisers. */
  const DefaultPlayer: Player := Player(100.0, 300.0, 300.0, 0.0, 100, 100.0, 0.0, 0, 1, 100, 1.0, Idle, Down)

  const PlayerSize: int := 50
  const MaxX: real := 750.0
  const MaxY: real := 550.0
  const GracePeriod: real := 0.5
  const XpIncrement: int := 50
  const IntervalFactor: real := 0.9

  /** Movement keys held this frame: W, S, A, D. */
  datatype Keys = Keys(w: bool, s: bool, a: bool, d: bool)

  /** `Player::handleInput`: W moves up, S down, A left, D right, each by `speed * dt`.
      The facing direction is never updated. */
  function HandleInput(p: Player, keys: Keys, dt: real): (r: Player)
    ensures r == p.(x := r.x, y := r.y)
    ensures keys.w == keys.s ==> r.y == p.y
    ensures keys.w && !keys.s ==> r.y == p.y - p.speed * dt
    ensures keys.s && !keys.w ==> r.y == p.y + p.speed * dt
    ensures keys.a == keys.d ==> r.x == p.x
    ensures keys.a && !keys.d ==> r.x == p.x - p.speed * dt
    ensures keys.d && !keys.a ==> r.x == p.x + p.speed * dt
  {
    var step := p.speed * dt;
    var y1 := if keys.w then p.y - step else p.y;
    var y2 := if keys.s then y1 + step else y1;
    var x1 := if keys.a then p.x - step else p.x;
    var x2 := if keys.d then x1 + step else x1;
    p.(x := x2, y := y2)
  }

  /** `std::clamp` on a well-ordered range. */
  function Clamp(v: real, lo: real, hi: real): (r: real)
    requires lo <= hi
    ensures lo <= r <= hi
    ensures lo <= v <= hi ==> r == v
    ensures r == v || (v < lo && r == lo) || (hi < v && r == hi)
  {
    if v < lo then lo else if hi < v then hi else v
  }

  lemma ClampIdempotent(v: real, lo: real, hi: real)
    requires lo <= hi
    ensures Clamp(Clamp(v, lo, hi), lo, hi) == Clamp(v, lo, hi)
  {
  }

  predicate InBounds(p: Player)
  {
    0.0 <= p.x <= MaxX && 0.0 <= p.y <= MaxY
  }

  /** The first two lines of `Player::update`. */
  function ClampPosition(p: Player): (r: Player)
    ensures InBounds(r)
    ensures InBounds(p) ==> r == p
    ensures r.x == Clamp(p.x, 0.0, MaxX) && r.y == Clamp(p.y, 0.0, MaxY)
    ensures r == p.(x := r.x, y := r.y)
  {
    p.(x := Clamp(p.x, 0.0, MaxX), y := Clamp(p.y, 0.0, MaxY))
  }

  lemma ClampPositionIdempotent(p: Player)
    ensures ClampPosition(ClampPosition(p)) == ClampPosition(p)
  {
  }

  /** The countdown runs only while positive, and may overshoot below zero. */
  function TickInvincibility(p: Player, dt: real): (r: Player)
    ensures r == p.(invincibilityTimer := r.invincibilityTimer)
    ensures p.invincibilityTimer > 0.0 ==> r.invincibilityTimer + dt == p.invincibilityTimer
    ensures p.invincibilityTimer <= 0.0 ==> r == p
  {
    if p.invincibilityTimer > 0.0 then p.(invincibilityTimer := p.invincibilityTimer - dt) else p
  }

  /** One level at most: the check is an `if`, not a loop. */
  function LevelUp(p: Player): (r: Player)
    ensures r == p.(level := r.level, xp := r.xp, xpToNextLevel := r.xpToNextLevel, attackInterval := r.attackInterval)
    ensures p.xp >= p.xpToNextLevel ==>
      r.level == p.level + 1 && r.xp == 0 && r.xpToNextLevel == p.xpToNextLevel + 50
      && r.attackInterval == p.attackInterval * 0.9
    ensures p.xp < p.xpToNextLevel ==> r == p
  {
    if p.xp >= p.xpToNextLevel then
      p.(level := p.level + 1, xp := 0, xpToNextLevel := p.xpToNextLevel + XpIncrement,
         attackInterval := p.attackInterval * IntervalFactor)
    else p
  }

  /** `Player::update` without the animation call. */
  function Update(p: Player, dt: real): (r: Player)
    ensures InBounds(r)
    ensures InBounds(p) ==> r.x == p.x && r.y == p.y
    ensures r.x == Clamp(p.x, 0.0, MaxX) && r.y == Clamp(p.y, 0.0, MaxY)
    ensures p.level <= r.level <= p.level + 1
    ensures r.life == p.life && r.maxLife == p.maxLife && r.speed == p.speed && r.attackTimer == p.attackTimer
    ensures r.currentDir == p.currentDir && r.currentState == p.currentState
    ensures r.invincibilityTimer == (if p.invincibilityTimer > 0.0 then p.invincibilityTimer - dt else p.invincibilityTimer)
    ensures r.level == p.level + 1 <==> p.xp >= p.xpToNextLevel
  {
    LevelUp(TickInvincibility(ClampPosition(p), dt))
  }

  /** A level-up makes a positive attack interval strictly shorter but keeps it positive. */
  lemma LevelUpShortensInterval(p: Player)
    requires p.attackInterval > 0.0 && p.xp >= p.xpToNextLevel
    ensures 0.0 < LevelUp(p).attackInterval < p.attackInterval
  {
  }

  /** The levelling example: 100 of 100 experience moves to the next level with a 150 threshold. */
  lemma LevelUpExample(p: Player)
    requires p.xp == 100 && p.xpToNextLevel == 100
    ensures Update(p, 0.0).level == p.level + 1 && Update(p, 0.0).xp == 0
    ensures Update(p, 0.0).xpToNextLevel == 150 && Update(p, 0.0).attackInterval == p.attackInterval * 0.9
  {
  }

  /** `Player::takeDamage`. */
  function TakeDamage(p: Player, damage: int): (r: Player)
    ensures p.invincibilityTimer <= 0.0 ==> r == p.(life := p.life - damage, invincibilityTimer := 0.5)
    ensures p.invincibilityTimer > 0.0 ==> r == p
    ensures r.invincibilityTimer > 0.0
  {
    if p.invincibilityTimer <= 0.0 then p.(life := p.life - damage, invincibilityTimer := GracePeriod) else p
  }

  /** Two hits with no `update` in between cost life only once. */
  lemma TakeDamageOnce(p: Player, d1: int, d2: int)
    ensures TakeDamage(TakeDamage(p, d1), d2) == TakeDamage(p, d1)
  {
  }

  /** The grace period: after a hit, a frame of 0.4 seconds leaves the player
      invincible, while 0.6 seconds makes the next hit count again. */
  lemma GracePeriodWindow(p: Player, d: int)
    requires p.invincibilityTimer <= 0.0
    ensures TakeDamage(Update(TakeDamage(p, d), 0.4), d).life == p.life - d
    ensures TakeDamage(Update(TakeDamage(p, d), 0.6), d).life == p.life - 2 * d
  {
  }

  /** `Player::getRect`. */
  function PlayerBox(p: Player): (r: Box)
    ensures Positive(r) && r.w == 50 && r.h == 50
    ensures p.x >= 0.0 ==> r.x as real <= p.x < r.x as real + 1.0
    ensures p.y >= 0.0 ==> r.y as real <= p.y < r.y as real + 1.0
    ensures p.x < 0.0 ==> r.x as real - 1.0 < p.x <= r.x as real
    ensures p.y < 0.0 ==> r.y as real - 1.0 < p.y <= r.y as real
  {
    Box(Trunc(p.x), Trunc(p.y), PlayerSize, PlayerSize)
  }

  /** The defaults of a fresh player. */
  lemma FreshPlayer()
    ensures DefaultPlayer.life == 100 && DefaultPlayer.xp == 0 && DefaultPlayer.level == 1
    ensures DefaultPlayer.xpToNextLevel == 100 && DefaultPlayer.attackInterval == 1.0
    ensures DefaultPlayer.invincibilityTimer == 0.0 && DefaultPlayer.attackTimer == 0.0
  {
  }
}
