/** The three collision passes of a frame (main.cpp): projectiles against
    enemies, the player against enemies, and the player against gems. */
module Combat {
  import opened Wrappers
  import opened Seqs
  import opened Geometry
  import opened Players
  import opened Enemies
  import opened Entities

  /** Life taken by one enemy contact. */
  const ContactDamage: int := 40

  predicate BulletActive(b: Projectile)
  {
    b.active
  }

  predicate EnemyActive(e: Enemy)
  {
    e.active
  }

  /** Bullet `b` strikes enemy `e`: the enemy is active and the two boxes overlap. */
  predicate Strikes(b: Projectile, e: Enemy)
  {
    e.active && Collides(BulletBox(b), EnemyBox(e))
  }

  /** The inner enemy loop of the projectile pass from index `i` on, up to its `break`. */
  function FirstHitFrom(b: Projectile, es: seq<Enemy>, i: nat): (r: Option<nat>)
    requires i <= |es|
    ensures r.Some? ==> i <= r.value < |es| && Strikes(b, es[r.value])
    ensures r.Some? ==> forall j :: i <= j < r.value ==> !Strikes(b, es[j])
    ensures r.None? ==> forall j :: i <= j < |es| ==> !Strikes(b, es[j])
    decreases |es| - i
  {
    if i == |es| then None
    else if Strikes(b, es[i]) then Some(i)
    else FirstHitFrom(b, es, i + 1)
  }

  /** The enemy a bullet hits: the first active one, in order, whose box it overlaps. */
  function FirstHit(b: Projectile, es: seq<Enemy>): (r: Option<nat>)
    ensures r.Some? ==> r.value < |es| && Strikes(b, es[r.value])
    ensures r.Some? ==> forall j :: 0 <= j < r.value ==> !Strikes(b, es[j])
    ensures r.None? <==> forall j :: 0 <= j < |es| ==> !Strikes(b, es[j])
  {
    FirstHitFrom(b, es, 0)
  }

  /** The gem a defeated enemy leaves: worth 10, placed 10 pixels right of and
      below the enemy's position rather than on it. */
  function DropFor(e: Enemy): (g: Gem)
    ensures g.active && g.xpValue == 10
    ensures g.x - e.x == 10.0 && g.y - e.y == 10.0
  {
    NewGem(e.x + 10.0, e.y + 10.0)
  }

  /** `es2` is `es` with some of its active enemies deactivated and nothing else changed. */
  predicate Deactivates(es: seq<Enemy>, es2: seq<Enemy>)
  {
    |es2| == |es| &&
    forall j :: 0 <= j < |es| ==> es2[j] == es[j] || (es[j].active && es2[j] == es[j].(active := false))
  }

  lemma DeactivatesTransitive(es: seq<Enemy>, es1: seq<Enemy>, es2: seq<Enemy>)
    requires Deactivates(es, es1) && Deactivates(es1, es2)
    ensures Deactivates(es, es2)
  {
  }

  /** Every gem past the original `gems` is the drop of an enemy of `es` that
      was active and is inactive in `es2`. */
  ghost predicate DropsTraced(es: seq<Enemy>, gems: seq<Gem>, es2: seq<Enemy>, gems2: seq<Gem>)
    requires |es2| == |es|
  {
    forall k :: |gems| <= k < |gems2| ==> IsDropOf(es, es2, gems2[k])
  }

  /** `g` is the drop of an enemy that is active in `es` and inactive in `es2`. */
  ghost predicate IsDropOf(es: seq<Enemy>, es2: seq<Enemy>, g: Gem)
    requires |es2| == |es|
  {
    exists j :: 0 <= j < |es| && es[j].active && !es2[j].active && g == DropFor(es[j])
  }

  /** Tracing the drops through two stages of deactivation. */
  lemma DropsTracedCompose(es: seq<Enemy>, gems: seq<Gem>, es1: seq<Enemy>, gems1: seq<Gem>, es2: seq<Enemy>, gems2: seq<Gem>)
    requires Deactivates(es, es1) && Deactivates(es1, es2)
    requires |gems1| <= |gems2| && gems2[..|gems1|] == gems1
    requires DropsTraced(es, gems, es1, gems1) && DropsTraced(es1, gems1, es2, gems2)
    ensures DropsTraced(es, gems, es2, gems2)
  {
    forall k | |gems| <= k < |gems2|
      ensures IsDropOf(es, es2, gems2[k])
    {
      if k < |gems1| {
        assert gems2[k] == gems1[k];
        assert IsDropOf(es, es1, gems1[k]);
        var j :| 0 <= j < |es| && es[j].active && !es1[j].active && gems1[k] == DropFor(es[j]);
        assert !es2[j].active;
      } else {
        assert IsDropOf(es1, es2, gems2[k]);
        var j :| 0 <= j < |es1| && es1[j].active && !es2[j].active && gems2[k] == DropFor(es1[j]);
        assert es1[j] == es[j];
      }
    }
  }

  /** One iteration of the projectile pass: an active bullet that hits deactivates
      itself and its enemy and appends the enemy's gem; otherwise nothing changes. */
  function Shot(b: Projectile, es: seq<Enemy>, gems: seq<Gem>): (r: (Projectile, seq<Enemy>, seq<Gem>))
    ensures b.active && FirstHit(b, es).Some? ==>
      var i := FirstHit(b, es).value;
      r == (b.(active := false), es[i := es[i].(active := false)], gems + [DropFor(es[i])])
    ensures !(b.active && FirstHit(b, es).Some?) ==> r == (b, es, gems)
    ensures Deactivates(es, r.1)
    ensures Count(EnemyActive, r.1) + |r.2| == Count(EnemyActive, es) + |gems|
  {
    if b.active then
      match FirstHit(b, es)
      case None => (b, es, gems)
      case Some(i) =>
        CountUpdate(EnemyActive, es, i, es[i].(active := false));
        (b.(active := false), es[i := es[i].(active := false)], gems + [DropFor(es[i])])
    else (b, es, gems)
  }

  /** The gem a shot appends is the drop of the enemy it deactivated. */
  lemma ShotDrops(b: Projectile, es: seq<Enemy>, gems: seq<Gem>)
    ensures DropsTraced(es, gems, Shot(b, es, gems).1, Shot(b, es, gems).2)
  {
    var s := Shot(b, es, gems);
    if |s.2| > |gems| {
      var i := FirstHit(b, es).value;
      assert es[i].active && !s.1[i].active && s.2[|gems|] == DropFor(es[i]);
      assert IsDropOf(es, s.1, s.2[|gems|]);
    }
  }

  /** The projectile pass: each bullet in turn takes its `Shot` against the
      enemies as the earlier bullets left them. */
  function BulletPass(bs: seq<Projectile>, es: seq<Enemy>, gems: seq<Gem>): (r: (seq<Projectile>, seq<Enemy>, seq<Gem>))
    ensures |r.0| == |bs| && Deactivates(es, r.1)
    ensures |gems| <= |r.2| && r.2[..|gems|] == gems
    ensures forall i :: 0 <= i < |bs| ==> r.0[i] == bs[i] || (bs[i].active && r.0[i] == bs[i].(active := false))
    ensures Count(EnemyActive, r.1) + |r.2| == Count(EnemyActive, es) + |gems|
  {
    if |bs| == 0 then (bs, es, gems)
    else
      var s := Shot(bs[0], es, gems);
      var rest := BulletPass(bs[1..], s.1, s.2);
      assert rest.2[..|gems|] == s.2[..|gems|];
      assert forall i :: 1 <= i < |bs| ==> bs[i] == bs[1..][i - 1];
      DeactivatesTransitive(es, s.1, rest.1);
      ([s.0] + rest.0, rest.1, rest.2)
  }

  /** Every gem the pass adds belongs to a hit: as many bullets go inactive as
      gems are appended (and, by the contract of `BulletPass`, as enemies go
      inactive), so no enemy is claimed by two bullets. */
  lemma {:induction false} BulletPassGemPerBullet(bs: seq<Projectile>, es: seq<Enemy>, gems: seq<Gem>)
    ensures var r := BulletPass(bs, es, gems);
      Count(BulletActive, r.0) + |r.2| == Count(BulletActive, bs) + |gems|
  {
    if |bs| > 0 {
      var s := Shot(bs[0], es, gems);
      var rest := BulletPass(bs[1..], s.1, s.2);
      BulletPassGemPerBullet(bs[1..], s.1, s.2);
      assert BulletPass(bs, es, gems) == ([s.0] + rest.0, rest.1, rest.2);
      CountCons(BulletActive, s.0, rest.0);
      assert bs == [bs[0]] + bs[1..];
      CountCons(BulletActive, bs[0], bs[1..]);
    }
  }

  /** Each appended gem is the drop of an enemy that was active before the pass
      and is inactive after it. */
  lemma {:induction false} BulletPassDrops(bs: seq<Projectile>, es: seq<Enemy>, gems: seq<Gem>)
    ensures DropsTraced(es, gems, BulletPass(bs, es, gems).1, BulletPass(bs, es, gems).2)
  {
    if |bs| > 0 {
      var s := Shot(bs[0], es, gems);
      var rest := BulletPass(bs[1..], s.1, s.2);
      BulletPassDrops(bs[1..], s.1, s.2);
      ShotDrops(bs[0], es, gems);
      DropsTracedCompose(es, gems, s.1, s.2, rest.1, rest.2);
      assert BulletPass(bs, es, gems) == ([s.0] + rest.0, rest.1, rest.2);
    }
  }

  /** A bullet still active after the pass overlaps no enemy that is still
      active after it: an overlap would have stopped it. */
  lemma {:induction false} SurvivorMisses(bs: seq<Projectile>, es: seq<Enemy>, gems: seq<Gem>, i: nat, j: nat)
    requires i < |bs| && j < |es| && BulletPass(bs, es, gems).0[i].active
    ensures !Strikes(bs[i], BulletPass(bs, es, gems).1[j])
  {
    var s := Shot(bs[0], es, gems);
    var rest := BulletPass(bs[1..], s.1, s.2);
    assert BulletPass(bs, es, gems) == ([s.0] + rest.0, rest.1, rest.2);
    if i == 0 {
      assert s.0.active;
      assert !Strikes(bs[0], es[j]);
      assert s.1 == es;
    } else {
      assert rest.0[i - 1].active;
      SurvivorMisses(bs[1..], s.1, s.2, i - 1, j);
    }
  }

  /** Bullet `b` overlaps an enemy that is active in `es` and inactive in `es2`. */
  ghost predicate HitSome(b: Projectile, es: seq<Enemy>, es2: seq<Enemy>)
    requires |es2| == |es|
  {
    exists j :: 0 <= j < |es| && es[j].active && !es2[j].active && Collides(BulletBox(b), EnemyBox(es[j]))
  }

  /** A bullet the pass deactivates overlaps an enemy that was active before
      the pass and is inactive after it. */
  lemma {:induction false} StoppedBulletHit(bs: seq<Projectile>, es: seq<Enemy>, gems: seq<Gem>, i: nat)
    requires i < |bs| && bs[i].active && !BulletPass(bs, es, gems).0[i].active
    ensures HitSome(bs[i], es, BulletPass(bs, es, gems).1)
  {
    var s := Shot(bs[0], es, gems);
    var rest := BulletPass(bs[1..], s.1, s.2);
    assert BulletPass(bs, es, gems) == ([s.0] + rest.0, rest.1, rest.2);
    if i == 0 {
      var k := FirstHit(bs[0], es).value;
      assert !s.1[k].active && !rest.1[k].active;
      assert Collides(BulletBox(bs[0]), EnemyBox(es[k]));
    } else {
      assert bs[1..][i - 1] == bs[i];
      StoppedBulletHit(bs[1..], s.1, s.2, i - 1);
      var j :| 0 <= j < |s.1| && s.1[j].active && !rest.1[j].active && Collides(BulletBox(bs[i]), EnemyBox(s.1[j]));
      assert s.1[j] == es[j];
    }
  }

  /** A 10 by 5 projectile at (100,100) and an enemy at (100,100) collide: after
      the pass both are inactive and one gem lies at (110,110). */
  lemma BulletPassExample()
    ensures var r := BulletPass([Projectile(100.0, 100.0, 0.0, 0.0, true)], [NewEnemy(100.0, 100.0)], []);
      !r.0[0].active && !r.1[0].active && r.2 == [NewGem(110.0, 110.0)]
  {
    var b := Projectile(100.0, 100.0, 0.0, 0.0, true);
    var e := NewEnemy(100.0, 100.0);
    assert Trunc(100.0) == 100;
    assert Strikes(b, e);
    assert FirstHit(b, [e]) == Some(0);
  }

  /** Enemy `e` touches the player box: it is active and the boxes overlap. */
  predicate Touches(pr: Box, e: Enemy)
  {
    e.active && Collides(pr, EnemyBox(e))
  }

  /** The player-against-enemy pass: every touching enemy is deactivated and
      calls `takeDamage(40)`; the grace period set by the first such call makes
      the rest harmless, so the pass costs at most one hit. */
  function ContactPass(es: seq<Enemy>, pr: Box, p: Player): (r: (seq<Enemy>, Player))
    ensures |r.0| == |es|
    ensures forall j :: 0 <= j < |es| ==> r.0[j] == (if Touches(pr, es[j]) then es[j].(active := false) else es[j])
    ensures (exists j :: 0 <= j < |es| && Touches(pr, es[j])) ==> r.1 == TakeDamage(p, ContactDamage)
    ensures (forall j :: 0 <= j < |es| ==> !Touches(pr, es[j])) ==> r.1 == p
  {
    if |es| == 0 then (es, p)
    else
      var e := es[0];
      var hitNow := Touches(pr, e);
      var e1 := if hitNow then e.(active := false) else e;
      var p1 := if hitNow then TakeDamage(p, ContactDamage) else p;
      var rest := ContactPass(es[1..], pr, p1);
      TakeDamageOnce(p, ContactDamage, ContactDamage);
      assert forall j :: 1 <= j < |es| ==> es[j] == es[1..][j - 1];
      ([e1] + rest.0, rest.1)
  }

  /** Total experience of the gems the player box overlaps; whether a gem is
      active plays no part. */
  function CollectedXp(pr: Box, gems: seq<Gem>): (n: int)
    ensures (forall k :: 0 <= k < |gems| ==> !Collides(pr, GemBox(gems[k]))) ==> n == 0
    ensures (forall k :: 0 <= k < |gems| ==> gems[k].xpValue >= 0) ==> n >= 0
  {
    if |gems| == 0 then 0
    else (if Collides(pr, GemBox(gems[0])) then gems[0].xpValue else 0) + CollectedXp(pr, gems[1..])
  }

  /** The player-against-gem pass: every gem whose box overlaps the player's is
      deactivated and adds its value to the experience, with no check of its
      active flag. */
  function GemPass(gems: seq<Gem>, pr: Box, p: Player): (r: (seq<Gem>, Player))
    ensures |r.0| == |gems|
    ensures forall k :: 0 <= k < |gems| ==> r.0[k] == (if Collides(pr, GemBox(gems[k])) then gems[k].(active := false) else gems[k])
    ensures r.1 == p.(xp := r.1.xp)
  {
    if |gems| == 0 then (gems, p)
    else
      var g := gems[0];
      var picked := Collides(pr, GemBox(g));
      var g1 := if picked then g.(active := false) else g;
      var p1 := if picked then p.(xp := p.xp + g.xpValue) else p;
      var rest := GemPass(gems[1..], pr, p1);
      assert forall k :: 1 <= k < |gems| ==> gems[k] == gems[1..][k - 1];
      ([g1] + rest.0, rest.1)
  }

  /** The experience the gem pass adds is exactly the total value of the gems
      whose boxes overlap the player's. */
  lemma {:induction false} GemPassXp(gems: seq<Gem>, pr: Box, p: Player)
    ensures GemPass(gems, pr, p).1 == p.(xp := p.xp + CollectedXp(pr, gems))
  {
    if |gems| > 0 {
      var g := gems[0];
      var picked := Collides(pr, GemBox(g));
      var p1 := if picked then p.(xp := p.xp + g.xpValue) else p;
      GemPassXp(gems[1..], pr, p1);
    }
  }
}
