/** The end-of-frame sweep (main.cpp): the three `std::erase_if` calls that
    compact the entity collections. */
module Lifecycle {
  import opened Seqs
  import opened Enemies
  import opened Entities

  /** A projectile survives while active and inside [0,800] x [0,600], borders included. */
  predicate BulletKept(b: Projectile)
  {
    b.active && 0.0 <= b.x <= 800.0 && 0.0 <= b.y <= 600.0
  }

  predicate EnemyKept(e: Enemy)
  {
    e.active
  }

  predicate GemKept(g: Gem)
  {
    g.active
  }

  function SweepBullets(bs: seq<Projectile>): (r: seq<Projectile>)
    ensures forall b :: b in r ==> b in bs && BulletKept(b)
    ensures forall i :: 0 <= i < |bs| && BulletKept(bs[i]) ==> bs[i] in r
    ensures IsSubseq(r, bs)
    ensures |r| == Count(BulletKept, bs)
  {
    Filter(BulletKept, bs)
  }

  function SweepEnemies(es: seq<Enemy>): (r: seq<Enemy>)
    ensures forall e :: e in r ==> e in es && e.active
    ensures forall i :: 0 <= i < |es| && es[i].active ==> es[i] in r
    ensures IsSubseq(r, es)
    ensures |r| == Count(EnemyKept, es)
  {
    Filter(EnemyKept, es)
  }

  function SweepGems(gems: seq<Gem>): (r: seq<Gem>)
    ensures forall g :: g in r ==> g in gems && g.active
    ensures forall i :: 0 <= i < |gems| && gems[i].active ==> gems[i] in r
    ensures IsSubseq(r, gems)
    ensures |r| == Count(GemKept, gems)
  {
    Filter(GemKept, gems)
  }

  /** Collections in which the sweep would remove nothing. */
  predicate Compact(bs: seq<Projectile>, es: seq<Enemy>, gems: seq<Gem>)
  {
    && (forall i :: 0 <= i < |bs| ==> BulletKept(bs[i]))
    && (forall i :: 0 <= i < |es| ==> es[i].active)
    && (forall i :: 0 <= i < |gems| ==> gems[i].active)
  }

  /** The sweep leaves compact collections and leaves compact collections alone,
      so sweeping twice is sweeping once. */
  lemma SweepCompacts(bs: seq<Projectile>, es: seq<Enemy>, gems: seq<Gem>)
    ensures Compact(SweepBullets(bs), SweepEnemies(es), SweepGems(gems))
    ensures Compact(bs, es, gems) ==> SweepBullets(bs) == bs && SweepEnemies(es) == es && SweepGems(gems) == gems
    ensures SweepBullets(SweepBullets(bs)) == SweepBullets(bs)
    ensures SweepEnemies(SweepEnemies(es)) == SweepEnemies(es)
    ensures SweepGems(SweepGems(gems)) == SweepGems(gems)
  {
    var rb, re, rg := SweepBullets(bs), SweepEnemies(es), SweepGems(gems);
    assert forall i :: 0 <= i < |rb| ==> rb[i] in rb;
    assert forall i :: 0 <= i < |re| ==> re[i] in re;
    assert forall i :: 0 <= i < |rg| ==> rg[i] in rg;
    if Compact(bs, es, gems) {
      FilterAllKept(BulletKept, bs);
      FilterAllKept(EnemyKept, es);
      FilterAllKept(GemKept, gems);
    }
    FilterIdempotent(BulletKept, bs);
    FilterIdempotent(EnemyKept, es);
    FilterIdempotent(GemKept, gems);
  }
}
