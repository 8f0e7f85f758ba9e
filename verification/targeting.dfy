/** `findClosestEnemy` (main.cpp): a linear scan over the enemies for the
    active one at the smallest squared distance from the player. */
module Targeting {
  import opened Wrappers
  import opened Players
  import opened Enemies

  /** Squared Euclidean distance from the player to the enemy; the square root
      is deliberately not taken. */
  function DistSq(p: Player, e: Enemy): real
  {
    var dx := e.x - p.x;
    var dy := e.y - p.y;
    dx * dx + dy * dy
  }

  /** The compared quantity is never negative, and is 0 for an enemy on the player. */
  lemma DistSqNonNegative(p: Player, e: Enemy)
    ensures DistSq(p, e) >= 0.0
    ensures e.x == p.x && e.y == p.y ==> DistSq(p, e) == 0.0
  {
  }

  /** `best` is what the scan holds after looking at the first `n` enemies:
      none when none of them is active, otherwise the earliest active enemy
      at the smallest distance among them. */
  ghost predicate BestAmong(p: Player, es: seq<Enemy>, n: nat, best: Option<nat>)
    requires n <= |es|
  {
    match best
    case None => forall j :: 0 <= j < n ==> !es[j].active
    case Some(b) =>
      && b < n
      && es[b].active
      && (forall j :: 0 <= j < n && es[j].active ==> DistSq(p, es[b]) <= DistSq(p, es[j]))
      && (forall j :: 0 <= j < b && es[j].active ==> DistSq(p, es[b]) < DistSq(p, es[j]))
  }

  /** The loop of `findClosestEnemy` from index `i` on; a candidate replaces the
      current best only when strictly closer, so the first minimum wins. */
  function ScanFrom(p: Player, es: seq<Enemy>, i: nat, best: Option<nat>): (r: Option<nat>)
    requires i <= |es|
    requires BestAmong(p, es, i, best)
    ensures BestAmong(p, es, |es|, r)
    decreases |es| - i
  {
    if i == |es| then best
    else if !es[i].active then ScanFrom(p, es, i + 1, best)
    else match best
      case None => ScanFrom(p, es, i + 1, Some(i))
      case Some(b) =>
        if DistSq(p, es[i]) < DistSq(p, es[b]) then ScanFrom(p, es, i + 1, Some(i))
        else ScanFrom(p, es, i + 1, best)
  }

  /** `findClosestEnemy`: the index of the target, or none when no enemy is active. */
  function Closest(p: Player, es: seq<Enemy>): (r: Option<nat>)
    ensures r.None? <==> forall j :: 0 <= j < |es| ==> !es[j].active
    ensures r.Some? ==> r.value < |es| && es[r.value].active
    ensures r.Some? ==> forall j :: 0 <= j < |es| && es[j].active ==> DistSq(p, es[r.value]) <= DistSq(p, es[j])
    ensures r.Some? ==> forall j :: 0 <= j < r.value && es[j].active ==> DistSq(p, es[r.value]) < DistSq(p, es[j])
  {
    ScanFrom(p, es, 0, None)
  }

  /** An active enemy strictly closer than every other active enemy is the one returned. */
  lemma ClosestUnique(p: Player, es: seq<Enemy>, k: nat)
    requires k < |es| && es[k].active
    requires forall j :: 0 <= j < |es| && j != k && es[j].active ==> DistSq(p, es[k]) < DistSq(p, es[j])
    ensures Closest(p, es) == Some(k)
  {
  }

  /** The scan reads only the player's position. */
  lemma {:induction false} ScanFromReadsPosition(p: Player, q: Player, es: seq<Enemy>, i: nat, best: Option<nat>)
    requires p.x == q.x && p.y == q.y
    requires i <= |es| && BestAmong(p, es, i, best) && BestAmong(q, es, i, best)
    ensures ScanFrom(p, es, i, best) == ScanFrom(q, es, i, best)
    decreases |es| - i
  {
    if i < |es| {
      assert forall e :: DistSq(p, e) == DistSq(q, e);
      if !es[i].active {
        ScanFromReadsPosition(p, q, es, i + 1, best);
      } else if best.None? || DistSq(p, es[i]) < DistSq(p, es[best.value]) {
        ScanFromReadsPosition(p, q, es, i + 1, Some(i));
      } else {
        ScanFromReadsPosition(p, q, es, i + 1, best);
      }
    }
  }

  lemma ClosestReadsPosition(p: Player, q: Player, es: seq<Enemy>)
    requires p.x == q.x && p.y == q.y
    ensures Closest(p, es) == Closest(q, es)
  {
    ScanFromReadsPosition(p, q, es, 0, None);
  }
}
