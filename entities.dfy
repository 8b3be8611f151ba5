/**
 * The hero, the enemies and the items, and the rules of a turn stated on
 * values (game.js:37-94, 344-359, 470-512): occupancy, item pickup and its
 * effects, melee through handleAttack, the Fisher-Yates shuffle and the
 * enemy step.  The Game class applies these rules to its fields.
 */
module Entities {
  import opened Config
  import opened Geometry
  import opened Grid
  import opened Options

  /** The hero and each enemy: position, health and attack power. */
  datatype Actor = Actor(x: int, y: int, health: int, maxHealth: int, attackPower: int)

  function At(a: Actor): Pos {
    Pos(a.x, a.y)
  }

  // ---------------------------------------------------------------------
  // isPositionOccupied (game.js:344-359)

  /** The loop over the enemies in isPositionOccupied. */
  function EnemyAt(enemies: seq<Actor>, p: Pos): (b: bool)
    ensures b <==> exists k :: 0 <= k < |enemies| && At(enemies[k]) == p
  {
    if enemies == [] then false
    else if enemies[0].x == p.x && enemies[0].y == p.y then true
    else
      var b := EnemyAt(enemies[1..], p);
      assert forall k :: 1 <= k < |enemies| ==> enemies[k] == enemies[1..][k - 1];
      b
  }

  /** The loops over the swords and the potions in isPositionOccupied. */
  function ItemAt(items: seq<Pos>, p: Pos): (b: bool)
    ensures b <==> p in items
  {
    if items == [] then false
    else if items[0].x == p.x && items[0].y == p.y then true
    else
      var b := ItemAt(items[1..], p);
      assert items == [items[0]] + items[1..];
      b
  }

  /** isPositionOccupied: the hero, an enemy, a sword or a potion stands on p. */
  function IsPositionOccupied(hero: Actor, enemies: seq<Actor>, swords: seq<Pos>, potions: seq<Pos>, p: Pos): (b: bool)
    ensures b <==> At(hero) == p || (exists k :: 0 <= k < |enemies| && At(enemies[k]) == p) || p in swords || p in potions
  {
    if hero.x == p.x && hero.y == p.y then true
    else EnemyAt(enemies, p) || ItemAt(swords, p) || ItemAt(potions, p)
  }

  // ---------------------------------------------------------------------
  // checkItem and checkItems (game.js:41-48, 500-512)

  /** How many items lie on p. */
  function CountAt(items: seq<Pos>, p: Pos): nat {
    if items == [] then 0 else (if items[0] == p then 1 else 0) + CountAt(items[1..], p)
  }

  /** The items not on p, in their order. */
  function Remaining(items: seq<Pos>, p: Pos): seq<Pos> {
    if items == [] then [] else (if items[0] == p then [] else [items[0]]) + Remaining(items[1..], p)
  }

  /**
   * Removing the items on p keeps exactly the others: an item remains iff
   * it was there and is not on p, and every removed item was counted.
   */
  lemma {:induction false} RemainingSpec(items: seq<Pos>, p: Pos)
    ensures forall q :: q in Remaining(items, p) <==> q in items && q != p
    ensures |Remaining(items, p)| + CountAt(items, p) == |items|
    ensures CountAt(items, p) > 0 <==> p in items
  {
    if items != [] {
      RemainingSpec(items[1..], p);
      assert items == [items[0]] + items[1..];
    }
  }

  /** What picking up one item does to the hero. */
  datatype Effect = Sharpen | Heal

  /** The two callbacks of checkItems: a sword adds 1 to attackPower, a potion heals up to maxHealth. */
  function Apply(hero: Actor, e: Effect): (h: Actor)
    ensures At(h) == At(hero) && h.maxHealth == hero.maxHealth
    ensures hero.health <= hero.maxHealth ==> h.health <= h.maxHealth
  {
    match e
    case Sharpen => hero.(attackPower := hero.attackPower + 1)
    case Heal => hero.(health := Min(hero.health + PotionHeal, hero.maxHealth))
  }

  function Min(a: int, b: int): int {
    if a < b then a else b
  }

  /** The effect applied n times. */
  function ApplyTimes(hero: Actor, e: Effect, n: nat): Actor {
    if n == 0 then hero else Apply(ApplyTimes(hero, e, n - 1), e)
  }

  /**
   * Picking up n items: the hero stays where it is; n swords add n to the
   * attack power; n potions, n > 0, give min(health + n * potionHeal,
   * maxHealth).  Health never rises above maxHealth once it is below it.
   */
  lemma {:induction false} ApplyTimesSpec(hero: Actor, e: Effect, n: nat)
    ensures At(ApplyTimes(hero, e, n)) == At(hero)
    ensures ApplyTimes(hero, e, n).maxHealth == hero.maxHealth
    ensures e == Sharpen ==> ApplyTimes(hero, e, n) == hero.(attackPower := hero.attackPower + n)
    ensures e == Heal && n > 0 ==>
      ApplyTimes(hero, e, n) == hero.(health := Min(hero.health + n * PotionHeal, hero.maxHealth))
    ensures e == Heal ==> ApplyTimes(hero, e, n).attackPower == hero.attackPower
    ensures hero.health <= hero.maxHealth ==> ApplyTimes(hero, e, n).health <= hero.maxHealth
  {
    if n > 0 {
      ApplyTimesSpec(hero, e, n - 1);
    }
  }

  // ---------------------------------------------------------------------
  // handleAttack, heroAttack, enemiesAttack (game.js:37-39, 84-94, 470-498)

  /** isNearby: the target is within one tile of the attacker on both axes, its own tile included. */
  predicate Nearby(target: Actor, attacker: Actor) {
    IsNearby(At(target), At(attacker))
  }

  /** The target after the attacker's blow, if it is near enough to be hit. */
  function Hit(target: Actor, attacker: Actor, base: int): Actor {
    if Nearby(target, attacker) then target.(health := target.health - attacker.attackPower * base) else target
  }

  /** The blow brings a nearby target to zero health or below. */
  predicate Lethal(target: Actor, attacker: Actor, base: int) {
    Nearby(target, attacker) && Hit(target, attacker, base).health <= 0
  }

  /** Every target after the blow. */
  function Struck(targets: seq<Actor>, attacker: Actor, base: int): (r: seq<Actor>)
    ensures |r| == |targets|
  {
    seq(|targets|, i requires 0 <= i < |targets| => Hit(targets[i], attacker, base))
  }

  /**
   * heroAttack's result: the hit targets that survive, in their order.  The
   * source walks from the last target to the first and splices each fallen
   * one out, so the indices still to visit never move.
   */
  function Survivors(targets: seq<Actor>, attacker: Actor, base: int): (r: seq<Actor>)
    ensures |r| <= |targets|
  {
    if targets == [] then []
    else
      var kept := if Lethal(targets[0], attacker, base) then [] else [Hit(targets[0], attacker, base)];
      kept + Survivors(targets[1..], attacker, base)
  }

  /** Survivors of a suffix unfolds at its first element. */
  lemma SurvivorsStep(targets: seq<Actor>, attacker: Actor, base: int, i: nat)
    requires i < |targets|
    ensures Survivors(targets[i..], attacker, base) ==
      (if Lethal(targets[i], attacker, base) then [] else [Hit(targets[i], attacker, base)])
      + Survivors(targets[i + 1..], attacker, base)
  {
    assert targets[i..][1..] == targets[i + 1..];
  }

  /** The fallen: a nearby actor at zero health or below. */
  predicate Fallen(a: Actor, attacker: Actor) {
    Nearby(a, attacker) && a.health <= 0
  }

  /** A list with the fallen taken out. */
  function RemoveFallen(s: seq<Actor>, attacker: Actor): seq<Actor> {
    if s == [] then [] else (if Fallen(s[0], attacker) then [] else [s[0]]) + RemoveFallen(s[1..], attacker)
  }

  /**
   * heroAttack is "strike every nearby target, then remove the fallen": the
   * survivors are exactly the struck list with the fallen removed, none of
   * them fallen, and every target out of reach is kept untouched.
   */
  lemma {:induction false} SurvivorsSpec(targets: seq<Actor>, attacker: Actor, base: int)
    ensures Survivors(targets, attacker, base) == RemoveFallen(Struck(targets, attacker, base), attacker)
    ensures forall a :: a in Survivors(targets, attacker, base) ==> !Fallen(a, attacker)
    ensures forall t :: t in targets && !Nearby(t, attacker) ==> t in Survivors(targets, attacker, base)
  {
    if targets != [] {
      SurvivorsSpec(targets[1..], attacker, base);
      var struck := Struck(targets, attacker, base);
      assert struck[1..] == Struck(targets[1..], attacker, base);
      assert Fallen(struck[0], attacker) == Lethal(targets[0], attacker, base);
      forall t | t in targets && !Nearby(t, attacker) ensures t in Survivors(targets, attacker, base) {
        if t != targets[0] {
          assert t in targets[1..];
        }
      }
    }
  }

  /** The outcome of enemiesAttack: the targets after the blows, and whether one fell. */
  datatype Blows = Blows(targets: seq<Actor>, fallen: bool)

  /**
   * The loop of handleAttack under enemiesAttack, from index i - 1 down to
   * 0: each nearby target is hit; the first that falls ends the game, which
   * is where the model stops.
   */
  function StrikeUntilFall(targets: seq<Actor>, attacker: Actor, base: int, i: int): (b: Blows)
    requires 0 <= i <= |targets|
    ensures |b.targets| == |targets| && b.targets[i..] == targets[i..]
    decreases i
  {
    if i == 0 then Blows(targets, false)
    else if Nearby(targets[i - 1], attacker) then
      var hit := targets[i - 1].(health := targets[i - 1].health - attacker.attackPower * base);
      if hit.health <= 0 then Blows(targets[i - 1 := hit], true)
      else StrikeUntilFall(targets[i - 1 := hit], attacker, base, i - 1)
    else StrikeUntilFall(targets, attacker, base, i - 1)
  }

  /** Striking one more target of a prefix adds its hit at the end. */
  lemma StruckSnoc(targets: seq<Actor>, attacker: Actor, base: int, i: int)
    requires 0 < i <= |targets|
    ensures Struck(targets[..i], attacker, base) == Struck(targets[..i - 1], attacker, base) + [Hit(targets[i - 1], attacker, base)]
  {
  }

  /**
   * enemiesAttack ends the game exactly when some target below index i is
   * within reach and falls to the blow.
   */
  lemma {:induction false} StrikeUntilFallFallen(targets: seq<Actor>, attacker: Actor, base: int, i: int)
    requires 0 <= i <= |targets|
    ensures StrikeUntilFall(targets, attacker, base, i).fallen <==>
      exists k :: 0 <= k < i && Lethal(targets[k], attacker, base)
    decreases i
  {
    if i > 0 {
      var t := targets[i - 1];
      if Nearby(t, attacker) {
        var hit := Hit(t, attacker, base);
        var targets' := targets[i - 1 := hit];
        if hit.health > 0 {
          StrikeUntilFallFallen(targets', attacker, base, i - 1);
          assert forall k :: 0 <= k < i - 1 ==> targets'[k] == targets[k];
          assert !Lethal(t, attacker, base);
        } else {
          assert Lethal(targets[i - 1], attacker, base);
        }
      } else {
        StrikeUntilFallFallen(targets, attacker, base, i - 1);
        assert !Lethal(t, attacker, base);
      }
    }
  }

  /** When no target falls, every target below index i is struck and the rest are untouched. */
  lemma {:induction false} StrikeUntilFallStruck(targets: seq<Actor>, attacker: Actor, base: int, i: int)
    requires 0 <= i <= |targets|
    ensures !StrikeUntilFall(targets, attacker, base, i).fallen ==>
      StrikeUntilFall(targets, attacker, base, i).targets ==
        Struck(targets[..i], attacker, base) + targets[i..]
    decreases i
  {
    if i > 0 {
      var t := targets[i - 1];
      StruckSnoc(targets, attacker, base, i);
      if Nearby(t, attacker) {
        var hit := Hit(t, attacker, base);
        var targets' := targets[i - 1 := hit];
        if hit.health > 0 {
          StrikeUntilFallStruck(targets', attacker, base, i - 1);
          assert targets'[..i - 1] == targets[..i - 1];
          assert targets'[i - 1..] == [hit] + targets[i..];
        }
      } else {
        StrikeUntilFallStruck(targets, attacker, base, i - 1);
        assert targets[i - 1..] == [t] + targets[i..];
      }
    }
  }

  // ---------------------------------------------------------------------
  // shuffle (game.js:64-72)

  /** The draws of one shuffle of n elements: ds[i] in [0, i] is drawn when the loop is at i. */
  predicate ShuffleDraws(ds: seq<nat>, n: nat) {
    |ds| == n && forall i :: 0 <= i < n ==> ds[i] <= i
  }

  function Swap(s: seq<Pos>, i: nat, j: nat): (r: seq<Pos>)
    requires i < |s| && j < |s|
    ensures |r| == |s|
  {
    s[i := s[j]][j := s[i]]
  }

  lemma SwapPermutes(s: seq<Pos>, i: nat, j: nat)
    requires i < |s| && j < |s|
    ensures multiset(Swap(s, i, j)) == multiset(s)
  {
  }

  /** The swaps of the loop from index i down to 1. */
  function ShuffleDown(s: seq<Pos>, ds: seq<nat>, i: nat): seq<Pos>
    requires ShuffleDraws(ds, |s|) && i < |s|
    decreases i
  {
    if i == 0 then s else ShuffleDown(Swap(s, i, ds[i]), ds, i - 1)
  }

  /** shuffle with its draws supplied. */
  function Shuffled(s: seq<Pos>, ds: seq<nat>): seq<Pos>
    requires ShuffleDraws(ds, |s|)
  {
    if |s| == 0 then s else ShuffleDown(s, ds, |s| - 1)
  }

  lemma {:induction false} ShuffleDownPermutes(s: seq<Pos>, ds: seq<nat>, i: nat)
    requires ShuffleDraws(ds, |s|) && i < |s|
    ensures |ShuffleDown(s, ds, i)| == |s| && multiset(ShuffleDown(s, ds, i)) == multiset(s)
    decreases i
  {
    if i > 0 {
      SwapPermutes(s, i, ds[i]);
      ShuffleDownPermutes(Swap(s, i, ds[i]), ds, i - 1);
    }
  }

  /** shuffle returns a permutation of its input. */
  lemma ShufflePermutes(s: seq<Pos>, ds: seq<nat>)
    requires ShuffleDraws(ds, |s|)
    ensures |Shuffled(s, ds)| == |s| && multiset(Shuffled(s, ds)) == multiset(s)
    ensures forall p :: p in Shuffled(s, ds) <==> p in s
  {
    if |s| > 0 {
      ShuffleDownPermutes(s, ds, |s| - 1);
    }
    forall p ensures p in Shuffled(s, ds) <==> p in s {
      assert p in Shuffled(s, ds) <==> p in multiset(Shuffled(s, ds));
    }
  }

  /** helpers.shuffle: the array is permuted in place by the drawn swaps. */
  method Shuffle(a: array<Pos>, ds: seq<nat>)
    requires ShuffleDraws(ds, a.Length)
    modifies a
    ensures a[..] == Shuffled(old(a[..]), ds)
  {
    if a.Length == 0 {
      return;
    }
    var i := a.Length - 1;
    while i > 0
      invariant 0 <= i < a.Length
      invariant ShuffleDown(a[..], ds, i) == Shuffled(old(a[..]), ds)
    {
      ghost var before := a[..];
      var j := ds[i];
      assert ShuffleDown(before, ds, i) == ShuffleDown(Swap(before, i, j), ds, i - 1);
      var temp := a[i];
      a[i] := a[j];
      a[j] := temp;
      assert a[..] == Swap(before, i, j);
      i := i - 1;
    }
  }

  // ---------------------------------------------------------------------
  // enemiesMove (game.js:477-491)

  /** p is a tile an enemy may step to: canMove holds and nothing stands there. */
  predicate Free(g: Tiles, hero: Actor, enemies: seq<Actor>, swords: seq<Pos>, potions: seq<Pos>, p: Pos) {
    IsFloor(g, p) && !IsPositionOccupied(hero, enemies, swords, potions, p)
  }

  /** No candidate before position k of order is free. */
  predicate NoneFreeBefore(g: Tiles, hero: Actor, enemies: seq<Actor>, swords: seq<Pos>, potions: seq<Pos>,
                           order: seq<Pos>, k: nat)
    requires k <= |order|
  {
    forall j :: 0 <= j < k ==> !Free(g, hero, enemies, swords, potions, order[j])
  }

  /** The first free tile in the shuffled order, if any. */
  function FirstFree(g: Tiles, hero: Actor, enemies: seq<Actor>, swords: seq<Pos>, potions: seq<Pos>, order: seq<Pos>): (r: Option<Pos>)
    ensures r.Some? ==> r.value in order && Free(g, hero, enemies, swords, potions, r.value)
    ensures r.None? ==> forall p :: p in order ==> !Free(g, hero, enemies, swords, potions, p)
  {
    if order == [] then None
    else if Free(g, hero, enemies, swords, potions, order[0]) then Some(order[0])
    else
      var r := FirstFree(g, hero, enemies, swords, potions, order[1..]);
      assert order == [order[0]] + order[1..];
      r
  }

  /** The tile FirstFree picks comes after only candidates that are not free. */
  lemma {:induction false} FirstFreeIsFirst(g: Tiles, hero: Actor, enemies: seq<Actor>, swords: seq<Pos>, potions: seq<Pos>, order: seq<Pos>)
    ensures var r := FirstFree(g, hero, enemies, swords, potions, order);
      r.Some? ==> exists k :: 0 <= k < |order| && order[k] == r.value && NoneFreeBefore(g, hero, enemies, swords, potions, order, k)
  {
    if order != [] && !Free(g, hero, enemies, swords, potions, order[0]) {
      var r := FirstFree(g, hero, enemies, swords, potions, order[1..]);
      FirstFreeIsFirst(g, hero, enemies, swords, potions, order[1..]);
      if r.Some? {
        var k :| 0 <= k < |order[1..]| && order[1..][k] == r.value && NoneFreeBefore(g, hero, enemies, swords, potions, order[1..], k);
        assert order[k + 1] == r.value;
        forall j | 0 <= j < k + 1
          ensures !Free(g, hero, enemies, swords, potions, order[j])
        {
          if j > 0 { assert order[j] == order[1..][j - 1]; }
        }
        assert NoneFreeBefore(g, hero, enemies, swords, potions, order, k + 1);
      }
    } else if order != [] {
      assert NoneFreeBefore(g, hero, enemies, swords, potions, order, 0);
    }
  }

  /** The draws for enemiesMove: one shuffle of the four neighbours per enemy. */
  predicate MoveDraws(draws: seq<seq<nat>>, n: nat) {
    |draws| >= n && forall i :: 0 <= i < |draws| ==> ShuffleDraws(draws[i], 4)
  }

  /** The order in which enemy e tries its neighbours. */
  function TryOrder(e: Actor, ds: seq<nat>): seq<Pos>
    requires ShuffleDraws(ds, 4)
  {
    Shuffled(Neighbors(At(e)), ds)
  }

  /**
   * One iteration of enemiesMove for enemy i: it steps to the first free
   * tile in its shuffled neighbour order, or stays.
   */
  function StepOne(g: Tiles, hero: Actor, enemies: seq<Actor>, swords: seq<Pos>, potions: seq<Pos>,
                   ds: seq<nat>, i: nat): seq<Actor>
    requires ShuffleDraws(ds, 4) && i < |enemies|
  {
    var e := enemies[i];
    match FirstFree(g, hero, enemies, swords, potions, TryOrder(e, ds))
    case None => enemies
    case Some(p) => enemies[i := e.(x := p.x, y := p.y)]
  }

  /**
   * enemiesMove from enemy i on: each enemy in turn takes its step, seeing
   * the moves of the enemies before it.
   */
  function MoveFrom(g: Tiles, hero: Actor, enemies: seq<Actor>, swords: seq<Pos>, potions: seq<Pos>,
                    draws: seq<seq<nat>>, i: nat): seq<Actor>
    requires MoveDraws(draws, |enemies|)
    decreases |enemies| - i
  {
    if i >= |enemies| then enemies
    else MoveFrom(g, hero, StepOne(g, hero, enemies, swords, potions, draws[i], i), swords, potions, draws, i + 1)
  }

  /** e' is e moved one orthogonal step to a floor tile clear of the hero and the items. */
  predicate Stepped(g: Tiles, hero: Actor, swords: seq<Pos>, potions: seq<Pos>, e: Actor, e': Actor) {
    && e' == e.(x := e'.x, y := e'.y)
    && Adjacent(At(e), At(e')) && IsFloor(g, At(e'))
    && At(e') != At(hero) && At(e') !in swords && At(e') !in potions
  }

  /** No two enemies share a tile. */
  predicate DistinctPlaces(enemies: seq<Actor>) {
    forall i, j :: 0 <= i < j < |enemies| ==> At(enemies[i]) != At(enemies[j])
  }

  /**
   * One enemy's step changes only that enemy, which stays or makes one
   * orthogonal step to a floor tile clear of the hero and the items and of
   * every enemy's tile.
   */
  lemma StepOneSpec(g: Tiles, hero: Actor, enemies: seq<Actor>, swords: seq<Pos>, potions: seq<Pos>,
                    ds: seq<nat>, i: nat)
    requires ShuffleDraws(ds, 4) && i < |enemies|
    ensures |StepOne(g, hero, enemies, swords, potions, ds, i)| == |enemies|
    ensures forall k :: 0 <= k < |enemies| && k != i ==> StepOne(g, hero, enemies, swords, potions, ds, i)[k] == enemies[k]
    ensures var e' := StepOne(g, hero, enemies, swords, potions, ds, i)[i];
      e' == enemies[i] || Stepped(g, hero, swords, potions, enemies[i], e')
    ensures var e' := StepOne(g, hero, enemies, swords, potions, ds, i)[i];
      e' != enemies[i] ==> forall k :: 0 <= k < |enemies| ==> At(e') != At(enemies[k])
    ensures DistinctPlaces(enemies) ==> DistinctPlaces(StepOne(g, hero, enemies, swords, potions, ds, i))
  {
    var e := enemies[i];
    var next := FirstFree(g, hero, enemies, swords, potions, TryOrder(e, ds));
    if next.Some? {
      var p := next.value;
      var enemies' := enemies[i := e.(x := p.x, y := p.y)];
      ShufflePermutes(Neighbors(At(e)), ds);
      NeighborsAreAdjacent(At(e), p);
      assert Stepped(g, hero, swords, potions, e, enemies'[i]);
      if DistinctPlaces(enemies) {
        forall a, b | 0 <= a < b < |enemies'| ensures At(enemies'[a]) != At(enemies'[b]) {
          if a == i {
            assert At(enemies[b]) == At(enemies'[b]);
          } else if b == i {
            assert At(enemies[a]) == At(enemies'[a]);
          }
        }
      }
    }
  }

  /**
   * What enemiesMove does to each enemy: the ones before i are untouched;
   * every other stays or makes one orthogonal step to a floor tile clear of
   * the hero and the items.  An enemy that moved stands on no other
   * enemy's final tile, and enemies on distinct tiles stay on distinct tiles.
   */
  lemma {:induction false} MoveFromSpec(g: Tiles, hero: Actor, enemies: seq<Actor>, swords: seq<Pos>, potions: seq<Pos>,
                                        draws: seq<seq<nat>>, i: nat)
    requires MoveDraws(draws, |enemies|)
    ensures |MoveFrom(g, hero, enemies, swords, potions, draws, i)| == |enemies|
    ensures forall k :: 0 <= k < |enemies| && k < i ==> MoveFrom(g, hero, enemies, swords, potions, draws, i)[k] == enemies[k]
    ensures forall k :: i <= k < |enemies| ==>
      var e' := MoveFrom(g, hero, enemies, swords, potions, draws, i)[k];
      e' == enemies[k] || Stepped(g, hero, swords, potions, enemies[k], e')
    ensures var r := MoveFrom(g, hero, enemies, swords, potions, draws, i);
      forall k, j :: i <= k < |enemies| && 0 <= j < |enemies| && j != k && r[k] != enemies[k] ==> At(r[k]) != At(r[j])
    ensures DistinctPlaces(enemies) ==> DistinctPlaces(MoveFrom(g, hero, enemies, swords, potions, draws, i))
    decreases |enemies| - i
  {
    if i < |enemies| {
      var enemies' := StepOne(g, hero, enemies, swords, potions, draws[i], i);
      StepOneSpec(g, hero, enemies, swords, potions, draws[i], i);
      MoveFromSpec(g, hero, enemies', swords, potions, draws, i + 1);
      var r := MoveFrom(g, hero, enemies', swords, potions, draws, i + 1);
      assert r == MoveFrom(g, hero, enemies, swords, potions, draws, i);
      forall k, j | i <= k < |enemies| && 0 <= j < |enemies| && j != k && r[k] != enemies[k]
        ensures At(r[k]) != At(r[j])
      {
        if k == i {
          assert r[i] == enemies'[i];
          if j < i {
            assert r[j] == enemies'[j] == enemies[j];
          } else if r[j] == enemies'[j] {
            assert enemies'[j] == enemies[j];
          }
        } else {
          assert enemies'[k] == enemies[k];
        }
      }
    }
  }
}
