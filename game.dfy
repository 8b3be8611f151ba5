/**
 * The game object (game.js:1-30, 97-106, 306-359, 410-512): the grid, the
 * hero, the enemies and the items as fields updated in place; building a
 * level; placing items and characters; and resolving one turn from the
 * player's intent.  Random draws are supplied by the caller.
 */
module GameState {
  import opened Config
  import opened Geometry
  import opened Grid
  import opened Options
  import opened Rooms
  import opened Entities
  import Carving
  import Discovery
  import Repair

  /** What the player asks for: a step in one of four directions, or an attack. */
  datatype Intent = Left | Right | Up | Down | Attack

  /** How a turn ends: a step into a wall is refused; a blow that fells an enemy ends the game. */
  datatype Outcome = Rejected | Resolved | Defeat

  /** The tile a step intent aims at. */
  function Target(p: Pos, intent: Intent): (q: Pos)
    ensures intent != Attack ==> Adjacent(p, q)
  {
    match intent
    case Left => Pos(p.x - 1, p.y)
    case Right => Pos(p.x + 1, p.y)
    case Up => Pos(p.x, p.y - 1)
    case Down => Pos(p.x, p.y + 1)
    case Attack => p
  }

  /** Every random value init draws, in the order the model consumes them. */
  datatype LevelDraws = LevelDraws(rooms: seq<RoomDraw>, hCorridors: seq<int>, vCorridors: seq<int>, cells: seq<Pos>)

  /** The ranges of Math.floor(Math.random() * k) for each draw of init. */
  predicate ValidLevelDraws(d: LevelDraws) {
    && 5 <= |d.rooms| <= 10 && (forall i :: 0 <= i < |d.rooms| ==> ValidDraw(d.rooms[i]))
    && 2 <= |d.hCorridors| <= 3 && (forall i :: 0 <= i < |d.hCorridors| ==> 0 <= d.hCorridors[i] < Height - 2)
    && 2 <= |d.vCorridors| <= 3 && (forall i :: 0 <= i < |d.vCorridors| ==> 0 <= d.vCorridors[i] < Width - 2)
    && (forall i :: 0 <= i < |d.cells| ==> InBounds(d.cells[i]))
  }

  /** A fresh enemy as placeCharacters creates it. */
  function NewEnemy(p: Pos): Actor {
    Actor(p.x, p.y, StartHealth, StartMaxHealth, StartAttackPower)
  }

  /** A fresh enemy on each of the given tiles, in order. */
  function Spawn(ps: seq<Pos>): (es: seq<Actor>)
    ensures |es| == |ps| && forall k :: 0 <= k < |ps| ==> es[k] == NewEnemy(ps[k]) && At(es[k]) == ps[k]
  {
    seq(|ps|, k requires 0 <= k < |ps| => NewEnemy(ps[k]))
  }

  /** The tiles the actors stand on, in list order. */
  function Places(actors: seq<Actor>): (ps: seq<Pos>)
    ensures |ps| == |actors| && forall k :: 0 <= k < |actors| ==> ps[k] == At(actors[k])
  {
    seq(|actors|, k requires 0 <= k < |actors| => At(actors[k]))
  }

  /** Draw j was not free, so findEmptyPosition passed over it. */
  predicate Passed(g: Tiles, hero: Actor, enemies: seq<Actor>, swords: seq<Pos>, potions: seq<Pos>, cells: seq<Pos>, j: nat)
    requires j < |cells|
  {
    !Free(g, hero, enemies, swords, potions, cells[j])
  }

  /**
   * A batch of placeEntity read as picks from the first used draws: placed[k]
   * is the draw at idx[k], the indices increase, and every draw passed over
   * was not free against the state the batch is checked against.
   */
  predicate Picks(g: Tiles, hero: Actor, enemies: seq<Actor>, swords: seq<Pos>, potions: seq<Pos>,
                  cells: seq<Pos>, used: nat, placed: seq<Pos>, idx: seq<nat>)
    requires used <= |cells|
  {
    && |idx| == |placed|
    && (forall k :: 0 <= k < |idx| ==> idx[k] < used && placed[k] == cells[idx[k]])
    && (forall k, l :: 0 <= k < l < |idx| ==> idx[k] < idx[l])
    && (forall j :: 0 <= j < used && j !in idx ==> Passed(g, hero, enemies, swords, potions, cells, j))
  }

  /** How many draws a batch ending at its last pick has used. */
  function Consumed(idx: seq<nat>): nat {
    if idx == [] then 0 else idx[|idx| - 1] + 1
  }

  /** One findEmptyPosition inside placeEntity extends the picks by the draw it returns. */
  lemma PicksStep(g: Tiles, hero: Actor, enemies: seq<Actor>, swords: seq<Pos>, potions: seq<Pos>,
                  cells: seq<Pos>, rest: seq<Pos>, placed: seq<Pos>, idx: seq<nat>, pos: Option<Pos>, rest': seq<Pos>)
    requires |rest| <= |cells| && rest == cells[|cells| - |rest|..]
    requires Picks(g, hero, enemies, swords, potions, cells, |cells| - |rest|, placed, idx)
    requires |cells| - |rest| == Consumed(idx)
    requires |rest'| <= |rest| && rest' == rest[|rest| - |rest'|..]
    requires pos.None? ==> rest' == [] && forall c :: c in rest ==> !Free(g, hero, enemies, swords, potions, c)
    requires pos.Some? ==> |rest'| < |rest| && pos.value == rest[|rest| - |rest'| - 1]
    requires pos.Some? ==> forall j :: 0 <= j < |rest| - |rest'| - 1 ==> !Free(g, hero, enemies, swords, potions, rest[j])
    ensures pos.None? ==> Picks(g, hero, enemies, swords, potions, cells, |cells|, placed, idx)
    ensures pos.Some? ==>
      && Picks(g, hero, enemies, swords, potions, cells, |cells| - |rest'|, placed + [pos.value], idx + [|cells| - |rest'| - 1])
      && |cells| - |rest'| == Consumed(idx + [|cells| - |rest'| - 1])
  {
    var o := |cells| - |rest|;
    assert forall j :: o <= j < |cells| ==> cells[j] == rest[j - o];
    if pos.None? {
      forall j | 0 <= j < |cells| && j !in idx ensures Passed(g, hero, enemies, swords, potions, cells, j) {
        if j >= o { assert cells[j] in rest; }
      }
    } else {
      var n := |cells| - |rest'| - 1;
      var idx' := idx + [n];
      var placed' := placed + [pos.value];
      assert forall k :: 0 <= k < |idx| ==> idx'[k] == idx[k] && placed'[k] == placed[k];
      forall j | 0 <= j < n + 1 && j !in idx' ensures Passed(g, hero, enemies, swords, potions, cells, j) {
        if j >= o { assert cells[j] == rest[j - o]; }
      }
    }
  }

  /** Every floor tile joined to every other. */
  ghost predicate AllConnected(g: Tiles) {
    forall p, q :: IsFloor(g, p) && IsFloor(g, q) ==> Connected(g, p, q)
  }

  /** A grid whose floor tiles are all connected to one seed is connected throughout. */
  lemma SeedJoinsAll(g: Tiles, seed: Pos)
    requires forall p :: IsFloor(g, p) ==> Connected(g, seed, p)
    ensures AllConnected(g)
  {
    forall p, q | IsFloor(g, p) && IsFloor(g, q) ensures Connected(g, p, q) {
      ConnectedSym(g, seed, p);
      ConnectedTrans(g, p, seed, q);
    }
  }

  /**
   * The map-building half of init: generateMap, generateRooms,
   * generateCorridors and checkMapConnectivity.  The first drawn room always
   * fits, so the grid has floor, and the repair leaves it all connected.
   */
  method BuildMap(d: LevelDraws) returns (a: array2<Tile>, ghost p: Pos)
    requires ValidLevelDraws(d)
    ensures fresh(a) && Sized(a)
    ensures IsFloor(Snapshot(a), p)
    ensures AllConnected(Snapshot(a))
  {
    a := Carving.GenerateMap();
    p := LayRooms(a, d.rooms);
    ghost var g1 := Snapshot(a);
    ghost var found, starts, links := Discovery.GenerateCorridors(a, d.hCorridors, d.vCorridors);
    ghost var g2 := Snapshot(a);
    OnlyCarvesGrows(g1, g2);
    ghost var seed, visited, pending, targets, picks := Repair.CheckMapConnectivity(a);
    ghost var g3 := Snapshot(a);
    OnlyCarvesGrows(g2, g3);
    assert IsFloor(g2, p) && IsFloor(g3, p);
    SeedJoinsAll(g3, seed.value);
  }

  /** generateRooms, with a witness that the first drawn room became floor. */
  method LayRooms(a: array2<Tile>, draws: seq<RoomDraw>) returns (ghost p: Pos)
    requires Sized(a)
    requires 5 <= |draws| <= 10 && forall i :: 0 <= i < |draws| ==> ValidDraw(draws[i])
    modifies a
    ensures IsFloor(Snapshot(a), p)
    ensures OnlyCarves(old(Snapshot(a)), Snapshot(a))
  {
    ghost var rooms := Carving.GenerateRooms(a, draws);
    ghost var first := Candidates(draws)[0];
    GeneratedRoomPassesBounds(draws[0], []);
    FirstCandidateAccepted(Candidates(draws));
    p := Pos(first.x, first.y);
    assert InRoom(rooms[0], p) && Carving.InSomeRoom(rooms, p);
  }

  /** Replacing element i of a list, seen as the parts around it. */
  lemma SpliceAt(s: seq<Actor>, i: nat, v: Actor)
    requires i < |s|
    ensures s[i := v] == s[..i] + [v] + s[i + 1..]
    ensures s[i := v][..i] + s[i := v][i + 1..] == s[..i] + s[i + 1..]
  {
    assert s[i := v][..i] == s[..i];
    assert s[i := v][i + 1..] == s[i + 1..];
  }

  lemma ConcatAssoc(a: seq<Actor>, b: seq<Actor>, c: seq<Actor>)
    ensures a + b + c == a + (b + c)
  {
  }

  class Game {
    var tiles: array2<Tile>
    var hero: Actor
    var enemies: seq<Actor>
    var swords: seq<Pos>
    var potions: seq<Pos>

    /** The grid has the configured size and the hero's health is within its maximum. */
    ghost predicate Valid()
      reads this
    {
      Sized(tiles) && hero.health <= hero.maxHealth
    }

    /** The object literal: an empty map, the hero at the origin with full health, no enemies or items. */
    constructor ()
      ensures tiles.Length0 == 0 && tiles.Length1 == 0
      ensures hero == Actor(0, 0, StartHealth, StartMaxHealth, StartAttackPower)
      ensures enemies == [] && swords == [] && potions == []
    {
      tiles := new Tile[0, 0];
      hero := Actor(0, 0, StartHealth, StartMaxHealth, StartAttackPower);
      enemies := [];
      swords := [];
      potions := [];
    }

    /** canMove: p is inside the grid and a floor tile; enemies and items do not matter. */
    function CanMove(p: Pos): (b: bool)
      reads this, tiles
      requires Sized(tiles)
      ensures b <==> IsFloor(Snapshot(tiles), p)
    {
      if p.x < 0 || p.x >= Width || p.y < 0 || p.y >= Height then false
      else tiles[p.y, p.x] == Floor
    }

    /**
     * findEmptyPosition over a finite stream of drawn positions: the first
     * floor tile nothing stands on, and the draws left after it; nothing,
     * with no draws left, when every draw is refused.
     */
    method FindEmptyPosition(cells: seq<Pos>) returns (pos: Option<Pos>, rest: seq<Pos>)
      requires Sized(tiles) && forall i :: 0 <= i < |cells| ==> InBounds(cells[i])
      ensures |rest| <= |cells| && rest == cells[|cells| - |rest|..]
      ensures pos.None? ==> rest == [] && forall c :: c in cells ==> !Free(Snapshot(tiles), hero, enemies, swords, potions, c)
      ensures pos.Some? ==> |rest| < |cells| && pos.value == cells[|cells| - |rest| - 1]
      ensures pos.Some? ==> Free(Snapshot(tiles), hero, enemies, swords, potions, pos.value)
      ensures pos.Some? ==> forall j :: 0 <= j < |cells| - |rest| - 1 ==> !Free(Snapshot(tiles), hero, enemies, swords, potions, cells[j])
    {
      var k := 0;
      while k < |cells|
        invariant 0 <= k <= |cells|
        invariant forall j :: 0 <= j < k ==> !Free(Snapshot(tiles), hero, enemies, swords, potions, cells[j])
      {
        var c := cells[k];
        if tiles[c.y, c.x] == Floor && !IsPositionOccupied(hero, enemies, swords, potions, c) {
          return Some(c), cells[k + 1..];
        }
        k := k + 1;
      }
      return None, [];
    }

    /**
     * helpers.placeEntity: count positions found one after another against
     * the current fields, which the batch itself does not change, so two of
     * them may coincide.  ok is false when the draws run out first.
     */
    method PlaceEntity(count: nat, cells: seq<Pos>) returns (placed: seq<Pos>, rest: seq<Pos>, ok: bool, ghost idx: seq<nat>)
      requires Sized(tiles) && forall i :: 0 <= i < |cells| ==> InBounds(cells[i])
      ensures ok ==> |placed| == count
      ensures !ok ==> |placed| < count && rest == []
      ensures forall q :: q in placed ==> Free(Snapshot(tiles), hero, enemies, swords, potions, q)
      ensures |rest| <= |cells| && rest == cells[|cells| - |rest|..]
      ensures Picks(Snapshot(tiles), hero, enemies, swords, potions, cells, |cells| - |rest|, placed, idx)
      ensures ok ==> |cells| - |rest| == Consumed(idx)
    {
      ghost var g := Snapshot(tiles);
      placed, rest, idx := [], cells, [];
      var i := 0;
      while i < count
        invariant 0 <= i <= count && |placed| == i
        invariant forall q :: q in placed ==> Free(g, hero, enemies, swords, potions, q)
        invariant |rest| <= |cells| && rest == cells[|cells| - |rest|..]
        invariant Picks(g, hero, enemies, swords, potions, cells, |cells| - |rest|, placed, idx)
        invariant |cells| - |rest| == Consumed(idx)
      {
        var pos;
        ghost var before := rest;
        pos, rest := FindEmptyPosition(rest);
        PicksStep(g, hero, enemies, swords, potions, cells, before, placed, idx, pos, rest);
        assert rest == cells[|cells| - |rest|..] by {
          assert before[|before| - |rest|..] == cells[|cells| - |rest|..];
        }
        if pos.None? {
          return placed, [], false, idx;
        }
        idx := idx + [|cells| - |rest| - 1];
        placed := placed + [pos.value];
        i := i + 1;
      }
      ok := true;
    }

    /**
     * placeItems: the swords, then the potions, each batch checked against
     * the fields as they stand when it is drawn.
     */
    method PlaceItems(cells: seq<Pos>) returns (rest: seq<Pos>, ok: bool, ghost sIdx: seq<nat>, ghost mid: nat, ghost pIdx: seq<nat>)
      requires Sized(tiles) && forall i :: 0 <= i < |cells| ==> InBounds(cells[i])
      modifies this`swords, this`potions
      ensures ok ==> |swords| == SwordCount && |potions| == PotionCount
      ensures forall q :: q in swords ==> Free(Snapshot(tiles), hero, enemies, old(swords), old(potions), q)
      ensures ok ==> forall q :: q in potions ==> Free(Snapshot(tiles), hero, enemies, swords, old(potions), q)
      ensures |rest| <= |cells| && rest == cells[|cells| - |rest|..]
      // the swords are picked from the first mid draws, the potions from the draws after them
      ensures mid <= |cells| - |rest|
      ensures Picks(Snapshot(tiles), hero, enemies, old(swords), old(potions), cells, mid, swords, sIdx)
      ensures |swords| == SwordCount ==> mid == Consumed(sIdx)
      ensures |swords| < SwordCount ==> mid == |cells| && !ok
      ensures |swords| == SwordCount ==>
        Picks(Snapshot(tiles), hero, enemies, swords, old(potions), cells[mid..], |cells| - |rest| - mid, potions, pIdx)
      ensures ok ==> |cells| - |rest| == mid + Consumed(pIdx)
    {
      var placed;
      placed, rest, ok, sIdx := PlaceEntity(SwordCount, cells);
      swords := placed;
      mid := |cells| - |rest|;
      pIdx := [];
      if !ok {
        return;
      }
      ghost var before := rest;
      placed, rest, ok, pIdx := PlaceEntity(PotionCount, rest);
      assert before == cells[mid..];
      assert before[|before| - |rest|..] == cells[|cells| - |rest|..];
      potions := placed;
    }

    /**
     * The first half of placeCharacters: the hero on the first free draw,
     * with full health and attack power 1.
     */
    method PlaceHero(cells: seq<Pos>) returns (rest: seq<Pos>, ok: bool, ghost h: nat)
      requires Sized(tiles) && forall i :: 0 <= i < |cells| ==> InBounds(cells[i])
      modifies this`hero
      ensures |rest| <= |cells| && rest == cells[|cells| - |rest|..]
      ensures h <= |cells| && forall j :: 0 <= j < h ==> Passed(Snapshot(tiles), old(hero), enemies, swords, potions, cells, j)
      ensures ok <==> h < |cells|
      ensures !ok ==> rest == [] && hero == old(hero)
      ensures ok ==> h + 1 == |cells| - |rest| && At(hero) == cells[h]
      ensures ok ==> Free(Snapshot(tiles), old(hero), enemies, swords, potions, At(hero))
      ensures ok ==> hero == old(hero).(x := hero.x, y := hero.y, health := hero.maxHealth, attackPower := StartAttackPower)
    {
      ghost var g := Snapshot(tiles);
      var pos;
      pos, rest := FindEmptyPosition(cells);
      if pos.None? {
        h := |cells|;
        forall j | 0 <= j < h ensures Passed(g, hero, enemies, swords, potions, cells, j) {
          assert cells[j] in cells;
        }
        return rest, false, h;
      }
      h := |cells| - |rest| - 1;
      assert forall j :: 0 <= j < h ==> Passed(g, hero, enemies, swords, potions, cells, j);
      var p := pos.value;
      hero := hero.(x := p.x, y := p.y, health := hero.maxHealth, attackPower := StartAttackPower);
      ok := true;
      assert Snapshot(tiles) == g;
    }

    /**
     * placeCharacters: the hero on a free tile with full health and attack
     * power 1, then the enemies, each a fresh enemy on a tile free at the
     * time of the batch.
     */
    method PlaceCharacters(cells: seq<Pos>) returns (rest: seq<Pos>, ok: bool, ghost h: nat, ghost eIdx: seq<nat>)
      requires Sized(tiles) && forall i :: 0 <= i < |cells| ==> InBounds(cells[i])
      modifies this`hero, this`enemies
      ensures ok ==> Free(Snapshot(tiles), old(hero), old(enemies), swords, potions, At(hero))
      ensures ok ==> hero == old(hero).(x := hero.x, y := hero.y, health := hero.maxHealth, attackPower := StartAttackPower)
      ensures ok ==> |enemies| == EnemyCount
      ensures ok ==> forall k :: 0 <= k < |enemies| ==>
        enemies[k] == NewEnemy(At(enemies[k])) && Free(Snapshot(tiles), hero, old(enemies), swords, potions, At(enemies[k]))
      ensures |rest| <= |cells| && rest == cells[|cells| - |rest|..]
      // the hero stands on the first free draw h; the enemies are picked from the draws after it
      ensures h <= |cells| && forall j :: 0 <= j < h ==> Passed(Snapshot(tiles), old(hero), old(enemies), swords, potions, cells, j)
      ensures h == |cells| ==> !ok
      ensures h < |cells| ==> At(hero) == cells[h] && h + 1 <= |cells| - |rest|
      ensures h < |cells| ==>
        Picks(Snapshot(tiles), hero, old(enemies), swords, potions, cells[h + 1..], |cells| - |rest| - (h + 1), Places(enemies), eIdx)
      ensures ok ==> |cells| - |rest| == h + 1 + Consumed(eIdx)
    {
      ghost var g := Snapshot(tiles);
      ghost var e0 := enemies;
      ghost var h0 := hero;
      rest, ok, h := PlaceHero(cells);
      assert Snapshot(tiles) == g;
      forall j | 0 <= j < h ensures Passed(g, h0, e0, swords, potions, cells, j) {
        assert Passed(Snapshot(tiles), h0, enemies, swords, potions, cells, j);
      }
      eIdx := [];
      if !ok {
        return;
      }
      var placed;
      ghost var before := rest;
      placed, rest, ok, eIdx := PlaceEntity(EnemyCount, rest);
      assert before[|before| - |rest|..] == cells[|cells| - |rest|..];
      assert |before| - |rest| == |cells| - |rest| - (h + 1);
      assert Picks(g, hero, e0, swords, potions, cells[h + 1..], |cells| - |rest| - (h + 1), placed, eIdx);
      enemies := Spawn(placed);
      assert forall k :: 0 <= k < |placed| ==> placed[k] in placed;
      assert Places(enemies) == placed;
      assert Snapshot(tiles) == g;
    }

    /**
     * init without rendering and key binding: a fresh all-wall grid; the
     * rooms; the corridors; the connectivity repair; then the items and the
     * characters.  Afterwards the grid has floor and all of it is connected;
     * when the drawn positions suffice, everything is placed on floor.
     */
    method Init(d: LevelDraws) returns (ok: bool)
      requires ValidLevelDraws(d)
      modifies this
      ensures fresh(tiles) && Sized(tiles)
      ensures exists p :: IsFloor(Snapshot(tiles), p)
      ensures AllConnected(Snapshot(tiles))
      ensures ok ==> Valid()
      ensures ok ==> hero.health == hero.maxHealth && hero.attackPower == StartAttackPower
      ensures ok ==> |swords| == SwordCount && |potions| == PotionCount && |enemies| == EnemyCount
      ensures ok ==> IsFloor(Snapshot(tiles), At(hero))
      ensures ok ==> forall q :: q in swords || q in potions ==> IsFloor(Snapshot(tiles), q)
      ensures ok ==> forall k :: 0 <= k < |enemies| ==> IsFloor(Snapshot(tiles), At(enemies[k]))
    {
      ghost var p;
      tiles, p := BuildMap(d);
      ghost var g := Snapshot(tiles);
      var rest;
      ghost var sIdx, mid, pIdx, h, eIdx;
      rest, ok, sIdx, mid, pIdx := PlaceItems(d.cells);
      if ok {
        rest, ok, h, eIdx := PlaceCharacters(rest);
      }
      assert Snapshot(tiles) == g && IsFloor(g, p);
    }

    /**
     * checkItem: walking the items from the last to the first, every item on
     * the hero's tile applies its effect and is spliced out.
     */
    method CheckItem(items: seq<Pos>, effect: Effect) returns (remaining: seq<Pos>)
      modifies this`hero
      ensures remaining == Remaining(items, At(old(hero)))
      ensures hero == ApplyTimes(old(hero), effect, CountAt(items, At(old(hero))))
    {
      ghost var p := At(hero);
      ghost var h0 := hero;
      remaining := items;
      var i := |items|;
      while i > 0
        invariant 0 <= i <= |items|
        invariant remaining == items[..i] + Remaining(items[i..], p)
        invariant hero == ApplyTimes(h0, effect, CountAt(items[i..], p))
      {
        i := i - 1;
        ghost var rest := Remaining(items[i + 1..], p);
        assert items[i..] == [items[i]] + items[i + 1..];
        assert items[..i + 1] == items[..i] + [items[i]];
        assert remaining == items[..i] + ([items[i]] + rest);
        assert remaining[..i] == items[..i] && remaining[i] == items[i] && remaining[i + 1..] == rest;
        ApplyTimesSpec(h0, effect, CountAt(items[i + 1..], p));
        if remaining[i].x == hero.x && remaining[i].y == hero.y {
          hero := Apply(hero, effect);
          remaining := remaining[..i] + remaining[i + 1..];
        }
      }
    }

    /** checkItems: the swords sharpen the hero, then the potions heal it. */
    method CheckItems()
      modifies this`hero, this`swords, this`potions
      ensures swords == Remaining(old(swords), At(old(hero)))
      ensures potions == Remaining(old(potions), At(old(hero)))
      ensures hero == ApplyTimes(ApplyTimes(old(hero), Sharpen, CountAt(old(swords), At(old(hero)))),
                                 Heal, CountAt(old(potions), At(old(hero))))
    {
      ghost var h0 := hero;
      swords := CheckItem(swords, Sharpen);
      ApplyTimesSpec(h0, Sharpen, CountAt(old(swords), At(h0)));
      potions := CheckItem(potions, Heal);
    }

    /**
     * heroAttack: handleAttack with the hero against the enemies at the
     * hero's base damage, walking from the last enemy to the first; a nearby
     * enemy loses attackPower * heroBaseDamage and is spliced out when its
     * health is no longer positive.
     */
    method HeroAttack()
      modifies this`enemies
      ensures enemies == Survivors(old(enemies), hero, HeroBaseDamage)
    {
      ghost var e0 := enemies;
      var i := |enemies|;
      while i > 0
        invariant 0 <= i <= |e0|
        invariant enemies == e0[..i] + Survivors(e0[i..], hero, HeroBaseDamage)
      {
        i := i - 1;
        SurvivorsStep(e0, hero, HeroBaseDamage, i);
        ghost var tail := Survivors(e0[i + 1..], hero, HeroBaseDamage);
        assert enemies[..i] == e0[..i] && enemies[i] == e0[i] && enemies[i + 1..] == tail;
        var target := enemies[i];
        if IsNearby(At(target), At(hero)) {
          target := target.(health := target.health - hero.attackPower * HeroBaseDamage);
          assert target == Hit(e0[i], hero, HeroBaseDamage);
          SpliceAt(enemies, i, target);
          ConcatAssoc(e0[..i], [target], tail);
          enemies := enemies[i := target];
          if target.health <= 0 {
            assert Lethal(e0[i], hero, HeroBaseDamage);
            enemies := enemies[..i] + enemies[i + 1..];
            assert enemies == e0[..i] + tail;
          } else {
            assert !Lethal(e0[i], hero, HeroBaseDamage);
            assert Survivors(e0[i..], hero, HeroBaseDamage) == [target] + tail;
            assert enemies == e0[..i] + [target] + tail;
          }
        } else {
          assert !Lethal(e0[i], hero, HeroBaseDamage) && target == Hit(e0[i], hero, HeroBaseDamage);
          SpliceAt(enemies, i, target);
          ConcatAssoc(e0[..i], [target], tail);
        }
      }
    }

    /**
     * One iteration of enemiesMove: enemy i shuffles its four neighbours and
     * steps to the first it can move to that nothing occupies.
     */
    method StepEnemy(i: nat, ds: seq<nat>)
      requires Sized(tiles) && i < |enemies| && ShuffleDraws(ds, 4)
      modifies this`enemies
      ensures enemies == StepOne(Snapshot(tiles), hero, old(enemies), swords, potions, ds, i)
    {
      var e := enemies[i];
      var ns := Neighbors(At(e));
      var order := new Pos[4](k requires 0 <= k < 4 => ns[k]);
      assert order[..] == ns;
      Shuffle(order, ds);
      ghost var tries := order[..];
      assert tries == TryOrder(e, ds);
      var j := 0;
      while j < 4
        invariant 0 <= j <= 4 && order[..] == tries
        invariant FirstFree(Snapshot(tiles), hero, enemies, swords, potions, tries) ==
                  FirstFree(Snapshot(tiles), hero, enemies, swords, potions, tries[j..])
      {
        var p := order[j];
        assert tries[j..] == [p] + tries[j + 1..];
        if CanMove(p) && !IsPositionOccupied(hero, enemies, swords, potions, p) {
          enemies := enemies[i := e.(x := p.x, y := p.y)];
          return;
        }
        j := j + 1;
      }
    }

    /** enemiesMove: every enemy in list order takes its step, seeing the steps before it. */
    method EnemiesMove(draws: seq<seq<nat>>)
      requires Sized(tiles) && MoveDraws(draws, |enemies|)
      modifies this`enemies
      ensures enemies == MoveFrom(Snapshot(tiles), hero, old(enemies), swords, potions, draws, 0)
    {
      ghost var e0 := enemies;
      var n := |enemies|;
      for i := 0 to n
        invariant |enemies| == n
        invariant MoveFrom(Snapshot(tiles), hero, enemies, swords, potions, draws, i) ==
                  MoveFrom(Snapshot(tiles), hero, e0, swords, potions, draws, 0)
      {
        StepEnemy(i, draws[i]);
        StepOneSpec(Snapshot(tiles), hero, old(enemies), swords, potions, draws[i], i);
      }
    }

    /**
     * enemiesAttack as written: handleAttack with the hero as attacker and
     * the enemies as targets at the enemy base damage.  defeated is the
     * game-over callback firing for the first enemy brought to zero health
     * or below, where the model stops.
     */
    method EnemiesAttack() returns (defeated: bool)
      modifies this`enemies
      ensures Blows(enemies, defeated) == StrikeUntilFall(old(enemies), hero, EnemyBaseDamage, |old(enemies)|)
    {
      ghost var e0 := enemies;
      var i := |enemies|;
      while i > 0
        invariant 0 <= i <= |enemies| == |e0|
        invariant StrikeUntilFall(enemies, hero, EnemyBaseDamage, i) == StrikeUntilFall(e0, hero, EnemyBaseDamage, |e0|)
      {
        i := i - 1;
        var target := enemies[i];
        if IsNearby(At(target), At(hero)) {
          target := target.(health := target.health - hero.attackPower * EnemyBaseDamage);
          enemies := enemies[i := target];
          if target.health <= 0 {
            return true;
          }
        }
      }
      return false;
    }

    /**
     * The keydown handler for one intent.  An attack: heroAttack,
     * enemiesMove, enemiesAttack.  A step: refused without any change when
     * the target tile cannot be moved to; otherwise the hero moves there,
     * picks up the items on it, and the enemies move and are attacked.
     */
    method Turn(intent: Intent, draws: seq<seq<nat>>) returns (outcome: Outcome)
      requires Valid() && MoveDraws(draws, |enemies|)
      modifies this
      ensures Valid() && tiles == old(tiles)
      ensures outcome == Rejected <==> intent != Attack && !IsFloor(Snapshot(tiles), Target(At(old(hero)), intent))
      ensures outcome == Rejected ==>
        hero == old(hero) && enemies == old(enemies) && swords == old(swords) && potions == old(potions)
      ensures intent == Attack ==>
        && hero == old(hero) && swords == old(swords) && potions == old(potions)
        && var moved := MoveFrom(Snapshot(tiles), hero, Survivors(old(enemies), hero, HeroBaseDamage), swords, potions, draws, 0);
           Blows(enemies, outcome == Defeat) == StrikeUntilFall(moved, hero, EnemyBaseDamage, |moved|)
      ensures intent != Attack && outcome != Rejected ==>
        && var p := Target(At(old(hero)), intent);
        && swords == Remaining(old(swords), p) && potions == Remaining(old(potions), p)
        && hero == ApplyTimes(ApplyTimes(old(hero).(x := p.x, y := p.y), Sharpen, CountAt(old(swords), p)),
                              Heal, CountAt(old(potions), p))
        && var moved := MoveFrom(Snapshot(tiles), hero, old(enemies), swords, potions, draws, 0);
           Blows(enemies, outcome == Defeat) == StrikeUntilFall(moved, hero, EnemyBaseDamage, |moved|)
    {
      if intent == Attack {
        HeroAttack();
        SurvivorsSpec(old(enemies), hero, HeroBaseDamage);
        EnemiesMove(draws);
        var defeated := EnemiesAttack();
        outcome := if defeated then Defeat else Resolved;
        return;
      }
      var p := Target(At(hero), intent);
      if !CanMove(p) {
        return Rejected;
      }
      ghost var h0 := hero.(x := p.x, y := p.y);
      hero := hero.(x := p.x, y := p.y);
      CheckItems();
      ApplyTimesSpec(h0, Sharpen, CountAt(old(swords), p));
      ApplyTimesSpec(ApplyTimes(h0, Sharpen, CountAt(old(swords), p)), Heal, CountAt(old(potions), p));
      EnemiesMove(draws);
      var defeated := EnemiesAttack();
      outcome := if defeated then Defeat else Resolved;
    }
  }
}
