# Roguelike core in Dafny

This project models the core of `game.js`, a browser roguelike. The core is the dungeon generator, the connectivity repair and the turn logic. The level is a 40 × 24 grid of walls and floor. Rooms are drawn at random, and rooms that would overlap (with a margin) are rejected. Each room found on the grid is joined to its nearest room by an L-shaped path. A few full-width and full-height corridors are then carved. A flood fill from the first floor tile finds its component, and every floor tile outside it is joined by an L-shaped path to the nearest visited tile. The hero, the enemies, the swords and the potions are then placed on free floor tiles. After that, each key press is resolved as one turn:

- a step, which is refused if the target tile is not floor;
- or an attack;
- then item pickup, enemy movement and enemy attacks.

The model follows the source's own structure:

- The map is an `array2<Tile>` indexed `[y, x]`. The generation and repair routines are methods that change it in place, and each is proved against a pointwise description of the tiles it carves.
- `Snapshot` turns the array into a value, so that connectivity (`Connected`: a 4-connected path of floor tiles) can be reasoned about in lemmas.
- The game state is the class `GameState.Game`. Its fields are the grid, the hero, the enemies and the two item lists. Its methods update them as the source does.
- Most loops of the source are `while` or `for` loops in the model. Each is proved against its specification: a pointwise description of the tiles it carves, a property of its result (the first floor tile, the nearest room), or a value-level function: `Accepted` in `Rooms`, and `Survivors`, `StrikeUntilFall`, `Remaining`/`ApplyTimes`, `Shuffled`, `FirstFree` and `MoveFrom` in `Entities`.
- The hero half of `placeCharacters` (game.js:317-321) is its own method, `PlaceHero`, which `PlaceCharacters` calls before placing the enemies.
- Four scans that only answer yes or no are recursive functions instead: the loop over the existing rooms in `canPlaceRoom` (`Rooms.ClearOf`), `isRoomInList` (`Discovery.IsRoomInList`) and the loops of `isPositionOccupied` (`Entities.EnemyAt`, and `Entities.ItemAt` for the swords and the potions).

Every random draw (`Math.floor(Math.random() * k)`) is a parameter of the model, whose range is stated as a precondition. Examples:

- The room draws stand for the four draws of `generateRoom`.
- The corridor draws stand for the row or column drawn.
- The shuffle draws give `j` for each `i` of the Fisher–Yates loop.
- The position draws are the candidates `findEmptyPosition` tries one after another.

Main results:

- `Repair.CheckMapConnectivity`: afterwards every floor tile is connected to the first floor tile. The seed's component is exactly what the flood fill visited. Each unconnected tile is joined to the visited tile nearest to it.
- `GameState.BuildMap`: the generated level always has floor, and all of it is connected. The first drawn room always fits, so there is always a floor tile.
- `Discovery.GenerateCorridors`: rooms are discovered with distinct centres, every floor tile's room is represented in the list, and each room is linked to its nearest room. The list is in row-major order of each room's first floor tile, which fixes the tie-break of `findNearestRoom`.
- `GameState.Game.PlaceItems` and `GameState.Game.PlaceCharacters`: each batch takes the free draws in order, and every draw it passes over was not free. The hero stands on the first free draw left after the items.
- `GameState.Game.Turn`: a refused step changes nothing. Otherwise the new state is the composition of the value-level specifications of the phases. Health never exceeds the maximum.

Where the source and its written description disagree, the model follows the source:

- `enemiesAttack` calls the attack helper with the hero as the attacker and the enemies as the targets, at the enemy base damage. So the nearby enemies lose `attackPower * 10` each, and the hero is never damaged. The game-over callback fires when such an enemy reaches zero health or below.
- Items block enemy moves, because `isPositionOccupied` counts swords and potions.
- The items are placed before the characters: swords, potions, the hero, then the enemies.
- Each batch of `placeEntity` is checked only against the lists as they stood before the batch. The list is assigned after the batch, so two swords, two potions or two enemies may share a tile.
- The hero is placed against its own old position.
- Health may go below zero. A fallen enemy is removed; nothing clamps the value.

## Model

| member | source | states |
|---|---|---|
| Geometry.Neighbors | game.js:50-57 | the four orthogonal neighbours in the order left, right, up, down |
| Geometry.NeighborsAreAdjacent | game.js:50-57 | q is among p's neighbours iff q is one orthogonal step from p |
| Geometry.IsNearbyBlock | game.js:37-39 | isNearby holds exactly for the 3 × 3 block around a position, and is symmetric |
| Grid.InBoundsIsCell | game.js:59-62 | isValidPosition accepts exactly the positions that index a tile of the grid |
| Rooms.GenerateRoom | game.js:130-142 | a drawn room has width and height in [3, 8] and lies with a one-tile border inside the grid |
| Rooms.GeneratedRoomPassesBounds | game.js:144-149 | the bounds test of canPlaceRoom never rejects a generated room, so only the overlap test decides |
| Rooms.ClearOfAll | game.js:151-161 | a room passes the loop over the existing rooms iff it overlaps none of them |
| Rooms.OverlapsSymmetric | game.js:153-156 | the padded overlap test is symmetric |
| Rooms.ApartRoomsAreSeparated | game.js:153-156 | tiles of two non-overlapping rooms are more than three tiles apart on some axis |
| Rooms.AcceptedRoomsSeparated | game.js:117-128 | the accepted rooms are drawn candidates that lie inside the grid, and no two of them overlap |
| Rooms.Accepted | game.js:121-127 | no more rooms are kept than drawn, and every kept room is one of the candidates |
| Rooms.AcceptedIndices | game.js:121-127 | the kept rooms are the candidates at strictly increasing indices, so they keep the draw order |
| Rooms.CanPlaceRoomSpec | game.js:144-162 | canPlaceRoom accepts iff the room starts at a non-negative position, ends before the right and bottom edges, and overlaps no existing room |
| Rooms.OverlapsIffClose | game.js:151-159 | for rooms with tiles, the padded overlap test holds iff some tiles of the two rooms are within three tiles of each other on both axes |
| Rooms.FirstCandidateAccepted | game.js:121-126 | the first drawn room is always accepted |
| Carving.GenerateMap | game.js:108-115 | a fresh 24 × 40 grid, every tile wall |
| Carving.CarveRoom | game.js:164-170 | exactly the tiles of the room become floor; the rest are unchanged |
| Carving.GenerateRooms | game.js:117-128 | the carved tiles are exactly those in an accepted room; the kept rooms are the accepted candidates |
| Carving.ConnectRooms | game.js:275-290 | exactly the tiles of the L path are carved: the start row up to the target column, then that column up to the target |
| Grid.LPathInBox | game.js:281-289 | every carved tile lies in the bounding box of the endpoints, and the target itself is not carved |
| Grid.LPathConnected | game.js:275-290 | once the L path is floor, each of its tiles is connected to the target |
| Carving.GenerateHorizontalCorridor | game.js:292-297 | row d + 1 becomes floor; nothing else changes |
| Carving.GenerateVerticalCorridor | game.js:299-304 | column d + 1 becomes floor; nothing else changes |
| Discovery.PushInBounds | game.js:231-237 | the stack gains exactly the in-bounds neighbours of the popped tile |
| Discovery.ScanStep | game.js:217-237 | one pop keeps the scan invariant and shrinks the unvisited set or the stack |
| Discovery.ScanResult | game.js:238-242 | at the end of the scan, the box bounds the start and its component, and the centre is the rounded-down midpoint |
| Discovery.FindRoom | game.js:205-243 | the result is the bounding box of the start and the floor tiles connected to it; each side is attained and the centre is the midpoint |
| Discovery.IsRoomInList | game.js:245-253 | true iff some listed room has the same centre |
| Discovery.FindNearestRoom | game.js:255-273 | none iff there is no other room; otherwise the first room other than i at minimal Manhattan distance between centres |
| Discovery.Anchor | game.js:276-279 | for a box inside the grid, the `centerX \|\| x` fallback picks the centre |
| Discovery.AddRoom | game.js:176-180 | the tile's room is listed afterwards and the centres stay distinct; the list only grows at its end, with the tile as the new room's start, and no earlier-listed tile has the new room's centre |
| Discovery.BoundingRoomUnique | game.js:205-243 | findRoom's box for a start is unique: two boxes that bound the start's component and attain every side are equal |
| Discovery.UnlistedCentre | game.js:176-177 | a room whose centre is not in the list is not the room of any tile already represented in it |
| Discovery.AppendRoom | game.js:178-180 | pushing a room with a new centre keeps the centres distinct and the earlier rooms in place |
| Discovery.AppendRoomListed | game.js:178-180 | after the push, the start and every tile represented before are represented, and no earlier tile has the new centre |
| Discovery.ScannedToStep | game.js:174-182 | the scanned prefix grows by (x, y) once that tile's room is listed |
| Discovery.ScanOrderStep | game.js:174-182 | the starts stay strictly increasing in row-major order and each stays the first floor tile with its room's centre |
| Discovery.ScanTile | game.js:174-183 | visiting (x, y) extends the scanned prefix in row-major order |
| Discovery.DiscoverRooms | game.js:173-183 | found rooms with distinct centres, one representing the room of every floor tile; the list is in row-major order of the rooms' first floor tiles, so findNearestRoom's tie-break sees them in scan order |
| Discovery.ConnectAll | game.js:185-191 | each room i is joined by the L path to its nearest room; with one room nothing is carved |
| Discovery.CarveCorridors | game.js:193-202 | exactly the drawn rows and columns are carved |
| Discovery.GenerateCorridors | game.js:172-203 | the carved tiles are the room links plus the corridors; the room list has the properties above, including its row-major order |
| Repair.FindFirstFloor | game.js:540-549 | none iff the grid has no floor; otherwise the first floor tile in row-major order |
| Repair.PushFloor | game.js:561-567 | the stack gains exactly the in-bounds floor neighbours |
| Repair.FillStep | game.js:554-569 | one pop keeps the flood-fill invariant and shrinks the unvisited set or the stack |
| Repair.FillResult | game.js:554-569 | once the stack is empty, the visited tiles are closed under floor neighbours, so they hold the whole component |
| Repair.FloodFill | game.js:551-570 | p is visited iff p is connected to the seed; no repeats; the seed first |
| Repair.FindNearestVisited | game.js:572-589 | none iff nothing is visited; otherwise the first visited tile at minimal Manhattan distance |
| Repair.CollectUnconnected | game.js:523-529 | exactly the floor tiles not visited, in strictly increasing row-major order |
| Repair.RepairStep | game.js:531-537 | once pending tile i is joined by the L path to a tile connected to the seed, every floor tile is connected to the seed or is a later pending tile |
| Repair.RepairTile | game.js:532-536 | the pending tile is joined by the L path to its nearest visited tile |
| Repair.RepairAll | game.js:531-537 | each pending tile is joined to its nearest visited tile; all of them end up connected to the seed |
| Repair.CheckMapConnectivity | game.js:514-538 | with no floor, nothing changes; otherwise the seed is the first floor tile and every floor tile is connected to it afterwards |
| Entities.EnemyAt | game.js:347-349 | true iff some enemy stands on p |
| Entities.ItemAt | game.js:351-356 | true iff some item lies on p |
| Entities.IsPositionOccupied | game.js:344-359 | true iff the hero, an enemy, a sword or a potion is on p |
| Entities.RemainingSpec | game.js:41-48 | an item remains iff it was there and is not on the tile; the removed items are the ones counted |
| Entities.Apply | game.js:503-510 | one pickup keeps the hero's position and maxHealth, and never lifts health above maxHealth |
| Entities.ApplyTimesSpec | game.js:500-512 | n swords add n to attack power; n > 0 potions give min(health + 50n, maxHealth); the position is unchanged; health never goes above maxHealth |
| Entities.Struck | game.js:84-94 | one hit per target, with the length kept |
| Entities.Survivors | game.js:470-475 | heroAttack never adds enemies: there are at most as many survivors as targets |
| Entities.SurvivorsSpec | game.js:470-475 | heroAttack strikes every nearby enemy and removes the fallen; out-of-reach enemies are kept |
| Entities.StrikeUntilFall | game.js:493-498 | the list keeps its length, and targets at or above the start index are untouched |
| Entities.StrikeUntilFallFallen | game.js:493-498 | the callback fires iff some nearby enemy falls to the blow |
| Entities.StrikeUntilFallStruck | game.js:493-498 | if no enemy falls, every nearby enemy is struck and the others are untouched |
| Entities.ShuffleDownPermutes | game.js:64-70 | the swaps from index i down to 1 keep the length and permute the list |
| Entities.ShufflePermutes | game.js:64-72 | the shuffle is a permutation |
| Entities.Shuffle | game.js:64-72 | the array after the in-place swaps is the specified shuffle of the original |
| Entities.FirstFree | game.js:483-489 | a candidate that is free, or none when no candidate is free |
| Entities.FirstFreeIsFirst | game.js:483-489 | every candidate before the chosen one is not free |
| Entities.StepOneSpec | game.js:478-490 | one enemy's step changes only that enemy, which stays or steps to an adjacent floor tile without the hero or an item; a moved enemy stands on no other enemy's tile; enemies on distinct tiles stay on distinct tiles |
| Entities.MoveFromSpec | game.js:477-491 | enemiesMove moves each enemy by at most one orthogonal step onto floor without the hero or an item; every enemy that moved ends on a tile no other enemy ends on; enemies on distinct tiles stay on distinct tiles |
| GameState.Target | game.js:414-430 | each step key aims at an orthogonal neighbour |
| GameState.SeedJoinsAll | game.js:514-538 | a grid whose floor is connected to one seed is connected throughout |
| GameState.LayRooms | game.js:117-128 | after generateRooms some tile is floor |
| GameState.BuildMap | game.js:97-101 | generation yields a fresh grid that has floor, all of it connected |
| GameState.Game.constructor | game.js:1-14 | the initial object: an empty map, the hero at the origin with 100/100 health and attack power 1, no enemies or items |
| GameState.Game.CanMove | game.js:461-468 | true iff the tile is inside the grid and floor |
| GameState.Game.FindEmptyPosition | game.js:334-342 | the first drawn position that is floor and unoccupied; none when every draw is refused |
| GameState.PicksStep | game.js:76-79 | one findEmptyPosition extends the picks by the draw it returns, or shows every remaining draw not free |
| GameState.Spawn | game.js:323-331 | one fresh enemy with health 100, maximum 100, attack 1 on each position, in order |
| GameState.Game.PlaceEntity | game.js:74-82 | count positions, each free against the state before the batch; they are the free draws in order, each draw between them not free |
| GameState.Game.PlaceItems | game.js:306-314 | two swords free against the old lists, then ten potions free against the new swords; the swords are the first free draws and the potions the free draws after them |
| GameState.Game.PlaceHero | game.js:317-321 | the hero on the first free draw with full health and attack power 1; no draw before it was free |
| GameState.Game.PlaceCharacters | game.js:316-332 | the hero on the first free draw with full health and attack power 1, then ten fresh enemies on the free draws after it, free at that point |
| GameState.Game.Init | game.js:97-106 | a connected grid with floor; when the draws suffice, everything is on floor with the configured counts and the hero at full health |
| GameState.Game.CheckItem | game.js:41-48 | the items on the hero's tile are removed and applied once each |
| GameState.Game.CheckItems | game.js:500-512 | the swords are picked up, then the potions, as above |
| GameState.Game.HeroAttack | game.js:470-475 | the enemies become the survivors of the hero's blow |
| GameState.Game.StepEnemy | game.js:478-490 | enemy i takes the step the specification gives for its shuffled neighbours |
| GameState.Game.EnemiesMove | game.js:477-491 | every enemy steps in list order, each seeing the moves before it |
| GameState.Game.EnemiesAttack | game.js:493-498 | the enemies after the blows, and whether the game-over callback fired |
| GameState.Game.Turn | game.js:410-450 | a refused step changes nothing; a step moves the hero, picks up items, then the enemy phase runs; an attack strikes, then the enemy phase runs |

## Left out

- Rendering, the health bar markup and `updateUI` (game.js:33-35, 361-403) are left out: they only display state.
- Key binding, `preventDefault` and the jQuery start-up (game.js:405-409, 451-459, 592-594) are left out. A key press is an `Intent` value, and unmapped keys do nothing, so they have no intent.
- `alert` and the re-entry into `init` from the game-over callback are not modelled as such. `EnemiesAttack` and `Turn` stop at the first enemy brought to zero health or below and report `Defeat`, and the caller is expected to run `Init` again. The source's loop, which goes on over the stale enemy list after `init` returns, is not modelled.
- `Math.random` and its distribution are left out: every draw is a parameter whose range is a precondition.
- GameState.Game.FindEmptyPosition: the source draws random positions until one is free and may never stop. The model takes a finite list of draws and reports none when it is used up. `PlaceEntity`, `PlaceItems`, `PlaceCharacters` and `Init` then return `ok == false`.
- GameState.Game.PlaceItems: when the swords cannot all be placed, the potions are left as they were, and the source would keep drawing instead.
- Repair.FloodFill: it is specified only for a floor seed, which is the only way `checkMapConnectivity` calls it.
- Discovery.GenerateCorridors: it makes no claim that a room's centre is floor, because the model does not prove it. The accepted rooms are separated rectangles, so each discovered component is one room, but the link carving is proved without that fact.
- Rooms.ClearOf, Discovery.IsRoomInList, Entities.EnemyAt, Entities.ItemAt: these read-only scans (game.js:151-159, 245-253, 344-359) are recursive functions, not loops. They stop at the same element as the source; the loop counter itself is not modelled.
- The object graph of the source (records shared by reference, `splice` on arrays passed by reference) is modelled with values: a list field is reassigned with the new list.
