/**
 * The operations that write tiles into the grid in place: filling it with
 * walls, carving rooms, L-shaped corridors and the full-width and
 * full-height corridors (game.js:108-128, 164-170, 275-304).  Each is a
 * method over the grid array; every one of them only turns tiles into floor.
 */
module Carving {
  import opened Config
  import opened Geometry
  import opened Grid
  import opened Rooms

  /** generateMap: a fresh grid with every tile a wall. */
  method GenerateMap() returns (a: array2<Tile>)
    ensures fresh(a) && Sized(a)
    ensures forall y, x :: 0 <= y < Height && 0 <= x < Width ==> a[y, x] == Wall
  {
    a := new Tile[Height, Width];
    var y := 0;
    while y < Height
      invariant 0 <= y <= Height
      invariant forall y', x :: 0 <= y' < y && 0 <= x < Width ==> a[y', x] == Wall
    {
      var x := 0;
      while x < Width
        invariant 0 <= x <= Width
        invariant forall y', x' :: 0 <= y' < y && 0 <= x' < Width ==> a[y', x'] == Wall
        invariant forall x' :: 0 <= x' < x ==> a[y, x'] == Wall
      {
        a[y, x] := Wall;
        x := x + 1;
      }
      y := y + 1;
    }
  }

  /** carveRoom: exactly the room's tiles become floor. */
  method CarveRoom(a: array2<Tile>, room: Room)
    requires Sized(a) && Fits(room)
    modifies a
    ensures forall y, x :: 0 <= y < Height && 0 <= x < Width ==>
      a[y, x] == (if InRoom(room, Pos(x, y)) then Floor else old(a[y, x]))
    ensures OnlyCarves(old(Snapshot(a)), Snapshot(a))
  {
    var y := room.y;
    while y < room.y + room.height
      invariant room.y <= y <= room.y + room.height
      invariant forall y', x :: 0 <= y' < Height && 0 <= x < Width ==>
        a[y', x] == (if y' < y && InRoom(room, Pos(x, y')) then Floor else old(a[y', x]))
    {
      var x := room.x;
      while x < room.x + room.width
        invariant room.x <= x <= room.x + room.width
        invariant forall y', x' :: 0 <= y' < Height && 0 <= x' < Width ==>
          a[y', x'] == (if (y' < y || (y' == y && x' < x)) && InRoom(room, Pos(x', y')) then Floor else old(a[y', x']))
      {
        a[y, x] := Floor;
        x := x + 1;
      }
      y := y + 1;
    }
  }

  /** Some accepted room holds p. */
  predicate InSomeRoom(rooms: seq<Room>, p: Pos) {
    exists i :: 0 <= i < |rooms| && InRoom(rooms[i], p)
  }

  /**
   * generateRooms, with the draws supplied: between five and ten candidates,
   * each kept and carved if canPlaceRoom accepts it among the rooms kept so
   * far.  Exactly the tiles of the kept rooms become floor.
   */
  method GenerateRooms(a: array2<Tile>, draws: seq<RoomDraw>) returns (ghost rooms: seq<Room>)
    requires Sized(a)
    requires 5 <= |draws| <= 10
    requires forall i :: 0 <= i < |draws| ==> ValidDraw(draws[i])
    modifies a
    ensures rooms == Accepted(Candidates(draws))
    ensures forall y, x :: 0 <= y < Height && 0 <= x < Width ==>
      a[y, x] == (if InSomeRoom(rooms, Pos(x, y)) then Floor else old(a[y, x]))
    ensures OnlyCarves(old(Snapshot(a)), Snapshot(a))
  {
    var cs := Candidates(draws);
    var kept: seq<Room> := [];
    var i := 0;
    while i < |draws|
      invariant 0 <= i <= |draws|
      invariant kept == Accepted(cs[..i])
      invariant forall r :: r in kept ==> Fits(r)
      invariant forall y, x :: 0 <= y < Height && 0 <= x < Width ==>
        a[y, x] == (if InSomeRoom(kept, Pos(x, y)) then Floor else old(a[y, x]))
    {
      var room := GenerateRoom(draws[i]);
      assert cs[..i + 1][..i] == cs[..i] && cs[..i + 1][i] == room;
      if CanPlaceRoom(room, kept) {
        ghost var before := kept;
        CarveRoom(a, room);
        kept := kept + [room];
        forall y, x | 0 <= y < Height && 0 <= x < Width
          ensures InSomeRoom(kept, Pos(x, y)) <==> InSomeRoom(before, Pos(x, y)) || InRoom(room, Pos(x, y))
        {
          if InSomeRoom(kept, Pos(x, y)) {
            var k :| 0 <= k < |kept| && InRoom(kept[k], Pos(x, y));
            if k < |before| { assert kept[k] == before[k]; }
          }
          if InSomeRoom(before, Pos(x, y)) {
            var k :| 0 <= k < |before| && InRoom(before[k], Pos(x, y));
            assert kept[k] == before[k];
          }
          if InRoom(room, Pos(x, y)) { assert kept[|before|] == room; }
        }
      }
      i := i + 1;
    }
    assert cs[..i] == cs;
    rooms := kept;
  }

  /**
   * connectRooms between two coordinate pairs: row s.y is carved from s.x
   * towards t.x, then column t.x from s.y towards t.y; the target stays as it
   * was.  Every step brings the cursor one tile closer to the target.
   */
  method ConnectRooms(a: array2<Tile>, s: Pos, t: Pos)
    requires Sized(a) && InBounds(s) && InBounds(t)
    modifies a
    ensures forall y, x :: 0 <= y < Height && 0 <= x < Width ==>
      a[y, x] == (if InLPath(s, t, Pos(x, y)) then Floor else old(a[y, x]))
    ensures OnlyCarves(old(Snapshot(a)), Snapshot(a))
  {
    var x, y := s.x, s.y;
    while x != t.x
      invariant Between(s.x, x, t.x) || x == t.x
      invariant forall y', x' :: 0 <= y' < Height && 0 <= x' < Width ==>
        a[y', x'] == (if y' == s.y && Between(s.x, x', x) then Floor else old(a[y', x']))
      decreases Abs(x - t.x)
    {
      a[y, x] := Floor;
      x := x + (if x < t.x then 1 else -1);
    }
    while y != t.y
      invariant Between(s.y, y, t.y) || y == t.y
      invariant forall y', x' :: 0 <= y' < Height && 0 <= x' < Width ==>
        a[y', x'] == (if (y' == s.y && Between(s.x, x', t.x)) || (x' == t.x && Between(s.y, y', y))
                      then Floor else old(a[y', x']))
      decreases Abs(y - t.y)
    {
      a[y, x] := Floor;
      y := y + (if y < t.y then 1 else -1);
    }
  }

  /** generateHorizontalCorridor with its draw d: row d + 1, inside the border rows, becomes floor. */
  method GenerateHorizontalCorridor(a: array2<Tile>, d: int)
    requires Sized(a) && 0 <= d < Height - 2
    modifies a
    ensures forall y, x :: 0 <= y < Height && 0 <= x < Width ==>
      a[y, x] == (if y == d + 1 then Floor else old(a[y, x]))
    ensures OnlyCarves(old(Snapshot(a)), Snapshot(a))
  {
    var y := d + 1;
    var x := 0;
    while x < Width
      invariant 0 <= x <= Width
      invariant forall y', x' :: 0 <= y' < Height && 0 <= x' < Width ==>
        a[y', x'] == (if y' == y && x' < x then Floor else old(a[y', x']))
    {
      a[y, x] := Floor;
      x := x + 1;
    }
  }

  /** generateVerticalCorridor with its draw d: column d + 1, inside the border columns, becomes floor. */
  method GenerateVerticalCorridor(a: array2<Tile>, d: int)
    requires Sized(a) && 0 <= d < Width - 2
    modifies a
    ensures forall y, x :: 0 <= y < Height && 0 <= x < Width ==>
      a[y, x] == (if x == d + 1 then Floor else old(a[y, x]))
    ensures OnlyCarves(old(Snapshot(a)), Snapshot(a))
  {
    var x := d + 1;
    var y := 0;
    while y < Height
      invariant 0 <= y <= Height
      invariant forall y', x' :: 0 <= y' < Height && 0 <= x' < Width ==>
        a[y', x'] == (if x' == x && y' < y then Floor else old(a[y', x']))
    {
      a[y, x] := Floor;
      y := y + 1;
    }
  }
}
