/**
 * Rediscovering the carved rooms and joining each to its nearest neighbour
 * (game.js:172-273): findRoom's depth-first scan with its bounding box and
 * centre, the duplicate test by centre, the nearest-room search, and the
 * generateCorridors pass that runs them and then adds the straight corridors.
 */
module Discovery {
  import opened Config
  import opened Geometry
  import opened Grid
  import opened Options
  import Carving

  /** The record findRoom returns: the bounding box and its centre. */
  datatype FoundRoom = FoundRoom(x: int, y: int, maxX: int, maxY: int, centerX: int, centerY: int)

  function Center(r: FoundRoom): Pos {
    Pos(r.centerX, r.centerY)
  }

  /** p is the start itself or a floor tile joined to it. */
  ghost predicate Reaches(g: Tiles, start: Pos, p: Pos) {
    p == start || Connected(g, start, p)
  }

  /** The box of r lies inside the grid and its centre inside the box. */
  predicate BoxInGrid(r: FoundRoom) {
    && 0 <= r.x <= r.centerX <= r.maxX < Width
    && 0 <= r.y <= r.centerY <= r.maxY < Height
  }

  /**
   * The scan's frontier: every in-bounds neighbour of a visited floor tile
   * has been visited or is waiting on the stack.
   */
  ghost predicate ScanFrontier(g: Tiles, visited: set<Pos>, stack: seq<Pos>) {
    forall v, q :: v in visited && IsFloor(g, v) && q in Neighbors(v) && InBounds(q) ==>
      q in visited || q in stack
  }

  /**
   * One iteration of the scan keeps the frontier: the popped position is
   * visited afterwards, and if it is a floor tile seen for the first time its
   * in-bounds neighbours have been pushed.
   */
  lemma ScanFrontierStep(g: Tiles, visited: set<Pos>, rest: seq<Pos>, pos: Pos, stack: seq<Pos>)
    requires ScanFrontier(g, visited, rest + [pos])
    requires forall q :: q in rest ==> q in stack
    requires pos !in visited && IsFloor(g, pos) ==>
      forall q :: q in Neighbors(pos) && InBounds(q) ==> q in stack
    ensures ScanFrontier(g, visited + {pos}, stack)
  {
    forall v, q | v in visited + {pos} && IsFloor(g, v) && q in Neighbors(v) && InBounds(q)
      ensures q in visited + {pos} || q in stack
    {
      if v in visited {
        assert q in visited || q in rest + [pos];
      }
    }
  }

  /**
   * When the scan is over, the box is the bounding box of the start and the
   * floor tiles connected to it.
   */
  lemma ScanResult(g: Tiles, start: Pos, s: Scan, c: Corners, room: FoundRoom)
    requires ScanInvariant(g, start, s) && BoxAttained(g, start, s, c) && s.stack == []
    requires room == FoundRoom(s.minX, s.minY, s.maxX, s.maxY, (s.minX + s.maxX) / 2, (s.minY + s.maxY) / 2)
    ensures BoundingRoom(g, start, room)
  {
    assert Reaches(g, start, c.left) && c.left.x == room.x;
    assert Reaches(g, start, c.top) && c.top.y == room.y;
    assert Reaches(g, start, c.right) && c.right.x == room.maxX;
    assert Reaches(g, start, c.bottom) && c.bottom.y == room.maxY;
    var visited := s.visited;
    if IsFloor(g, start) {
      var floorSeen := set v | v in visited && IsFloor(g, v);
      assert Closed(g, floorSeen) by {
        forall v, q | v in floorSeen && q in Neighbors(v) && IsFloor(g, q) ensures q in floorSeen {
          FloorInBounds(g, q);
        }
      }
      forall p | Connected(g, start, p) ensures InBox(s, p) {
        ClosedHoldsComponent(g, floorSeen, start, p);
      }
    } else {
      forall p | Connected(g, start, p) ensures false {
        ConnectedIsFloor(g, start, p);
      }
    }
  }

  predicate InRoomBox(r: FoundRoom, p: Pos) {
    r.x <= p.x <= r.maxX && r.y <= p.y <= r.maxY
  }

  /**
   * r is what findRoom computes from start: the bounding box (inside the
   * grid) of the start and the floor tiles connected to it, each side reached
   * by one of them, and the rounded-down midpoint as centre.
   */
  ghost predicate BoundingRoom(g: Tiles, start: Pos, r: FoundRoom) {
    && BoxInGrid(r)
    && InRoomBox(r, start)
    && (forall p :: Connected(g, start, p) ==> InRoomBox(r, p))
    && (exists p :: Reaches(g, start, p) && p.x == r.x)
    && (exists p :: Reaches(g, start, p) && p.y == r.y)
    && (exists p :: Reaches(g, start, p) && p.x == r.maxX)
    && (exists p :: Reaches(g, start, p) && p.y == r.maxY)
    && r.centerX == (r.x + r.maxX) / 2 && r.centerY == (r.y + r.maxY) / 2
  }

  /** findRoom's result is determined by the grid and the start. */
  lemma BoundingRoomUnique(g: Tiles, start: Pos, r1: FoundRoom, r2: FoundRoom)
    requires BoundingRoom(g, start, r1) && BoundingRoom(g, start, r2)
    ensures r1 == r2
  {
    forall r, r' | r in {r1, r2} && r' in {r1, r2}
      ensures r'.x <= r.x && r'.y <= r.y && r.maxX <= r'.maxX && r.maxY <= r'.maxY
    {
      var left :| Reaches(g, start, left) && left.x == r.x;
      var top :| Reaches(g, start, top) && top.y == r.y;
      var right :| Reaches(g, start, right) && right.x == r.maxX;
      var bottom :| Reaches(g, start, bottom) && bottom.y == r.maxY;
      assert InRoomBox(r', left) && InRoomBox(r', top) && InRoomBox(r', right) && InRoomBox(r', bottom);
    }
  }

  /** findRoom from p gives a room whose centre is c. */
  ghost predicate CentredAt(g: Tiles, p: Pos, c: Pos) {
    exists r :: BoundingRoom(g, p, r) && Center(r) == c
  }

  /** The loop of findRoom that pushes every in-bounds neighbour of pos. */
  method PushInBounds(stack: seq<Pos>, pos: Pos) returns (r: seq<Pos>)
    ensures forall q :: q in r <==> q in stack || (q in Neighbors(pos) && InBounds(q))
  {
    var ns := Neighbors(pos);
    r := stack;
    var i := 0;
    while i < |ns|
      invariant 0 <= i <= |ns|
      invariant forall q :: q in r <==> q in stack || (q in ns[..i] && InBounds(q))
    {
      if InBounds(ns[i]) {
        r := r + [ns[i]];
      }
      assert ns[..i + 1] == ns[..i] + [ns[i]];
      i := i + 1;
    }
    assert ns[..i] == ns;
  }

  /** The state of findRoom's scan: visited positions, the stack, the box so far. */
  datatype Scan = Scan(visited: set<Pos>, stack: seq<Pos>, minX: int, minY: int, maxX: int, maxY: int)

  predicate InBox(s: Scan, p: Pos) {
    s.minX <= p.x <= s.maxX && s.minY <= p.y <= s.maxY
  }

  /**
   * What holds between two iterations of the scan: everything on the stack or
   * visited is in bounds and, if floor, connected to the start; the frontier
   * is kept; the box holds the start and every visited floor tile.
   */
  ghost predicate ScanInvariant(g: Tiles, start: Pos, s: Scan) {
    && WellFormed(g) && InBounds(start)
    && (forall q :: q in s.stack ==> InBounds(q) && (IsFloor(g, q) ==> Connected(g, start, q)))
    && (forall v :: v in s.visited ==> InBounds(v) && (IsFloor(g, v) ==> Connected(g, start, v)))
    && (start in s.visited || s.stack == [start])
    && ScanFrontier(g, s.visited, s.stack)
    && (forall v :: v in s.visited && IsFloor(g, v) ==> InBox(s, v))
    && InBox(s, start)
  }

  /** Tiles attaining the four sides of the box. */
  datatype Corners = Corners(left: Pos, top: Pos, right: Pos, bottom: Pos)

  /** Each side of the box is reached by the start or a tile connected to it. */
  ghost predicate BoxAttained(g: Tiles, start: Pos, s: Scan, c: Corners) {
    && Reaches(g, start, c.left) && InBounds(c.left) && c.left.x == s.minX
    && Reaches(g, start, c.top) && InBounds(c.top) && c.top.y == s.minY
    && Reaches(g, start, c.right) && InBounds(c.right) && c.right.x == s.maxX
    && Reaches(g, start, c.bottom) && InBounds(c.bottom) && c.bottom.y == s.maxY
  }

  /** Popping a visited position, or marking a wall visited, keeps the invariant. */
  lemma SkipKeepsInvariant(g: Tiles, start: Pos, s: Scan, rest: seq<Pos>, pos: Pos)
    requires ScanInvariant(g, start, s) && s.stack == rest + [pos]
    requires pos in s.visited || !IsFloor(g, pos)
    ensures ScanInvariant(g, start, s.(visited := s.visited + {pos}, stack := rest))
  {
    ScanFrontierStep(g, s.visited, rest, pos, rest);
  }

  /** Growing the box by a fresh floor tile and pushing its neighbours keeps the invariant. */
  lemma GrowKeepsInvariant(g: Tiles, start: Pos, s: Scan, rest: seq<Pos>, pos: Pos, stack: seq<Pos>, s': Scan)
    requires ScanInvariant(g, start, s) && s.stack == rest + [pos]
    requires pos !in s.visited && IsFloor(g, pos)
    requires forall q :: q in stack <==> q in rest || (q in Neighbors(pos) && InBounds(q))
    requires s'.visited == s.visited + {pos} && s'.stack == stack
    requires s'.minX == (if pos.x < s.minX then pos.x else s.minX)
    requires s'.minY == (if pos.y < s.minY then pos.y else s.minY)
    requires s'.maxX == (if pos.x > s.maxX then pos.x else s.maxX)
    requires s'.maxY == (if pos.y > s.maxY then pos.y else s.maxY)
    ensures ScanInvariant(g, start, s')
  {
    assert Connected(g, start, pos);
    forall q | q in stack && IsFloor(g, q) ensures Connected(g, start, q) {
      if q !in rest {
        NeighborsAreAdjacent(pos, q);
        ConnectedAppend(g, start, pos, q);
      }
    }
    ScanFrontierStep(g, s.visited, rest, pos, stack);
  }

  /**
   * One iteration of findRoom's loop: pop a position; skip it if visited;
   * mark it visited; if it is floor, grow the box by it and push its
   * in-bounds neighbours.
   */
  method ScanStep(a: array2<Tile>, start: Pos, s: Scan, ghost c: Corners) returns (s': Scan, ghost c': Corners)
    requires Sized(a) && ScanInvariant(Snapshot(a), start, s) && BoxAttained(Snapshot(a), start, s, c)
    requires |s.stack| > 0
    ensures ScanInvariant(Snapshot(a), start, s') && BoxAttained(Snapshot(a), start, s', c')
    ensures |AllPositions() - s'.visited| < |AllPositions() - s.visited|
      || (s'.visited == s.visited && |s'.stack| < |s.stack|)
  {
    ghost var g := Snapshot(a);
    var pos := s.stack[|s.stack| - 1];
    var rest := s.stack[..|s.stack| - 1];
    assert s.stack == rest + [pos];
    if pos in s.visited {
      SkipKeepsInvariant(g, start, s, rest, pos);
      assert s.visited + {pos} == s.visited;
      s', c' := s.(stack := rest), c;
      return;
    }
    UnseenShrinks(AllPositions(), s.visited, pos);
    if a[pos.y, pos.x] != Floor {
      SkipKeepsInvariant(g, start, s, rest, pos);
      s', c' := s.(visited := s.visited + {pos}, stack := rest), c;
      return;
    }
    assert IsFloor(g, pos) && Reaches(g, start, pos);
    var minX := if pos.x < s.minX then pos.x else s.minX;
    var minY := if pos.y < s.minY then pos.y else s.minY;
    var maxX := if pos.x > s.maxX then pos.x else s.maxX;
    var maxY := if pos.y > s.maxY then pos.y else s.maxY;
    c' := Corners(if pos.x < s.minX then pos else c.left, if pos.y < s.minY then pos else c.top,
                  if pos.x > s.maxX then pos else c.right, if pos.y > s.maxY then pos else c.bottom);
    var stack := PushInBounds(rest, pos);
    s' := Scan(s.visited + {pos}, stack, minX, minY, maxX, maxY);
    assert P1: ScanInvariant(g, start, s) && s.stack == rest + [pos];
    assert P2: pos !in s.visited && IsFloor(g, pos);
    assert P3: forall q :: q in stack <==> q in rest || (q in Neighbors(pos) && InBounds(q));
    assert P4: s'.visited == s.visited + {pos} && s'.stack == stack;
    GrowKeepsInvariant(g, start, s, rest, pos, stack, s');
  }

  /**
   * findRoom: a depth-first scan from start over in-bounds positions, growing
   * the box by every floor tile it pops.  The box is the bounding box of the
   * start together with the floor tiles connected to it, and the centre is
   * the rounded-down midpoint of the box.
   */
  method FindRoom(a: array2<Tile>, start: Pos) returns (room: FoundRoom)
    requires Sized(a) && InBounds(start)
    ensures BoundingRoom(Snapshot(a), start, room)
  {
    ghost var g := Snapshot(a);
    SnapshotWellFormed(a);
    var s := Scan({}, [start], start.x, start.y, start.x, start.y);
    ghost var c := Corners(start, start, start, start);
    while |s.stack| > 0
      invariant ScanInvariant(g, start, s) && BoxAttained(g, start, s, c)
      decreases |AllPositions() - s.visited|, |s.stack|
    {
      s, c := ScanStep(a, start, s, c);
    }
    room := FoundRoom(s.minX, s.minY, s.maxX, s.maxY, (s.minX + s.maxX) / 2, (s.minY + s.maxY) / 2);
    ScanResult(g, start, s, c, room);
  }

  /** isRoomInList: some listed room has the same centre. */
  function IsRoomInList(room: FoundRoom, rooms: seq<FoundRoom>): (b: bool)
    ensures b <==> exists k :: 0 <= k < |rooms| && Center(rooms[k]) == Center(room)
  {
    if rooms == [] then false
    else if rooms[0].centerX == room.centerX && rooms[0].centerY == room.centerY then true
    else
      var b := IsRoomInList(room, rooms[1..]);
      assert forall k :: 1 <= k < |rooms| ==> rooms[k] == rooms[1..][k - 1];
      b
  }

  function RoomDistance(r: FoundRoom, e: FoundRoom): nat {
    Manhattan(Center(r), Center(e))
  }

  /**
   * j is the room nearest to room i by Manhattan distance between centres,
   * the first such in list order, and not room i itself.
   */
  predicate IsNearestRoom(rooms: seq<FoundRoom>, i: int, j: int)
    requires 0 <= i < |rooms|
  {
    && 0 <= j < |rooms| && j != i
    && (forall k :: 0 <= k < |rooms| && k != i ==> RoomDistance(rooms[i], rooms[j]) <= RoomDistance(rooms[i], rooms[k]))
    && (forall k :: 0 <= k < j && k != i ==> RoomDistance(rooms[i], rooms[j]) < RoomDistance(rooms[i], rooms[k]))
  }

  /**
   * findNearestRoom for the room at index i (the source compares records by
   * identity, which in the list is the index).  Nothing is found exactly
   * when there is no other room.
   */
  method FindNearestRoom(i: nat, rooms: seq<FoundRoom>) returns (nearest: Option<nat>)
    requires i < |rooms|
    ensures nearest.None? <==> |rooms| == 1
    ensures nearest.Some? ==> IsNearestRoom(rooms, i, nearest.value)
  {
    nearest := None;
    var minDistance := 0;
    for k := 0 to |rooms|
      invariant nearest.None? <==> (k == 0 || (k == 1 && i == 0))
      invariant nearest.Some? ==> nearest.value < k && nearest.value != i
      invariant nearest.Some? ==> minDistance == RoomDistance(rooms[i], rooms[nearest.value])
      invariant nearest.Some? ==> forall k' :: 0 <= k' < k && k' != i ==> minDistance <= RoomDistance(rooms[i], rooms[k'])
      invariant nearest.Some? ==> forall k' :: 0 <= k' < nearest.value && k' != i ==> minDistance < RoomDistance(rooms[i], rooms[k'])
    {
      if k == i {
        continue;
      }
      var distance := RoomDistance(rooms[i], rooms[k]);
      if nearest.None? || distance < minDistance {
        minDistance := distance;
        nearest := Some(k);
      }
    }
  }

  /**
   * The point connectRooms starts or aims at for a room record: centerX, or
   * x when the centre is 0 (the source's `centerX || x`).  For a box inside
   * the grid the fallback changes nothing: the point is the centre.
   */
  function Anchor(r: FoundRoom): (p: Pos)
    ensures BoxInGrid(r) ==> p == Center(r) && InBounds(p)
  {
    Pos(if r.centerX != 0 then r.centerX else r.x, if r.centerY != 0 then r.centerY else r.y)
  }

  /** Each listed room is the room findRoom computes from its floor start. */
  ghost predicate Discovered(g: Tiles, rooms: seq<FoundRoom>, starts: seq<Pos>) {
    && |rooms| == |starts|
    && forall k :: 0 <= k < |rooms| ==> IsFloor(g, starts[k]) && BoundingRoom(g, starts[k], rooms[k])
  }

  /** No two listed rooms share a centre. */
  predicate DistinctCenters(rooms: seq<FoundRoom>) {
    forall i, j :: 0 <= i < j < |rooms| ==> Center(rooms[i]) != Center(rooms[j])
  }

  /** The room findRoom computes from p has its centre among the listed rooms. */
  ghost predicate Listed(g: Tiles, rooms: seq<FoundRoom>, p: Pos) {
    exists r :: BoundingRoom(g, p, r) && IsRoomInList(r, rooms)
  }

  /** A centre no listed room has is not the centre of any listed tile's room. */
  lemma UnlistedCentre(g: Tiles, rooms: seq<FoundRoom>, room: FoundRoom)
    requires !IsRoomInList(room, rooms)
    ensures forall p :: Listed(g, rooms, p) ==> !CentredAt(g, p, Center(room))
  {
    forall p | Listed(g, rooms, p) ensures !CentredAt(g, p, Center(room)) {
      var r :| BoundingRoom(g, p, r) && IsRoomInList(r, rooms);
      if CentredAt(g, p, Center(room)) {
        var r' :| BoundingRoom(g, p, r') && Center(r') == Center(room);
        BoundingRoomUnique(g, p, r, r');
      }
    }
  }

  /**
   * The body of the discovery scan for a floor tile: find its room and list
   * it unless a listed room has the same centre.
   */
  method AddRoom(a: array2<Tile>, start: Pos, rooms: seq<FoundRoom>, ghost starts: seq<Pos>)
    returns (rooms': seq<FoundRoom>, ghost starts': seq<Pos>)
    requires Sized(a) && InBounds(start) && IsFloor(Snapshot(a), start)
    requires Discovered(Snapshot(a), rooms, starts) && DistinctCenters(rooms)
    ensures Discovered(Snapshot(a), rooms', starts') && DistinctCenters(rooms')
    ensures Listed(Snapshot(a), rooms', start)
    ensures forall p :: Listed(Snapshot(a), rooms, p) ==> Listed(Snapshot(a), rooms', p)
    ensures starts' == starts || starts' == starts + [start]
    ensures |rooms'| >= |rooms| && rooms'[..|rooms|] == rooms
    ensures |rooms'| > |rooms| ==>
      forall p :: Listed(Snapshot(a), rooms, p) ==> !CentredAt(Snapshot(a), p, Center(rooms'[|rooms|]))
  {
    ghost var g := Snapshot(a);
    var room := FindRoom(a, start);
    if IsRoomInList(room, rooms) {
      rooms', starts' := rooms, starts;
    } else {
      rooms', starts' := rooms + [room], starts + [start];
      AppendRoom(g, rooms, starts, room, start);
      AppendRoomListed(g, rooms, room, start);
    }
  }

  /** Appending a found room with a new centre keeps the list discovered with distinct centres. */
  lemma AppendRoom(g: Tiles, rooms: seq<FoundRoom>, starts: seq<Pos>, room: FoundRoom, start: Pos)
    requires Discovered(g, rooms, starts) && DistinctCenters(rooms)
    requires IsFloor(g, start) && BoundingRoom(g, start, room) && !IsRoomInList(room, rooms)
    ensures Discovered(g, rooms + [room], starts + [start]) && DistinctCenters(rooms + [room])
    ensures (rooms + [room])[..|rooms|] == rooms
  {
    var rooms' := rooms + [room];
    assert rooms'[..|rooms|] == rooms;
    assert forall k :: 0 <= k < |rooms| ==> rooms'[k] == rooms[k];
  }

  /** After appending a room, every tile listed before is still listed, and so is the room's start. */
  lemma AppendRoomListed(g: Tiles, rooms: seq<FoundRoom>, room: FoundRoom, start: Pos)
    requires BoundingRoom(g, start, room) && !IsRoomInList(room, rooms)
    ensures Listed(g, rooms + [room], start)
    ensures forall p :: Listed(g, rooms, p) ==> Listed(g, rooms + [room], p)
    ensures forall p :: Listed(g, rooms, p) ==> !CentredAt(g, p, Center((rooms + [room])[|rooms|]))
  {
    var rooms' := rooms + [room];
    UnlistedCentre(g, rooms, room);
    assert IsRoomInList(room, rooms') by {
      assert Center(rooms'[|rooms|]) == Center(room);
    }
    forall p | Listed(g, rooms, p) ensures Listed(g, rooms', p) {
      var r :| BoundingRoom(g, p, r) && IsRoomInList(r, rooms);
      var k :| 0 <= k < |rooms| && Center(rooms[k]) == Center(r);
      assert rooms'[k] == rooms[k];
    }
  }

  /**
   * The discovery scan has passed every position before (x, y) in row-major
   * order: the rooms listed so far are found rooms with distinct centres and
   * represent the room of every floor tile passed.
   */
  ghost predicate ScannedTo(g: Tiles, rooms: seq<FoundRoom>, starts: seq<Pos>, y: int, x: int) {
    && Discovered(g, rooms, starts) && DistinctCenters(rooms)
    && forall p :: IsFloor(g, p) && RowMajorLt(p, Pos(x, y)) ==> Listed(g, rooms, p)
  }

  /**
   * The order of the discovery scan up to (x, y): the starts lie before the
   * cursor and strictly increase in row-major order, and each start is the
   * first floor tile whose room has the centre listed for it.
   */
  ghost predicate ScanOrder(g: Tiles, rooms: seq<FoundRoom>, starts: seq<Pos>, y: int, x: int) {
    && |rooms| == |starts|
    && (forall k :: 0 <= k < |starts| ==> RowMajorLt(starts[k], Pos(x, y)))
    && (forall i, j :: 0 <= i < j < |starts| ==> RowMajorLt(starts[i], starts[j]))
    && (forall k, p :: 0 <= k < |starts| && IsFloor(g, p) && RowMajorLt(p, starts[k]) ==>
          !CentredAt(g, p, Center(rooms[k])))
  }

  /** Visiting (x, y) keeps the scan order: a room found there is appended with start (x, y). */
  lemma ScanOrderStep(g: Tiles, rooms: seq<FoundRoom>, starts: seq<Pos>, rooms': seq<FoundRoom>, starts': seq<Pos>,
                      y: int, x: int)
    requires ScanOrder(g, rooms, starts, y, x)
    requires forall p :: IsFloor(g, p) && RowMajorLt(p, Pos(x, y)) ==> Listed(g, rooms, p)
    requires starts' == starts || starts' == starts + [Pos(x, y)]
    requires |rooms'| == |starts'| && |rooms'| >= |rooms| && rooms'[..|rooms|] == rooms
    requires |rooms'| > |rooms| ==> forall p :: Listed(g, rooms, p) ==> !CentredAt(g, p, Center(rooms'[|rooms|]))
    ensures ScanOrder(g, rooms', starts', y, x + 1)
  {
    if starts' != starts {
      var n := |starts|;
      assert forall k :: 0 <= k < n ==> starts'[k] == starts[k] && rooms'[k] == rooms[k];
      forall k, p | 0 <= k < |starts'| && IsFloor(g, p) && RowMajorLt(p, starts'[k])
        ensures !CentredAt(g, p, Center(rooms'[k]))
      {
        if k == n {
          assert Listed(g, rooms, p);
        }
      }
    } else {
      assert rooms' == rooms;
    }
  }

  /** The body of the discovery scan at (x, y). */
  method ScanTile(a: array2<Tile>, y: int, x: int, rooms: seq<FoundRoom>, ghost starts: seq<Pos>)
    returns (rooms': seq<FoundRoom>, ghost starts': seq<Pos>)
    requires Sized(a) && 0 <= y < Height && 0 <= x < Width
    requires ScannedTo(Snapshot(a), rooms, starts, y, x) && ScanOrder(Snapshot(a), rooms, starts, y, x)
    ensures ScannedTo(Snapshot(a), rooms', starts', y, x + 1) && ScanOrder(Snapshot(a), rooms', starts', y, x + 1)
  {
    ghost var g := Snapshot(a);
    rooms', starts' := rooms, starts;
    if a[y, x] == Floor {
      rooms', starts' := AddRoom(a, Pos(x, y), rooms, starts);
    }
    ScannedToStep(g, rooms, starts, rooms', starts', y, x);
    ScanOrderStep(g, rooms, starts, rooms', starts', y, x);
  }

  /** Visiting (x, y) extends the scanned prefix by that position. */
  lemma ScannedToStep(g: Tiles, rooms: seq<FoundRoom>, starts: seq<Pos>, rooms': seq<FoundRoom>, starts': seq<Pos>,
                      y: int, x: int)
    requires ScannedTo(g, rooms, starts, y, x)
    requires Discovered(g, rooms', starts') && DistinctCenters(rooms')
    requires forall p :: Listed(g, rooms, p) ==> Listed(g, rooms', p)
    requires IsFloor(g, Pos(x, y)) ==> Listed(g, rooms', Pos(x, y))
    ensures ScannedTo(g, rooms', starts', y, x + 1)
  {
    forall p | IsFloor(g, p) && RowMajorLt(p, Pos(x + 1, y)) ensures Listed(g, rooms', p) {
      if p != Pos(x, y) {
        assert Listed(g, rooms, p);
      }
    }
  }

  /** A finished row hands over to the next one. */
  lemma NextRow(g: Tiles, rooms: seq<FoundRoom>, starts: seq<Pos>, y: int)
    requires WellFormed(g) && ScannedTo(g, rooms, starts, y, Width) && ScanOrder(g, rooms, starts, y, Width)
    ensures ScannedTo(g, rooms, starts, y + 1, 0) && ScanOrder(g, rooms, starts, y + 1, 0)
  {
    forall p | IsFloor(g, p) && p.y < y + 1 ensures Listed(g, rooms, p) {
      FloorInBounds(g, p);
    }
  }

  /**
   * The first loop of generateCorridors: every floor tile, in row-major
   * order, has its room found and listed unless its centre is already
   * listed.  Afterwards the list holds one room per distinct centre, and the
   * room of every floor tile is represented in it.
   */
  method DiscoverRooms(a: array2<Tile>) returns (rooms: seq<FoundRoom>, ghost starts: seq<Pos>)
    requires Sized(a)
    ensures Discovered(Snapshot(a), rooms, starts) && DistinctCenters(rooms)
    ensures forall p :: IsFloor(Snapshot(a), p) ==> Listed(Snapshot(a), rooms, p)
    ensures forall i, j :: 0 <= i < j < |starts| ==> RowMajorLt(starts[i], starts[j])
    ensures forall k, p :: 0 <= k < |starts| && IsFloor(Snapshot(a), p) && RowMajorLt(p, starts[k]) ==>
      !CentredAt(Snapshot(a), p, Center(rooms[k]))
  {
    ghost var g := Snapshot(a);
    SnapshotWellFormed(a);
    rooms, starts := [], [];
    var y := 0;
    while y < Height
      invariant 0 <= y <= Height
      invariant ScannedTo(g, rooms, starts, y, 0) && ScanOrder(g, rooms, starts, y, 0)
    {
      var x := 0;
      while x < Width
        invariant 0 <= x <= Width
        invariant ScannedTo(g, rooms, starts, y, x) && ScanOrder(g, rooms, starts, y, x)
      {
        rooms, starts := ScanTile(a, y, x, rooms, starts);
        x := x + 1;
      }
      NextRow(g, rooms, starts, y);
      y := y + 1;
    }
    forall p | IsFloor(g, p) ensures Listed(g, rooms, p) {
      FloorInBounds(g, p);
    }
  }

  /** p lies on the L-path carved from some room to the room linked to it. */
  predicate OnSomeLink(rooms: seq<FoundRoom>, links: seq<nat>, p: Pos) {
    exists i :: 0 <= i < |links| && i < |rooms| && links[i] < |rooms| &&
      InLPath(Anchor(rooms[i]), Anchor(rooms[links[i]]), p)
  }

  lemma OnSomeLinkSnoc(rooms: seq<FoundRoom>, links: seq<nat>, j: nat, p: Pos)
    requires |links| < |rooms| && j < |rooms|
    ensures OnSomeLink(rooms, links + [j], p) <==>
      OnSomeLink(rooms, links, p) || InLPath(Anchor(rooms[|links|]), Anchor(rooms[j]), p)
  {
    var links' := links + [j];
    if OnSomeLink(rooms, links', p) {
      var i :| 0 <= i < |links'| && i < |rooms| && links'[i] < |rooms| &&
        InLPath(Anchor(rooms[i]), Anchor(rooms[links'[i]]), p);
      if i < |links| { assert links'[i] == links[i]; }
    }
    if OnSomeLink(rooms, links, p) {
      var i :| 0 <= i < |links| && i < |rooms| && links[i] < |rooms| &&
        InLPath(Anchor(rooms[i]), Anchor(rooms[links[i]]), p);
      assert links'[i] == links[i];
    }
    if InLPath(Anchor(rooms[|links|]), Anchor(rooms[j]), p) {
      assert links'[|links|] == j;
    }
  }

  /**
   * The second loop of generateCorridors: each listed room is joined by an
   * L-path to its nearest other room.  links[i] is the room joined to room i;
   * a lone room is joined to nothing.  Exactly the tiles of those L-paths
   * become floor.
   */
  method ConnectAll(a: array2<Tile>, rooms: seq<FoundRoom>) returns (ghost links: seq<nat>)
    requires Sized(a)
    requires forall k :: 0 <= k < |rooms| ==> BoxInGrid(rooms[k])
    modifies a
    ensures |links| == (if |rooms| <= 1 then 0 else |rooms|)
    ensures forall i :: 0 <= i < |links| ==> IsNearestRoom(rooms, i, links[i])
    ensures forall y, x :: 0 <= y < Height && 0 <= x < Width ==>
      a[y, x] == (if OnSomeLink(rooms, links, Pos(x, y)) then Floor else old(a[y, x]))
    ensures OnlyCarves(old(Snapshot(a)), Snapshot(a))
  {
    links := [];
    for i := 0 to |rooms|
      invariant |links| == (if |rooms| <= 1 then 0 else i)
      invariant forall k :: 0 <= k < |links| ==> IsNearestRoom(rooms, k, links[k])
      invariant forall y, x :: 0 <= y < Height && 0 <= x < Width ==>
        a[y, x] == (if OnSomeLink(rooms, links, Pos(x, y)) then Floor else old(a[y, x]))
    {
      var nearest := FindNearestRoom(i, rooms);
      if nearest.Some? {
        var j := nearest.value;
        Carving.ConnectRooms(a, Anchor(rooms[i]), Anchor(rooms[j]));
        forall y, x | 0 <= y < Height && 0 <= x < Width {
          OnSomeLinkSnoc(rooms, links, j, Pos(x, y));
        }
        links := links + [j];
      }
    }
  }

  /**
   * The last two loops of generateCorridors, with their draws: row d + 1 for
   * every horizontal draw d and column d + 1 for every vertical one become
   * floor.
   */
  method CarveCorridors(a: array2<Tile>, hDraws: seq<int>, vDraws: seq<int>)
    requires Sized(a)
    requires forall i :: 0 <= i < |hDraws| ==> 0 <= hDraws[i] < Height - 2
    requires forall i :: 0 <= i < |vDraws| ==> 0 <= vDraws[i] < Width - 2
    modifies a
    ensures forall y, x :: 0 <= y < Height && 0 <= x < Width ==>
      a[y, x] == (if y - 1 in hDraws || x - 1 in vDraws then Floor else old(a[y, x]))
    ensures OnlyCarves(old(Snapshot(a)), Snapshot(a))
  {
    for i := 0 to |hDraws|
      invariant forall y, x :: 0 <= y < Height && 0 <= x < Width ==>
        a[y, x] == (if y - 1 in hDraws[..i] then Floor else old(a[y, x]))
    {
      assert hDraws[..i + 1] == hDraws[..i] + [hDraws[i]];
      Carving.GenerateHorizontalCorridor(a, hDraws[i]);
    }
    assert hDraws[..|hDraws|] == hDraws;
    for i := 0 to |vDraws|
      invariant forall y, x :: 0 <= y < Height && 0 <= x < Width ==>
        a[y, x] == (if y - 1 in hDraws || x - 1 in vDraws[..i] then Floor else old(a[y, x]))
    {
      assert vDraws[..i + 1] == vDraws[..i] + [vDraws[i]];
      Carving.GenerateVerticalCorridor(a, vDraws[i]);
    }
    assert vDraws[..|vDraws|] == vDraws;
  }

  /**
   * generateCorridors, with its corridor draws supplied (two or three of
   * each): the rooms of the grid as it was are discovered, each is joined to
   * its nearest other room, and the straight corridors are carved.  A tile
   * is floor afterwards exactly when it was floor, lies on one of the
   * L-paths, or lies on a drawn row or column.
   */
  method GenerateCorridors(a: array2<Tile>, hDraws: seq<int>, vDraws: seq<int>)
    returns (ghost rooms: seq<FoundRoom>, ghost starts: seq<Pos>, ghost links: seq<nat>)
    requires Sized(a)
    requires 2 <= |hDraws| <= 3 && forall i :: 0 <= i < |hDraws| ==> 0 <= hDraws[i] < Height - 2
    requires 2 <= |vDraws| <= 3 && forall i :: 0 <= i < |vDraws| ==> 0 <= vDraws[i] < Width - 2
    modifies a
    ensures Discovered(old(Snapshot(a)), rooms, starts) && DistinctCenters(rooms)
    ensures forall p :: IsFloor(old(Snapshot(a)), p) ==> Listed(old(Snapshot(a)), rooms, p)
    ensures forall i, j :: 0 <= i < j < |starts| ==> RowMajorLt(starts[i], starts[j])
    ensures forall k, p :: 0 <= k < |starts| && IsFloor(old(Snapshot(a)), p) && RowMajorLt(p, starts[k]) ==>
      !CentredAt(old(Snapshot(a)), p, Center(rooms[k]))
    ensures |links| == (if |rooms| <= 1 then 0 else |rooms|)
    ensures forall i :: 0 <= i < |links| ==> IsNearestRoom(rooms, i, links[i])
    ensures forall y, x :: 0 <= y < Height && 0 <= x < Width ==>
      a[y, x] == (if OnSomeLink(rooms, links, Pos(x, y)) || y - 1 in hDraws || x - 1 in vDraws
                  then Floor else old(a[y, x]))
    ensures OnlyCarves(old(Snapshot(a)), Snapshot(a))
  {
    ghost var g0 := Snapshot(a);
    var found;
    found, starts := DiscoverRooms(a);
    rooms := found;
    links := ConnectAll(a, found);
    ghost var g1 := Snapshot(a);
    CarveCorridors(a, hDraws, vDraws);
    OnlyCarvesTransitive(g0, g1, Snapshot(a));
  }
}
