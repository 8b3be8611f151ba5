/**
 * Rectangular rooms: drawing a candidate, the placement test with its margin,
 * and the sequence of rooms that generateRooms accepts (game.js:117-162).
 */
module Rooms {
  import opened Config
  import opened Geometry

  /** A room's top-left tile and its size. */
  datatype Room = Room(x: int, y: int, width: int, height: int)

  /**
   * The four values generateRoom draws, each Math.floor(Math.random() * k):
   * width - 3 and height - 3 below 6, and the origin offsets below
   * Width - width - 2 and Height - height - 2.
   */
  datatype RoomDraw = RoomDraw(dw: int, dh: int, dx: int, dy: int)

  predicate ValidDraw(d: RoomDraw) {
    && 0 <= d.dw < 6 && 0 <= d.dh < 6
    && 0 <= d.dx < Width - (d.dw + 3) - 2
    && 0 <= d.dy < Height - (d.dh + 3) - 2
  }

  /** p is one of the room's tiles. */
  predicate InRoom(r: Room, p: Pos) {
    r.x <= p.x < r.x + r.width && r.y <= p.y < r.y + r.height
  }

  /** The room lies inside the grid, so carveRoom stays in bounds. */
  predicate Fits(r: Room) {
    0 <= r.x && 0 <= r.width && r.x + r.width <= Width &&
    0 <= r.y && 0 <= r.height && r.y + r.height <= Height
  }

  /** generateRoom: a 3..8 by 3..8 room whose tiles keep off the outer two rows and columns. */
  function GenerateRoom(d: RoomDraw): (r: Room)
    requires ValidDraw(d)
    ensures 3 <= r.width <= 8 && 3 <= r.height <= 8
    ensures 1 <= r.x && r.x + r.width <= Width - 2
    ensures 1 <= r.y && r.y + r.height <= Height - 2
    ensures Fits(r)
  {
    var w := d.dw + 3;
    var h := d.dh + 3;
    Room(d.dx + 1, d.dy + 1, w, h)
  }

  /** The overlap test of canPlaceRoom: the rectangles grown by one tile meet. */
  predicate Overlaps(r: Room, e: Room) {
    !(|| r.x + r.width + 1 < e.x - 1
      || r.x - 1 > e.x + e.width + 1
      || r.y + r.height + 1 < e.y - 1
      || r.y - 1 > e.y + e.height + 1)
  }

  /** The scan over the existing rooms, which stops at the first overlap. */
  predicate ClearOf(r: Room, existing: seq<Room>) {
    if existing == [] then true
    else if Overlaps(r, existing[0]) then false
    else ClearOf(r, existing[1..])
  }

  /** canPlaceRoom: inside the grid and clear of every existing room. */
  predicate CanPlaceRoom(r: Room, existing: seq<Room>) {
    if r.x < 0 || r.y < 0 || r.x + r.width >= Width || r.y + r.height >= Height then false
    else ClearOf(r, existing)
  }

  /** The early-exit scan accepts exactly when no existing room overlaps. */
  lemma {:induction false} ClearOfAll(r: Room, existing: seq<Room>)
    ensures ClearOf(r, existing) <==> forall i :: 0 <= i < |existing| ==> !Overlaps(r, existing[i])
  {
    if existing != [] {
      ClearOfAll(r, existing[1..]);
      assert forall i :: 1 <= i < |existing| ==> existing[i] == existing[1..][i - 1];
    }
  }

  /**
   * canPlaceRoom accepts exactly a room that keeps off the right and bottom
   * edges, starts at a non-negative position and overlaps no existing room.
   */
  lemma CanPlaceRoomSpec(r: Room, existing: seq<Room>)
    ensures CanPlaceRoom(r, existing) <==>
      && 0 <= r.x && 0 <= r.y && r.x + r.width < Width && r.y + r.height < Height
      && forall i :: 0 <= i < |existing| ==> !Overlaps(r, existing[i])
  {
    ClearOfAll(r, existing);
  }

  /** The overlap test does not depend on which room is the candidate. */
  lemma OverlapsSymmetric(r: Room, e: Room)
    ensures Overlaps(r, e) <==> Overlaps(e, r)
  {
  }

  /** Rooms that do not overlap keep at least three wall tiles between them. */
  lemma ApartRoomsAreSeparated(r: Room, e: Room, p: Pos, q: Pos)
    requires !Overlaps(r, e) && InRoom(r, p) && InRoom(e, q)
    ensures Abs(p.x - q.x) > 3 || Abs(p.y - q.y) > 3
  {
  }

  /**
   * For rooms with tiles, the padded overlap test fails exactly when some
   * tile of one room is within three tiles of some tile of the other on
   * both axes.
   */
  lemma OverlapsIffClose(r: Room, e: Room)
    requires r.width > 0 && r.height > 0 && e.width > 0 && e.height > 0
    ensures Overlaps(r, e) <==>
      exists p, q :: InRoom(r, p) && InRoom(e, q) && Abs(p.x - q.x) <= 3 && Abs(p.y - q.y) <= 3
  {
    if Overlaps(r, e) {
      var px := Clamp(e.x, r.x, r.x + r.width - 1);
      var qx := Clamp(px, e.x, e.x + e.width - 1);
      var py := Clamp(e.y, r.y, r.y + r.height - 1);
      var qy := Clamp(py, e.y, e.y + e.height - 1);
      assert InRoom(r, Pos(px, py)) && InRoom(e, Pos(qx, qy));
    } else {
      forall p, q | InRoom(r, p) && InRoom(e, q)
        ensures Abs(p.x - q.x) > 3 || Abs(p.y - q.y) > 3
      {
        ApartRoomsAreSeparated(r, e, p, q);
      }
    }
  }

  /** v moved into [lo, hi]. */
  function Clamp(v: int, lo: int, hi: int): (c: int)
    requires lo <= hi
    ensures lo <= c <= hi
    ensures lo <= v <= hi ==> c == v
  {
    if v < lo then lo else if v > hi then hi else v
  }

  /** For a generated room the bounds check of canPlaceRoom never rejects. */
  lemma GeneratedRoomPassesBounds(d: RoomDraw, existing: seq<Room>)
    requires ValidDraw(d)
    ensures CanPlaceRoom(GenerateRoom(d), existing) == ClearOf(GenerateRoom(d), existing)
  {
  }

  /** The candidates in draw order. */
  function Candidates(draws: seq<RoomDraw>): (cs: seq<Room>)
    requires forall i :: 0 <= i < |draws| ==> ValidDraw(draws[i])
    ensures |cs| == |draws|
  {
    seq(|draws|, i requires 0 <= i < |draws| => GenerateRoom(draws[i]))
  }

  /** The rooms generateRooms keeps: each candidate in turn, if placeable among those kept so far. */
  function Accepted(cs: seq<Room>): (rs: seq<Room>)
    ensures |rs| <= |cs|
    ensures forall r :: r in rs ==> r in cs
  {
    if cs == [] then []
    else
      var kept := Accepted(cs[..|cs| - 1]);
      assert forall r :: r in cs[..|cs| - 1] ==> r in cs;
      if CanPlaceRoom(cs[|cs| - 1], kept) then kept + [cs[|cs| - 1]] else kept
  }

  /**
   * The indices of the accepted candidates.  They are strictly increasing, so
   * the accepted rooms are the candidates kept in draw order.
   */
  function AcceptedIndices(cs: seq<Room>): (idx: seq<nat>)
    ensures |idx| == |Accepted(cs)|
    ensures forall k :: 0 <= k < |idx| ==> idx[k] < |cs| && Accepted(cs)[k] == cs[idx[k]]
    ensures forall k, l :: 0 <= k < l < |idx| ==> idx[k] < idx[l]
  {
    if cs == [] then []
    else
      var n := |cs| - 1;
      var init := cs[..n];
      var prev := AcceptedIndices(init);
      var idx := if CanPlaceRoom(cs[n], Accepted(init)) then prev + [n] else prev;
      AcceptedIndicesStep(cs, prev, idx);
      idx
  }

  /** The inductive step of AcceptedIndices: the last candidate is appended when it is kept. */
  lemma AcceptedIndicesStep(cs: seq<Room>, prev: seq<nat>, idx: seq<nat>)
    requires cs != []
    requires |prev| == |Accepted(cs[..|cs| - 1])|
    requires forall k :: 0 <= k < |prev| ==> prev[k] < |cs| - 1 && Accepted(cs[..|cs| - 1])[k] == cs[..|cs| - 1][prev[k]]
    requires forall k, l :: 0 <= k < l < |prev| ==> prev[k] < prev[l]
    requires idx == if CanPlaceRoom(cs[|cs| - 1], Accepted(cs[..|cs| - 1])) then prev + [|cs| - 1] else prev
    ensures |idx| == |Accepted(cs)|
    ensures forall k :: 0 <= k < |idx| ==> idx[k] < |cs| && Accepted(cs)[k] == cs[idx[k]]
    ensures forall k, l :: 0 <= k < l < |idx| ==> idx[k] < idx[l]
  {
    var n := |cs| - 1;
    var init := cs[..n];
    assert forall i :: 0 <= i < n ==> init[i] == cs[i];
    assert cs[..n] == init;
    if CanPlaceRoom(cs[n], Accepted(init)) {
      assert Accepted(cs) == Accepted(init) + [cs[n]];
      assert forall k :: 0 <= k < |prev| ==> idx[k] == prev[k];
    }
  }

  /**
   * Every accepted room lies inside the grid with a wall border, is one of the
   * candidates, and no two accepted rooms overlap (in either order).
   */
  lemma {:induction false} AcceptedRoomsSeparated(cs: seq<Room>)
    ensures |Accepted(cs)| <= |cs|
    ensures forall r :: r in Accepted(cs) ==> r in cs
    ensures forall r :: r in Accepted(cs) ==>
      0 <= r.x && 0 <= r.y && r.x + r.width < Width && r.y + r.height < Height
    ensures forall i, j :: 0 <= i < j < |Accepted(cs)| ==>
      !Overlaps(Accepted(cs)[i], Accepted(cs)[j]) && !Overlaps(Accepted(cs)[j], Accepted(cs)[i])
  {
    if cs != [] {
      var init := cs[..|cs| - 1];
      var kept := Accepted(init);
      var last := cs[|cs| - 1];
      AcceptedRoomsSeparated(init);
      assert forall r :: r in init ==> r in cs;
      if CanPlaceRoom(last, kept) {
        ClearOfAll(last, kept);
        var acc := kept + [last];
        assert Accepted(cs) == acc;
        forall i, j | 0 <= i < j < |acc|
          ensures !Overlaps(acc[i], acc[j]) && !Overlaps(acc[j], acc[i])
        {
          if j == |kept| {
            OverlapsSymmetric(acc[i], last);
          }
        }
      }
    }
  }

  /** The first candidate is always kept when it passes the bounds check, and stays first. */
  lemma {:induction false} FirstCandidateAccepted(cs: seq<Room>)
    requires |cs| > 0 && CanPlaceRoom(cs[0], [])
    ensures |Accepted(cs)| > 0 && Accepted(cs)[0] == cs[0]
  {
    if |cs| > 1 {
      var init := cs[..|cs| - 1];
      FirstCandidateAccepted(init);
    } else {
      assert cs[..0] == [];
    }
  }
}
