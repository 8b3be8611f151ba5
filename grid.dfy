/**
 * The tile grid (game.js:108-115) as a value, and the theory of 4-connectivity
 * that the generation and repair passes are proved against.  The game keeps the
 * grid in an array2 indexed [y, x]; Snapshot reads it back as rows of tiles.
 */
module Grid {
  import opened Config
  import opened Geometry

  datatype Tile = Wall | Floor

  /** Rows of tiles, indexed g[y][x] like the source's map[y][x]. */
  type Tiles = seq<seq<Tile>>

  predicate WellFormed(g: Tiles) {
    |g| == Height && forall y :: 0 <= y < |g| ==> |g[y]| == Width
  }

  /** The tile at p exists and is floor. */
  predicate IsFloor(g: Tiles, p: Pos) {
    0 <= p.y < |g| && 0 <= p.x < |g[p.y]| && g[p.y][p.x] == Floor
  }

  /** The grid held in an array, read back as a value. */
  ghost function Snapshot(a: array2<Tile>): (g: Tiles)
    reads a
    ensures |g| == a.Length0
    ensures forall y :: 0 <= y < a.Length0 ==> |g[y]| == a.Length1
    ensures forall y, x :: 0 <= y < a.Length0 && 0 <= x < a.Length1 ==> g[y][x] == a[y, x]
  {
    seq(a.Length0, y requires 0 <= y < a.Length0 reads a =>
      seq(a.Length1, x requires 0 <= x < a.Length1 reads a => a[y, x]))
  }

  /** An array of the game's dimensions. */
  predicate Sized(a: array2<Tile>) {
    a.Length0 == Height && a.Length1 == Width
  }

  lemma SnapshotWellFormed(a: array2<Tile>)
    requires Sized(a)
    ensures WellFormed(Snapshot(a))
  {
  }

  /** isValidPosition accepts exactly the positions that index a tile of the grid. */
  lemma InBoundsIsCell(g: Tiles, p: Pos)
    requires WellFormed(g)
    ensures InBounds(p) <==> 0 <= p.y < |g| && 0 <= p.x < |g[p.y]|
  {
  }

  /** A floor tile of a well-formed grid lies inside the grid. */
  lemma FloorInBounds(g: Tiles, p: Pos)
    requires WellFormed(g) && IsFloor(g, p)
    ensures InBounds(p)
  {
  }

  /** Every position of the grid. */
  function AllPositions(): (all: set<Pos>)
    ensures forall p :: p in all <==> InBounds(p)
  {
    set y, x | 0 <= y < Height && 0 <= x < Width :: Pos(x, y)
  }

  /** Marking one more position of a finite universe as seen leaves fewer unseen. */
  lemma UnseenShrinks(all: set<Pos>, seen: set<Pos>, p: Pos)
    requires p in all && p !in seen
    ensures |all - (seen + {p})| < |all - seen|
  {
    assert all - (seen + {p}) == (all - seen) - {p};
  }

  /** h arises from g by turning some tiles into floor; the dimensions are the same. */
  ghost predicate OnlyCarves(g: Tiles, h: Tiles) {
    && |g| == |h|
    && (forall y :: 0 <= y < |g| ==> |g[y]| == |h[y]|)
    && (forall y, x :: 0 <= y < |g| && 0 <= x < |g[y]| ==> h[y][x] == g[y][x] || h[y][x] == Floor)
  }

  /** Every floor tile of g is a floor tile of h. */
  ghost predicate FloorGrows(g: Tiles, h: Tiles) {
    forall p :: IsFloor(g, p) ==> IsFloor(h, p)
  }

  lemma OnlyCarvesGrows(g: Tiles, h: Tiles)
    requires OnlyCarves(g, h)
    ensures FloorGrows(g, h)
  {
    forall p | IsFloor(g, p) ensures IsFloor(h, p) {
      assert h[p.y][p.x] == g[p.y][p.x] || h[p.y][p.x] == Floor;
    }
  }

  lemma OnlyCarvesTransitive(g: Tiles, h: Tiles, k: Tiles)
    requires OnlyCarves(g, h) && OnlyCarves(h, k)
    ensures OnlyCarves(g, k)
  {
    forall y, x | 0 <= y < |g| && 0 <= x < |g[y]| ensures k[y][x] == g[y][x] || k[y][x] == Floor {
      assert h[y][x] == g[y][x] || h[y][x] == Floor;
      assert k[y][x] == h[y][x] || k[y][x] == Floor;
    }
  }

  // ---------------------------------------------------------------------
  // 4-connectivity of floor tiles

  /** A non-empty walk over floor tiles, each step to an orthogonal neighbour. */
  ghost predicate IsFloorPath(g: Tiles, ps: seq<Pos>) {
    && |ps| > 0
    && (forall i :: 0 <= i < |ps| ==> IsFloor(g, ps[i]))
    && (forall i :: 0 < i < |ps| ==> Adjacent(ps[i - 1], ps[i]))
  }

  /** a and b are joined by a floor walk. */
  ghost predicate Connected(g: Tiles, a: Pos, b: Pos) {
    exists ps :: IsFloorPath(g, ps) && ps[0] == a && ps[|ps| - 1] == b
  }

  lemma ConnectedIsFloor(g: Tiles, a: Pos, b: Pos)
    requires Connected(g, a, b)
    ensures IsFloor(g, a) && IsFloor(g, b)
  {
    var ps :| IsFloorPath(g, ps) && ps[0] == a && ps[|ps| - 1] == b;
    assert IsFloor(g, ps[0]) && IsFloor(g, ps[|ps| - 1]);
  }

  lemma ConnectedRefl(g: Tiles, a: Pos)
    requires IsFloor(g, a)
    ensures Connected(g, a, a)
  {
    assert IsFloorPath(g, [a]);
  }

  /** A floor tile next to the start of a walk can be put in front of it. */
  lemma ConnectedPrepend(g: Tiles, a: Pos, b: Pos, c: Pos)
    requires IsFloor(g, a) && Adjacent(a, b) && Connected(g, b, c)
    ensures Connected(g, a, c)
  {
    var ps :| IsFloorPath(g, ps) && ps[0] == b && ps[|ps| - 1] == c;
    var qs := [a] + ps;
    assert forall i :: 0 < i < |qs| ==> qs[i] == ps[i - 1];
    assert IsFloorPath(g, qs);
  }

  /** A floor tile next to the end of a walk can be put behind it. */
  lemma ConnectedAppend(g: Tiles, a: Pos, b: Pos, c: Pos)
    requires Connected(g, a, b) && IsFloor(g, c) && Adjacent(b, c)
    ensures Connected(g, a, c)
  {
    ConnectedIsFloor(g, a, b);
    ConnectedRefl(g, c);
    ConnectedPrepend(g, b, c, c);
    ConnectedTrans(g, a, b, c);
  }

  lemma ConnectedTrans(g: Tiles, a: Pos, b: Pos, c: Pos)
    requires Connected(g, a, b) && Connected(g, b, c)
    ensures Connected(g, a, c)
  {
    var ps :| IsFloorPath(g, ps) && ps[0] == a && ps[|ps| - 1] == b;
    var qs :| IsFloorPath(g, qs) && qs[0] == b && qs[|qs| - 1] == c;
    var rs := ps + qs[1..];
    assert forall i :: 0 <= i < |ps| ==> rs[i] == ps[i];
    assert forall i :: |ps| <= i < |rs| ==> rs[i] == qs[i - |ps| + 1];
    assert IsFloorPath(g, rs);
  }

  lemma ConnectedSym(g: Tiles, a: Pos, b: Pos)
    requires Connected(g, a, b)
    ensures Connected(g, b, a)
  {
    var ps :| IsFloorPath(g, ps) && ps[0] == a && ps[|ps| - 1] == b;
    var n := |ps|;
    var rs := seq(n, i requires 0 <= i < n => ps[n - 1 - i]);
    forall i | 0 <= i < n ensures IsFloor(g, rs[i]) {
      assert rs[i] == ps[n - 1 - i];
    }
    forall i | 0 < i < n ensures Adjacent(rs[i - 1], rs[i]) {
      var k := n - i;
      assert 0 < k < n && rs[i - 1] == ps[k] && rs[i] == ps[k - 1];
      assert Adjacent(ps[k - 1], ps[k]);
    }
    assert IsFloorPath(g, rs);
  }

  /** Carving more floor never disconnects anything. */
  lemma ConnectedMono(g: Tiles, h: Tiles, a: Pos, b: Pos)
    requires FloorGrows(g, h) && Connected(g, a, b)
    ensures Connected(h, a, b)
  {
    var ps :| IsFloorPath(g, ps) && ps[0] == a && ps[|ps| - 1] == b;
    assert IsFloorPath(h, ps);
  }

  /** S is closed when every floor neighbour of a member is a member. */
  ghost predicate Closed(g: Tiles, s: set<Pos>) {
    forall p, q :: p in s && q in Neighbors(p) && IsFloor(g, q) ==> q in s
  }

  /** A closed set holds the whole component of each of its members. */
  lemma {:induction false} ClosedHoldsComponent(g: Tiles, s: set<Pos>, a: Pos, b: Pos)
    requires Closed(g, s) && a in s && Connected(g, a, b)
    ensures b in s
  {
    var ps :| IsFloorPath(g, ps) && ps[0] == a && ps[|ps| - 1] == b;
    var i := 0;
    while i < |ps| - 1
      invariant 0 <= i < |ps| && ps[i] in s
    {
      NeighborsAreAdjacent(ps[i], ps[i + 1]);
      assert Adjacent(ps[i], ps[i + 1]) && IsFloor(g, ps[i + 1]);
      i := i + 1;
    }
  }

  // ---------------------------------------------------------------------
  // L-shaped corridors (connectRooms, game.js:275-290)

  /** v lies on the run that starts at a (included) and stops before b (excluded). */
  predicate Between(a: int, v: int, b: int) {
    (a <= v < b) || (b < v <= a)
  }

  /**
   * p is carved by connectRooms(s, t): row s.y from s.x towards t.x, then
   * column t.x from s.y towards t.y; the target t itself is never carved.
   */
  predicate InLPath(s: Pos, t: Pos, p: Pos) {
    || (p.y == s.y && Between(s.x, p.x, t.x))
    || (p.x == t.x && Between(s.y, p.y, t.y))
  }

  /** The L-path stays inside the bounding box of its endpoints and avoids the target. */
  lemma LPathInBox(s: Pos, t: Pos, p: Pos)
    requires InLPath(s, t, p)
    ensures (s.x <= p.x <= t.x || t.x <= p.x <= s.x) && (s.y <= p.y <= t.y || t.y <= p.y <= s.y)
    ensures p != t
  {
  }

  /** The start is carved whenever the endpoints differ. */
  lemma LPathHasStart(s: Pos, t: Pos)
    requires s != t
    ensures InLPath(s, t, s)
  {
  }

  lemma {:induction false} RowRunConnected(g: Tiles, x: int, tx: int, y: int)
    requires forall v :: Between(x, v, tx) ==> IsFloor(g, Pos(v, y))
    requires IsFloor(g, Pos(tx, y))
    ensures Connected(g, Pos(x, y), Pos(tx, y))
    decreases Abs(x - tx)
  {
    if x == tx {
      ConnectedRefl(g, Pos(tx, y));
    } else {
      var x' := if x < tx then x + 1 else x - 1;
      assert Between(x, x, tx);
      RowRunConnected(g, x', tx, y);
      ConnectedPrepend(g, Pos(x, y), Pos(x', y), Pos(tx, y));
    }
  }

  lemma {:induction false} ColumnRunConnected(g: Tiles, x: int, y: int, ty: int)
    requires forall v :: Between(y, v, ty) ==> IsFloor(g, Pos(x, v))
    requires IsFloor(g, Pos(x, ty))
    ensures Connected(g, Pos(x, y), Pos(x, ty))
    decreases Abs(y - ty)
  {
    if y == ty {
      ConnectedRefl(g, Pos(x, ty));
    } else {
      var y' := if y < ty then y + 1 else y - 1;
      assert Between(y, y, ty);
      ColumnRunConnected(g, x, y', ty);
      ConnectedPrepend(g, Pos(x, y), Pos(x, y'), Pos(x, ty));
    }
  }

  /**
   * Once every L-path tile and the target are floor, every tile of the path is
   * connected to the target: the carved tiles plus the target form a walk.
   */
  lemma LPathConnected(g: Tiles, s: Pos, t: Pos, p: Pos)
    requires forall q :: InLPath(s, t, q) ==> IsFloor(g, q)
    requires IsFloor(g, t)
    requires InLPath(s, t, p) || p == t
    ensures Connected(g, p, t)
  {
    if p == t {
      ConnectedRefl(g, t);
    } else {
      forall v | Between(s.y, v, t.y) ensures IsFloor(g, Pos(t.x, v)) {
        assert InLPath(s, t, Pos(t.x, v));
      }
      if p.y == s.y && Between(s.x, p.x, t.x) {
        forall v | Between(p.x, v, t.x) ensures IsFloor(g, Pos(v, s.y)) {
          assert InLPath(s, t, Pos(v, s.y));
        }
        assert IsFloor(g, Pos(t.x, s.y)) by {
          if s.y != t.y { assert InLPath(s, t, Pos(t.x, s.y)); }
        }
        RowRunConnected(g, p.x, t.x, s.y);
        ColumnRunConnected(g, t.x, s.y, t.y);
        ConnectedTrans(g, p, Pos(t.x, s.y), t);
      } else {
        forall v | Between(p.y, v, t.y) ensures IsFloor(g, Pos(t.x, v)) {
          assert Between(s.y, v, t.y);
        }
        ColumnRunConnected(g, t.x, p.y, t.y);
      }
    }
  }
}
