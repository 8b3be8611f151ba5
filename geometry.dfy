/** Integer positions, distances and the neighbour helpers (game.js:37-62). */
module Geometry {
  import opened Config

  datatype Pos = Pos(x: int, y: int)

  function Abs(n: int): (r: nat)
    ensures r == n || r == -n
  {
    if n < 0 then -n else n
  }

  /** Manhattan distance, as used by findNearestRoom and findNearestVisited. */
  function Manhattan(p: Pos, q: Pos): nat {
    Abs(p.x - q.x) + Abs(p.y - q.y)
  }

  /** isValidPosition: inside the width x height grid. */
  predicate InBounds(p: Pos) {
    0 <= p.x < Width && 0 <= p.y < Height
  }

  /** isNearby: Chebyshev distance at most one (the same tile included). */
  predicate IsNearby(p: Pos, q: Pos) {
    Abs(p.x - q.x) <= 1 && Abs(p.y - q.y) <= 1
  }

  /** p comes no later than q in row-major order. */
  predicate RowMajorLe(p: Pos, q: Pos) {
    p.y < q.y || (p.y == q.y && p.x <= q.x)
  }

  /** p comes strictly before q in row-major order. */
  predicate RowMajorLt(p: Pos, q: Pos) {
    p.y < q.y || (p.y == q.y && p.x < q.x)
  }

  /** Orthogonal (4-)adjacency. */
  predicate Adjacent(p: Pos, q: Pos) {
    Manhattan(p, q) == 1
  }

  /** getNeighbors: left, right, up, down, in that order. */
  function Neighbors(p: Pos): (ns: seq<Pos>)
    ensures |ns| == 4
  {
    [Pos(p.x - 1, p.y), Pos(p.x + 1, p.y), Pos(p.x, p.y - 1), Pos(p.x, p.y + 1)]
  }

  /** getNeighbors lists exactly the orthogonally adjacent positions. */
  lemma NeighborsAreAdjacent(p: Pos, q: Pos)
    ensures q in Neighbors(p) <==> Adjacent(p, q)
  {
    if Adjacent(p, q) {
      if q.x < p.x { assert q == Neighbors(p)[0]; }
      else if q.x > p.x { assert q == Neighbors(p)[1]; }
      else if q.y < p.y { assert q == Neighbors(p)[2]; }
      else { assert q == Neighbors(p)[3]; }
    }
  }

  /**
   * isNearby holds exactly for the nine tiles of the 3 x 3 block centred on
   * p, and does not depend on which position is the attacker.
   */
  lemma IsNearbyBlock(p: Pos, q: Pos)
    ensures IsNearby(p, q) <==> exists dx, dy :: -1 <= dx <= 1 && -1 <= dy <= 1 && q == Offset(p, dx, dy)
    ensures IsNearby(p, q) <==> IsNearby(q, p)
  {
    if IsNearby(p, q) {
      assert q == Offset(p, q.x - p.x, q.y - p.y);
    }
  }

  /** p moved by (dx, dy). */
  function Offset(p: Pos, dx: int, dy: int): Pos {
    Pos(p.x + dx, p.y + dy)
  }
}
