/**
 * Connectivity repair (game.js:514-589): the first floor tile in row-major
 * order seeds a flood fill; every floor tile the fill did not reach is then
 * joined by an L-path to the visited tile nearest to it.  Afterwards every
 * floor tile is connected to the seed.
 */
module Repair {
  import opened Config
  import opened Geometry
  import opened Grid
  import opened Options
  import Carving

  /**
   * findFirstFloor: the first floor tile in row-major order, or nothing when
   * the grid has no floor tile.
   */
  method FindFirstFloor(a: array2<Tile>) returns (first: Option<Pos>)
    requires Sized(a)
    ensures first.None? <==> forall p :: !IsFloor(Snapshot(a), p)
    ensures first.Some? ==> IsFloor(Snapshot(a), first.value)
    ensures first.Some? ==> forall p :: IsFloor(Snapshot(a), p) ==> RowMajorLe(first.value, p)
  {
    ghost var g := Snapshot(a);
    SnapshotWellFormed(a);
    var y := 0;
    while y < Height
      invariant 0 <= y <= Height
      invariant forall p :: IsFloor(g, p) ==> !RowMajorLt(p, Pos(0, y))
    {
      var x := 0;
      while x < Width
        invariant 0 <= x <= Width
        invariant forall p :: IsFloor(g, p) ==> !RowMajorLt(p, Pos(x, y))
      {
        if a[y, x] == Floor {
          assert IsFloor(g, Pos(x, y));
          return Some(Pos(x, y));
        }
        x := x + 1;
      }
      forall p | IsFloor(g, p) ensures !RowMajorLt(p, Pos(0, y + 1)) {
        FloorInBounds(g, p);
      }
      y := y + 1;
    }
    forall p ensures !IsFloor(g, p) {
      if IsFloor(g, p) { FloorInBounds(g, p); }
    }
    return None;
  }

  /** The positions of a sequence, as a set. */
  function Elems(s: seq<Pos>): (e: set<Pos>)
    ensures forall q :: q in e <==> q in s
  {
    set q | q in s
  }

  /** No position occurs twice. */
  predicate Distinct(s: seq<Pos>) {
    forall i, j :: 0 <= i < j < |s| ==> s[i] != s[j]
  }

  /**
   * The fill's frontier: every floor neighbour of a visited tile has been
   * visited or waits on the stack.
   */
  ghost predicate FillFrontier(g: Tiles, visited: seq<Pos>, stack: seq<Pos>) {
    forall v, q :: v in visited && q in Neighbors(v) && IsFloor(g, q) ==> q in visited || q in stack
  }

  /**
   * What holds between two iterations of the fill: everything visited or on
   * the stack is a floor tile connected to the seed, the seed has been
   * visited first or is the whole stack, the frontier is kept, and no tile
   * is visited twice.
   */
  ghost predicate FillInvariant(g: Tiles, seed: Pos, visited: seq<Pos>, stack: seq<Pos>) {
    && WellFormed(g)
    && (forall q :: q in stack ==> Connected(g, seed, q))
    && (forall v :: v in visited ==> Connected(g, seed, v))
    && (if visited == [] then stack == [seed] else visited[0] == seed)
    && FillFrontier(g, visited, stack)
    && Distinct(visited)
  }

  /** The loop of floodFill that pushes every in-bounds floor neighbour of pos. */
  method PushFloor(a: array2<Tile>, stack: seq<Pos>, pos: Pos) returns (r: seq<Pos>)
    requires Sized(a)
    ensures forall q :: q in r <==> q in stack || (q in Neighbors(pos) && IsFloor(Snapshot(a), q))
  {
    var ns := Neighbors(pos);
    r := stack;
    var i := 0;
    while i < |ns|
      invariant 0 <= i <= |ns|
      invariant forall q :: q in r <==> q in stack || (q in ns[..i] && IsFloor(Snapshot(a), q))
    {
      if InBounds(ns[i]) && a[ns[i].y, ns[i].x] == Floor {
        r := r + [ns[i]];
      }
      assert ns[..i + 1] == ns[..i] + [ns[i]];
      i := i + 1;
    }
    assert ns[..i] == ns;
  }

  /** Popping an already visited tile keeps the invariant. */
  lemma FillSkip(g: Tiles, seed: Pos, visited: seq<Pos>, rest: seq<Pos>, pos: Pos)
    requires FillInvariant(g, seed, visited, rest + [pos]) && pos in visited
    ensures FillInvariant(g, seed, visited, rest)
  {
    forall v, q | v in visited && q in Neighbors(v) && IsFloor(g, q) ensures q in visited || q in rest {
      assert q in visited || q in rest + [pos];
    }
  }

  /** Visiting a fresh tile and pushing its floor neighbours keeps the invariant. */
  lemma FillGrow(g: Tiles, seed: Pos, visited: seq<Pos>, rest: seq<Pos>, pos: Pos, stack: seq<Pos>)
    requires FillInvariant(g, seed, visited, rest + [pos]) && pos !in visited
    requires forall q :: q in stack <==> q in rest || (q in Neighbors(pos) && IsFloor(g, q))
    ensures FillInvariant(g, seed, visited + [pos], stack)
  {
    var visited' := visited + [pos];
    assert Connected(g, seed, pos);
    forall q | q in stack ensures Connected(g, seed, q) {
      if q !in rest {
        NeighborsAreAdjacent(pos, q);
        ConnectedAppend(g, seed, pos, q);
      }
    }
    forall v, q | v in visited' && q in Neighbors(v) && IsFloor(g, q) ensures q in visited' || q in stack {
      if v in visited {
        assert q in visited || q in rest + [pos];
      }
    }
    forall i, j | 0 <= i < j < |visited'| ensures visited'[i] != visited'[j] {
      if j == |visited| { assert visited[i] in visited; }
    }
  }

  /**
   * One iteration of floodFill's loop: pop a position; skip it if visited;
   * otherwise visit it and push its in-bounds floor neighbours.
   */
  method FillStep(a: array2<Tile>, seed: Pos, visited: seq<Pos>, stack: seq<Pos>)
    returns (visited': seq<Pos>, stack': seq<Pos>)
    requires Sized(a) && FillInvariant(Snapshot(a), seed, visited, stack) && |stack| > 0
    ensures FillInvariant(Snapshot(a), seed, visited', stack')
    ensures |AllPositions() - Elems(visited')| < |AllPositions() - Elems(visited)|
      || (visited' == visited && |stack'| < |stack|)
  {
    ghost var g := Snapshot(a);
    var pos := stack[|stack| - 1];
    var rest := stack[..|stack| - 1];
    assert stack == rest + [pos];
    if pos in visited {
      FillSkip(g, seed, visited, rest, pos);
      return visited, rest;
    }
    assert Connected(g, seed, pos);
    ConnectedIsFloor(g, seed, pos);
    FloorInBounds(g, pos);
    UnseenShrinks(AllPositions(), Elems(visited), pos);
    assert Elems(visited + [pos]) == Elems(visited) + {pos};
    stack' := PushFloor(a, rest, pos);
    visited' := visited + [pos];
    assert FillInvariant(g, seed, visited, rest + [pos]) && pos !in visited;
    assert forall q :: q in stack' <==> q in rest || (q in Neighbors(pos) && IsFloor(g, q));
    FillGrow(g, seed, visited, rest, pos, stack');
  }

  /** When the stack is empty, the visited tiles are exactly the seed's component. */
  lemma FillResult(g: Tiles, seed: Pos, visited: seq<Pos>)
    requires FillInvariant(g, seed, visited, []) && IsFloor(g, seed)
    ensures forall p :: p in visited <==> Connected(g, seed, p)
  {
    var s := Elems(visited);
    assert seed in s;
    assert Closed(g, s);
    forall p | Connected(g, seed, p) ensures p in visited {
      ClosedHoldsComponent(g, s, seed, p);
    }
  }

  /**
   * floodFill from a floor seed: the visited tiles, in the order they were
   * first visited, are exactly the floor tiles connected to the seed, each
   * once, the seed first.
   */
  method FloodFill(a: array2<Tile>, seed: Pos) returns (visited: seq<Pos>)
    requires Sized(a) && IsFloor(Snapshot(a), seed)
    ensures forall p :: p in visited <==> Connected(Snapshot(a), seed, p)
    ensures Distinct(visited)
    ensures |visited| > 0 && visited[0] == seed
  {
    ghost var g := Snapshot(a);
    SnapshotWellFormed(a);
    ConnectedRefl(g, seed);
    visited := [];
    var stack := [seed];
    while |stack| > 0
      invariant FillInvariant(g, seed, visited, stack)
      decreases |AllPositions() - Elems(visited)|, |stack|
    {
      visited, stack := FillStep(a, seed, visited, stack);
    }
    FillResult(g, seed, visited);
  }

  /** Position k of visited holds the first tile of least Manhattan distance to pos. */
  predicate IsNearestVisited(pos: Pos, visited: seq<Pos>, k: int) {
    && 0 <= k < |visited|
    && (forall i :: 0 <= i < |visited| ==> Manhattan(pos, visited[k]) <= Manhattan(pos, visited[i]))
    && (forall i :: 0 <= i < k ==> Manhattan(pos, visited[k]) < Manhattan(pos, visited[i]))
  }

  /**
   * findNearestVisited over the visited tiles in their insertion order: the
   * first tile of least Manhattan distance, or nothing when none was visited.
   */
  method FindNearestVisited(pos: Pos, visited: seq<Pos>) returns (nearest: Option<Pos>, ghost at: nat)
    ensures nearest.None? <==> |visited| == 0
    ensures nearest.Some? ==> IsNearestVisited(pos, visited, at) && visited[at] == nearest.value
  {
    nearest := None;
    var minDist := 0;
    at := 0;
    for k := 0 to |visited|
      invariant nearest.None? <==> k == 0
      invariant nearest.Some? ==> 0 <= at < k && visited[at] == nearest.value
      invariant nearest.Some? ==> minDist == Manhattan(pos, visited[at])
      invariant nearest.Some? ==> forall i :: 0 <= i < k ==> minDist <= Manhattan(pos, visited[i])
      invariant nearest.Some? ==> forall i :: 0 <= i < at ==> minDist < Manhattan(pos, visited[i])
    {
      var dist := Abs(visited[k].x - pos.x) + Abs(visited[k].y - pos.y);
      assert dist == Manhattan(pos, visited[k]);
      if nearest.None? || dist < minDist {
        minDist := dist;
        nearest := Some(visited[k]);
        at := k;
      }
    }
  }

  /**
   * The scan of checkMapConnectivity collecting, in row-major order, the
   * floor tiles the fill did not visit.
   */
  method CollectUnconnected(a: array2<Tile>, visited: seq<Pos>) returns (pending: seq<Pos>)
    requires Sized(a)
    ensures forall p :: p in pending <==> IsFloor(Snapshot(a), p) && p !in visited
    ensures forall i, j :: 0 <= i < j < |pending| ==> RowMajorLt(pending[i], pending[j])
  {
    ghost var g := Snapshot(a);
    SnapshotWellFormed(a);
    pending := [];
    var y := 0;
    while y < Height
      invariant 0 <= y <= Height
      invariant forall p :: p in pending <==> IsFloor(g, p) && p !in visited && RowMajorLt(p, Pos(0, y))
      invariant forall i, j :: 0 <= i < j < |pending| ==> RowMajorLt(pending[i], pending[j])
    {
      var x := 0;
      while x < Width
        invariant 0 <= x <= Width
        invariant forall p :: p in pending <==> IsFloor(g, p) && p !in visited && RowMajorLt(p, Pos(x, y))
        invariant forall i, j :: 0 <= i < j < |pending| ==> RowMajorLt(pending[i], pending[j])
      {
        if a[y, x] == Floor && Pos(x, y) !in visited {
          forall i | 0 <= i < |pending| ensures RowMajorLt(pending[i], Pos(x, y)) {
            assert pending[i] in pending;
          }
          pending := pending + [Pos(x, y)];
        }
        x := x + 1;
      }
      forall p | IsFloor(g, p) && RowMajorLt(p, Pos(Width, y)) ensures RowMajorLt(p, Pos(0, y + 1)) {
      }
      forall p | IsFloor(g, p) && RowMajorLt(p, Pos(0, y + 1)) ensures RowMajorLt(p, Pos(Width, y)) {
        FloorInBounds(g, p);
      }
      y := y + 1;
    }
    forall p | IsFloor(g, p) ensures RowMajorLt(p, Pos(0, Height)) {
      FloorInBounds(g, p);
    }
  }

  /**
   * Each of the first |targets| pending tiles has as target the visited tile
   * at index picks[i], its nearest.
   */
  predicate NearestTargets(pending: seq<Pos>, visited: seq<Pos>, targets: seq<Pos>, picks: seq<nat>) {
    && |targets| == |picks| <= |pending|
    && forall i :: 0 <= i < |picks| ==>
      IsNearestVisited(pending[i], visited, picks[i]) && visited[picks[i]] == targets[i]
  }

  /** p lies on the L-path carved from some pending tile to its target. */
  predicate OnSomeRepair(pending: seq<Pos>, targets: seq<Pos>, p: Pos) {
    exists i :: 0 <= i < |targets| && i < |pending| && InLPath(pending[i], targets[i], p)
  }

  lemma OnSomeRepairSnoc(pending: seq<Pos>, targets: seq<Pos>, t: Pos, p: Pos)
    requires |targets| < |pending|
    ensures OnSomeRepair(pending, targets + [t], p) <==>
      OnSomeRepair(pending, targets, p) || InLPath(pending[|targets|], t, p)
  {
    var targets' := targets + [t];
    if OnSomeRepair(pending, targets', p) {
      var i :| 0 <= i < |targets'| && i < |pending| && InLPath(pending[i], targets'[i], p);
      if i < |targets| { assert targets'[i] == targets[i]; }
    }
    if OnSomeRepair(pending, targets, p) {
      var i :| 0 <= i < |targets| && i < |pending| && InLPath(pending[i], targets[i], p);
      assert targets'[i] == targets[i];
    }
  }

  /**
   * Every floor tile is connected to the seed or still waits, from index i
   * on, among the pending tiles.
   */
  ghost predicate RepairedUpTo(g: Tiles, seed: Pos, pending: seq<Pos>, i: int)
    requires 0 <= i <= |pending|
  {
    forall p :: IsFloor(g, p) ==> Connected(g, seed, p) || p in pending[i..]
  }

  /**
   * One repair step: carving the L-path from the pending tile u to a tile n
   * already connected to the seed connects u and every carved tile, and
   * keeps every tile that was connected connected.
   */
  lemma RepairStep(g: Tiles, h: Tiles, seed: Pos, pending: seq<Pos>, i: int, n: Pos)
    requires 0 <= i < |pending| && pending[i] != n
    requires RepairedUpTo(g, seed, pending, i) && Connected(g, seed, n)
    requires FloorGrows(g, h)
    requires forall q :: InLPath(pending[i], n, q) ==> IsFloor(h, q)
    requires forall p :: IsFloor(h, p) ==> IsFloor(g, p) || InLPath(pending[i], n, p)
    ensures RepairedUpTo(h, seed, pending, i + 1)
  {
    var u := pending[i];
    ConnectedMono(g, h, seed, n);
    ConnectedIsFloor(h, seed, n);
    forall p | IsFloor(h, p) ensures Connected(h, seed, p) || p in pending[i + 1..] {
      if InLPath(u, n, p) {
        LPathConnected(h, u, n, p);
        ConnectedSym(h, p, n);
        ConnectedTrans(h, seed, n, p);
      } else if Connected(g, seed, p) {
        ConnectedMono(g, h, seed, p);
      } else if p == u {
        LPathHasStart(u, n);
      } else {
        assert p in pending[i..];
        assert pending[i..] == [u] + pending[i + 1..];
      }
    }
  }

  /**
   * The carve of one L-path, read as floor tiles: the old floor stays, the
   * path becomes floor, and nothing else does.
   */
  lemma LPathCarved(g: Tiles, h: Tiles, u: Pos, n: Pos)
    requires WellFormed(g) && WellFormed(h)
    requires forall y, x :: 0 <= y < Height && 0 <= x < Width ==>
      h[y][x] == (if InLPath(u, n, Pos(x, y)) then Floor else g[y][x])
    requires InBounds(u) && InBounds(n)
    ensures FloorGrows(g, h)
    ensures forall q :: InLPath(u, n, q) ==> IsFloor(h, q)
    ensures forall p :: IsFloor(h, p) ==> IsFloor(g, p) || InLPath(u, n, p)
  {
    forall q | InLPath(u, n, q) ensures IsFloor(h, q) {
      LPathInBox(u, n, q);
    }
    forall p | IsFloor(g, p) ensures IsFloor(h, p) {
      FloorInBounds(g, p);
    }
    forall p | IsFloor(h, p) ensures IsFloor(g, p) || InLPath(u, n, p) {
      FloorInBounds(h, p);
    }
  }

  /**
   * One iteration of checkMapConnectivity's last loop: the pending tile u at
   * index i is joined by an L-path to its nearest visited tile n, which is
   * returned.  Exactly that path becomes floor, and one more pending tile is
   * connected to the seed.
   */
  method RepairTile(a: array2<Tile>, seed: Pos, visited: seq<Pos>, pending: seq<Pos>, i: int)
    returns (n: Pos, ghost at: nat)
    requires Sized(a) && 0 <= i < |pending| && |visited| > 0
    requires forall p :: p in pending ==> InBounds(p) && p !in visited
    requires forall v :: v in visited ==> Connected(Snapshot(a), seed, v)
    requires RepairedUpTo(Snapshot(a), seed, pending, i)
    modifies a
    ensures IsNearestVisited(pending[i], visited, at) && visited[at] == n
    ensures forall y, x :: 0 <= y < Height && 0 <= x < Width ==>
      a[y, x] == (if InLPath(pending[i], n, Pos(x, y)) then Floor else old(a[y, x]))
    ensures OnlyCarves(old(Snapshot(a)), Snapshot(a))
    ensures RepairedUpTo(Snapshot(a), seed, pending, i + 1)
    ensures forall v :: v in visited ==> Connected(Snapshot(a), seed, v)
  {
    ghost var g := Snapshot(a);
    SnapshotWellFormed(a);
    var pos := pending[i];
    var nearest;
    nearest, at := FindNearestVisited(pos, visited);
    if nearest.None? {
      assert false;
    }
    n := nearest.value;
    assert pos in pending && n in visited;
    ConnectedIsFloor(g, seed, n);
    FloorInBounds(g, n);
    Carving.ConnectRooms(a, pos, n);
    ghost var h := Snapshot(a);
    SnapshotWellFormed(a);
    LPathCarved(g, h, pos, n);
    RepairStep(g, h, seed, pending, i, n);
    forall v | v in visited ensures Connected(h, seed, v) {
      ConnectedMono(g, h, seed, v);
    }
  }

  /**
   * The last loop of checkMapConnectivity: each pending tile in turn is
   * joined to its nearest visited tile, targets[i] for pending[i].  Exactly
   * those L-paths become floor, and afterwards every floor tile is connected
   * to the seed.
   */
  method RepairAll(a: array2<Tile>, seed: Pos, visited: seq<Pos>, pending: seq<Pos>)
    returns (ghost targets: seq<Pos>, ghost picks: seq<nat>)
    requires Sized(a) && |visited| > 0
    requires forall p :: p in pending ==> InBounds(p) && p !in visited
    requires forall v :: v in visited ==> Connected(Snapshot(a), seed, v)
    requires RepairedUpTo(Snapshot(a), seed, pending, 0)
    modifies a
    ensures |targets| == |pending|
    ensures NearestTargets(pending, visited, targets, picks)
    ensures forall y, x :: 0 <= y < Height && 0 <= x < Width ==>
      a[y, x] == (if OnSomeRepair(pending, targets, Pos(x, y)) then Floor else old(a[y, x]))
    ensures OnlyCarves(old(Snapshot(a)), Snapshot(a))
    ensures forall p :: IsFloor(Snapshot(a), p) ==> Connected(Snapshot(a), seed, p)
  {
    ghost var g0 := Snapshot(a);
    SnapshotWellFormed(a);
    targets, picks := [], [];
    var i := 0;
    while i < |pending|
      invariant 0 <= i <= |pending| && |targets| == i
      invariant NearestTargets(pending, visited, targets, picks)
      invariant forall y, x :: 0 <= y < Height && 0 <= x < Width ==>
        a[y, x] == (if OnSomeRepair(pending, targets, Pos(x, y)) then Floor else old(a[y, x]))
      invariant OnlyCarves(g0, Snapshot(a))
      invariant RepairedUpTo(Snapshot(a), seed, pending, i)
      invariant forall v :: v in visited ==> Connected(Snapshot(a), seed, v)
    {
      ghost var g := Snapshot(a);
      var n;
      ghost var at;
      n, at := RepairTile(a, seed, visited, pending, i);
      OnlyCarvesTransitive(g0, g, Snapshot(a));
      forall y, x | 0 <= y < Height && 0 <= x < Width {
        OnSomeRepairSnoc(pending, targets, n, Pos(x, y));
      }
      targets, picks := targets + [n], picks + [at];
      i := i + 1;
    }
    forall p | IsFloor(Snapshot(a), p) ensures Connected(Snapshot(a), seed, p) {
      assert pending[i..] == [];
    }
  }

  /**
   * checkMapConnectivity.  Without a floor tile nothing changes.  Otherwise,
   * with seed the first floor tile, pending the unvisited floor tiles in
   * row-major order and targets[i] the nearest visited tile to pending[i],
   * exactly the L-paths from each pending tile to its target become floor,
   * and afterwards every floor tile is connected to the seed.
   */
  method CheckMapConnectivity(a: array2<Tile>)
    returns (ghost seed: Option<Pos>, ghost visited: seq<Pos>, ghost pending: seq<Pos>,
             ghost targets: seq<Pos>, ghost picks: seq<nat>)
    requires Sized(a)
    modifies a
    ensures seed.None? ==> (forall p :: !IsFloor(old(Snapshot(a)), p)) && Snapshot(a) == old(Snapshot(a))
    ensures seed.Some? ==> IsFloor(old(Snapshot(a)), seed.value)
    ensures seed.Some? ==> forall p :: IsFloor(old(Snapshot(a)), p) ==> RowMajorLe(seed.value, p)
    ensures seed.Some? ==> forall p :: p in visited <==> Connected(old(Snapshot(a)), seed.value, p)
    ensures seed.Some? ==> forall p :: p in pending <==> IsFloor(old(Snapshot(a)), p) && p !in visited
    ensures forall i, j :: 0 <= i < j < |pending| ==> RowMajorLt(pending[i], pending[j])
    ensures |targets| == |pending| && NearestTargets(pending, visited, targets, picks)
    ensures forall y, x :: 0 <= y < Height && 0 <= x < Width ==>
      a[y, x] == (if OnSomeRepair(pending, targets, Pos(x, y)) then Floor else old(a[y, x]))
    ensures OnlyCarves(old(Snapshot(a)), Snapshot(a))
    ensures seed.Some? ==> forall p :: IsFloor(Snapshot(a), p) ==> Connected(Snapshot(a), seed.value, p)
  {
    ghost var g0 := Snapshot(a);
    SnapshotWellFormed(a);
    visited, pending, targets, picks := [], [], [], [];
    var first := FindFirstFloor(a);
    seed := first;
    assert Snapshot(a) == g0;
    if first.None? {
      return;
    }
    var start := first.value;
    var vs := FloodFill(a, start);
    visited := vs;
    var unconnected := CollectUnconnected(a, vs);
    pending := unconnected;
    forall p | p in unconnected ensures InBounds(p) && p !in vs {
      FloorInBounds(g0, p);
    }
    forall p | IsFloor(g0, p) ensures Connected(g0, start, p) || p in unconnected[0..] {
      assert unconnected[0..] == unconnected;
    }
    targets, picks := RepairAll(a, start, vs, unconnected);
  }
}
