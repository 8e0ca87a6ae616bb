/** The game board as a graph: the row-major tile list, the obstacle set, the
    passability rule and the neighbour function (GameBoard.cs). World-space
    geometry is not modelled; tiles are addressed by grid coordinates. */
module Board {
  import opened Wrappers
  import opened Seqs
  import opened BoardConfig

  /** `Vector2Int`: a grid cell, compared by value. */
  datatype Coord = Coord(x: int, y: int)

  /** The board: its configuration, the `Grid` list built by `Initialize`
      and the set of obstacle tiles. */
  datatype GameBoard = GameBoard(config: GameBoardConfig, grid: seq<Coord>, obstacles: set<Coord>)

  /** The result of an obstacle mutation: the new board and whether
      `OnMapChanged` was raised (it is raised at most once). */
  datatype Mutation = Mutation(board: GameBoard, notified: bool)

  function Abs(n: int): nat {
    if n < 0 then -n else n
  }

  predicate InBounds(config: GameBoardConfig, c: Coord) {
    0 <= c.x < config.gridWidth && 0 <= c.y < config.gridHeight
  }

  /** Row-major order: rows (y) outer, columns (x) inner. */
  predicate Before(a: Coord, c: Coord) {
    a.y < c.y || (a.y == c.y && a.x < c.x)
  }

  predicate RowMajor(s: seq<Coord>) {
    forall i, j :: 0 <= i < j < |s| ==> Before(s[i], s[j])
  }

  /** The shape every board has after `Initialize`: exactly the in-bounds
      tiles, each once, in row-major order. */
  ghost predicate Valid(b: GameBoard) {
    && RowMajor(b.grid)
    && forall c :: c in b.grid <==> InBounds(b.config, c)
  }

  /** The set of tiles of the board. */
  function Tiles(b: GameBoard): set<Coord> {
    Elems(b.grid)
  }

  /** `Initialize`: rebuilds `Grid` from the configured extent with y outer and
      x inner; the configuration and the obstacles are left as they are. */
  method Initialize(b: GameBoard) returns (r: GameBoard)
    ensures r.config == b.config && r.obstacles == b.obstacles
    ensures RowMajor(r.grid)
    ensures forall c :: c in r.grid <==> InBounds(b.config, c)
    ensures b.config.gridWidth > 0 && b.config.gridHeight > 0 ==>
              |r.grid| == b.config.gridWidth * b.config.gridHeight
  {
    var w := b.config.gridWidth;
    var h := b.config.gridHeight;
    var grid: seq<Coord> := [];
    var y := 0;
    while y < h
      invariant 0 <= y && (y <= h || y == 0)
      invariant RowMajor(grid)
      invariant forall c :: c in grid <==> 0 <= c.y < y && 0 <= c.x < w
      invariant w > 0 ==> |grid| == y * w
    {
      var x := 0;
      while x < w
        invariant 0 <= x && (x <= w || x == 0)
        invariant RowMajor(grid)
        invariant forall c :: c in grid <==> (0 <= c.y < y && 0 <= c.x < w) || (c.y == y && 0 <= c.x < x)
        invariant w > 0 ==> |grid| == y * w + x
      {
        assert forall i :: 0 <= i < |grid| ==> grid[i] in grid;
        grid := grid + [Coord(x, y)];
        x := x + 1;
      }
      assert w > 0 ==> |grid| == (y + 1) * w;
      y := y + 1;
    }
    r := b.(grid := grid);
  }

  /** `IsObstacle`. */
  predicate IsObstacle(b: GameBoard, c: Coord) {
    c in b.obstacles
  }

  predicate IsDiagonal(from: Coord, to: Coord) {
    from.x != to.x && from.y != to.y
  }

  /** `IsPassable`, with its early returns: the target must not be an
      obstacle, and a diagonal move needs diagonal movement enabled and both
      corner tiles free. */
  predicate IsPassable(b: GameBoard, from: Coord, to: Coord) {
    if IsObstacle(b, to) then false
    else if IsDiagonal(from, to) then
      if !b.config.isDiagonalMovementAllowed then false
      else
        var horizontal := Coord(to.x, from.y);
        var vertical := Coord(from.x, to.y);
        !(IsObstacle(b, horizontal) || IsObstacle(b, vertical))
    else true
  }

  /** The neighbour relation stated declaratively: `n` is a different tile
      within Chebyshev distance 1 of `t`, not an obstacle, and if the step is
      diagonal then diagonal movement is on and neither corner tile between
      them is an obstacle. */
  predicate Adjacent(b: GameBoard, t: Coord, n: Coord) {
    && n != t
    && Abs(n.x - t.x) <= 1 && Abs(n.y - t.y) <= 1
    && n !in b.obstacles
    && (IsDiagonal(t, n) ==>
          b.config.isDiagonalMovementAllowed
          && Coord(n.x, t.y) !in b.obstacles
          && Coord(t.x, n.y) !in b.obstacles)
  }

  /** One edge of the search graph: `n` is a board tile adjacent to `t`. */
  predicate IsStep(b: GameBoard, t: Coord, n: Coord) {
    n in b.grid && Adjacent(b, t, n)
  }

  /** The loop of `GetPassableNeighbours` over a suffix of `Grid`. */
  function NeighboursIn(b: GameBoard, target: Coord, tiles: seq<Coord>): (r: seq<Coord>)
    ensures forall n :: n in r <==> n in tiles && Adjacent(b, target, n)
    ensures RowMajor(tiles) ==> RowMajor(r)
  {
    if tiles == [] then []
    else
      var tile := tiles[0];
      var rest := NeighboursIn(b, target, tiles[1..]);
      if tile != target
         && Abs(tile.x - target.x) <= TileSize && Abs(tile.y - target.y) <= TileSize
         && IsPassable(b, target, tile)
      then
        assert RowMajor(tiles) ==> forall n :: n in rest ==> Before(tile, n) by {
          if RowMajor(tiles) {
            forall n | n in rest ensures Before(tile, n) {
              var k :| 1 <= k < |tiles| && tiles[k] == n;
            }
          }
        }
        [tile] + rest
      else rest
  }

  /** `GetPassableNeighbours`: the tiles of `Grid`, in `Grid` order, that are
      adjacent to `target` under the passability rule. */
  function Neighbours(b: GameBoard, target: Coord): (r: seq<Coord>)
    ensures forall n :: n in r <==> IsStep(b, target, n)
    ensures Valid(b) ==> RowMajor(r)
  {
    NeighboursIn(b, target, b.grid)
  }

  /** The eight tiles around `t`. */
  function RingCells(t: Coord): seq<Coord> {
    [Coord(t.x - 1, t.y - 1), Coord(t.x, t.y - 1), Coord(t.x + 1, t.y - 1),
     Coord(t.x - 1, t.y),                          Coord(t.x + 1, t.y),
     Coord(t.x - 1, t.y + 1), Coord(t.x, t.y + 1), Coord(t.x + 1, t.y + 1)]
  }

  function Ring(t: Coord): set<Coord> {
    Elems(RingCells(t))
  }

  lemma {:induction false} RowMajorNoDup(s: seq<Coord>)
    requires RowMajor(s)
    ensures NoDup(s)
  {
  }

  /** A tile has at most eight neighbours, each returned once. */
  lemma {:induction false} NeighboursAtMostEight(b: GameBoard, t: Coord)
    requires Valid(b)
    ensures NoDup(Neighbours(b, t))
    ensures |Neighbours(b, t)| <= 8
  {
    var r := Neighbours(b, t);
    RowMajorNoDup(r);
    NoDupCard(r);
    assert Elems(r) <= Ring(t) by {
      forall n | n in Elems(r) ensures n in Ring(t) {
        assert Adjacent(b, t, n);
      }
    }
    ElemsCard(RingCells(t));
    assert |Ring(t)| <= 8;
    SubsetCard(Elems(r), Ring(t));
  }

  /** Every neighbour is a board tile different from `t`, within Chebyshev
      distance 1 of it, and not an obstacle. */
  lemma {:induction false} NeighboursAreNearbyFreeTiles(b: GameBoard, t: Coord, n: Coord)
    requires n in Neighbours(b, t)
    ensures n in b.grid && n != t && !IsObstacle(b, n)
    ensures Abs(n.x - t.x) <= TileSize && Abs(n.y - t.y) <= TileSize
  {
  }

  /** With diagonal movement off the board is four-connected. */
  lemma {:induction false} FourConnectedWithoutDiagonals(b: GameBoard, t: Coord, n: Coord)
    requires !b.config.isDiagonalMovementAllowed
    requires n in Neighbours(b, t)
    ensures (n.x == t.x) != (n.y == t.y)
    ensures Abs(n.x - t.x) + Abs(n.y - t.y) == 1
  {
  }

  /** A diagonal step is refused when it would cut a corner. */
  lemma {:induction false} CornerRule(b: GameBoard, t: Coord, n: Coord)
    requires IsDiagonal(t, n)
    requires IsObstacle(b, Coord(n.x, t.y)) || IsObstacle(b, Coord(t.x, n.y))
    ensures n !in Neighbours(b, t)
  {
  }

  /** The four corners of the rectangle a move spans. */
  function Corners(from: Coord, to: Coord): set<Coord> {
    {from, to, Coord(to.x, from.y), Coord(from.x, to.y)}
  }

  /** Passability without the case split: a move is passable exactly when
      every corner of the rectangle it spans, other than the tile moved
      from, is free (the target included), and a rectangle of positive area
      needs diagonal movement enabled. */
  lemma {:induction false} PassableCorners(b: GameBoard, from: Coord, to: Coord)
    ensures IsPassable(b, from, to) <==>
      && !IsObstacle(b, to)
      && (IsDiagonal(from, to) ==> b.config.isDiagonalMovementAllowed)
      && forall c :: c in Corners(from, to) && c != from ==> !IsObstacle(b, c)
  {
  }

  /** Adjacency between free board tiles is symmetric. */
  lemma {:induction false} NeighboursSymmetric(b: GameBoard, a: Coord, c: Coord)
    requires a in b.grid && c in b.grid
    requires !IsObstacle(b, a) && !IsObstacle(b, c)
    ensures c in Neighbours(b, a) <==> a in Neighbours(b, c)
  {
  }

  /** On a 3x3 board with diagonals on and obstacles at (1,0) and (0,1),
      (1,1) is not a neighbour of (0,0), although it is one once those two
      obstacles are gone. */
  lemma {:induction false} CornerExample(b: GameBoard)
    requires Valid(b)
    requires b.config.gridWidth == 3 && b.config.gridHeight == 3
    requires b.config.isDiagonalMovementAllowed
    ensures b.(obstacles := {Coord(1, 0), Coord(0, 1)}).grid == b.grid
    ensures Coord(1, 1) !in Neighbours(b.(obstacles := {Coord(1, 0), Coord(0, 1)}), Coord(0, 0))
    ensures Coord(1, 1) in Neighbours(b.(obstacles := {}), Coord(0, 0))
  {
    assert InBounds(b.config, Coord(1, 1));
  }

  /** `AddObstacle` on grid coordinates: the obstacle set gains `c`, and
      `OnMapChanged` is raised exactly when `c` was not already an obstacle.
      There is no bounds check, and `Grid` is untouched. */
  function AddObstacle(b: GameBoard, c: Coord): (m: Mutation)
    ensures m.board.config == b.config && m.board.grid == b.grid
    ensures m.board.obstacles == b.obstacles + {c}
    ensures m.notified <==> !IsObstacle(b, c)
    ensures IsObstacle(m.board, c)
  {
    if IsObstacle(b, c) then Mutation(b, false)
    else Mutation(b.(obstacles := b.obstacles + {c}), true)
  }

  /** `RemoveObstacle` on grid coordinates: the obstacle set loses `c`, and
      `OnMapChanged` is raised exactly when `c` was an obstacle. */
  function RemoveObstacle(b: GameBoard, c: Coord): (m: Mutation)
    ensures m.board.config == b.config && m.board.grid == b.grid
    ensures m.board.obstacles == b.obstacles - {c}
    ensures m.notified <==> IsObstacle(b, c)
    ensures !IsObstacle(m.board, c)
  {
    if !IsObstacle(b, c) then Mutation(b, false)
    else Mutation(b.(obstacles := b.obstacles - {c}), true)
  }

  /** `IsObstacle` after an edit: an added tile is an obstacle, a removed
      one is not, and every other tile answers as before. */
  lemma {:induction false} ObstacleEdits(b: GameBoard, c: Coord, x: Coord)
    ensures IsObstacle(AddObstacle(b, c).board, x) <==> x == c || IsObstacle(b, x)
    ensures IsObstacle(RemoveObstacle(b, c).board, x) <==> x != c && IsObstacle(b, x)
  {
  }

  /** Adding the same obstacle twice raises exactly one notification, and the
      second call changes nothing. */
  lemma {:induction false} AddObstacleIdempotent(b: GameBoard, c: Coord)
    ensures AddObstacle(AddObstacle(b, c).board, c) == Mutation(AddObstacle(b, c).board, false)
    ensures (if AddObstacle(b, c).notified then 1 else 0)
            + (if AddObstacle(AddObstacle(b, c).board, c).notified then 1 else 0) <= 1
  {
  }

  /** Removing an obstacle that is not there raises nothing and changes nothing. */
  lemma {:induction false} RemoveAbsentObstacle(b: GameBoard, c: Coord)
    requires !IsObstacle(b, c)
    ensures RemoveObstacle(b, c) == Mutation(b, false)
  {
  }

  /** Removing an obstacle undoes adding it, and the other way round. */
  lemma {:induction false} ObstacleRoundTrips(b: GameBoard, c: Coord)
    ensures !IsObstacle(b, c) ==> RemoveObstacle(AddObstacle(b, c).board, c).board == b
    ensures IsObstacle(b, c) ==> AddObstacle(RemoveObstacle(b, c).board, c).board == b
  {
    if !IsObstacle(b, c) {
      assert b.obstacles + {c} - {c} == b.obstacles;
    } else {
      assert b.obstacles - {c} + {c} == b.obstacles;
    }
  }

  /** The grid-membership part of `TryGetTile`: the tile under the cursor is
      returned when it is a tile of `Grid`, and nothing otherwise. */
  function TryGetTile(b: GameBoard, c: Coord): (r: Option<Coord>)
    ensures Valid(b) ==> (r.Some? <==> InBounds(b.config, c))
    ensures r.Some? <==> c in b.grid
    ensures r.Some? ==> r.value == c
  {
    if c in b.grid then Some(c) else None
  }
}
