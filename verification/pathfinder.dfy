/** What the three searches share (Pathfinder.cs): the Manhattan heuristic,
    path reconstruction from the `cameFrom` predecessor map, and the graph
    notions their contracts are stated in (walks, reachability, the
    predecessor tree a search builds). */
module Pathfinders {
  import opened Wrappers
  import opened Seqs
  import opened Board

  /** The predecessor map: `start` maps to `None`, every other discovered tile
      to the tile it was discovered from. */
  type CameFrom = map<Coord, Option<Coord>>

  /** `GetHeuristicDistance`: the Manhattan distance. */
  function Heuristic(a: Coord, b: Coord): (d: nat)
    ensures d == 0 <==> a == b
    ensures d >= Abs(a.x - b.x) && d >= Abs(a.y - b.y)
  {
    var distX := Abs(a.x - b.x);
    var distY := Abs(a.y - b.y);
    distX + distY
  }

  /** The heuristic is a metric: symmetric and obeying the triangle inequality. */
  lemma {:induction false} HeuristicIsMetric(a: Coord, b: Coord, c: Coord)
    ensures Heuristic(a, b) == Heuristic(b, a)
    ensures Heuristic(a, c) <= Heuristic(a, b) + Heuristic(b, c)
  {
  }

  /** A walk: consecutive tiles are joined by a step of the neighbour relation. */
  predicate IsWalk(b: GameBoard, w: seq<Coord>) {
    |w| >= 1 && forall i :: 0 <= i < |w| - 1 ==> IsStep(b, w[i], w[i + 1])
  }

  predicate WalkFromTo(b: GameBoard, w: seq<Coord>, a: Coord, z: Coord) {
    IsWalk(b, w) && w[0] == a && w[|w| - 1] == z
  }

  /** `z` can be reached from `a` through `GetPassableNeighbours`. */
  ghost predicate Reachable(b: GameBoard, a: Coord, z: Coord) {
    exists w :: WalkFromTo(b, w, a, z)
  }

  /** What a successful search returns: a walk from `start` to `end` that
      visits no tile twice. */
  predicate IsRoute(b: GameBoard, start: Coord, end: Coord, p: seq<Coord>) {
    WalkFromTo(b, p, start, end) && NoDup(p)
  }

  /** Following predecessors from `c` reaches `start` within `n` steps, every
      entry on the way being present and non-null. */
  ghost predicate ReachesIn(cameFrom: CameFrom, start: Coord, c: Coord, n: nat)
    decreases n
  {
    if c == start then true
    else n > 0 && c in cameFrom && cameFrom[c].Some?
         && ReachesIn(cameFrom, start, cameFrom[c].value, n - 1)
  }

  /** `c`'s entry names `a` as its predecessor. */
  predicate Links(cameFrom: CameFrom, a: Coord, c: Coord) {
    c in cameFrom && cameFrom[c] == Some(a)
  }

  ghost predicate Reaches(cameFrom: CameFrom, start: Coord, c: Coord) {
    exists n: nat :: ReachesIn(cameFrom, start, c, n)
  }

  /** `ReconstructPath`: walks the predecessors back from `end` to `start`,
      then reverses. Its precondition is the one the source relies on:
      otherwise `cameFrom[current].Value` throws. The result runs from
      `start` to `end`, each tile's entry names the tile before it, and no
      tile repeats: a predecessor chain that reaches `start` cannot cycle. */
  method ReconstructPath(cameFrom: CameFrom, start: Coord, end: Coord) returns (path: seq<Coord>)
    requires Reaches(cameFrom, start, end)
    ensures |path| >= 1 && path[0] == start && path[|path| - 1] == end
    ensures forall i :: 0 <= i < |path| - 1 ==> Links(cameFrom, path[i], path[i + 1])
    ensures forall i :: 0 < i < |path| ==> path[i] != start
    ensures NoDup(path)
  {
    ghost var fuel: nat :| ReachesIn(cameFrom, start, end, fuel);
    var reversed: seq<Coord> := [];
    var current := end;
    while current != start
      invariant ReachesIn(cameFrom, start, current, fuel)
      invariant (reversed + [current])[0] == end
      invariant forall i :: 0 <= i < |reversed| ==>
                  reversed[i] in cameFrom && cameFrom[reversed[i]] == Some((reversed + [current])[i + 1])
      invariant forall i :: 0 <= i < |reversed| ==> reversed[i] != start
      decreases fuel
    {
      reversed := reversed + [current];
      current := cameFrom[current].value;
      fuel := fuel - 1;
    }
    var s := reversed + [start];
    path := Reverse(s);
    forall i | 0 <= i < |path| - 1 ensures Links(cameFrom, path[i], path[i + 1]) {
      assert path[i + 1] == s[|s| - 2 - i] && path[i] == s[|s| - 1 - i];
    }
    ChainNoDup(cameFrom, start, path);
  }

  /** A predecessor chain that starts at `start` and never returns to it has
      no repeated tile. */
  lemma {:induction false} ChainNoDup(cameFrom: CameFrom, start: Coord, p: seq<Coord>)
    requires |p| >= 1 && p[0] == start
    requires forall i :: 0 < i < |p| ==> p[i] != start
    requires forall i :: 0 <= i < |p| - 1 ==> Links(cameFrom, p[i], p[i + 1])
    ensures NoDup(p)
  {
    forall i, j | 0 <= i < j < |p| ensures p[i] != p[j] {
      ChainDistinct(cameFrom, start, p, i, j);
    }
  }

  lemma {:induction false} ChainDistinct(cameFrom: CameFrom, start: Coord, p: seq<Coord>, i: nat, j: nat)
    requires |p| >= 1 && p[0] == start
    requires forall k :: 0 < k < |p| ==> p[k] != start
    requires forall k :: 0 <= k < |p| - 1 ==> Links(cameFrom, p[k], p[k + 1])
    requires i < j < |p|
    ensures p[i] != p[j]
    decreases i
  {
    if i > 0 {
      ChainDistinct(cameFrom, start, p, i - 1, j - 1);
      assert Links(cameFrom, p[i - 1], p[i]) && Links(cameFrom, p[j - 1], p[j]);
    }
  }

  /** The predecessor tree every search keeps: `start` is the root, every
      other discovered tile names a discovered predecessor from which it is
      one step away, and the ghost `depth` counts the steps back to `start`. */
  ghost predicate Tree(b: GameBoard, start: Coord, cameFrom: CameFrom, depth: map<Coord, nat>) {
    && start in cameFrom && cameFrom[start] == None
    && cameFrom.Keys == depth.Keys && depth[start] == 0
    && forall k :: k in cameFrom && k != start ==>
         && cameFrom[k].Some? && cameFrom[k].value in cameFrom
         && IsStep(b, cameFrom[k].value, k)
         && depth[k] == depth[cameFrom[k].value] + 1
  }

  /** `cameFrom[next] = current` for each newly discovered tile. */
  function SetPredecessor(cameFrom: CameFrom, current: Coord, newTiles: seq<Coord>): (r: CameFrom)
    ensures r.Keys == cameFrom.Keys + Elems(newTiles)
    ensures forall k :: k in cameFrom && k !in newTiles ==> r[k] == cameFrom[k]
    ensures forall n :: n in newTiles ==> r[n] == Some(current)
  {
    cameFrom + map n | n in newTiles :: Some(current)
  }

  /** The ghost depth of newly discovered tiles: one more than `current`'s. */
  ghost function Deepen(depth: map<Coord, nat>, d: nat, newTiles: seq<Coord>): (r: map<Coord, nat>)
    ensures r.Keys == depth.Keys + Elems(newTiles)
    ensures forall k :: k in depth && k !in newTiles ==> r[k] == depth[k]
    ensures forall n :: n in newTiles ==> r[n] == d + 1
  {
    depth + map n | n in newTiles :: d + 1
  }

  /** Discovering new tiles from an already discovered `current` keeps the
      tree: each new tile gets `current` as predecessor, one level deeper. */
  lemma {:induction false} TreeExtend(b: GameBoard, start: Coord, cameFrom: CameFrom, depth: map<Coord, nat>,
                   current: Coord, newTiles: seq<Coord>)
    requires Tree(b, start, cameFrom, depth)
    requires current in cameFrom
    requires forall n :: n in newTiles ==> n !in cameFrom && IsStep(b, current, n)
    ensures Tree(b, start, SetPredecessor(cameFrom, current, newTiles), Deepen(depth, depth[current], newTiles))
  {
    var cameFrom' := SetPredecessor(cameFrom, current, newTiles);
    var depth' := Deepen(depth, depth[current], newTiles);
    forall k | k in cameFrom' && k != start
      ensures cameFrom'[k].Some? && cameFrom'[k].value in cameFrom'
      ensures IsStep(b, cameFrom'[k].value, k)
      ensures depth'[k] == depth'[cameFrom'[k].value] + 1
    {
      if k in newTiles {
        assert cameFrom'[k] == Some(current) && current !in newTiles;
      } else {
        assert k in cameFrom && cameFrom[k].value in cameFrom;
        assert cameFrom[k].value !in newTiles;
      }
    }
  }

  /** In the tree, every discovered tile's predecessor chain reaches `start`. */
  lemma {:induction false} TreeReaches(b: GameBoard, start: Coord, cameFrom: CameFrom, depth: map<Coord, nat>, k: Coord)
    requires Tree(b, start, cameFrom, depth)
    requires k in cameFrom
    ensures ReachesIn(cameFrom, start, k, depth[k])
    decreases depth[k]
  {
    if k != start {
      TreeReaches(b, start, cameFrom, depth, cameFrom[k].value);
    }
  }

  /** A chain reconstructed from the tree is a route whose length is one more
      than the depth of its last tile. */
  lemma {:induction false} TreePathIsRoute(b: GameBoard, start: Coord, end: Coord, cameFrom: CameFrom, depth: map<Coord, nat>, p: seq<Coord>)
    requires Tree(b, start, cameFrom, depth)
    requires |p| >= 1 && p[0] == start && p[|p| - 1] == end
    requires forall i :: 0 <= i < |p| - 1 ==> Links(cameFrom, p[i], p[i + 1])
    requires forall i :: 0 < i < |p| ==> p[i] != start
    requires NoDup(p)
    ensures IsRoute(b, start, end, p)
    ensures end in depth && |p| == depth[end] + 1
  {
    DepthAlong(b, start, cameFrom, depth, p, |p| - 1);
  }

  /** `ReconstructPath` on a predecessor tree: a route to `end` as long as
      the depth of `end` says. */
  method RouteFromTree(b: GameBoard, start: Coord, end: Coord, cameFrom: CameFrom, ghost depth: map<Coord, nat>)
    returns (p: seq<Coord>)
    requires Tree(b, start, cameFrom, depth)
    requires end in cameFrom
    ensures IsRoute(b, start, end, p)
    ensures |p| == depth[end] + 1
    ensures forall t :: t in p ==> t in cameFrom
  {
    TreeReaches(b, start, cameFrom, depth, end);
    p := ReconstructPath(cameFrom, start, end);
    TreePathIsRoute(b, start, end, cameFrom, depth, p);
    forall t | t in p ensures t in cameFrom {
      var i :| 0 <= i < |p| && p[i] == t;
      if i > 0 {
        assert Links(cameFrom, p[i - 1], p[i]);
      }
    }
  }

  /** Every tile of a search tree is reachable from its root: the tree's
      edges are steps. */
  lemma {:induction false} TreeKeysReachable(b: GameBoard, start: Coord, cameFrom: CameFrom,
                                             depth: map<Coord, nat>, k: Coord)
    requires Tree(b, start, cameFrom, depth)
    requires k in cameFrom
    ensures Reachable(b, start, k)
    decreases depth[k]
  {
    if k == start {
      assert WalkFromTo(b, [start], start, start);
    } else {
      var prev := cameFrom[k].value;
      TreeKeysReachable(b, start, cameFrom, depth, prev);
      var w :| WalkFromTo(b, w, start, prev);
      var w' := w + [k];
      forall i | 0 <= i < |w'| - 1 ensures IsStep(b, w'[i], w'[i + 1]) {
        if i < |w| - 1 {
          assert w'[i] == w[i] && w'[i + 1] == w[i + 1];
        }
      }
      assert WalkFromTo(b, w', start, k);
    }
  }

  lemma {:induction false} DepthAlong(b: GameBoard, start: Coord, cameFrom: CameFrom, depth: map<Coord, nat>, p: seq<Coord>, i: nat)
    requires Tree(b, start, cameFrom, depth)
    requires |p| >= 1 && p[0] == start
    requires forall k :: 0 <= k < |p| - 1 ==> Links(cameFrom, p[k], p[k + 1])
    requires forall k :: 0 < k < |p| ==> p[k] != start
    requires i < |p|
    ensures p[i] in depth && depth[p[i]] == i
  {
    if i > 0 {
      DepthAlong(b, start, cameFrom, depth, p, i - 1);
    }
  }

  /** The neighbours that pass the `cameFrom.ContainsKey(next)` guard of a
      search's inner loop, in neighbour order. The guard sees the entries the
      same loop added earlier, so no tile is returned twice. */
  function Fresh(known: set<Coord>, ns: seq<Coord>): (r: seq<Coord>)
    ensures NoDup(r)
    ensures forall n :: n in r <==> n in ns && n !in known
    decreases |ns|
  {
    if ns == [] then []
    else if ns[0] in known then Fresh(known, ns[1..])
    else [ns[0]] + Fresh(known + {ns[0]}, ns[1..])
  }

  /** Discovering a tile of the board brings the search closer to exhausting it. */
  lemma {:induction false} DiscoveryShrinks(b: GameBoard, cameFrom: CameFrom, newTiles: seq<Coord>, cameFrom': CameFrom)
    requires forall n :: n in newTiles ==> n in Tiles(b) && n !in cameFrom
    requires cameFrom'.Keys == cameFrom.Keys + Elems(newTiles)
    ensures newTiles == [] ==> cameFrom'.Keys == cameFrom.Keys
    ensures newTiles != [] ==> |Tiles(b) - cameFrom'.Keys| < |Tiles(b) - cameFrom.Keys|
  {
    if newTiles != [] {
      assert newTiles[0] in Tiles(b) - cameFrom.Keys;
      StrictSubsetCard(Tiles(b) - cameFrom'.Keys, Tiles(b) - cameFrom.Keys);
    }
  }

  /** The tiles the inner loop adds are board tiles not yet discovered. */
  lemma {:induction false} FreshAreNew(b: GameBoard, cameFrom: CameFrom, current: Coord)
    ensures forall n :: n in Fresh(cameFrom.Keys, Neighbours(b, current)) ==> n in Tiles(b) && n !in cameFrom
  {
  }

  /** Every discovered tile that has left the frontier has all of its
      neighbours discovered. */
  ghost predicate ExpandedClosed(b: GameBoard, cameFrom: CameFrom, frontier: set<Coord>) {
    forall k, n :: k in cameFrom && k !in frontier && IsStep(b, k, n) ==> n in cameFrom
  }

  /** Expanding `current`: it leaves the frontier once all of its fresh
      neighbours are discovered. */
  lemma {:induction false} ExpandedClosedStep(b: GameBoard, cameFrom: CameFrom, frontier: set<Coord>,
                           current: Coord, newTiles: seq<Coord>, cameFrom': CameFrom, frontier': set<Coord>)
    requires ExpandedClosed(b, cameFrom, frontier)
    requires newTiles == Fresh(cameFrom.Keys, Neighbours(b, current))
    requires cameFrom'.Keys == cameFrom.Keys + Elems(newTiles)
    requires frontier' + {current} >= frontier
    requires Elems(newTiles) <= frontier'
    ensures ExpandedClosed(b, cameFrom', frontier')
  {
    forall k, n | k in cameFrom' && k !in frontier' && IsStep(b, k, n) ensures n in cameFrom' {
      if k == current {
        assert n in Neighbours(b, current);
      } else {
        assert k in cameFrom && k !in frontier;
      }
    }
  }

  /** A tile set that every step leaves only into itself. */
  ghost predicate ClosedUnderSteps(b: GameBoard, s: set<Coord>) {
    forall k, n :: k in s && IsStep(b, k, n) ==> n in s
  }

  lemma {:induction false} WalkStaysInside(b: GameBoard, s: set<Coord>, w: seq<Coord>)
    requires IsWalk(b, w) && w[0] in s
    requires ClosedUnderSteps(b, s)
    ensures w[|w| - 1] in s
    decreases |w|
  {
    if |w| > 1 {
      var prefix := w[..|w| - 1];
      assert IsWalk(b, prefix);
      WalkStaysInside(b, s, prefix);
      assert IsStep(b, w[|w| - 2], w[|w| - 1]);
    }
  }

  /** Completeness: when the discovered tiles are closed under steps, a tile
      that was never discovered cannot be reached. */
  lemma {:induction false} ClosedSetBlocks(b: GameBoard, s: set<Coord>, a: Coord, z: Coord)
    requires a in s && z !in s
    requires ClosedUnderSteps(b, s)
    ensures !Reachable(b, a, z)
  {
    forall w | WalkFromTo(b, w, a, z) ensures false {
      WalkStaysInside(b, s, w);
    }
  }
}
