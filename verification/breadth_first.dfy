/** Breadth-first search (BreadthFirst.cs): a FIFO frontier, the `cameFrom`
    map doubling as the visited set, and reconstruction on reaching `end`. */
module BreadthFirstSearch {
  import opened Wrappers
  import opened Seqs
  import opened Board
  import opened Pathfinders

  /** The frontier is ordered by depth and spans at most two consecutive
      depths: what makes a FIFO search proceed level by level. */
  ghost predicate Layered(open: seq<Coord>, depth: map<Coord, nat>) {
    && (forall k :: k in open ==> k in depth)
    && (forall i, j :: 0 <= i <= j < |open| ==> depth[open[i]] <= depth[open[j]])
    && (forall k :: k in open ==> depth[k] <= depth[open[0]] + 1)
  }

  /** Expanded tiles are no deeper than the tile about to be expanded. */
  ghost predicate ExpandedBehind(open: seq<Coord>, cameFrom: CameFrom, depth: map<Coord, nat>) {
    |open| > 0 ==>
      forall k :: k in cameFrom && k !in open ==>
        k in depth && open[0] in depth && depth[k] <= depth[open[0]]
  }

  /** Expanded tiles have every neighbour discovered, at most one level deeper. */
  ghost predicate ExpandedNear(b: GameBoard, open: seq<Coord>, cameFrom: CameFrom, depth: map<Coord, nat>) {
    forall k, n :: k in cameFrom && k !in open && IsStep(b, k, n) ==>
      n in cameFrom && k in depth && n in depth && depth[n] <= depth[k] + 1
  }

  /** The state at the top of the search loop; `depth` is the ghost distance
      along the predecessor tree. */
  ghost predicate Inv(b: GameBoard, start: Coord, end: Coord, open: seq<Coord>,
                      cameFrom: CameFrom, depth: map<Coord, nat>)
  {
    && Tree(b, start, cameFrom, depth)
    && NoDup(open)
    && (forall k :: k in open ==> k in cameFrom)
    && Layered(open, depth)
    && ExpandedBehind(open, cameFrom, depth)
    && ExpandedNear(b, open, cameFrom, depth)
    // `end` is returned as soon as it is taken from the frontier
    && (end in cameFrom ==> end in open)
  }

  /** `TryFindPath`. A request from a tile to itself fails. Otherwise the
      result is a route exactly when `end` is reachable, and that route has
      the fewest steps of any walk from `start` to `end`. The ghost outputs
      record the order in which tiles were discovered and expanded: the
      search starts from `start`, discovers only reachable tiles, each once
      and at most |Grid| + 1 of them, and expands them in the order they
      were discovered. A found route runs through discovered tiles and ends
      with the expansion of `end`; a failed search expands every tile it
      discovered, and that is every reachable tile. */
  method TryFindPath(b: GameBoard, start: Coord, end: Coord)
    returns (path: Option<seq<Coord>>, ghost discovered: seq<Coord>, ghost expanded: seq<Coord>)
    ensures start == end ==> path == None
    ensures path.Some? ==> IsRoute(b, start, end, path.value)
    ensures start != end ==> (path.Some? <==> Reachable(b, start, end))
    ensures path.Some? ==> forall w :: WalkFromTo(b, w, start, end) ==> |path.value| <= |w|
    ensures NoDup(discovered) && |discovered| <= |Tiles(b)| + 1
    ensures |expanded| <= |discovered| && expanded == discovered[..|expanded|]
    ensures start != end ==> |discovered| > 0 && discovered[0] == start
    ensures forall t :: t in discovered ==> t == start || Reachable(b, start, t)
    ensures path.Some? ==>
      Elems(path.value) <= Elems(discovered) && |expanded| > 0 && expanded[|expanded| - 1] == end
    ensures start != end && path.None? ==>
      expanded == discovered && forall t :: Reachable(b, start, t) ==> t in discovered
  {
    discovered, expanded := [], [];
    if start == end {
      return None, discovered, expanded;
    }
    var open := [start];
    var cameFrom: CameFrom := map[start := None];
    ghost var depth: map<Coord, nat> := map[start := 0];
    discovered := [start];
    Initial(b, start, end);
    while |open| > 0
      invariant Inv(b, start, end, open, cameFrom, depth)
      invariant Discovery(b, start, open, cameFrom, discovered, expanded)
      decreases |Tiles(b) - cameFrom.Keys|, |open|
    {
      if open[0] == end {
        // `Remove(current)` drops `open[0]`; the tile is expanded and found
        var p := Found(b, start, end, open, cameFrom, depth);
        FoundOutputs(b, start, end, open, cameFrom, depth, discovered, expanded, p);
        return Some(p), discovered, expanded + [end];
      }
      open, cameFrom, depth, discovered, expanded := Expand(b, start, end, open, cameFrom, depth, discovered, expanded);
    }
    ExhaustedOutputs(b, start, end, cameFrom, depth, discovered, expanded);
    return None, discovered, expanded;
  }

  /** The state before the first iteration: only `start` is discovered. */
  lemma {:induction false} Initial(b: GameBoard, start: Coord, end: Coord)
    requires start != end
    ensures Inv(b, start, end, [start], map[start := None], map[start := 0])
    ensures Discovery(b, start, [start], map[start := None], [start], [])
  {
  }

  /** An emptied frontier means every discovered tile was expanded, so the
      discovered set is closed under steps and `end`, never found, is out of
      reach. The shared argument is
      `Pathfinders.ClosedSetBlocks`; this lemma only supplies this search's
      invariant to it. */
  lemma {:induction false} Exhausted(b: GameBoard, start: Coord, end: Coord, cameFrom: CameFrom, depth: map<Coord, nat>)
    requires Inv(b, start, end, [], cameFrom, depth)
    ensures !Reachable(b, start, end)
    ensures forall t :: Reachable(b, start, t) ==> t in cameFrom
  {
    forall t | t !in cameFrom ensures !Reachable(b, start, t) {
      ClosedSetBlocks(b, cameFrom.Keys, start, t);
    }
  }

  /** What the ghost outputs record when `end` is taken from the frontier. */
  lemma {:induction false} FoundOutputs(b: GameBoard, start: Coord, end: Coord, open: seq<Coord>, cameFrom: CameFrom,
                                        depth: map<Coord, nat>, discovered: seq<Coord>, expanded: seq<Coord>, p: seq<Coord>)
    requires Inv(b, start, end, open, cameFrom, depth)
    requires Discovery(b, start, open, cameFrom, discovered, expanded)
    requires |open| > 0 && open[0] == end
    requires forall t :: t in p ==> t in cameFrom
    ensures NoDup(discovered) && |discovered| <= |Tiles(b)| + 1
    ensures |expanded + [end]| <= |discovered| && expanded + [end] == discovered[..|expanded + [end]|]
    ensures |discovered| > 0 && discovered[0] == start
    ensures forall t :: t in discovered ==> t == start || Reachable(b, start, t)
    ensures Elems(p) <= Elems(discovered) && |expanded + [end]| > 0 && (expanded + [end])[|expanded + [end]| - 1] == end
  {
    DiscoveredBound(b, start, open, cameFrom, discovered, expanded);
    DiscoveredReachable(b, start, open, cameFrom, depth, discovered, expanded);
  }

  /** What the ghost outputs record when the frontier runs empty. */
  lemma {:induction false} ExhaustedOutputs(b: GameBoard, start: Coord, end: Coord, cameFrom: CameFrom,
                                            depth: map<Coord, nat>, discovered: seq<Coord>, expanded: seq<Coord>)
    requires Inv(b, start, end, [], cameFrom, depth)
    requires Discovery(b, start, [], cameFrom, discovered, expanded)
    ensures !Reachable(b, start, end)
    ensures NoDup(discovered) && |discovered| <= |Tiles(b)| + 1
    ensures |expanded| <= |discovered| && expanded == discovered[..|expanded|]
    ensures |discovered| > 0 && discovered[0] == start
    ensures forall t :: t in discovered ==> t == start || Reachable(b, start, t)
    ensures expanded == discovered && forall t :: Reachable(b, start, t) ==> t in discovered
  {
    Exhausted(b, start, end, cameFrom, depth);
    DiscoveredBound(b, start, [], cameFrom, discovered, expanded);
    DiscoveredReachable(b, start, [], cameFrom, depth, discovered, expanded);
    forall t | Reachable(b, start, t) ensures t in discovered {
      assert t in Elems(discovered);
    }
  }

  /** Every discovered tile is in the search tree, hence reachable. */
  lemma {:induction false} DiscoveredReachable(b: GameBoard, start: Coord, open: seq<Coord>, cameFrom: CameFrom,
                                               depth: map<Coord, nat>, discovered: seq<Coord>, expanded: seq<Coord>)
    requires Tree(b, start, cameFrom, depth)
    requires Discovery(b, start, open, cameFrom, discovered, expanded)
    ensures forall t :: t in discovered ==> Reachable(b, start, t)
  {
    forall t | t in discovered ensures Reachable(b, start, t) {
      assert t in Elems(discovered);
      TreeKeysReachable(b, start, cameFrom, depth, t);
    }
  }

  /** One iteration that does not find `end`: `Remove(current)` drops the
      first occurrence, which is `open[0]`; then each fresh neighbour is
      appended to the frontier and given `current` as predecessor. Either a
      tile is discovered or the frontier shrinks. */
  method Expand(b: GameBoard, start: Coord, end: Coord, open: seq<Coord>, cameFrom: CameFrom,
                ghost depth: map<Coord, nat>, ghost discovered: seq<Coord>, ghost expanded: seq<Coord>)
    returns (open': seq<Coord>, cameFrom': CameFrom,
             ghost depth': map<Coord, nat>, ghost discovered': seq<Coord>, ghost expanded': seq<Coord>)
    requires Inv(b, start, end, open, cameFrom, depth)
    requires Discovery(b, start, open, cameFrom, discovered, expanded)
    requires |open| > 0 && open[0] != end
    ensures Inv(b, start, end, open', cameFrom', depth')
    ensures Discovery(b, start, open', cameFrom', discovered', expanded')
    ensures cameFrom'.Keys == cameFrom.Keys ==> |open'| < |open|
    ensures cameFrom'.Keys != cameFrom.Keys ==> |Tiles(b) - cameFrom'.Keys| < |Tiles(b) - cameFrom.Keys|
    ensures expanded' == expanded + [open[0]]
  {
    var current := open[0];
    var newTiles := Fresh(cameFrom.Keys, Neighbours(b, current));
    ExpandPreserves(b, start, end, open, cameFrom, depth, newTiles);
    open' := open[1..] + newTiles;
    cameFrom' := SetPredecessor(cameFrom, current, newTiles);
    FreshAreNew(b, cameFrom, current);
    DiscoveryStep(b, start, open, cameFrom, discovered, expanded, newTiles, cameFrom');
    DiscoveryShrinks(b, cameFrom, newTiles, cameFrom');
    depth' := Deepen(depth, depth[current], newTiles);
    discovered', expanded' := discovered + newTiles, expanded + [current];
  }

  /** Ghost bookkeeping of the discovery order: tiles leave the frontier in
      the order they entered it, and each is discovered once. */
  ghost predicate Discovery(b: GameBoard, start: Coord, open: seq<Coord>, cameFrom: CameFrom,
                            discovered: seq<Coord>, expanded: seq<Coord>)
  {
    && discovered == expanded + open
    && |discovered| > 0 && discovered[0] == start
    && NoDup(discovered) && Elems(discovered) == cameFrom.Keys
    && cameFrom.Keys <= Tiles(b) + {start}
  }

  lemma {:induction false} DiscoveryStep(b: GameBoard, start: Coord, open: seq<Coord>, cameFrom: CameFrom,
                      discovered: seq<Coord>, expanded: seq<Coord>, newTiles: seq<Coord>, cameFrom': CameFrom)
    requires Discovery(b, start, open, cameFrom, discovered, expanded)
    requires |open| > 0
    requires NoDup(newTiles) && forall n :: n in newTiles ==> n in Tiles(b) && n !in cameFrom
    requires cameFrom'.Keys == cameFrom.Keys + Elems(newTiles)
    ensures Discovery(b, start, open[1..] + newTiles, cameFrom', discovered + newTiles, expanded + [open[0]])
  {
    assert expanded + [open[0]] + (open[1..] + newTiles) == discovered + newTiles;
    NoDupAppend(discovered, newTiles);
    assert Elems(discovered + newTiles) == Elems(discovered) + Elems(newTiles);
  }

  /** Reaching `end` at the head of the frontier yields a shortest route. */
  method Found(b: GameBoard, start: Coord, end: Coord, open: seq<Coord>, cameFrom: CameFrom,
               ghost depth: map<Coord, nat>) returns (p: seq<Coord>)
    requires Inv(b, start, end, open, cameFrom, depth)
    requires |open| > 0 && open[0] == end
    ensures IsRoute(b, start, end, p)
    ensures forall w :: WalkFromTo(b, w, start, end) ==> |p| <= |w|
    ensures forall t :: t in p ==> t in cameFrom
  {
    p := RouteFromTree(b, start, end, cameFrom, depth);
    forall w | WalkFromTo(b, w, start, end) ensures |p| <= |w| {
      Shortest(b, start, end, open, cameFrom, depth, w);
    }
  }

  lemma {:induction false} DiscoveredBound(b: GameBoard, start: Coord, open: seq<Coord>, cameFrom: CameFrom,
                        discovered: seq<Coord>, expanded: seq<Coord>)
    requires Discovery(b, start, open, cameFrom, discovered, expanded)
    ensures NoDup(discovered) && |discovered| <= |Tiles(b)| + 1
    ensures |expanded| <= |discovered| && expanded == discovered[..|expanded|]
    ensures open != [] ==> expanded + [open[0]] == discovered[..|expanded| + 1]
  {
    NoDupCard(discovered);
    SubsetCard(cameFrom.Keys, Tiles(b) + {start});
  }

  /** One expansion of `open[0]` keeps the invariant. */
  lemma {:induction false} ExpandPreserves(b: GameBoard, start: Coord, end: Coord, open: seq<Coord>,
                        cameFrom: CameFrom, depth: map<Coord, nat>, newTiles: seq<Coord>)
    requires Inv(b, start, end, open, cameFrom, depth)
    requires |open| > 0 && open[0] != end
    requires newTiles == Fresh(cameFrom.Keys, Neighbours(b, open[0]))
    ensures Inv(b, start, end, open[1..] + newTiles,
                SetPredecessor(cameFrom, open[0], newTiles),
                Deepen(depth, depth[open[0]], newTiles))
  {
    var current := open[0];
    TreeExtend(b, start, cameFrom, depth, current, newTiles);
    NoDupAppend(open[1..], newTiles);
    LayeredStep(open, depth, newTiles);
    ExpandedNearStep(b, open, cameFrom, depth, newTiles);
    ExpandedBehindStep(open, cameFrom, depth, newTiles);
  }

  lemma {:induction false} LayeredStep(open: seq<Coord>, depth: map<Coord, nat>, newTiles: seq<Coord>)
    requires Layered(open, depth) && |open| > 0
    requires forall n :: n in newTiles ==> n !in depth
    ensures Layered(open[1..] + newTiles, Deepen(depth, depth[open[0]], newTiles))
  {
    var d := depth[open[0]];
    var open' := open[1..] + newTiles;
    var depth' := Deepen(depth, d, newTiles);
    assert forall i :: 0 <= i < |open'| ==> depth'[open'[i]] == (if i < |open| - 1 then depth[open[i + 1]] else d + 1);
    assert forall i :: 1 <= i < |open| ==> d <= depth[open[i]] <= d + 1;
  }

  lemma {:induction false} ExpandedNearStep(b: GameBoard, open: seq<Coord>, cameFrom: CameFrom, depth: map<Coord, nat>, newTiles: seq<Coord>)
    requires |open| > 0 && open[0] in cameFrom
    requires cameFrom.Keys == depth.Keys
    requires forall k :: k in open ==> k in cameFrom
    requires Layered(open, depth)
    requires ExpandedBehind(open, cameFrom, depth)
    requires ExpandedNear(b, open, cameFrom, depth)
    requires newTiles == Fresh(cameFrom.Keys, Neighbours(b, open[0]))
    ensures ExpandedNear(b, open[1..] + newTiles,
                         SetPredecessor(cameFrom, open[0], newTiles),
                         Deepen(depth, depth[open[0]], newTiles))
  {
    var current := open[0];
    var d := depth[current];
    var open' := open[1..] + newTiles;
    var cameFrom' := SetPredecessor(cameFrom, current, newTiles);
    var depth' := Deepen(depth, d, newTiles);
    forall k, n | k in cameFrom' && k !in open' && IsStep(b, k, n)
      ensures n in cameFrom' && k in depth' && n in depth' && depth'[n] <= depth'[k] + 1
    {
      if k == current {
        assert n in Neighbours(b, current);
        if n !in newTiles {
          assert n in cameFrom;
          if n !in open {
            assert depth[n] <= d;
          } else {
            assert depth[n] <= d + 1;
          }
        }
      } else {
        assert k !in newTiles;
        assert k in cameFrom && k !in open;
      }
    }
  }

  lemma {:induction false} ExpandedBehindStep(open: seq<Coord>, cameFrom: CameFrom, depth: map<Coord, nat>, newTiles: seq<Coord>)
    requires |open| > 0 && open[0] in cameFrom
    requires cameFrom.Keys == depth.Keys
    requires forall k :: k in open ==> k in cameFrom
    requires forall n :: n in newTiles ==> n !in cameFrom
    requires Layered(open, depth)
    requires ExpandedBehind(open, cameFrom, depth)
    ensures ExpandedBehind(open[1..] + newTiles,
                           SetPredecessor(cameFrom, open[0], newTiles),
                           Deepen(depth, depth[open[0]], newTiles))
  {
    var current := open[0];
    var d := depth[current];
    var open' := open[1..] + newTiles;
    var cameFrom' := SetPredecessor(cameFrom, current, newTiles);
    var depth' := Deepen(depth, d, newTiles);
    if |open'| > 0 {
      assert d <= depth'[open'[0]] by {
        if |open| > 1 {
          assert open'[0] == open[1];
          assert depth[open[0]] <= depth[open[1]];
        } else {
          assert open'[0] in newTiles;
        }
      }
      forall k | k in cameFrom' && k !in open'
        ensures k in depth' && open'[0] in depth' && depth'[k] <= depth'[open'[0]]
      {
        if k != current {
          assert k !in newTiles;
          assert k in cameFrom && k !in open;
        }
      }
    }
  }

  /** When `end` is at the head of the frontier, its depth is at most the
      number of steps of any walk from `start` to `end`. */
  lemma {:induction false} Shortest(b: GameBoard, start: Coord, end: Coord, open: seq<Coord>,
                 cameFrom: CameFrom, depth: map<Coord, nat>, w: seq<Coord>)
    requires Inv(b, start, end, open, cameFrom, depth)
    requires |open| > 0 && open[0] == end
    requires WalkFromTo(b, w, start, end)
    ensures depth[end] <= |w| - 1
  {
    ShortestFrom(b, start, end, open, cameFrom, depth, w, 0);
  }

  lemma {:induction false} ShortestFrom(b: GameBoard, start: Coord, end: Coord, open: seq<Coord>,
                                        cameFrom: CameFrom, depth: map<Coord, nat>, w: seq<Coord>, i: nat)
    requires Inv(b, start, end, open, cameFrom, depth)
    requires |open| > 0 && open[0] == end
    requires WalkFromTo(b, w, start, end)
    requires i < |w| && w[i] in cameFrom && depth[w[i]] <= i
    ensures depth[end] <= |w| - 1
    decreases |w| - i
  {
    if w[i] in open {
      var j :| 0 <= j < |open| && open[j] == w[i];
      assert depth[open[0]] <= depth[open[j]];
    } else {
      assert i < |w| - 1;
      assert IsStep(b, w[i], w[i + 1]);
      ShortestFrom(b, start, end, open, cameFrom, depth, w, i + 1);
    }
  }
}
