/** Greedy best-first search (GreedyBest.cs): the frontier is a dictionary
    from tile to heuristic distance, re-sorted by that distance after every
    expansion, and the tile taken is the first one the dictionary
    enumerates. */
module GreedyBestSearch {
  import opened Wrappers
  import opened Seqs
  import opened Board
  import opened Pathfinders
  import opened Dictionaries
  import opened StableSort

  /** The entries `open.Add(next, GetHeuristicDistance(end, next))` adds, in order. */
  function Weigh(end: Coord, tiles: seq<Coord>): (r: seq<Entry<Coord, int>>)
    ensures KeysOf(r) == tiles
    ensures forall e :: e in r ==> e.value == Heuristic(end, e.key)
  {
    if tiles == [] then []
    else
      var r := [Entry(tiles[0], Heuristic(end, tiles[0]))] + Weigh(end, tiles[1..]);
      assert KeysOf(r) == tiles by {
        assert forall i :: 0 < i < |r| ==> r[i] == Weigh(end, tiles[1..])[i - 1];
      }
      r
  }

  /** Every frontier entry other than `start`'s is weighted by its heuristic
      distance to `end`. */
  ghost predicate Weighted(start: Coord, end: Coord, open: seq<Entry<Coord, int>>) {
    forall e :: e in open && e.key != start ==> e.value == Heuristic(end, e.key)
  }

  /** The state at the top of the search loop, stated on the enumeration
      order `open` of the frontier dictionary. */
  ghost predicate Inv(b: GameBoard, start: Coord, end: Coord, open: seq<Entry<Coord, int>>,
                      cameFrom: CameFrom, depth: map<Coord, nat>)
  {
    && Tree(b, start, cameFrom, depth)
    && cameFrom.Keys <= Tiles(b) + {start}
    && NoDup(KeysOf(open))
    && (forall k :: k in KeysOf(open) ==> k in cameFrom)
    && SortedByValue(open)
    && Weighted(start, end, open)
    // the entry `{ start, 0 }` is alone in the dictionary it was built in
    && (start in KeysOf(open) ==> open == [Entry(start, 0)])
    && ExpandedClosed(b, cameFrom, Elems(KeysOf(open)))
    // `end` is returned as soon as it is taken from the frontier
    && (end in cameFrom ==> end in KeysOf(open))
  }

  /** `TryFindPath`. A request from a tile to itself fails. Otherwise the
      result is a route exactly when `end` is reachable. The ghost `items`
      is the enumeration order of `open`, which is always the dictionary
      `ToDictionary` (or the initializer) built from it. */
  method TryFindPath(b: GameBoard, start: Coord, end: Coord) returns (path: Option<seq<Coord>>)
    ensures start == end ==> path == None
    ensures path.Some? ==> IsRoute(b, start, end, path.value)
    ensures start != end ==> (path.Some? <==> Reachable(b, start, end))
  {
    if start == end {
      return None;
    }
    ghost var items := [Entry(start, 0)];
    assert KeysOf(items) == [start];
    var open := FromItems([Entry(start, 0)]);
    var cameFrom: CameFrom := map[start := None];
    ghost var depth: map<Coord, nat> := map[start := 0];
    Initial(b, start, end);
    while Size(open) > 0
      invariant Inv(b, start, end, items, cameFrom, depth)
      invariant open == FromItems(items)
      decreases |Tiles(b) - cameFrom.Keys|, |items|
    {
      var current := Keys(open)[0];
      open := Remove(open, current);
      if current == end {
        var p := RouteFromTree(b, start, end, cameFrom, depth);
        return Some(p);
      }
      open, cameFrom, depth, items := Expand(b, start, end, open, current, cameFrom, depth, items);
    }
    Exhausted(b, start, end, cameFrom, depth);
    return None;
  }

  /** One iteration that does not find `end`, after `open.Remove(current)`:
      each fresh neighbour is added with its heuristic distance and given
      `current` as predecessor, and the dictionary is rebuilt sorted by
      distance. The first new entry takes the slot `current` freed, so among
      tiles at equal distance it is enumerated before the older ones; the
      other new entries come after them. */
  method Expand(b: GameBoard, start: Coord, end: Coord, open: Dict<Coord, int>, current: Coord, cameFrom: CameFrom,
                ghost depth: map<Coord, nat>, ghost items: seq<Entry<Coord, int>>)
    returns (open': Dict<Coord, int>, cameFrom': CameFrom,
             ghost depth': map<Coord, nat>, ghost items': seq<Entry<Coord, int>>)
    requires Inv(b, start, end, items, cameFrom, depth)
    requires |items| > 0 && current == items[0].key && current != end
    requires open == Remove(FromItems(items), current)
    ensures Inv(b, start, end, items', cameFrom', depth')
    ensures open' == FromItems(items')
    ensures var es := Weigh(end, Fresh(cameFrom.Keys, Neighbours(b, items[0].key)));
            items' == SortByValue(Refilled(items[1..], es))
    ensures cameFrom'.Keys == cameFrom.Keys ==> |items'| < |items|
    ensures cameFrom'.Keys != cameFrom.Keys ==> |Tiles(b) - cameFrom'.Keys| < |Tiles(b) - cameFrom.Keys|
  {
    var newTiles := Fresh(cameFrom.Keys, Neighbours(b, current));
    var es := Weigh(end, newTiles);
    FreshAreNew(b, cameFrom, current);
    RestAreOld(start, end, items, cameFrom, depth, b, newTiles);
    RefillFirst(items, es);
    var added := AddAll(open, es);
    ghost var next := Refilled(items[1..], es);
    assert Items(added.slots) == next;
    NextContents(items[1..], es);
    SortKeepsKeysDistinct(next);
    items' := SortByValue(next);
    open' := FromItems(SortByValue(Items(added.slots)));
    cameFrom' := SetPredecessor(cameFrom, current, newTiles);
    depth' := Deepen(depth, depth[current], newTiles);
    ExpandPreserves(b, start, end, items, cameFrom, depth, newTiles);
    DiscoveryShrinks(b, cameFrom, newTiles, cameFrom');
  }

  /** The tiles left in the frontier after `current` are none of the fresh
      neighbours, so `open.Add` never meets a present key. */
  lemma {:induction false} RestAreOld(start: Coord, end: Coord, items: seq<Entry<Coord, int>>, cameFrom: CameFrom,
                   depth: map<Coord, nat>, b: GameBoard, newTiles: seq<Coord>)
    requires Inv(b, start, end, items, cameFrom, depth)
    requires |items| > 0
    requires NoDup(newTiles) && forall n :: n in newTiles ==> n !in cameFrom
    ensures forall k :: k in KeysOf(Weigh(end, newTiles)) ==> k !in KeysOf(items[1..])
    ensures NoDup(KeysOf(items[1..]) + newTiles)
  {
    assert KeysOf(items) == [items[0].key] + KeysOf(items[1..]);
    NoDupAppend([items[0].key], KeysOf(items[1..]));
    NoDupAppend(KeysOf(items[1..]), newTiles);
  }

  /** What the rebuilt frontier holds: the old entries but the first, and the
      new ones, each key once. */
  lemma {:induction false} NextContents(rest: seq<Entry<Coord, int>>, es: seq<Entry<Coord, int>>)
    requires NoDup(KeysOf(rest) + KeysOf(es))
    ensures NoDup(KeysOf(Refilled(rest, es)))
    ensures forall e :: e in SortByValue(Refilled(rest, es)) <==> e in rest || e in es
    ensures forall k :: k in KeysOf(SortByValue(Refilled(rest, es))) <==> k in KeysOf(rest) || k in KeysOf(es)
    ensures |SortByValue(Refilled(rest, es))| == |rest| + |es|
  {
    var next := Refilled(rest, es);
    NoDupPermutation(KeysOf(rest) + KeysOf(es), KeysOf(next));
    SortedEntries(next, rest, es);
    SortedKeys(next, KeysOf(rest), KeysOf(es));
  }

  lemma {:induction false} SortedEntries(next: seq<Entry<Coord, int>>, rest: seq<Entry<Coord, int>>, es: seq<Entry<Coord, int>>)
    requires multiset(next) == multiset(rest) + multiset(es)
    ensures forall e :: e in SortByValue(next) <==> e in rest || e in es
    ensures |SortByValue(next)| == |rest| + |es|
  {
    var sorted := SortByValue(next);
    SortPermutes(next);
    assert forall e :: e in sorted <==> e in multiset(sorted);
    assert forall e :: e in rest <==> e in multiset(rest);
    assert forall e :: e in es <==> e in multiset(es);
    assert |sorted| == |multiset(sorted)|;
  }

  lemma {:induction false} SortedKeys(next: seq<Entry<Coord, int>>, a: seq<Coord>, b: seq<Coord>)
    requires multiset(KeysOf(next)) == multiset(a) + multiset(b)
    ensures forall k :: k in KeysOf(SortByValue(next)) <==> k in a || k in b
  {
    var keys := KeysOf(SortByValue(next));
    SortKeys(next);
    assert forall k :: k in keys <==> k in multiset(keys);
    assert forall k :: k in a <==> k in multiset(a);
    assert forall k :: k in b <==> k in multiset(b);
  }

  /** One expansion of the first entry keeps the invariant. */
  lemma {:induction false} ExpandPreserves(b: GameBoard, start: Coord, end: Coord, items: seq<Entry<Coord, int>>,
                        cameFrom: CameFrom, depth: map<Coord, nat>, newTiles: seq<Coord>)
    requires Inv(b, start, end, items, cameFrom, depth)
    requires |items| > 0 && items[0].key != end
    requires newTiles == Fresh(cameFrom.Keys, Neighbours(b, items[0].key))
    ensures Inv(b, start, end, SortByValue(Refilled(items[1..], Weigh(end, newTiles))),
                SetPredecessor(cameFrom, items[0].key, newTiles),
                Deepen(depth, depth[items[0].key], newTiles))
  {
    var current := items[0].key;
    var es := Weigh(end, newTiles);
    var items' := SortByValue(Refilled(items[1..], es));
    var cameFrom' := SetPredecessor(cameFrom, current, newTiles);
    FreshAreNew(b, cameFrom, current);
    RestAreOld(start, end, items, cameFrom, depth, b, newTiles);
    NextContents(items[1..], es);
    SortKeepsKeysDistinct(Refilled(items[1..], es));
    SortSorted(Refilled(items[1..], es));
    TreeExtend(b, start, cameFrom, depth, current, newTiles);
    assert KeysOf(items) == [current] + KeysOf(items[1..]);
    assert forall e :: e in items[1..] ==> e in items;
    assert Weighted(start, end, items');
    assert start in KeysOf(items) ==> items[1..] == [];
    ExpandedClosedStep(b, cameFrom, Elems(KeysOf(items)), current, newTiles, cameFrom', Elems(KeysOf(items')));
  }

  /** The state before the first iteration: the dictionary `{ start, 0 }`. */
  lemma {:induction false} Initial(b: GameBoard, start: Coord, end: Coord)
    requires start != end
    ensures Inv(b, start, end, [Entry(start, 0)], map[start := None], map[start := 0])
  {
    assert KeysOf([Entry(start, 0)]) == [start];
  }

  /** An emptied frontier means every discovered tile was expanded, so the
      discovered set is closed under steps and `end`, never found, is out of
      reach. The shared argument is
      `Pathfinders.ClosedSetBlocks`; this lemma only supplies this search's
      invariant to it. */
  lemma {:induction false} Exhausted(b: GameBoard, start: Coord, end: Coord, cameFrom: CameFrom, depth: map<Coord, nat>)
    requires Inv(b, start, end, [], cameFrom, depth)
    ensures !Reachable(b, start, end)
  {
    ClosedSetBlocks(b, cameFrom.Keys, start, end);
  }

  /** The greedy choice: the tile taken from the frontier is one of those
      closest to `end` by the heuristic. */
  lemma {:induction false} GreedyChoice(b: GameBoard, start: Coord, end: Coord, items: seq<Entry<Coord, int>>,
                     cameFrom: CameFrom, depth: map<Coord, nat>)
    requires Inv(b, start, end, items, cameFrom, depth)
    requires |items| > 0
    ensures forall k :: k in KeysOf(items) ==> Heuristic(end, items[0].key) <= Heuristic(end, k)
  {
    if start !in KeysOf(items) {
      forall k | k in KeysOf(items) ensures Heuristic(end, items[0].key) <= Heuristic(end, k) {
        var i :| 0 <= i < |items| && KeysOf(items)[i] == k;
        assert items[0] in items && items[i] in items;
        assert items[0].value <= items[i].value;
      }
    }
  }
}
