/** A* search (AStar.cs): an `open` list, `cameFrom`, the g and h cost maps
    and an f-cost dictionary from which the tile with the least (f, h) pair
    is taken. The cost of a step is the heuristic distance of the tile
    stepped to, not 1, so the route found is not always a shortest one. */
module AStarSearch {
  import opened Wrappers
  import opened Seqs
  import opened Board
  import opened Pathfinders
  import opened Dictionaries

  /** The search state: `open`, `cameFrom`, `gCosts`, `hCosts`, `fCosts`. */
  datatype Search = Search(open: seq<Coord>, cameFrom: CameFrom,
                           g: map<Coord, int>, h: map<Coord, int>, f: Dict<Coord, int>)

  /** `TryAdd(k, 0)`. */
  function TryAddZero(m: map<Coord, int>, k: Coord): map<Coord, int> {
    if k in m then m else m[k := 0]
  }

  /** One pass of the inner loop for neighbour `next` of `current`. */
  function Relax(s: Search, end: Coord, current: Coord, next: Coord): (r: Search)
    requires Dictionaries.Valid(s.f) && current in s.g
    ensures Dictionaries.Valid(r.f) && current in r.g
  {
    if next in s.cameFrom then s
    else
      var newCost := s.g[current] + Heuristic(end, next);
      var g := TryAddZero(s.g, next);
      var h := TryAddZero(s.h, next);
      if newCost >= g[next] && next in s.open then Search(s.open, s.cameFrom, g, h, s.f)
      else
        var g' := g[next := newCost];
        var h' := h[next := Heuristic(end, next)];
        Search(if next in s.open then s.open else s.open + [next],
               s.cameFrom[next := Some(current)], g', h', Set(s.f, next, g'[next] + h'[next]))
  }

  /** The inner `foreach` over the neighbours `ns` of `current`. */
  function RelaxAll(s: Search, end: Coord, current: Coord, ns: seq<Coord>): (r: Search)
    requires Dictionaries.Valid(s.f) && current in s.g
    ensures Dictionaries.Valid(r.f) && current in r.g
    decreases |ns|
  {
    if ns == [] then s else RelaxAll(Relax(s, end, current, ns[0]), end, current, ns[1..])
  }

  /** Costs for newly discovered tiles: `base` plus each tile's heuristic
      distance to `end`. */
  function Charge(m: map<Coord, int>, base: int, end: Coord, tiles: seq<Coord>): (r: map<Coord, int>)
    ensures r.Keys == m.Keys + Elems(tiles)
    ensures forall k :: k in m && k !in tiles ==> r[k] == m[k]
    ensures forall n :: n in tiles ==> r[n] == base + Heuristic(end, n)
    decreases |tiles|
  {
    if tiles == [] then m
    else
      assert Elems(tiles) == {tiles[0]} + Elems(tiles[1..]);
      Charge(m[tiles[0] := base + Heuristic(end, tiles[0])], base, end, tiles[1..])
  }

  /** The f-cost entries stored for newly discovered tiles, in order:
      f = g + h where g = `gc` + h. */
  function Costed(end: Coord, gc: int, tiles: seq<Coord>): (r: seq<Entry<Coord, int>>)
    ensures KeysOf(r) == tiles
    ensures forall e :: e in r ==> e.value == gc + Heuristic(end, e.key) + Heuristic(end, e.key)
  {
    if tiles == [] then []
    else
      var e := Entry(tiles[0], gc + Heuristic(end, tiles[0]) + Heuristic(end, tiles[0]));
      var r := [e] + Costed(end, gc, tiles[1..]);
      assert KeysOf(r) == tiles by {
        assert forall i :: 0 < i < |r| ==> r[i] == Costed(end, gc, tiles[1..])[i - 1];
      }
      r
  }

  /** The costs, f entries and `open` and `cameFrom` entries are each keyed
      by discovered tiles. */
  ghost predicate Keyed(s: Search) {
    && s.g.Keys == s.cameFrom.Keys && s.h.Keys == s.cameFrom.Keys
    && (forall k :: k in s.open ==> k in s.cameFrom)
    && Dictionaries.Valid(s.f)
    && (forall k :: ContainsKey(s.f, k) ==> k in s.cameFrom)
  }

  /** The inner loop's effect on a neighbour `n` not yet in `cameFrom`:
      g = g[current] + h, h = its heuristic distance, f = g + h. */
  function Visit(s: Search, end: Coord, current: Coord, n: Coord): Search
    requires current in s.g && FreeOk(s.f) && !ContainsKey(s.f, n)
  {
    var gc := s.g[current];
    Search(s.open + [n], s.cameFrom[n := Some(current)], s.g[n := gc + Heuristic(end, n)],
           s.h[n := 0 + Heuristic(end, n)], Add(s.f, n, gc + Heuristic(end, n) + Heuristic(end, n)))
  }

  /** What the inner loop amounts to once every neighbour in `cameFrom` is
      skipped: each fresh tile is costed, appended to `open`, given `current`
      as predecessor and added to `fCosts`, in neighbour order. */
  function Discover(s: Search, end: Coord, current: Coord, newTiles: seq<Coord>): Search
    requires current in s.g && FreeOk(s.f)
    requires NoDup(newTiles) && forall n :: n in newTiles ==> !ContainsKey(s.f, n)
  {
    Search(s.open + newTiles, SetPredecessor(s.cameFrom, current, newTiles),
           Charge(s.g, s.g[current], end, newTiles), Charge(s.h, 0, end, newTiles),
           AddAll(s.f, Costed(end, s.g[current], newTiles)))
  }

  /** Visit-once: a neighbour already in `cameFrom` is skipped, and one that
      is not cannot be in `open`, so the "cheaper cost" skip never fires,
      `TryAdd` always adds and `fCosts[next] = …` always adds. No entry of
      `cameFrom` or the cost maps is ever overwritten. */
  lemma {:induction false} RelaxAllDiscovers(s: Search, end: Coord, current: Coord, ns: seq<Coord>)
    requires Keyed(s) && current in s.cameFrom
    ensures forall n :: n in Fresh(s.cameFrom.Keys, ns) ==> !ContainsKey(s.f, n)
    ensures RelaxAll(s, end, current, ns) == Discover(s, end, current, Fresh(s.cameFrom.Keys, ns))
    decreases |ns|
  {
    if ns != [] {
      var n := ns[0];
      if n in s.cameFrom {
        RelaxAllDiscovers(s, end, current, ns[1..]);
      } else {
        assert !ContainsKey(s.f, n);
        RelaxFresh(s, end, current, n);
        VisitKeyed(s, end, current, n);
        var s1 := Visit(s, end, current, n);
        RelaxAllDiscovers(s1, end, current, ns[1..]);
        assert s1.cameFrom.Keys == s.cameFrom.Keys + {n};
        DiscoverCons(s, end, current, n, Fresh(s.cameFrom.Keys + {n}, ns[1..]));
      }
    }
  }

  /** The skip at `newCost >= gCosts[next] && open.Contains(next)` cannot
      fire for a tile missing from `cameFrom`. */
  lemma {:induction false} RelaxFresh(s: Search, end: Coord, current: Coord, n: Coord)
    requires Keyed(s) && current in s.cameFrom && n !in s.cameFrom
    ensures !ContainsKey(s.f, n)
    ensures Relax(s, end, current, n) == Visit(s, end, current, n)
  {
    assert n !in s.open;
    var gc := s.g[current];
    assert s.g[n := 0][n := gc + Heuristic(end, n)] == s.g[n := gc + Heuristic(end, n)];
    assert s.h[n := 0][n := Heuristic(end, n)] == s.h[n := 0 + Heuristic(end, n)];
  }

  lemma {:induction false} VisitKeyed(s: Search, end: Coord, current: Coord, n: Coord)
    requires Keyed(s) && current in s.cameFrom && n !in s.cameFrom
    ensures !ContainsKey(s.f, n)
    ensures Keyed(Visit(s, end, current, n)) && current in Visit(s, end, current, n).cameFrom
  {
  }

  /** Discovering `n` and then `tail` is discovering `[n] + tail`. */
  lemma {:induction false} DiscoverCons(s: Search, end: Coord, current: Coord, n: Coord, tail: seq<Coord>)
    requires current in s.g && current != n && FreeOk(s.f) && !ContainsKey(s.f, n)
    requires NoDup(tail) && forall t :: t in tail ==> t != n && !ContainsKey(Visit(s, end, current, n).f, t)
    ensures NoDup([n] + tail) && forall t :: t in [n] + tail ==> !ContainsKey(s.f, t)
    ensures Discover(Visit(s, end, current, n), end, current, tail) == Discover(s, end, current, [n] + tail)
  {
    var gc := s.g[current];
    var s1 := Visit(s, end, current, n);
    assert s1.g == s.g[n := gc + Heuristic(end, n)] && s1.g[current] == gc;
    assert s1.h == s.h[n := 0 + Heuristic(end, n)];
    assert s1.f == Add(s.f, n, gc + Heuristic(end, n) + Heuristic(end, n));
    assert s1.cameFrom == s.cameFrom[n := Some(current)];
    assert s1.open + tail == s.open + ([n] + tail);
    NoDupAppend([n], tail);
    PredecessorCons(s.cameFrom, current, n, tail);
    ChargeCons(s.g, gc, end, n, tail);
    ChargeCons(s.h, 0, end, n, tail);
    CostedAddCons(s.f, end, gc, n, tail);
    var lhs := Discover(s1, end, current, tail);
    var rhs := Discover(s, end, current, [n] + tail);
    assert lhs.open == rhs.open;
    assert lhs.cameFrom == rhs.cameFrom;
    assert lhs.g == Charge(s1.g, gc, end, tail) == rhs.g;
    assert lhs.h == Charge(s1.h, 0, end, tail) == rhs.h;
    assert lhs.f == AddAll(s1.f, Costed(end, gc, tail)) == rhs.f;
  }

  lemma {:induction false} PredecessorCons(cameFrom: CameFrom, current: Coord, n: Coord, tail: seq<Coord>)
    ensures SetPredecessor(cameFrom[n := Some(current)], current, tail) == SetPredecessor(cameFrom, current, [n] + tail)
  {
  }

  lemma {:induction false} ChargeCons(m: map<Coord, int>, base: int, end: Coord, n: Coord, tail: seq<Coord>)
    ensures Charge(m[n := base + Heuristic(end, n)], base, end, tail) == Charge(m, base, end, [n] + tail)
  {
    var t := [n] + tail;
    assert t[0] == n && t[1..] == tail;
    ChargeStep(m, base, end, t);
  }

  lemma {:induction false} ChargeStep(m: map<Coord, int>, base: int, end: Coord, tiles: seq<Coord>)
    requires tiles != []
    ensures Charge(m, base, end, tiles) == Charge(m[tiles[0] := base + Heuristic(end, tiles[0])], base, end, tiles[1..])
  {
  }

  /** Adding `n`'s f-cost entry and then those of `tail` is adding the
      entries of `[n] + tail`. */
  lemma {:induction false} CostedAddCons(d: Dict<Coord, int>, end: Coord, gc: int, n: Coord, tail: seq<Coord>)
    requires FreeOk(d) && !ContainsKey(d, n)
    requires NoDup(tail)
    requires forall t :: t in tail ==> t != n && !ContainsKey(Add(d, n, gc + Heuristic(end, n) + Heuristic(end, n)), t)
    ensures NoDup([n] + tail) && forall t :: t in [n] + tail ==> !ContainsKey(d, t)
    ensures AddAll(Add(d, n, gc + Heuristic(end, n) + Heuristic(end, n)), Costed(end, gc, tail))
         == AddAll(d, Costed(end, gc, [n] + tail))
  {
    NoDupAppend([n], tail);
    CostedCons(end, gc, n, tail);
    AddAllCons(d, Entry(n, gc + Heuristic(end, n) + Heuristic(end, n)), Costed(end, gc, tail));
  }

  lemma {:induction false} CostedCons(end: Coord, gc: int, n: Coord, tail: seq<Coord>)
    ensures Costed(end, gc, [n] + tail) == [Entry(n, gc + Heuristic(end, n) + Heuristic(end, n))] + Costed(end, gc, tail)
  {
    assert ([n] + tail)[1..] == tail;
  }

  /** The cost bookkeeping: `start` costs nothing; any other discovered tile
      has h = its heuristic distance to `end` and g = its predecessor's g
      plus that distance. All costs are non-negative. */
  ghost predicate Costs(start: Coord, end: Coord, s: Search)
    requires s.g.Keys == s.cameFrom.Keys && s.h.Keys == s.cameFrom.Keys
  {
    && start in s.g && s.g[start] == 0 && s.h[start] == 0
    && (forall k :: k in s.g ==> s.g[k] >= 0 && s.h[k] >= 0)
    && forall k :: k in s.cameFrom && k != start && s.cameFrom[k].Some? && s.cameFrom[k].value in s.g ==>
         s.h[k] == Heuristic(end, k) && s.g[k] == s.g[s.cameFrom[k].value] + Heuristic(end, k)
  }

  /** Every enumerated `fCosts` entry stores g + h of its tile. */
  ghost predicate FCosts(s: Search)
    requires s.g.Keys == s.h.Keys
  {
    forall e :: e in Items(s.f.slots) ==> e.key in s.g && e.value == s.g[e.key] + s.h[e.key]
  }

  /** The state at the top of the search loop. */
  ghost predicate Inv(b: GameBoard, start: Coord, end: Coord, s: Search, depth: map<Coord, nat>) {
    && Tree(b, start, s.cameFrom, depth)
    && s.cameFrom.Keys <= Tiles(b) + {start}
    && Keyed(s)
    && Costs(start, end, s)
    && NoDup(s.open)
    // the key set of `fCosts` is the set of tiles in `open`
    && (forall k :: ContainsKey(s.f, k) <==> k in s.open)
    && FCosts(s)
    && ExpandedClosed(b, s.cameFrom, Elems(s.open))
    // `end` is returned as soon as it is selected
    && (end in s.cameFrom ==> end in s.open)
  }

  /** Strictly preferred by `OrderBy(f).ThenBy(h)`. */
  predicate Better(a: Entry<Coord, int>, c: Entry<Coord, int>, h: map<Coord, int>)
    requires a.key in h && c.key in h
  {
    a.value < c.value || (a.value == c.value && h[a.key] < h[c.key])
  }

  /** `fCosts.OrderBy(n => n.Value).ThenBy(n => hCosts[n.Key]).First()`.
      Both sorts are stable, so the first entry of the sorted sequence is the
      first entry, in enumeration order, with the least (f, h) pair: no entry
      is preferred to it and every earlier entry is strictly worse. The
      lookup `hCosts[n.Key]` throws for a key missing from `hCosts`. */
  method SelectCurrent(items: seq<Entry<Coord, int>>, h: map<Coord, int>) returns (i: nat)
    requires |items| > 0 && forall e :: e in items ==> e.key in h
    ensures i < |items|
    ensures forall j :: 0 <= j < |items| ==> !Better(items[j], items[i], h)
    ensures forall j :: 0 <= j < i ==> Better(items[i], items[j], h)
  {
    i := 0;
    var j := 1;
    while j < |items|
      invariant 1 <= j <= |items| && i < j
      invariant forall k :: 0 <= k < j ==> !Better(items[k], items[i], h)
      invariant forall k :: 0 <= k < i ==> Better(items[i], items[k], h)
    {
      if Better(items[j], items[i], h) {
        i := j;
      }
      j := j + 1;
    }
  }

  /** `TryFindPath`. A request from a tile to itself fails. Otherwise the
      result is a route exactly when `end` is reachable. */
  method TryFindPath(b: GameBoard, start: Coord, end: Coord) returns (path: Option<seq<Coord>>)
    ensures start == end ==> path == None
    ensures path.Some? ==> IsRoute(b, start, end, path.value)
    ensures start != end ==> (path.Some? <==> Reachable(b, start, end))
  {
    if start == end {
      return None;
    }
    var s := Initial(b, start, end);
    ghost var depth: map<Coord, nat> := map[start := 0];
    while |s.open| > 0
      invariant Inv(b, start, end, s, depth)
      decreases |Tiles(b) - s.cameFrom.Keys|, |s.open|
    {
      var items := Items(s.f.slots);
      ItemsNonEmpty(s.f, s.open[0]);
      forall e | e in items ensures e.key in s.h {
        ItemsKeyed(s.f, e);
      }
      var i := SelectCurrent(items, s.h);
      var current := items[i].key;
      ItemsKeyed(s.f, items[i]);
      if current == end {
        var p := RouteFromTree(b, start, end, s.cameFrom, depth);
        return Some(p);
      }
      s, depth := Step(b, start, end, s, depth, current);
    }
    Exhausted(b, start, end, s, depth);
    return None;
  }

  /** The state before the first iteration: `start` alone, at cost 0. */
  method Initial(b: GameBoard, start: Coord, end: Coord) returns (s: Search)
    requires start != end
    ensures Inv(b, start, end, s, map[start := 0])
    ensures s.open == [start] && s.cameFrom == map[start := None]
    ensures s.g == map[start := 0] && s.h == map[start := 0] && Items(s.f.slots) == [Entry(start, 0)]
  {
    assert KeysOf([Entry(start, 0)]) == [start];
    var f := FromItems([Entry(start, 0)]);
    assert f.slots == [Some(Entry(start, 0))];
    s := Search([start], map[start := None], map[start := 0], map[start := 0], f);
    forall k ensures ContainsKey(s.f, k) <==> k in s.open {
      assert SlotOf(f.slots, k) == if k == start then Some(0) else None;
    }
  }

  /** One iteration that does not find `end`: `current` leaves `open` and
      `fCosts`, then its neighbours are relaxed. */
  method Step(b: GameBoard, start: Coord, end: Coord, s: Search, ghost depth: map<Coord, nat>, current: Coord)
    returns (s': Search, ghost depth': map<Coord, nat>)
    requires Inv(b, start, end, s, depth)
    requires ContainsKey(s.f, current) && current != end
    ensures Inv(b, start, end, s', depth')
    ensures s'.cameFrom.Keys == s.cameFrom.Keys ==> |s'.open| < |s.open|
    ensures s'.cameFrom.Keys != s.cameFrom.Keys ==> |Tiles(b) - s'.cameFrom.Keys| < |Tiles(b) - s.cameFrom.Keys|
  {
    var s1 := Search(RemoveFirst(s.open, current), s.cameFrom, s.g, s.h, Remove(s.f, current));
    RemoveFirstNoDup(s.open, current);
    assert Keyed(s1);
    ghost var newTiles := Fresh(s.cameFrom.Keys, Neighbours(b, current));
    s' := RelaxAll(s1, end, current, Neighbours(b, current));
    RelaxAllDiscovers(s1, end, current, Neighbours(b, current));
    FreshAreNew(b, s.cameFrom, current);
    depth' := Deepen(depth, depth[current], newTiles);
    StepPreserves(b, start, end, s, depth, current, s1, newTiles);
    DiscoveryShrinks(b, s.cameFrom, newTiles, s'.cameFrom);
  }

  lemma {:induction false} StepPreserves(b: GameBoard, start: Coord, end: Coord, s: Search, depth: map<Coord, nat>,
                                         current: Coord, s1: Search, newTiles: seq<Coord>)
    requires Inv(b, start, end, s, depth)
    requires ContainsKey(s.f, current) && current != end
    requires s1 == Search(RemoveFirst(s.open, current), s.cameFrom, s.g, s.h, Remove(s.f, current))
    requires Keyed(s1)
    requires newTiles == Fresh(s.cameFrom.Keys, Neighbours(b, current))
    ensures current in depth
    ensures Inv(b, start, end, Discover(s1, end, current, newTiles), Deepen(depth, depth[current], newTiles))
    ensures |Discover(s1, end, current, newTiles).open| == |s.open| - 1 + |newTiles|
  {
    FreshAreNew(b, s.cameFrom, current);
    RemoveFirstNoDup(s.open, current);
    var r := Discover(s1, end, current, newTiles);
    DiscoverKeyed(s1, end, current, newTiles);
    TreeExtend(b, start, s.cameFrom, depth, current, newTiles);
    NoDupAppend(s1.open, newTiles);
    CostsStep(start, end, s1, current, newTiles);
    OpenKeysStep(s, current, s1, end, newTiles);
    FCostsStep(s, current, s1, end, newTiles);
    ExpandedClosedStep(b, s.cameFrom, Elems(s.open), current, newTiles, r.cameFrom, Elems(r.open));
  }

  /** Discovering tiles keeps every map keyed by the discovered tiles. */
  lemma {:induction false} DiscoverKeyed(s: Search, end: Coord, current: Coord, newTiles: seq<Coord>)
    requires Keyed(s) && current in s.cameFrom
    requires NoDup(newTiles) && forall n :: n in newTiles ==> n !in s.cameFrom
    ensures forall n :: n in newTiles ==> !ContainsKey(s.f, n)
    ensures Keyed(Discover(s, end, current, newTiles))
    ensures forall k :: ContainsKey(Discover(s, end, current, newTiles).f, k) <==> ContainsKey(s.f, k) || k in newTiles
  {
    AddAllKeys(s.f, Costed(end, s.g[current], newTiles));
  }

  lemma {:induction false} CostsStep(start: Coord, end: Coord, s1: Search, current: Coord, newTiles: seq<Coord>)
    requires Keyed(s1) && current in s1.cameFrom && Costs(start, end, s1)
    requires forall k :: k in s1.cameFrom && s1.cameFrom[k].Some? ==> s1.cameFrom[k].value in s1.cameFrom
    requires NoDup(newTiles) && forall n :: n in newTiles ==> n !in s1.cameFrom && !ContainsKey(s1.f, n)
    ensures Costs(start, end, Discover(s1, end, current, newTiles))
  {
    var r := Discover(s1, end, current, newTiles);
    var gc := s1.g[current];
    assert r.g[current] == gc;
    forall k | k in r.cameFrom && k != start && r.cameFrom[k].Some? && r.cameFrom[k].value in r.g
      ensures r.h[k] == Heuristic(end, k) && r.g[k] == r.g[r.cameFrom[k].value] + Heuristic(end, k)
    {
      if k in newTiles {
        assert r.cameFrom[k] == Some(current);
      } else {
        var p := s1.cameFrom[k].value;
        assert r.cameFrom[k] == s1.cameFrom[k];
        assert p in s1.g && p !in newTiles;
      }
    }
  }

  lemma {:induction false} OpenKeysStep(s: Search, current: Coord, s1: Search, end: Coord, newTiles: seq<Coord>)
    requires Keyed(s) && NoDup(s.open) && (forall k :: ContainsKey(s.f, k) <==> k in s.open)
    requires ContainsKey(s.f, current)
    requires s1 == Search(RemoveFirst(s.open, current), s.cameFrom, s.g, s.h, Remove(s.f, current))
    requires Keyed(s1)
    requires NoDup(newTiles) && forall n :: n in newTiles ==> n !in s.cameFrom
    ensures var r := Discover(s1, end, current, newTiles);
            forall k :: ContainsKey(r.f, k) <==> k in r.open
  {
    RemoveFirstNoDup(s.open, current);
    DiscoverKeyed(s1, end, current, newTiles);
  }

  lemma {:induction false} FCostsStep(s: Search, current: Coord, s1: Search, end: Coord, newTiles: seq<Coord>)
    requires Keyed(s) && FCosts(s) && current in s.cameFrom
    requires s1 == Search(RemoveFirst(s.open, current), s.cameFrom, s.g, s.h, Remove(s.f, current))
    requires Keyed(s1)
    requires NoDup(newTiles) && forall n :: n in newTiles ==> n !in s.cameFrom
    ensures var r := Discover(s1, end, current, newTiles);
            r.g.Keys == r.h.Keys && FCosts(r)
  {
    var es := Costed(end, s.g[current], newTiles);
    var r := Discover(s1, end, current, newTiles);
    RemoveItems(s.f, current);
    AddAllItems(s1.f, es);
    forall e | e in Items(r.f.slots) ensures e.key in r.g && e.value == r.g[e.key] + r.h[e.key] {
      if e in Items(s1.f.slots) {
        ItemsKeyed(s.f, e);
        assert e.key !in newTiles;
      } else {
        assert e in es;
        assert e.key in KeysOf(es);
      }
    }
  }

  /** An emptied `open` list means every discovered tile was expanded, so
      `end`, never selected, is out of reach. The shared argument is
      `Pathfinders.ClosedSetBlocks`; this lemma only supplies this search's
      invariant to it. */
  lemma {:induction false} Exhausted(b: GameBoard, start: Coord, end: Coord, s: Search, depth: map<Coord, nat>)
    requires Inv(b, start, end, s, depth) && s.open == []
    ensures !Reachable(b, start, end)
  {
    ClosedSetBlocks(b, s.cameFrom.Keys, start, end);
  }
}
