# Grid pathfinding demo, modelled in Dafny

A Dafny model of the core of a Unity pathfinding demo. It has three parts:

- **The game board.** The board is a graph over a row-major grid of tiles. It has a set of obstacles, and its neighbour relation is eight- or four-connected and refuses any diagonal step that would cut a corner.
- **Three search strategies.**
  - Breadth-first uses a FIFO list.
  - Greedy best-first uses a dictionary re-sorted by the heuristic distance after each expansion.
  - A* keeps g, h and f cost maps and picks the least (f, h) pair.

  All three share the Manhattan heuristic, a `cameFrom` predecessor map that doubles as the visited set, and path reconstruction. A provider picks a strategy from the configured tag.
- **The reactive layer.** A reactive property with an ordered subscriber list. A demo controller holds optional start, end and route properties, runs a search when both endpoints are set, and re-runs it on a map change while a route is published.

Files (one module each):

| file | module | models |
|---|---|---|
| `wrappers.dfy` | `Wrappers` | `Option` (the source's nullable values) |
| `seqs.dfy` | `Seqs` | duplicate-freedom, `List.Remove`, `List.Reverse`, counting |
| `board_config.dfy` | `BoardConfig` | the configuration asset, `TileSize` fixed at 1 |
| `board.dfy` | `Board` | `GameBoard`: grid construction, passability, neighbours, obstacles |
| `pathfinder.dfy` | `Pathfinders` | heuristic, `ReconstructPath`, walks, reachability, the predecessor tree |
| `dictionaries.dfy` | `Dictionaries` | `Dictionary<K,V>`: slots and free list, hence its enumeration order |
| `stable_sort.dfy` | `StableSort` | `OrderBy(entry => entry.Value)`, a stable sort |
| `breadth_first.dfy` | `BreadthFirstSearch` | `BreadthFirst.TryFindPath` |
| `greedy_best.dfy` | `GreedyBestSearch` | `GreedyBest.TryFindPath` |
| `astar.dfy` | `AStarSearch` | `AStar.TryFindPath` |
| `provider.dfy` | `Provider` | `PathfindersProvider.Get` and the `IPathfinder` contract |
| `reactive_property.dfy` | `Reactive` | `ReactiveProperty<T>` |
| `pathfinder_demo.dfy` | `Demo` | `PathfinderDemo`: clicks, `FindPath`, `OnMapChanged` |

How the source is rendered here:

- **Searches.** Each search returns `Option<seq<Coord>>`: `None` for the source's `false` with a `null` path, and `Some(p)` for `true` with path `p`.
- **The neighbour loop.** The `foreach` over neighbours, guarded by `cameFrom.ContainsKey`, becomes `Fresh(cameFrom.Keys, neighbours)`: the neighbours that pass the guard, in order. A tile added earlier in the same loop is seen by the guard.
- **`Dictionary` order.** Greedy best-first and A* pick "the first" entry of a dictionary, so the order in which a `Dictionary` enumerates matters. The model keeps the layout of the .NET implementation:
  - entries live in slots;
  - `Remove` pushes the freed slot onto a LIFO free list;
  - `Add` fills the most recently freed slot, or appends one;
  - enumeration walks the occupied slots in index order;
  - `ToDictionary` and collection initializers build a dictionary without holes.

  For greedy best-first, this means the entry added first after each `Remove` of the first key is enumerated first, before the stable sort puts the frontier back in order.
- **Ghost termination measure.** Every search carries a ghost `depth` map. It gives `ReconstructPath` its termination measure and breadth-first search its shortest-path proof.

Behaviour worth noting:

- **Map changes.** A map change re-runs the search only while a route is published (`Route != null`). After a failed search, a later map change does nothing, even with both endpoints set.
- **Failure looks like "not searched yet".** A failed search publishes `null`, the same value as before any search.
- **A\* is not always shortest.** Its g-increment is the heuristic distance of the tile stepped to, not 1. No optimality is claimed for it.
- **Breadth-first is shortest.** It returns a route with the fewest steps, and this is proved.
- **Unknown tags.** The provider's default arm yields `null`. With a closed enumeration of tags, that arm cannot be reached.

## Model

| member | source | states |
|---|---|---|
| Board.Initialize | Assets/Pathfinding/Scripts/Board/GameBoard.cs:186-197 | `Grid` holds exactly the tiles with 0 <= x < width and 0 <= y < height, in row-major order (y outer, x inner), and for a positive width and height has width*height entries; obstacles and configuration are untouched |
| Board.Neighbours | Assets/Pathfinding/Scripts/Board/GameBoard.cs:65-78 | a tile is returned exactly when it is a board tile that is a step from the target; on a built board the result is in `Grid` order |
| Board.NeighboursAreNearbyFreeTiles | Assets/Pathfinding/Scripts/Board/GameBoard.cs:65-78 | every neighbour is in `Grid`, differs from the target, lies within Chebyshev distance `TileSize` = 1 and is not an obstacle |
| Board.NeighboursAtMostEight | Assets/Pathfinding/Scripts/Board/GameBoard.cs:69-75 | neighbours come without repeats and there are at most 8 of them |
| Board.FourConnectedWithoutDiagonals | Assets/Pathfinding/Scripts/Board/GameBoard.cs:213-216 | with diagonal movement off, every neighbour differs from the target in exactly one coordinate, by 1 |
| Board.CornerRule | Assets/Pathfinding/Scripts/Board/GameBoard.cs:218-222 | a diagonal tile is never a neighbour when either corner tile between them is an obstacle |
| Board.CornerExample | Assets/Pathfinding/Scripts/Board/GameBoard.cs:218-222 | on a 3x3 board, obstacles at (1,0) and (0,1) exclude (1,1) from the neighbours of (0,0), which it is without them |
| Board.NeighboursSymmetric | Assets/Pathfinding/Scripts/Board/GameBoard.cs:207-226 | between two free board tiles, b is a neighbour of a iff a is a neighbour of b |
| Board.PassableCorners | Assets/Pathfinding/Scripts/Board/GameBoard.cs:207-226 | `IsPassable` holds exactly when every corner of the rectangle the move spans, other than the tile moved from, is free (the target included), and a diagonal move also needs diagonal movement enabled |
| Board.AddObstacle | Assets/Pathfinding/Scripts/Board/GameBoard.cs:142-151 | the obstacle set gains exactly the tile, `Grid` is unchanged, and `OnMapChanged` is raised iff the tile was not an obstacle |
| Board.RemoveObstacle | Assets/Pathfinding/Scripts/Board/GameBoard.cs:157-166 | the obstacle set loses exactly the tile, which is then no obstacle, and `OnMapChanged` is raised iff it was one |
| Board.AddObstacleIdempotent | Assets/Pathfinding/Scripts/Board/GameBoard.cs:146-150 | adding an obstacle twice changes nothing the second time and raises at most one notification |
| Board.RemoveAbsentObstacle | Assets/Pathfinding/Scripts/Board/GameBoard.cs:161-162 | removing a tile that is no obstacle changes nothing and raises nothing |
| Board.ObstacleRoundTrips | Assets/Pathfinding/Scripts/Board/GameBoard.cs:142-166 | removing a just-added obstacle, or re-adding a just-removed one, gives back the original board |
| Board.ObstacleEdits | Assets/Pathfinding/Scripts/Board/GameBoard.cs:142-173 | `IsObstacle` after an add answers yes for the added tile, after a remove no for the removed tile, and as before for every other tile |
| Board.TryGetTile | Assets/Pathfinding/Scripts/Board/GameBoard.cs:24-38 | a tile is found iff it is in `Grid`, and the found tile is the one asked for; on a built board, iff it is within the grid extent |
| Pathfinders.Heuristic | Assets/Pathfinding/Scripts/Pathfinders/Pathfinder.cs:47-53 | the distance is non-negative, zero iff the tiles are equal, and at least the difference in each coordinate |
| Pathfinders.HeuristicIsMetric | Assets/Pathfinding/Scripts/Pathfinders/Pathfinder.cs:47-53 | the distance is symmetric and obeys the triangle inequality |
| Pathfinders.ReconstructPath | Assets/Pathfinding/Scripts/Pathfinders/Pathfinder.cs:24-39 | given a predecessor chain from `end` to `start` (else `.Value` throws), the path starts at `start`, ends at `end`, each tile's entry names the tile before it, and no tile repeats |
| Pathfinders.ChainNoDup | Assets/Pathfinding/Scripts/Pathfinders/Pathfinder.cs:29-33 | a predecessor chain from `start` that does not return to `start` has no repeated tile |
| Seqs.Reverse | Assets/Pathfinding/Scripts/Pathfinders/Pathfinder.cs:36 | `List.Reverse`: same length, and element i is the input's element \|s\|-1-i |
| Seqs.ReverseReverse | Assets/Pathfinding/Scripts/Pathfinders/Pathfinder.cs:36 | reversing twice gives the list back |
| Seqs.RemoveFirst | Assets/Pathfinding/Scripts/Pathfinders/BreadthFirst.cs:28 | `List.Remove`: no change when the element is absent, otherwise exactly its first occurrence (at `IndexOf`) is dropped |
| Seqs.RemoveFirstNoDup | Assets/Pathfinding/Scripts/Pathfinders/BreadthFirst.cs:28 | on a repeat-free list, `Remove` of a member leaves a repeat-free list one shorter that holds every other element |
| Pathfinders.RouteFromTree | Assets/Pathfinding/Scripts/Pathfinders/Pathfinder.cs:24-39 | reconstructing from the tree a search builds yields a repeat-free walk of passable neighbours from `start` to `end` |
| Pathfinders.Fresh | Assets/Pathfinding/Scripts/Pathfinders/BreadthFirst.cs:36-43 | the neighbours passing the `cameFrom` guard are exactly those not yet discovered, each once |
| Pathfinders.ClosedSetBlocks | Assets/Pathfinding/Scripts/Pathfinders/BreadthFirst.cs:25-46 | a set of tiles containing `start` and closed under steps contains every reachable tile, so a search that empties its frontier without `end` proves `end` unreachable |
| BreadthFirstSearch.TryFindPath | Assets/Pathfinding/Scripts/Pathfinders/BreadthFirst.cs:15-47 | `start == end` fails; a result is a repeat-free walk from `start` to `end`; for `start != end` a route is returned iff `end` is reachable, and it has no more steps than any walk. The ghost record of the run starts at `start`, holds only reachable tiles, each once and at most \|Grid\|+1 of them, and expands them in discovery order. A found route runs through discovered tiles, and `end` is the last tile expanded. A failed search has expanded every discovered tile, and those are all the reachable ones |
| BreadthFirstSearch.Expand | Assets/Pathfinding/Scripts/Pathfinders/BreadthFirst.cs:27-43 | one iteration keeps the search invariant and either discovers a tile or shrinks the frontier |
| BreadthFirstSearch.Shortest | Assets/Pathfinding/Scripts/Pathfinders/BreadthFirst.cs:22-43 | when `end` reaches the head of the FIFO frontier its depth is at most the number of steps of any walk to it |
| BreadthFirstSearch.DiscoveredBound | Assets/Pathfinding/Scripts/Pathfinders/BreadthFirst.cs:38-42 | discovered tiles never repeat and number at most \|Grid\|+1, and the expanded ones are a prefix of them |
| Dictionaries.FromItems | Assets/Pathfinding/Scripts/Pathfinders/GreedyBest.cs:46 | `ToDictionary` over distinct keys builds a valid dictionary that enumerates its items in the given order |
| Dictionaries.Add | Assets/Pathfinding/Scripts/Pathfinders/GreedyBest.cs:42 | `Add` of an absent key holds exactly the old keys and the new one, reusing the most recently freed slot or appending |
| Dictionaries.Remove | Assets/Pathfinding/Scripts/Pathfinders/GreedyBest.cs:28 | `Remove` holds exactly the old keys but the removed one, frees its slot onto the free list, and leaves a dictionary without the key unchanged |
| Dictionaries.Set | Assets/Pathfinding/Scripts/Pathfinders/AStar.cs:59 | the indexer setter overwrites in place when the key is present and adds it otherwise |
| Dictionaries.SetGet | Assets/Pathfinding/Scripts/Pathfinders/AStar.cs:59 | the getter reads back the value the setter stored |
| Dictionaries.Get | Assets/Pathfinding/Scripts/Pathfinders/AStar.cs:59 | the indexer getter returns the value the dictionary enumerates with that key |
| Dictionaries.ContainsKeyEnumerated | Assets/Pathfinding/Scripts/Pathfinders/AStar.cs:59 | `ContainsKey` holds for exactly the keys the dictionary enumerates |
| Dictionaries.AddOrder | Assets/Pathfinding/Scripts/Pathfinders/GreedyBest.cs:42 | after `Add` the new entry is enumerated last when no slot was free, otherwise in the place of the most recently removed entry |
| Dictionaries.RemoveOrder | Assets/Pathfinding/Scripts/Pathfinders/GreedyBest.cs:28 | after `Remove` the enumeration is the old one with that entry taken out |
| Dictionaries.AddAllKeys | Assets/Pathfinding/Scripts/Pathfinders/GreedyBest.cs:36-44 | adding a list of entries holds exactly the old keys and the added ones |
| Dictionaries.RefillFirst | Assets/Pathfinding/Scripts/Pathfinders/GreedyBest.cs:27-44 | removing the first key of a freshly built dictionary and adding entries enumerates the first new entry first, then the old rest, then the other new ones |
| StableSort.SortSorted | Assets/Pathfinding/Scripts/Pathfinders/GreedyBest.cs:46 | `OrderBy(entry => entry.Value)` yields entries in non-decreasing value |
| StableSort.SortPermutes | Assets/Pathfinding/Scripts/Pathfinders/GreedyBest.cs:46 | the sort yields a permutation of its input |
| StableSort.SortStable | Assets/Pathfinding/Scripts/Pathfinders/GreedyBest.cs:46 | entries with equal value keep their relative order |
| StableSort.SortKeepsKeysDistinct | Assets/Pathfinding/Scripts/Pathfinders/GreedyBest.cs:46 | the sorted entries have distinct keys when the input had, so `ToDictionary` does not throw |
| GreedyBestSearch.TryFindPath | Assets/Pathfinding/Scripts/Pathfinders/GreedyBest.cs:15-50 | `start == end` fails; a result is a repeat-free walk from `start` to `end`; for `start != end` a route is returned iff `end` is reachable |
| GreedyBestSearch.Expand | Assets/Pathfinding/Scripts/Pathfinders/GreedyBest.cs:36-46 | one iteration keeps the invariant (keys of `open` distinct and in `cameFrom`, each non-start entry weighted by its heuristic, sorted by value) and the new enumeration is the stable sort of the refilled dictionary |
| GreedyBestSearch.Weigh | Assets/Pathfinding/Scripts/Pathfinders/GreedyBest.cs:41-42 | the added entries are the fresh tiles in order, each valued at its heuristic distance to `end` |
| GreedyBestSearch.RestAreOld | Assets/Pathfinding/Scripts/Pathfinders/GreedyBest.cs:38-43 | no fresh tile is already a key of `open`, so `open.Add` never meets a duplicate key |
| GreedyBestSearch.GreedyChoice | Assets/Pathfinding/Scripts/Pathfinders/GreedyBest.cs:27-46 | the tile taken from the frontier has the least heuristic distance to `end` among the frontier's tiles |
| AStarSearch.SelectCurrent | Assets/Pathfinding/Scripts/Pathfinders/AStar.cs:33 | the selected entry has no entry with a smaller (f, h) pair, and every earlier entry has a strictly larger one: the first minimum of two stable sorts |
| AStarSearch.RelaxAllDiscovers | Assets/Pathfinding/Scripts/Pathfinders/AStar.cs:44-63 | the inner loop never takes the "cheaper cost" skip or overwrites an entry: it equals discovering each fresh neighbour once, appended to `open`, costed and given `current` as predecessor |
| AStarSearch.RelaxFresh | Assets/Pathfinding/Scripts/Pathfinders/AStar.cs:46-60 | for a tile not in `cameFrom`, the `TryAdd`s and the skip test have no effect and the tile is costed and added |
| AStarSearch.RelaxAll | Assets/Pathfinding/Scripts/Pathfinders/AStar.cs:44-64 | the neighbour loop, one `Relax` per neighbour in order, keeps `fCosts` a valid dictionary and `current` costed; what it computes is stated by `AStarSearch.RelaxAllDiscovers` |
| AStarSearch.Charge | Assets/Pathfinding/Scripts/Pathfinders/AStar.cs:49-58 | the new cost entries are base + heuristic for each fresh tile; other entries keep their value |
| AStarSearch.Costed | Assets/Pathfinding/Scripts/Pathfinders/AStar.cs:57-59 | f entries for the fresh tiles, in order, each g + h with g = g[current] + h |
| AStarSearch.DiscoverKeyed | Assets/Pathfinding/Scripts/Pathfinders/AStar.cs:57-63 | after discovery `fCosts` holds exactly its old keys and the fresh tiles, and every map stays keyed by `cameFrom` |
| AStarSearch.CostsStep | Assets/Pathfinding/Scripts/Pathfinders/AStar.cs:49-58 | g[start] = h[start] = 0, costs stay non-negative, and for every discovered tile h = heuristic and g = g[predecessor] + heuristic |
| AStarSearch.OpenKeysStep | Assets/Pathfinding/Scripts/Pathfinders/AStar.cs:41-63 | the key set of `fCosts` equals the set of tiles in `open` after an iteration |
| AStarSearch.FCostsStep | Assets/Pathfinding/Scripts/Pathfinders/AStar.cs:57-59 | every `fCosts` entry stores g + h of its tile after an iteration |
| AStarSearch.Initial | Assets/Pathfinding/Scripts/Pathfinders/AStar.cs:22-29 | the starting state (`start` alone at cost 0 in every map) satisfies the loop invariant |
| AStarSearch.Step | Assets/Pathfinding/Scripts/Pathfinders/AStar.cs:41-64 | one iteration keeps the invariant and either discovers a tile or shrinks `open` |
| AStarSearch.TryFindPath | Assets/Pathfinding/Scripts/Pathfinders/AStar.cs:15-68 | `start == end` fails; a result is a repeat-free walk from `start` to `end`; for `start != end` a route is returned iff `end` is reachable |
| Provider.Get | Assets/Pathfinding/Scripts/PathfindersProvider.cs:29-38 | each tag yields the strategy of that tag over the provider's board; a strategy is always returned |
| Provider.GetDependsOnlyOnAlgorithm | Assets/Pathfinding/Scripts/PathfindersProvider.cs:29-38 | configurations with the same tag yield the same strategy, so repeated calls agree |
| Provider.TryFindPath | Assets/Pathfinding/Scripts/Pathfinders/IPathfinder.cs:10-17 | whichever strategy runs, the result meets the interface contract: no route to itself, a returned route is valid, a route exists iff `end` is reachable; the breadth-first strategy's route has the fewest steps |
| Provider.StrategiesAgreeOnSuccess | Assets/Pathfinding/Scripts/Pathfinders/IPathfinder.cs:10-17 | any two strategies succeed on the same requests |
| Reactive.Create | Assets/Pathfinding/Scripts/ReactiveProperty/ReactiveProperty.cs:12-14 | a new property holds the default value and has no subscribers |
| Reactive.Subscribe | Assets/Pathfinding/Scripts/ReactiveProperty/ReactiveProperty.cs:16 | the action is appended after the existing subscribers; the value is unchanged |
| Reactive.Dispose | Assets/Pathfinding/Scripts/ReactiveProperty/ReactiveProperty.cs:18 | when the action is subscribed, exactly its first occurrence is taken out and the rest keep their order; no change otherwise; the value is unchanged |
| Reactive.Set | Assets/Pathfinding/Scripts/ReactiveProperty/ReactiveProperty.cs:20-24 | the property afterwards holds the new value and keeps its subscribers |
| Reactive.Notify | Assets/Pathfinding/Scripts/ReactiveProperty/ReactiveProperty.cs:26-30 | every call passes the new value to a subscribed action, and each subscribed action is called exactly as often as it occurs in the list, so at most once per subscription |
| Reactive.GetAfterSet | Assets/Pathfinding/Scripts/ReactiveProperty/ReactiveProperty.cs:20-23 | after `Set(v)` the property reads `v`, whatever an earlier `Set` stored |
| Reactive.NotifyCounts | Assets/Pathfinding/Scripts/ReactiveProperty/ReactiveProperty.cs:26-30 | each action is called with the value exactly as often as it occurs in the subscriber list |
| Reactive.NotifyInOrder | Assets/Pathfinding/Scripts/ReactiveProperty/ReactiveProperty.cs:26-30 | the calls follow subscription order, skipping `null` actions |
| Reactive.SetSameValueNotifies | Assets/Pathfinding/Scripts/ReactiveProperty/ReactiveProperty.cs:20-24 | setting the current value again changes nothing but still calls every subscriber |
| Reactive.SubscribeTwice | Assets/Pathfinding/Scripts/ReactiveProperty/ReactiveProperty.cs:16 | an action subscribed twice is called twice per `Set` |
| Reactive.DisposeOne | Assets/Pathfinding/Scripts/ReactiveProperty/ReactiveProperty.cs:18 | `Dispose` removes the first occurrence (at `IndexOf`), lowering that action's count by one and every other action's count not at all |
| Reactive.SubscribeDisposeRoundTrip | Assets/Pathfinding/Scripts/ReactiveProperty/ReactiveProperty.cs:16-18 | subscribing a new action and disposing it restores the property |
| Demo.Construct | Assets/Pathfinding/Scripts/PathfinderDemo.cs:19-21 | start, end and route are all `null` at first |
| Demo.FindPath | Assets/Pathfinding/Scripts/PathfinderDemo.cs:62-74 | publishes exactly one route value, which meets the `IPathfinder` contract for the endpoints on the current board: a route iff the end is reachable, `null` otherwise; with breadth-first configured the route has the fewest steps; the endpoints and the board are untouched |
| Demo.SelectStart | Assets/Pathfinding/Scripts/PathfinderDemo.cs:39-47 | a click off `Grid` changes and publishes nothing; otherwise the start becomes the clicked tile and is published first; iff the end is set, a search runs and its route is published second |
| Demo.SelectEnd | Assets/Pathfinding/Scripts/PathfinderDemo.cs:50-58 | the same for the end tile: published first, then the search's route iff the start is set |
| Demo.OnMapChanged | Assets/Pathfinding/Scripts/PathfinderDemo.cs:76-80 | re-runs the search with the current endpoints iff a route is published; otherwise nothing changes |
| Demo.EditMap | Assets/Pathfinding/Scripts/PathfinderDemo.cs:34 | an obstacle edit publishes something iff it changed the obstacle set while a route was published; afterwards any published route is a route on the current board between the current endpoints |

## Left out

- World-space geometry is not modelled. This covers `GridToWorld`, `WorldToGrid`, `GridPathToWorldPath`, `Raycast` and `TryGetTileAtCursor`, which use floating point and Unity transforms. A click is given as the grid coordinate under the cursor, and obstacles are edited by grid coordinate.
- Rendering (`GizmosDrawer`), dependency injection (`BoardInstaller`), obstacle spawning (`ObstaclesSpawner`, `Obstacle`) and `Debug.Log` are not modelled. They are Unity plumbing. The spawner's only effect on the core is a call to `AddObstacle`, which `Demo.EditMap` covers.
- `OnDisable` unsubscription and the notification raised by `Initialize` at `Awake` time are not modelled. They are lifecycle hooks.
- `Update`'s input polling is not modelled. Its two branches are `Demo.SelectStart` and `Demo.SelectEnd`. A frame with both buttons pressed runs them in that order. Its early `return` on a missed tile also skips the right-button branch, but that branch would have missed the same tile anyway.
- 32-bit `int` arithmetic is not modelled. Coordinates, heuristic distances and A* costs are unbounded integers. The model assumes the board is small enough for 32-bit arithmetic not to wrap. A heuristic distance is at most the grid's width plus its height. An A* g-cost adds one heuristic distance per step of the route, so it can reach the number of tiles times (width + height).
- The .NET `Dictionary` slot and free-list layout is an assumption about the runtime, whose enumeration order is not documented. No file of the repository states it.
- Subscriber actions are opaque values compared by equality, and their side effects are not modelled. As a result, an action that subscribes or disposes during notification is not modelled; in the source, that would make the `foreach` throw.
- Obstacles are a set. The source's list never holds duplicates, because both mutators check `Contains` first.
- AStarSearch.TryFindPath: no optimality is claimed. The route found is not always a shortest one, because each step costs the heuristic distance of the tile stepped to.
- AStarSearch.Relax and AStarSearch.RelaxAll: their own contracts state only that `fCosts` stays a valid dictionary and `current` keeps its cost. What the inner loop does is stated by `AStarSearch.RelaxAllDiscovers`.
- Demo.OnMapChanged: requires only that a published route comes with both endpoints, not that it is still a route. It runs right after the board changed, so the old route need not be one any more.
