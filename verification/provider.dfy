/** The strategy selector (PathfindersProvider.cs) and the contract every
    strategy meets (IPathfinder.cs). */
module Provider {
  import opened Wrappers
  import opened BoardConfig
  import opened Board
  import opened Pathfinders
  import BreadthFirstSearch
  import GreedyBestSearch
  import AStarSearch

  /** A strategy object: the search it runs and the board it was built over. */
  datatype Pathfinder = Pathfinder(algorithm: SearchAlgorithm, board: GameBoard)

  /** What `TryFindPath` promises: a request from a tile to itself fails, a
      returned route runs from `start` to `end` along passable neighbours,
      and otherwise a route is returned exactly when `end` is reachable. */
  ghost predicate Answers(b: GameBoard, start: Coord, end: Coord, path: Option<seq<Coord>>) {
    && (start == end ==> path == None)
    && (path.Some? ==> IsRoute(b, start, end, path.value))
    && (start != end ==> (path.Some? <==> Reachable(b, start, end)))
  }

  /** No walk from `start` to `end` has fewer tiles than `route`. */
  ghost predicate FewestSteps(b: GameBoard, start: Coord, end: Coord, route: seq<Coord>) {
    forall w :: WalkFromTo(b, w, start, end) ==> |route| <= |w|
  }

  /** `Get`: the `switch` on `config.SearchAlgorithm`. Each of the three tags
      yields its own strategy over the provider's board; the default arm
      (`null`) has no tag left to match, so the result is always present. */
  function Get(config: GameBoardConfig, board: GameBoard): (r: Option<Pathfinder>)
    ensures r.Some? && r.value.board == board
    ensures config.searchAlgorithm.BreadthFirst? <==> r.value.algorithm.BreadthFirst?
    ensures config.searchAlgorithm.GreedyBest? <==> r.value.algorithm.GreedyBest?
    ensures config.searchAlgorithm.AStar? <==> r.value.algorithm.AStar?
  {
    match config.searchAlgorithm
    case BreadthFirst => Some(Pathfinder(SearchAlgorithm.BreadthFirst, board))
    case GreedyBest => Some(Pathfinder(SearchAlgorithm.GreedyBest, board))
    case AStar => Some(Pathfinder(SearchAlgorithm.AStar, board))
  }

  /** Only the algorithm tag of the configuration matters, so two providers
      over the same board, or two calls of one provider, agree. */
  lemma {:induction false} GetDependsOnlyOnAlgorithm(c1: GameBoardConfig, c2: GameBoardConfig, board: GameBoard)
    requires c1.searchAlgorithm == c2.searchAlgorithm
    ensures Get(c1, board) == Get(c2, board)
  {
  }

  /** `IPathfinder.TryFindPath`, dispatched to the strategy's search; each
      of the three meets the interface's contract, and the breadth-first
      strategy's route has the fewest steps. */
  method TryFindPath(p: Pathfinder, start: Coord, end: Coord) returns (path: Option<seq<Coord>>)
    ensures Answers(p.board, start, end, path)
    ensures p.algorithm.BreadthFirst? && path.Some? ==> FewestSteps(p.board, start, end, path.value)
  {
    match p.algorithm
    case BreadthFirst =>
      ghost var discovered, expanded;
      path, discovered, expanded := BreadthFirstSearch.TryFindPath(p.board, start, end);
    case GreedyBest =>
      path := GreedyBestSearch.TryFindPath(p.board, start, end);
    case AStar =>
      path := AStarSearch.TryFindPath(p.board, start, end);
  }

  /** Any two strategies agree on whether a route exists, though not always
      on the route itself. */
  lemma {:induction false} StrategiesAgreeOnSuccess(b: GameBoard, start: Coord, end: Coord,
                                                    p1: Option<seq<Coord>>, p2: Option<seq<Coord>>)
    requires Answers(b, start, end, p1) && Answers(b, start, end, p2)
    ensures p1.Some? <==> p2.Some?
  {
  }
}
