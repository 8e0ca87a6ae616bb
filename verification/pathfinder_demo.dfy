/** The demo controller (PathfinderDemo.cs): reactive start, end and route
    properties, the click transitions of `Update`, `FindPath` and the
    reaction to map changes. A click is given as the grid coordinate under
    the cursor; the raycast and the world-to-grid conversion are not part of
    this model. */
module Demo {
  import opened Wrappers
  import opened Board
  import opened Pathfinders
  import opened Provider
  import opened Reactive

  /** A `Set` on one of the three properties, in the order they happen. */
  datatype Published =
    | StartSet(tile: Option<Coord>)
    | EndSet(tile: Option<Coord>)
    | RouteSet(route: Option<seq<Coord>>)

  /** The controller: the board it listens to and its three properties,
      each with the subscribers of type `A` it notifies. */
  datatype Demo<A> = Demo(board: GameBoard,
                          startTile: Property<Option<Coord>, A>,
                          endTile: Property<Option<Coord>, A>,
                          route: Property<Option<seq<Coord>>, A>)

  /** A transition's result: the new controller and what it published. */
  datatype Outcome<A> = Outcome(demo: Demo<A>, published: seq<Published>)

  /** A route is only ever published once both endpoints are set. */
  predicate Endpoints<A>(d: Demo<A>) {
    d.route.value.Some? ==> d.startTile.value.Some? && d.endTile.value.Some?
  }

  /** A published route always belongs to the endpoints and board of the
      moment: both endpoints are set, and the route runs from the start
      tile to the end tile along passable neighbours. */
  ghost predicate Consistent<A>(d: Demo<A>) {
    && Endpoints(d)
    && (d.route.value.Some? ==>
          IsRoute(d.board, d.startTile.value.value, d.endTile.value.value, d.route.value.value))
  }

  /** The controller once constructed: nothing selected, no route. */
  function Construct<A>(board: GameBoard): (d: Demo<A>)
    ensures d.board == board
    ensures d.startTile.value == None && d.endTile.value == None && d.route.value == None
    ensures Consistent(d)
  {
    Demo(board, Create(None), Create(None), Create(None))
  }

  /** `FindPath`: ask the provider for the configured strategy, run it on
      the two endpoints and publish the route, or `null` when the search
      fails. A failed search publishes the same value as "nothing computed
      yet". With breadth-first search configured, a published route has
      the fewest steps. */
  method FindPath<A>(d: Demo<A>) returns (o: Outcome<A>)
    requires d.startTile.value.Some? && d.endTile.value.Some?
    ensures o.demo.board == d.board && o.demo.startTile == d.startTile && o.demo.endTile == d.endTile
    ensures o.demo.route.actions == d.route.actions
    ensures o.published == [RouteSet(o.demo.route.value)]
    ensures Answers(d.board, d.startTile.value.value, d.endTile.value.value, o.demo.route.value)
    ensures d.board.config.searchAlgorithm.BreadthFirst? && o.demo.route.value.Some? ==>
      FewestSteps(d.board, d.startTile.value.value, d.endTile.value.value, o.demo.route.value.value)
    ensures Consistent(o.demo)
  {
    var pathfinder := Get(d.board.config, d.board);
    var route := TryFindPath(pathfinder.value, d.startTile.value.value, d.endTile.value.value);
    var notified;
    if route.Some? {
      notified := Set(d.route, route);
    } else {
      notified := Set(d.route, None);
    }
    o := Outcome(d.(route := notified.property), [RouteSet(notified.property.value)]);
  }

  /** Left click: when the cursor is over a tile of `Grid`, that tile becomes
      the start, and a search runs if the end is also set. A click off the
      board changes nothing and publishes nothing. */
  method SelectStart<A>(d: Demo<A>, cursor: Coord) returns (o: Outcome<A>)
    requires Consistent(d)
    ensures Consistent(o.demo)
    ensures o.demo.board == d.board && o.demo.endTile == d.endTile
    ensures cursor !in d.board.grid ==> o == Outcome(d, [])
    ensures cursor in d.board.grid ==>
      && o.demo.startTile.value == Some(cursor)
      && |o.published| >= 1 && o.published[0] == StartSet(Some(cursor))
      && (d.endTile.value.Some? <==> |o.published| == 2)
      && (d.endTile.value.Some? ==> o.published[1] == RouteSet(o.demo.route.value))
      && (d.endTile.value.Some? ==> Answers(d.board, cursor, d.endTile.value.value, o.demo.route.value))
      && (d.endTile.value.None? ==> o.demo.route == d.route)
  {
    var tile := TryGetTile(d.board, cursor);
    if tile.None? {
      return Outcome(d, []);
    }
    var notified := Set(d.startTile, tile);
    var d1 := d.(startTile := notified.property);
    o := Outcome(d1, [StartSet(tile)]);
    if d1.startTile.value != None && d1.endTile.value != None {
      var found := FindPath(d1);
      o := Outcome(found.demo, o.published + found.published);
    }
  }

  /** Right click: the same for the end tile. */
  method SelectEnd<A>(d: Demo<A>, cursor: Coord) returns (o: Outcome<A>)
    requires Consistent(d)
    ensures Consistent(o.demo)
    ensures o.demo.board == d.board && o.demo.startTile == d.startTile
    ensures cursor !in d.board.grid ==> o == Outcome(d, [])
    ensures cursor in d.board.grid ==>
      && o.demo.endTile.value == Some(cursor)
      && |o.published| >= 1 && o.published[0] == EndSet(Some(cursor))
      && (d.startTile.value.Some? <==> |o.published| == 2)
      && (d.startTile.value.Some? ==> o.published[1] == RouteSet(o.demo.route.value))
      && (d.startTile.value.Some? ==> Answers(d.board, d.startTile.value.value, cursor, o.demo.route.value))
      && (d.startTile.value.None? ==> o.demo.route == d.route)
  {
    var tile := TryGetTile(d.board, cursor);
    if tile.None? {
      return Outcome(d, []);
    }
    var notified := Set(d.endTile, tile);
    var d1 := d.(endTile := notified.property);
    o := Outcome(d1, [EndSet(tile)]);
    if d1.startTile.value != None && d1.endTile.value != None {
      var found := FindPath(d1);
      o := Outcome(found.demo, o.published + found.published);
    }
  }

  /** `OnMapChanged`: the search is run again only while a route is
      published. After a failed search, or before any, a map change does
      nothing, even with both endpoints set. The board may have changed
      since the route was found, so the route need not be one any more. */
  method OnMapChanged<A>(d: Demo<A>) returns (o: Outcome<A>)
    requires Endpoints(d)
    ensures Consistent(o.demo)
    ensures d.route.value == None ==> o == Outcome(d, [])
    ensures d.route.value.Some? ==>
      && o.demo.startTile == d.startTile && o.demo.endTile == d.endTile && o.demo.board == d.board
      && o.published == [RouteSet(o.demo.route.value)]
      && Answers(d.board, d.startTile.value.value, d.endTile.value.value, o.demo.route.value)
  {
    if d.route.value != None {
      o := FindPath(d);
    } else {
      o := Outcome(d, []);
    }
  }

  /** An obstacle placed or removed on the board the controller listens to:
      the board raises `OnMapChanged` only when its obstacle set changed,
      and the controller reacts as above. A published route is therefore
      always a route on the current board. */
  method EditMap<A>(d: Demo<A>, add: bool, c: Coord) returns (o: Outcome<A>)
    requires Consistent(d)
    ensures Consistent(o.demo)
    ensures o.demo.board.obstacles == if add then d.board.obstacles + {c} else d.board.obstacles - {c}
    ensures o.demo.startTile == d.startTile && o.demo.endTile == d.endTile
    ensures o.published != [] <==> d.route.value.Some? && (add <==> !IsObstacle(d.board, c))
  {
    var m := if add then AddObstacle(d.board, c) else RemoveObstacle(d.board, c);
    var d1 := d.(board := m.board);
    if m.notified {
      o := OnMapChanged(d1);
    } else {
      o := Outcome(d1, []);
    }
  }
}
