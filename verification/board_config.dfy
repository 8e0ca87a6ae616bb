/** The board configuration asset, as immutable parameters. */
module BoardConfig {

  /** The strategy tag chosen in the configuration. */
  datatype SearchAlgorithm = BreadthFirst | GreedyBest | AStar

  /** `TileSize` has no setter in the configuration asset and is always 1;
      it is the Chebyshev radius of a neighbourhood. */
  const TileSize: int := 1

  /** `GridSize` is split into its two components; the rendering flag is not modelled. */
  datatype GameBoardConfig = GameBoardConfig(
    searchAlgorithm: SearchAlgorithm,
    gridWidth: int,
    gridHeight: int,
    isDiagonalMovementAllowed: bool)
}
