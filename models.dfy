/** The value types the engine works with: cells, points, paths, the stats snapshot
    and the events the engine publishes to the presentation layer. */
module GameModels {

  /** `Some(v)` where the source holds a value, `None` where it holds `null`. */
  datatype Option<+T> = None | Some(value: T)

  /** One slot of the grid. `row`/`col` are the cell's own record of its position;
      `wasEverOccupied` marks a slot that has held a tile at some time. */
  datatype Cell = Cell(row: int, col: int, value: Option<int>, isOccupied: bool, wasEverOccupied: bool)

  datatype Point = Point(row: int, col: int)

  /** The cells a connection passes through, from the first point to the second. */
  type Path = seq<Point>

  /** The grid: a sequence of rows, each a sequence of cells. */
  type Grid = seq<seq<Cell>>

  /** What `tryMatch` publishes: nothing, a found match with its path and the two
      points, or a failed match with the points to highlight. */
  datatype MatchEvent =
    | NoEvent
    | MatchFound(path: Path, points: seq<Point>)
    | FailedMatch(points: seq<Point>)

  /** The snapshot returned by `getStats`. */
  datatype Stats = Stats(
    currentScore: int,
    stage: int,
    numbersCleared: map<int, int>,
    allTimeScore: int,
    hintsRemaining: int,
    addsRemaining: int)
}
