/** The N-Queens problem as a graph for the A* engine.

    A node is a partial placement: the queens placed so far, one per row
    from row 0 down, and the squares still free of attack. Its neighbours
    place one more queen on a free square of the next row. The search
    stops at the first node holding `n` queens. */
module NQueens {
  import opened Maybes
  import opened Seqs
  import opened Geometry
  import opened AStar

  /** A square of the board. */
  datatype SquareCoordinates = SquareCoordinates(row: int, column: int)

  /** The queens placed, in the order they were placed. */
  type Solution = seq<SquareCoordinates>

  /** A node of the search graph. The two counts are cached: the program
      sets them next to the sequences they count. */
  datatype GraphNode = GraphNode(
    solution: Solution,
    numberOfQueens: int,
    numberOfAvailableSquares: int,
    availableSquares: seq<SquareCoordinates>)

  /** What building the first node can throw: `reduce` with no seed on an
      empty array, which is what a board size of 0 or less produces. */
  datatype NQueensError = EmptyBoard

  /** Queens on `a` and `b` attack each other. */
  predicate Attacks(a: SquareCoordinates, b: SquareCoordinates)
  {
    SharesLine(a.row, a.column, b.row, b.column)
  }

  /** `Maybe(xs.slice(-1)[0])`: the last element, if any. */
  function Last<T>(xs: seq<T>): Maybe<T>
  {
    if |xs| == 0 then Nothing else Just(xs[|xs| - 1])
  }

  /** `rows.reduce((prev, next) => prev.concat(next))`: the rows joined
      from the left; with no rows and no seed, `reduce` throws. */
  function ConcatAll<T>(rows: seq<seq<T>>): (r: Result<seq<T>, NQueensError>)
    ensures r.Failure? <==> |rows| == 0
    decreases |rows|
  {
    if |rows| == 0 then Failure(EmptyBoard)
    else if |rows| == 1 then Success(rows[0])
    else Success(ConcatAll(rows[..|rows| - 1]).value + rows[|rows| - 1])
  }

  /** The rows of a board of side `size`, each the squares of that row by
      column. */
  function Rows(size: nat): seq<seq<SquareCoordinates>>
  {
    seq(size, row => seq(size, column => SquareCoordinates(row, column)))
  }

  /** `generateAllCoordinates`. `Array.from` reads a negative length as 0. */
  function GenerateAllCoordinates(boardSize: int): Result<seq<SquareCoordinates>, NQueensError>
  {
    ConcatAll(Rows(if boardSize < 0 then 0 else boardSize))
  }

  /** `createEmptyGraphNode`: no queens, every square available. */
  function CreateEmptyGraphNode(boardSize: int): Result<GraphNode, NQueensError>
  {
    match GenerateAllCoordinates(boardSize)
    case Failure(e) => Failure(e)
    case Success(availableSquares) => Success(GraphNode([], 0, |availableSquares|, availableSquares))
  }

  // The four tests of `filterAvailableSquares`, each keeping the squares
  // off one line through `q`.
  function OffColumn(q: SquareCoordinates): SquareCoordinates -> bool
  {
    (s: SquareCoordinates) => s.column != q.column
  }
  function OffRow(q: SquareCoordinates): SquareCoordinates -> bool
  {
    (s: SquareCoordinates) => s.row != q.row
  }
  function OffDiagonal(q: SquareCoordinates): SquareCoordinates -> bool
  {
    (s: SquareCoordinates) => s.row - s.column != q.row - q.column
  }
  function OffAntiDiagonal(q: SquareCoordinates): SquareCoordinates -> bool
  {
    (s: SquareCoordinates) => s.row + s.column != q.row + q.column
  }

  /** `filterAvailableSquares`: drop the squares that share the column, the
      row, the diagonal or the anti-diagonal of the queen just placed. */
  function FilterAvailableSquares(availableSquares: seq<SquareCoordinates>, coordinates: SquareCoordinates): (r: seq<SquareCoordinates>)
    ensures |r| <= |availableSquares|
  {
    Filter(
      Filter(
        Filter(
          Filter(availableSquares, OffColumn(coordinates)),
          OffRow(coordinates)),
        OffDiagonal(coordinates)),
      OffAntiDiagonal(coordinates))
  }

  /** `createGraphNode`: place a queen on `coordinates`. */
  function CreateGraphNode(previousNode: GraphNode, coordinates: SquareCoordinates): GraphNode
  {
    var availableSquares := FilterAvailableSquares(previousNode.availableSquares, coordinates);
    GraphNode(
      previousNode.solution + [coordinates],
      previousNode.numberOfQueens + 1,
      |availableSquares|,
      availableSquares)
  }

  /** The row `generateNeighbors` places the next queen in: the row after
      the last queen's, or row 0 when there is none. */
  function NextRow(previousNode: GraphNode): int
  {
    Last(previousNode.solution).Map((coordinates: SquareCoordinates) => Just(coordinates.row + 1)).GetValue(0)
  }

  /** The squares of one row. */
  function InRow(row: int): SquareCoordinates -> bool
  {
    (s: SquareCoordinates) => s.row == row
  }

  /** `generateNeighbors`: one node per available square of the next row,
      in the order of the available squares. */
  function GenerateNeighbors(previousNode: GraphNode): seq<GraphNode>
  {
    var squares := Filter(previousNode.availableSquares, InRow(NextRow(previousNode)));
    seq(|squares|, i requires 0 <= i < |squares| => CreateGraphNode(previousNode, squares[i]))
  }

  /** The graph `findNQueensProblemSolution` hands to `aStar`. An edge
      costs minus the free squares of the node it leaves; the estimate of
      a node is minus its own free squares. */
  function Tools(n: int): GraphTools<GraphNode>
  {
    GraphTools(
      (node: GraphNode) => node.numberOfQueens == n,
      (from: GraphNode, to: GraphNode) => -from.numberOfAvailableSquares,
      (node: GraphNode) => -node.numberOfAvailableSquares,
      (previousNode: GraphNode) => GenerateNeighbors(previousNode))
  }

  /** `findNQueensProblemSolution`, with at most `fuel` passes of the A*
      loop: the queens of the last node of the path, or `Nothing` when the
      path is empty. */
  function FindNQueensProblemSolution(n: int, fuel: nat): Result<Bounded<Maybe<Solution>>, NQueensError>
  {
    match CreateEmptyGraphNode(n)
    case Failure(e) => Failure(e)
    case Success(startNode) =>
      match AStarSearch(startNode, Tools(n), fuel).result
      case OutOfFuel => Success(OutOfFuel)
      case Returned(path) => Success(Returned(Last(path).Map((node: GraphNode) => Just(node.solution))))
  }
}
