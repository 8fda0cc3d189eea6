/** The interactive board: the player clicks squares to place and remove
    queens, and every square shows whether it holds a queen, is attacked by
    one (blocked), or is free.

    Square ids are interned by their `row/column` key, so two ids compare
    equal exactly when their coordinates do; the model gives ids value
    equality and leaves the key out. */
module Board {
  import opened Seqs
  import opened Geometry
  import opened Arithmetic

  /** The side of the board the application draws. Square ids use it to
      offset the anti-diagonal index. */
  const BoardSize := 8

  datatype SquareColor = Black | White

  datatype SquareContent = Empty | Queen | Blocked

  /** A square: its coordinates and the indices of its two diagonals,
      `row - column` and `row + column + BoardSize`. */
  datatype SquareId = SquareId(rowIndex: int, columnIndex: int, diagonalIndices: (int, int))

  datatype SquareDescriptor = SquareDescriptor(squareId: SquareId, color: SquareColor, content: SquareContent)

  datatype RowDescriptor = RowDescriptor(index: int, squares: seq<SquareDescriptor>)

  datatype BoardDescriptor = BoardDescriptor(rows: seq<RowDescriptor>)

  /** The queens on the board, in the order they were placed. */
  datatype BoardState = BoardState(queens: seq<SquareId>)

  /** `createEmptyBoardState`. */
  function CreateEmptyBoardState(): (r: BoardState)
    ensures |r.queens| == 0
  {
    BoardState([])
  }

  /** `updateBoardState`: a click on a free square places a queen there, a
      click on a queen removes it, a click on a blocked square does
      nothing. */
  function UpdateBoardState(boardState: BoardState, clickedSquare: SquareDescriptor): BoardState
  {
    match clickedSquare.content
    case Empty => AddQueenToBoard(boardState, clickedSquare)
    case Queen => RemoveQueenFromBoard(boardState, clickedSquare)
    case Blocked => boardState
  }

  /** `addQueenToBoard`. */
  function AddQueenToBoard(boardState: BoardState, clickedSquare: SquareDescriptor): BoardState
  {
    BoardState(boardState.queens + [clickedSquare.squareId])
  }

  /** The ids other than `squareId`. */
  function Other(squareId: SquareId): SquareId -> bool
  {
    (id: SquareId) => id != squareId
  }

  /** `removeQueenFromBoard`. */
  function RemoveQueenFromBoard(boardState: BoardState, clickedSquare: SquareDescriptor): BoardState
  {
    BoardState(Filter(boardState.queens, Other(clickedSquare.squareId)))
  }

  /** `Array.from({ length })` reads a negative length as 0. */
  function Length(size: int): nat
  {
    if size < 0 then 0 else size
  }

  /** `createBoardDescriptor`: `boardSize` rows. */
  function CreateBoardDescriptor(boardState: BoardState, boardSize: int): BoardDescriptor
  {
    BoardDescriptor(seq(Length(boardSize), index => CreateRowDescriptor(boardState, index, boardSize)))
  }

  /** `createRowDescriptor`: row `index`, `boardSize` squares. */
  function CreateRowDescriptor(boardState: BoardState, index: int, boardSize: int): RowDescriptor
  {
    RowDescriptor(index, seq(Length(boardSize), columnIndex => CreateSquareDescriptor(boardState, index, columnIndex)))
  }

  /** `createSquareDescriptor`. */
  function CreateSquareDescriptor(boardState: BoardState, rowIndex: int, columnIndex: int): SquareDescriptor
  {
    var squareId := RetrieveSquareId(rowIndex, columnIndex);
    SquareDescriptor(squareId, ComputeSquareColor(rowIndex, columnIndex), ComputeContent(boardState, squareId))
  }

  /** `retrieveSquareId`: the id of a square, the same for the same
      coordinates. */
  function RetrieveSquareId(rowIndex: int, columnIndex: int): SquareId
  {
    CreateSquareId(rowIndex, columnIndex)
  }

  /** `createSquareId`. */
  function CreateSquareId(rowIndex: int, columnIndex: int): SquareId
  {
    SquareId(rowIndex, columnIndex, (rowIndex - columnIndex, rowIndex + columnIndex + BoardSize))
  }

  /** JavaScript's `a % b`: the remainder of division truncated toward
      zero, so it takes the sign of `a`. The three facts below determine
      it: `a` minus it is a multiple of `b`, it lies strictly between `-b`
      and `b`, and it is not of the opposite sign to `a`. */
  function JsRemainder(a: int, b: int): (r: int)
    requires b > 0
    ensures (a - r) % b == 0
    ensures -b < r < b
    ensures a >= 0 ==> r >= 0
    ensures a < 0 ==> r <= 0
  {
    if a >= 0 then
      DivModOf(a / b, 0, b);
      assert a - a % b == a / b * b + 0;
      a % b
    else
      DivModOf(-((-a) / b), 0, b);
      assert a + (-a) % b == -((-a) / b) * b + 0;
      -((-a) % b)
  }

  /** `computeSquareColor`: black when `(column + row % 2) % 2` is not 0. */
  function ComputeSquareColor(rowIndex: int, columnIndex: int): SquareColor
  {
    if JsRemainder(columnIndex + JsRemainder(rowIndex, 2), 2) != 0 then Black else White
  }

  /** `computeContent`: a queen first, then blocked, else empty. */
  function ComputeContent(boardState: BoardState, squareId: SquareId): SquareContent
  {
    if squareId in boardState.queens then Queen
    else if CheckIfBlocked(boardState, squareId) then Blocked
    else Empty
  }

  /** `checkIfBlocked`. */
  predicate CheckIfBlocked(boardState: BoardState, squareId: SquareId)
  {
    CheckIfBlockedColumn(boardState, squareId)
    || CheckIfBlockedRow(boardState, squareId)
    || CheckIfBlockedDiagonal(boardState, squareId)
  }

  /** `checkIfBlockedColumn`. */
  predicate CheckIfBlockedColumn(boardState: BoardState, squareId: SquareId)
  {
    squareId.columnIndex in ComputeBlockedColumns(boardState)
  }

  /** `computeBlockedColumns`: the column of every queen. */
  function ComputeBlockedColumns(boardState: BoardState): seq<int>
  {
    seq(|boardState.queens|, i requires 0 <= i < |boardState.queens| => boardState.queens[i].columnIndex)
  }

  /** `checkIfBlockedRow`. */
  predicate CheckIfBlockedRow(boardState: BoardState, squareId: SquareId)
  {
    squareId.rowIndex in ComputeBlockedRows(boardState)
  }

  /** `computeBlockedRows`: the row of every queen. */
  function ComputeBlockedRows(boardState: BoardState): seq<int>
  {
    seq(|boardState.queens|, i requires 0 <= i < |boardState.queens| => boardState.queens[i].rowIndex)
  }

  /** `checkIfBlockedDiagonal`: some blocked diagonal index is one of the
      square's two. Both kinds of index are pooled, so a match between a
      diagonal index and an anti-diagonal index counts too. */
  predicate CheckIfBlockedDiagonal(boardState: BoardState, squareId: SquareId)
  {
    var blockedDiagonals := ComputeBlockedDiagonals(boardState.queens);
    exists k :: 0 <= k < |blockedDiagonals|
      && (blockedDiagonals[k] == squareId.diagonalIndices.0 || blockedDiagonals[k] == squareId.diagonalIndices.1)
  }

  /** `computeBlockedDiagonals`: the two diagonal indices of every queen,
      concatenated from the left onto `[]`. */
  function ComputeBlockedDiagonals(queens: seq<SquareId>): (r: seq<int>)
    ensures |r| == 2 * |queens|
  {
    if |queens| == 0 then []
    else
      var last := queens[|queens| - 1];
      ComputeBlockedDiagonals(queens[..|queens| - 1]) + [last.diagonalIndices.0, last.diagonalIndices.1]
  }
}
