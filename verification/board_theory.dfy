/** What the board shows and how clicks change it, stated in chess terms. */
module BoardTheory {
  import opened Seqs
  import opened Geometry
  import opened Board
  import opened Arithmetic

  /** An id the board hands out: a square of the 8 by 8 board with its
      diagonal indices. */
  predicate OnBoard(id: SquareId)
  {
    0 <= id.rowIndex < BoardSize && 0 <= id.columnIndex < BoardSize
    && id == CreateSquareId(id.rowIndex, id.columnIndex)
  }

  predicate AllOnBoard(queens: seq<SquareId>)
  {
    forall i :: 0 <= i < |queens| ==> OnBoard(queens[i])
  }

  /** Queens on `a` and `b` attack each other. */
  predicate Attacking(a: SquareId, b: SquareId)
  {
    SharesLine(a.rowIndex, a.columnIndex, b.rowIndex, b.columnIndex)
  }

  /** Some queen attacks the square `s`. */
  predicate Attacked(queens: seq<SquareId>, s: SquareId)
  {
    exists i :: 0 <= i < |queens| && Attacking(queens[i], s)
  }

  /** No two queens attack each other (so none occurs twice). */
  predicate NonAttacking(queens: seq<SquareId>)
  {
    forall i, j :: 0 <= i < j < |queens| ==> !Attacking(queens[i], queens[j])
  }

  /** The contract of `JsRemainder` leaves one value: any `r` that differs
      from `a` by a multiple of `b`, lies strictly between `-b` and `b`
      and is not of the opposite sign to `a` is the truncated remainder. */
  lemma JsRemainderUnique(a: int, b: int, r: int)
    requires b > 0 && (a - r) % b == 0 && -b < r < b
    requires a >= 0 ==> r >= 0
    requires a < 0 ==> r <= 0
    ensures r == JsRemainder(a, b)
  {
    var t := JsRemainder(a, b);
    var q, p := (a - r) / b, (a - t) / b;
    assert a - r == q * b && a - t == p * b;
    assert t - r == (q - p) * b;
    if q > p {
      MultipleAtLeast(q - p, b);
      assert false;
    } else if q < p {
      MultipleAtLeast(p - q, b);
      assert false;
    }
  }

  /** JavaScript's `a % 2` is 0 exactly for even `a`, and it differs from
      `a` by an even number. */
  lemma JsRemainderTwo(a: int)
    ensures JsRemainder(a, 2) != 0 <==> a % 2 == 1
    ensures (a - JsRemainder(a, 2)) % 2 == 0
  {
  }

  /** A square is black exactly when its row and column add up to an odd
      number, for every row and column, negative ones included. */
  lemma ColorIsParity(rowIndex: int, columnIndex: int)
    ensures ComputeSquareColor(rowIndex, columnIndex) == Black <==> (rowIndex + columnIndex) % 2 == 1
  {
    var t := JsRemainder(rowIndex, 2);
    JsRemainderTwo(rowIndex);
    JsRemainderTwo(columnIndex + t);
    assert (columnIndex + t) % 2 == (rowIndex + columnIndex) % 2;
  }

  /** Squares next to each other in a row or in a column differ in colour. */
  lemma NeighboursDifferInColor(rowIndex: int, columnIndex: int)
    ensures ComputeSquareColor(rowIndex, columnIndex) != ComputeSquareColor(rowIndex, columnIndex + 1)
    ensures ComputeSquareColor(rowIndex, columnIndex) != ComputeSquareColor(rowIndex + 1, columnIndex)
  {
    ColorIsParity(rowIndex, columnIndex);
    ColorIsParity(rowIndex, columnIndex + 1);
    ColorIsParity(rowIndex + 1, columnIndex);
  }

  /** `retrieveSquareId` gives one id per square. */
  lemma SquareIdsIdentifySquares(r1: int, c1: int, r2: int, c2: int)
    ensures RetrieveSquareId(r1, c1) == RetrieveSquareId(r2, c2) <==> r1 == r2 && c1 == c2
    ensures OnBoard(RetrieveSquareId(r1, c1)) <==> 0 <= r1 < BoardSize && 0 <= c1 < BoardSize
  {
  }

  /** The blocked diagonals are the two indices of each queen. */
  lemma {:induction false} BlockedDiagonalsAre(queens: seq<SquareId>, x: int)
    ensures x in ComputeBlockedDiagonals(queens)
      <==> exists i :: 0 <= i < |queens| && (x == queens[i].diagonalIndices.0 || x == queens[i].diagonalIndices.1)
  {
    if |queens| > 0 {
      var front := queens[..|queens| - 1];
      BlockedDiagonalsAre(front, x);
      if exists i :: 0 <= i < |front| && (x == front[i].diagonalIndices.0 || x == front[i].diagonalIndices.1) {
        var i :| 0 <= i < |front| && (x == front[i].diagonalIndices.0 || x == front[i].diagonalIndices.1);
        assert queens[i] == front[i];
      }
      if exists i :: 0 <= i < |queens| && (x == queens[i].diagonalIndices.0 || x == queens[i].diagonalIndices.1) {
        var i :| 0 <= i < |queens| && (x == queens[i].diagonalIndices.0 || x == queens[i].diagonalIndices.1);
        if i < |front| {
          assert queens[i] == front[i];
        }
      }
    }
  }

  /** On the board the diagonal indices run over -7..7 and the
      anti-diagonal ones over 8..22, so pooling them mixes nothing up. */
  lemma DiagonalRangesApart(a: SquareId, b: SquareId)
    requires OnBoard(a) && OnBoard(b)
    ensures a.diagonalIndices.0 != b.diagonalIndices.1
    ensures a.diagonalIndices.0 == b.diagonalIndices.0 <==> a.rowIndex - a.columnIndex == b.rowIndex - b.columnIndex
    ensures a.diagonalIndices.1 == b.diagonalIndices.1 <==> a.rowIndex + a.columnIndex == b.rowIndex + b.columnIndex
  {
  }

  /** A square of the board is blocked exactly when a queen shares its
      column, row, diagonal or anti-diagonal. */
  lemma BlockedIffAttacked(boardState: BoardState, s: SquareId)
    requires AllOnBoard(boardState.queens) && OnBoard(s)
    ensures CheckIfBlocked(boardState, s) <==> Attacked(boardState.queens, s)
  {
    var queens := boardState.queens;
    if CheckIfBlocked(boardState, s) {
      if CheckIfBlockedColumn(boardState, s) {
        var k :| 0 <= k < |queens| && ComputeBlockedColumns(boardState)[k] == s.columnIndex;
        assert Attacking(queens[k], s);
      } else if CheckIfBlockedRow(boardState, s) {
        var k :| 0 <= k < |queens| && ComputeBlockedRows(boardState)[k] == s.rowIndex;
        assert Attacking(queens[k], s);
      } else {
        var blocked := ComputeBlockedDiagonals(queens);
        var k :| 0 <= k < |blocked| && (blocked[k] == s.diagonalIndices.0 || blocked[k] == s.diagonalIndices.1);
        BlockedDiagonalsAre(queens, blocked[k]);
        var i :| 0 <= i < |queens| && (blocked[k] == queens[i].diagonalIndices.0 || blocked[k] == queens[i].diagonalIndices.1);
        DiagonalRangesApart(queens[i], s);
        DiagonalRangesApart(s, queens[i]);
        assert Attacking(queens[i], s);
      }
    }
    if Attacked(queens, s) {
      var i :| 0 <= i < |queens| && Attacking(queens[i], s);
      var q := queens[i];
      if q.columnIndex == s.columnIndex {
        assert ComputeBlockedColumns(boardState)[i] == s.columnIndex;
      } else if q.rowIndex == s.rowIndex {
        assert ComputeBlockedRows(boardState)[i] == s.rowIndex;
      } else {
        DiagonalRangesApart(q, s);
        var x := if q.diagonalIndices.0 == s.diagonalIndices.0 then q.diagonalIndices.0 else q.diagonalIndices.1;
        BlockedDiagonalsAre(queens, x);
        var blocked := ComputeBlockedDiagonals(queens);
        var k :| 0 <= k < |blocked| && blocked[k] == x;
        assert CheckIfBlockedDiagonal(boardState, s);
      }
    }
  }

  /** Off the board the pooled indices can clash: a queen on (0, 9) blocks
      the square (17, 0), which it does not attack, because the first's
      anti-diagonal index and the second's diagonal index are both 17. */
  lemma PooledIndicesClashOffBoard()
    ensures var queen := RetrieveSquareId(0, 9);
      var square := RetrieveSquareId(17, 0);
      CheckIfBlocked(BoardState([queen]), square) && !Attacking(queen, square)
  {
    var queen := RetrieveSquareId(0, 9);
    var square := RetrieveSquareId(17, 0);
    var blocked := ComputeBlockedDiagonals([queen]);
    assert blocked[1] == 17 == square.diagonalIndices.0;
  }

  /** What a square shows: a queen when one stands on it, blocked when it
      is free but attacked, empty when no queen attacks it. */
  lemma ContentMeaning(boardState: BoardState, s: SquareId)
    requires AllOnBoard(boardState.queens) && OnBoard(s)
    ensures ComputeContent(boardState, s) == Queen <==> s in boardState.queens
    ensures ComputeContent(boardState, s) == Blocked <==> s !in boardState.queens && Attacked(boardState.queens, s)
    ensures ComputeContent(boardState, s) == Empty <==> !Attacked(boardState.queens, s)
  {
    BlockedIffAttacked(boardState, s);
    if s in boardState.queens {
      var i :| 0 <= i < |boardState.queens| && boardState.queens[i] == s;
      assert Attacking(boardState.queens[i], s);
    }
  }

  /** Filtering keeps queens that do not attack each other apart. */
  lemma {:induction false} FilterKeepsPeace(queens: seq<SquareId>, keep: SquareId -> bool)
    requires NonAttacking(queens)
    ensures NonAttacking(Filter(queens, keep))
  {
    if |queens| > 0 {
      var tail := queens[1..];
      assert NonAttacking(tail) by {
        forall i, j | 0 <= i < j < |tail| ensures !Attacking(tail[i], tail[j]) {
          assert tail[i] == queens[i + 1] && tail[j] == queens[j + 1];
        }
      }
      FilterKeepsPeace(tail, keep);
      var rest := Filter(tail, keep);
      if keep(queens[0]) {
        var r := Filter(queens, keep);
        assert r == [queens[0]] + rest;
        FilterFacts(tail, keep);
        forall i, j | 0 <= i < j < |r| ensures !Attacking(r[i], r[j]) {
          assert r[j] == rest[j - 1];
          if i == 0 {
            var k :| 0 <= k < |tail| && tail[k] == rest[j - 1];
            assert !Attacking(queens[0], queens[k + 1]);
          } else {
            assert r[i] == rest[i - 1];
          }
        }
      }
    }
  }

  /** `removeQueenFromBoard` takes off every queen on the clicked square
      and keeps the others, in order. */
  lemma RemoveQueenKeepsOthers(boardState: BoardState, clickedSquare: SquareDescriptor)
    ensures var queens := RemoveQueenFromBoard(boardState, clickedSquare).queens;
      && (forall x :: x in queens <==> x in boardState.queens && x != clickedSquare.squareId)
      && IsSubsequence(queens, boardState.queens)
  {
    var keep := Other(clickedSquare.squareId);
    var queens := Filter(boardState.queens, keep);
    FilterFacts(boardState.queens, keep);
    forall x ensures x in queens <==> x in boardState.queens && x != clickedSquare.squareId {
      if x in queens {
        var i :| 0 <= i < |queens| && queens[i] == x;
      }
      if x in boardState.queens && x != clickedSquare.squareId {
        var i :| 0 <= i < |boardState.queens| && boardState.queens[i] == x;
      }
    }
  }

  /** A click on any square of a board whose queens are at peace leaves
      them at peace and on the board: a queen goes only on a square no
      queen attacks. */
  lemma ClickKeepsPeace(boardState: BoardState, rowIndex: int, columnIndex: int)
    requires AllOnBoard(boardState.queens) && NonAttacking(boardState.queens)
    requires 0 <= rowIndex < BoardSize && 0 <= columnIndex < BoardSize
    ensures var next := UpdateBoardState(boardState, CreateSquareDescriptor(boardState, rowIndex, columnIndex));
      AllOnBoard(next.queens) && NonAttacking(next.queens)
  {
    var clicked := CreateSquareDescriptor(boardState, rowIndex, columnIndex);
    var s := clicked.squareId;
    var queens := boardState.queens;
    var next := UpdateBoardState(boardState, clicked);
    match clicked.content
    case Empty =>
      ContentMeaning(boardState, s);
      assert next.queens == queens + [s];
      forall i, j | 0 <= i < j < |next.queens| ensures !Attacking(next.queens[i], next.queens[j]) {
        if j == |queens| {
          assert next.queens[j] == s;
          assert next.queens[i] == queens[i];
        } else {
          assert next.queens[i] == queens[i] && next.queens[j] == queens[j];
        }
      }
      assert AllOnBoard(next.queens) by {
        forall i | 0 <= i < |next.queens| ensures OnBoard(next.queens[i]) {
          if i < |queens| {
            assert next.queens[i] == queens[i];
          }
        }
      }
    case Queen =>
      FilterKeepsPeace(queens, Other(s));
      FilterFacts(queens, Other(s));
    case Blocked =>
  }

  /** Clicking a free square and then clicking it again restores the board:
      the first click shows a queen there and the second takes it away. */
  lemma ClickTwiceRestores(boardState: BoardState, rowIndex: int, columnIndex: int)
    requires CreateSquareDescriptor(boardState, rowIndex, columnIndex).content == Empty
    ensures var next := UpdateBoardState(boardState, CreateSquareDescriptor(boardState, rowIndex, columnIndex));
      && CreateSquareDescriptor(next, rowIndex, columnIndex).content == Queen
      && UpdateBoardState(next, CreateSquareDescriptor(next, rowIndex, columnIndex)) == boardState
  {
    var clicked := CreateSquareDescriptor(boardState, rowIndex, columnIndex);
    var s := clicked.squareId;
    var queens := boardState.queens;
    var next := UpdateBoardState(boardState, clicked);
    assert next.queens == queens + [s];
    assert next.queens[|queens|] == s;
    var again := CreateSquareDescriptor(next, rowIndex, columnIndex);
    assert again.squareId == s;
    FilterAppend(queens, s, Other(s));
    FilterKeepsAll(queens, Other(s));
  }

  /** The board has `boardSize` rows (none for a negative size), row `i`
      has index `i` and `boardSize` squares, and its square `j` is the
      square (i, j). */
  lemma BoardDescriptorShape(boardState: BoardState, boardSize: int, i: int, j: int)
    ensures |CreateBoardDescriptor(boardState, boardSize).rows| == if boardSize < 0 then 0 else boardSize
    ensures 0 <= i < boardSize ==>
      var row := CreateBoardDescriptor(boardState, boardSize).rows[i];
      row.index == i && |row.squares| == boardSize
      && (0 <= j < boardSize ==> row.squares[j].squareId == RetrieveSquareId(i, j))
  {
  }

  /** What the 8 by 8 board the application draws shows on square (i, j):
      its colour follows the parity of `i + j`, and its content follows
      the queens as `ContentMeaning` says. */
  lemma BoardShows(boardState: BoardState, i: int, j: int)
    requires AllOnBoard(boardState.queens)
    requires 0 <= i < BoardSize && 0 <= j < BoardSize
    ensures var square := CreateBoardDescriptor(boardState, BoardSize).rows[i].squares[j];
      && square.squareId.rowIndex == i && square.squareId.columnIndex == j
      && (square.color == Black <==> (i + j) % 2 == 1)
      && (square.content == Queen <==> square.squareId in boardState.queens)
      && (square.content == Blocked <==> square.squareId !in boardState.queens && Attacked(boardState.queens, square.squareId))
      && (square.content == Empty <==> !Attacked(boardState.queens, square.squareId))
  {
    var square := CreateBoardDescriptor(boardState, BoardSize).rows[i].squares[j];
    assert square == CreateSquareDescriptor(boardState, i, j);
    ColorIsParity(i, j);
    ContentMeaning(boardState, square.squareId);
  }

  /** The board starts with every square empty. */
  lemma StartsEmpty(i: int, j: int)
    requires 0 <= i < BoardSize && 0 <= j < BoardSize
    ensures CreateBoardDescriptor(CreateEmptyBoardState(), BoardSize).rows[i].squares[j].content == Empty
  {
    BoardShows(CreateEmptyBoardState(), i, j);
  }
}
