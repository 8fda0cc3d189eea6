/** `findNQueensProblemSolution` on the smallest boards. */
module NQueensExamples {
  import opened Maybes
  import opened AStar
  import opened NQueens
  import opened NQueensTheory

  /** On a one-square board the search, given the fuel to finish, places
      the one queen on that square. */
  lemma OneQueen(fuel: nat)
    requires fuel > |PlacementNodes(1)|
    ensures FindNQueensProblemSolution(1, fuel) == Success(Returned(Just([SquareCoordinates(0, 0)])))
  {
    SearchTerminates(1, fuel);
    var answer := FindNQueensProblemSolution(1, fuel).value.value;
    assert ValidPlacement(1, [SquareCoordinates(0, 0)]);
    SolutionExactlyWhenOneExists(1, fuel, answer);
    var solution := answer.value;
    SolutionIsValid(1, fuel, solution);
    assert solution[0] == SquareCoordinates(0, 0);
    assert solution == [solution[0]];
  }

  /** What a valid placement says about two of its queens. */
  lemma TwoOf(n: nat, queens: Solution, i: nat, j: nat)
    requires ValidPlacement(n, queens) && i < j < |queens|
    ensures queens[i].row == i && queens[j].row == j
    ensures 0 <= queens[i].column < n && 0 <= queens[j].column < n
    ensures !Attacks(queens[i], queens[j])
  {
  }

  /** No two queens fit on a 2 by 2 board. */
  lemma NoTwoQueens(queens: Solution)
    requires ValidPlacement(2, queens)
    ensures |queens| < 2
  {
    if |queens| == 2 {
      TwoOf(2, queens, 0, 1);
      assert false;
    }
  }

  /** No three queens fit on a 3 by 3 board. */
  lemma NoThreeQueens(queens: Solution)
    requires ValidPlacement(3, queens)
    ensures |queens| < 3
  {
    if |queens| == 3 {
      TwoOf(3, queens, 0, 1);
      TwoOf(3, queens, 1, 2);
      TwoOf(3, queens, 0, 2);
      assert false;
    }
  }

  /** On a board of side 2 or 3 the search, given the fuel to finish,
      finds no placement. */
  lemma NoSolutionForTwoOrThree(n: nat, fuel: nat)
    requires (n == 2 || n == 3) && fuel > |PlacementNodes(n)|
    ensures FindNQueensProblemSolution(n, fuel) == Success(Returned(Nothing))
  {
    SearchTerminates(n, fuel);
    var answer := FindNQueensProblemSolution(n, fuel).value.value;
    SolutionExactlyWhenOneExists(n, fuel, answer);
    if answer.Just? {
      var queens :| ValidPlacement(n, queens) && |queens| == n;
      if n == 2 {
        NoTwoQueens(queens);
      } else {
        NoThreeQueens(queens);
      }
      assert false;
    }
  }
}
