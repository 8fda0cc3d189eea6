/** What the N-Queens graph guarantees, and what the A* engine then
    guarantees about `findNQueensProblemSolution`. */
module NQueensTheory {
  import opened Maybes
  import opened Arithmetic
  import opened Seqs
  import opened Geometry
  import opened AStar
  import opened AStarTheory
  import opened NQueens

  /** The squares of a board of side `n` in row-major order: the square at
      position `k` is in row `k / n`, column `k % n`. */
  function RowMajor(n: nat): (r: seq<SquareCoordinates>)
    ensures |r| == n * n
  {
    seq(n * n, k requires 0 <= k < n * n => SquareCoordinates(k / n, k % n))
  }

  /** The first `p` squares of a board of side `n` in row-major order. */
  function Prefix(n: nat, p: nat): (r: seq<SquareCoordinates>)
    requires p <= n * n
    ensures |r| == p
  {
    seq(p, k requires 0 <= k < p => SquareCoordinates(k / n, k % n))
  }

  /** Row `row` of the board appended to the squares before it, in
      row-major order, gives the squares up to the end of that row. */
  lemma AppendRow(n: nat, row: nat, p: nat)
    requires row < n && p == row * n
    ensures p + n <= n * n
    ensures Prefix(n, p) + seq(n, column => SquareCoordinates(row, column)) == Prefix(n, p + n)
  {
    MultipleAtLeast(n - row, n);
    assert (n - row) * n == n * n - p;
    var front := Prefix(n, p);
    var last := seq(n, column => SquareCoordinates(row, column));
    var expected := Prefix(n, p + n);
    forall k | p <= k < p + n ensures expected[k] == (front + last)[k] {
      DivModOf(row, k - p, n);
    }
    assert forall k :: 0 <= k < p ==> expected[k] == (front + last)[k];
  }

  /** The first `m` rows, joined, are the first `m * n` squares in
      row-major order. */
  lemma {:induction false} RowsPrefix(n: nat, m: nat, p: nat)
    requires 1 <= m <= n && p == m * n
    ensures p <= n * n
    ensures ConcatAll(Rows(n)[..m]) == Success(Prefix(n, p))
  {
    var rows := Rows(n)[..m];
    assert rows[m - 1] == seq(n, column => SquareCoordinates(m - 1, column));
    AppendRow(n, m - 1, p - n);
    if m == 1 {
      assert Prefix(n, 0) == [];
      assert [] + rows[0] == rows[0];
    } else {
      RowsPrefix(n, m - 1, p - n);
      assert rows[..m - 1] == Rows(n)[..m - 1];
    }
  }

  /** `generateAllCoordinates` throws for a board size of 0 or less and
      otherwise lists every square in row-major order. */
  lemma GenerateAllCoordinatesRowMajor(boardSize: int)
    ensures boardSize <= 0 ==> GenerateAllCoordinates(boardSize) == Failure(EmptyBoard)
    ensures boardSize > 0 ==> GenerateAllCoordinates(boardSize) == Success(RowMajor(boardSize))
  {
    if boardSize > 0 {
      RowsPrefix(boardSize, boardSize, boardSize * boardSize);
      assert Rows(boardSize)[..boardSize] == Rows(boardSize);
      assert Prefix(boardSize, boardSize * boardSize) == RowMajor(boardSize);
    }
  }

  /** A position on the board has its row on the board. */
  lemma DivBelow(k: int, n: nat)
    requires 0 <= k < n * n
    ensures 0 <= k / n < n
  {
    var q, m := k / n, k % n;
    assert k == q * n + m && 0 <= m < n;
    if q >= n {
      MultipleAtLeast(q - n + 1, n);
      assert false;
    }
    if q < 0 {
      MultipleAtLeast(-q, n);
      assert false;
    }
  }

  /** A square of the board has its position on the board. */
  lemma PositionBelow(row: int, column: int, n: nat)
    requires 0 <= row < n && 0 <= column < n
    ensures 0 <= row * n + column < n * n
  {
    if row < n - 1 {
      MultipleAtLeast(n - 1 - row, n);
      assert (n - 1 - row) * n == n * n - n - row * n;
    }
    if row > 0 {
      MultipleAtLeast(row, n);
    }
  }

  /** The row-major list holds exactly the squares of the board. */
  lemma RowMajorCovers(n: nat, s: SquareCoordinates)
    ensures s in RowMajor(n) <==> 0 <= s.row < n && 0 <= s.column < n
  {
    if s in RowMajor(n) {
      var k :| 0 <= k < n * n && RowMajor(n)[k] == s;
      DivBelow(k, n);
    }
    if 0 <= s.row < n && 0 <= s.column < n {
      var k := s.row * n + s.column;
      PositionBelow(s.row, s.column, n);
      DivModOf(s.row, s.column, n);
      assert RowMajor(n)[k] == s;
    }
  }

  /** The squares no queen on `q` attacks. */
  function NotAttackedBy(q: SquareCoordinates): SquareCoordinates -> bool
  {
    (s: SquareCoordinates) => !Attacks(s, q)
  }

  /** The four filters of `filterAvailableSquares` keep exactly the squares
      the new queen does not attack, in their order. */
  lemma FilterAvailableSquaresUnattacked(squares: seq<SquareCoordinates>, q: SquareCoordinates)
    ensures FilterAvailableSquares(squares, q) == Filter(squares, NotAttackedBy(q))
    ensures forall s :: s in FilterAvailableSquares(squares, q) <==> s in squares && !Attacks(s, q)
    ensures IsSubsequence(FilterAvailableSquares(squares, q), squares)
  {
    var lines := (s: SquareCoordinates) => OffColumn(q)(s) && OffRow(q)(s);
    FilterFilter(squares, OffColumn(q), OffRow(q), lines);
    var lines3 := (s: SquareCoordinates) => lines(s) && OffDiagonal(q)(s);
    FilterFilter(squares, lines, OffDiagonal(q), lines3);
    var lines4 := (s: SquareCoordinates) => lines3(s) && OffAntiDiagonal(q)(s);
    FilterFilter(squares, lines3, OffAntiDiagonal(q), lines4);
    FilterCongruent(squares, lines4, NotAttackedBy(q));
    FilterFacts(squares, NotAttackedBy(q));
  }

  /** The squares no queen of `queens` attacks. */
  function SafeFrom(queens: Solution): SquareCoordinates -> bool
  {
    (s: SquareCoordinates) => forall i :: 0 <= i < |queens| ==> !Attacks(s, queens[i])
  }

  /** The squares of the board no queen of `queens` attacks, in row-major
      order. */
  function Unattacked(n: nat, queens: Solution): seq<SquareCoordinates>
  {
    Filter(RowMajor(n), SafeFrom(queens))
  }

  /** The node the search holds for the queens `queens`: the counts agree
      with the sequences, and the available squares are the unattacked
      squares of the board. */
  function Node(n: nat, queens: Solution): GraphNode
  {
    GraphNode(queens, |queens|, |Unattacked(n, queens)|, Unattacked(n, queens))
  }

  /** `queens` is a placement the search can build: one queen per row from
      row 0, all on the board, no two attacking each other. */
  predicate ValidPlacement(n: nat, queens: Solution)
  {
    && |queens| <= n
    && (forall i :: 0 <= i < |queens| ==> queens[i].row == i && 0 <= queens[i].column < n)
    && (forall i, j :: 0 <= i < j < |queens| ==> !Attacks(queens[i], queens[j]))
  }

  /** The first node of the search is the node with no queens; a board
      size of 0 or less throws. */
  lemma EmptyNode(boardSize: int)
    ensures boardSize <= 0 ==> CreateEmptyGraphNode(boardSize) == Failure(EmptyBoard)
    ensures boardSize > 0 ==> CreateEmptyGraphNode(boardSize) == Success(Node(boardSize, []))
    ensures boardSize > 0 ==> |Node(boardSize, []).availableSquares| == boardSize * boardSize
  {
    GenerateAllCoordinatesRowMajor(boardSize);
    if boardSize > 0 {
      FilterKeepsAll(RowMajor(boardSize), SafeFrom([]));
    }
  }

  /** Placing a queen on a node the search holds gives the node of the
      longer placement. */
  lemma CreateGraphNodeIsNode(n: nat, queens: Solution, c: SquareCoordinates)
    ensures CreateGraphNode(Node(n, queens), c) == Node(n, queens + [c])
  {
    var more := queens + [c];
    FilterAvailableSquaresUnattacked(Unattacked(n, queens), c);
    forall s | s in RowMajor(n)
      ensures SafeFrom(more)(s) <==> SafeFrom(queens)(s) && NotAttackedBy(c)(s)
    {
      assert forall i :: 0 <= i < |queens| ==> more[i] == queens[i];
      assert more[|queens|] == c;
    }
    FilterFilter(RowMajor(n), SafeFrom(queens), NotAttackedBy(c), SafeFrom(more));
  }

  /** The next row of a placement's node is the row after its last queen. */
  lemma NextRowOfNode(n: nat, queens: Solution)
    requires ValidPlacement(n, queens)
    ensures NextRow(Node(n, queens)) == |queens|
  {
  }

  /** One more queen keeps a placement valid exactly when it goes on an
      unattacked square of the next row. */
  lemma ExtendValid(n: nat, queens: Solution, c: SquareCoordinates)
    requires ValidPlacement(n, queens)
    ensures ValidPlacement(n, queens + [c]) <==> c in Unattacked(n, queens) && c.row == |queens|
  {
    var more := queens + [c];
    FilterFacts(RowMajor(n), SafeFrom(queens));
    RowMajorCovers(n, c);
    assert forall i :: 0 <= i < |queens| ==> more[i] == queens[i];
    if ValidPlacement(n, more) {
      assert more[|queens|] == c;
      forall i | 0 <= i < |queens| ensures !Attacks(c, queens[i]) {
        assert !Attacks(more[i], more[|queens|]);
      }
    }
    if c in Unattacked(n, queens) && c.row == |queens| {
      forall i, j | 0 <= i < j < |more| ensures !Attacks(more[i], more[j]) {
        if j == |queens| {
          assert !Attacks(c, queens[i]);
        }
      }
    }
  }

  /** A prefix of a valid placement is valid. */
  lemma PrefixValid(n: nat, queens: Solution, k: nat)
    requires ValidPlacement(n, queens) && k <= |queens|
    ensures ValidPlacement(n, queens[..k])
  {
  }

  /** Every neighbour of a placement's node is the node of a valid
      placement one queen longer that extends it. */
  lemma NeighborIsExtension(n: nat, queens: Solution, k: nat)
    requires ValidPlacement(n, queens)
    requires k < |GenerateNeighbors(Node(n, queens))|
    ensures var next := GenerateNeighbors(Node(n, queens))[k];
      && |next.solution| == |queens| + 1
      && next.solution[..|queens|] == queens
      && ValidPlacement(n, next.solution)
      && next == Node(n, next.solution)
  {
    var node := Node(n, queens);
    NextRowOfNode(n, queens);
    var squares := Filter(node.availableSquares, InRow(|queens|));
    FilterFacts(node.availableSquares, InRow(|queens|));
    var c := squares[k];
    CreateGraphNodeIsNode(n, queens, c);
    ExtendValid(n, queens, c);
    assert (queens + [c])[..|queens|] == queens;
  }

  /** Every valid placement one queen longer has its node among the
      neighbours. */
  lemma ExtensionIsNeighbor(n: nat, queens: Solution, c: SquareCoordinates)
    requires ValidPlacement(n, queens + [c])
    ensures Node(n, queens + [c]) in GenerateNeighbors(Node(n, queens))
  {
    assert (queens + [c])[..|queens|] == queens;
    PrefixValid(n, queens + [c], |queens|);
    var node := Node(n, queens);
    NextRowOfNode(n, queens);
    ExtendValid(n, queens, c);
    var squares := Filter(node.availableSquares, InRow(|queens|));
    FilterFacts(node.availableSquares, InRow(|queens|));
    var k :| 0 <= k < |squares| && squares[k] == c;
    CreateGraphNodeIsNode(n, queens, c);
    assert GenerateNeighbors(node)[k] == Node(n, queens + [c]);
  }

  /** Each child `generateNeighbors` makes places one queen on an
      available square of the next row. */
  lemma ChildrenExtend(node: GraphNode)
    ensures var r := GenerateNeighbors(node);
      forall i :: 0 <= i < |r| ==>
        && |r[i].solution| == |node.solution| + 1
        && r[i].solution[..|node.solution|] == node.solution
        && r[i].solution[|node.solution|] in node.availableSquares
        && r[i].solution[|node.solution|].row == NextRow(node)
        && r[i] == CreateGraphNode(node, r[i].solution[|node.solution|])
  {
    var r := GenerateNeighbors(node);
    var squares := Filter(node.availableSquares, InRow(NextRow(node)));
    FilterFacts(node.availableSquares, InRow(NextRow(node)));
    forall i | 0 <= i < |r| ensures r[i].solution == node.solution + [squares[i]] {
    }
  }

  /** The squares the children place their queen on come in the order of
      the available squares. */
  lemma ChildrenInOrder(node: GraphNode)
    ensures var r := GenerateNeighbors(node);
      IsSubsequence(seq(|r|, i requires 0 <= i < |r| && |node.solution| < |r[i].solution| =>
                          r[i].solution[|node.solution|]),
                    node.availableSquares)
  {
    var r := GenerateNeighbors(node);
    var squares := Filter(node.availableSquares, InRow(NextRow(node)));
    FilterFacts(node.availableSquares, InRow(NextRow(node)));
    assert seq(|r|, i requires 0 <= i < |r| && |node.solution| < |r[i].solution| =>
             r[i].solution[|node.solution|]) == squares;
  }

  /** Every available square of the next row gives a child. */
  lemma EveryFreeSquareHasChild(node: GraphNode, c: SquareCoordinates)
    requires c in node.availableSquares && c.row == NextRow(node)
    ensures CreateGraphNode(node, c) in GenerateNeighbors(node)
  {
    var squares := Filter(node.availableSquares, InRow(NextRow(node)));
    FilterFacts(node.availableSquares, InRow(NextRow(node)));
    var k :| 0 <= k < |squares| && squares[k] == c;
    assert GenerateNeighbors(node)[k] == CreateGraphNode(node, c);
  }

  /** Placing a queen on an available square leaves strictly fewer
      available squares, and the count kept with them is their number. */
  lemma ChildHasFewerSquares(node: GraphNode, c: SquareCoordinates)
    requires c in node.availableSquares
    ensures var child := CreateGraphNode(node, c);
      && child.numberOfAvailableSquares == |child.availableSquares|
      && |child.availableSquares| < |node.availableSquares|
  {
    FilterAvailableSquaresUnattacked(node.availableSquares, c);
    FilterShrinks(node.availableSquares, NotAttackedBy(c), c);
  }

  /** Every node a walk from the first node reaches is the node of a valid
      placement with one queen per step. */
  lemma {:induction false} WalkFromEmpty(n: nat, path: seq<GraphNode>)
    requires |path| > 0 && path[0] == Node(n, []) && IsWalk(path, Tools(n))
    ensures var last := path[|path| - 1];
      && ValidPlacement(n, last.solution)
      && last == Node(n, last.solution)
      && |last.solution| == |path| - 1
    decreases |path|
  {
    if |path| > 1 {
      var front := path[..|path| - 1];
      forall i | 0 <= i < |front| - 1 ensures front[i + 1] in Tools(n).findNeighbors(front[i]) {
        assert front[i] == path[i] && front[i + 1] == path[i + 1];
      }
      WalkFromEmpty(n, front);
      var previous := path[|path| - 2];
      assert path[|path| - 1] in GenerateNeighbors(previous);
      var k :| 0 <= k < |GenerateNeighbors(previous)| && GenerateNeighbors(previous)[k] == path[|path| - 1];
      NeighborIsExtension(n, previous.solution, k);
    }
  }

  /** The nodes of the prefixes of `queens`, shortest first. */
  function PrefixNodes(n: nat, queens: Solution): (r: seq<GraphNode>)
    ensures |r| == |queens| + 1
  {
    seq(|queens| + 1, i requires 0 <= i <= |queens| => Node(n, queens[..i]))
  }

  /** Every valid placement is reached from the first node by the walk
      through the nodes of its prefixes. */
  lemma PrefixNodesWalk(n: nat, queens: Solution)
    requires ValidPlacement(n, queens)
    ensures var walk := PrefixNodes(n, queens);
      && walk[0] == Node(n, [])
      && walk[|walk| - 1] == Node(n, queens)
      && IsWalk(walk, Tools(n))
  {
    var walk := PrefixNodes(n, queens);
    assert queens[..|queens|] == queens;
    forall i | 0 <= i < |walk| - 1 ensures walk[i + 1] in Tools(n).findNeighbors(walk[i]) {
      assert queens[..i + 1] == queens[..i] + [queens[i]];
      PrefixValid(n, queens, i + 1);
      ExtensionIsNeighbor(n, queens[..i], queens[i]);
    }
  }

  /** A placement returned by `findNQueensProblemSolution` holds `n`
      queens, one per row, none attacking another. */
  lemma SolutionIsValid(n: int, fuel: nat, solution: Solution)
    requires FindNQueensProblemSolution(n, fuel) == Success(Returned(Just(solution)))
    ensures n > 0 && |solution| == n && ValidPlacement(n, solution)
  {
    EmptyNode(n);
    var start := Node(n, []);
    var run := AStarSearch(start, Tools(n), fuel);
    ResultIsWalkToGoal(start, Tools(n), fuel);
    WalkFromEmpty(n, run.result.value);
  }

  /** When `findNQueensProblemSolution` finds no placement, no valid
      placement of `n` queens exists. */
  lemma NoSolutionMeansNone(n: int, fuel: nat, queens: Solution)
    requires FindNQueensProblemSolution(n, fuel) == Success(Returned(Nothing))
    ensures n > 0
    ensures ValidPlacement(n, queens) ==> |queens| < n
  {
    EmptyNode(n);
    if ValidPlacement(n, queens) {
      var start := Node(n, []);
      PrefixNodesWalk(n, queens);
      ExhaustedMeansNoReachableGoal(start, Tools(n), fuel, PrefixNodes(n, queens));
    }
  }

  /** Once the search returns, it returns a placement exactly when a valid
      placement of `n` queens exists. */
  lemma SolutionExactlyWhenOneExists(n: nat, fuel: nat, answer: Maybe<Solution>)
    requires FindNQueensProblemSolution(n, fuel) == Success(Returned(answer))
    ensures answer.Just? <==> exists queens :: ValidPlacement(n, queens) && |queens| == n
  {
    if answer.Just? {
      SolutionIsValid(n, fuel, answer.value);
    } else {
      forall queens | ValidPlacement(n, queens) ensures |queens| != n {
        NoSolutionMeansNone(n, fuel, queens);
      }
    }
  }

  /** The squares of the board. */
  ghost function Board(n: nat): set<SquareCoordinates>
  {
    set s | s in RowMajor(n)
  }

  /** The sequences of `k` squares of `board`. */
  ghost function SeqsOfLength(board: set<SquareCoordinates>, k: nat): set<Solution>
  {
    if k == 0 then {[]}
    else set p, c | p in SeqsOfLength(board, k - 1) && c in board :: p + [c]
  }

  /** The sequences of at most `k` squares of `board`. */
  ghost function ShortSeqs(board: set<SquareCoordinates>, k: nat): set<Solution>
  {
    if k == 0 then {[]} else ShortSeqs(board, k - 1) + SeqsOfLength(board, k)
  }

  /** A sequence of squares of `board` is among those of its length. */
  lemma {:induction false} InSeqsOfLength(board: set<SquareCoordinates>, p: Solution)
    requires forall i :: 0 <= i < |p| ==> p[i] in board
    ensures p in SeqsOfLength(board, |p|)
    decreases |p|
  {
    if |p| > 0 {
      var front := p[..|p| - 1];
      InSeqsOfLength(board, front);
      assert p == front + [p[|p| - 1]];
    }
  }

  /** A sequence of at most `k` squares of `board` is among the short
      ones. */
  lemma {:induction false} InShortSeqs(board: set<SquareCoordinates>, p: Solution, k: nat)
    requires |p| <= k && forall i :: 0 <= i < |p| ==> p[i] in board
    ensures p in ShortSeqs(board, k)
    decreases k
  {
    if |p| == k {
      InSeqsOfLength(board, p);
    } else {
      InShortSeqs(board, p, k - 1);
    }
  }

  /** The nodes of all valid placements: a finite set. */
  ghost function PlacementNodes(n: nat): set<GraphNode>
  {
    set p | p in ShortSeqs(Board(n), n) && ValidPlacement(n, p) :: Node(n, p)
  }

  /** A neighbour of a placement's node is a placement node. */
  lemma NeighborInPlacementNodes(n: nat, p: Solution, k: nat)
    requires ValidPlacement(n, p) && k < |GenerateNeighbors(Node(n, p))|
    ensures GenerateNeighbors(Node(n, p))[k] in PlacementNodes(n)
  {
    NeighborIsExtension(n, p, k);
    var q := GenerateNeighbors(Node(n, p))[k].solution;
    forall i | 0 <= i < |q| ensures q[i] in Board(n) {
      RowMajorCovers(n, q[i]);
    }
    InShortSeqs(Board(n), q, n);
  }

  /** The placement nodes contain the first node and every neighbour of
      each of their nodes. */
  lemma PlacementNodesClosed(n: nat)
    ensures Node(n, []) in PlacementNodes(n)
    ensures ClosedUnderNeighbors(PlacementNodes(n), Tools(n))
  {
    InShortSeqs(Board(n), [], n);
    forall x, k | x in PlacementNodes(n) && 0 <= k < |Tools(n).findNeighbors(x)|
      ensures Tools(n).findNeighbors(x)[k] in PlacementNodes(n)
    {
      var p :| p in ShortSeqs(Board(n), n) && ValidPlacement(n, p) && x == Node(n, p);
      NeighborInPlacementNodes(n, p, k);
    }
  }

  /** With more fuel than there are placement nodes, the search returns. */
  lemma SearchTerminates(n: nat, fuel: nat)
    requires n > 0 && fuel > |PlacementNodes(n)|
    ensures FindNQueensProblemSolution(n, fuel).Success?
    ensures FindNQueensProblemSolution(n, fuel).value.Returned?
  {
    EmptyNode(n);
    PlacementNodesClosed(n);
    FiniteGraphTerminates(Node(n, []), Tools(n), fuel, PlacementNodes(n));
  }
}
