/** The eager search with the program's own end-of-list test: the loop of
    `resolveWithBacktracking` stops when `successors.shift()` returns a
    falsy value, which is meant to detect an empty list but also stops at a
    node that is itself falsy (`0`, `""`, `null`). `truthy` says which
    nodes JavaScript treats as true. The rest of the model tests the list
    for emptiness instead. */
module BacktrackingAsWritten {
  import opened Maybes
  import opened Backtracking

  /** `resolveWithBacktracking` with the truthiness test as written. */
  function ResolveAsWritten<N(!new)>(
    currentNode: N, problem: ProblemDefinition<N>, truthy: N -> bool, ghost rank: N -> nat): (r: Maybe<N>)
    requires Ranked(problem, rank)
    ensures r.Just? ==> problem.checkIfSolution(r.value)
    decreases rank(currentNode) + 1, 0
  {
    if problem.checkIfSolution(currentNode) then Just(currentNode)
    else
      var successors := problem.findSortedSuccessors(currentNode);
      BoundBelow(successors, rank, rank(currentNode));
      TrySuccessorsAsWritten(successors, problem, truthy, rank)
  }

  /** The loop as written: a falsy successor ends it like an empty list. */
  function TrySuccessorsAsWritten<N(!new)>(
    successors: seq<N>, problem: ProblemDefinition<N>, truthy: N -> bool, ghost rank: N -> nat): (r: Maybe<N>)
    requires Ranked(problem, rank)
    ensures r.Just? ==> problem.checkIfSolution(r.value)
    decreases Bound(successors, rank), |successors|
  {
    if |successors| == 0 || !truthy(successors[0]) then Nothing
    else
      match ResolveAsWritten(successors[0], problem, truthy, rank)
      case Just(found) => Just(found)
      case Nothing => TrySuccessorsAsWritten(successors[1..], problem, truthy, rank)
  }

  /** When every node is truthy, as for the object nodes of the N-Queens
      graph, the search as written is the modelled one. */
  lemma {:induction false} AsWrittenAgreesOnTruthyNodes<N(!new)>(
    n: N, problem: ProblemDefinition<N>, truthy: N -> bool, rank: N -> nat)
    requires Ranked(problem, rank) && forall x :: truthy(x)
    ensures ResolveAsWritten(n, problem, truthy, rank) == ResolveWithBacktracking(n, problem, rank)
    decreases rank(n) + 1, 0
  {
    if !problem.checkIfSolution(n) {
      var successors := problem.findSortedSuccessors(n);
      BoundBelow(successors, rank, rank(n));
      TrySuccessorsAgree(successors, problem, truthy, rank);
    }
  }

  lemma {:induction false} TrySuccessorsAgree<N(!new)>(
    successors: seq<N>, problem: ProblemDefinition<N>, truthy: N -> bool, rank: N -> nat)
    requires Ranked(problem, rank) && forall x :: truthy(x)
    ensures TrySuccessorsAsWritten(successors, problem, truthy, rank) == TrySuccessors(successors, problem, rank)
    decreases Bound(successors, rank), |successors|
  {
    if |successors| > 0 {
      AsWrittenAgreesOnTruthyNodes(successors[0], problem, truthy, rank);
      TrySuccessorsAgree(successors[1..], problem, truthy, rank);
    }
  }

  /** Numbers as nodes: 1 has the successors 0 and 2, and 2 is the
      solution. */
  function Numbers(): ProblemDefinition<int>
  {
    ProblemDefinition(
      (n: int) => if n == 1 then [0, 2] else [],
      (n: int) => n == 2)
  }

  /** A witness that successors only go down. */
  function NumberRank(n: int): nat
  {
    if n == 1 then 1 else 0
  }

  /** From 1, the search as written meets the falsy node 0 first and gives
      up, although the solution 2 is the next successor; the modelled
      search finds it. */
  lemma FalsyNodeEndsSearch()
    ensures Ranked(Numbers(), NumberRank)
    ensures ResolveAsWritten(1, Numbers(), (n: int) => n != 0, NumberRank) == Nothing
    ensures ResolveWithBacktracking(1, Numbers(), NumberRank) == Just(2)
  {
    var p := Numbers();
    assert Ranked(p, NumberRank);
    assert p.findSortedSuccessors(1) == [0, 2];
    assert [0, 2][1..] == [2];
    assert ResolveWithBacktracking(0, p, NumberRank) == Nothing;
    assert TrySuccessors([2], p, NumberRank) == Just(2);
    assert TrySuccessors([0, 2], p, NumberRank) == Just(2);
  }
}
