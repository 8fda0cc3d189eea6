/** The generic backtracking engine: an eager depth-first search and the
    same search as a resumable stepper.

    The stepper of the program hands out a `continue` closure with every
    step; each closure captures the successors still to be tried and the
    closure of the parent frame. Here a closure is the value that describes
    it: `Continue` is that chain of frames, and calling a closure is
    `Invoke`. */
module Backtracking {
  import opened Maybes

  /** What the engine is given: the successors of a node, in the order they
      are to be tried, and the test for a solution. */
  datatype ProblemDefinition<!N> = ProblemDefinition(
    findSortedSuccessors: N -> seq<N>,
    checkIfSolution: N -> bool)

  /** `rank` strictly decreases from every node to each of its successors,
      so the successor tree below any node is finite. The engine itself
      does not need this; the model needs it to show that the eager search
      terminates. */
  ghost predicate Ranked<N(!new)>(problem: ProblemDefinition<N>, rank: N -> nat)
  {
    forall n, i :: 0 <= i < |problem.findSortedSuccessors(n)| ==>
      rank(problem.findSortedSuccessors(n)[i]) < rank(n)
  }

  /** One more than the largest rank in `nodes` (0 for none). */
  ghost function Bound<N>(nodes: seq<N>, rank: N -> nat): nat
  {
    if |nodes| == 0 then 0
    else
      var rest := Bound(nodes[1..], rank);
      if rank(nodes[0]) + 1 > rest then rank(nodes[0]) + 1 else rest
  }

  lemma BoundBelow<N>(nodes: seq<N>, rank: N -> nat, b: nat)
    requires forall i :: 0 <= i < |nodes| ==> rank(nodes[i]) < b
    ensures Bound(nodes, rank) <= b
  {
  }

  /** `resolveWithBacktracking`: the node itself when it is a solution,
      otherwise the first result found below its successors, tried left to
      right; `Nothing` (`undefined`) when there is none. */
  function ResolveWithBacktracking<N(!new)>(
    currentNode: N, problem: ProblemDefinition<N>, ghost rank: N -> nat): (r: Maybe<N>)
    requires Ranked(problem, rank)
    ensures problem.checkIfSolution(currentNode) ==> r == Just(currentNode)
    ensures r.Just? ==> problem.checkIfSolution(r.value)
    decreases rank(currentNode) + 1, 0
  {
    if problem.checkIfSolution(currentNode) then Just(currentNode)
    else
      var successors := problem.findSortedSuccessors(currentNode);
      BoundBelow(successors, rank, rank(currentNode));
      TrySuccessors(successors, problem, rank)
  }

  /** The `while (true)` loop of `resolveWithBacktracking`: shift the next
      successor off the list and search below it; stop at the first
      defined result, or with `Nothing` once the list is empty. */
  function TrySuccessors<N(!new)>(
    successors: seq<N>, problem: ProblemDefinition<N>, ghost rank: N -> nat): (r: Maybe<N>)
    requires Ranked(problem, rank)
    ensures r.Just? ==> problem.checkIfSolution(r.value)
    decreases Bound(successors, rank), |successors|
  {
    if |successors| == 0 then Nothing
    else
      match ResolveWithBacktracking(successors[0], problem, rank)
      case Just(found) => Just(found)
      case Nothing => TrySuccessors(successors[1..], problem, rank)
  }

  /** A `continue` closure. `Throws` is the closure of a final step;
      `Exhausted` is the default predecessor, which yields the final step
      without a candidate; `Resume` retries the remaining `successors` of a
      frame and falls back on `parent` when they run out. */
  datatype Continue<N> =
    | Throws
    | Exhausted
    | Resume(successors: seq<N>, parent: Continue<N>)

  /** The error thrown by the closure of a final step. */
  datatype BacktrackingError = SolutionAlreadyFound

  /** A step of the resumable search (`PartialSolution`). */
  datatype PartialSolution<N> = PartialSolution(
    isSolution: bool,
    solutionCandidate: Maybe<N>,
    continuation: Continue<N>)

  /** A chain of frames that ends in the default predecessor and so never
      reaches a throwing closure. */
  predicate Chain<N>(k: Continue<N>)
  {
    match k
    case Throws => false
    case Exhausted => true
    case Resume(_, parent) => Chain(parent)
  }

  /** The shape of every step the engine hands out: a final step carries the
      throwing closure; a non-final step has a candidate and a chain of
      frames to continue with. */
  predicate WellFormed<N>(step: PartialSolution<N>)
  {
    if step.isSolution then step.continuation == Throws
    else step.solutionCandidate.Just? && step.continuation.Resume? && Chain(step.continuation)
  }

  /** `createFinalSolution`: a final step whose closure throws. */
  function CreateFinalSolution<N>(solution: Maybe<N>): (r: PartialSolution<N>)
    ensures WellFormed(r) && r.isSolution && r.solutionCandidate == solution
  {
    PartialSolution(true, solution, Throws)
  }

  /** `resolvePartiallyWithBacktracking`: a final step on a solution;
      otherwise a non-final step on `currentNode` whose closure will try its
      successors before falling back on `continuePredecessor`. */
  function ResolvePartiallyWithBacktracking<N>(
    currentNode: N, problem: ProblemDefinition<N>, continuePredecessor: Continue<N>): (r: PartialSolution<N>)
    ensures Chain(continuePredecessor) ==> WellFormed(r)
    ensures r.solutionCandidate == Just(currentNode)
    ensures r.isSolution <==> problem.checkIfSolution(currentNode)
  {
    if problem.checkIfSolution(currentNode) then CreateFinalSolution(Just(currentNode))
    else
      PartialSolution(
        false,
        Just(currentNode),
        Resume(problem.findSortedSuccessors(currentNode), continuePredecessor))
  }

  /** The entry point, called without a predecessor closure: the default
      predecessor yields the final step with no candidate. */
  function FirstStep<N>(root: N, problem: ProblemDefinition<N>): (r: PartialSolution<N>)
    ensures WellFormed(r) && r.solutionCandidate == Just(root)
    ensures r.isSolution <==> problem.checkIfSolution(root)
  {
    ResolvePartiallyWithBacktracking(root, problem, Exhausted)
  }

  /** Calling a closure. */
  function Invoke<N>(k: Continue<N>, problem: ProblemDefinition<N>): (r: Result<PartialSolution<N>, BacktrackingError>)
    ensures Chain(k) ==> r.Success? && WellFormed(r.value)
    ensures k.Throws? ==> r == Failure(SolutionAlreadyFound)
    ensures r.Failure? ==> r.error == SolutionAlreadyFound
    decreases k, 0
  {
    match k
    case Throws => Failure(SolutionAlreadyFound)
    case Exhausted => Success(CreateFinalSolution(Nothing))
    case Resume(successors, parent) => TryToResolveWithNextSuccessor(successors, problem, parent)
  }

  /** `tryToResolveWithNextSuccessor`: enter the next successor, whose own
      step falls back on the rest of this frame; with no successor left,
      call the predecessor's closure. */
  function TryToResolveWithNextSuccessor<N>(
    successors: seq<N>, problem: ProblemDefinition<N>, continuePredecessor: Continue<N>)
    : (r: Result<PartialSolution<N>, BacktrackingError>)
    ensures Chain(continuePredecessor) ==> r.Success? && WellFormed(r.value)
    decreases continuePredecessor, 1
  {
    if |successors| == 0 then Invoke(continuePredecessor, problem)
    else
      Success(ResolvePartiallyWithBacktracking(
        successors[0], problem, Resume(successors[1..], continuePredecessor)))
  }

  /** `step.continuation()`: fails with "solution already found" exactly on a
      final step, and yields a well-formed step otherwise. */
  function Advance<N>(step: PartialSolution<N>, problem: ProblemDefinition<N>): (r: Result<PartialSolution<N>, BacktrackingError>)
    ensures r.Failure? ==> r.error == SolutionAlreadyFound
    ensures WellFormed(step) ==> (r.Failure? <==> step.isSolution)
    ensures WellFormed(step) && r.Success? ==> WellFormed(r.value)
  {
    Invoke(step.continuation, problem)
  }
}
