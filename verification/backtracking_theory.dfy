/** What the backtracking engine computes, stated against an independent
    reference: the full pre-order of the successor tree. The eager search
    returns the first solution in that order; every advance of the stepper
    enters the next node of that order; advancing to the end finds what the
    eager search finds. */
module BacktrackingTheory {
  import opened Maybes
  import opened Backtracking

  /** Every node of the successor tree below `n`, in pre-order: a node
      before its successors' subtrees, successors left to right. */
  ghost function PreOrder<N(!new)>(n: N, problem: ProblemDefinition<N>, rank: N -> nat): seq<N>
    requires Ranked(problem, rank)
    decreases rank(n) + 1, 0
  {
    var successors := problem.findSortedSuccessors(n);
    BoundBelow(successors, rank, rank(n));
    [n] + PreOrderOfAll(successors, problem, rank)
  }

  /** The pre-orders of the subtrees below `nodes`, one after the other. */
  ghost function PreOrderOfAll<N(!new)>(nodes: seq<N>, problem: ProblemDefinition<N>, rank: N -> nat): seq<N>
    requires Ranked(problem, rank)
    decreases Bound(nodes, rank), |nodes|
  {
    if |nodes| == 0 then []
    else PreOrder(nodes[0], problem, rank) + PreOrderOfAll(nodes[1..], problem, rank)
  }

  /** The first element of `xs` that is a solution. */
  function First<N>(xs: seq<N>, isSolution: N -> bool): Maybe<N>
  {
    if |xs| == 0 then Nothing
    else if isSolution(xs[0]) then Just(xs[0])
    else First(xs[1..], isSolution)
  }

  /** `xs` up to and including its first solution; all of `xs` if it has none. */
  function UpToFirst<N>(xs: seq<N>, isSolution: N -> bool): seq<N>
  {
    if |xs| == 0 then []
    else if isSolution(xs[0]) then [xs[0]]
    else [xs[0]] + UpToFirst(xs[1..], isSolution)
  }

  /** `First` is the leftmost solution: it is a member and a solution, and
      nothing before it is; with no solution in `xs` it is `Nothing`. */
  lemma {:induction false} FirstIsLeftmost<N>(xs: seq<N>, isSolution: N -> bool)
    ensures First(xs, isSolution).Nothing? <==> forall i :: 0 <= i < |xs| ==> !isSolution(xs[i])
    ensures First(xs, isSolution).Just? ==>
      exists k :: 0 <= k < |xs| && xs[k] == First(xs, isSolution).value && isSolution(xs[k])
        && forall i :: 0 <= i < k ==> !isSolution(xs[i])
  {
    if |xs| > 0 && !isSolution(xs[0]) {
      FirstIsLeftmost(xs[1..], isSolution);
      if First(xs[1..], isSolution).Just? {
        var k :| 0 <= k < |xs[1..]| && xs[1..][k] == First(xs[1..], isSolution).value
          && isSolution(xs[1..][k]) && forall i :: 0 <= i < k ==> !isSolution(xs[1..][i]);
        assert xs[k + 1] == xs[1..][k];
        forall i | 0 <= i < k + 1 ensures !isSolution(xs[i]) {
          if i > 0 { assert xs[i] == xs[1..][i - 1]; }
        }
      } else {
        forall i | 0 <= i < |xs| ensures !isSolution(xs[i]) {
          if i > 0 { assert xs[i] == xs[1..][i - 1]; }
        }
      }
    }
  }

  lemma {:induction false} FirstAppend<N>(a: seq<N>, b: seq<N>, isSolution: N -> bool)
    ensures First(a + b, isSolution)
      == if First(a, isSolution).Just? then First(a, isSolution) else First(b, isSolution)
  {
    if |a| > 0 {
      assert (a + b)[1..] == a[1..] + b;
      FirstAppend(a[1..], b, isSolution);
    } else {
      assert a + b == b;
    }
  }

  lemma {:induction false} UpToFirstAppend<N>(a: seq<N>, b: seq<N>, isSolution: N -> bool)
    ensures UpToFirst(a + b, isSolution)
      == if First(a, isSolution).Just? then UpToFirst(a, isSolution) else a + UpToFirst(b, isSolution)
  {
    if |a| > 0 {
      assert (a + b)[1..] == a[1..] + b;
      UpToFirstAppend(a[1..], b, isSolution);
    } else {
      assert a + b == b;
    }
  }

  /** The eager search returns the first solution in pre-order, so
      successors are tried strictly in list order and depth first. */
  lemma {:induction false} ResolveIsFirstInPreOrder<N(!new)>(n: N, problem: ProblemDefinition<N>, rank: N -> nat)
    requires Ranked(problem, rank)
    ensures ResolveWithBacktracking(n, problem, rank)
      == First(PreOrder(n, problem, rank), problem.checkIfSolution)
    decreases rank(n) + 1, 0
  {
    var successors := problem.findSortedSuccessors(n);
    BoundBelow(successors, rank, rank(n));
    var rest := PreOrderOfAll(successors, problem, rank);
    assert PreOrder(n, problem, rank) == [n] + rest;
    assert ([n] + rest)[1..] == rest;
    if !problem.checkIfSolution(n) {
      TrySuccessorsIsFirstInPreOrder(successors, problem, rank);
    }
  }

  lemma {:induction false} TrySuccessorsIsFirstInPreOrder<N(!new)>(nodes: seq<N>, problem: ProblemDefinition<N>, rank: N -> nat)
    requires Ranked(problem, rank)
    ensures TrySuccessors(nodes, problem, rank)
      == First(PreOrderOfAll(nodes, problem, rank), problem.checkIfSolution)
    decreases Bound(nodes, rank), |nodes|
  {
    if |nodes| > 0 {
      ResolveIsFirstInPreOrder(nodes[0], problem, rank);
      TrySuccessorsIsFirstInPreOrder(nodes[1..], problem, rank);
      FirstAppend(PreOrder(nodes[0], problem, rank), PreOrderOfAll(nodes[1..], problem, rank), problem.checkIfSolution);
    }
  }

  /** `c` walks the successor relation: each node is among the successors
      of the one before it. */
  ghost predicate IsChain<N>(c: seq<N>, problem: ProblemDefinition<N>)
  {
    |c| > 0 && forall i :: 0 <= i < |c| - 1 ==> c[i + 1] in problem.findSortedSuccessors(c[i])
  }

  /** The end of every chain from `n` occurs in the pre-order below `n`. */
  lemma {:induction false} ChainEndInPreOrder<N(!new)>(c: seq<N>, problem: ProblemDefinition<N>, rank: N -> nat)
    requires Ranked(problem, rank) && IsChain(c, problem)
    ensures c[|c| - 1] in PreOrder(c[0], problem, rank)
    decreases |c|
  {
    if |c| > 1 {
      var tail := c[1..];
      assert IsChain(tail, problem) by {
        forall i | 0 <= i < |tail| - 1 ensures tail[i + 1] in problem.findSortedSuccessors(tail[i]) {
          assert tail[i] == c[i + 1] && tail[i + 1] == c[i + 2];
        }
      }
      ChainEndInPreOrder(tail, problem, rank);
      var successors := problem.findSortedSuccessors(c[0]);
      var k :| 0 <= k < |successors| && successors[k] == c[1];
      BoundBelow(successors, rank, rank(c[0]));
      PreOrderOfAllContains(successors, k, problem, rank);
      var last := c[|c| - 1];
      assert last == tail[|tail| - 1];
      assert last in multiset(PreOrder(successors[k], problem, rank));
      assert last in PreOrderOfAll(successors, problem, rank);
      assert PreOrder(c[0], problem, rank) == [c[0]] + PreOrderOfAll(successors, problem, rank);
    }
  }

  lemma {:induction false} PreOrderOfAllContains<N(!new)>(nodes: seq<N>, k: nat, problem: ProblemDefinition<N>, rank: N -> nat)
    requires Ranked(problem, rank) && k < |nodes|
    ensures multiset(PreOrder(nodes[k], problem, rank)) <= multiset(PreOrderOfAll(nodes, problem, rank))
    decreases |nodes|
  {
    if k > 0 {
      PreOrderOfAllContains(nodes[1..], k - 1, problem, rank);
    }
  }

  /** Every node in the pre-order below `n` ends a chain from `n`. */
  lemma {:induction false} PreOrderHasChain<N(!new)>(n: N, x: N, problem: ProblemDefinition<N>, rank: N -> nat)
    returns (c: seq<N>)
    requires Ranked(problem, rank) && x in PreOrder(n, problem, rank)
    ensures IsChain(c, problem) && c[0] == n && c[|c| - 1] == x
    decreases rank(n) + 1, 0
  {
    var successors := problem.findSortedSuccessors(n);
    BoundBelow(successors, rank, rank(n));
    if x == n {
      c := [n];
    } else {
      var k := PreOrderOfAllMember(successors, x, problem, rank);
      var below := PreOrderHasChain(successors[k], x, problem, rank);
      c := [n] + below;
      forall i | 0 <= i < |c| - 1 ensures c[i + 1] in problem.findSortedSuccessors(c[i]) {
        if i > 0 { assert c[i] == below[i - 1] && c[i + 1] == below[i]; }
      }
    }
  }

  /** A node in the pre-orders of `nodes` lies below one of them. */
  lemma {:induction false} PreOrderOfAllMember<N(!new)>(nodes: seq<N>, x: N, problem: ProblemDefinition<N>, rank: N -> nat)
    returns (k: nat)
    requires Ranked(problem, rank) && x in PreOrderOfAll(nodes, problem, rank)
    ensures k < |nodes| && x in PreOrder(nodes[k], problem, rank)
    ensures rank(nodes[k]) + 1 <= Bound(nodes, rank)
    decreases |nodes|
  {
    if x in PreOrder(nodes[0], problem, rank) {
      k := 0;
    } else {
      var j := PreOrderOfAllMember(nodes[1..], x, problem, rank);
      k := j + 1;
    }
  }

  /** A defined result of the eager search is a solution reachable from the
      start through successor lists. */
  lemma ResolveFindsReachableSolution<N(!new)>(n: N, problem: ProblemDefinition<N>, rank: N -> nat)
    returns (c: seq<N>)
    requires Ranked(problem, rank) && ResolveWithBacktracking(n, problem, rank).Just?
    ensures IsChain(c, problem) && c[0] == n
    ensures c[|c| - 1] == ResolveWithBacktracking(n, problem, rank).value
    ensures problem.checkIfSolution(c[|c| - 1])
  {
    ResolveIsFirstInPreOrder(n, problem, rank);
    FirstIsLeftmost(PreOrder(n, problem, rank), problem.checkIfSolution);
    c := PreOrderHasChain(n, ResolveWithBacktracking(n, problem, rank).value, problem, rank);
  }

  /** The eager search returns `Nothing` exactly when no node reachable from
      the start is a solution: here, the end of any chain from the start
      is not a solution once the search has returned `Nothing`. */
  lemma ResolveNothingMeansNoSolution<N(!new)>(c: seq<N>, problem: ProblemDefinition<N>, rank: N -> nat)
    requires Ranked(problem, rank) && IsChain(c, problem)
    requires ResolveWithBacktracking(c[0], problem, rank).Nothing?
    ensures !problem.checkIfSolution(c[|c| - 1])
  {
    ResolveIsFirstInPreOrder(c[0], problem, rank);
    FirstIsLeftmost(PreOrder(c[0], problem, rank), problem.checkIfSolution);
    ChainEndInPreOrder(c, problem, rank);
  }

  /** The nodes a chain of frames has still to visit, in visiting order:
      the pre-order of each frame's remaining successors, innermost frame
      first. */
  ghost function Pending<N(!new)>(k: Continue<N>, problem: ProblemDefinition<N>, rank: N -> nat): seq<N>
    requires Ranked(problem, rank)
  {
    match k
    case Throws => []
    case Exhausted => []
    case Resume(successors, parent) =>
      PreOrderOfAll(successors, problem, rank) + Pending(parent, problem, rank)
  }

  /** One call of a frame's closure enters exactly the next pending node,
      or ends the search without a candidate when nothing is pending. The
      step it returns is final exactly when that node is a solution, and a
      non-final step leaves the rest of the pending nodes pending. */
  lemma {:induction false} NextSuccessorEntersNextPending<N(!new)>(
    successors: seq<N>, problem: ProblemDefinition<N>, parent: Continue<N>, rank: N -> nat)
    requires Ranked(problem, rank) && Chain(parent)
    ensures
      var w := PreOrderOfAll(successors, problem, rank) + Pending(parent, problem, rank);
      var r := TryToResolveWithNextSuccessor(successors, problem, parent);
      && r.Success?
      && (|w| == 0 ==> r.value == CreateFinalSolution(Nothing))
      && (|w| > 0 ==>
           && r.value.solutionCandidate == Just(w[0])
           && (r.value.isSolution <==> problem.checkIfSolution(w[0]))
           && (!r.value.isSolution ==> Pending(r.value.continuation, problem, rank) == w[1..]))
    decreases parent, |successors|
  {
    if |successors| == 0 {
      match parent
      case Exhausted =>
      case Resume(more, grand) =>
        NextSuccessorEntersNextPending(more, problem, grand, rank);
    } else {
      var x := successors[0];
      var below := problem.findSortedSuccessors(x);
      BoundBelow(below, rank, rank(x));
      var own := PreOrderOfAll(below, problem, rank);
      var rest := PreOrderOfAll(successors[1..], problem, rank);
      var up := Pending(parent, problem, rank);
      assert PreOrderOfAll(successors, problem, rank) == [x] + own + rest;
      assert ([x] + own + rest + up)[0] == x;
      assert ([x] + own + rest + up)[1..] == own + (rest + up);
    }
  }

  /** Advancing a non-final step from the engine enters the next pending
      node, or ends without a candidate when nothing is pending. */
  lemma AdvanceEntersNextPending<N(!new)>(step: PartialSolution<N>, problem: ProblemDefinition<N>, rank: N -> nat)
    requires Ranked(problem, rank) && WellFormed(step) && !step.isSolution
    ensures
      var w := Pending(step.continuation, problem, rank);
      var r := Advance(step, problem);
      && r.Success?
      && (|w| == 0 ==> r.value == CreateFinalSolution(Nothing))
      && (|w| > 0 ==>
           && r.value.solutionCandidate == Just(w[0])
           && (r.value.isSolution <==> problem.checkIfSolution(w[0]))
           && (!r.value.isSolution ==> Pending(r.value.continuation, problem, rank) == w[1..]))
  {
    NextSuccessorEntersNextPending(step.continuation.successors, problem, step.continuation.parent, rank);
  }

  /** The outcome of advancing a step until it is final. */
  datatype Drained<N> = Drained(final: PartialSolution<N>, advances: nat, visited: seq<N>)

  /** How much work a step has left: its pending nodes, plus one for the
      advance that ends the search. */
  ghost function Remaining<N(!new)>(step: PartialSolution<N>, problem: ProblemDefinition<N>, rank: N -> nat): nat
    requires Ranked(problem, rank)
  {
    if step.isSolution then 0 else |Pending(step.continuation, problem, rank)| + 1
  }

  /** The driver that keeps calling `continue` until a step is final,
      collecting the candidate of every step it sees. It always stops; it
      ends with the first pending solution, visits the pending nodes up
      to it, and needs one advance per node entered (plus one when the
      search runs dry). */
  ghost function Drain<N(!new)>(step: PartialSolution<N>, problem: ProblemDefinition<N>, rank: N -> nat): (r: Drained<N>)
    requires Ranked(problem, rank) && WellFormed(step)
    ensures r.final.isSolution && WellFormed(r.final)
    ensures step.isSolution ==> r.final == step && r.advances == 0
    ensures !step.isSolution ==>
      var w := Pending(step.continuation, problem, rank);
      && r.final.solutionCandidate == First(w, problem.checkIfSolution)
      && r.visited == [step.solutionCandidate.value] + UpToFirst(w, problem.checkIfSolution)
      && r.advances == |UpToFirst(w, problem.checkIfSolution)|
                       + (if First(w, problem.checkIfSolution).Nothing? then 1 else 0)
    decreases Remaining(step, problem, rank)
  {
    if step.isSolution then
      Drained(step, 0, match step.solutionCandidate case Just(x) => [x] case Nothing => [])
    else
      AdvanceEntersNextPending(step, problem, rank);
      var next := Advance(step, problem).value;
      var rest := Drain(next, problem, rank);
      Drained(rest.final, rest.advances + 1, [step.solutionCandidate.value] + rest.visited)
  }

  /** The stepper and the eager search agree: driving the first step to the
      end yields what `resolveWithBacktracking` returns, the candidates it
      shows are the nodes the eager search tests, in the same order, and
      the number of advances is the number of nodes whose successors the
      eager search asks for. */
  lemma StepperAgreesWithEagerSearch<N(!new)>(root: N, problem: ProblemDefinition<N>, rank: N -> nat)
    requires Ranked(problem, rank)
    ensures
      var d := Drain(FirstStep(root, problem), problem, rank);
      var visits := UpToFirst(PreOrder(root, problem, rank), problem.checkIfSolution);
      && d.final.solutionCandidate == ResolveWithBacktracking(root, problem, rank)
      && d.visited == visits
      && d.advances == |visits| - (if d.final.solutionCandidate.Just? then 1 else 0)
  {
    var successors := problem.findSortedSuccessors(root);
    BoundBelow(successors, rank, rank(root));
    var rest := PreOrderOfAll(successors, problem, rank);
    assert PreOrder(root, problem, rank) == [root] + rest;
    assert ([root] + rest)[1..] == rest;
    ResolveIsFirstInPreOrder(root, problem, rank);
    if !problem.checkIfSolution(root) {
      assert Pending(FirstStep(root, problem).continuation, problem, rank) == rest + [];
      assert rest + [] == rest;
    }
  }

  /** Advancing any final step fails, the exhausted one without a candidate
      included. */
  lemma AdvancingFinalStepFails<N>(solution: Maybe<N>, problem: ProblemDefinition<N>)
    ensures Advance(CreateFinalSolution(solution), problem) == Failure(SolutionAlreadyFound)
  {
  }
}
